# Verified model of the network simulator's OLSR router

A Dafny 4.11 model of the router, its data structures and its codecs. `dafny verify dfyconfig.toml` checks
everything; no proof is assumed. The router follows RFC 3626, the encapsulation the idea of RFC 2004, the checksum RFC 1071,
the JSON texts RFC 8259.

| files | what they model |
|---|---|
| `RbShape`, `RbDeletion`, `RbTree`, `RbOrder` | the red-black tree over an arena of cells with parent links and a shared sentinel; its meaning as an ordered set; the comparators |
| `TimerQueue` | the scheduler: re-arming, jitter, deferred free, callbacks that change the queue |
| `AddrTree` | iteration over an address tree in key order, which is what the tree above refines |
| `OlsrGraph`, `OlsrContext`, `OlsrSpf` | symmetrising the topology database, the shortest-path search, the report mirror |
| `OlsrTc` | TC bytes and what a received TC does to the topology database and the routes |
| `NetUtil`, `OlsrDelivery` | checksum, minimal encapsulation, the dispatch of received frames, the packet handlers, and delivery where every table has shortest routes |
| `OlsrCover`, `OlsrNeighbor`, `OlsrMpr` | relay selection and its greedy bound |
| `OlsrSetting`, `OlsrConvergence`, `OlsrRoutes` | converged neighbour tables, how HELLOs bring them about, and why links to selectors are enough for shortest routes over all links |
| `OlsrForwarding`, `OlsrNetwork`, `OlsrFlood`, `OlsrCompleteness`, `OlsrRelays` | the duplicate set of one node, the network as steps over all nodes and copies in the air, and the flooding theorems: at most once, everywhere, over relays only |
| `RingBuffers`, `SimServer` | the byte ring and the reassembly of length-prefixed frames |
| `OlsrProto`, `OlsrHelloCodec`, `OlsrPacket` | HELLO bytes, message headers, packet framing |
| `OlsrLink`, `OlsrHello`, `OlsrLifetime` | links, neighbours and selectors over HELLOs and timer expiries, and how long each entry lives |
| `OlsrMantissa` | the validity time code |
| `Json`, `JsonReading`, `JsonParser`, `JsonPrinter` | the JSON library: what it prints and reads, the parser over its cursor, the printer over its growing buffer |
| `JsonNumbers`, `JsonGrammar`, `JsonSound`, `JsonRoundTrip` | the grammar of RFC 8259 apart from the library, what of it the parser reads and what else, and the round trip |
| `Division`, `Powers` | division by repeated subtraction, and powers |

Code that changes state is a class or a method over the same fields; each such method is proved against a specification on
values, and the theorems are about that. A predicate written twice, once with a suffix `Now` and once behind
`forall k`, is the same predicate: the quantifier keeps its definition folded where only the name is needed.

The main results, with what they rest on:

- **Flooding.** `OlsrNetwork.FloodSafety` holds of every run, with loss, expiry and changing selectors.
  `OlsrCompleteness.FloodComplete` and `FairFloodComplete` join the coverage that `OlsrMpr.PopulateMprSet` establishes at each
  node to the network: a flood reaches every connected node exactly once. They speak of any run, however it began, from a state
  on in which the tables have converged, selectors mirror relays and the flood's number is free, be it unused or used before
  the counter wrapped around. Until the flood has drained they rest on fewer than 64 nodes, reliable delivery, no expiry of the
  flood's entries, and room in the transmit buffers; what happens afterwards does not matter.
  `OlsrRelays.OnlyForSelectors` says that nothing but the arrival of a copy from a selector makes a node retransmit, and
  `FloodOverRelays` and `OnlyRelaysSend` follow a flood through a settled network, with loss: it goes over nodes that were chosen
  as relays by the node before them, and a node that nobody chose stays silent.
  Copies of one packet may arrive in any order here; the program's order is one of them.
- **Convergence.** `OlsrConvergence.HellosConverge` derives that state. It speaks of fixed symmetric links, of any first state
  in which nodes believe nothing wrong, such as the start, and of rounds in each of which every node processes a HELLO of each
  neighbour. It rests on links and two-hop reports not timing out meanwhile (each is renewed every round), and on selectors
  timing out only after a round without news and at the latest after `hold` rounds. The order of HELLOs, delays of up to a
  round and the moment of each expiry are free. That nothing confirmed in time expires is `OlsrLifetime.LinkStays`,
  `SelectorExactly` and `ReportExactly`.
- **Lifetimes.** Every link, selector, two-hop report and originator carries the instant at which it is due to go.
  `OlsrLifetime` proves, over any order of HELLOs, TCs and expiries, that a selector, a report and an originator exist, and a link
  is symmetric, exactly as long as the news that confirmed it last is valid. `TimerQueue.ConfirmedStays` and `UnconfirmedExpires` say the same of the timers: one that is re-armed in time
  does not fire, and one that is not fires in the first pass from its instant on, once. `KeepsPace` bounds the time between
  two HELLOs of a node.
- **Relay selection.** The loop of the first pass re-inserts the element it stands on into another tree, so that the step to
  the next element follows the links of that tree: it always stops after the sole bridge with the smallest address
  (simnet/olsr/olsr_mpr.c:114). `OlsrMpr.AddUniqueBridgeToMpr` states this, and `PopulateMprSet` shows that the second pass
  covers everything all the same.
- **Routing.** `OlsrSpf.CalcRoutingTable` rests on at most fifty addresses in the network, the size of the program's arrays.
  `OlsrDelivery.Delivered` rests on tables with shortest routes over all links. Nobody knows all links: a TC lists MPR
  selectors only (simnet/olsr/olsr_tc.c:39-45). `OlsrRoutes.RelayLinksSuffice` proves that this is enough for such tables: in
  a shortest walk the last node but one can always be replaced by a relay of the last, so links to selectors contain a walk that
  is no longer. `OlsrRoutes.NetworkDelivers` joins it all: rounds of HELLOs, a TC of each node taken by every other since, and
  routes as the handlers keep them; then packets arrive between any two connected nodes over shortest paths.
  `OlsrDelivery.SentExactly` and `ReceivedExactly` say of every packet, deliverable or not, whether it is sent on, handed to the
  application or dropped; `ControlArrives` says that what the router itself sends is never taken for data.
- **Links and neighbours.** `OlsrHello.InitOlsrContext` establishes what every received HELLO or TC and every expiry keeps.
  Routes are kept as `OlsrSpf.Current` says: right, but perhaps for originators that advertise nothing (see below).
- **Red-black tree.** Any sequence of inserts and deletes keeps every invariant and refines an ordered set. Its keys are
  integers: by `RbOrder.PositionKeeps` a tree that looks at keys only through a comparator does the same on any keys on which
  the comparator is a strict total order, and the three comparators of the program are shown to be one.
- **JSON.** `JsonGrammar` has the texts of RFC 8259 with the values they stand for, written without the parser's functions.
  `TextParsed` says that the parser reads every such text to its value, `JsonSound.OnlyTexts` that it reads little else, and
  `JsonRoundTrip.RoundTrip` when a value, with any numbers, comes back from its print. Parser and printer are proved to
  compute the functions that these results are about, on every text, well formed or not. Conversion between text and floating
  point is the C library's, of which `Json.LibOk` asks what ISO C says of `strtod` (section 7.22.1.3 of C11), the length of what
  `sprintf` writes and that it writes a number of the grammar, and that 17 digits determine a double; `JsonRoundTrip.LibExists`
  shows that these can be met.
- **Timers.** The pass over the tree rests on one standing periodic timer, since the loop does not look for an empty tree
  (ext/timerqueue/timerqueue.c:159-160);
  `TimerQueue.TimerqueueContext.OlsrStartTimer` arms four. It also rests on intervals longer than their jitter, and on
  callbacks that respect the interface: a timer does not arm itself again in its own callback.

Things the model shows about the code:

- HELLO and TC take their sequence number from one counter that advances only when a packet leaves, and the duplicate set does
  not look at the type: a HELLO queued behind a TC in one packet is dropped as a duplicate. `OlsrNetwork.HelloBehindTc` has
  the run, `OlsrNetwork.HelloProcessed` says exactly when a HELLO is processed, and `OlsrForwarding.ProcessedExactly` says it of
  every message of every packet.
- A copy with a ttl of one is processed without an entry, so only copies with a larger ttl are processed at most once
  (`OlsrForwarding.ProcessedTwice`); the test for a ttl of zero at simnet/olsr/olsr_forwarding.c:96 never succeeds.
- The first TC of an originator that lists nothing adds it to the database without a calculation, although its links may count
  in the other direction from then on (simnet/olsr/olsr_tc.c:113-184). `OlsrTc.SilentExactly` says when the table is then no
  longer right, `OlsrTc.StaleTable` gives a case. `OlsrRoutes.CorrectEnough` shows that converged networks do not suffer.
- Of the addresses that a TC no longer lists at most ten are removed (`OlsrTc.ReplacedExactly`), and numbers are compared
  without regard to wrap-around: after number 65535 TCs are ignored until the entry has expired (`OlsrTc.ProcessOlsrTc`).
- The comparison of addresses is an order only within half of the address circle (`RbOrder.OrderIffHalfCircle`); the
  addresses the simulator assigns lie there.
- All three timers of a link have the callback that removes the link, so a stored link is never LOST and LOST_LINK is never
  announced (`OlsrHello.NeverLost`).
- A neighbour that is heard but has stopped naming this node loses its link altogether when the symmetric timer is due, and not
  just its symmetry, because of that callback (`OlsrLifetime.UnnamedLinkGoes`); its next HELLO makes the link anew.
- Data for port 698 over UDP that goes to a neighbour in plain is taken for routing traffic there
  (`OlsrDelivery.OneHopExactly`).
- A JSON number that is not an integer is printed with 15 digits if what they say differs from it by at most 2^-52 of its size,
  and then comes back as what they say; `JsonRoundTrip.RoundTrip` has the exact condition, `ReturnedClose` the bound.
- A JSON string whose last escape is cut by a malformed `\u` literal is read with the closing quote as an escaped one; the
  output still fits its allocation, by one byte (`JsonParser.UnescapeString`).
- `IP_C_CLASS_MATCH` masks the byte that comes first in memory on a little-endian machine; `OlsrDelivery.ClassMatch` does the same.

## Model

| member | source | states |
|---|---|---|
| RbTree.RbTree.constructor | ext/timerqueue/rbtree.c:69-83 | an empty tree over an arena whose cell 0 is the sentinel is valid |
| RbTree.RbTree.RotateLeft | ext/timerqueue/rbtree.c:99-119 | one rotation: memory then holds the rotated tree in the same surroundings, keys and all other cells unchanged |
| RbTree.RbTree.RotateRight | ext/timerqueue/rbtree.c:126-146 | the mirror image |
| RbTree.RbTree.InsertFixup | ext/timerqueue/rbtree.c:149-209 | from one red pair at most to a red-black tree with the same entries |
| RbTree.RbTree.Insert | ext/timerqueue/rbtree.c:219-264 | refuses a key that is present and changes nothing; otherwise the entry lands at its rank among the old entries; the tree stays ordered, red-black and linked both ways; foreign cells and all keys are untouched |
| RbTree.RbTree.Search | ext/timerqueue/rbtree.c:271-280 | the node with exactly that key, or none |
| RbTree.RbTree.FindLessEqual | ext/timerqueue/rbtree.c:494-522 | the node with the key and true, or else the node with the greatest smaller key and false |
| RbTree.RbTree.First | ext/timerqueue/rbtree.c:529-535 | the first entry in key order, or the sentinel |
| RbTree.RbTree.Next | ext/timerqueue/rbtree.c:551-567 | the entry that follows in key order, or the sentinel after the last |
| RbTree.RbTree.ChangeParentPtr | ext/timerqueue/rbtree.c:295-306 | redirects the links from a parent, or the root |
| RbTree.RbTree.ChangeChildPtr | ext/timerqueue/rbtree.c:308-313 | redirects the parent link of a child unless it is the sentinel |
| RbTree.RbTree.SwapNodes | ext/timerqueue/rbtree.c:335-361 | a node and its successor exchange positions and colours by links alone: the zipper then holds them exchanged, whether or not they are adjacent |
| RbTree.RbTree.Smallest | ext/timerqueue/rbtree.c:327-329 | the leftmost node of a subtree |
| RbTree.RbTree.Unlink | ext/timerqueue/rbtree.c:366-389 | a node with at most one child is taken out and the tree repaired to red-black |
| RbTree.RbTree.DeleteFixup | ext/timerqueue/rbtree.c:392-491 | from a subtree one black short to a red-black tree with the same entries |
| RbTree.RbTree.Delete | ext/timerqueue/rbtree.c:316-390 | removes exactly the entry with the key, even after the exchange with its successor, or reports absence and changes nothing; all invariants kept |
| RbOrder.RankIs | ext/timerqueue/rbtree.c:494-522 | a key is present exactly if the entry at its rank carries it |
| RbOrder.InsertRefines | ext/timerqueue/rbtree.c:219-264 | insertion at the rank adds exactly that key to the key set |
| RbOrder.DeleteRefines | ext/timerqueue/rbtree.c:316-390 | removal at the rank removes exactly that key from the key set |
| RbOrder.FloorIs | ext/timerqueue/rbtree.c:494-522 | the answer below an absent key is the greatest smaller key of the set |
| RbOrder.IterationRefines | ext/timerqueue/rbtree.c:528-567 | first/next over the entries is first/next over the key set, in the order that the address trees of the other modules are iterated |
| RbOrder.PositionKeeps | ext/timerqueue/rbtree.c:219-264 | any comparator that is a strict total order on the keys it meets answers as integer comparison does on their positions |
| RbOrder.TreeUnder | ext/timerqueue/rbtree.c:219-390 | so search, insertion and removal decide, add and remove exactly the given key under any such comparator |
| RbOrder.FloorUnder | ext/timerqueue/rbtree.c:494-522 | and the answer below an absent key is the greatest smaller key under the comparator |
| RbOrder.OrderIffHalfCircle | simnet/olsr/olsr_context.c:17-23 | the wrapped subtraction is such a comparator on a set of addresses if and only if they lie in some half circle of 2^31 |
| RbOrder.NodeAddresses | simnet/olsr/olsr_context.c:17-23 | the addresses 192.168.id.1 do, and on them the comparison is the order of the numbers |
| RbOrder.DupkeyOrder | simnet/olsr/olsr_context.c:25-34 | duplicate set keys are ordered by originator, then sequence number, and compare equal only if equal |
| RbOrder.DupkeyComparator | simnet/olsr/olsr_context.c:25-34 | on keys whose originators lie in a half circle the comparison is a strict total order |
| RbOrder.TimerComparator | ext/timerqueue/timerqueue.c:58-77 | the timer key comparison is a strict total order on all keys |
| RbOrder.Balanced | ext/timerqueue/rbtree.c:148-209 | no path is longer than twice the binary logarithm of the size |
| TimerQueue.TimespecAddUsec | ext/timerqueue/timerqueue.c:20-35 | adds exactly that many microseconds and keeps the nanoseconds below one second |
| TimerQueue.CheckExpire | ext/timerqueue/timerqueue.c:37-46 | holds exactly if the expiry is not later than the current time |
| TimerQueue.CompareIsOrder | ext/timerqueue/timerqueue.c:58-77 | the key comparison is a strict total order: time, then address |
| TimerQueue.JitterBounds | ext/timerqueue/timerqueue.c:138-143 | a re-arm stays within the interval plus or minus the jitter, is exact without jitter, stays positive and within int |
| TimerQueue.TurnKeeps | ext/timerqueue/timerqueue.c:129-160 | one turn of the loop keeps the queue consistent and the tree nonempty; afterwards every waiting timer comes behind the one served |
| TimerQueue.TurnShrinks | ext/timerqueue/timerqueue.c:129-160 | the loop makes progress, so the pass returns |
| TimerQueue.WorkFires | ext/timerqueue/timerqueue.c:119-161 | a pass fires only due timers, in strictly increasing (expiry, address) order, and leaves none due, whatever the callbacks arm, re-arm, free or deactivate |
| TimerQueue.WorkRegular | ext/timerqueue/timerqueue.c:119-161 | a pass keeps a jitter-free periodic timer on its row of instants |
| TimerQueue.Punctual | ext/timerqueue/timerqueue.c:119-161 | over any schedule of passes, whatever the callbacks of each pass do to other timers, a jitter-free periodic timer fires at e, e+I, e+2I, ...: exactly the instants that have come, none lost or repeated |
| TimerQueue.FreedNeverFires | ext/timerqueue/timerqueue.c:90-98 | a timer freed while it waits never fires; its memory is released by the first pass after its instant and not before |
| TimerQueue.TimerqueueContext.TimerqueueFreeTimer | ext/timerqueue/timerqueue.c:90-98 | frees at once, or deactivates and defers the release while attached |
| TimerQueue.TimerqueueContext.TimerqueueRegisterTimer | ext/timerqueue/timerqueue.c:100-108 | attached, active and due one interval from now |
| TimerQueue.TimerqueueContext.TimerqueueReactivateTimer | ext/timerqueue/timerqueue.c:110-117 | detaches first if attached, then registers |
| TimerQueue.TimerqueueContext.TimerqueueWork | ext/timerqueue/timerqueue.c:119-161 | an empty tree stays as it is; otherwise the loop over the tree computes the pass that the lemmas above describe |
| TimerQueue.TimerqueueContext.OlsrStartTimer | simnet/olsr/olsr_route.c:58-106 | from an empty queue the four periodic timers make the queue ready for passes; the one that sends is on its row of instants, one every 50 ms, and the others start at their intervals with their jitter, an eighth of the interval for HELLOs and TCs |
| TimerQueue.ArmReady | ext/timerqueue/timerqueue.c:100-108 | one periodic timer makes any consistent queue ready, each further one keeps it so and leaves every other timer on its row; without jitter it starts on its own row |
| TimerQueue.ReactivateMoves | ext/timerqueue/timerqueue.c:110-117 | a reactivated timer is waiting, active and due one interval from now, whether or not it was waiting before; all other timers are as they were |
| TimerQueue.UnconfirmedExpires | ext/timerqueue/timerqueue.c:119-161 | over any schedule of passes a timer that fires once fires in the first pass at or behind its instant, exactly once, and in no other |
| TimerQueue.ConfirmedStays | simnet/olsr/olsr_link.c:80-150 | a timer that is re-armed each time before it is due does not fire in any pass in between, and is due one interval after it was re-armed last |
| TimerQueue.FreedGoes | ext/timerqueue/timerqueue.c:90-98 | from the call that frees it on a timer never fires, and its memory is gone at once if it was not waiting, and after the first pass behind its instant if it was |
| TimerQueue.IdleSilent | ext/timerqueue/timerqueue.c:129-156 | a deactivated timer never fires and leaves the tree without being released |
| TimerQueue.CallsMean | ext/timerqueue/timerqueue.c:80-117 | what starting, re-arming, freeing and deactivating do to the timer named, and that they do nothing to any other |
| TimerQueue.JitterSpread | ext/timerqueue/timerqueue.c:139-143 | the draws spread over the whole range in even steps: the largest gives interval plus jitter, the smallest interval minus 98 percent of it |
| TimerQueue.KeepsPace | ext/timerqueue/timerqueue.c:119-161 | over any schedule of passes and any draws, the instants of a periodic timer are an interval give or take the jitter apart, and after a pass the last one is less than that ago: a started node sends HELLOs and TCs at their pace |
| OlsrSpf.DuplicateNeighInfo | simnet/olsr/olsr_spf.c:28-58 | although it inserts into trees while iterating over them, the database becomes exactly the symmetric closure over known originators |
| OlsrSpf.UnduplicateNeighInfo | simnet/olsr/olsr_spf.c:4-25 | restores every advertised-neighbour tree exactly, as long as no tree was given more than the fifty copies the array holds |
| OlsrSpf.CollectCopies | simnet/olsr/olsr_spf.c:9-18 | the array holds exactly the temporary copies |
| OlsrSpf.RoutingTableAddOneHopNeigh | simnet/olsr/olsr_spf.c:136-160 | table and queue hold exactly the symmetric neighbours, one hop away |
| OlsrSpf.Search | simnet/olsr/olsr_spf.c:198-269 | the queue loop terminates with a shortest-path table over the extended database |
| OlsrSpf.Expand | simnet/olsr/olsr_spf.c:214-268 | visiting one node adds every unreached neighbour one hop further and keeps the search invariant |
| OlsrSpf.BuildTable | simnet/olsr/olsr_spf.c:178-271 | the table is correct for the advertised relation symmetrised, and the database is as before |
| OlsrSpf.CalcRoutingTable | simnet/olsr/olsr_spf.c:178-274 | a destination is in the table iff reachable; its hop count is minimal; its route is a walk of that length whose prefix is the entry of the node before; the reports mirror the table and dirty is set exactly on change |
| OlsrGraph.PrefixEntry | simnet/olsr/olsr_spf.c:240-257 | every prefix of a route is itself the table entry of its last node |
| OlsrGraph.SimplePath | simnet/olsr/olsr_spf.c:240-257 | a route visits no node twice |
| OlsrGraph.AllReached | simnet/olsr/olsr_spf.c:198-269 | when everything in the table has been expanded, no walk leads anywhere else or more briefly |
| OlsrGraph.CorrectFromExtended | simnet/olsr/olsr_spf.c:183-196 | shortest over the extended database means correct for the symmetrised advertisements |
| OlsrSpf.RouteChanged | simnet/olsr/olsr_spf.c:96-107 | the element-by-element comparison stays inside the old route and finds a difference exactly if the entries differ |
| OlsrSpf.UpdateRouteInfoDisconnected | simnet/olsr/olsr_spf.c:66-83 | exactly the destinations that left the table get hop count 0 and the flag |
| OlsrSpf.UpdateRouteInfoChanged | simnet/olsr/olsr_spf.c:85-126 | exactly the new or changed destinations get the new hop count, path and flag |
| OlsrSpf.UpdateReports | simnet/olsr/olsr_spf.c:128-134 | the two passes together leave the reports mirroring the new table |
| OlsrContext.GetNeighborStatBuf | simnet/olsr/olsr_context.c:223-257 | finds or appends the buffer of a destination; tree and array keep indexing each other |
| OlsrNeighbor.SetNeighborStatus | simnet/olsr/olsr_neighbor.c:16-28 | changes one status and makes the routes right; a status that stays changes nothing |
| OlsrHello.InitOlsrContext | simnet/olsr/olsr_context.c:36-56 | a started node has current routes, agreeing links and neighbours and covering relays: the base case of what every event keeps |
| OlsrTc.BuildOlsrTc | simnet/olsr/olsr_tc.c:27-49 | the bytes decode to the advertised sequence number, which is then counted on modulo 2^16, and to every MPR selector once |
| OlsrTc.TcLayout | simnet/olsr/olsr_proto.h:74-79 | a TC is the number high byte first, two reserved bytes and the addresses |
| OlsrTc.InsertListed | simnet/olsr/olsr_tc.c:139-169 | afterwards the tree holds the old and the listed addresses, and obsolete are exactly the old ones not listed |
| OlsrTc.RemoveObsoleteAdvertisedNeighbor | simnet/olsr/olsr_tc.c:65-91 | exactly the ten smallest obsolete addresses are deleted, or all if there are no more than ten |
| OlsrTc.UpdateAdvertised | simnet/olsr/olsr_tc.c:139-179 | the tree is the old one replaced by the list but for obsolete addresses beyond ten, and a change is noticed exactly if there is one |
| OlsrTc.ReplacedExactly | simnet/olsr/olsr_tc.c:65-91 | after a TC the database holds exactly what it lists if and only if at most ten addresses have gone |
| OlsrTc.ProcessOlsrTc | simnet/olsr/olsr_tc.c:93-184 | ignores senders that are no symmetric neighbours and numbers behind the last one; otherwise replaces the tree; the routes are right afterwards unless a new originator lists nothing, and always as current as the later theorems need; a TC that is not out of date restarts the timer of its originator |
| OlsrTc.TopologyInfoTimerExpireCb | simnet/olsr/olsr_tc.c:51-63 | removes the originator and makes the routes right |
| OlsrTc.SilentExactly | simnet/olsr/olsr_tc.c:118-184 | after the first TC of an originator that lists nothing, without a calculation, the table is right exactly if every node that advertises the originator is reached without it as soon |
| OlsrTc.StaleTable | simnet/olsr/olsr_tc.c:180-184 | a table for which it is not |
| OlsrDelivery.NextHopCloser | simnet/olsr/olsr_route.c:272-280 | where every table has shortest routes, the first address of a route is a neighbour whose own table is exactly one hop shorter |
| OlsrDelivery.Forwarded | simnet/olsr/olsr_route.c:253-323 | an encapsulated packet reaches its destination unchanged after exactly hop_count transmissions, each taken up by exactly one node |
| OlsrDelivery.Delivered | simnet/olsr/olsr_route.c:325-340 | what a node sends for an application is delivered to any node that links lead to, unchanged, in as many transmissions as its shortest route has hops |
| OlsrDelivery.OneHopExactly | simnet/olsr/olsr_route.c:267-271 | a packet to a neighbour goes out as it is and is delivered if and only if its protocol is not 55 and it is no UDP packet to port 698 |
| OlsrDelivery.SentExactly | simnet/olsr/olsr_route.c:325-340 | what an application sends leaves the node if and only if it is for another node that links lead to; otherwise it is dropped |
| OlsrDelivery.ReceivedExactly | simnet/olsr/olsr_route.c:253-323 | a data frame is handed to the application if and only if it, and the packet in it, is for this node, then the inner packet is; it is dropped if and only if it is for another node or the inner packet is for one that no links lead to |
| OlsrDelivery.NeverAstray | simnet/olsr/olsr_route.c:253-323 | in any network, converged or not: an encapsulated packet that comes out comes out unchanged, at a node it is addressed to |
| OlsrDelivery.OlsrHandleRemotePkt | simnet/olsr/olsr_route_iface.c:49-79 | UDP packets to port 698 are split into their messages, everything else is data |
| OlsrDelivery.DispatchExactly | simnet/olsr/olsr_route_iface.c:65-75 | of any packets exactly those go to the router whose protocol is UDP and whose destination port is 698 |
| OlsrDelivery.ControlArrives | simnet/olsr/olsr_route_iface.c:49-79 | every packet that a queue becomes is taken for a routing packet by every node that receives it, and split into the messages of the queue |
| OlsrDelivery.ClassBytes | util/netutil.h:16 | addresses match if and only if they agree in the last three bytes in memory |
| OlsrDelivery.IpRoute | simnet/olsr/olsr_route.c:253-281 | drops without a route, sends plainly to a one-hop destination from local, and otherwise encapsulates to the next hop |
| OlsrDelivery.HandleRemoteDataPkt | simnet/olsr/olsr_route.c:283-323 | decapsulates what is addressed here, keeps what is for this node and routes the rest |
| OlsrDelivery.HandleLocalDataPkt | simnet/olsr/olsr_route.c:325-340 | drops packets to the own class C network and routes the others |
| NetUtil.CalcIpChecksum | util/netutil.c:12-43 | the loop computes the complement of the one's-complement sum of the words, odd lengths included |
| NetUtil.ChecksumVerifies | util/netutil.c:12-43 | storing the checksum in its zeroed field makes the recomputed checksum 0, for headers of any length |
| NetUtil.MinimalMipEncap | util/netutil.c:91-126 | builds the encapsulated packet in the buffer |
| NetUtil.MinimalMipDecap | util/netutil.c:128-155 | rebuilds the inner packet in the buffer |
| NetUtil.EncapHeader | util/netutil.c:91-126 | the outer header names the given addresses and protocol 55, has three words more, and verifies |
| NetUtil.ForwardingHeader | util/netutil.c:91-126 | the fields of the forwarding header at the offsets of RFC 2004: protocol, source-present bit, a checksum that verifies, destination, source; the outer header with the whole length and its other fields as they were |
| NetUtil.NetworkOrder | util/netutil.c:62-64 | words are written and read high byte first |
| NetUtil.RoundTrip | util/netutil.c:91-155 | decapsulation undoes encapsulation if and only if the packet's total length and checksum were right, for headers of at most 12 words and any outer addresses |
| OlsrMpr.CalcN1Set | simnet/olsr/olsr_mpr.c:22-38 | exactly the symmetric neighbours |
| OlsrMpr.CalcN2Set | simnet/olsr/olsr_mpr.c:40-82 | exactly the strict two-hop neighbours, each with exactly the neighbours that reach it |
| OlsrMpr.SoleBridges | simnet/olsr/olsr_mpr.c:95-112 | exactly the neighbours that alone reach some strict two-hop neighbour |
| OlsrMpr.AddUniqueBridgeToMpr | simnet/olsr/olsr_mpr.c:88-140 | as the loop is written, only the sole bridge with the smallest address becomes a relay; the working sets stay consistent |
| OlsrMpr.CalcReachability | simnet/olsr/olsr_mpr.c:142-156 | the number of uncovered addresses a neighbour reaches |
| OlsrMpr.GetMaxReachabilityNeigh | simnet/olsr/olsr_mpr.c:158-178 | the first neighbour that reaches most, or none if none reaches anything |
| OlsrMpr.SomeoneReaches | simnet/olsr/olsr_mpr.c:188-190 | while anything is uncovered some neighbour that is no relay reaches it, so the early break cannot happen |
| OlsrMpr.PopulateMprSetByReachability | simnet/olsr/olsr_mpr.c:180-220 | ends with nothing uncovered; each pick is the neighbour with the smallest address among those that reach most of what is left |
| OlsrMpr.RelaysDetermined | simnet/olsr/olsr_mpr.c:280-308 | the selection depends on the symmetric neighbours and what they report, and on nothing else: selecting anew without news changes nothing |
| OlsrMpr.CheckMprSetChange | simnet/olsr/olsr_mpr.c:249-265 | true exactly if the sets differ |
| OlsrMpr.CleanN1Set | simnet/olsr/olsr_mpr.c:267-278 | exactly the neighbours left over become plain symmetric ones |
| OlsrMpr.PopulateMprSet | simnet/olsr/olsr_mpr.c:280-308 | relays are symmetric neighbours, every strict two-hop neighbour has one, relay status holds exactly for relays, the neighbours are otherwise unchanged, and the sequence number grows iff the set changed |
| OlsrMpr.RelayReaches | simnet/olsr/olsr_mpr.c:280-308 | every relay is a neighbour through which the node reaches somebody who is neither itself nor a neighbour |
| OlsrMpr.RelayBound | simnet/olsr/olsr_mpr.c:180-220 | against any covering set of k neighbours, t picks of the second pass satisfy k^(t-1) <= r (k-1)^(t-1) |
| OlsrCover.GreedyBound | simnet/olsr/olsr_mpr.c:142-219 | after t picks r_t k^t <= r_0 (k-1)^t for every covering set of k neighbours |
| OlsrCover.SamePicks | simnet/olsr/olsr_mpr.c:142-220 | two greedy runs that cover everything make the same picks |
| OlsrCover.PickCount | simnet/olsr/olsr_mpr.c:188-219 | the resulting bound on the number of picks |
| OlsrForwarding.OlsrRouter.OlsrMsgForwarding | simnet/olsr/olsr_forwarding.c:69-106 | enters the duplicate set, retransmits at most once and only for selectors, with one hop more; a full buffer loses the copy |
| OlsrForwarding.OlsrRouter.ProcessOlsrMsg | simnet/olsr/olsr_route.c:177-203 | processes a message unless its key is in the duplicate set |
| OlsrForwarding.OlsrRouter.HandleOlsrMsg | simnet/olsr/olsr_route.c:205-220 | ignores own messages, processes, and forwards if the ttl exceeds one |
| OlsrForwarding.OlsrRouter.HandleRoutePkt | simnet/olsr/olsr_route.c:238-250 | handles the messages of a packet in order |
| OlsrForwarding.OlsrRouter.ExpireDupEntryCb | simnet/olsr/olsr_forwarding.c:27-37 | forgets one key |
| OlsrForwarding.OlsrRouter.OlsrTcTimerCb | simnet/olsr/olsr_route.c:135-160 | queues a TC with ttl 64 under the current sequence number |
| OlsrForwarding.OlsrRouter.OlsrHelloTimerCb | simnet/olsr/olsr_route.c:108-133 | queues a HELLO with ttl 1 under the current sequence number |
| OlsrForwarding.OlsrRouter.OlsrSendFromQueueCb | simnet/olsr/olsr_route.c:4-43 | sends everything queued and advances the sequence number, modulo 2^16 |
| OlsrForwarding.HandleKeeps | simnet/olsr/olsr_forwarding.c:69-106 | the duplicate set is exactly what the log of events says, and between two retransmissions, or two processings, under one key the entry expired |
| OlsrForwarding.ProcessedExactly | simnet/olsr/olsr_route.c:177-220 | of any packet exactly these messages are processed: those of other nodes whose key has no entry and that have no message with that key and a ttl above one ahead of them in the packet |
| OlsrForwarding.ProcessedTwice | simnet/olsr/olsr_route.c:177-220 | a message that arrives twice is processed twice exactly if its ttl is at most one and nothing stops the first copy |
| OlsrForwarding.SharedSequenceNumber | simnet/olsr/olsr_route.c:108-160 | the messages of two timer callbacks between two sends leave under one key, in the order of the callbacks |
| OlsrForwarding.RelaysExactly | simnet/olsr/olsr_forwarding.c:69-106 | a message is marked, queued with one more hop and logged if and only if it is of another node, has hops to go, comes from an MPR selector and has not been retransmitted; nothing else of the queue and the marks changes |
| OlsrNetwork.HelloProcessed | simnet/olsr/olsr_route.c:108-220 | in every reachable state: a HELLO in a packet is processed by another node exactly if no TC of its sender is ahead of it in the packet and the node has no entry under the packet's number |
| OlsrNetwork.HelloBehindTc | simnet/olsr/olsr_route.c:108-220 | two runs from any start, with the same HELLO and TC in the first packet of a node, which a neighbour receives whole: it processes both if the HELLO is ahead, and only the TC if the TC is |
| OlsrNetwork.FloodSafety | simnet/olsr/olsr_forwarding.c:73-97 | in every state of every run, with loss, expiry and changing selectors: TC copies have ttl + hopcnt = 64 and ttl >= 1, and no node processes or retransmits twice within the life of an entry |
| OlsrFlood.PathTrails | simnet/olsr/olsr_forwarding.c:73-97 | over any stretch of a run without expiry of a key, copies stay over distinct nodes that are all marked |
| OlsrFlood.Replay | simnet/olsr/olsr_forwarding.c:69-106 | no step looks at the histories: the same steps lead from a state without the histories of a key to the same state but for them |
| OlsrFlood.FloodOnce | simnet/olsr/olsr_forwarding.c:73-97 | from any reachable state in which a number is free, first use or not: one flood makes at most one transmission and one entry per node, and a copy in a network of n nodes has been over distinct marked nodes and keeps a ttl of at least 65 - n |
| OlsrFlood.StepLess | simnet/olsr/olsr_forwarding.c:69-106 | every step that moves a copy of a flood decreases a well-founded measure and no other step increases it |
| OlsrFlood.FloodEnds | simnet/olsr/olsr_forwarding.c:69-106 | every flood makes finitely many moves in every unending run |
| OlsrFlood.FloodDrains | simnet/olsr/olsr_forwarding.c:69-106 | in a fair run every flood ends with no copy left |
| OlsrConvergence.StartTruthful | simnet/olsr/olsr_context.c:36-56 | nodes that have just started believe nothing wrong |
| OlsrConvergence.StaysTruthful | simnet/olsr/olsr_hello.c:244-293 | over fixed links no order of HELLOs, and no expiry of selectors, makes a node believe what is not so |
| OlsrConvergence.AllLinked | simnet/olsr/olsr_hello.c:244-293 | after one round of HELLOs every node has a link with each neighbour |
| OlsrConvergence.AllFull | simnet/olsr/olsr_hello.c:244-293 | after the second round every neighbour is symmetric and its neighbours are known |
| OlsrConvergence.NamesRelays | simnet/olsr/olsr_hello.c:43-94 | a HELLO built from then on names exactly the relays that its sender has for good |
| OlsrConvergence.RelaysNeeded | simnet/olsr/olsr_mpr.c:280-308 | in a network with complete tables a node is chosen as relay only by a neighbour that it links to somebody out of reach of that neighbour |
| OlsrConvergence.HellosConverge | simnet/olsr/olsr_hello.c:244-293 | a hold time after the third round: neighbour tables complete, relays covering, and the selectors of every node exactly the nodes that chose it |
| OlsrSetting.Bridge | simnet/olsr/olsr_mpr.c:280-308 | a relay chosen by a node reaches each of its strict two-hop neighbours and has the node among those that chose it |
| OlsrRoutes.RelayWalk | simnet/olsr/olsr_spf.c:184-187 | for every walk along links to another node there is one along links to selectors that is no longer |
| OlsrRoutes.RelayLinksSuffice | simnet/olsr/olsr_spf.c:178-274 | where nodes know of each other at least the links to selectors, which is what TCs advertise, the tables that the calculation makes of them hold shortest routes over all links |
| OlsrRoutes.CorrectEnough | simnet/olsr/olsr_tc.c:118-184 | a table that misses what silent originators would add is right for a database that still holds every relay link |
| OlsrRoutes.DeliveredAnywhere | simnet/olsr/olsr_route.c:253-340 | there, any two connected nodes can send each other packets, in as many transmissions as they are hops apart |
| OlsrRoutes.TcsInform | simnet/olsr/olsr_tc.c:93-184 | one TC of each node, taken since selectors are fixed, brings about what the two results above ask of a topology database, whatever is taken before or after |
| OlsrRoutes.NetworkDelivers | simnet/olsr/olsr_route.c:177-340 | from HELLOs to delivery: rounds of HELLOs, then a TC of each node at every other, then packets arrive between any two connected nodes over shortest paths |
| OlsrCompleteness.HellosSettle | simnet/olsr/olsr_hello.c:244-293 | the rounds of HELLOs bring about the state from which flooding is complete |
| OlsrCompleteness.PathProgress | simnet/olsr/olsr_forwarding.c:69-106 | what every step of a steady stretch keeps: what was sent is heard or in the air, what was heard is entered and, from a selector, marked, what was marked is queued or sent |
| OlsrCompleteness.NoGap | simnet/olsr/olsr_forwarding.c:69-106 | a drained flood has crossed every link out of the nodes it reached |
| OlsrCompleteness.FloodComplete | simnet/olsr/olsr_forwarding.c:69-106 | take any run, whatever happened in it, and a state in which the tables of fewer than 64 nodes are settled and a number is free: after a flood under that number with reliable delivery, once no copy is pending, every node connected to the originator has processed the TC exactly once |
| OlsrCompleteness.FairFloodComplete | simnet/olsr/olsr_route.c:205-215 | the same of every unending run in which, as long as the TC is under way, delivery is reliable and copies move some day: it is not under way for ever, and at the step where the last copy is gone every connected node has processed it exactly once |
| OlsrRelays.OnlyForSelectors | simnet/olsr/olsr_forwarding.c:88-97 | any step of the network that makes a node mark a key, queue another node's message or log a retransmission is the arrival of a copy from one of its selectors |
| OlsrRelays.SenderHeard | simnet/olsr/olsr_forwarding.c:88-97 | in every run: a node other than the originator that sends a TC has got it before from a node that was then its selector and had sent it |
| OlsrRelays.FloodOverRelays | simnet/olsr/olsr_forwarding.c:69-106 | in a settled network, with loss and expiry: every copy of a flood has come from the originator over nodes each of which the one before had chosen as relay |
| OlsrRelays.OnlyRelaysSend | simnet/olsr/olsr_forwarding.c:69-106 | so a node that sends was chosen as relay by a node that sent to it, and a node that nobody chose sends nothing |
| RingBuffers.RingBuffer.constructor | util/ringbuffer.c:9-22 | an empty buffer |
| RingBuffers.RingBuffer.DropBuffer | util/ringbuffer.c:24-29 | empties it |
| RingBuffers.RingBuffer.GetRemainBufsize | util/ringbuffer.c:42-59 | the size less the bytes queued |
| RingBuffers.RingBuffer.GetReadableBufsize | util/ringbuffer.c:61-65 | the number of bytes queued |
| RingBuffers.RingBuffer.Push | util/ringbuffer.c:67-100 | appends all bytes, or leaves the queue unchanged exactly if they do not fit; across the end of the cells too |
| RingBuffers.RingBuffer.ReadInternal | util/ringbuffer.c:102-150 | the oldest bytes if there are enough; removed only by a pop |
| RingBuffers.RingBuffer.Read | util/ringbuffer.c:152-155 | leaves the queue as it is |
| RingBuffers.RingBuffer.Pop | util/ringbuffer.c:157-160 | removes what it returns |
| SimServer.SimulatorServerCtx.Receive | simulator/sim_server.c:87-99 | a chunk is appended as a whole or lost as a whole |
| SimServer.SimulatorServerCtx.ParseClientJson | simulator/sim_server.c:176-203 | hands on exactly the complete frames queued and keeps the incomplete one; all frames handed on so far are the frames of all bytes accepted |
| SimServer.Reassembled | simulator/sim_server.c:176-203 | for any chunking and any interleaving of parse calls, exactly the frames of the accepted stream, in order |
| SimServer.FramesAppend | simulator/sim_server.c:176-203 | cutting a stream anywhere loses and invents no frame |
| SimServer.StreamRoundTrip | simulator/sim_server.c:176-203 | framing and unframing give back the frames and the incomplete tail |
| SimServer.FrameLayout | simulator/sim_server.c:183-195 | a frame is its length in two bytes, high byte first, and its bytes |
| SimServer.RoomAfterParse | simulator/sim_server.c:176-203 | after a parse every chunk the socket can deliver is accepted: a long frame never blocks the stream |
| OlsrHelloCodec.HelloWriteLinksWithCode | simnet/olsr/olsr_hello.c:43-83 | writes the group of exactly the links with that code, or nothing, and leaves what is in front |
| OlsrHelloCodec.HelloWriteLinks | simnet/olsr/olsr_hello.c:85-94 | writes all groups within the room that the number of links needs |
| OlsrHelloCodec.BuildOlsrHello | simnet/olsr/olsr_hello.c:96-113 | the bytes written parse, up to exactly the message length, to one (link code, address) pair per link whose neighbour status is known |
| OlsrHelloCodec.LinkCodeToMe | simnet/olsr/olsr_hello.c:135-156 | the walk over the bytes finds the code in the first group that lists the own address |
| OlsrHelloCodec.HelloMeans | simnet/olsr/olsr_hello.c:43-156 | what the sender knows of a link is what the node at its other end reads, and the addresses read are exactly the links |
| OlsrProto.AddrBytesRoundTrip | simnet/olsr/olsr_hello.c:70-72 | an address comes back from its four bytes |
| OlsrProto.LittleEndian | simnet/olsr/olsr_route.c:253-259 | the byte of an address that comes first in memory is its lowest |
| OlsrProto.InfosAppend | simnet/olsr/olsr_hello.c:47-52 | groups written one behind the other parse to the groups in that order |
| OlsrProto.CodeParts | simnet/olsr/olsr_proto.h:52-56 | both halves of a link code come back |
| OlsrProto.CodeBits | simnet/olsr/olsr_proto.h:52-56 | the link type is in the two lowest bits of a code, the neighbour type in the next two |
| OlsrProto.GroupLayout | simnet/olsr/olsr_proto.h:58-64 | a group is a link code, a reserved byte, the number of addresses high byte first, and the addresses |
| OlsrProto.HeaderRoundTrip | simnet/olsr/olsr_proto.h:81-92 | a message header comes back from its bytes |
| OlsrProto.HeaderLayout | simnet/olsr/olsr_proto.h:81-92 | the fields of a message header at the offsets of RFC 3626 |
| OlsrPacket.BuildIpHdr | util/netutil.c:68-89 | the header bytes with their checksum |
| OlsrPacket.BuiltHeader | util/netutil.c:68-89 | a packet with that header is valid: length, checksum, addresses |
| OlsrPacket.IpFields | util/netutil.c:68-89 | the fields of a built header at the offsets of RFC 791 |
| OlsrPacket.UdpFields | util/netutil.c:55-65 | source and destination port 698, the length with the header, no checksum, at the offsets of RFC 768 |
| OlsrPacket.PacketFields | simnet/olsr/olsr_route.c:15-38 | in a packet as sent: total length, ttl 64, UDP, addresses, ports, UDP length, packet length and packet sequence number, each read at its offset |
| OlsrPacket.OlsrSendFromQueueCb | simnet/olsr/olsr_route.c:4-49 | one packet with everything queued; it fits its buffer and empties the queue |
| OlsrPacket.HandleRoutePkt | simnet/olsr/olsr_route.c:222-251 | splits a packet by the announced sizes and gives up at a size of zero |
| OlsrPacket.SplitPack | simnet/olsr/olsr_route.c:236-250 | splitting what was queued gives the same messages in the same order |
| OlsrPacket.PacketCarries | simnet/olsr/olsr_route.c:4-49 | from the sender's queue to the receiver's hands: a valid IP packet of at most 2050 bytes that splits into the queued messages |
| OlsrPacket.CountHop | simnet/olsr/olsr_forwarding.c:93-94 | ttl and hop count are counted in the received bytes |
| OlsrPacket.RelayMeans | simnet/olsr/olsr_forwarding.c:93-105 | those bytes then are the message one hop on, as the flooding model has it, and all others are as received |
| OlsrPacket.BuiltMeans | simnet/olsr/olsr_route.c:108-160 | the bytes a timer callback builds are the message of the flooding model |
| OlsrPacket.PushMeans | simnet/olsr/olsr_forwarding.c:105-105 | the byte ring takes a message exactly if the queue of the flooding model does |
| OlsrPacket.PacketMeans | simnet/olsr/olsr_route.c:4-49 | the packet that a queue becomes splits at the receiver into the messages of that queue, in their order |
| OlsrLink.UpdateNeighborStatus | simnet/olsr/olsr_neighbor.c:89-113 | symmetric status exactly if the link is symmetric; a relay stays one while it is |
| OlsrLink.StatusFollows | simnet/olsr/olsr_neighbor.c:89-113 | the status says relay if and only if the link is symmetric and it said relay before, and none if and only if the link is not symmetric |
| OlsrLink.MakeNeighborElem | simnet/olsr/olsr_neighbor.c:30-43 | a neighbour without status; routes are not concerned |
| OlsrLink.UpdateNeigh2Tuple | simnet/olsr/olsr_neighbor.c:61-87 | one more two-hop neighbour, due to go when the validity time is over; one that is known is confirmed until then |
| OlsrLink.Neigh2ElemExpire | simnet/olsr/olsr_neighbor.c:45-59 | one fewer; links and neighbours still agree, and every report still has its timer |
| OlsrLink.LinkElemAsymTimerSet | simnet/olsr/olsr_link.c:103-126 | asymmetric unless symmetric, and its second timer is due when the validity time is over |
| OlsrLink.LinkElemSymTimerSet | simnet/olsr/olsr_link.c:128-150 | symmetric, and its third timer is due when the validity time is over |
| OlsrLink.MakeLinkElem | simnet/olsr/olsr_link.c:152-169 | a lost link, whose first timer is due when the validity time is over |
| OlsrLink.SymLinkTimerExpire | simnet/olsr/olsr_link.c:65-78 | back to asymmetric or lost, and no neighbour any more |
| OlsrLink.LinkTimerExpire | simnet/olsr/olsr_link.c:25-52 | the link goes, its neighbour is none any more, and links and neighbours still agree |
| OlsrHello.PopulateLinkset | simnet/olsr/olsr_hello.c:127-202 | what the sender's report does to the link, the neighbour and the selectors |
| OlsrHello.MprSelectorExpire | simnet/olsr/olsr_hello.c:115-125 | one selector fewer |
| OlsrHello.PopulateNeigh2set | simnet/olsr/olsr_hello.c:204-226 | adds exactly the addresses reported, except the own one, and confirms each until the validity time is over |
| OlsrHello.ProcessOlsrHello | simnet/olsr/olsr_hello.c:244-293 | after every HELLO: a neighbour is SYM or MPR iff its stored link is symmetric, every link has a neighbour, relay status implies membership, every strict two-hop neighbour is covered by relays that the neighbours determine, and the routes are current; links, selectors and reports that it confirms are due when its validity time is over, all others as before |
| OlsrHello.ReportKeeps | simnet/olsr/olsr_hello.c:259-289 | the value-level form of the link and neighbour update |
| OlsrHello.LostReport | simnet/olsr/olsr_hello.c:171-174 | a LOST_LINK report makes a symmetric link asymmetric, its sender no neighbour, and nothing it lists is taken in |
| OlsrHello.OtherReport | simnet/olsr/olsr_hello.c:161-289 | any other report makes the link symmetric if it names this node, leaves it as it was otherwise, restarts its timers, and what it lists is taken in if and only if the link is symmetric then |
| OlsrHello.NeverLost | simnet/olsr/olsr_hello.c:43-94 | a node never announces LOST_LINK and announces every link, so the branch for a lost link without a timer is unreachable between nodes running this code |
| OlsrHello.Handshake | simnet/olsr/olsr_hello.c:157-199 | a link becomes symmetric exactly if the sender has a link back or it was symmetric, and a node enters the selectors exactly when it announces this node as relay |
| OlsrLifetime.EntryExactly | ext/timerqueue/timerqueue.c:119-161 | an entry confirmed until some instant is due then and does not go before, whatever else happens |
| OlsrLifetime.LinkStays | simnet/olsr/olsr_link.c:80-150 | after a HELLO that names this node the link is symmetric for at least as long as the HELLO is valid, whatever other nodes send and whatever expires, if the neighbour does not report the link as lost and what it sends later is valid as long |
| OlsrLifetime.SilentLinkGoes | simnet/olsr/olsr_link.c:25-52 | of a neighbour that is silent the timers are due as soon as its last HELLO is no longer valid |
| OlsrLifetime.UnnamedLinkGoes | simnet/olsr/olsr_link.c:128-150 | a neighbour that is heard but no longer names this node: its symmetric link is due to go, altogether, as soon as the last HELLO that did is no longer valid |
| OlsrLifetime.SymmetricExactly | simnet/olsr/olsr_link.c:25-150 | once the timers due have been served, a link is symmetric if and only if the last HELLO that named this node is still valid |
| OlsrLifetime.NeverNamed | simnet/olsr/olsr_hello.c:157-174 | without a HELLO that names this node a link does not become symmetric |
| OlsrLifetime.SelectorExactly | simnet/olsr/olsr_hello.c:115-196 | a node is an MPR selector if and only if its last HELLO that chose this node is still valid |
| OlsrLifetime.ReportExactly | simnet/olsr/olsr_neighbor.c:45-87 | a two-hop neighbour is known from a neighbour if and only if the last HELLO that listed it, taken over a symmetric link, is still valid |
| OlsrLifetime.Unfounded | simnet/olsr/olsr_hello.c:176-226 | without such HELLOs there is neither |
| OlsrLifetime.OriginatorExactly | simnet/olsr/olsr_tc.c:118-138 | an originator is in the topology database if and only if its last TC that was not out of date is still valid |
| OlsrMantissa.ReltimeToMe | simnet/olsr/olsr_mantissa.c:63-133 | the largest normalised value not above the interval, 1/0 below 125 ms and 15/15 from 4096000 ms; the carry step never happens |
| OlsrMantissa.MeToReltime | simnet/olsr/olsr_mantissa.c:171-180 | the value (1 + a/16) 2^b sixteenths of a second, rounded down to milliseconds |
| OlsrMantissa.MantissaRange | simnet/olsr/olsr_mantissa.c:117-124 | both forms of the division give a mantissa below 16 |
| OlsrMantissa.EncodingMonotone | simnet/olsr/olsr_mantissa.c:63-133 | codes grow with the interval, by exponent and mantissa, and are unique |
| OlsrMantissa.Saturates | simnet/olsr/olsr_mantissa.c:88-93 | the largest code is used exactly from 3968000 ms on |
| OlsrMantissa.EncodingError | simnet/olsr/olsr_mantissa.c:63-180 | for 125 <= t < 4096000 decoding the code gives at most t and loses less than t/16 + 1 |
| OlsrMantissa.ShortIntervals | simnet/olsr/olsr_mantissa.c:84-87 | below 125 ms the code decodes to 66 |
| OlsrMantissa.DecodeEncode | simnet/olsr/olsr_mantissa.c:63-180 | a code comes back from its own value iff that value is whole and the exponent not zero, or it is the code of short intervals |
| OlsrMantissa.HoldTimes | simnet/olsr/olsr_proto.h:32-50 | the hold times of HELLOs and TCs, three intervals each, come back from their codes as they are |
| JsonNumbers.BytesExactly | ext/cjson/cJSON.c:320-346 | digits, signs, point and the letters of exponents are exactly the bytes that numbers of RFC 8259 contain |
| JsonGrammar.NumberTaken | ext/cjson/cJSON.c:302-379 | a number of the grammar of at most 63 bytes, with a byte behind it that no number contains, is read to its end, and its value is what strtod says |
| JsonGrammar.NumberCut | ext/cjson/cJSON.c:320-354 | of a longer one the first 63 bytes are handed to strtod |
| JsonGrammar.StringFound | ext/cjson/cJSON.c:770-896 | a quoted string of plain bytes, short escapes, hexadecimal literals and surrogate pairs is read as what these stand for |
| JsonGrammar.Utf8Exactly | ext/cjson/cJSON.c:696-757 | the bytes of a code point are the shortest sequence of RFC 3629, with its marks, and decode to the code point |
| JsonGrammar.TextParsed | ext/cjson/cJSON.c:1074-1596 | completeness: a text of the JSON grammar, with any white space, escapes and numbers, a byte order mark or none and anything behind it, is parsed to the value it stands for if and only if that is nested at most 1000 deep and only white space follows where nothing may |
| JsonSound.OnlyTexts | ext/cjson/cJSON.c:1074-1822 | soundness: whatever is parsed is such a text, but for malformed hexadecimal literals and for what strtod takes as a number, and the value is the one it stands for |
| JsonRoundTrip.RoundTrip | ext/cjson/cJSON.c:542-1822 | a value is read back from its print, formatted or not, if and only if it is nested at most 1000 deep and each number that is not printed as an integer either is read back from its 15 digits or does not pass for what they are read as |
| JsonRoundTrip.ReturnedClose | ext/cjson/cJSON.c:565-577 | a number that does not come back exactly comes back as one that the library takes for equal |
| JsonRoundTrip.CloseExactly | ext/cjson/cJSON.c:535-539 | which are those that differ by at most 2^-52 of the larger |
| JsonRoundTrip.ValueBack | ext/cjson/cJSON.c:1309-1361 | the same anywhere in a text and at any depth, stopping right behind the value |
| JsonRoundTrip.IntegerPrints | ext/cjson/cJSON.c:561-564 | an integer in the range of an int is printed in decimal |
| JsonRoundTrip.DecimalMeans | ext/cjson/cJSON.c:561-564 | the decimal text is a number of the grammar whose digits give the integer |
| JsonRoundTrip.Layout | ext/cjson/cJSON.c:1560-1820 | the white space of formatted texts |
| JsonRoundTrip.UnescapeBack | ext/cjson/cJSON.c:770-1018 | unescaping undoes escaping |
| JsonRoundTrip.ScanBack | ext/cjson/cJSON.c:783-806 | the scan for the closing quote finds the end of an escaped string |
| JsonParser.Parse | ext/cjson/cJSON.c:1061-1137 | the value that the grammar gives to the text, or none; with or without text behind it |
| JsonParser.ParseBuffer.ParseValue | ext/cjson/cJSON.c:1309-1361 | a value at the cursor, of whichever kind begins there; the depth is as before |
| JsonParser.ParseBuffer.ParseArray | ext/cjson/cJSON.c:1438-1533 | an array, empty or not; too deep a one is refused |
| JsonParser.ParseBuffer.ParseObject | ext/cjson/cJSON.c:1598-1708 | an object, empty or not; too deep a one is refused |
| JsonParser.ParseBuffer.ParseNumber | ext/cjson/cJSON.c:302-376 | a number of at most 63 bytes, read by the C library |
| JsonParser.ParseBuffer.ParseString | ext/cjson/cJSON.c:770-896 | the unescaped string, and the cursor behind its closing quote |
| JsonParser.ParseBuffer.UnescapeString | ext/cjson/cJSON.c:815-876 | the loop writes exactly the unescaped bytes and never past the allocation computed from the scan, also where an escape sequence is cut by a malformed literal |
| JsonParser.ParseBuffer.ScanString | ext/cjson/cJSON.c:783-806 | the closing quote and the number of escape sequences in front of it |
| JsonParser.ParseBuffer.Utf16LiteralToUtf8 | ext/cjson/cJSON.c:649-767 | one or two groups of four digits become one to four bytes, or nothing is written |
| JsonParser.RoomStep | ext/cjson/cJSON.c:807-876 | every step of the loop writes no more than it reads less the escape sequences begun, so the allocation suffices |
| JsonPrinter.PrintText | ext/cjson/cJSON.c:1184-1246 | exactly the text of the value, refused only if its size exceeds an int |
| JsonPrinter.PrintBuffer.Ensure | ext/cjson/cJSON.c:436-519 | room for the bytes asked for, keeping what was printed; refused exactly if the size would exceed an int |
| JsonPrinter.PrintBuffer.UpdateOffset | ext/cjson/cJSON.c:522-532 | the offset moves behind what was printed |
| JsonPrinter.FormatNumber | ext/cjson/cJSON.c:542-582 | the decision between integer, 15 digits and 17 digits, in at most 25 bytes |
| JsonPrinter.PrintBuffer.PrintNumber | ext/cjson/cJSON.c:542-609 | a number that is its integer is printed in decimal |
| JsonPrinter.PrintBuffer.PrintStringPtr | ext/cjson/cJSON.c:899-1018 | the quoted and escaped string, within the computed length |
| JsonPrinter.PrintBuffer.PrintValue | ext/cjson/cJSON.c:1364-1435 | the text of the value behind what was printed before |
| JsonPrinter.PrintBuffer.PrintArray | ext/cjson/cJSON.c:1536-1595 | the text of an array, element by element |
| JsonPrinter.PrintBuffer.PrintObject | ext/cjson/cJSON.c:1711-1822 | the text of an object, member by member, indented by the depth |

## Left out

- Sockets, message queues, threads, processes, signals, clocks and random numbers: plumbing. Times, random draws, chunks and
  the behaviour of callbacks are parameters; the radio is a broadcast to the nodes in reach.
- Concurrent use of the ring buffer by the TCP thread: it has no synchronisation. The contract is single-threaded.
- Logging, dump functions, report formatting, configuration files, the AODV stub, dummy traffic: no hard property.
- Memory management other than the timers' deferred free, and pointers between structures: trees of the router are
  key-ordered sets and maps, which is what the red-black tree is proved to implement; nodes shared between trees are values.
- The red-black tree works on an arena of cells instead of heap objects; `rbtree_last`, `rbtree_previous` and the post-order
  traversal, mirror images and a walk, are not modelled.
- The obsolete flag of an advertised neighbour is local to the handler of a TC, which sets it on every neighbour first.
- OlsrTc.ProcessOlsrTc: assumes that a TC holds its four-byte header, which the program does not check, and at most fifty
  addresses in the network; the callback of its expiry timer is `OlsrTc.TopologyInfoTimerExpireCb`, at any time.
- `asym_link_timer_expire`: no timer has it as callback.
- Expiry of two-hop reports and links does not select relays anew; coverage is restored by the next HELLO and is stated there.
- Willingness and several interfaces: the code ignores the first and uses one interface.
- `detached_callback` of a timer: nothing sets it.
- OlsrHelloCodec.LinkCodeToMe: assumes that the announced sizes stay within the message; the program does not check this.
- OlsrPacket.HandleRoutePkt: assumes the same of the packet, for the same reason.
- JSON: hooks and failing allocations, references, raw items and constant keys, minifying, printing into a given buffer, error
  positions, texts without a terminating zero, NaN and infinities, and a decimal point other than the full stop. Items are values and not nodes linked in place.
- JsonPrinter.PrintBuffer.PrintValue: strings hold no zero byte, as C strings do not.
- TimerQueue.TimerqueueContext.TimerqueueWork: calls of a callback that violate the interface (arming the timer that is
  firing, using freed memory) are skipped, because the program then corrupts its tree.
- OlsrDelivery.Delivered: a packet sent in plain to a one-hop destination must not itself have protocol 55, because the
  receiver would decapsulate it, nor be UDP data for port 698; by `OlsrDelivery.OneHopExactly` that is the exact condition.
- OlsrDelivery.OlsrHandleRemotePkt: assumes that the header of a UDP packet lies inside the packet, which the program does not
  check; the traffic statistics are left out.
- OlsrHello.ProcessOlsrHello: one instant stands for the clock during a handler, and validity times whose microseconds exceed an
  `int`, which no node of this program announces, are left out; if the originator of a HELLO is not its sender and is a
  selector already, the program leaks an entry whose timer removes the selector later, which the model does not.
- `OlsrLifetime`: that timers are served from their instant on, in order, is `TimerQueue.WorkFires`; the two are not one state machine.
- OlsrConvergence.HellosConverge: neither failing links nor the expiry of links and two-hop reports, so nothing about a
  network that changes; it rests on every node processing some HELLO of each neighbour in every round, which the drop of a HELLO
  behind a TC can delay.
