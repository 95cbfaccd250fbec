module OlsrTc {
  import opened AddrTree
  import opened Division
  import opened NetUtil
  import opened OlsrGraph
  import opened OlsrContext
  import opened OlsrSpf
  import opened OlsrNeighbor
  import opened OlsrProto
  import opened OlsrHelloCodec

  const TC_MSG_LEN: nat := 4
  const MAX_OBSOLETES: nat := 10

  /** A TC: the sender's advertised sequence number and its selectors. */
  datatype Tc = Tc(ansn: nat, neigh: seq<Addr>)

  /** What the receiver reads: as many addresses as fit. */
  function TcAt(b: seq<Byte>): Tc
    requires |b| >= TC_MSG_LEN
  {
    Tc(Word(b[0], b[1]), Addrs(b[TC_MSG_LEN..TC_MSG_LEN + ADDR_LEN * Entries(b)]))
  }

  function Entries(b: seq<Byte>): (n: nat)
    requires |b| >= TC_MSG_LEN
    ensures TC_MSG_LEN + ADDR_LEN * n <= |b| < TC_MSG_LEN + ADDR_LEN * n + ADDR_LEN
  {
    QuotRem(|b|, ADDR_LEN);
    Quot(|b|, ADDR_LEN) - 1
  }

  /** A TC as section 9.1 of RFC 3626 has it: the number, two reserved bytes, the addresses. */
  lemma {:induction false} TcLayout(b: seq<Byte>, i: nat)
    requires |b| >= 4
    ensures TcAt(b).ansn == 256 * (b[0] as int) + b[1] && |TcAt(b).neigh| == (|b| - 4) / 4
    ensures 8 + 4 * i <= |b| ==> TcAt(b).neigh[i] == AddrOf(b[4 + 4 * i..8 + 4 * i])
  {
    IsDivision(|b|, 4);
    var w := b[TC_MSG_LEN..TC_MSG_LEN + ADDR_LEN * Entries(b)];
    if 8 + 4 * i <= |b| {
      AddrsAt(w, i);
      SliceOfSlice(b, 4, 4 + 4 * Entries(b), 4 * i, 4 * i + 4);
    }
  }

  // ----- sending

  ghost predicate TcNow(s: set<Addr>, front: seq<Byte>, cells: seq<Byte>, it: Option<Addr>, list: seq<Addr>, k: int) {
    && Lists(list, set a <- s | Seen(it, a)) && |front| + ADDR_LEN * |list| <= |cells|
    && cells[..|front|] == front && Addrs(cells[|front|..|front| + ADDR_LEN * |list|]) == list
  }

  /** A TC being written behind `front`: the selectors before `it`. */
  ghost predicate TcSoFar(s: set<Addr>, front: seq<Byte>, cells: seq<Byte>, it: Option<Addr>, list: seq<Addr>) {
    forall k {:trigger TcNow(s, front, cells, it, list, k)} :: TcNow(s, front, cells, it, list, k)
  }

  lemma {:induction false} TcStart(s: set<Addr>, front: seq<Byte>, cells: seq<Byte>)
    requires |front| <= |cells| && cells[..|front|] == front
    ensures TcSoFar(s, front, cells, First(s), [])
  {
    var none: seq<Addr> := [];
    assert cells[|front|..|front| + ADDR_LEN * |none|] == [];
  }

  lemma {:induction false} TcAdd(s: set<Addr>, front: seq<Byte>, cells: seq<Byte>, a: Addr, list: seq<Addr>)
    requires TcSoFar(s, front, cells, Some(a), list) && a in s && a < 0x1_0000_0000
    requires |front| + ADDR_LEN * |s| <= |cells|
    ensures var end := |front| + ADDR_LEN * |list|;
            end + ADDR_LEN <= |cells| && TcSoFar(s, front, Put(cells, end, AddrBytes(a)), Next(s, a), list + [a])
  {
    assert TcNow(s, front, cells, Some(a), list, 0);
    Step(s, a);
    var before, after := set b <- s | Seen(Some(a), b), set b <- s | Seen(Next(s, a), b);
    assert after == before + {a};
    ListsSnoc(list, before, a);
    ListsLength(list + [a], after, s);
    var end := |front| + ADDR_LEN * |list|;
    AppendBytes(cells, Put(cells, end, AddrBytes(a)), |front|, end, a);
    assert TcNow(s, front, Put(cells, end, AddrBytes(a)), Next(s, a), list + [a], 0);
  }

  lemma {:induction false} TcEnd(s: set<Addr>, front: seq<Byte>, cells: seq<Byte>, list: seq<Addr>)
    requires TcSoFar(s, front, cells, None, list)
    ensures Lists(list, s) && |front| + ADDR_LEN * |list| <= |cells|
    ensures cells[..|front|] == front && Addrs(cells[|front|..|front| + ADDR_LEN * |list|]) == list
  {
    assert TcNow(s, front, cells, None, list, 0);
    assert (set a <- s | Seen(None, a)) == s;
  }

  /** The bytes of a message that starts with a number and ends in addresses. */
  lemma {:induction false} TcBytes(front: seq<Byte>, cells: seq<Byte>, start: nat, ansn: nat, list: seq<Addr>)
    requires |front| == start + TC_MSG_LEN && |front| + ADDR_LEN * |list| <= |cells| && cells[..|front|] == front
    requires Addrs(cells[|front|..|front| + ADDR_LEN * |list|]) == list
    requires ansn < 0x1_0000 && front[start..start + 2] == U16(ansn)
    ensures TcAt(cells[start..|front| + ADDR_LEN * |list|]) == Tc(ansn, list)
  {
    var b := cells[start..|front| + ADDR_LEN * |list|];
    SmallWord(ansn);
    assert b[0] == front[start..start + 2][0] && b[1] == front[start..start + 2][1];
    QuotRemUnique(|b|, ADDR_LEN, |list| + 1, 0);
    assert Entries(b) == |list|;
    assert b[TC_MSG_LEN..TC_MSG_LEN + ADDR_LEN * |list|] == cells[|front|..|front| + ADDR_LEN * |list|];
  }

  method TcWriteSelectors(ctx: OlsrContext, buf: array<Byte>, start: nat) returns (offset: nat, ghost list: seq<Addr>)
    requires (forall a <- ctx.selectorTree.Keys :: a < 0x1_0000_0000) && start + ADDR_LEN * |ctx.selectorTree.Keys| <= buf.Length
    modifies buf
    ensures offset == start + ADDR_LEN * |list| <= buf.Length && Lists(list, ctx.selectorTree.Keys)
    ensures buf[..][..start] == old(buf[..])[..start] && Addrs(buf[..][start..offset]) == list
  {
    ghost var front := buf[..start];
    list := [];
    offset := start;
    var selElem := First(ctx.selectorTree.Keys);
    TcStart(ctx.selectorTree.Keys, front, buf[..]);
    while selElem.Some?
      invariant selElem.Some? ==> selElem.value in ctx.selectorTree.Keys
      invariant TcSoFar(ctx.selectorTree.Keys, front, buf[..], selElem, list) && offset == start + ADDR_LEN * |list|
      decreases Left(ctx.selectorTree.Keys, selElem)
    {
      var a := selElem.value;
      TcAdd(ctx.selectorTree.Keys, front, buf[..], a, list);
      CopyTo(buf, offset, AddrBytes(a));
      list := list + [a];
      offset := offset + ADDR_LEN;
      Step(ctx.selectorTree.Keys, a);
      selElem := Next(ctx.selectorTree.Keys, a);
    }
    TcEnd(ctx.selectorTree.Keys, front, buf[..], list);
  }

  /** A TC holds the number, then counted on, and every selector once. */
  method BuildOlsrTc(ctx: OlsrContext, buf: array<Byte>, start: nat) returns (len: nat)
    requires (forall a <- ctx.selectorTree.Keys :: a < 0x1_0000_0000) && ctx.ansn < 0x1_0000
    requires start + TC_MSG_LEN + ADDR_LEN * |ctx.selectorTree.Keys| <= buf.Length
    modifies buf, ctx`ansn
    ensures ctx.ansn == (old(ctx.ansn) + 1) % 0x1_0000
    ensures TC_MSG_LEN <= len && start + len <= buf.Length && buf[..start] == old(buf[..start])
    ensures TcAt(buf[start..start + len]).ansn == old(ctx.ansn)
    ensures Lists(TcAt(buf[start..start + len]).neigh, ctx.selectorTree.Keys)
  {
    var ansn := ctx.ansn;
    ctx.ansn := (ctx.ansn + 1) % 0x1_0000;
    ghost var list;
    len, list := WriteTc(ctx, buf, start, ansn);
  }

  method WriteTc(ctx: OlsrContext, buf: array<Byte>, start: nat, ansn: nat) returns (len: nat, ghost list: seq<Addr>)
    requires (forall a <- ctx.selectorTree.Keys :: a < 0x1_0000_0000) && ansn < 0x1_0000
    requires start + TC_MSG_LEN + ADDR_LEN * |ctx.selectorTree.Keys| <= buf.Length
    modifies buf
    ensures TC_MSG_LEN <= len && start + len <= buf.Length && buf[..start] == old(buf[..start])
    ensures TcAt(buf[start..start + len]) == Tc(ansn, list) && Lists(list, ctx.selectorTree.Keys)
  {
    ghost var was := buf[..];
    CopyTo(buf, start, U16(ansn));
    ghost var front := buf[..][..start + TC_MSG_LEN];
    var offset;
    offset, list := TcWriteSelectors(ctx, buf, start + TC_MSG_LEN);
    TcDone(was, front, buf[..], start, ansn, list);
    len := offset - start;
    assert buf[..][start..offset] == buf[start..start + len] && buf[..][..start] == buf[..start];
  }

  lemma {:induction false} TcDone(was: seq<Byte>, front: seq<Byte>, cells: seq<Byte>, start: nat, ansn: nat, list: seq<Addr>)
    requires start + TC_MSG_LEN + ADDR_LEN * |list| <= |was| == |cells| && ansn < 0x1_0000
    requires front == Put(was, start, U16(ansn))[..start + TC_MSG_LEN] && cells[..start + TC_MSG_LEN] == front
    requires Addrs(cells[|front|..|front| + ADDR_LEN * |list|]) == list
    ensures cells[..start] == was[..start] && TcAt(cells[start..|front| + ADDR_LEN * |list|]) == Tc(ansn, list)
  {
    assert front[..start] == was[..start] && front[start..start + 2] == U16(ansn);
    assert cells[..start] == front[..start];
    TcBytes(front, cells, start, ansn, list);
  }

  // ----- what a received TC does to the topology database

  /** The `n` smallest of `s`, or all of it. */
  ghost predicate Smallest(s: set<Addr>, n: nat, r: set<Addr>) {
    && r <= s && |r| <= n && (|r| < n ==> r == s)
    && forall a, b | a in r && b in s - r :: a < b
  }

  /** The sender of the packet is a symmetric neighbour. */
  predicate FromNeighbour(nb: Neighbors, src: Addr) { src in nb && Symmetric(nb[src]) }

  /** What the database holds of `orig` before the TC is looked at. */
  function Held(topo: Topology, orig: Addr): map<Addr, bool> { if orig in topo then topo[orig] else map[] }

  function HeldSeq(seqs: map<Addr, nat>, orig: Addr, ansn: nat): nat { if orig in seqs then seqs[orig] else ansn }

  /** A TC that is not out of date replaces what `orig` advertises, but of the addresses that it no longer lists only the
      ten smallest go. */
  ghost predicate Replaced(was: set<Addr>, now: set<Addr>, listed: set<Addr>) {
    exists gone {:trigger Smallest(was - listed, MAX_OBSOLETES, gone)} ::
      Smallest(was - listed, MAX_OBSOLETES, gone) && now == was + listed - gone
  }

  /** An originator's tree and number, before and after its TC. */
  ghost predicate TreeAfter(was: set<Addr>, seq0: nat, now: map<Addr, bool>, seq1: nat, tc: Tc) {
    && seq1 == (if tc.ansn < seq0 then seq0 else tc.ansn)
    && (if tc.ansn < seq0 then now.Keys == was else Replaced(was, now.Keys, Elements(tc.neigh)))
    && forall a <- now :: !now[a]
  }

  ghost predicate TcTaken(topo: Topology, seqs: map<Addr, nat>, topo': Topology, seqs': map<Addr, nat>, orig: Addr, tc: Tc) {
    && orig in topo' && orig in seqs' && topo' == topo[orig := topo'[orig]] && seqs' == seqs[orig := seqs'[orig]]
    && TreeAfter(Held(topo, orig).Keys, HeldSeq(seqs, orig, tc.ansn), topo'[orig], seqs'[orig], tc)
  }

  /** Exactly when at most ten addresses have gone, the database then holds what the TC lists. */
  lemma {:induction false} ReplacedExactly(was: set<Addr>, now: set<Addr>, listed: set<Addr>)
    requires Replaced(was, now, listed)
    ensures listed <= now <= was + listed
    ensures now == listed <==> |was - listed| <= MAX_OBSOLETES
    ensures now != was <==> !(listed <= was) || !(was <= listed)
  {
    var gone :| Smallest(was - listed, MAX_OBSOLETES, gone) && now == was + listed - gone;
    if x :| x in was - listed && x !in gone {
      SubsetSize(gone + {x}, was - listed);
    }
  }

  ghost predicate InsertedNow(before: map<Addr, bool>, an: map<Addr, bool>, obsolete: set<Addr>, infoChanged: bool, listed: set<Addr>, k: int) {
    && an.Keys == before.Keys + listed && (forall a <- an :: !an[a])
    && obsolete == before.Keys - listed && (infoChanged <==> !(listed <= before.Keys))
  }

  /** The tree when the entries in `listed` have been worked in. */
  ghost predicate Inserted(before: map<Addr, bool>, an: map<Addr, bool>, obsolete: set<Addr>, infoChanged: bool, listed: set<Addr>) {
    forall k {:trigger InsertedNow(before, an, obsolete, infoChanged, listed, k)} :: InsertedNow(before, an, obsolete, infoChanged, listed, k)
  }

  lemma {:induction false} InsertStep(before: map<Addr, bool>, an: map<Addr, bool>, obsolete: set<Addr>, infoChanged: bool, listed: set<Addr>, a: Addr)
    requires Inserted(before, an, obsolete, infoChanged, listed)
    ensures a !in an ==> Inserted(before, an[a := false], obsolete, true, listed + {a})
    ensures a in an ==> Inserted(before, an, obsolete - {a}, infoChanged, listed + {a})
  {
    assert InsertedNow(before, an, obsolete, infoChanged, listed, 0);
    if a in an {
      assert an.Keys == before.Keys + (listed + {a}) && obsolete - {a} == before.Keys - (listed + {a});
    }
  }

  /** The entries one after the other: a new address is inserted, a known one is not obsolete any more. */
  method InsertListed(before: map<Addr, bool>, msg: seq<Byte>) returns (an: map<Addr, bool>, obsolete: set<Addr>, infoChanged: bool)
    requires |msg| >= TC_MSG_LEN && forall a <- before :: !before[a]
    ensures an.Keys == before.Keys + Elements(TcAt(msg).neigh) && forall a <- an :: !an[a]
    ensures obsolete == before.Keys - Elements(TcAt(msg).neigh)
    ensures infoChanged <==> !(Elements(TcAt(msg).neigh) <= before.Keys)
  {
    an, obsolete, infoChanged := before, before.Keys, false;
    var entryNum := Entries(msg);
    ghost var list, listed: set<Addr> := TcAt(msg).neigh, {};
    for i := 0 to entryNum
      invariant listed == Elements(list[..i]) && Inserted(before, an, obsolete, infoChanged, listed)
    {
      PrefixElements(list, i);
      var ana := NeighAddr(msg, TC_MSG_LEN, entryNum, i);
      InsertStep(before, an, obsolete, infoChanged, listed, ana);
      listed := listed + {ana};
      if ana !in an {
        an := an[ana := false];
        infoChanged := true;
      } else {
        obsolete := obsolete - {ana};
      }
    }
    assert list[..entryNum] == list;
    assert InsertedNow(before, an, obsolete, infoChanged, listed, 0);
  }

  /** Collects the first ten obsolete addresses and deletes them. */
  method RemoveObsoleteAdvertisedNeighbor(before: map<Addr, bool>, obsolete: set<Addr>) returns (an: map<Addr, bool>, obsoluted: nat)
    requires obsolete <= before.Keys
    ensures an == map a <- before | a in an.Keys :: before[a]
    ensures Smallest(obsolete, MAX_OBSOLETES, before.Keys - an.Keys) && obsoluted == |before.Keys - an.Keys|
  {
    var obsolutes := new Addr[MAX_OBSOLETES];
    ghost var gone: seq<Addr>;
    obsoluted, gone := CollectObsolete(before, obsolete, obsolutes);
    an := DeleteAll(before, obsolutes, obsoluted, gone);
    assert before.Keys - an.Keys == Elements(gone);
    DistinctSize(gone);
  }

  lemma {:induction false} DistinctSize(list: seq<Addr>)
    requires Distinct(list)
    ensures |Elements(list)| == |list|
  {
    if list != [] {
      var n := |list| - 1;
      DistinctSize(list[..n]);
      PrefixElements(list, n);
      assert list[..n + 1] == list;
    }
  }

  /** The obsolete addresses that an iteration at `it` has passed. */
  ghost function Passed(obsolete: set<Addr>, it: Option<Addr>): set<Addr> { set a <- obsolete | Seen(it, a) }

  lemma {:induction false} PassedStep(s: set<Addr>, obsolete: set<Addr>, gone: seq<Addr>, a: Addr)
    requires a in s && obsolete <= s && Distinct(gone) && Elements(gone) == Passed(obsolete, Some(a))
    ensures a in obsolete ==> Distinct(gone + [a]) && Elements(gone + [a]) == Passed(obsolete, Next(s, a))
    ensures a !in obsolete ==> Passed(obsolete, Next(s, a)) == Elements(gone)
  {
    Step(s, a);
    assert Elements(gone + [a]) == Elements(gone) + {a};
    if a in obsolete {
      assert a in gone <==> a in Elements(gone);
    }
  }

  lemma {:induction false} PassedSmallest(obsolete: set<Addr>, gone: seq<Addr>, it: Option<Addr>)
    requires Distinct(gone) && Elements(gone) == Passed(obsolete, it) && |gone| <= MAX_OBSOLETES
    requires it.Some? ==> |gone| == MAX_OBSOLETES
    ensures Smallest(obsolete, MAX_OBSOLETES, Elements(gone))
  {
    DistinctSize(gone);
  }

  method CollectObsolete(an: map<Addr, bool>, obsolete: set<Addr>, obsolutes: array<Addr>) returns (num: nat, ghost gone: seq<Addr>)
    requires obsolete <= an.Keys && obsolutes.Length == MAX_OBSOLETES
    modifies obsolutes
    ensures num == |gone| <= MAX_OBSOLETES && obsolutes[..num] == gone
    ensures Distinct(gone) && Smallest(obsolete, MAX_OBSOLETES, Elements(gone))
  {
    num, gone := 0, [];
    var aelem := First(an.Keys);
    while aelem.Some?
      invariant aelem.Some? ==> aelem.value in an.Keys && num < MAX_OBSOLETES
      invariant num == |gone| <= MAX_OBSOLETES && obsolutes[..num] == gone
      invariant Distinct(gone) && Elements(gone) == Passed(obsolete, aelem)
      decreases Left(an.Keys, aelem)
    {
      var a := aelem.value;
      Step(an.Keys, a);
      PassedStep(an.Keys, obsolete, gone, a);
      if a in obsolete {
        obsolutes[num] := a;
        num, gone := num + 1, gone + [a];
      }
      aelem := Next(an.Keys, a);
      if num == MAX_OBSOLETES {
        break;
      }
    }
    PassedSmallest(obsolete, gone, aelem);
  }

  // ----- the handler

  /** The database after a TC is well formed and within the known addresses. */
  lemma {:induction false} StillReady(topo: Topology, orig: Addr, an: map<Addr, bool>, world: set<Addr>)
    requires Plain(topo) && (forall a <- an :: !an[a]) && orig in world && an.Keys <= world
    requires topo.Keys <= world && forall u <- topo :: topo[u].Keys <= world
    ensures var topo' := topo[orig := an]; Plain(topo') && topo'.Keys <= world && forall u <- topo' :: topo'[u].Keys <= world
  {
  }

  /** Puts the tree of an originator into the database and makes the routes right. */
  method SetAdvertised(ctx: OlsrContext, orig: Addr, an: map<Addr, bool>)
    requires Routed(ctx) && orig in ctx.world && an.Keys <= ctx.world && forall a <- an :: !an[a]
    modifies ctx`topology, ctx`routingTable, ctx`nodeStatTree, ctx`nodeInfo, ctx`nodeStatsNum
    ensures Routed(ctx) && Fresh(ctx) && ctx.topology == old(ctx.topology)[orig := an]
  {
    assert RoutedNow(ctx, 0);
    StillReady(ctx.topology, orig, an, ctx.world);
    ctx.topology := ctx.topology[orig := an];
    Recalculate(ctx);
  }

  /** A new originator, without a calculation. */
  method MakeTopologyInfo(ctx: OlsrContext, orig: Addr, ansn: nat, vtime: nat, now: nat)
    requires Routed(ctx) && orig in ctx.world && orig !in ctx.topology
    modifies ctx`topology, ctx`topologySeq, ctx`topologyTimers
    ensures ctx.topologyTimers == old(ctx.topologyTimers)[orig := Holding(vtime, Until(now, vtime))]
    ensures Routed(ctx) && ctx.topology == old(ctx.topology)[orig := map[]] && ctx.topologySeq == old(ctx.topologySeq)[orig := ansn]
  {
    assert RoutedNow(ctx, 0);
    StillReady(ctx.topology, orig, map[], ctx.world);
    SilentOriginator(ctx.ownIp, N1(ctx.neighborTree), ctx.topology, ctx.routingTable, orig);
    ctx.topology := ctx.topology[orig := map[]];
    ctx.topologySeq := ctx.topologySeq[orig := ansn];
    ctx.topologyTimers := ctx.topologyTimers[orig := Holding(vtime, Until(now, vtime))];
    assert RoutedNow(ctx, 0);
  }

  method TopologyInfoTimerExpireCb(ctx: OlsrContext, dest: Addr)
    requires Routed(ctx) && dest in ctx.topology
    modifies ctx`topology, ctx`topologySeq, ctx`topologyTimers, ctx`routingTable, ctx`nodeStatTree, ctx`nodeInfo, ctx`nodeStatsNum
    ensures Routed(ctx) && Fresh(ctx)
    ensures ctx.topology == old(ctx.topology) - {dest} && ctx.topologySeq == old(ctx.topologySeq) - {dest}
    ensures ctx.topologyTimers == old(ctx.topologyTimers) - {dest}
  {
    assert RoutedNow(ctx, 0);
    ctx.topology := ctx.topology - {dest};
    ctx.topologySeq := ctx.topologySeq - {dest};
    ctx.topologyTimers := ctx.topologyTimers - {dest};
    Recalculate(ctx);
  }

  /** The tree of an originator after its TC. */
  method UpdateAdvertised(before: map<Addr, bool>, msg: seq<Byte>) returns (an: map<Addr, bool>, infoChanged: bool)
    requires |msg| >= TC_MSG_LEN && forall a <- before :: !before[a]
    ensures Replaced(before.Keys, an.Keys, Elements(TcAt(msg).neigh)) && forall a <- an :: !an[a]
    ensures an.Keys <= before.Keys + Elements(TcAt(msg).neigh)
    ensures infoChanged <==> an != before
  {
    var inserted, obsolete, changed := InsertListed(before, msg);
    var obsoluted;
    an, obsoluted := RemoveObsoleteAdvertisedNeighbor(inserted, obsolete);
    infoChanged := changed || obsoluted > 0;
    Updated(before, inserted, an, Elements(TcAt(msg).neigh), obsoluted);
  }

  lemma {:induction false} Updated(before: map<Addr, bool>, inserted: map<Addr, bool>, an: map<Addr, bool>, listed: set<Addr>, obsoluted: nat)
    requires (forall a <- before :: !before[a]) && (forall a <- inserted :: !inserted[a])
    requires inserted.Keys == before.Keys + listed && an == map a <- inserted | a in an.Keys :: inserted[a]
    requires Smallest(before.Keys - listed, MAX_OBSOLETES, inserted.Keys - an.Keys) && obsoluted == |inserted.Keys - an.Keys|
    ensures Replaced(before.Keys, an.Keys, listed) && (forall a <- an :: !an[a]) && an.Keys <= before.Keys + listed
    ensures an != before <==> !(listed <= before.Keys) || obsoluted > 0
  {
    var gone := inserted.Keys - an.Keys;
    assert an.Keys == before.Keys + listed - gone;
    if gone != {} {
      var a :| a in gone;
      assert a in before && a !in an;
    } else if listed <= before.Keys {
      assert an.Keys == before.Keys;
      assert an == before;
    }
  }

  /** A TC that is not out of date holds the entry for the interval that the first one of its originator has set. */
  function TimersAfter(timers: map<Addr, Holding>, orig: Addr, outdated: bool, vtime: nat, now: nat): map<Addr, Holding> {
    var held := if orig in timers then timers[orig] else Holding(vtime, Until(now, vtime));
    timers[orig := if outdated then held else Holding(held.vtime, Until(now, held.vtime))]
  }

  method HoldTopologyInfo(ctx: OlsrContext, orig: Addr, ansn: nat, ghost vtime: nat, now: nat)
    requires Routed(ctx) && orig in ctx.topologyTimers
    modifies ctx`topologySeq, ctx`topologyTimers
    ensures Routed(ctx) && (old(Fresh(ctx)) ==> Fresh(ctx)) && ctx.topologySeq == old(ctx.topologySeq)[orig := ansn]
    ensures ctx.topologyTimers == TimersAfter(old(ctx.topologyTimers), orig, false, vtime, now)
  {
    ctx.topologySeq := ctx.topologySeq[orig := ansn];
    ctx.topologyTimers := ctx.topologyTimers[orig := ctx.topologyTimers[orig].(due := Until(now, ctx.topologyTimers[orig].vtime))];
  }

  method ReplaceAdvertised(ctx: OlsrContext, orig: Addr, msg: seq<Byte>)
    requires Routed(ctx) && orig in ctx.topology && orig in ctx.world
    requires |msg| >= TC_MSG_LEN && Elements(TcAt(msg).neigh) <= ctx.world
    modifies ctx`topology, ctx`routingTable, ctx`nodeStatTree, ctx`nodeInfo, ctx`nodeStatsNum
    ensures Routed(ctx) && orig in ctx.topology && ctx.topology == old(ctx.topology)[orig := ctx.topology[orig]]
    ensures Replaced(old(ctx.topology)[orig].Keys, ctx.topology[orig].Keys, Elements(TcAt(msg).neigh))
    ensures forall a <- ctx.topology[orig] :: !ctx.topology[orig][a]
    ensures ctx.topology != old(ctx.topology) || old(Fresh(ctx)) ==> Fresh(ctx)
  {
    assert Plain(ctx.topology) && ctx.topology[orig].Keys <= ctx.world by { assert RoutedNow(ctx, 0); }
    var an, infoChanged := UpdateAdvertised(ctx.topology[orig], msg);
    if infoChanged {
      SetAdvertised(ctx, orig, an);
    }
  }

  /** A TC of a known originator. */
  method TakeTc(ctx: OlsrContext, msg: seq<Byte>, orig: Addr, vtime: nat, now: nat)
    requires Routed(ctx) && orig in ctx.topology && orig in ctx.topologySeq && orig in ctx.topologyTimers
    requires |msg| >= TC_MSG_LEN && orig in ctx.world && Elements(TcAt(msg).neigh) <= ctx.world
    modifies ctx`topology, ctx`topologySeq, ctx`topologyTimers, ctx`routingTable, ctx`nodeStatTree, ctx`nodeInfo, ctx`nodeStatsNum
    ensures Routed(ctx) && TcTaken(old(ctx.topology), old(ctx.topologySeq), ctx.topology, ctx.topologySeq, orig, TcAt(msg))
    ensures ctx.topology != old(ctx.topology) || old(Fresh(ctx)) ==> Fresh(ctx)
    ensures ctx.topologyTimers == TimersAfter(old(ctx.topologyTimers), orig, TcAt(msg).ansn < old(ctx.topologySeq)[orig], vtime, now)
  {
    assert Plain(ctx.topology) by { assert RoutedNow(ctx, 0); }
    ghost var topo, seqs := ctx.topology, ctx.topologySeq;
    var ansn := Word(msg[0], msg[1]);
    if ansn < ctx.topologySeq[orig] {
      Outdated(topo, seqs, orig, TcAt(msg));
      return;
    }
    HoldTopologyInfo(ctx, orig, ansn, vtime, now);
    ReplaceAdvertised(ctx, orig, msg);
    UpToDate(topo, seqs, orig, TcAt(msg), ctx.topology[orig]);
  }

  lemma {:induction false} Outdated(topo: Topology, seqs: map<Addr, nat>, orig: Addr, tc: Tc)
    requires Plain(topo) && orig in topo && orig in seqs && tc.ansn < seqs[orig]
    ensures TcTaken(topo, seqs, topo, seqs, orig, tc)
  {
  }

  lemma {:induction false} UpToDate(topo: Topology, seqs: map<Addr, nat>, orig: Addr, tc: Tc, an: map<Addr, bool>)
    requires orig in topo && orig in seqs && tc.ansn >= seqs[orig]
    requires Replaced(topo[orig].Keys, an.Keys, Elements(tc.neigh)) && forall a <- an :: !an[a]
    ensures TcTaken(topo, seqs, topo[orig := an], seqs[orig := tc.ansn], orig, tc)
  {
  }

  lemma {:induction false} TakenNew(topo: Topology, seqs: map<Addr, nat>, topo': Topology, seqs': map<Addr, nat>, orig: Addr, tc: Tc)
    requires orig !in topo && orig !in seqs && TcTaken(topo[orig := map[]], seqs[orig := tc.ansn], topo', seqs', orig, tc)
    ensures TcTaken(topo, seqs, topo', seqs', orig, tc)
    ensures tc.neigh != [] ==> topo' != topo[orig := map[]]
  {
    var none: map<Addr, bool> := map[];
    assert topo' == topo[orig := topo'[orig]];
    assert TreeAfter(none.Keys, tc.ansn, topo'[orig], seqs'[orig], tc);
    if tc.neigh != [] {
      ReplacedExactly(none.Keys, topo'[orig].Keys, Elements(tc.neigh));
      assert tc.neigh[0] in topo'[orig];
    }
  }

  method TakeNewTc(ctx: OlsrContext, msg: seq<Byte>, orig: Addr, vtime: nat, now: nat)
    requires Routed(ctx) && orig !in ctx.topology && orig !in ctx.topologySeq && orig !in ctx.topologyTimers
    requires |msg| >= TC_MSG_LEN && orig in ctx.world && Elements(TcAt(msg).neigh) <= ctx.world
    modifies ctx`topology, ctx`topologySeq, ctx`topologyTimers, ctx`routingTable, ctx`nodeStatTree, ctx`nodeInfo, ctx`nodeStatsNum
    ensures Routed(ctx) && TcTaken(old(ctx.topology), old(ctx.topologySeq), ctx.topology, ctx.topologySeq, orig, TcAt(msg))
    ensures TcAt(msg).neigh != [] ==> Fresh(ctx)
    ensures ctx.topologyTimers == TimersAfter(old(ctx.topologyTimers), orig, false, vtime, now)
  {
    ghost var topo, seqs, tc := ctx.topology, ctx.topologySeq, TcAt(msg);
    MakeTopologyInfo(ctx, orig, Word(msg[0], msg[1]), vtime, now);
    TakeTc(ctx, msg, orig, vtime, now);
    TakenNew(topo, seqs, ctx.topology, ctx.topologySeq, orig, tc);
  }

  /** Everything a received TC changes. The routes are right afterwards unless the TC came from a new originator and listed
      nothing. */
  method ProcessOlsrTc(ctx: OlsrContext, msg: seq<Byte>, src: Addr, orig: Addr, vtime: nat, now: nat)
    requires Routed(ctx) && ctx.topologyTimers.Keys == ctx.topologySeq.Keys == ctx.topology.Keys
    requires |msg| >= TC_MSG_LEN && orig in ctx.world && Elements(TcAt(msg).neigh) <= ctx.world
    modifies ctx`topology, ctx`topologySeq, ctx`topologyTimers, ctx`routingTable, ctx`nodeStatTree, ctx`nodeInfo, ctx`nodeStatsNum
    ensures Routed(ctx) && ctx.topologyTimers.Keys == ctx.topologySeq.Keys == ctx.topology.Keys
    ensures !FromNeighbour(ctx.neighborTree, src) ==> unchanged(ctx)
    ensures FromNeighbour(ctx.neighborTree, src) ==>
              TcTaken(old(ctx.topology), old(ctx.topologySeq), ctx.topology, ctx.topologySeq, orig, TcAt(msg))
    ensures FromNeighbour(ctx.neighborTree, src) ==>
              ctx.topologyTimers == TimersAfter(old(ctx.topologyTimers), orig,
                TcAt(msg).ansn < HeldSeq(old(ctx.topologySeq), orig, TcAt(msg).ansn), vtime, now)
    ensures old(Fresh(ctx)) && (orig in old(ctx.topology) || TcAt(msg).neigh != []) ==> Fresh(ctx)
  {
    if src !in ctx.neighborTree {
      return;
    }
    if ctx.neighborTree[src].status != SYM_NEIGH && ctx.neighborTree[src].status != MPR_NEIGH {
      return;
    }
    if orig !in ctx.topology {
      TakeNewTc(ctx, msg, orig, vtime, now);
    } else {
      TakeTc(ctx, msg, orig, vtime, now);
    }
  }

  // ----- a new originator that lists nothing

  /** Originator `orig` is not the way to anything sooner. */
  ghost predicate NoDetour(own: Addr, topo: Topology, t: Table, orig: Addr) {
    orig in t && orig != own ==>
      forall v <- topo :: orig in topo[v] && v != own ==> v in t && t[v].hop <= t[orig].hop + 1
  }

  lemma {:induction false} SilentEdges(own: Addr, topo: Topology, orig: Addr, a: Addr, b: Addr)
    requires orig !in topo
    ensures SymEdge(own, topo[orig := map[]], a, b) <==>
              SymEdge(own, topo, a, b) || (a == orig && a != own && b != own && b in topo && orig in topo[b])
  {
  }

  /** A route and one more step. */
  lemma {:induction false} OneStep(own: Addr, n1: set<Addr>, topo: Topology, t: Table, d: Addr, v: Addr)
    requires RouteOk(own, n1, topo, t, d) && SymEdge(own, topo, d, v)
    ensures SymWalk(own, n1, topo, t[d].path + [v])
  {
    var w := t[d].path + [v];
    forall i | 0 <= i < |w| - 1 ensures SymEdge(own, topo, w[i], w[i + 1]) {
      if i < |w| - 2 { assert SymEdge(own, topo, t[d].path[i], t[d].path[i + 1]); }
    }
  }

  lemma {:induction false} RouteStays(own: Addr, n1: set<Addr>, topo: Topology, t: Table, orig: Addr, d: Addr)
    requires orig !in topo && RouteOk(own, n1, topo, t, d)
    ensures RouteOk(own, n1, topo[orig := map[]], t, d)
  {
    forall i | 0 <= i < |t[d].path| - 1 ensures SymEdge(own, topo[orig := map[]], t[d].path[i], t[d].path[i + 1]) {
      SilentEdges(own, topo, orig, t[d].path[i], t[d].path[i + 1]);
      assert SymEdge(own, topo, t[d].path[i], t[d].path[i + 1]);
    }
  }

  lemma {:induction false} NothingSooner(own: Addr, n1: set<Addr>, topo: Topology, t: Table, orig: Addr, w: seq<Addr>)
    requires Correct(own, n1, topo, t) && orig !in topo && NoDetour(own, topo, t, orig)
    requires SymWalk(own, n1, topo[orig := map[]], w)
    ensures Last(w) in t && t[Last(w)].hop <= |w|
  {
    if |w| == 1 {
      assert SymWalk(own, n1, topo, w);
    } else {
      var n := |w| - 1;
      var p, d := w[n - 1], w[n];
      NothingSooner(own, n1, topo, t, orig, w[..n]);
      assert SymEdge(own, topo[orig := map[]], p, d);
      SilentEdges(own, topo, orig, p, d);
      if SymEdge(own, topo, p, d) {
        assert RouteOk(own, n1, topo, t, p);
        OneStep(own, n1, topo, t, p, d);
      }
    }
  }

  /** After the first TC of an originator that lists nothing the routes are right exactly if every node that advertises it
      is reached without it as soon. */
  lemma {:induction false} SilentExactly(own: Addr, n1: set<Addr>, topo: Topology, t: Table, orig: Addr)
    requires Correct(own, n1, topo, t) && orig !in topo
    ensures Correct(own, n1, topo[orig := map[]], t) <==> NoDetour(own, topo, t, orig)
  {
    if NoDetour(own, topo, t, orig) {
      forall d | d in t ensures RouteOk(own, n1, topo[orig := map[]], t, d) {
        assert RouteOk(own, n1, topo, t, d);
        RouteStays(own, n1, topo, t, orig, d);
      }
      forall w | SymWalk(own, n1, topo[orig := map[]], w) ensures Last(w) in t && t[Last(w)].hop <= |w| {
        NothingSooner(own, n1, topo, t, orig, w);
      }
    } else {
      var v :| v in topo && orig in topo[v] && v != own && !(v in t && t[v].hop <= t[orig].hop + 1);
      Detour(own, n1, topo, t, orig, v);
    }
  }

  lemma {:induction false} Detour(own: Addr, n1: set<Addr>, topo: Topology, t: Table, orig: Addr, v: Addr)
    requires Correct(own, n1, topo, t) && orig !in topo && orig in t && orig != own
    requires v in topo && orig in topo[v] && v != own && !(v in t && t[v].hop <= t[orig].hop + 1)
    ensures !Correct(own, n1, topo[orig := map[]], t)
  {
    assert RouteOk(own, n1, topo, t, orig);
    RouteStays(own, n1, topo, t, orig, orig);
    SilentEdges(own, topo, orig, orig, v);
    OneStep(own, n1, topo[orig := map[]], t, orig, v);
    assert Last(t[orig].path + [v]) == v;
  }

  /** Such a table: node 1 has neighbour 2, which node 3 advertises, and the first TC of node 2 lists nothing. Node 3 is in
      reach over node 2, and the table does not say so until the next calculation. */
  lemma {:induction false} StaleTable()
    ensures var topo: Topology := map[3 := map[2 := false]];
            var t: Table := map[2 := Route(1, [2])];
            Correct(1, {2}, topo, t) && !Correct(1, {2}, topo[2 := map[]], t)
  {
    var topo: Topology := map[3 := map[2 := false]];
    var t: Table := map[2 := Route(1, [2])];
    assert RouteOk(1, {2}, topo, t, 2);
    forall w | SymWalk(1, {2}, topo, w) ensures Last(w) in t && t[Last(w)].hop <= |w| {
      assert |w| > 1 ==> SymEdge(1, topo, w[0], w[1]);
    }
    assert !NoDetour(1, topo, t, 2) by { assert 3 in topo && 2 in topo[3]; }
    SilentExactly(1, {2}, topo, t, 2);
  }
}
