module OlsrDelivery {
  import opened AddrTree
  import opened OlsrGraph
  import opened Division
  import opened NetUtil
  import opened OlsrProto
  import opened OlsrPacket
  import opened OlsrForwarding

  /** Equality under the mask 0xffffff00. */
  predicate ClassMatch(a: Addr, b: Addr) { Quot(a, 256) == Quot(b, 256) }

  /** Addresses match if they agree in all bytes but the one that comes first in memory. */
  lemma {:induction false} ClassBytes(a: seq<Byte>, b: seq<Byte>)
    requires |a| == 4 && |b| == 4
    ensures ClassMatch(AddrOf(a), AddrOf(b)) <==> a[1..] == b[1..]
  {
    HighBytes(a);
    HighBytes(b);
    if a[1..] != b[1..] {
      assert a[1] != b[1] || a[2] != b[2] || a[3] != b[3];
    } else {
      assert a[1] == a[1..][0] && a[2] == a[1..][1] && a[3] == a[1..][2];
    }
  }

  lemma {:induction false} HighBytes(a: seq<Byte>)
    requires |a| == 4
    ensures Quot(AddrOf(a), 256) == a[1] + 256 * (a[2] as int) + 65536 * (a[3] as int)
  {
    QuotRemUnique(AddrOf(a), 256, a[1] + 256 * (a[2] as int) + 65536 * (a[3] as int), a[0]);
  }

  /** A routing table as the search leaves it: no route is empty. */
  type RouteTable = t: Table | forall d <- t :: |t[d].path| > 0 witness map[]

  /** `Control` is a routing packet split into its messages; `whole` is false where the program gives up on it. */
  datatype Action =
    | Drop
    | SendRemote(frame: seq<Byte>)
    | SendLocal(packet: seq<Byte>)
    | Control(messages: seq<seq<Byte>>, whole: bool)

  ghost function RouteAction(own: Addr, table: RouteTable, p: seq<Byte>, fromLocal: bool): Action
    requires HasHeader(p)
  {
    var d := AddrOf(Daddr(p));
    if d !in table then Drop
    else if table[d].hop == 1 && fromLocal then SendRemote(p)
    else SendRemote(Encap(p, AddrBytes(own), AddrBytes(table[d].path[0])))
  }

  /** A frame from the radio whose headers the program can read. */
  ghost predicate Readable(f: seq<Byte>) {
    HasHeader(f) && (Protocol(f) == IPPROTO_MOBILE ==> HeaderLen(f) >= IP_LEN + MIP_LEN && HasHeader(Decap(f)))
  }

  ghost function RemoteAction(own: Addr, table: RouteTable, f: seq<Byte>): Action
    requires Readable(f)
  {
    if !ClassMatch(own, AddrOf(Daddr(f))) then Drop
    else if Protocol(f) == IPPROTO_MOBILE then
      var p := Decap(f);
      if ClassMatch(own, AddrOf(Daddr(p))) then SendLocal(p) else RouteAction(own, table, p, false)
    else SendLocal(f)
  }

  /** A UDP packet to the port of the routing protocol. */
  predicate ForRouting(f: seq<Byte>)
    requires HasHeader(f) && (Protocol(f) == IPPROTO_UDP ==> |f| >= HeaderLen(f) + UDP_LEN)
  {
    Protocol(f) == IPPROTO_UDP && Word(f[HeaderLen(f) + 2], f[HeaderLen(f) + 3]) == OLSR_PROTO_PORT
  }

  /** Of all packets those are routing packets whose protocol is UDP and whose destination port is 698, whatever the others. */
  lemma {:induction false} DispatchExactly(h: seq<Byte>, sport: nat, dport: nat, rest: seq<Byte>)
    requires HasHeader(h) && HeaderLen(h) == |h| && sport < 0x1_0000 && dport < 0x1_0000 && |rest| >= 4
    ensures var f := h + U16(sport) + U16(dport) + rest;
            HasHeader(f) && (ForRouting(f) <==> h[9] == 17 && dport == 698)
  {
    var f := h + U16(sport) + U16(dport) + rest;
    assert f[0] == h[0] && f[9] == h[9] && f[|h| + 2] == U16(dport)[0] && f[|h| + 3] == U16(dport)[1];
    SmallWord(dport);
  }

  /** The same with its UDP header, and with messages that end where the packet does. */
  ghost predicate Receivable(f: seq<Byte>) {
    && Readable(f) && (Protocol(f) == IPPROTO_UDP ==> |f| >= HeaderLen(f) + UDP_LEN)
    && (ForRouting(f) ==> |f| >= IPUDP_HDRLEN + PKT_HDR_LEN && Splittable(f[IPUDP_HDRLEN + PKT_HDR_LEN..]))
  }

  /** What a node does with a frame from the radio. */
  ghost function FrameAction(own: Addr, table: RouteTable, f: seq<Byte>): Action
    requires Receivable(f)
  {
    if ForRouting(f) then
      var (ms, whole) := Split(f[IPUDP_HDRLEN + PKT_HDR_LEN..]);
      Control(ms, whole)
    else RemoteAction(own, table, f)
  }

  ghost function LocalAction(own: Addr, table: RouteTable, p: seq<Byte>): Action
    requires HasHeader(p)
  {
    if ClassMatch(own, AddrOf(Daddr(p))) then Drop else RouteAction(own, table, p, true)
  }

  // ----- the program's packet handlers

  method IpRoute(ownIp: Addr, routingTable: RouteTable, pkt: PacketBuf, fromLocal: bool) returns (action: Action)
    requires pkt.Valid() && HasHeader(pkt.Bytes()) && HeaderLen(pkt.Bytes()) <= 48
    requires pkt.length + MIP_LEN <= pkt.data.Length
    ensures action == RouteAction(ownIp, routingTable, pkt.Bytes(), fromLocal)
  {
    var daddr := AddrOf(pkt.data[16..20]);
    assert pkt.data[16..20] == Daddr(pkt.Bytes());
    if daddr !in routingTable {
      return Drop;
    }
    var entry := routingTable[daddr];
    if entry.hop == 1 && fromLocal {
      return SendRemote(pkt.data[..pkt.length]);
    }
    var nexthop := entry.path[0];
    var encapPkt := new PacketBuf();
    MinimalMipEncap(pkt, encapPkt, AddrBytes(ownIp), AddrBytes(nexthop));
    return SendRemote(encapPkt.data[..encapPkt.length]);
  }

  method HandleRemoteDataPkt(ownIp: Addr, routingTable: RouteTable, pkt: PacketBuf) returns (action: Action)
    requires pkt.Valid() && Readable(pkt.Bytes())
    ensures action == RemoteAction(ownIp, routingTable, pkt.Bytes())
  {
    ghost var f := pkt.Bytes();
    var daddr := AddrOf(pkt.data[16..20]);
    assert pkt.data[16..20] == Daddr(f);
    if !ClassMatch(ownIp, daddr) {
      return Drop;
    }
    if pkt.data[9] == IPPROTO_MOBILE {
      var decapPkt := new PacketBuf();
      MinimalMipDecap(pkt, decapPkt);
      DecapLength(f);
      var inner := AddrOf(decapPkt.data[16..20]);
      assert decapPkt.data[16..20] == Daddr(decapPkt.Bytes());
      if ClassMatch(ownIp, inner) {
        return SendLocal(decapPkt.data[..decapPkt.length]);
      }
      action := IpRoute(ownIp, routingTable, decapPkt, false);
    } else {
      return SendLocal(pkt.data[..pkt.length]);
    }
  }

  /** Routing packets go to the protocol, everything else is data. */
  method OlsrHandleRemotePkt(ownIp: Addr, routingTable: RouteTable, pkt: PacketBuf) returns (action: Action)
    requires pkt.Valid() && Receivable(pkt.Bytes())
    ensures action == FrameAction(ownIp, routingTable, pkt.Bytes())
  {
    ghost var f := pkt.Bytes();
    var udph := Rem(pkt.data[0], 16) * 4;
    if pkt.data[9] == IPPROTO_UDP {
      var port := Word(pkt.data[udph + 2], pkt.data[udph + 3]);
      if port == OLSR_PROTO_PORT {
        var ms, whole := HandleRoutePkt(pkt);
        return Control(ms, whole);
      }
    }
    action := HandleRemoteDataPkt(ownIp, routingTable, pkt);
  }

  /** A decapsulated packet leaves room to be encapsulated again. */
  lemma {:induction false} DecapLength(f: seq<Byte>)
    requires Readable(f) && Protocol(f) == IPPROTO_MOBILE
    ensures |Decap(f)| == |f| - MIP_LEN && HeaderLen(Decap(f)) <= 48
  {
    var hl := HeaderLen(f);
    var dl := hl - MIP_LEN;
    HeaderBytes(f[..dl], f[dl], Quot(dl, 4), |f| - MIP_LEN, f[dl + 8..dl + 12], f[dl + 4..dl + 8]);
    InnerLength(f[0]);
  }

  /** The first byte of the header, its length field three words less. */
  lemma {:induction false} InnerLength(b: Byte)
    requires Rem(b, 16) * 4 >= MIP_LEN
    ensures Rem(WithLength(b, Quot(Rem(b, 16) * 4 - MIP_LEN, 4)), 16) == Rem(b, 16) - 3
  {
    var k := Rem(b, 16);
    QuotRemUnique(k * 4 - MIP_LEN, 4, k - 3, 0);
    Nibble(k - 3);
  }

  method HandleLocalDataPkt(ownIp: Addr, routingTable: RouteTable, pkt: PacketBuf) returns (action: Action)
    requires pkt.Valid() && HasHeader(pkt.Bytes()) && HeaderLen(pkt.Bytes()) <= 48
    requires pkt.length + MIP_LEN <= pkt.data.Length
    ensures action == LocalAction(ownIp, routingTable, pkt.Bytes())
  {
    var daddr := AddrOf(pkt.data[16..20]);
    assert pkt.data[16..20] == Daddr(pkt.Bytes());
    if ClassMatch(ownIp, daddr) {
      return Drop;
    }
    action := IpRoute(ownIp, routingTable, pkt, true);
  }

  // ----- a network with shortest routes

  /** The routing tables of the routers, and who is in reach of whom. */
  datatype Network = Network(tables: map<Addr, RouteTable>, links: set<(Addr, Addr)>)

  ghost function Neighbours(net: Network, u: Addr): set<Addr> {
    set v <- net.tables | (u, v) in net.links
  }

  ghost predicate LinkWalk(net: Network, w: seq<Addr>) {
    |w| > 0 && forall i | 0 <= i < |w| - 1 :: (w[i], w[i + 1]) in net.links
  }

  /** Links lead from a neighbour of `u` along `w` to `d`. */
  ghost predicate Leads(net: Network, u: Addr, w: seq<Addr>, d: Addr) {
    LinkWalk(net, w) && (u, w[0]) in net.links && Last(w) == d
  }

  /** The entry of `u` for `d` is a route along links. */
  ghost predicate RouteAlong(net: Network, u: Addr, d: Addr) {
    && u in net.tables && d in net.tables[u]
    && net.tables[u][d].hop == |net.tables[u][d].path| && Leads(net, u, net.tables[u][d].path, d)
  }

  /** Router `u` has a route along links to every other router that links lead to, and none of them is too long. */
  ghost predicate Informed(net: Network, u: Addr) {
    && u in net.tables && u < 0x1_0000_0000
    && (forall d {:trigger RouteAlong(net, u, d)} | d in net.tables[u] :: RouteAlong(net, u, d))
    && forall w, d {:trigger Leads(net, u, w, d)} | Leads(net, u, w, d) && d != u ::
         d in net.tables[u] && net.tables[u][d].hop <= |w|
  }

  /** Links are symmetric, addresses tell routers apart, and every router has shortest routes. */
  ghost predicate Converged(net: Network) {
    && (forall u, v | (u, v) in net.links :: u in net.tables && v in net.tables && u != v && (v, u) in net.links)
    && (forall u, v | u in net.tables && v in net.tables && ClassMatch(u, v) :: u == v)
    && forall u {:trigger Informed(net, u)} | u in net.tables :: Informed(net, u)
  }

  lemma {:induction false} Prepend(net: Network, next: Addr, path: seq<Addr>)
    requires LinkWalk(net, path) && (next, path[0]) in net.links
    ensures LinkWalk(net, [next] + path) && Last([next] + path) == Last(path)
  {
    var w := [next] + path;
    forall i | 0 <= i < |w| - 1 ensures (w[i], w[i + 1]) in net.links {
      if i > 0 { assert w[i] == path[i - 1] && w[i + 1] == path[i]; }
    }
  }

  /** Forwarding to the first address of a route gets one hop closer. */
  lemma {:induction false} NextHopCloser(net: Network, u: Addr, d: Addr)
    requires Converged(net) && u in net.tables && d in net.tables[u] && d != u
    ensures var r := net.tables[u][d];
            && |r.path| == r.hop > 0 && (u, r.path[0]) in net.links && r.path[0] in net.tables && d in net.tables
            && (r.hop == 1 <==> r.path[0] == d)
            && (r.hop > 1 ==> var t := net.tables[r.path[0]]; d in t && t[d].hop == r.hop - 1)
  {
    assert Informed(net, u) && RouteAlong(net, u, d);
    var r := net.tables[u][d];
    var next := r.path[0];
    assert Leads(net, u, [next], next);
    if r.hop > 1 {
      assert (r.path[r.hop - 2], r.path[r.hop - 1]) in net.links;
      NextTable(net, u, next, d);
    }
  }

  /** The next hop's own route is exactly one hop shorter. */
  lemma {:induction false} NextTable(net: Network, u: Addr, next: Addr, d: Addr)
    requires Converged(net) && RouteAlong(net, u, d) && d != u
    requires net.tables[u][d].hop > 1 && net.tables[u][d].path[0] == next != d
    ensures next in net.tables && d in net.tables[next] && net.tables[next][d].hop == net.tables[u][d].hop - 1
  {
    var path := net.tables[u][d].path;
    assert (path[0], path[1]) in net.links;
    assert Informed(net, u) && Informed(net, next);
    assert Leads(net, next, path[1..], d);
    assert RouteAlong(net, next, d);
    var rest := net.tables[next][d].path;
    Prepend(net, next, rest);
    assert Leads(net, u, [next] + rest, d);
  }

  // ----- the journey of a packet

  /** The routers in reach of `u` that do not drop the frame it sends. */
  ghost function Takers(net: Network, u: Addr, f: seq<Byte>): set<Addr>
    requires Receivable(f)
  {
    set v <- Neighbours(net, u) | FrameAction(v, net.tables[v], f) != Drop
  }

  ghost predicate TakenByNow(net: Network, u: Addr, f: seq<Byte>, v: Addr, a: Action, k: int) {
    Receivable(f) && Takers(net, u, f) == {v} && v in net.tables && a == FrameAction(v, net.tables[v], f)
  }

  /** Exactly one router, `v`, takes up the frame, and this is what it does with it. */
  ghost predicate TakenBy(net: Network, u: Addr, f: seq<Byte>, v: Addr, a: Action) {
    forall k {:trigger TakenByNow(net, u, f, v, a, k)} :: TakenByNow(net, u, f, v, a, k)
  }

  /** The frame `f`, sent by `u`, comes out at `d` as the packet `q` after exactly `k` transmissions,
      and each transmission is taken up by exactly one router. */
  ghost predicate Travels(net: Network, u: Addr, f: seq<Byte>, d: Addr, q: seq<Byte>, k: nat)
    decreases k
  {
    exists v, a {:trigger TakenBy(net, u, f, v, a)} ::
      && TakenBy(net, u, f, v, a)
      && ((a == SendLocal(q) && v == d && k == 1) || (a.SendRemote? && k > 1 && Travels(net, v, a.frame, d, q, k - 1)))
  }

  /** Only the router a frame is addressed to takes it. */
  lemma {:induction false} OnlyAddressee(net: Network, u: Addr, v: Addr, f: seq<Byte>)
    requires Converged(net) && (u, v) in net.links && Receivable(f) && !ForRouting(f) && AddrOf(Daddr(f)) == v
    requires RemoteAction(v, net.tables[v], f) != Drop
    ensures TakenBy(net, u, f, v, RemoteAction(v, net.tables[v], f))
  {
  }

  /** The router a forwarding header names decapsulates, and keeps the packet or sends it on. */
  lemma {:induction false} Relayed(net: Network, v: Addr, f: seq<Byte>, p: seq<Byte>, d: Addr)
    requires Converged(net) && v in net.tables && d in net.tables
    requires Readable(f) && AddrOf(Daddr(f)) == v && Protocol(f) == IPPROTO_MOBILE && Decap(f) == p
    requires HasHeader(p) && AddrOf(Daddr(p)) == d
    ensures v == d ==> RemoteAction(v, net.tables[v], f) == SendLocal(p)
    ensures var t := net.tables[v]; v != d && d in t ==>
              RemoteAction(v, t, f) == SendRemote(Encap(p, AddrBytes(v), AddrBytes(t[d].path[0])))
  {
  }

  lemma {:induction false} EncapReadable(p: seq<Byte>, u: Addr, v: Addr)
    requires ValidPacket(p) && HeaderLen(p) <= 48 && u < 0x1_0000_0000 && v < 0x1_0000_0000
    ensures var f := Encap(p, AddrBytes(u), AddrBytes(v));
            Receivable(f) && AddrOf(Daddr(f)) == v && Protocol(f) == IPPROTO_MOBILE && Decap(f) == p
  {
    EncapHeader(p, AddrBytes(u), AddrBytes(v));
    RoundTrip(p, AddrBytes(u), AddrBytes(v));
    AddrBytesRoundTrip(v);
  }

  /** The last transmission. */
  lemma {:induction false} Arrives(net: Network, u: Addr, f: seq<Byte>, d: Addr, q: seq<Byte>)
    requires TakenBy(net, u, f, d, SendLocal(q))
    ensures Travels(net, u, f, d, q, 1)
  {
  }

  /** One more transmission in front. */
  lemma {:induction false} GoesOn(net: Network, u: Addr, f: seq<Byte>, v: Addr, next: seq<Byte>, d: Addr, q: seq<Byte>, k: nat)
    requires TakenBy(net, u, f, v, SendRemote(next)) && k > 0 && Travels(net, v, next, d, q, k)
    ensures Travels(net, u, f, d, q, k + 1)
  {
  }

  ghost predicate WrapsNow(f: seq<Byte>, p: seq<Byte>, u: Addr, v: Addr, d: Addr, k: int) {
    ValidPacket(p) && HeaderLen(p) <= 48 && AddrOf(Daddr(p)) == d && f == Encap(p, AddrBytes(u), AddrBytes(v))
  }

  /** The frame is a packet to `d`, encapsulated by `u` for `v`. */
  ghost predicate Wraps(f: seq<Byte>, p: seq<Byte>, u: Addr, v: Addr, d: Addr) {
    forall k {:trigger WrapsNow(f, p, u, v, d, k)} :: WrapsNow(f, p, u, v, d, k)
  }

  ghost predicate ConvergedNow(net: Network, k: int) { Converged(net) }

  ghost predicate AllConverged(net: Network) { forall k {:trigger ConvergedNow(net, k)} :: ConvergedNow(net, k) }

  /** What the next hop does with it. */
  lemma {:induction false} NextTakes(net: Network, u: Addr, v: Addr, f: seq<Byte>, p: seq<Byte>, d: Addr) returns (next: seq<Byte>)
    requires Converged(net) && (u, v) in net.links && d in net.tables && Wraps(f, p, u, v, d)
    requires v != d ==> v in net.tables && d in net.tables[v]
    ensures v == d ==> TakenBy(net, u, f, d, SendLocal(p))
    ensures v != d ==> TakenBy(net, u, f, v, SendRemote(next)) && Wraps(next, p, v, net.tables[v][d].path[0], d)
  {
    assert WrapsNow(f, p, u, v, d, 0);
    next := if v == d then p else Encap(p, AddrBytes(v), AddrBytes(net.tables[v][d].path[0]));
    assert Informed(net, u) && Informed(net, v);
    EncapReadable(p, u, v);
    Relayed(net, v, f, p, d);
    OnlyAddressee(net, u, v, f);
  }

  lemma {:induction false} FrameStep(net: Network, u: Addr, f: seq<Byte>, p: seq<Byte>, d: Addr) returns (v: Addr, next: seq<Byte>)
    requires AllConverged(net) && u in net.tables && d in net.tables[u] && d != u
    requires Wraps(f, p, u, net.tables[u][d].path[0], d)
    ensures net.tables[u][d].hop > 0
    ensures net.tables[u][d].hop == 1 ==> TakenBy(net, u, f, d, SendLocal(p))
    ensures net.tables[u][d].hop > 1 ==>
              && v in net.tables && d in net.tables[v] && d != v && net.tables[v][d].hop == net.tables[u][d].hop - 1
              && Wraps(next, p, v, net.tables[v][d].path[0], d) && TakenBy(net, u, f, v, SendRemote(next))
  {
    assert ConvergedNow(net, 0);
    NextHopCloser(net, u, d);
    v := net.tables[u][d].path[0];
    next := NextTakes(net, u, v, f, p, d);
  }

  lemma {:induction false} FrameTravels(net: Network, u: Addr, f: seq<Byte>, p: seq<Byte>, d: Addr)
    requires AllConverged(net) && u in net.tables && d in net.tables[u] && d != u
    requires Wraps(f, p, u, net.tables[u][d].path[0], d)
    ensures Travels(net, u, f, d, p, net.tables[u][d].hop)
    decreases net.tables[u][d].hop
  {
    var v, next := FrameStep(net, u, f, p, d);
    if net.tables[u][d].hop > 1 {
      FrameTravels(net, v, next, p, d);
      GoesOn(net, u, f, v, next, d, p, net.tables[u][d].hop - 1);
    } else {
      Arrives(net, u, f, d, p);
    }
  }

  /** An encapsulated packet reaches its destination unchanged after as many transmissions as the sender's hop count. */
  lemma {:induction false} Forwarded(net: Network, u: Addr, p: seq<Byte>, d: Addr)
    requires Converged(net) && u in net.tables && d in net.tables[u] && d != u
    requires ValidPacket(p) && HeaderLen(p) <= 48 && AddrOf(Daddr(p)) == d
    ensures Travels(net, u, Encap(p, AddrBytes(u), AddrBytes(net.tables[u][d].path[0])), d, p, net.tables[u][d].hop)
  {
    FrameTravels(net, u, Encap(p, AddrBytes(u), AddrBytes(net.tables[u][d].path[0])), p, d);
  }

  /** A packet that its receiver takes neither for an encapsulated one nor for a routing packet. */
  predicate PlainData(p: seq<Byte>)
    requires HasHeader(p)
  {
    && Protocol(p) != IPPROTO_MOBILE
    && (Protocol(p) == IPPROTO_UDP ==> |p| >= HeaderLen(p) + UDP_LEN) && !ForRouting(p)
  }

  /** What a node sends for an application is delivered to any node that links lead to, byte for byte, after exactly
      `hop_count` transmissions, and no walk along links is shorter. */
  lemma {:induction false} Delivered(net: Network, u: Addr, p: seq<Byte>, d: Addr, w: seq<Addr>)
    requires Converged(net) && u in net.tables && Leads(net, u, w, d) && d != u
    requires ValidPacket(p) && HeaderLen(p) <= 48 && AddrOf(Daddr(p)) == d
    requires (u, d) in net.links ==> PlainData(p)
    ensures d in net.tables[u] && net.tables[u][d].hop <= |w|
    ensures LocalAction(u, net.tables[u], p).SendRemote?
    ensures Travels(net, u, LocalAction(u, net.tables[u], p).frame, d, p, net.tables[u][d].hop)
  {
    assert Informed(net, u);
    NextHopCloser(net, u, d);
    if net.tables[u][d].hop == 1 {
      OnlyAddressee(net, u, d, p);
      assert RemoteAction(d, net.tables[d], p) == SendLocal(p);
      Arrives(net, u, p, d, p);
    } else {
      Forwarded(net, u, p, d);
    }
  }

  /** To a neighbour a packet goes as it is, and then it is delivered exactly if it passes neither for an encapsulated one nor
      for a routing packet. */
  lemma {:induction false} OneHopExactly(net: Network, u: Addr, p: seq<Byte>, d: Addr)
    requires Converged(net) && (u, d) in net.links && u in net.tables
    requires ValidPacket(p) && HeaderLen(p) <= 48 && AddrOf(Daddr(p)) == d
    requires Protocol(p) == IPPROTO_UDP ==> |p| >= HeaderLen(p) + UDP_LEN
    ensures LocalAction(u, net.tables[u], p) == SendRemote(p)
    ensures Travels(net, u, p, d, p, 1) <==> PlainData(p)
  {
    assert Leads(net, u, [d], d) && Informed(net, u);
    NextHopCloser(net, u, d);
    if PlainData(p) {
      Delivered(net, u, p, d, [d]);
    } else {
      forall a | TakenBy(net, u, p, d, a) ensures a != SendLocal(p) {
        assert TakenByNow(net, u, p, d, a, 0);
        if Protocol(p) == IPPROTO_MOBILE { DecapLength(p); }
      }
    }
  }

  // ----- which packets are dropped

  /** Links lead from `u` to `d`. */
  ghost predicate Reachable(net: Network, u: Addr, d: Addr) { exists w {:trigger Leads(net, u, w, d)} :: Leads(net, u, w, d) }

  lemma {:induction false} LeadsToRouter(net: Network, u: Addr, w: seq<Addr>, d: Addr)
    requires Converged(net) && Leads(net, u, w, d)
    ensures d in net.tables
  {
    if |w| > 1 { assert (w[|w| - 2], w[|w| - 1]) in net.links; }
  }

  /** A router has an entry for another router exactly if links lead there. */
  lemma {:induction false} HasRoute(net: Network, u: Addr, d: Addr)
    requires Converged(net) && u in net.tables && d != u
    ensures d in net.tables[u] <==> Reachable(net, u, d)
    ensures d in net.tables[u] ==> d in net.tables && !ClassMatch(u, d)
  {
    assert Informed(net, u);
    if d in net.tables[u] {
      assert RouteAlong(net, u, d);
      LeadsToRouter(net, u, net.tables[u][d].path, d);
    }
  }

  /** What an application sends leaves the node exactly if it is for another node that links lead to; otherwise it is dropped. */
  lemma {:induction false} SentExactly(net: Network, u: Addr, p: seq<Byte>)
    requires Converged(net) && u in net.tables && HasHeader(p)
    ensures var d := AddrOf(Daddr(p));
            LocalAction(u, net.tables[u], p).SendRemote? <==> d != u && Reachable(net, u, d)
    ensures var d := AddrOf(Daddr(p));
            LocalAction(u, net.tables[u], p) == Drop <==> d == u || !Reachable(net, u, d)
  {
    var d := AddrOf(Daddr(p));
    if d != u { HasRoute(net, u, d); }
  }

  /** Where a data packet from the radio is for. */
  ghost function Target(f: seq<Byte>): Addr
    requires Readable(f)
  {
    AddrOf(Daddr(if Protocol(f) == IPPROTO_MOBILE then Decap(f) else f))
  }

  /** A data frame comes out for the application exactly if it is addressed to this node, and what is in it is too if it is
      encapsulated; then the inner packet comes out. It is dropped exactly if it is addressed to another node, or what is in it
      is for a node of another network that no links lead to. Otherwise the inner packet is encapsulated for the next hop. */
  lemma {:induction false} ReceivedExactly(net: Network, v: Addr, f: seq<Byte>)
    requires Converged(net) && v in net.tables && Receivable(f) && !ForRouting(f)
    ensures var a, inner := FrameAction(v, net.tables[v], f), if Protocol(f) == IPPROTO_MOBILE then Decap(f) else f;
            forall q :: a == SendLocal(q) <==> q == inner && ClassMatch(v, AddrOf(Daddr(f))) && ClassMatch(v, Target(f))
    ensures var a := FrameAction(v, net.tables[v], f);
            a == Drop <==> !ClassMatch(v, AddrOf(Daddr(f))) || (!ClassMatch(v, Target(f)) && !Reachable(net, v, Target(f)))
    ensures var a := FrameAction(v, net.tables[v], f);
            a.SendRemote? ==> Protocol(f) == IPPROTO_MOBILE && Target(f) in net.tables[v]
                              && a.frame == Encap(Decap(f), AddrBytes(v), AddrBytes(net.tables[v][Target(f)].path[0]))
  {
    if Target(f) != v { HasRoute(net, v, Target(f)); }
  }

  /** In any network, converged or not: no address has more than four bytes. */
  ghost predicate Addressed(net: Network) {
    forall u <- net.tables :: u < 0x1_0000_0000 && forall d <- net.tables[u] :: net.tables[u][d].path[0] < 0x1_0000_0000
  }

  lemma {:induction false} TakenOn(net: Network, u: Addr, v: Addr, f: seq<Byte>, p: seq<Byte>, d: Addr, x: Addr, a: Action)
    returns (next: Addr)
    requires Addressed(net) && u < 0x1_0000_0000 && v < 0x1_0000_0000 && Wraps(f, p, u, v, d) && TakenBy(net, u, f, x, a)
    ensures x < 0x1_0000_0000 && next < 0x1_0000_0000
    ensures a.SendLocal? ==> a.packet == p && ClassMatch(x, d)
    ensures a.SendRemote? ==> Wraps(a.frame, p, x, next, d)
  {
    assert TakenByNow(net, u, f, x, a, 0) && WrapsNow(f, p, u, v, d, 0);
    EncapReadable(p, u, v);
    next := if d in net.tables[x] then net.tables[x][d].path[0] else 0;
  }

  /** Whatever the tables say, an encapsulated packet that comes out comes out unchanged, at a node that it is addressed to. */
  lemma {:induction false} NeverAstray(net: Network, u: Addr, v: Addr, f: seq<Byte>, p: seq<Byte>, d: Addr, out: Addr, q: seq<Byte>, k: nat)
    requires Addressed(net) && u < 0x1_0000_0000 && v < 0x1_0000_0000 && Wraps(f, p, u, v, d) && Travels(net, u, f, out, q, k)
    ensures q == p && ClassMatch(out, d)
    decreases k
  {
    var x, a := FirstTaker(net, u, f, out, q, k);
    var next := TakenOn(net, u, v, f, p, d, x, a);
    if a.SendRemote? {
      NeverAstray(net, x, next, a.frame, p, d, out, q, k - 1);
    }
  }

  lemma {:induction false} FirstTaker(net: Network, u: Addr, f: seq<Byte>, d: Addr, q: seq<Byte>, k: nat) returns (v: Addr, a: Action)
    requires Travels(net, u, f, d, q, k)
    ensures TakenBy(net, u, f, v, a)
    ensures (a == SendLocal(q) && v == d) || (a.SendRemote? && k > 1 && Travels(net, v, a.frame, d, q, k - 1))
  {
    v, a :| TakenBy(net, u, f, v, a)
      && ((a == SendLocal(q) && v == d && k == 1) || (a.SendRemote? && k > 1 && Travels(net, v, a.frame, d, q, k - 1)));
  }

  // ----- routing packets

  lemma {:induction false} AtOffset(f: seq<Byte>)
    requires |f| >= IPUDP_HDRLEN + PKT_HDR_LEN && f[0] == 0x45 && f[9] == 17 && Word(f[22], f[23]) == 698
    requires Splittable(f[IPUDP_HDRLEN + PKT_HDR_LEN..])
    ensures Receivable(f) && ForRouting(f)
  {
    QuotRemUnique(0x45, 16, 4, 5);
  }

  /** Every packet that a node's queue becomes is taken for a routing packet by every node that receives it, and split into
      the messages of the queue. */
  lemma {:induction false} ControlArrives(own: Addr, table: RouteTable, src: seq<Byte>, msgSeq: nat, ms: seq<seq<Byte>>, tx: seq<Message>)
    requires |src| == 4 && msgSeq < 0x1_0000 && Queues(ms, tx) && tx != [] && Bytes(tx) <= OLSR_TX_MSGBUF_SIZE
    ensures var f := RoutePacket(src, msgSeq, Pack(ms)); Receivable(f) && FrameAction(own, table, f) == Control(ms, true)
  {
    QueueBytes(ms, tx);
    PacketMeans(src, msgSeq, ms, tx);
    AllSized(ms, tx);
    SplitPack(ms);
    PacketFields(src, msgSeq, Pack(ms));
    AtOffset(RoutePacket(src, msgSeq, Pack(ms)));
  }

  lemma {:induction false} AllSized(ms: seq<seq<Byte>>, tx: seq<Message>)
    requires Queues(ms, tx)
    ensures forall m <- ms :: Sized(m)
  {
    forall m <- ms ensures Sized(m) {
      var i :| 0 <= i < |ms| && ms[i] == m;
      assert Means(ms[i], tx[i]);
    }
  }
}
