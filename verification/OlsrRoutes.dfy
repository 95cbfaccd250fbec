module OlsrRoutes {
  import opened AddrTree
  import opened OlsrGraph
  import opened OlsrSetting
  import opened OlsrConvergence
  import opened NetUtil
  import opened OlsrProto
  import opened OlsrSpf
  import opened OlsrTc
  import opened OlsrDelivery

  // ----- what advertising relay links is worth

  /** The topology database of `u` holds links only, and of every other node it is connected to at least the links to that
      node's selectors, which is all that a TC carries. */
  ghost predicate Advertised(g: Setting, u: Addr, topo: Topology) {
    && (forall m <- topo :: topo[m].Keys <= Near(g, m))
    && forall m {:trigger Connected(g, u, m)} | m != u && Connected(g, u, m) :: Selectors(g, m) <= Held(topo, m).Keys
  }

  lemma {:induction false} Extend(g: Setting, u: Addr, w: seq<Addr>)
    requires LinkPath(g, w) && w[0] in Near(g, u)
    ensures Connected(g, u, Last(w))
  {
    var w' := [u] + w;
    forall i | 0 <= i < |w'| - 1 ensures w'[i + 1] in Near(g, w'[i]) {
      if i > 0 { assert w'[i] == w[i - 1] && w'[i + 1] == w[i]; }
    }
    assert LinkPath(g, w') && w'[0] == u && Last(w') == Last(w);
  }

  lemma {:induction false} Front(g: Setting, w: seq<Addr>)
    requires LinkPath(g, w) && |w| > 1
    ensures LinkPath(g, w[..|w| - 1])
  {
  }

  lemma {:induction false} Append(g: Setting, w: seq<Addr>, m: Addr)
    requires LinkPath(g, w) && m in Near(g, Last(w))
    ensures LinkPath(g, w + [m])
  {
    var w' := w + [m];
    forall i | 0 <= i < |w'| - 1 ensures w'[i + 1] in Near(g, w'[i]) {
      assert w'[i] == w[i];
    }
  }

  /** One more step of a search walk, from a relay to a node that chose it. */
  lemma {:induction false} StepOn(g: Setting, u: Addr, topo: Topology, v: seq<Addr>, d: Addr)
    requires Advertised(g, u, topo) && SymWalk(u, Near(g, u), topo, v) && Last(v) != u && d != u
    requires Connected(g, u, Last(v)) && d in Selectors(g, Last(v))
    ensures SymWalk(u, Near(g, u), topo, v + [d])
  {
    var v' := v + [d];
    assert d in Held(topo, Last(v)).Keys;
    forall i | 0 <= i < |v'| - 1 ensures SymEdge(u, topo, v'[i], v'[i + 1]) {
      if i < |v| - 1 { assert SymEdge(u, topo, v[i], v[i + 1]); }
    }
  }

  /** Relay links are enough: whatever walk along links leads from a neighbour of `u` to another node, the links that are
      advertised contain one that is no longer. The last but one node of the walk is replaced by a relay of the last. */
  lemma {:induction false} RelayWalk(g: Setting, u: Addr, topo: Topology, w: seq<Addr>) returns (v: seq<Addr>)
    requires AllLearned(g) && Advertised(g, u, topo) && LinkPath(g, w) && w[0] in Near(g, u) && Last(w) != u
    ensures SymWalk(u, Near(g, u), topo, v) && Last(v) == Last(w) && |v| <= |w|
    decreases |w|, 0
  {
    var n, d := |w|, Last(w);
    if d in Near(g, u) {
      v := [d];
      return;
    }
    var front := w[..n - 1];
    var p := Last(front);
    Front(g, w);
    var pp, before := u, front;
    if n > 2 {
      before := front[..n - 2];
      Front(g, front);
      pp := Last(before);
    }
    NearNodes(g, pp, p);
    NearNodes(g, p, d);
    if pp == d {
      v := RelayWalk(g, u, topo, before);
    } else if d in Near(g, pp) {
      Append(g, before, d);
      v := RelayWalk(g, u, topo, before + [d]);
    } else {
      if pp in Near(g, d) { NearNodes(g, d, pp); }
      var m := Bridge(g, d, p, pp);
      v := ViaRelay(g, u, topo, if n > 2 then before else [], pp, m, d);
    }
  }

  lemma {:induction false} ViaRelay(g: Setting, u: Addr, topo: Topology, before: seq<Addr>, pp: Addr, m: Addr, d: Addr) returns (v: seq<Addr>)
    requires AllLearned(g) && Advertised(g, u, topo) && d != u && d !in Near(g, u)
    requires pp in Near(g, m) && m in Near(g, d) && d in Selectors(g, m)
    requires if before == [] then pp == u else LinkPath(g, before) && before[0] in Near(g, u) && Last(before) == pp
    ensures SymWalk(u, Near(g, u), topo, v) && Last(v) == d && |v| <= |before| + 2
    decreases |before| + 1, 1
  {
    NearNodes(g, m, pp);
    NearNodes(g, d, m);
    if before != [] {
      Append(g, before, m);
    }
    var w := before + [m];
    assert m != u;
    var v' := RelayWalk(g, u, topo, w);
    Extend(g, u, w);
    StepOn(g, u, topo, v', d);
    v := v' + [d];
  }

  /** A search walk of `u` goes along links. */
  lemma {:induction false} WalkLinks(g: Setting, u: Addr, topo: Topology, v: seq<Addr>)
    requires AllLearned(g) && Advertised(g, u, topo) && SymWalk(u, Near(g, u), topo, v)
    ensures LinkPath(g, v)
  {
    forall i | 0 <= i < |v| - 1 ensures v[i + 1] in Near(g, v[i]) {
      assert SymEdge(u, topo, v[i], v[i + 1]);
      if v[i + 1] !in topo[v[i]] { NearNodes(g, v[i + 1], v[i]); }
    }
  }

  // ----- from the tables of the nodes to the network that packets travel

  /** The network's links are the pairs of neighbours. */
  ghost predicate Joins(g: Setting, net: Network) {
    forall u: Addr, v: Addr {:trigger (u, v) in net.links} :: (u, v) in net.links <==> v in Near(g, u)
  }

  /** Node `u` has heard the TCs, and its routes are as current as its handlers keep them. */
  ghost predicate RoutesAt(g: Setting, topos: map<Addr, Topology>, net: Network, u: Addr) {
    && u in topos && u in net.tables && u < 0x1_0000_0000
    && Advertised(g, u, topos[u]) && Current(u, Near(g, u), topos[u], net.tables[u])
  }

  /** What is not yet in the table does not matter: originators without selectors are relays to nobody. */
  lemma {:induction false} CorrectEnough(g: Setting, topos: map<Addr, Topology>, net: Network, u: Addr) returns (topo: Topology)
    requires RoutesAt(g, topos, net, u)
    ensures Advertised(g, u, topo) && Correct(u, Near(g, u), topo, net.tables[u])
  {
    var silent: set<Addr> :| CorrectBut(u, Near(g, u), topos[u], net.tables[u], silent);
    topo := topos[u] - silent;
    forall m | m != u && Connected(g, u, m) ensures Selectors(g, m) <= Held(topo, m).Keys {
      assert Selectors(g, m) <= Held(topos[u], m).Keys;
    }
  }

  /** The neighbour tables are converged, every node has its routes, and addresses tell the nodes apart. */
  ghost predicate Routing(g: Setting, topos: map<Addr, Topology>, net: Network) {
    && AllLearned(g) && Joins(g, net) && net.tables.Keys == g.tables.Keys
    && (forall u {:trigger RoutesAt(g, topos, net, u)} | u in net.tables :: RoutesAt(g, topos, net, u))
    && forall u, v | u in net.tables && v in net.tables && ClassMatch(u, v) :: u == v
  }

  lemma {:induction false} PathIsWalk(g: Setting, net: Network, w: seq<Addr>)
    requires Joins(g, net) && |w| > 0
    ensures LinkWalk(net, w) <==> LinkPath(g, w)
  {
    forall i | 0 <= i < |w| - 1 ensures (w[i], w[i + 1]) in net.links <==> w[i + 1] in Near(g, w[i]) {}
  }

  lemma {:induction false} RouteFollowsLinks(g: Setting, topos: map<Addr, Topology>, net: Network, u: Addr, d: Addr)
    requires AllLearned(g) && Joins(g, net) && RoutesAt(g, topos, net, u) && d in net.tables[u]
    ensures RouteAlong(net, u, d)
  {
    var topo := CorrectEnough(g, topos, net, u);
    assert RouteOk(u, Near(g, u), topo, net.tables[u], d);
    WalkLinks(g, u, topo, net.tables[u][d].path);
    PathIsWalk(g, net, net.tables[u][d].path);
  }

  lemma {:induction false} NoWalkShorter(g: Setting, topos: map<Addr, Topology>, net: Network, u: Addr, w: seq<Addr>, d: Addr)
    requires AllLearned(g) && Joins(g, net) && RoutesAt(g, topos, net, u) && Leads(net, u, w, d) && d != u
    ensures d in net.tables[u] && net.tables[u][d].hop <= |w|
  {
    var topo := CorrectEnough(g, topos, net, u);
    PathIsWalk(g, net, w);
    var v := RelayWalk(g, u, topo, w);
  }

  /** Relay links are all that TCs advertise and all that the nodes need to know: what the routing calculation makes of them
      is shortest over all links. */
  lemma {:induction false} RelayLinksSuffice(g: Setting, topos: map<Addr, Topology>, net: Network)
    requires Routing(g, topos, net)
    ensures Converged(net)
  {
    forall u, v | (u, v) in net.links
      ensures u in net.tables && v in net.tables && u != v && (v, u) in net.links
    {
      NearNodes(g, u, v);
    }
    forall u | u in net.tables ensures Informed(net, u) {
      assert RoutesAt(g, topos, net, u);
      forall d | d in net.tables[u] ensures RouteAlong(net, u, d) { RouteFollowsLinks(g, topos, net, u, d); }
      forall w, d | Leads(net, u, w, d) && d != u ensures d in net.tables[u] && net.tables[u][d].hop <= |w| {
        NoWalkShorter(g, topos, net, u, w, d);
      }
    }
  }

  /** Links lead from `u` to `d` in `n` hops. */
  ghost predicate HopsApart(g: Setting, u: Addr, d: Addr, n: nat) {
    exists w :: LinkPath(g, w) && w[0] == u && Last(w) == d && |w| == n + 1
  }

  /** Any two connected nodes can send each other packets, which take as many transmissions as a shortest path has links. */
  lemma {:induction false} DeliveredAnywhere(g: Setting, topos: map<Addr, Topology>, net: Network, u: Addr, p: seq<Byte>, d: Addr)
    requires Routing(g, topos, net) && Connected(g, u, d) && u != d
    requires ValidPacket(p) && HeaderLen(p) <= 48 && AddrOf(Daddr(p)) == d
    requires d in Near(g, u) ==> PlainData(p)
    ensures u in net.tables && d in net.tables[u] && LocalAction(u, net.tables[u], p).SendRemote?
    ensures Travels(net, u, LocalAction(u, net.tables[u], p).frame, d, p, net.tables[u][d].hop)
    ensures HopsApart(g, u, d, net.tables[u][d].hop)
    ensures forall n | HopsApart(g, u, d, n) :: net.tables[u][d].hop <= n
  {
    RelayLinksSuffice(g, topos, net);
    var w :| LinkPath(g, w) && w[0] == u && Last(w) == d;
    FromNeighbour(g, net, u, w, d);
    Delivered(net, u, p, d, w[1..]);
    forall n | HopsApart(g, u, d, n) ensures net.tables[u][d].hop <= n {
      NoFewerHops(g, net, u, d, n);
    }
    RouteIsPath(g, net, u, d);
  }

  lemma {:induction false} NoFewerHops(g: Setting, net: Network, u: Addr, d: Addr, n: nat)
    requires Joins(g, net) && Converged(net) && net.tables.Keys == g.tables.Keys && HopsApart(g, u, d, n) && d != u
    ensures u in net.tables && d in net.tables[u] && net.tables[u][d].hop <= n
  {
    var w :| LinkPath(g, w) && w[0] == u && Last(w) == d && |w| == n + 1;
    FromNeighbour(g, net, u, w, d);
    assert Informed(net, u);
  }

  lemma {:induction false} FromNeighbour(g: Setting, net: Network, u: Addr, w: seq<Addr>, d: Addr)
    requires Joins(g, net) && LinkPath(g, w) && w[0] == u && Last(w) == d && d != u
    ensures u in g.tables && Leads(net, u, w[1..], d)
  {
    assert w[1] in Near(g, w[0]);
    PathIsWalk(g, net, w[1..]);
  }

  lemma {:induction false} RouteIsPath(g: Setting, net: Network, u: Addr, d: Addr)
    requires Joins(g, net) && Converged(net) && u in net.tables && d in net.tables[u]
    ensures HopsApart(g, u, d, net.tables[u][d].hop)
  {
    assert Informed(net, u) && RouteAlong(net, u, d);
    var r := net.tables[u][d].path;
    Prepend(net, u, r);
    PathIsWalk(g, net, [u] + r);
  }

  // ----- how the databases come to hold the relay links

  /** A topology database with the number that each originator sent last. */
  datatype Db = Db(topo: Topology, seqs: map<Addr, nat>)

  /** A TC from a symmetric neighbour, or the expiry of an originator's entry. */
  datatype Arrival = Take(orig: Addr, tc: Tc) | Lapse(orig: Addr)

  ghost predicate DbStep(d: Db, e: Arrival, d': Db) {
    match e
    case Take(orig, tc) => TcTaken(d.topo, d.seqs, d'.topo, d'.seqs, orig, tc)
    case Lapse(orig) => d' == Db(d.topo - {orig}, d.seqs - {orig})
  }

  ghost predicate Steps(ds: seq<Db>, es: seq<Arrival>, i: nat) { i < |es| && i + 1 < |ds| && DbStep(ds[i], es[i], ds[i + 1]) }

  ghost predicate OnlyLinks(g: Setting, topo: Topology) { forall m <- topo :: topo[m].Keys <= Near(g, m) }

  /** A database that begins with links only and takes in TCs that list links only. */
  ghost predicate DbRun(g: Setting, ds: seq<Db>, es: seq<Arrival>) {
    && |ds| == |es| + 1 && OnlyLinks(g, ds[0].topo) && ds[0].seqs.Keys == ds[0].topo.Keys
    && (forall i: nat {:trigger Steps(ds, es, i)} | i < |es| :: Steps(ds, es, i))
    && forall i | 0 <= i < |es| && es[i].Take? :: Elements(es[i].tc.neigh) <= Near(g, es[i].orig)
  }

  lemma {:induction false} StaysLinks(g: Setting, ds: seq<Db>, es: seq<Arrival>, i: nat)
    requires DbRun(g, ds, es) && i < |ds|
    ensures OnlyLinks(g, ds[i].topo) && ds[i].seqs.Keys == ds[i].topo.Keys
  {
    if i > 0 {
      StaysLinks(g, ds, es, i - 1);
      assert Steps(ds, es, i - 1);
      StepLinks(g, ds[i - 1], es[i - 1], ds[i]);
    }
  }

  lemma {:induction false} StepLinks(g: Setting, d: Db, e: Arrival, d': Db)
    requires DbStep(d, e, d') && OnlyLinks(g, d.topo) && d.seqs.Keys == d.topo.Keys
    requires e.Take? ==> Elements(e.tc.neigh) <= Near(g, e.orig)
    ensures OnlyLinks(g, d'.topo) && d'.seqs.Keys == d'.topo.Keys
  {
    if e.Take? { TakeLinks(g, d, d', e.orig, e.tc); }
  }

  lemma {:induction false} TakeLinks(g: Setting, d: Db, d': Db, orig: Addr, tc: Tc)
    requires TcTaken(d.topo, d.seqs, d'.topo, d'.seqs, orig, tc) && OnlyLinks(g, d.topo) && Elements(tc.neigh) <= Near(g, orig)
    ensures OnlyLinks(g, d'.topo) && (d.seqs.Keys == d.topo.Keys ==> d'.seqs.Keys == d'.topo.Keys)
  {
    if tc.ansn >= HeldSeq(d.seqs, orig, tc.ansn) {
      ReplacedExactly(Held(d.topo, orig).Keys, d'.topo[orig].Keys, Elements(tc.neigh));
    }
  }

  /** From `from` on every TC of `m` lists its selectors, and its entry does not expire. */
  ghost predicate ListsSelectors(g: Setting, es: seq<Arrival>, from: nat, m: Addr) {
    forall i | from <= i < |es| && es[i].orig == m :: es[i].Take? && Elements(es[i].tc.neigh) == Selectors(g, m)
  }

  ghost predicate TakenAt(ds: seq<Db>, es: seq<Arrival>, i: int, m: Addr) {
    0 <= i < |es| && i < |ds| && es[i].Take? && es[i].orig == m && es[i].tc.ansn >= HeldSeq(ds[i].seqs, m, es[i].tc.ansn)
  }

  /** Node `u` has taken at least one TC of each other node since then that was not behind the one before. */
  ghost predicate Informs(g: Setting, ds: seq<Db>, es: seq<Arrival>, from: nat, u: Addr, m: Addr) {
    m != u && Connected(g, u, m) ==>
      ListsSelectors(g, es, from, m) && exists i {:trigger TakenAt(ds, es, i, m)} :: from <= i && TakenAt(ds, es, i, m)
  }

  lemma {:induction false} SelectorsStay(g: Setting, ds: seq<Db>, es: seq<Arrival>, from: nat, i: nat, j: nat, m: Addr)
    requires DbRun(g, ds, es) && ListsSelectors(g, es, from, m) && from <= i && TakenAt(ds, es, i, m) && i < j < |ds|
    ensures Selectors(g, m) <= Held(ds[j].topo, m).Keys
    decreases j
  {
    assert Steps(ds, es, j - 1);
    var e := es[j - 1];
    if i < j - 1 { SelectorsStay(g, ds, es, from, i, j - 1, m); }
    if e.orig == m && e.tc.ansn >= HeldSeq(ds[j - 1].seqs, m, e.tc.ansn) {
      ReplacedExactly(Held(ds[j - 1].topo, m).Keys, ds[j].topo[m].Keys, Elements(e.tc.neigh));
    }
  }

  /** Once every connected node's selectors are fixed and one of its TCs has been taken since, the database holds every relay
      link that matters, for as long as TCs keep the entries alive, and nothing that is not a link. */
  lemma {:induction false} TcsInform(g: Setting, ds: seq<Db>, es: seq<Arrival>, from: nat, u: Addr)
    requires DbRun(g, ds, es) && forall m {:trigger Informs(g, ds, es, from, u, m)} :: Informs(g, ds, es, from, u, m)
    ensures Advertised(g, u, ds[|es|].topo)
  {
    StaysLinks(g, ds, es, |es|);
    forall m | m != u && Connected(g, u, m) ensures Selectors(g, m) <= Held(ds[|es|].topo, m).Keys {
      assert Informs(g, ds, es, from, u, m);
      var i :| from <= i && TakenAt(ds, es, i, m);
      SelectorsStay(g, ds, es, from, i, |es|, m);
    }
  }

  // ----- everything together

  /** What a node's database went through, and since when the selectors have been fixed. */
  datatype TcHistory = TcHistory(ds: seq<Db>, es: seq<Arrival>, from: nat)

  /** Node `u` has its database from TCs, and its routes are as current as its handlers keep them. */
  ghost predicate Routes(g: Setting, hs: map<Addr, TcHistory>, net: Network, u: Addr) {
    && u in hs && u in net.tables && u < 0x1_0000_0000 && DbRun(g, hs[u].ds, hs[u].es)
    && (forall m {:trigger Informs(g, hs[u].ds, hs[u].es, hs[u].from, u, m)} :: Informs(g, hs[u].ds, hs[u].es, hs[u].from, u, m))
    && Current(u, Near(g, u), hs[u].ds[|hs[u].es|].topo, net.tables[u])
  }

  ghost function TopoOf(h: TcHistory): Topology { if |h.ds| == |h.es| + 1 then h.ds[|h.es|].topo else map[] }

  /** From HELLOs to delivery: over fixed links, once the HELLOs have converged and every node has taken a TC of every other
      since, with the routes that its handlers keep, packets are delivered between any two connected nodes in as many
      transmissions as a shortest path has links. */
  lemma {:induction false} NetworkDelivers(adj: Graph, ss: seq<State>, es: seq<Happening>, t: seq<nat>, hold: nat, n: nat,
                         hs: map<Addr, TcHistory>, net: Network, u: Addr, p: seq<Byte>, d: Addr)
    requires History(adj, ss, es) && Rounds(adj, es, t) && Timed(ss, es, t, hold) && hold + 3 <= n < |t|
    requires t[n] < |ss| && net.tables.Keys == adj.Keys
    requires forall a: Addr, b: Addr {:trigger (a, b) in net.links} :: (a, b) in net.links <==> a in adj && b in adj[a]
    requires forall a, b | a in net.tables && b in net.tables && ClassMatch(a, b) :: a == b
    requires forall a {:trigger Routes(SettingOf(ss[t[n]]), hs, net, a)} | a in net.tables :: Routes(SettingOf(ss[t[n]]), hs, net, a)
    requires Connected(SettingOf(ss[t[n]]), u, d) && u != d
    requires ValidPacket(p) && HeaderLen(p) <= 48 && AddrOf(Daddr(p)) == d
    requires (u, d) in net.links ==> PlainData(p)
    ensures u in net.tables && d in net.tables[u] && LocalAction(u, net.tables[u], p).SendRemote?
    ensures Travels(net, u, LocalAction(u, net.tables[u], p).frame, d, p, net.tables[u][d].hop)
    ensures HopsApart(SettingOf(ss[t[n]]), u, d, net.tables[u][d].hop)
    ensures forall k | HopsApart(SettingOf(ss[t[n]]), u, d, k) :: net.tables[u][d].hop <= k
  {
    var g := SettingOf(ss[t[n]]);
    HellosConverge(adj, ss, es, t, hold, n);
    forall a: Addr, b: Addr ensures (a, b) in net.links <==> b in Near(g, a) {
      if a in adj { assert Near(g, a) == adj[a]; }
    }
    var topos := AllInformed(g, hs, net);
    DeliveredAnywhere(g, topos, net, u, p, d);
  }

  lemma {:induction false} AllInformed(g: Setting, hs: map<Addr, TcHistory>, net: Network) returns (topos: map<Addr, Topology>)
    requires AllLearned(g) && Joins(g, net) && net.tables.Keys == g.tables.Keys
    requires forall a, b | a in net.tables && b in net.tables && ClassMatch(a, b) :: a == b
    requires forall a {:trigger Routes(g, hs, net, a)} | a in net.tables :: Routes(g, hs, net, a)
    ensures Routing(g, topos, net)
  {
    topos := map a <- hs :: TopoOf(hs[a]);
    forall a | a in net.tables ensures RoutesAt(g, topos, net, a) {
      assert Routes(g, hs, net, a);
      TcsInform(g, hs[a].ds, hs[a].es, hs[a].from, a);
    }
  }
}
