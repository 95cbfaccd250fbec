module OlsrGraph {
  import opened AddrTree

  /** Advertised neighbours of each known originator; the flag tells a temporary copy. */
  type Topology = map<Addr, map<Addr, bool>>

  datatype Route = Route(hop: nat, path: seq<Addr>)

  type Table = map<Addr, Route>

  /** One step of the search: from a known originator to a node it advertises, never through the own address. */
  ghost predicate Edge(own: Addr, topo: Topology, u: Addr, v: Addr) {
    u != own && v != own && u in topo && v in topo[u]
  }

  ghost predicate Walk(own: Addr, n1: set<Addr>, topo: Topology, w: seq<Addr>) {
    && |w| > 0 && w[0] in n1
    && forall i | 0 <= i < |w| - 1 :: Edge(own, topo, w[i], w[i + 1])
  }

  function Last(w: seq<Addr>): Addr
    requires |w| > 0
  {
    w[|w| - 1]
  }

  /** The entry of `d` holds a walk to `d`, and the proper prefix of that walk is an entry too. */
  ghost predicate EntryOk(own: Addr, n1: set<Addr>, topo: Topology, t: Table, d: Addr) {
    && d in t && t[d].hop == |t[d].path| && Walk(own, n1, topo, t[d].path) && Last(t[d].path) == d
    && (t[d].hop > 1 ==>
          var p := t[d].path[..t[d].hop - 1]; Last(p) in t && t[Last(p)] == Route(t[d].hop - 1, p))
  }

  ghost predicate Sound(own: Addr, n1: set<Addr>, topo: Topology, t: Table) {
    forall d {:trigger EntryOk(own, n1, topo, t, d)} | d in t :: EntryOk(own, n1, topo, t, d)
  }

  /** The table holds exactly the reachable destinations, each with a shortest walk. */
  ghost predicate Shortest(own: Addr, n1: set<Addr>, topo: Topology, t: Table) {
    && Sound(own, n1, topo, t)
    && forall w | Walk(own, n1, topo, w) :: Last(w) in t && t[Last(w)].hop <= |w|
  }

  /** `d` has been expanded. */
  ghost predicate Done(own: Addr, topo: Topology, t: Table, d: Addr) {
    d in t && forall v | Edge(own, topo, d, v) :: v in t && t[v].hop <= t[d].hop + 1
  }

  lemma {:induction false} AllReached(own: Addr, n1: set<Addr>, topo: Topology, t: Table, w: seq<Addr>)
    requires forall d <- t :: Done(own, topo, t, d)
    requires forall n <- n1 :: n in t && t[n].hop <= 1
    requires Walk(own, n1, topo, w)
    ensures Last(w) in t && t[Last(w)].hop <= |w|
  {
    if |w| > 1 {
      var p := w[..|w| - 1];
      AllReached(own, n1, topo, t, p);
      assert Edge(own, topo, w[|w| - 2], w[|w| - 1]);
      assert Done(own, topo, t, Last(p));
    }
  }

  /** The entry for the first `k` hops of a route. */
  lemma {:induction false} PrefixEntry(own: Addr, n1: set<Addr>, topo: Topology, t: Table, d: Addr, k: nat)
    requires Sound(own, n1, topo, t) && d in t && 0 < k <= |t[d].path|
    ensures t[d].path[k - 1] in t && t[t[d].path[k - 1]] == Route(k, t[d].path[..k])
    decreases |t[d].path|
  {
    var r := t[d];
    assert EntryOk(own, n1, topo, t, d);
    if k == r.hop {
      assert r.path[..k] == r.path;
    } else {
      var p := r.path[..r.hop - 1];
      PrefixEntry(own, n1, topo, t, Last(p), k);
      assert p[..k] == r.path[..k];
    }
  }

  /** Routes do not visit a node twice. */
  lemma {:induction false} SimplePath(own: Addr, n1: set<Addr>, topo: Topology, t: Table, d: Addr)
    requires Sound(own, n1, topo, t) && d in t
    ensures Distinct(t[d].path)
  {
    assert EntryOk(own, n1, topo, t, d);
    forall i, j | 0 <= i < j < |t[d].path| ensures t[d].path[i] != t[d].path[j] {
      PrefixEntry(own, n1, topo, t, d, i + 1);
      PrefixEntry(own, n1, topo, t, d, j + 1);
    }
  }

  // ----- symmetrising the topology database

  /** `u` gets a copy of originator `v`'s advertisement of it. */
  ghost predicate Copied(own: Addr, topo: Topology, u: Addr, v: Addr) {
    u != own && u in topo && v in topo && u in topo[v] && v !in topo[u]
  }

  ghost function Copies(own: Addr, topo: Topology, u: Addr): set<Addr> {
    set v <- topo | Copied(own, topo, u, v)
  }

  /** The database while copies are made: `made(v, u)` tells which originators' advertisements have been copied where. */
  ghost predicate Extended(own: Addr, topo: Topology, now: Topology, outer: Option<Addr>, inner: Option<Addr>) {
    && now.Keys == topo.Keys
    && forall u <- topo ::
         && (forall v <- topo[u] :: v in now[u] && now[u][v] == topo[u][v])
         && (forall v | v !in topo[u] :: v in now[u] <==> Copied(own, topo, u, v) && Made(outer, inner, v, u))
         && (forall v <- now[u] :: v !in topo[u] ==> now[u][v])
  }

  /** Originator `v`'s advertisement of `u` has been visited. */
  predicate Made(outer: Option<Addr>, inner: Option<Addr>, v: Addr, u: Addr) {
    Seen(outer, v) || (outer == Some(v) && Seen(inner, u))
  }

  function WithCopy(topo: Topology, a: Addr, t: Addr): Topology
    requires a in topo
  {
    var an: map<Addr, bool> := topo[a];
    topo[a := an[t := true]]
  }

  /** Standing at the advertisement of `a` by `t`, one copy is made unless there is one already. */
  lemma {:induction false} CopyStep(own: Addr, topo: Topology, now: Topology, now': Topology, t: Addr, a: Addr)
    requires Extended(own, topo, now, Some(t), Some(a)) && t in topo && a in now[t]
    requires now' == if a != own && a in now && t !in now[a] then WithCopy(now, a, t) else now
    ensures Extended(own, topo, now', Some(t), Next(now[t].Keys, a))
    ensures now'[t].Keys == now[t].Keys
  {
    var next := Next(now[t].Keys, a);
    Step(now[t].Keys, a);
    forall u <- topo, v | v !in topo[u] ensures v in now'[u] <==> Copied(own, topo, u, v) && Made(Some(t), next, v, u) {
      CopyOne(own, topo, now, now', t, a, u, v);
    }
  }

  lemma {:induction false} CopyOne(own: Addr, topo: Topology, now: Topology, now': Topology, t: Addr, a: Addr, u: Addr, v: Addr)
    requires Extended(own, topo, now, Some(t), Some(a)) && t in topo && a in now[t] && u in topo && v !in topo[u]
    requires now' == if a != own && a in now && t !in now[a] then WithCopy(now, a, t) else now
    ensures v in now'[u] <==> Copied(own, topo, u, v) && Made(Some(t), Next(now[t].Keys, a), v, u)
  {
    assert v in now[u] <==> Copied(own, topo, u, v) && Made(Some(t), Some(a), v, u);
    if v == t {
      Step(now[t].Keys, a);
      assert u in topo[t] ==> u in now[t];
    } else {
      assert v in now'[u] <==> v in now[u];
    }
  }

  lemma {:induction false} NextOriginator(own: Addr, topo: Topology, now: Topology, t: Addr)
    requires Extended(own, topo, now, Some(t), None) && t in topo
    ensures Extended(own, topo, now, Next(topo.Keys, t), Some(0))
  {
    Step(topo.Keys, t);
  }

  /** No copy in the database: how it is between two calculations. */
  ghost predicate Plain(topo: Topology) {
    forall u <- topo :: forall v <- topo[u] :: !topo[u][v]
  }

  /** The relation the search runs on: an advertisement in either direction between known originators. */
  ghost predicate SymEdge(own: Addr, topo: Topology, u: Addr, v: Addr) {
    u != own && v != own && u in topo && (v in topo[u] || (v in topo && u in topo[v]))
  }

  lemma {:induction false} ExtendedEdges(own: Addr, topo: Topology, now: Topology, u: Addr, v: Addr)
    requires Extended(own, topo, now, None, None)
    ensures Edge(own, now, u, v) <==> SymEdge(own, topo, u, v)
  {
  }

  lemma {:induction false} ExtendedWalks(own: Addr, n1: set<Addr>, topo: Topology, now: Topology, w: seq<Addr>)
    requires Extended(own, topo, now, None, None)
    ensures Walk(own, n1, now, w) <==> SymWalk(own, n1, topo, w)
  {
    forall i | 0 <= i < |w| - 1 ensures Edge(own, now, w[i], w[i + 1]) <==> SymEdge(own, topo, w[i], w[i + 1]) {
      ExtendedEdges(own, topo, now, w[i], w[i + 1]);
    }
  }

  ghost predicate SymWalk(own: Addr, n1: set<Addr>, topo: Topology, w: seq<Addr>) {
    && |w| > 0 && w[0] in n1
    && forall i | 0 <= i < |w| - 1 :: SymEdge(own, topo, w[i], w[i + 1])
  }

  ghost predicate Distinct(w: seq<Addr>) { forall i, j | 0 <= i < j < |w| :: w[i] != w[j] }

  /** A sequence without repetition is no longer than a set that holds its elements. */
  lemma {:induction false} SimpleLength(w: seq<Addr>, s: set<Addr>)
    requires Distinct(w)
    requires forall a <- w :: a in s
    ensures |w| <= |s|
  {
    if |w| > 0 {
      var k := |w| - 1;
      forall a <- w[..k] ensures a in s - {w[k]} {
        var i :| 0 <= i < k && w[..k][i] == a;
      }
      SimpleLength(w[..k], s - {w[k]});
    }
  }

  // ----- what a routing table promises, in terms of the advertisements alone

  /** A destination's entry: a walk of `hop` steps to it, extending the entry of the node before. */
  ghost predicate RouteOk(own: Addr, n1: set<Addr>, topo: Topology, t: Table, d: Addr) {
    && d in t && t[d].hop == |t[d].path| && SymWalk(own, n1, topo, t[d].path) && Last(t[d].path) == d
    && (t[d].hop > 1 ==>
          var p := t[d].path[..t[d].hop - 1]; Last(p) in t && t[Last(p)] == Route(t[d].hop - 1, p))
  }

  /** Exactly the reachable destinations, each with a route that no walk undercuts. */
  ghost predicate Correct(own: Addr, n1: set<Addr>, topo: Topology, t: Table) {
    && (forall d {:trigger RouteOk(own, n1, topo, t, d)} | d in t :: RouteOk(own, n1, topo, t, d))
    && forall w | SymWalk(own, n1, topo, w) :: Last(w) in t && t[Last(w)].hop <= |w|
  }

  lemma {:induction false} CorrectFromExtended(own: Addr, n1: set<Addr>, topo: Topology, now: Topology, t: Table)
    requires Extended(own, topo, now, None, None) && Shortest(own, n1, now, t)
    ensures Correct(own, n1, topo, t)
  {
    forall d | d in t ensures RouteOk(own, n1, topo, t, d) {
      assert EntryOk(own, n1, now, t, d);
      ExtendedWalks(own, n1, topo, now, t[d].path);
    }
    forall w | SymWalk(own, n1, topo, w) ensures Last(w) in t && t[Last(w)].hop <= |w| {
      ExtendedWalks(own, n1, topo, now, w);
    }
  }

  /** What the comparison of two tables relies on: nonempty routes without repetition that end at their destination. */
  ghost predicate Tidy(t: Table) {
    forall d <- t :: TidyRoute(t[d], d)
  }

  ghost predicate TidyRoute(r: Route, d: Addr) {
    && r.hop == |r.path| && 0 < |r.path| && Last(r.path) == d
    && Distinct(r.path)
  }

  lemma {:induction false} TidyFromSound(own: Addr, n1: set<Addr>, topo: Topology, t: Table)
    requires Sound(own, n1, topo, t)
    ensures Tidy(t)
  {
    forall d <- t ensures TidyRoute(t[d], d) {
      assert EntryOk(own, n1, topo, t, d);
      SimplePath(own, n1, topo, t, d);
    }
  }
}
