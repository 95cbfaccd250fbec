module OlsrMpr {
  import opened AddrTree
  import opened OlsrContext
  import opened OlsrSpf
  import opened OlsrNeighbor
  import opened OlsrCover
  import opened Powers

  // ----- the two neighbour sets

  method CalcN1Set(ctx: OlsrContext) returns (n1: set<Addr>)
    ensures n1 == N1(ctx.neighborTree)
  {
    n1 := {};
    var nelem := First(ctx.neighborTree.Keys);
    while nelem.Some?
      invariant nelem.Some? ==> nelem.value in ctx.neighborTree
      invariant n1 == set a <- N1(ctx.neighborTree) | Seen(nelem, a)
      decreases Left(ctx.neighborTree.Keys, nelem)
    {
      var a := nelem.value;
      if Symmetric(ctx.neighborTree[a]) {
        n1 := n1 + {a};
      }
      Step(ctx.neighborTree.Keys, a);
      nelem := Next(ctx.neighborTree.Keys, a);
    }
  }

  /** An iteration standing at neighbour `outer` and its two-hop neighbour `inner` has passed the pair. */
  ghost predicate Passed(outer: Option<Addr>, inner: Option<Addr>, a: Addr, x: Addr) {
    Seen(outer, a) || (outer == Some(a) && Seen(inner, x))
  }

  ghost function BridgesSoFar(nb: Neighbors, outer: Option<Addr>, inner: Option<Addr>, x: Addr): set<Addr> {
    set a <- Bridges(nb, x) | Passed(outer, inner, a, x)
  }

  /** The reachability tree built so far: strict two-hop neighbours with the neighbours that reach them. */
  ghost predicate Building(own: Addr, nb: Neighbors, n2: map<Addr, set<Addr>>, outer: Option<Addr>, inner: Option<Addr>) {
    && (forall x <- n2 :: x != own && x !in N1(nb) && n2[x] == BridgesSoFar(nb, outer, inner, x) != {})
    && forall x, a | a in BridgesSoFar(nb, outer, inner, x) && x != own && x !in N1(nb) :: x in n2
  }

  lemma {:induction false} BuildStep(own: Addr, nb: Neighbors, n2: map<Addr, set<Addr>>, a: Addr, x: Addr)
    requires a in nb && Symmetric(nb[a]) && x in nb[a].n2
    requires Building(own, nb, n2, Some(a), Some(x))
    ensures Building(own, nb, if x == own || x in N1(nb) then n2 else n2[x := (if x in n2 then n2[x] else {}) + {a}],
                     Some(a), Next(nb[a].n2, x))
  {
    Step(nb[a].n2, x);
    var it := Next(nb[a].n2, x);
    forall y ensures BridgesSoFar(nb, Some(a), it, y)
                     == BridgesSoFar(nb, Some(a), Some(x), y) + if y == x then {a} else {} {
      if y in nb[a].n2 {
        assert Seen(it, y) <==> Seen(Some(x), y) || y == x;
      }
    }
  }

  lemma {:induction false} BuildNext(own: Addr, nb: Neighbors, n2: map<Addr, set<Addr>>, a: Addr, inner: Option<Addr>)
    requires a in nb && Building(own, nb, n2, Some(a), inner)
    requires inner.None? || !Symmetric(nb[a])
    ensures Building(own, nb, n2, Next(nb.Keys, a), Some(0))
  {
    Step(nb.Keys, a);
    forall y ensures BridgesSoFar(nb, Next(nb.Keys, a), Some(0), y) == BridgesSoFar(nb, Some(a), inner, y) {
      forall b | b in Bridges(nb, y)
        ensures Passed(Next(nb.Keys, a), Some(0), b, y) <==> Passed(Some(a), inner, b, y)
      {
        assert b in nb.Keys;
      }
    }
  }

  method CalcN2Set(ctx: OlsrContext, n1: set<Addr>) returns (n2: map<Addr, set<Addr>>)
    requires n1 == N1(ctx.neighborTree)
    ensures forall x :: x in n2 <==> Strict(ctx.ownIp, ctx.neighborTree, x)
    ensures forall x <- n2 :: n2[x] == Bridges(ctx.neighborTree, x)
  {
    n2 := map[];
    ghost var nb := ctx.neighborTree;
    var nelem := First(ctx.neighborTree.Keys);
    while nelem.Some?
      invariant nelem.Some? ==> nelem.value in nb
      invariant Building(ctx.ownIp, nb, n2, nelem, Some(0))
      decreases Left(nb.Keys, nelem)
    {
      var a := nelem.value;
      if Symmetric(ctx.neighborTree[a]) {
        n2 := AddReached(ctx, n1, n2, a);
        BuildNext(ctx.ownIp, nb, n2, a, None);
      } else {
        BuildNext(ctx.ownIp, nb, n2, a, Some(0));
      }
      Step(nb.Keys, a);
      nelem := Next(ctx.neighborTree.Keys, a);
    }
    assert forall x :: BridgesSoFar(nb, None, Some(0), x) == Bridges(nb, x);
  }

  /** Adds what one neighbour reaches. */
  method AddReached(ctx: OlsrContext, n1: set<Addr>, before: map<Addr, set<Addr>>, a: Addr) returns (n2: map<Addr, set<Addr>>)
    requires n1 == N1(ctx.neighborTree) && a in ctx.neighborTree && Symmetric(ctx.neighborTree[a])
    requires Building(ctx.ownIp, ctx.neighborTree, before, Some(a), Some(0))
    ensures Building(ctx.ownIp, ctx.neighborTree, n2, Some(a), None)
  {
    n2 := before;
    var n2elem := First(ctx.neighborTree[a].n2);
    assert forall x :: BridgesSoFar(ctx.neighborTree, Some(a), n2elem, x) == BridgesSoFar(ctx.neighborTree, Some(a), Some(0), x);
    while n2elem.Some?
      invariant n2elem.Some? ==> n2elem.value in ctx.neighborTree[a].n2
      invariant Building(ctx.ownIp, ctx.neighborTree, n2, Some(a), n2elem)
      decreases Left(ctx.neighborTree[a].n2, n2elem)
    {
      var x := n2elem.value;
      BuildStep(ctx.ownIp, ctx.neighborTree, n2, a, x);
      Step(ctx.neighborTree[a].n2, x);
      n2elem := Next(ctx.neighborTree[a].n2, x);
      if x == ctx.ownIp {
        continue;
      }
      if x in n1 {
        continue;
      }
      n2 := n2[x := (if x in n2 then n2[x] else {}) + {a}];
    }
  }

  // ----- selecting relays

  /** The neighbours as they are while relays are selected: only the status of the relays differs from `nb`. */
  ghost predicate Marked(nb: Neighbors, now: Neighbors, mpr: set<Addr>) {
    && now.Keys == nb.Keys && mpr <= N1(nb)
    && forall a <- nb :: now[a] == if a in mpr then nb[a].(status := MPR_NEIGH) else nb[a]
  }

  /** What remains to be covered: strict two-hop neighbours that no relay reaches. */
  ghost function Uncovered(own: Addr, nb: Neighbors, mpr: set<Addr>): set<Addr>
    requires mpr <= nb.Keys
  {
    set a, x | a in nb && x in nb[a].n2 && Strict(own, nb, x) && forall m <- mpr :: x !in nb[m].n2 :: x
  }

  /** The state between two selections. */
  ghost predicate SelectingNow(own: Addr, nb: Neighbors, now: Neighbors, mpr: set<Addr>, n1: set<Addr>, n2: map<Addr, set<Addr>>, k: int) {
    && Marked(nb, now, mpr) && n1 == N1(nb) - mpr
    && n2.Keys == Uncovered(own, nb, mpr)
    && forall x <- n2 :: n2[x] == Bridges(nb, x)
  }

  ghost predicate Selecting(own: Addr, nb: Neighbors, now: Neighbors, mpr: set<Addr>, n1: set<Addr>, n2: map<Addr, set<Addr>>) {
    forall k {:trigger SelectingNow(own, nb, now, mpr, n1, n2, k)} :: SelectingNow(own, nb, now, mpr, n1, n2, k)
  }

  /** The reachability tree without the addresses in `reached`. */
  function Dropped(n2: map<Addr, set<Addr>>, reached: set<Addr>): map<Addr, set<Addr>> {
    map x <- n2 | x !in reached :: n2[x]
  }

  lemma {:induction false} SelectStep(own: Addr, nb: Neighbors, now: Neighbors, mpr: set<Addr>, n1: set<Addr>, n2: map<Addr, set<Addr>>, m: Addr)
    requires Selecting(own, nb, now, mpr, n1, n2) && m in N1(nb)
    ensures m in now && now[m].n2 == nb[m].n2
    ensures Selecting(own, nb, now[m := now[m].(status := MPR_NEIGH)], mpr + {m}, n1 - {m}, Dropped(n2, nb[m].n2))
  {
    assert SelectingNow(own, nb, now, mpr, n1, n2, 0);
    assert SelectingNow(own, nb, now[m := now[m].(status := MPR_NEIGH)], mpr + {m}, n1 - {m}, Dropped(n2, nb[m].n2), 0);
  }

  /** Removes from the tree what a new relay reaches. */
  method RemoveReached(ctx: OlsrContext, before: map<Addr, set<Addr>>, m: Addr) returns (n2: map<Addr, set<Addr>>)
    requires m in ctx.neighborTree
    ensures n2 == Dropped(before, ctx.neighborTree[m].n2)
  {
    n2 := before;
    var reached := ctx.neighborTree[m].n2;
    var n2elem := First(reached);
    while n2elem.Some?
      invariant n2elem.Some? ==> n2elem.value in reached
      invariant n2 == map x <- before | !(x in reached && Seen(n2elem, x)) :: before[x]
      decreases Left(reached, n2elem)
    {
      Step(reached, n2elem.value);
      n2 := n2 - {n2elem.value};
      n2elem := Next(reached, n2elem.value);
    }
  }

  /** Makes one neighbour a relay. */
  method Select(ctx: OlsrContext, m: Addr, n1: set<Addr>, n2: map<Addr, set<Addr>>)
    returns (n1': set<Addr>, n2': map<Addr, set<Addr>>)
    requires Routed(ctx) && m in ctx.neighborTree
    modifies ctx`mprTree, ctx`neighborTree, ctx`topology, ctx`routingTable, ctx`nodeStatTree, ctx`nodeInfo, ctx`nodeStatsNum
    ensures Routed(ctx) && ctx.topology == old(ctx.topology)
    ensures ctx.mprTree == old(ctx.mprTree) + {m} && n1' == n1 - {m} && n2' == Dropped(n2, old(ctx.neighborTree)[m].n2)
    ensures ctx.neighborTree == old(ctx.neighborTree)[m := old(ctx.neighborTree)[m].(status := MPR_NEIGH)]
  {
    ctx.mprTree := ctx.mprTree + {m};
    n1' := n1 - {m};
    SetNeighborStatus(ctx, m, MPR_NEIGH);
    n2' := RemoveReached(ctx, n2, m);
  }

  /** The neighbours that are the only way to some strict two-hop neighbour. */
  method SoleBridges(n2: map<Addr, set<Addr>>) returns (selected: set<Addr>)
    ensures forall m :: m in selected <==> exists x :: x in n2 && n2[x] == {m}
  {
    selected := {};
    var n2elem := First(n2.Keys);
    while n2elem.Some?
      invariant n2elem.Some? ==> n2elem.value in n2
      invariant forall m <- selected :: exists x :: x in n2 && n2[x] == {m}
      invariant forall x <- n2 :: Seen(n2elem, x) && |n2[x]| == 1 ==> Least(n2[x]) in selected
      decreases Left(n2.Keys, n2elem)
    {
      var x := n2elem.value;
      if |n2[x]| == 1 {
        SingletonLeast(n2[x]);
        selected := selected + {Least(n2[x])};
      }
      Step(n2.Keys, x);
      n2elem := Next(n2.Keys, x);
    }
  }

  lemma {:induction false} SingletonLeast(s: set<Addr>)
    requires |s| == 1
    ensures s == {Least(s)}
  {
    var a := Least(s);
    assert |s - {a}| == 0;
  }

  /** The first pass. Each element is moved into `mprTree` while the loop stands on it, so the step to the
      next element follows the links it has there. */
  method AddUniqueBridgeToMpr(ctx: OlsrContext, n1: set<Addr>, n2: map<Addr, set<Addr>>, ghost nb: Neighbors)
    returns (n1': set<Addr>, n2': map<Addr, set<Addr>>)
    requires Routed(ctx) && ctx.mprTree == {} && Selecting(ctx.ownIp, nb, ctx.neighborTree, {}, n1, n2)
    modifies ctx`mprTree, ctx`neighborTree, ctx`topology, ctx`routingTable, ctx`nodeStatTree, ctx`nodeInfo, ctx`nodeStatsNum
    ensures Routed(ctx) && ctx.topology == old(ctx.topology)
    ensures Selecting(ctx.ownIp, nb, ctx.neighborTree, ctx.mprTree, n1', n2')
    ensures FirstSole(ctx.ownIp, nb, ctx.mprTree)
  {
    n1', n2' := n1, n2;
    var selected := SoleBridges(n2);
    SoleBridgesAre(ctx.ownIp, nb, ctx.neighborTree, n1, n2, selected);
    var mprElem := First(selected);
    ghost var start := mprElem;
    while mprElem.Some?
      invariant Routed(ctx) && ctx.topology == old(ctx.topology)
      invariant Selecting(ctx.ownIp, nb, ctx.neighborTree, ctx.mprTree, n1', n2')
      invariant if mprElem.Some? then mprElem == start && ctx.mprTree == {} else ctx.mprTree == Only(start)
      decreases mprElem.Some?
    {
      SelectStep(ctx.ownIp, nb, ctx.neighborTree, ctx.mprTree, n1', n2', mprElem.value);
      n1', n2' := Select(ctx, mprElem.value, n1', n2');
      mprElem := Next(ctx.mprTree, mprElem.value);
    }
  }

  ghost function Only(a: Option<Addr>): set<Addr> {
    if a.Some? then {a.value} else {}
  }

  /** `m` is a neighbour that alone reaches some strict two-hop neighbour. */
  ghost predicate SoleBridge(own: Addr, nb: Neighbors, m: Addr) {
    exists x :: Strict(own, nb, x) && Bridges(nb, x) == {m}
  }

  /** Only the sole bridge with the smallest address becomes a relay. */
  ghost predicate FirstSole(own: Addr, nb: Neighbors, mpr: set<Addr>) {
    if mpr == {} then forall m: Addr :: !SoleBridge(own, nb, m)
    else exists first: Addr :: mpr == {first} && SoleBridge(own, nb, first) && forall m: Addr | SoleBridge(own, nb, m) :: first <= m
  }

  lemma {:induction false} SoleBridgesAre(own: Addr, nb: Neighbors, now: Neighbors, n1: set<Addr>, n2: map<Addr, set<Addr>>, selected: set<Addr>)
    requires Selecting(own, nb, now, {}, n1, n2)
    requires forall m :: m in selected <==> exists x :: x in n2 && n2[x] == {m}
    ensures selected <= N1(nb) && FirstSole(own, nb, Only(First(selected)))
  {
    assert SelectingNow(own, nb, now, {}, n1, n2, 0);
    forall m: Addr ensures m in selected <==> SoleBridge(own, nb, m) {
      if SoleBridge(own, nb, m) {
        var x :| Strict(own, nb, x) && Bridges(nb, x) == {m};
        StrictUncovered(own, nb, x);
      }
    }
    forall m <- selected ensures m in N1(nb) {
      var x :| x in n2 && n2[x] == {m};
      assert m in Bridges(nb, x);
    }
  }

  lemma {:induction false} StrictUncovered(own: Addr, nb: Neighbors, x: Addr)
    ensures Strict(own, nb, x) <==> x in Uncovered(own, nb, {})
  {
    if Strict(own, nb, x) {
      var a :| a in Bridges(nb, x);
    }
  }

  // ----- the greedy pass

  method CalcReachability(n2set: set<Addr>, n2: map<Addr, set<Addr>>) returns (reachability: nat)
    ensures reachability == |n2set * n2.Keys|
  {
    reachability := 0;
    ghost var counted := {};
    var n2elem := First(n2set);
    while n2elem.Some?
      invariant n2elem.Some? ==> n2elem.value in n2set
      invariant counted == (set x <- n2set | x in n2 && Seen(n2elem, x)) && reachability == |counted|
      decreases Left(n2set, n2elem)
    {
      Step(n2set, n2elem.value);
      if n2elem.value in n2 {
        reachability := reachability + 1;
        counted := counted + {n2elem.value};
      }
      n2elem := Next(n2set, n2elem.value);
    }
    assert counted == n2set * n2.Keys;
  }

  /** `best` is the first neighbour of those in `s` that reaches most, or none when nothing is reached. */
  ghost predicate Best(nb: Neighbors, s: set<Addr>, rest: set<Addr>, best: Option<Addr>, most: nat) {
    && s <= nb.Keys
    && (best.None? ==> most == 0)
    && (best.Some? ==> best.value in s && Reach(nb, best.value, rest) == most > 0)
    && (forall a <- s :: Reach(nb, a, rest) <= most)
    && (best.Some? ==> forall a <- s :: a < best.value ==> Reach(nb, a, rest) < most)
  }

  lemma {:induction false} BestStep(nb: Neighbors, s: set<Addr>, rest: set<Addr>, best: Option<Addr>, most: nat, a: Addr)
    requires Best(nb, s, rest, best, most) && a in nb && forall b <- s :: b < a
    ensures var r := Reach(nb, a, rest);
            Best(nb, s + {a}, rest, if r > most then Some(a) else best, if r > most then r else most)
  {
  }

  method GetMaxReachabilityNeigh(ctx: OlsrContext, n1: set<Addr>, n2: map<Addr, set<Addr>>) returns (best: Option<Addr>)
    requires n1 <= ctx.neighborTree.Keys
    ensures exists most :: Best(ctx.neighborTree, n1, n2.Keys, best, most)
  {
    var most := 0;
    best := None;
    var aelem := First(n1);
    ghost var visited := {};
    while aelem.Some?
      invariant aelem.Some? ==> aelem.value in n1
      invariant visited == set a <- n1 | Seen(aelem, a)
      invariant Best(ctx.neighborTree, visited, n2.Keys, best, most)
      decreases Left(n1, aelem)
    {
      var a := aelem.value;
      Step(n1, a);
      var reachability := CalcReachability(ctx.neighborTree[a].n2, n2);
      assert reachability == Reach(ctx.neighborTree, a, n2.Keys);
      BestStep(ctx.neighborTree, visited, n2.Keys, best, most, a);
      if reachability > most {
        most := reachability;
        best := Some(a);
      }
      visited := visited + {a};
      aelem := Next(n1, a);
    }
    assert visited == n1;
  }

  /** While something is uncovered some neighbour that is no relay yet reaches it. */
  lemma {:induction false} SomeoneReaches(own: Addr, nb: Neighbors, now: Neighbors, mpr: set<Addr>, n1: set<Addr>, n2: map<Addr, set<Addr>>)
    requires Selecting(own, nb, now, mpr, n1, n2) && n2.Keys != {}
    ensures n1 <= now.Keys && exists a :: a in n1 && Reach(now, a, n2.Keys) > 0
  {
    assert SelectingNow(own, nb, now, mpr, n1, n2, 0);
    var x :| x in n2.Keys;
    var a :| a in Bridges(nb, x);
    assert a !in mpr;
    assert x in now[a].n2 * n2.Keys && a in n1;
    assert Reach(now, a, n2.Keys) > 0;
  }

  /** The best neighbour among those left is best among all: relays reach nothing uncovered. */
  lemma {:induction false} BestOfAll(own: Addr, nb: Neighbors, now: Neighbors, mpr: set<Addr>, n1: set<Addr>, n2: map<Addr, set<Addr>>, p: Addr, most: nat)
    requires Selecting(own, nb, now, mpr, n1, n2) && n1 <= now.Keys && Best(now, n1, n2.Keys, Some(p), most)
    ensures Foremost(nb, n2.Keys, p)
  {
    assert SelectingNow(own, nb, now, mpr, n1, n2, 0);
    forall c <- N1(nb)
      ensures Reach(nb, c, n2.Keys) <= Reach(nb, p, n2.Keys) && (c < p ==> Reach(nb, c, n2.Keys) < Reach(nb, p, n2.Keys))
    {
      if c in mpr {
        assert forall x <- n2.Keys :: x !in nb[c].n2;
        assert nb[c].n2 * n2.Keys == {};
      } else {
        assert now[c].n2 == nb[c].n2 && now[p].n2 == nb[p].n2 && c in n1;
      }
    }
  }

  /** The second pass after `picks`: a greedy run on the `rest` that the first pass left. */
  ghost predicate PassNow(nb: Neighbors, mpr: set<Addr>, uncovered: set<Addr>, first: set<Addr>, rest: set<Addr>, picks: seq<Addr>, k: int) {
    Greedy(nb, rest, picks) && uncovered == Rest(nb, rest, picks) && mpr == first + set p <- picks
  }

  ghost predicate Pass(nb: Neighbors, mpr: set<Addr>, uncovered: set<Addr>, first: set<Addr>, rest: set<Addr>, picks: seq<Addr>) {
    forall k {:trigger PassNow(nb, mpr, uncovered, first, rest, picks, k)} :: PassNow(nb, mpr, uncovered, first, rest, picks, k)
  }

  lemma {:induction false} PassStart(nb: Neighbors, mpr: set<Addr>, uncovered: set<Addr>)
    ensures Pass(nb, mpr, uncovered, mpr, uncovered, [])
  {
    var none: seq<Addr> := [];
    assert Rest(nb, uncovered, none) == uncovered;
    assert mpr == mpr + set p <- none;
  }

  lemma {:induction false} PassStep(nb: Neighbors, mpr: set<Addr>, n2: map<Addr, set<Addr>>, first: set<Addr>, rest: set<Addr>, picks: seq<Addr>, p: Addr)
    requires Pass(nb, mpr, n2.Keys, first, rest, picks) && Foremost(nb, n2.Keys, p)
    ensures Pass(nb, mpr + {p}, Dropped(n2, nb[p].n2).Keys, first, rest, picks + [p])
    ensures Dropped(n2, nb[p].n2).Keys < n2.Keys
  {
    assert PassNow(nb, mpr, n2.Keys, first, rest, picks, 0);
    PickStep(nb, rest, picks, p);
    assert Dropped(n2, nb[p].n2).Keys == n2.Keys - nb[p].n2;
  }

  lemma {:induction false} PickStep(nb: Neighbors, rest: set<Addr>, picks: seq<Addr>, p: Addr)
    requires Greedy(nb, rest, picks) && Foremost(nb, Rest(nb, rest, picks), p)
    ensures Greedy(nb, rest, picks + [p])
    ensures Rest(nb, rest, picks + [p]) == Rest(nb, rest, picks) - nb[p].n2 < Rest(nb, rest, picks)
    ensures (set q <- picks + [p]) == (set q <- picks) + {p}
  {
    NextPick(nb, rest, picks, p);
    RestSnoc(nb, rest, picks, p);
    var x :| x in nb[p].n2 * Rest(nb, rest, picks);
    assert x !in Rest(nb, rest, picks + [p]);
  }

  /** The next pick; there is one as long as anything is uncovered. */
  method FindBest(ctx: OlsrContext, n1: set<Addr>, n2: map<Addr, set<Addr>>, ghost nb: Neighbors) returns (best: Option<Addr>)
    requires Selecting(ctx.ownIp, nb, ctx.neighborTree, ctx.mprTree, n1, n2) && n2.Keys != {}
    ensures best.Some? && Foremost(nb, n2.Keys, best.value)
  {
    SomeoneReaches(ctx.ownIp, nb, ctx.neighborTree, ctx.mprTree, n1, n2);
    best := GetMaxReachabilityNeigh(ctx, n1, n2);
    ghost var most :| Best(ctx.neighborTree, n1, n2.Keys, best, most);
    BestOfAll(ctx.ownIp, nb, ctx.neighborTree, ctx.mprTree, n1, n2, best.value, most);
  }

  /** The second pass: its picks form a greedy run on what the first pass left, and nothing stays uncovered. */
  method PopulateMprSetByReachability(ctx: OlsrContext, n1: set<Addr>, n2: map<Addr, set<Addr>>, ghost nb: Neighbors)
    returns (n1': set<Addr>, n2': map<Addr, set<Addr>>, ghost picks: seq<Addr>)
    requires Routed(ctx) && Selecting(ctx.ownIp, nb, ctx.neighborTree, ctx.mprTree, n1, n2)
    modifies ctx`mprTree, ctx`neighborTree, ctx`topology, ctx`routingTable, ctx`nodeStatTree, ctx`nodeInfo, ctx`nodeStatsNum
    ensures Routed(ctx) && ctx.topology == old(ctx.topology)
    ensures Selecting(ctx.ownIp, nb, ctx.neighborTree, ctx.mprTree, n1', n2')
    ensures n2'.Keys == {}
    ensures Pass(nb, ctx.mprTree, {}, old(ctx.mprTree), n2.Keys, picks)
  {
    n1', n2', picks := n1, n2, [];
    ghost var first := ctx.mprTree;
    PassStart(nb, first, n2.Keys);
    while |n2'.Keys| > 0
      invariant Routed(ctx) && ctx.topology == old(ctx.topology)
      invariant Selecting(ctx.ownIp, nb, ctx.neighborTree, ctx.mprTree, n1', n2')
      invariant Pass(nb, ctx.mprTree, n2'.Keys, first, n2.Keys, picks)
      decreases n2'.Keys
    {
      var nelem := FindBest(ctx, n1', n2', nb);
      if nelem.None? {
        break;
      }
      PassStep(nb, ctx.mprTree, n2', first, n2.Keys, picks, nelem.value);
      SelectStep(ctx.ownIp, nb, ctx.neighborTree, ctx.mprTree, n1', n2', nelem.value);
      n1', n2' := Select(ctx, nelem.value, n1', n2');
      picks := picks + [nelem.value];
    }
  }

  // ----- the whole selection

  method CheckMprSetChange(oldSet: set<Addr>, newSet: set<Addr>) returns (changed: bool)
    ensures changed <==> oldSet != newSet
  {
    if |oldSet| != |newSet| {
      return true;
    }
    var oldElem := First(oldSet);
    while oldElem.Some?
      invariant oldElem.Some? ==> oldElem.value in oldSet
      invariant forall a <- oldSet :: Seen(oldElem, a) ==> a in newSet
      decreases Left(oldSet, oldElem)
    {
      if oldElem.value !in newSet {
        return true;
      }
      Step(oldSet, oldElem.value);
      oldElem := Next(oldSet, oldElem.value);
    }
    SameSize(oldSet, newSet);
    return false;
  }

  lemma {:induction false} SameSize(a: set<Addr>, b: set<Addr>)
    requires a <= b && |a| == |b|
    ensures a == b
  {
    assert b == a + (b - a);
  }

  /** Neighbours that are not relays become plain symmetric neighbours again. */
  method CleanN1Set(ctx: OlsrContext, n1: set<Addr>)
    requires Routed(ctx) && n1 <= ctx.neighborTree.Keys
    modifies ctx`neighborTree, ctx`topology, ctx`routingTable, ctx`nodeStatTree, ctx`nodeInfo, ctx`nodeStatsNum
    ensures Routed(ctx) && ctx.topology == old(ctx.topology)
    ensures ctx.neighborTree.Keys == old(ctx.neighborTree.Keys)
    ensures forall a <- ctx.neighborTree :: ctx.neighborTree[a] ==
              if a in n1 then old(ctx.neighborTree)[a].(status := SYM_NEIGH) else old(ctx.neighborTree)[a]
  {
    ghost var nb := ctx.neighborTree;
    var addrElem := First(n1);
    while addrElem.Some?
      invariant addrElem.Some? ==> addrElem.value in n1
      invariant Routed(ctx) && ctx.topology == old(ctx.topology) && ctx.neighborTree.Keys == nb.Keys
      invariant forall a <- nb :: ctx.neighborTree[a] ==
                  if a in n1 && Seen(addrElem, a) then nb[a].(status := SYM_NEIGH) else nb[a]
      decreases Left(n1, addrElem)
    {
      Step(n1, addrElem.value);
      SetNeighborStatus(ctx, addrElem.value, SYM_NEIGH);
      addrElem := Next(n1, addrElem.value);
    }
  }

  /** Relays are neighbours, every strict two-hop neighbour has one, and exactly the relays have relay status. */
  ghost predicate MprOk(own: Addr, nb: Neighbors, mpr: set<Addr>) {
    && mpr <= N1(nb)
    && (forall x | Strict(own, nb, x) :: exists m :: m in mpr && x in nb[m].n2)
    && forall a <- N1(nb) :: nb[a].status == if a in mpr then MPR_NEIGH else SYM_NEIGH
  }

  /** A selection changes nothing of the neighbours but which of the symmetric ones are relays. */
  ghost predicate SameNeighbors(nb: Neighbors, now: Neighbors) {
    && now.Keys == nb.Keys && N1(now) == N1(nb)
    && (forall a <- nb :: now[a].n2 == nb[a].n2)
    && forall a <- nb :: a !in N1(nb) ==> now[a] == nb[a]
  }

  /** Before the first pass nothing is selected and every strict two-hop neighbour is uncovered. */
  lemma {:induction false} SelectionStarts(own: Addr, nb: Neighbors, n1: set<Addr>, n2: map<Addr, set<Addr>>)
    requires n1 == N1(nb)
    requires forall x :: x in n2 <==> Strict(own, nb, x)
    requires forall x <- n2 :: n2[x] == Bridges(nb, x)
    ensures Selecting(own, nb, nb, {}, n1, n2)
  {
    forall x ensures x in n2.Keys <==> x in Uncovered(own, nb, {}) {
      StrictUncovered(own, nb, x);
    }
  }

  /** Relays `mpr` come from the first pass, which leaves `first`, and the greedy `picks` that cover the remainder. */
  ghost predicate ChosenBy(own: Addr, nb: Neighbors, mpr: set<Addr>, first: set<Addr>, picks: seq<Addr>) {
    && first <= nb.Keys && FirstSole(own, nb, first)
    && Pass(nb, mpr, {}, first, Uncovered(own, nb, first), picks)
  }

  ghost predicate Chosen(own: Addr, nb: Neighbors, mpr: set<Addr>) {
    exists first, picks {:trigger ChosenBy(own, nb, mpr, first, picks)} :: ChosenBy(own, nb, mpr, first, picks)
  }

  /** Relays `mpr` are the selection for neighbours that reach what those of `nb` do. */
  ghost predicate Selected(own: Addr, nb: Neighbors, mpr: set<Addr>) {
    exists was {:trigger Chosen(own, was, mpr)} :: SameReach(nb, was) && Chosen(own, was, mpr)
  }

  /** Both passes. What is left of the working sets are the neighbours that are no relays. */
  method SelectRelays(ctx: OlsrContext) returns (n1: set<Addr>, ghost first: set<Addr>, ghost picks: seq<Addr>)
    requires Routed(ctx) && ctx.mprTree == {}
    modifies ctx`mprTree
    modifies ctx`neighborTree, ctx`topology, ctx`routingTable, ctx`nodeStatTree, ctx`nodeInfo, ctx`nodeStatsNum
    ensures Routed(ctx) && ctx.topology == old(ctx.topology) && n1 <= ctx.neighborTree.Keys
    ensures Selecting(ctx.ownIp, old(ctx.neighborTree), ctx.neighborTree, ctx.mprTree, n1, map[])
    ensures ChosenBy(ctx.ownIp, old(ctx.neighborTree), ctx.mprTree, first, picks)
  {
    ghost var nb := ctx.neighborTree;
    n1 := CalcN1Set(ctx);
    var n2 := CalcN2Set(ctx, n1);
    SelectionStarts(ctx.ownIp, nb, n1, n2);
    n1, n2 := AddUniqueBridgeToMpr(ctx, n1, n2, nb);
    first := ctx.mprTree;
    assert SelectingNow(ctx.ownIp, nb, ctx.neighborTree, ctx.mprTree, n1, n2, 0);
    n1, n2, picks := PopulateMprSetByReachability(ctx, n1, n2, nb);
    KeysStay(ctx.ownIp, nb, ctx.neighborTree, ctx.mprTree, n1, n2);
    assert n2 == map[];
  }

  /** The advertised sequence number, 16 bits wide. */
  function Counted(ansn: nat, changed: bool): nat { if changed then (ansn + 1) % 0x1_0000 else ansn }

  method PopulateMprSet(ctx: OlsrContext) returns (ghost first: set<Addr>, ghost picks: seq<Addr>)
    requires Routed(ctx)
    modifies ctx`mprTree, ctx`ansn
    modifies ctx`neighborTree, ctx`topology, ctx`routingTable, ctx`nodeStatTree, ctx`nodeInfo, ctx`nodeStatsNum
    ensures Routed(ctx) && ctx.topology == old(ctx.topology)
    ensures SameNeighbors(old(ctx.neighborTree), ctx.neighborTree)
    ensures MprOk(ctx.ownIp, ctx.neighborTree, ctx.mprTree)
    ensures ctx.ansn == Counted(old(ctx.ansn), ctx.mprTree != old(ctx.mprTree))
    ensures ChosenBy(ctx.ownIp, old(ctx.neighborTree), ctx.mprTree, first, picks)
  {
    var oldSet := ctx.mprTree;
    ctx.mprTree := {};
    var n1;
    n1, first, picks := SelectRelays(ctx);
    var changed := CheckMprSetChange(oldSet, ctx.mprTree);
    if changed {
      ctx.ansn := (ctx.ansn + 1) % 0x1_0000;
    }
    ghost var now := ctx.neighborTree;
    CleanN1Set(ctx, n1);
    SelectionEnds(ctx.ownIp, old(ctx.neighborTree), now, ctx.mprTree, n1, map[], ctx.neighborTree);
  }

  lemma {:induction false} IsSelected(own: Addr, nb: Neighbors, end: Neighbors, mpr: set<Addr>, first: set<Addr>, picks: seq<Addr>)
    requires SameNeighbors(nb, end) && ChosenBy(own, nb, mpr, first, picks)
    ensures Selected(own, end, mpr)
  {
    assert Chosen(own, nb, mpr);
  }

  lemma {:induction false} KeysStay(own: Addr, nb: Neighbors, now: Neighbors, mpr: set<Addr>, n1: set<Addr>, n2: map<Addr, set<Addr>>)
    requires Selecting(own, nb, now, mpr, n1, n2)
    ensures n1 <= now.Keys
  {
    assert SelectingNow(own, nb, now, mpr, n1, n2, 0);
  }

  lemma {:induction false} SelectionEnds(own: Addr, nb: Neighbors, now: Neighbors, mpr: set<Addr>, n1: set<Addr>, n2: map<Addr, set<Addr>>, end: Neighbors)
    requires Selecting(own, nb, now, mpr, n1, n2) && n2.Keys == {} && end.Keys == now.Keys
    requires forall a <- end :: end[a] == if a in n1 then now[a].(status := SYM_NEIGH) else now[a]
    ensures SameNeighbors(nb, end) && MprOk(own, end, mpr)
  {
    assert SelectingNow(own, nb, now, mpr, n1, n2, 0);
    assert N1(end) == N1(nb);
    forall x | Strict(own, end, x) ensures exists m :: m in mpr && x in end[m].n2 {
      assert Bridges(end, x) == Bridges(nb, x);
      var a :| a in Bridges(nb, x);
      assert Strict(own, nb, x) && x !in Uncovered(own, nb, mpr);
      assert exists m :: m in mpr && x in nb[m].n2;
    }
  }
  /** The second pass against any set of neighbours that covers what the first pass left: with `k` of them and `t` picks,
      `k^(t-1) <= r * (k-1)^(t-1)`, where `r` is the size of what was left. */
  lemma {:induction false} RelayBound(nb: Neighbors, mpr: set<Addr>, first: set<Addr>, rest: set<Addr>, picks: seq<Addr>, c: set<Addr>)
    requires Pass(nb, mpr, {}, first, rest, picks) && Covers(nb, rest, c)
    ensures mpr == first + set p <- picks
    ensures picks != [] ==> c != {} && Pow(|c|, |picks| - 1) <= |rest| * Pow(|c| - 1, |picks| - 1)
    ensures forall x <- rest :: exists p :: p in picks && p in nb && x in nb[p].n2
  {
    assert PassNow(nb, mpr, {}, first, rest, picks, 0);
    if picks != [] {
      PickCount(nb, rest, picks, c);
    }
    forall x <- rest ensures exists p :: p in picks && p in nb && x in nb[p].n2 {
      assert x !in Rest(nb, rest, picks);
    }
  }

  // ----- no relay without need

  lemma {:induction false} PickReaches(nb: Neighbors, rest: set<Addr>, picks: seq<Addr>, p: Addr)
    requires Greedy(nb, rest, picks) && p in picks
    ensures p in N1(nb) && nb[p].n2 * rest != {}
  {
    var n := |picks| - 1;
    if p == picks[n] {
      assert Foremost(nb, Rest(nb, rest, picks[..n]), p);
      var x :| x in nb[p].n2 * Rest(nb, rest, picks[..n]);
      assert x in nb[p].n2 * rest;
    } else {
      PickReaches(nb, rest, picks[..n], p);
    }
  }

  lemma {:induction false} ChosenReaches(own: Addr, nb: Neighbors, mpr: set<Addr>, m: Addr) returns (x: Addr)
    requires Chosen(own, nb, mpr) && m in mpr
    ensures m in N1(nb) && x in nb[m].n2 && x != own && x !in N1(nb)
  {
    var first, picks :| ChosenBy(own, nb, mpr, first, picks);
    var rest := Uncovered(own, nb, first);
    assert PassNow(nb, mpr, {}, first, rest, picks, 0);
    if m in first {
      assert SoleBridge(own, nb, m);
      x :| Strict(own, nb, x) && Bridges(nb, x) == {m};
      assert m in Bridges(nb, x);
    } else {
      PickReaches(nb, rest, picks, m);
      x :| x in nb[m].n2 * rest;
    }
  }

  /** Every relay is a neighbour through which the node reaches somebody who is neither the node itself nor a neighbour. */
  lemma {:induction false} RelayReaches(own: Addr, nb: Neighbors, mpr: set<Addr>, m: Addr) returns (x: Addr)
    requires Selected(own, nb, mpr) && m in mpr
    ensures m in N1(nb) && x in nb[m].n2 && x != own && x !in N1(nb)
  {
    var was :| SameReach(nb, was) && Chosen(own, was, mpr);
    x := ChosenReaches(own, was, mpr, m);
  }

  // ----- the selection is determined

  lemma {:induction false} StrictSame(own: Addr, nb: Neighbors, now: Neighbors)
    requires SameReach(nb, now)
    ensures forall x :: Bridges(now, x) == Bridges(nb, x)
    ensures forall x :: Strict(own, now, x) <==> Strict(own, nb, x)
  {
    forall x ensures Bridges(now, x) == Bridges(nb, x) {
      forall a ensures a in Bridges(now, x) <==> a in Bridges(nb, x) {
        assert a in N1(now) <==> a in N1(nb);
      }
    }
  }

  lemma {:induction false} FirstSame(own: Addr, nb: Neighbors, now: Neighbors, mpr: set<Addr>, mpr': set<Addr>)
    requires SameReach(nb, now) && FirstSole(own, nb, mpr) && FirstSole(own, now, mpr')
    ensures mpr == mpr'
  {
    StrictSame(own, nb, now);
    forall m: Addr ensures SoleBridge(own, now, m) <==> SoleBridge(own, nb, m) {}
  }

  lemma {:induction false} UncoveredSame(own: Addr, nb: Neighbors, now: Neighbors, mpr: set<Addr>)
    requires SameReach(nb, now) && mpr <= nb.Keys
    ensures Uncovered(own, now, mpr) == Uncovered(own, nb, mpr)
  {
    StrictSame(own, nb, now);
  }

  lemma {:induction false} ChosenUnique(own: Addr, nb: Neighbors, now: Neighbors, mpr: set<Addr>, mpr': set<Addr>)
    requires SameReach(nb, now) && Chosen(own, nb, mpr) && Chosen(own, now, mpr')
    ensures mpr == mpr'
  {
    var first, ps :| ChosenBy(own, nb, mpr, first, ps);
    var first', qs :| ChosenBy(own, now, mpr', first', qs);
    FirstSame(own, nb, now, first, first');
    UncoveredSame(own, nb, now, first);
    var rest := Uncovered(own, nb, first);
    assert PassNow(nb, mpr, {}, first, rest, ps, 0) && PassNow(now, mpr', {}, first, rest, qs, 0);
    SamePicks(nb, now, rest, ps, qs);
  }

  /** The relays depend on the symmetric neighbours and what they reach, and on nothing else. */
  lemma {:induction false} RelaysDetermined(own: Addr, nb: Neighbors, now: Neighbors, mpr: set<Addr>, mpr': set<Addr>)
    requires SameReach(nb, now) && Selected(own, nb, mpr) && Selected(own, now, mpr')
    ensures mpr == mpr'
  {
    var was :| SameReach(nb, was) && Chosen(own, was, mpr);
    var was' :| SameReach(now, was') && Chosen(own, was', mpr');
    ChosenUnique(own, was, was', mpr, mpr');
  }
}
