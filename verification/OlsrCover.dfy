module OlsrCover {
  import opened AddrTree
  import opened OlsrContext
  import opened Powers

  /** The neighbours that reach `x` in one hop. */
  ghost function Bridges(nb: Neighbors, x: Addr): set<Addr> {
    set a <- nb | Symmetric(nb[a]) && x in nb[a].n2
  }

  /** `x` is a strict two-hop neighbour. */
  ghost predicate Strict(own: Addr, nb: Neighbors, x: Addr) {
    x != own && x !in N1(nb) && Bridges(nb, x) != {}
  }

  /** How many addresses of `rest` neighbour `a` reaches. */
  ghost function Reach(nb: Neighbors, a: Addr, rest: set<Addr>): nat
    requires a in nb
  {
    |nb[a].n2 * rest|
  }

  /** What is left of `rest` once the neighbours `picks` are relays. */
  ghost function Rest(nb: Neighbors, rest: set<Addr>, picks: seq<Addr>): set<Addr>
    requires forall p <- picks :: p in nb
  {
    set x <- rest | forall p <- picks :: x !in nb[p].n2
  }

  /** `p` reaches most of `rest`, and of the neighbours that do so it has the smallest address. */
  ghost predicate Foremost(nb: Neighbors, rest: set<Addr>, p: Addr) {
    && p in N1(nb) && Reach(nb, p, rest) > 0
    && forall c <- N1(nb) :: Reach(nb, c, rest) <= Reach(nb, p, rest) && (c < p ==> Reach(nb, c, rest) < Reach(nb, p, rest))
  }

  /** Each pick is the foremost neighbour for what the picks before it leave. */
  ghost predicate Greedy(nb: Neighbors, rest: set<Addr>, picks: seq<Addr>) {
    && (forall p <- picks :: p in N1(nb))
    && (picks != [] ==>
          var before, p := picks[..|picks| - 1], picks[|picks| - 1];
          && Greedy(nb, rest, before)
          && Foremost(nb, Rest(nb, rest, before), p))
  }

  ghost predicate Covers(nb: Neighbors, rest: set<Addr>, c: set<Addr>) {
    c <= N1(nb) && forall x <- rest :: exists m :: m in c && x in nb[m].n2
  }

  // ----- the greedy bound

  lemma {:induction false} SplitSize(a: set<Addr>, rest: set<Addr>)
    ensures |rest| == |a * rest| + |rest - a|
  {
    assert rest == (a * rest) + (rest - a);
  }

  lemma {:induction false} RemoveSize(c: set<Addr>, a: Addr)
    requires a in c
    ensures |c - {a}| == |c| - 1
  {
  }

  /** If each of the `|c|` members reaches at most `m` of what they cover together, there are at most `|c| * m` of it. */
  lemma {:induction false} CoverSize(nb: Neighbors, rest: set<Addr>, c: set<Addr>, m: nat)
    requires Covers(nb, rest, c) && forall a <- c :: Reach(nb, a, rest) <= m
    ensures |rest| <= |c| * m
  {
    if c == {} {
      assert rest == {};
    } else {
      var a :| a in c;
      var less, others := rest - nb[a].n2, c - {a};
      CoverLess(nb, rest, c, a, m);
      CoverSize(nb, less, others, m);
      SplitSize(nb[a].n2, rest);
      RemoveSize(c, a);
      CountUp(|others|, |c|, m);
    }
  }

  lemma {:induction false} CountUp(k: nat, k': nat, m: nat)
    requires k' == k + 1
    ensures k' * m == k * m + m
  {
  }

  lemma {:induction false} CoverLess(nb: Neighbors, rest: set<Addr>, c: set<Addr>, a: Addr, m: nat)
    requires Covers(nb, rest, c) && a in c && forall b <- c :: Reach(nb, b, rest) <= m
    ensures Covers(nb, rest - nb[a].n2, c - {a})
    ensures forall b <- c - {a} :: Reach(nb, b, rest - nb[a].n2) <= m
  {
    forall b <- c - {a} ensures Reach(nb, b, rest - nb[a].n2) <= m {
      SubsetSize(nb[b].n2 * (rest - nb[a].n2), nb[b].n2 * rest);
    }
  }

  /** One greedy pick against a cover of `k` neighbours leaves at most `(k - 1) / k` of the rest. */
  lemma {:induction false} PickShrinks(nb: Neighbors, rest: set<Addr>, p: Addr, c: set<Addr>)
    requires Covers(nb, rest, c) && p in nb && forall a <- N1(nb) :: Reach(nb, a, rest) <= Reach(nb, p, rest)
    ensures |rest - nb[p].n2| * |c| <= |rest| * (|c| - 1)
  {
    CoverSize(nb, rest, c, Reach(nb, p, rest));
    SplitSize(nb[p].n2, rest);
    ShrinkOnce(|rest|, Reach(nb, p, rest), |rest - nb[p].n2|, |c|);
  }

  lemma {:induction false} ShrinkOnce(r: nat, g: nat, r': nat, k: nat)
    requires r == g + r' && r <= k * g
    ensures r' * k <= r * (k - 1)
  {
    assert r * (k - 1) == r * k - r;
    assert r * k == g * k + r' * k;
  }

  /** At most `((k - 1) / k)^t` of `r0` is left. */
  predicate Decayed(r: nat, r0: nat, k: nat, t: nat)
    requires k > 0
  {
    r * Pow(k, t) <= r0 * Pow(k - 1, t)
  }

  /** After `t` picks at most `((k - 1) / k)^t` of the strict two-hop neighbours are uncovered, for every cover of `k`. */
  lemma {:induction false} GreedyBound(nb: Neighbors, rest: set<Addr>, picks: seq<Addr>, c: set<Addr>)
    requires Greedy(nb, rest, picks) && Covers(nb, rest, c) && c != {}
    ensures Decayed(|Rest(nb, rest, picks)|, |rest|, |c|, |picks|)
  {
    var sizes := Sizes(nb, rest, picks, c);
    PowerBound(sizes, |c|, |picks|, |rest|, |Rest(nb, rest, picks)|);
  }

  predicate ShrinksAt(sizes: seq<nat>, k: nat, i: nat)
    requires i + 1 < |sizes|
  {
    sizes[i + 1] * k <= sizes[i] * (k - 1)
  }

  /** Each step shrinks to at most `(k - 1) / k`. */
  ghost predicate Shrinking(sizes: seq<nat>, k: nat) {
    forall i: nat {:trigger ShrinksAt(sizes, k, i)} | i + 1 < |sizes| :: ShrinksAt(sizes, k, i)
  }

  /** How much is uncovered after each pick. */
  lemma {:induction false} Sizes(nb: Neighbors, rest: set<Addr>, picks: seq<Addr>, c: set<Addr>) returns (sizes: seq<nat>)
    requires Greedy(nb, rest, picks) && Covers(nb, rest, c)
    ensures |sizes| == |picks| + 1 && sizes[0] == |rest| && sizes[|picks|] == |Rest(nb, rest, picks)| && Shrinking(sizes, |c|)
  {
    if picks == [] {
      assert Rest(nb, rest, picks) == rest;
      sizes := [|rest|];
    } else {
      var before, p := picks[..|picks| - 1], picks[|picks| - 1];
      LastPick(nb, rest, picks);
      var front := Sizes(nb, rest, before, c);
      PickShrinksRest(nb, rest, picks, before, p, c);
      ShrinkingSnoc(front, |Rest(nb, rest, before)|, |Rest(nb, rest, picks)|, |c|);
      sizes := front + [|Rest(nb, rest, picks)|];
    }
  }

  lemma {:induction false} ShrinkingSnoc(sizes: seq<nat>, last: nat, r: nat, k: nat)
    requires Shrinking(sizes, k) && sizes != [] && sizes[|sizes| - 1] == last && r * k <= last * (k - 1)
    ensures Shrinking(sizes + [r], k)
  {
    forall i: nat | i + 1 < |sizes + [r]| ensures ShrinksAt(sizes + [r], k, i) {
      assert i + 1 < |sizes| ==> ShrinksAt(sizes, k, i);
    }
  }

  lemma {:induction false} PowerBound(sizes: seq<nat>, k: nat, t: nat, r0: nat, r: nat)
    requires Shrinking(sizes, k) && |sizes| == t + 1 && k > 0 && sizes[0] == r0 && sizes[t] == r
    ensures Decayed(r, r0, k, t)
  {
    if t > 0 {
      forall i: nat | i + 1 < t ensures ShrinksAt(sizes[..t], k, i) {
        assert ShrinksAt(sizes, k, i);
      }
      PowerBound(sizes[..t], k, t - 1, r0, sizes[t - 1]);
      assert ShrinksAt(sizes, k, t - 1);
      ShrinkPower(r, sizes[t - 1], r0, k, t - 1);
    }
  }

  lemma {:induction false} LastPick(nb: Neighbors, rest: set<Addr>, picks: seq<Addr>)
    requires Greedy(nb, rest, picks) && picks != []
    ensures var before, p := picks[..|picks| - 1], picks[|picks| - 1];
            && picks == before + [p] && Greedy(nb, rest, before) && p in nb && (forall b <- before :: b in nb)
            && Foremost(nb, Rest(nb, rest, before), p)
            && Reach(nb, p, Rest(nb, rest, before)) > 0
  {
  }

  lemma {:induction false} NextPick(nb: Neighbors, rest: set<Addr>, before: seq<Addr>, p: Addr)
    requires Greedy(nb, rest, before) && Foremost(nb, Rest(nb, rest, before), p)
    ensures Greedy(nb, rest, before + [p])
  {
    assert (before + [p])[..|before|] == before;
  }

  lemma {:induction false} PickShrinksRest(nb: Neighbors, rest: set<Addr>, picks: seq<Addr>, before: seq<Addr>, p: Addr, c: set<Addr>)
    requires Greedy(nb, rest, picks) && picks == before + [p] && Covers(nb, rest, c)
    ensures (forall b <- before :: b in nb) && p in nb
    ensures |Rest(nb, rest, picks)| * |c| <= |Rest(nb, rest, before)| * (|c| - 1)
  {
    LastPick(nb, rest, picks);
    CoverRest(nb, rest, before, c);
    RestSnoc(nb, rest, before, p);
    PickShrinks(nb, Rest(nb, rest, before), p, c);
  }

  lemma {:induction false} RestSnoc(nb: Neighbors, rest: set<Addr>, before: seq<Addr>, p: Addr)
    requires (forall b <- before :: b in nb) && p in nb
    ensures Rest(nb, rest, before + [p]) == Rest(nb, rest, before) - nb[p].n2
  {
    var picks := before + [p];
    assert forall b :: b in picks <==> b in before || b == p;
  }

  lemma {:induction false} CoverRest(nb: Neighbors, rest: set<Addr>, picks: seq<Addr>, c: set<Addr>)
    requires (forall b <- picks :: b in nb) && Covers(nb, rest, c)
    ensures Covers(nb, Rest(nb, rest, picks), c)
  {
  }

  lemma {:induction false} ShrinkPower(r': nat, r: nat, r0: nat, k: nat, t: nat)
    requires k > 0 && r' * k <= r * (k - 1) && Decayed(r, r0, k, t)
    ensures Decayed(r', r0, k, t + 1)
  {
    var a, b := Pow(k, t), Pow(k - 1, t);
    MulAssoc(r', k, a);
    MulLeq(r' * k, r * (k - 1), a);
    MulSwap(r, k - 1, a);
    MulLeq(r * a, r0 * b, k - 1);
    MulSwap(r0, b, k - 1);
    MulAssoc(r0, k - 1, b);
  }

  lemma {:induction false} MulAssoc(x: int, y: int, z: int)
    ensures x * (y * z) == (x * y) * z
  {
  }

  lemma {:induction false} MulSwap(x: int, y: int, z: int)
    ensures (x * y) * z == (x * z) * y
  {
    MulAssoc(x, y, z);
    MulAssoc(x, z, y);
    assert y * z == z * y;
  }

  lemma {:induction false} MulLeq(x: int, y: int, z: nat)
    requires x <= y
    ensures x * z <= y * z
  {
  }

  /** The number of picks against any cover: all picks but the last leave something uncovered. */
  lemma {:induction false} PickCount(nb: Neighbors, rest: set<Addr>, picks: seq<Addr>, c: set<Addr>)
    requires Greedy(nb, rest, picks) && picks != [] && Covers(nb, rest, c)
    ensures c != {} && Pow(|c|, |picks| - 1) <= |rest| * Pow(|c| - 1, |picks| - 1)
  {
    var before, p := picks[..|picks| - 1], picks[|picks| - 1];
    LastPick(nb, rest, picks);
    CountBefore(nb, rest, before, p, c);
  }

  lemma {:induction false} CountBefore(nb: Neighbors, rest: set<Addr>, before: seq<Addr>, p: Addr, c: set<Addr>)
    requires Greedy(nb, rest, before) && Covers(nb, rest, c) && p in nb && Reach(nb, p, Rest(nb, rest, before)) > 0
    ensures c != {} && Pow(|c|, |before|) <= |rest| * Pow(|c| - 1, |before|)
  {
    var r := Rest(nb, rest, before);
    Reached(nb, p, r);
    GreedyBound(nb, rest, before, c);
    MulLeq(1, |r|, Pow(|c|, |before|));
  }

  lemma {:induction false} Reached(nb: Neighbors, p: Addr, rest: set<Addr>)
    requires p in nb && Reach(nb, p, rest) > 0
    ensures exists x :: x in rest
    ensures |rest| > 0
  {
    var x :| x in nb[p].n2 * rest;
  }

  // ----- the picks are determined

  /** The same neighbours, symmetric and otherwise, with the same two-hop neighbours; who is a relay does not matter. */
  ghost predicate SameReach(nb: Neighbors, now: Neighbors) {
    now.Keys == nb.Keys && N1(now) == N1(nb) && forall a <- nb :: now[a].n2 == nb[a].n2
  }

  lemma {:induction false} PickUnique(nb: Neighbors, now: Neighbors, rest: set<Addr>, p: Addr, q: Addr)
    requires SameReach(nb, now) && Foremost(nb, rest, p) && Foremost(now, rest, q)
    ensures p == q
  {
    assert Reach(nb, p, rest) == Reach(now, p, rest) && Reach(nb, q, rest) == Reach(now, q, rest);
  }

  lemma {:induction false} RestSame(nb: Neighbors, now: Neighbors, rest: set<Addr>, picks: seq<Addr>)
    requires SameReach(nb, now) && forall p <- picks :: p in nb
    ensures Rest(now, rest, picks) == Rest(nb, rest, picks)
  {
    forall x ensures x in Rest(now, rest, picks) <==> x in Rest(nb, rest, picks) {}
  }

  /** Two greedy runs make the same picks as long as both go on. */
  lemma {:induction false} PicksAgree(nb: Neighbors, now: Neighbors, rest: set<Addr>, ps: seq<Addr>, qs: seq<Addr>)
    requires SameReach(nb, now) && Greedy(nb, rest, ps) && Greedy(now, rest, qs) && |ps| == |qs|
    ensures ps == qs
  {
    if ps != [] {
      var n := |ps| - 1;
      LastPick(nb, rest, ps);
      LastPick(now, rest, qs);
      PicksAgree(nb, now, rest, ps[..n], qs[..n]);
      RestSame(nb, now, rest, ps[..n]);
      PickUnique(nb, now, Rest(nb, rest, ps[..n]), ps[n], qs[n]);
    }
  }

  lemma {:induction false} Shorter(nb: Neighbors, rest: set<Addr>, ps: seq<Addr>, n: nat)
    requires Greedy(nb, rest, ps) && n < |ps|
    ensures Greedy(nb, rest, ps[..n]) && (forall p <- ps[..n] :: p in nb) && Rest(nb, rest, ps[..n]) != {}
    decreases |ps|
  {
    LastPick(nb, rest, ps);
    var before := ps[..|ps| - 1];
    if n == |ps| - 1 {
      Reached(nb, ps[|ps| - 1], Rest(nb, rest, before));
    } else {
      Shorter(nb, rest, before, n);
      assert before[..n] == ps[..n];
    }
  }

  /** A run that leaves nothing uncovered is determined. */
  lemma {:induction false} SamePicks(nb: Neighbors, now: Neighbors, rest: set<Addr>, ps: seq<Addr>, qs: seq<Addr>)
    requires SameReach(nb, now) && Greedy(nb, rest, ps) && Greedy(now, rest, qs)
    requires Rest(nb, rest, ps) == {} && Rest(now, rest, qs) == {}
    ensures ps == qs
  {
    if |ps| < |qs| {
      Shorter(now, rest, qs, |ps|);
      PicksAgree(nb, now, rest, ps, qs[..|ps|]);
      RestSame(nb, now, rest, ps);
    } else if |qs| < |ps| {
      Shorter(nb, rest, ps, |qs|);
      PicksAgree(nb, now, rest, ps[..|qs|], qs);
      RestSame(nb, now, rest, qs);
    } else {
      PicksAgree(nb, now, rest, ps, qs);
    }
  }
}
