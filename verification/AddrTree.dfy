module AddrTree {
  type Addr = nat

  datatype Option<+T> = None | Some(value: T)

  lemma {:induction false} LeastExists(s: set<Addr>)
    requires s != {}
    ensures exists a :: a in s && forall b <- s :: a <= b
  {
    var x :| x in s;
    var m := LeastBelow(s, x);
  }

  lemma {:induction false} LeastBelow(s: set<Addr>, a: Addr) returns (m: Addr)
    requires a in s
    ensures m in s && forall b <- s :: m <= b
    decreases a
  {
    if b :| b in s && b < a {
      m := LeastBelow(s, b);
    } else {
      m := a;
    }
  }

  function Least(s: set<Addr>): (a: Addr)
    requires s != {}
    ensures a in s && forall b <- s :: a <= b
  {
    LeastExists(s);
    var a :| a in s && forall b <- s :: a <= b;
    a
  }

  /** The smallest key of a tree. */
  function First(s: set<Addr>): (r: Option<Addr>)
    ensures r.None? <==> s == {}
    ensures r.Some? ==> r.value in s && forall b <- s :: r.value <= b
  {
    if s == {} then None else Some(Least(s))
  }

  function Above(s: set<Addr>, a: Addr): set<Addr> { set b <- s | a < b }

  /** The key that follows `a` in a tree. */
  function Next(s: set<Addr>, a: Addr): (r: Option<Addr>)
    ensures r.None? ==> forall b <- s :: b <= a
    ensures r.Some? ==> r.value in s && a < r.value && forall b <- s :: a < b ==> r.value <= b
  {
    assert forall b <- s :: a < b ==> b in Above(s, a);
    if Above(s, a) == {} then None else Some(Least(Above(s, a)))
  }

  /** An iteration that stands at `it` has already visited `a`. */
  predicate Seen(it: Option<Addr>, a: Addr) { it.None? || a < it.value }

  ghost function Left(s: set<Addr>, it: Option<Addr>): set<Addr> {
    set a <- s | !Seen(it, a)
  }

  lemma {:induction false} Step(s: set<Addr>, a: Addr)
    requires a in s
    ensures Left(s, Next(s, a)) < Left(s, Some(a))
    ensures forall b <- s :: Seen(Next(s, a), b) <==> Seen(Some(a), b) || b == a
  {
    assert a in Left(s, Some(a)) && a !in Left(s, Next(s, a));
  }

  /** The addresses that occur in a list. */
  function Elements(list: seq<Addr>): set<Addr> { set a | a in list }

  lemma {:induction false} PrefixElements(list: seq<Addr>, i: nat)
    requires i < |list|
    ensures Elements(list[..i + 1]) == Elements(list[..i]) + {list[i]}
    ensures Elements(list[..|list|]) == Elements(list)
  {
    assert list[..i + 1] == list[..i] + [list[i]];
    assert list[..|list|] == list;
  }

  lemma {:induction false} SubsetSize(a: set<Addr>, b: set<Addr>)
    requires a <= b
    ensures |a| <= |b|
  {
    assert b == a + (b - a);
  }
}
