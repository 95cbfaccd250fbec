module RbOrder {
  import opened AddrTree
  import opened RbShape
  import opened Powers
  import TimerQueue

  // ----- the tree as an ordered set of keys

  ghost function Keys(s: seq<Entry>): set<int> { set i | 0 <= i < |s| :: s[i].key }

  /** The key at the rank of `k` tells whether `k` is in the tree. */
  lemma {:induction false} RankIs(s: seq<Entry>, k: int)
    requires Sorted(s)
    ensures var i := Rank(s, k);
            (forall j | 0 <= j < i :: s[j].key < k) && (forall j | i <= j < |s| :: k <= s[j].key)
    ensures k in Keys(s) <==> Rank(s, k) < |s| && s[Rank(s, k)].key == k
  {
    if s != [] && s[0].key < k {
      RankIs(s[1..], k);
      var i := Rank(s[1..], k);
      forall j | 0 <= j < |s| ensures j < i + 1 ==> s[j].key < k ensures j >= i + 1 ==> k <= s[j].key {
        assert j > 0 ==> s[j] == s[1..][j - 1];
      }
    } else {
      forall j | 0 <= j < |s| ensures k <= s[j].key {
        assert j > 0 ==> s[0].key < s[j].key;
      }
    }
  }

  /** Insertion at the rank adds exactly that key. */
  lemma {:induction false} InsertRefines(s: seq<Entry>, node: Ptr, k: int)
    requires Sorted(s)
    ensures var i := Rank(s, k); Keys(s[..i] + [Entry(node, k)] + s[i..]) == Keys(s) + {k}
  {
    var i := Rank(s, k);
    var t := s[..i] + [Entry(node, k)] + s[i..];
    forall x ensures x in Keys(t) <==> x in Keys(s) || x == k {
      if j :| 0 <= j < |s| && s[j].key == x {
        assert t[if j < i then j else j + 1] == s[j];
      }
      assert t[i].key == k;
      if j :| 0 <= j < |t| && t[j].key == x {
        assert j < i ==> t[j] == s[j];
        assert j > i ==> t[j] == s[j - 1];
      }
    }
  }

  lemma {:induction false} KeyLeft(s: seq<Entry>, i: nat, x: int)
    requires i < |s|
    ensures x in Keys(s[..i] + s[i + 1..]) <==> exists j :: 0 <= j < |s| && j != i && s[j].key == x
  {
    var t := s[..i] + s[i + 1..];
    if j :| 0 <= j < |s| && j != i && s[j].key == x {
      assert t[if j < i then j else j - 1] == s[j];
    }
    if j :| 0 <= j < |t| && t[j].key == x {
      assert t[j] == s[if j < i then j else j + 1];
    }
  }

  /** Removal at the rank removes exactly that key. */
  lemma {:induction false} DeleteRefines(s: seq<Entry>, k: int)
    requires Sorted(s) && Rank(s, k) < |s| && s[Rank(s, k)].key == k
    ensures var i := Rank(s, k); Keys(s[..i] + s[i + 1..]) == Keys(s) - {k}
  {
    var i := Rank(s, k);
    forall x ensures x in Keys(s[..i] + s[i + 1..]) <==> x in Keys(s) && x != k {
      KeyLeft(s, i, x);
      if j :| 0 <= j < |s| && j != i && s[j].key == x {
        assert s[j].key != s[i].key;
      }
    }
  }

  /** What a search for the greatest key not above `k` answers, without ranks. */
  lemma {:induction false} FloorIs(s: seq<Entry>, k: int)
    requires Sorted(s)
    ensures var i := Rank(s, k);
            && (k !in Keys(s) && i == 0 ==> forall x <- Keys(s) :: x > k)
            && (k !in Keys(s) && i > 0 ==> s[i - 1].key in Keys(s) && s[i - 1].key < k && forall x <- Keys(s) :: x <= k ==> x <= s[i - 1].key)
  {
    RankIs(s, k);
    var i := Rank(s, k);
    forall x <- Keys(s) ensures k !in Keys(s) && x <= k ==> i > 0 && x <= s[i - 1].key {
      var j :| 0 <= j < |s| && s[j].key == x;
    }
  }

  /** Stepping through the entries visits the key set in the order that the address trees of the router are iterated. */
  lemma {:induction false} IterationRefines(s: seq<Entry>, i: nat)
    requires Sorted(s) && i < |s| && forall j | 0 <= j < |s| :: s[j].key >= 0
    ensures var keys := Addresses(s);
            && First(keys) == Some(s[0].key)
            && Next(keys, s[i].key) == if i + 1 < |s| then Some(s[i + 1].key) else None
  {
    var keys := Addresses(s);
    assert s[0].key in keys && s[i].key in keys;
    assert i + 1 < |s| ==> s[i + 1].key in keys;
    forall a <- keys ensures s[0].key <= a && (a > s[i].key ==> i + 1 < |s| && s[i + 1].key <= a) {
      var j :| 0 <= j < |s| && s[j].key == a;
      if j > i + 1 { assert s[i + 1].key < s[j].key; }
    }
  }

  ghost function Addresses(s: seq<Entry>): set<Addr>
    requires forall j | 0 <= j < |s| :: s[j].key >= 0
  {
    set i | 0 <= i < |s| :: s[i].key as Addr
  }

  // ----- balance

  function Height(t: Tree): nat {
    match t
    case Leaf => 0
    case Node(l, _, _, _, r) => 1 + if Height(l) < Height(r) then Height(r) else Height(l)
  }

  lemma {:induction false} HeightBound(t: Tree, n: nat)
    requires RB(t, n)
    ensures Height(t) <= 2 * n + (if Col(t).Red? then 1 else 0)
    ensures Pow2(n) <= |Inorder(t)| + 1
  {
    match t
    case Leaf =>
    case Node(l, _, _, c, r) =>
      var m := if c.Red? then n else n - 1;
      HeightBound(l, m);
      HeightBound(r, m);
  }

  /** No path is longer than twice the logarithm of the number of nodes: `2^(h/2) <= count + 1`, rounding up. */
  lemma {:induction false} Balanced(t: Tree)
    requires RedBlack(t)
    ensures Pow2((Height(t) + 1) / 2) <= |Inorder(t)| + 1
  {
    HeightBound(t, BlackHeight(t));
    PowGrows((Height(t) + 1) / 2, BlackHeight(t));
  }

  // ----- any comparator

  /** What a comparator of a tree must be on the keys it meets. */
  ghost predicate Comparator<K(!new)>(s: set<K>, cmp: (K, K) -> int) {
    && (forall a, b | a in s && b in s :: cmp(a, b) == 0 <==> a == b)
    && (forall a, b | a in s && b in s :: cmp(a, b) < 0 <==> cmp(b, a) > 0)
    && (forall a, b, c | a in s && b in s && c in s && cmp(a, b) < 0 && cmp(b, c) < 0 :: cmp(a, c) < 0)
  }

  ghost function Smaller<K(!new)>(s: set<K>, cmp: (K, K) -> int, k: K): set<K> { set x | x in s && cmp(x, k) < 0 }

  /** The place of a key in the order of its set. */
  ghost function Position<K(!new)>(s: set<K>, cmp: (K, K) -> int, k: K): nat { |Smaller(s, cmp, k)| }

  /** A comparator gives the answers that integer comparison gives on the positions, so that a tree that looks at keys only
      through its comparator does on any keys what it does on integers. */
  lemma {:induction false} PositionKeeps<K(!new)>(s: set<K>, cmp: (K, K) -> int, a: K, b: K)
    requires Comparator(s, cmp) && a in s && b in s
    ensures cmp(a, b) < 0 <==> Position(s, cmp, a) < Position(s, cmp, b)
    ensures cmp(a, b) > 0 <==> Position(s, cmp, a) > Position(s, cmp, b)
    ensures a == b <==> Position(s, cmp, a) == Position(s, cmp, b)
  {
    if cmp(a, b) < 0 {
      PositionGrows(s, cmp, a, b);
    } else if cmp(b, a) < 0 {
      PositionGrows(s, cmp, b, a);
    }
  }

  lemma {:induction false} PositionGrows<K(!new)>(s: set<K>, cmp: (K, K) -> int, a: K, b: K)
    requires Comparator(s, cmp) && a in s && b in s && cmp(a, b) < 0
    ensures Position(s, cmp, a) < Position(s, cmp, b)
  {
    var u, v := Smaller(s, cmp, a), Smaller(s, cmp, b);
    assert u <= v && a in v && a !in u;
    LessSize(u, v);
  }

  lemma {:induction false} LessSize<K>(u: set<K>, v: set<K>)
    requires u < v
    ensures |u| < |v|
  {
    var x :| x in v && x !in u;
    if u == {} {
    } else {
      var y :| y in u;
      LessSize(u - {y}, v - {y});
    }
  }

  /** The keys of `all` that are in a tree with the entries `s`. */
  ghost function Held<K(!new)>(all: set<K>, cmp: (K, K) -> int, s: seq<Entry>): set<K> {
    set x | x in all && Position(all, cmp, x) in Keys(s)
  }

  /** What search, insertion and removal do, said of keys and their comparator. */
  lemma {:induction false} TreeUnder<K(!new)>(all: set<K>, cmp: (K, K) -> int, s: seq<Entry>, node: Ptr, k: K)
    requires Comparator(all, cmp) && Sorted(s) && k in all
    ensures var p := Position(all, cmp, k); var i := Rank(s, p);
            && (k in Held(all, cmp, s) <==> i < |s| && s[i].key == p)
            && Held(all, cmp, s[..i] + [Entry(node, p)] + s[i..]) == Held(all, cmp, s) + {k}
            && (k in Held(all, cmp, s) ==> Held(all, cmp, s[..i] + s[i + 1..]) == Held(all, cmp, s) - {k})
  {
    var p := Position(all, cmp, k);
    RankIs(s, p);
    InsertRefines(s, node, p);
    forall x | x in all ensures Position(all, cmp, x) == p <==> x == k { PositionKeeps(all, cmp, x, k); }
    if k in Held(all, cmp, s) { DeleteRefines(s, p); }
  }

  /** The greatest key not above `k`, said of keys and their comparator. */
  lemma {:induction false} FloorUnder<K(!new)>(all: set<K>, cmp: (K, K) -> int, s: seq<Entry>, k: K)
    requires Comparator(all, cmp) && Sorted(s) && k in all && k !in Held(all, cmp, s)
    ensures var i := Rank(s, Position(all, cmp, k));
            && (i == 0 ==> forall x <- Held(all, cmp, s) :: cmp(x, k) > 0)
            && (i > 0 ==> forall f <- all :: Position(all, cmp, f) == s[i - 1].key ==>
                  cmp(f, k) < 0 && forall x <- Held(all, cmp, s) :: cmp(x, k) < 0 ==> cmp(x, f) <= 0)
  {
    var p := Position(all, cmp, k);
    var i := Rank(s, p);
    FloorIs(s, p);
    forall x | x in all ensures cmp(x, k) < 0 <==> Position(all, cmp, x) < p { PositionKeeps(all, cmp, x, k); }
    forall x <- Held(all, cmp, s) ensures i == 0 ==> cmp(x, k) > 0 { PositionKeeps(all, cmp, x, k); }
    forall f, x | i > 0 && f in all && Position(all, cmp, f) == s[i - 1].key && x in Held(all, cmp, s) && cmp(x, k) < 0
      ensures cmp(x, f) <= 0
    {
      PositionKeeps(all, cmp, x, f);
    }
  }

  // ----- the comparison of addresses

  const WORD: int := 0x1_0000_0000

  type Uint32 = n: int | 0 <= n < WORD

  /** `n` modulo 2^32, read as a signed number. */
  function ToInt32(n: int): int {
    var d := n % WORD;
    if d < 0x8000_0000 then d else d - WORD
  }

  /** The difference of two addresses wraps around before its sign is looked at. */
  function CompareByInetaddr(a: Uint32, b: Uint32): int { ToInt32(a - b) }

  /** How far `x` lies above `base`, going round. */
  function Offset(base: Uint32, x: Uint32): Uint32 { (x - base) % WORD }

  /** All addresses lie in the half circle above `base`. */
  ghost predicate HalfCircle(s: set<Uint32>, base: Uint32) { forall x <- s :: Offset(base, x) < 0x8000_0000 }

  lemma {:induction false} CompareByOffset(base: Uint32, a: Uint32, b: Uint32)
    requires Offset(base, a) < 0x8000_0000 && Offset(base, b) < 0x8000_0000
    ensures CompareByInetaddr(a, b) == Offset(base, a) - Offset(base, b)
  {
  }

  lemma {:induction false} ZeroOnlyEqual(a: Uint32, b: Uint32)
    ensures CompareByInetaddr(a, b) == 0 <==> a == b
  {
  }

  /** The comparison of addresses is a comparator exactly on the sets that lie in some half circle. */
  lemma {:induction false} OrderIffHalfCircle(s: set<Uint32>)
    requires s != {}
    ensures Comparator(s, CompareByInetaddr) <==> exists base :: base in s && HalfCircle(s, base)
  {
    forall a, b | a in s && b in s ensures CompareByInetaddr(a, b) == 0 <==> a == b { ZeroOnlyEqual(a, b); }
    if base :| base in s && HalfCircle(s, base) {
      forall a, b | a in s && b in s ensures CompareByInetaddr(a, b) == Offset(base, a) - Offset(base, b) {
        CompareByOffset(base, a, b);
      }
    }
    if Comparator(s, CompareByInetaddr) {
      var m := Minimum(s);
      forall x <- s ensures Offset(m, x) < 0x8000_0000 {
        if x != m { assert CompareByInetaddr(x, m) > 0; }
      }
    }
  }

  /** A finite set on which the comparison is an order has a smallest element. */
  lemma {:induction false} Minimum(s: set<Uint32>) returns (m: Uint32)
    requires s != {} && Comparator(s, CompareByInetaddr)
    ensures m in s && forall x <- s :: x == m || CompareByInetaddr(m, x) < 0
    decreases |s|
  {
    var y :| y in s;
    if s == {y} {
      m := y;
    } else {
      var n := Minimum(s - {y});
      ZeroOnlyEqual(n, y);
      m := if CompareByInetaddr(n, y) < 0 then n else y;
    }
  }

  /** Addresses 192.168.id.1, with the first byte lowest in memory order, lie in a half circle, and on them the
      comparison is the order of the numbers. */
  lemma {:induction false} NodeAddresses(s: set<Uint32>, a: Uint32, b: Uint32)
    requires forall x <- s :: exists id: nat {:trigger NodeAddress(id)} :: id < 256 && x == NodeAddress(id)
    requires a in s && b in s
    ensures Comparator(s, CompareByInetaddr)
    ensures CompareByInetaddr(a, b) < 0 <==> a < b
  {
    forall x <- s ensures NodeAddress(0) <= x < NodeAddress(256) {}
    forall x, y | x in s && y in s ensures CompareByInetaddr(x, y) == x - y {}
  }

  function NodeAddress(id: nat): int { 192 + 168 * 0x100 + id * 0x1_0000 + 0x100_0000 }

  // ----- the comparison of duplicate set keys

  datatype DupKey = DupKey(orig: Uint32, seqno: int)

  function CompareByDupkey(a: DupKey, b: DupKey): int {
    var addrdiff := (a.orig - b.orig) % WORD;
    if addrdiff != 0 then ToInt32(addrdiff) else a.seqno - b.seqno
  }

  /** Keys are ordered by originator, then sequence number; originators as addresses are. */
  lemma {:induction false} DupkeyOrder(a: DupKey, b: DupKey)
    ensures CompareByDupkey(a, b) < 0 <==>
              CompareByInetaddr(a.orig, b.orig) < 0 || (a.orig == b.orig && a.seqno < b.seqno)
    ensures CompareByDupkey(a, b) == 0 <==> a == b
  {
  }

  lemma {:induction false} DupkeyComparator(s: set<DupKey>)
    requires Comparator(set k | k in s :: k.orig, CompareByInetaddr)
    ensures Comparator(s, CompareByDupkey)
  {
    forall a, b | a in s && b in s
      ensures CompareByDupkey(a, b) == 0 <==> a == b
      ensures CompareByDupkey(a, b) < 0 <==> CompareByDupkey(b, a) > 0
    {
      DupkeyOrder(a, b);
      DupkeyOrder(b, a);
      ZeroOnlyEqual(a.orig, b.orig);
    }
    forall a, b, c | a in s && b in s && c in s && CompareByDupkey(a, b) < 0 && CompareByDupkey(b, c) < 0
      ensures CompareByDupkey(a, c) < 0
    {
      DupkeyOrder(a, b);
      DupkeyOrder(b, c);
      DupkeyOrder(a, c);
    }
  }

  lemma {:induction false} TimerComparator(s: set<TimerQueue.TqKey>)
    ensures Comparator(s, TimerQueue.CompareElem)
  {
    forall a, b, c
      ensures TimerQueue.CompareElem(a, b) == 0 <==> a == b
      ensures TimerQueue.CompareElem(a, b) < 0 <==> TimerQueue.CompareElem(b, a) > 0
      ensures TimerQueue.CompareElem(a, b) < 0 && TimerQueue.CompareElem(b, c) < 0 ==> TimerQueue.CompareElem(a, c) < 0
    {
      TimerQueue.CompareIsOrder(a, b, c);
    }
  }
}
