module RbShape {
  import AddrTree


  datatype Color = Black | Red

  type Ptr = nat
  const NIL: Ptr := 0

  datatype Cell = Cell(parent: Ptr, left: Ptr, right: Ptr, key: int, color: Color)
  type Mem = m: seq<Cell> | |m| > 0 witness [Cell(0, 0, 0, 0, Black)]

  datatype Tree = Leaf | Node(left: Tree, node: Ptr, key: int, color: Color, right: Tree)

  datatype Dir = L | R

  datatype Ctx = Top | In(dir: Dir, node: Ptr, key: int, color: Color, sib: Tree, up: Ctx)

  datatype Entry = Entry(node: Ptr, key: int)

  function Mk(d: Dir, a: Tree, n: Ptr, k: int, c: Color, b: Tree): Tree {
    if d.L? then Node(a, n, k, c, b) else Node(b, n, k, c, a)
  }

  function MkCell(d: Dir, par: Ptr, a: Ptr, b: Ptr, k: int, c: Color): Cell {
    if d.L? then Cell(par, a, b, k, c) else Cell(par, b, a, k, c)
  }

  function Ptr0(t: Tree): Ptr { if t.Leaf? then NIL else t.node }

  function Parent(c: Ctx): Ptr { if c.Top? then NIL else c.node }

  function Fill(c: Ctx, t: Tree): Tree
    requires c.In?
  {
    Mk(c.dir, t, c.node, c.key, c.color, c.sib)
  }

  function Plug(c: Ctx, t: Tree): Tree
    decreases c
  {
    if c.Top? then t else Plug(c.up, Fill(c, t))
  }

  // ----- what memory holds

  ghost function Objs(t: Tree): set<Ptr> {
    match t
    case Leaf => {}
    case Node(l, n, _, _, r) => Objs(l) + {n} + Objs(r)
  }

  ghost function CtxObjs(c: Ctx): set<Ptr> {
    if c.Top? then {} else CtxObjs(c.up) + {c.node} + Objs(c.sib)
  }

  ghost predicate TreeDistinct(t: Tree) {
    match t
    case Leaf => true
    case Node(l, n, _, _, r) =>
      n !in Objs(l) && n !in Objs(r) && Objs(l) !! Objs(r) && TreeDistinct(l) && TreeDistinct(r)
  }

  ghost predicate CtxDistinct(c: Ctx) {
    c.In? ==>
      && c.node !in Objs(c.sib) && c.node !in CtxObjs(c.up) && Objs(c.sib) !! CtxObjs(c.up)
      && TreeDistinct(c.sib) && CtxDistinct(c.up)
  }

  ghost predicate Rep(h: Mem, t: Tree, par: Ptr) {
    match t
    case Leaf => true
    case Node(l, n, k, c, r) =>
      0 < n < |h| && h[n] == Cell(par, Ptr0(l), Ptr0(r), k, c) && Rep(h, l, n) && Rep(h, r, n)
  }

  ghost predicate CtxRep(h: Mem, c: Ctx, hole: Ptr, root: Ptr) {
    if c.Top? then root == hole else
      && 0 < c.node < |h|
      && h[c.node] == MkCell(c.dir, Parent(c.up), hole, Ptr0(c.sib), c.key, c.color)
      && Rep(h, c.sib, c.node) && CtxRep(h, c.up, c.node, root)
  }

  ghost function Inorder(t: Tree): seq<Entry> {
    match t
    case Leaf => []
    case Node(l, n, k, _, r) => Inorder(l) + [Entry(n, k)] + Inorder(r)
  }

  ghost function Before(c: Ctx): seq<Entry> {
    if c.Top? then [] else
    if c.dir.L? then Before(c.up) else Before(c.up) + Inorder(c.sib) + [Entry(c.node, c.key)]
  }

  ghost function After(c: Ctx): seq<Entry> {
    if c.Top? then [] else
    if c.dir.R? then After(c.up) else [Entry(c.node, c.key)] + Inorder(c.sib) + After(c.up)
  }

  const NilCell := Cell(NIL, NIL, NIL, 0, Black)

  /** Memory holds the tree `Plug(c, t)`, rooted at `root`, whose sorted entries are `s`. */
  ghost predicate Zip(h: Mem, root: Ptr, c: Ctx, t: Tree, s: seq<Entry>) {
    At(h, root, c, t) && Before(c) + Inorder(t) + After(c) == s
  }

  ghost predicate At(h: Mem, root: Ptr, c: Ctx, t: Tree) {
    && h[NIL] == NilCell
    && CtxDistinct(c) && TreeDistinct(t) && CtxObjs(c) !! Objs(t)
    && CtxRep(h, c, Ptr0(t), root) && Rep(h, t, Parent(c))
  }

  lemma {:induction false} MkFacts(h: Mem, d: Dir, a: Tree, n: Ptr, k: int, c: Color, b: Tree, par: Ptr)
    ensures var t := Mk(d, a, n, k, c, b);
            && Ptr0(t) == n && Objs(t) == Objs(a) + {n} + Objs(b)
            && (TreeDistinct(t) <==>
                n !in Objs(a) && n !in Objs(b) && Objs(a) !! Objs(b) && TreeDistinct(a) && TreeDistinct(b))
            && (Rep(h, t, par) <==>
                0 < n < |h| && h[n] == MkCell(d, par, Ptr0(a), Ptr0(b), k, c) && Rep(h, a, n) && Rep(h, b, n))
  {
  }

  ghost function Nodes(s: seq<Entry>): set<Ptr> {
    set i | 0 <= i < |s| :: s[i].node
  }

  ghost predicate SameKeys(h: Mem, h': Mem) {
    |h'| == |h| && forall o | 0 <= o < |h| :: h'[o].key == h[o].key
  }

  /** A step touched only cells of `s`, and no key. */
  ghost predicate Frame(h: Mem, h': Mem, s: seq<Entry>) {
    SameKeys(h, h') && forall o | 0 <= o < |h| && o !in Nodes(s) :: h'[o] == h[o]
  }

  lemma {:induction false} RepFrame(h: Mem, h': Mem, t: Tree, par: Ptr)
    requires Rep(h, t, par) && |h| == |h'|
    requires forall o <- Objs(t) :: o < |h| ==> h[o] == h'[o]
    ensures Rep(h', t, par)
  {
    match t
    case Leaf =>
    case Node(l, n, _, _, r) =>
      RepFrame(h, h', l, n);
      RepFrame(h, h', r, n);
  }

  lemma {:induction false} CtxFrame(h: Mem, h': Mem, c: Ctx, hole: Ptr, root: Ptr)
    requires CtxRep(h, c, hole, root) && |h| == |h'|
    requires forall o <- CtxObjs(c) :: o < |h| ==> h[o] == h'[o]
    ensures CtxRep(h', c, hole, root)
  {
    if c.In? {
      RepFrame(h, h', c.sib, c.node);
      CtxFrame(h, h', c.up, c.node, root);
    }
  }

  lemma {:induction false} RepNonNil(h: Mem, t: Tree, par: Ptr)
    requires Rep(h, t, par)
    ensures NIL !in Objs(t) && forall o <- Objs(t) :: o < |h|
  {
    match t
    case Leaf =>
    case Node(l, n, _, _, r) =>
      RepNonNil(h, l, n);
      RepNonNil(h, r, n);
  }

  lemma {:induction false} CtxNonNil(h: Mem, c: Ctx, hole: Ptr, root: Ptr)
    requires CtxRep(h, c, hole, root)
    ensures NIL !in CtxObjs(c) && forall o <- CtxObjs(c) :: o < |h|
  {
    if c.In? {
      RepNonNil(h, c.sib, c.node);
      CtxNonNil(h, c.up, c.node, root);
    }
  }

  lemma {:induction false} InorderNodes(t: Tree)
    ensures Nodes(Inorder(t)) == Objs(t)
  {
    match t
    case Leaf =>
    case Node(l, n, k, _, r) =>
      InorderNodes(l);
      InorderNodes(r);
      NodesConcat(Inorder(l), [Entry(n, k)] + Inorder(r));
      NodesConcat([Entry(n, k)], Inorder(r));
      assert Inorder(t) == Inorder(l) + ([Entry(n, k)] + Inorder(r));
      NodesOne(Entry(n, k));
  }

  lemma {:induction false} NodesOne(e: Entry)
    ensures Nodes([e]) == {e.node}
  {
    assert [e][0].node == e.node;
  }

  lemma {:induction false} NodesConcat(a: seq<Entry>, b: seq<Entry>)
    ensures Nodes(a + b) == Nodes(a) + Nodes(b)
  {
    forall o | o in Nodes(a) + Nodes(b) ensures o in Nodes(a + b) {
      if o in Nodes(a) {
        var i :| 0 <= i < |a| && a[i].node == o;
        assert (a + b)[i].node == o;
      } else {
        var i :| 0 <= i < |b| && b[i].node == o;
        assert (a + b)[|a| + i].node == o;
      }
    }
  }

  lemma {:induction false} CtxNodes(c: Ctx)
    ensures Nodes(Before(c)) + Nodes(After(c)) == CtxObjs(c)
  {
    if c.In? {
      CtxNodes(c.up);
      InorderNodes(c.sib);
      var e := Entry(c.node, c.key);
      NodesOne(e);
      if c.dir.L? {
        NodesConcat([e], Inorder(c.sib));
        NodesConcat([e] + Inorder(c.sib), After(c.up));
      } else {
        NodesConcat(Before(c.up), Inorder(c.sib));
        NodesConcat(Before(c.up) + Inorder(c.sib), [e]);
      }
    }
  }

  lemma {:induction false} AllNodes(c: Ctx, t: Tree)
    ensures Nodes(Before(c) + Inorder(t) + After(c)) == CtxObjs(c) + Objs(t)
  {
    CtxNodes(c);
    InorderNodes(t);
    NodesConcat(Before(c), Inorder(t));
    NodesConcat(Before(c) + Inorder(t), After(c));
  }

  /** The cells of a zipper are those of its entries. */
  lemma {:induction false} ZipNodes(h: Mem, root: Ptr, c: Ctx, t: Tree, s: seq<Entry>)
    requires Zip(h, root, c, t, s)
    ensures Nodes(s) == CtxObjs(c) + Objs(t)
    ensures NIL !in Nodes(s) && forall o <- Nodes(s) :: o < |h|
  {
    AllNodes(c, t);
    CtxNonNil(h, c, Ptr0(t), root);
    RepNonNil(h, t, Parent(c));
  }

  // ----- moving the focus

  lemma {:induction false} FillOrder(d: Dir, a: Tree, n: Ptr, k: int, col: Color, b: Tree, up: Ctx)
    ensures var c := In(d, n, k, col, b, up);
            Before(c) + Inorder(a) + After(c) == Before(up) + Inorder(Mk(d, a, n, k, col, b)) + After(up)
  {
    var e := [Entry(n, k)];
    if d.L? {
      Join5(Before(up), Inorder(a), e, Inorder(b), After(up));
    } else {
      Join5(Before(up), Inorder(b), e, Inorder(a), After(up));
    }
  }

  lemma Join5(p: seq<Entry>, a: seq<Entry>, e: seq<Entry>, b: seq<Entry>, q: seq<Entry>)
    ensures p + a + (e + b + q) == p + (a + e + b) + q
    ensures p + a + e + b + q == p + (a + e + b) + q
  {
  }

  lemma {:induction false} Ascend(h: Mem, root: Ptr, c: Ctx, t: Tree, s: seq<Entry>)
    requires Zip(h, root, c, t, s) && c.In?
    ensures Zip(h, root, c.up, Fill(c, t), s)
  {
    FillOrder(c.dir, t, c.node, c.key, c.color, c.sib, c.up);
    MkFacts(h, c.dir, t, c.node, c.key, c.color, c.sib, Parent(c.up));
  }

  lemma {:induction false} Descend(h: Mem, root: Ptr, c: Ctx, d: Dir, a: Tree, n: Ptr, k: int, col: Color, b: Tree, s: seq<Entry>)
    requires Zip(h, root, c, Mk(d, a, n, k, col, b), s)
    ensures Zip(h, root, In(d, n, k, col, b, c), a, s)
  {
    FillOrder(d, a, n, k, col, b, c);
    MkFacts(h, d, a, n, k, col, b, Parent(c));
  }

  lemma {:induction false} Close(h: Mem, root: Ptr, c: Ctx, t: Tree, s: seq<Entry>)
    requires Zip(h, root, c, t, s)
    ensures Zip(h, root, Top, Plug(c, t), s)
    decreases c
  {
    if c.In? {
      Ascend(h, root, c, t, s);
      Close(h, root, c.up, Fill(c, t), s);
    }
  }

  // ----- the two local changes to memory

  /** The link from above into the focus, redirected. */
  lemma {:induction false} Relink(h: Mem, h': Mem, c: Ctx, p: Ptr, p': Ptr, root: Ptr, root': Ptr)
    requires CtxRep(h, c, p, root) && CtxDistinct(c) && |h| == |h'|
    requires forall o <- CtxObjs(c) :: o < |h| && (c.Top? || o != c.node) ==> h[o] == h'[o]
    requires c.Top? ==> root' == p'
    requires c.In? ==> root' == root
                       && h'[c.node] == MkCell(c.dir, Parent(c.up), p', Ptr0(c.sib), c.key, c.color)
    ensures CtxRep(h', c, p', root')
  {
    if c.In? {
      RepFrame(h, h', c.sib, c.node);
      CtxFrame(h, h', c.up, c.node, root);
    }
  }

  /** The cells a rotation reads and writes. */
  lemma {:induction false} RotFacts(h: Mem, root: Ptr, c: Ctx, d: Dir, a: Tree, x: Ptr, xk: int, xc: Color,
                 b: Tree, y: Ptr, yk: int, yc: Color, e: Tree, s: seq<Entry>)
    requires Zip(h, root, c, Mk(d, a, x, xk, xc, Mk(d, b, y, yk, yc, e)), s)
    ensures 0 < x < |h| && h[x] == MkCell(d, Parent(c), Ptr0(a), y, xk, xc)
    ensures 0 < y < |h| && h[y] == MkCell(d, x, Ptr0(b), Ptr0(e), yk, yc)
    ensures x != y && y in Nodes(s) && x in Nodes(s)
    ensures b.Node? ==> 0 < b.node < |h| && b.node != x && b.node != y && b.node in Nodes(s)
                        && h[b.node] == Cell(y, Ptr0(b.left), Ptr0(b.right), b.key, b.color)
    ensures c.In? ==> 0 < c.node < |h| && c.node != x && c.node != y && (b.Node? ==> c.node != b.node)
                      && h[c.node] == MkCell(c.dir, Parent(c.up), x, Ptr0(c.sib), c.key, c.color)
                      && Ptr0(c.sib) != x && c.node in Nodes(s)
  {
    var ty := Mk(d, b, y, yk, yc, e);
    ZipNodes(h, root, c, Mk(d, a, x, xk, xc, ty), s);
    MkFacts(h, d, a, x, xk, xc, ty, Parent(c));
    MkFacts(h, d, b, y, yk, yc, e, x);
    assert b.Node? ==> b.node in Objs(b) && Rep(h, b, y);
    assert c.In? && c.sib.Node? ==> c.sib.node in Objs(c.sib);
    assert c.In? ==> c.node in CtxObjs(c);
  }

  lemma {:induction false} RotInorder(d: Dir, a: Tree, x: Ptr, xk: int, xc: Color, b: Tree, y: Ptr, yk: int, yc: Color, e: Tree)
    ensures Inorder(Mk(d, Mk(d, a, x, xk, xc, b), y, yk, yc, e)) == Inorder(Mk(d, a, x, xk, xc, Mk(d, b, y, yk, yc, e)))
  {
    if d.L? {
      assert Inorder(a) + [Entry(x, xk)] + Inorder(b) + [Entry(y, yk)] + Inorder(e)
          == Inorder(a) + [Entry(x, xk)] + (Inorder(b) + [Entry(y, yk)] + Inorder(e));
    } else {
      assert Inorder(e) + [Entry(y, yk)] + Inorder(b) + [Entry(x, xk)] + Inorder(a)
          == Inorder(e) + [Entry(y, yk)] + (Inorder(b) + [Entry(x, xk)] + Inorder(a));
    }
  }

  /** Subtrees whose cells stay, but for the parent of one root, are still in memory. */
  lemma {:induction false} Reparent(h: Mem, h': Mem, b: Tree, par: Ptr, par': Ptr)
    requires Rep(h, b, par) && TreeDistinct(b) && |h| == |h'|
    requires b.Node? ==> h'[b.node] == h[b.node].(parent := par')
    requires forall o <- Objs(b) :: o < |h| && o != b.node ==> h'[o] == h[o]
    ensures Rep(h', b, par')
  {
    if b.Node? {
      RepFrame(h, h', b.left, b.node);
      RepFrame(h, h', b.right, b.node);
    }
  }

  ghost predicate Apart(c: Ctx, a: Tree, x: Ptr, b: Tree, y: Ptr, e: Tree) {
    && Objs(a) !! Objs(b) && Objs(a) !! Objs(e) && Objs(b) !! Objs(e) && x != y
    && x !in Objs(a) + Objs(b) + Objs(e) && y !in Objs(a) + Objs(b) + Objs(e)
    && CtxObjs(c) !! Objs(a) + Objs(b) + Objs(e) && x !in CtxObjs(c) && y !in CtxObjs(c)
    && TreeDistinct(a) && TreeDistinct(b) && TreeDistinct(e)
  }

  lemma {:induction false} RotTake(h: Mem, c: Ctx, d: Dir, a: Tree, x: Ptr, xk: int, xc: Color,
                b: Tree, y: Ptr, yk: int, yc: Color, e: Tree)
    requires var t := Mk(d, a, x, xk, xc, Mk(d, b, y, yk, yc, e));
             TreeDistinct(t) && CtxObjs(c) !! Objs(t) && Rep(h, t, Parent(c))
    ensures Apart(c, a, x, b, y, e) && Rep(h, a, x) && Rep(h, b, y) && Rep(h, e, y)
  {
    MkFacts(h, d, a, x, xk, xc, Mk(d, b, y, yk, yc, e), Parent(c));
    MkFacts(h, d, b, y, yk, yc, e, x);
  }

  lemma {:induction false} RotMake(h: Mem, c: Ctx, d: Dir, a: Tree, x: Ptr, xk: int, xc: Color,
                b: Tree, y: Ptr, yk: int, yc: Color, e: Tree)
    requires Apart(c, a, x, b, y, e) && Rep(h, a, x) && Rep(h, b, x) && Rep(h, e, y)
    requires 0 < x < |h| && h[x] == MkCell(d, y, Ptr0(a), Ptr0(b), xk, xc)
    requires 0 < y < |h| && h[y] == MkCell(d, Parent(c), x, Ptr0(e), yk, yc)
    ensures var t := Mk(d, Mk(d, a, x, xk, xc, b), y, yk, yc, e);
            Ptr0(t) == y && TreeDistinct(t) && CtxObjs(c) !! Objs(t) && Rep(h, t, Parent(c))
  {
    MkFacts(h, d, a, x, xk, xc, b, y);
    MkFacts(h, d, Mk(d, a, x, xk, xc, b), y, yk, yc, e, Parent(c));
  }

  /** The parts of a rotated tree survive the change of cells. */
  lemma {:induction false} RotParts(h: Mem, h': Mem, root: Ptr, root': Ptr, c: Ctx, a: Tree, x: Ptr, b: Tree, y: Ptr, e: Tree)
    requires Apart(c, a, x, b, y, e) && Rep(h, a, x) && Rep(h, b, y) && Rep(h, e, y)
    requires CtxRep(h, c, x, root) && CtxDistinct(c) && |h'| == |h|
    requires b.Node? ==> h'[b.node] == h[b.node].(parent := x)
    requires c.Top? ==> root' == y
    requires c.In? ==> root' == root && c.node < |h|
                       && h'[c.node] == MkCell(c.dir, Parent(c.up), y, Ptr0(c.sib), c.key, c.color)
    requires forall o | 0 <= o < |h| && o != x && o != y && (b.Leaf? || o != b.node) && (c.Top? || o != c.node) ::
               h'[o] == h[o]
    ensures Rep(h', a, x) && Rep(h', b, x) && Rep(h', e, y) && CtxRep(h', c, y, root')
  {
    assert c.In? ==> c.node in CtxObjs(c);
    assert b.Node? ==> b.node in Objs(b);
    RepFrame(h, h', a, x);
    RepFrame(h, h', e, y);
    Reparent(h, h', b, y, x);
    Relink(h, h', c, x, y, root, root');
  }

  /** A rotation seen cell by cell is the rotation of the tree; the sorted entries stay. */
  lemma {:induction false} RotShape(h: Mem, h': Mem, root: Ptr, root': Ptr, c: Ctx, d: Dir, a: Tree, x: Ptr, xk: int, xc: Color,
                 b: Tree, y: Ptr, yk: int, yc: Color, e: Tree, s: seq<Entry>)
    requires Zip(h, root, c, Mk(d, a, x, xk, xc, Mk(d, b, y, yk, yc, e)), s)
    requires |h'| == |h| && x < |h| && y < |h|
    requires h'[x] == MkCell(d, y, Ptr0(a), Ptr0(b), xk, xc)
    requires h'[y] == MkCell(d, Parent(c), x, Ptr0(e), yk, yc)
    requires b.Node? ==> b.node < |h| && h'[b.node] == h[b.node].(parent := x)
    requires c.Top? ==> root' == y
    requires c.In? ==> root' == root && c.node < |h|
                       && h'[c.node] == MkCell(c.dir, Parent(c.up), y, Ptr0(c.sib), c.key, c.color)
    requires forall o | 0 <= o < |h| && o != x && o != y && (b.Leaf? || o != b.node) && (c.Top? || o != c.node) ::
               h'[o] == h[o]
    ensures Zip(h', root', c, Mk(d, Mk(d, a, x, xk, xc, b), y, yk, yc, e), s)
  {
    RotInorder(d, a, x, xk, xc, b, y, yk, yc, e);
    RotFacts(h, root, c, d, a, x, xk, xc, b, y, yk, yc, e, s);
    RotTake(h, c, d, a, x, xk, xc, b, y, yk, yc, e);
    RotParts(h, h', root, root', c, a, x, b, y, e);
    RotMake(h', c, d, a, x, xk, xc, b, y, yk, yc, e);
  }

  /** The child of `t` on side `d`. */
  function Kid(d: Dir, t: Tree): Tree
    requires t.Node?
  {
    if d.L? then t.left else t.right
  }

  /** `t` turned towards side `d`: the child on the other side becomes the root. */
  function Rotated(d: Dir, t: Tree): Tree
    requires t.Node? && Kid(Other(d), t).Node?
  {
    var y := Kid(Other(d), t);
    Mk(d, Mk(d, Kid(d, t), t.node, t.key, t.color, Kid(d, y)), y.node, y.key, y.color, Kid(Other(d), y))
  }

  lemma {:induction false} RotBefore(h: Mem, root: Ptr, c: Ctx, d: Dir, t: Tree, s: seq<Entry>)
    requires Zip(h, root, c, t, s) && t.Node? && Kid(Other(d), t).Node?
    ensures var x, y, b := t.node, Kid(Other(d), t).node, Kid(d, Kid(Other(d), t));
            && 0 < x < |h| && h[x] == MkCell(d, Parent(c), Ptr0(Kid(d, t)), y, t.key, t.color)
            && 0 < y < |h| && h[y] == MkCell(d, x, Ptr0(b), Ptr0(Kid(Other(d), Kid(Other(d), t))), Kid(Other(d), t).key, Kid(Other(d), t).color)
            && x != y
            && (b.Node? ==> 0 < b.node < |h| && b.node != x && b.node != y)
            && (c.In? ==> 0 < c.node < |h| && c.node != x && c.node != y && (b.Node? ==> c.node != b.node)
                          && h[c.node] == MkCell(c.dir, Parent(c.up), x, Ptr0(c.sib), c.key, c.color) && Ptr0(c.sib) != x)
  {
    var y := Kid(Other(d), t);
    RotFacts(h, root, c, d, Kid(d, t), t.node, t.key, t.color, Kid(d, y), y.node, y.key, y.color, Kid(Other(d), y), s);
  }

  lemma {:induction false} RotAfter(h: Mem, h': Mem, root: Ptr, root': Ptr, c: Ctx, d: Dir, t: Tree, s: seq<Entry>)
    requires Zip(h, root, c, t, s) && t.Node? && Kid(Other(d), t).Node? && |h'| == |h|
    requires var x, ty := t.node, Kid(Other(d), t); var y, b := ty.node, Kid(d, ty);
             && x < |h| && y < |h|
             && h'[x] == MkCell(d, y, Ptr0(Kid(d, t)), Ptr0(b), t.key, t.color)
             && h'[y] == MkCell(d, Parent(c), x, Ptr0(Kid(Other(d), ty)), ty.key, ty.color)
             && (b.Node? ==> b.node < |h| && h'[b.node] == h[b.node].(parent := x))
             && (c.Top? ==> root' == y)
             && (c.In? ==> root' == root && c.node < |h|
                           && h'[c.node] == MkCell(c.dir, Parent(c.up), y, Ptr0(c.sib), c.key, c.color))
             && forall o | 0 <= o < |h| && o != x && o != y && (b.Leaf? || o != b.node) && (c.Top? || o != c.node) ::
                  h'[o] == h[o]
    ensures Zip(h', root', c, Rotated(d, t), s) && Frame(h, h', s)
  {
    var y := Kid(Other(d), t);
    RotFacts(h, root, c, d, Kid(d, t), t.node, t.key, t.color, Kid(d, y), y.node, y.key, y.color, Kid(Other(d), y), s);
    RotShape(h, h', root, root', c, d, Kid(d, t), t.node, t.key, t.color, Kid(d, y), y.node, y.key, y.color, Kid(Other(d), y), s);
  }

  lemma {:induction false} PaintShape(h: Mem, root: Ptr, c: Ctx, t: Tree, col: Color, s: seq<Entry>)
    requires Zip(h, root, c, t, s) && t.Node?
    ensures 0 < t.node < |h| && t.node in Nodes(s)
    ensures Zip(h[t.node := h[t.node].(color := col)], root, c, t.(color := col), s)
  {
    var h' := h[t.node := h[t.node].(color := col)];
    ZipNodes(h, root, c, t, s);
    RepFrame(h, h', t.left, t.node);
    RepFrame(h, h', t.right, t.node);
    CtxFrame(h, h', c, t.node, root);
    assert Inorder(t.(color := col)) == Inorder(t);
  }

  // ----- colours

  function Col(t: Tree): Color { if t.Leaf? then Black else t.color }

  function Other(d: Dir): Dir { if d.L? then R else L }

  /** `t` has no red node with a red child, and `n` black nodes on every path. */
  ghost predicate RB(t: Tree, n: nat) {
    match t
    case Leaf => n == 0
    case Node(l, _, _, c, r) =>
      if c.Red? then Col(l).Black? && Col(r).Black? && RB(l, n) && RB(r, n)
      else n > 0 && RB(l, n - 1) && RB(r, n - 1)
  }

  /** Filling the hole of `c` with a tree of black height `n` keeps every rule, but for a red pair at the hole. */
  ghost predicate CtxOk(c: Ctx, n: nat) {
    c.In? ==>
      && RB(c.sib, n)
      && if c.color.Red? then Col(c.sib).Black? && c.up.In? && c.up.color.Black? && CtxOk(c.up, n)
         else CtxOk(c.up, n + 1)
  }

  /** The hole of `c` may hold a red root. */
  predicate Admits(c: Ctx, col: Color) {
    col.Black? || (c.In? && c.color.Black?)
  }

  ghost function BlackHeight(t: Tree): nat {
    match t
    case Leaf => 0
    case Node(l, _, _, c, _) => BlackHeight(l) + if c.Black? then 1 else 0
  }

  /** Black root, no red pair, equal black heights. */
  ghost predicate RedBlack(t: Tree) {
    Col(t).Black? && RB(t, BlackHeight(t))
  }

  lemma {:induction false} HeightOf(t: Tree, n: nat)
    requires RB(t, n)
    ensures n == BlackHeight(t)
  {
    if t.Node? {
      HeightOf(t.left, if t.color.Red? then n else n - 1);
    }
  }

  lemma {:induction false} CloseColors(c: Ctx, t: Tree, n: nat)
    requires CtxOk(c, n) && RB(t, n) && Admits(c, Col(t))
    ensures RedBlack(Plug(c, t))
    decreases c
  {
    if c.In? {
      CloseColors(c.up, Fill(c, t), if c.color.Red? then n else n + 1);
    } else {
      HeightOf(t, n);
    }
  }

  /** Blackening the root of the finished tree restores every rule. */
  lemma {:induction false} PlugColors(c: Ctx, t: Tree, n: nat)
    requires CtxOk(c, n) && RB(t, n) && t.Node? && (c.In? ==> Admits(c, Col(t)))
    ensures Plug(c, t).Node? && RedBlack(Plug(c, t).(color := Black))
  {
    PlugNode(c, t);
    if c.In? {
      CloseColors(c, t, n);
    } else {
      HeightOf(t.(color := Black), if t.color.Red? then n + 1 else n);
    }
  }

  lemma {:induction false} PlugNode(c: Ctx, t: Tree)
    requires t.Node?
    ensures Plug(c, t).Node?
    decreases c
  {
    if c.In? {
      PlugNode(c.up, Fill(c, t));
    }
  }

  function Depth(c: Ctx): nat {
    if c.Top? then 0 else 1 + Depth(c.up)
  }

  // ----- the insertion's repairs

  function SetParent(h: Mem, p: Ptr, v: Ptr): Mem requires p < |h| { h[p := h[p].(parent := v)] }
  function SetLeft(h: Mem, p: Ptr, v: Ptr): Mem requires p < |h| { h[p := h[p].(left := v)] }
  function SetRight(h: Mem, p: Ptr, v: Ptr): Mem requires p < |h| { h[p := h[p].(right := v)] }
  function SetColor(h: Mem, p: Ptr, v: Color): Mem requires p < |h| { h[p := h[p].(color := v)] }

  lemma {:induction false} RootInCtx(h: Mem, c: Ctx, hole: Ptr, root: Ptr)
    requires CtxRep(h, c, hole, root) && c.In?
    ensures root in CtxObjs(c)
  {
    if c.up.In? {
      RootInCtx(h, c.up, c.node, root);
    }
  }

  /** The cells at and above the focus. */
  lemma {:induction false} FocusFacts(h: Mem, root: Ptr, c: Ctx, t: Tree, s: seq<Entry>)
    requires Zip(h, root, c, t, s)
    ensures t.Node? ==> 0 < t.node < |h| && t.node in Nodes(s)
                        && h[t.node] == Cell(Parent(c), Ptr0(t.left), Ptr0(t.right), t.key, t.color)
                        && (c.Top? <==> root == t.node)
    ensures c.In? ==> 0 < c.node < |h| && c.node in Nodes(s)
                      && h[c.node] == MkCell(c.dir, Parent(c.up), Ptr0(t), Ptr0(c.sib), c.key, c.color)
                      && (t.Node? || c.sib.Node? ==> Ptr0(c.sib) != Ptr0(t))
    ensures c.In? && c.sib.Node? ==>
              0 < c.sib.node < |h| && c.sib.node in Nodes(s)
              && h[c.sib.node] == Cell(c.node, Ptr0(c.sib.left), Ptr0(c.sib.right), c.sib.key, c.sib.color)
  {
    ZipNodes(h, root, c, t, s);
    assert t.Node? ==> t.node in Objs(t);
    if c.In? {
      RootInCtx(h, c, Ptr0(t), root);
      assert c.node in CtxObjs(c);
      assert c.sib.Node? ==> c.sib.node in Objs(c.sib);
    }
  }

  /** What tells a left parent from a right one: the grandparent's links differ. */
  lemma {:induction false} GrandFacts(h: Mem, root: Ptr, c: Ctx, t: Tree, s: seq<Entry>)
    requires Zip(h, root, c, t, s) && t.Node? && c.In? && c.up.In?
    ensures t.node < |h| && h[t.node].parent == c.node < |h| && h[c.node].parent == c.up.node < |h|
    ensures h[c.up.node].left == c.node <==> c.up.dir.L?
  {
    FocusFacts(h, root, c, t, s);
    Ascend(h, root, c, t, s);
    FocusFacts(h, root, c.up, Fill(c, t), s);
  }

  /** The loop guard of the insertion's repairs, read off the zipper. */
  lemma {:induction false} GuardFacts(h: Mem, root: Ptr, c: Ctx, t: Tree, s: seq<Entry>)
    requires Zip(h, root, c, t, s) && t.Node?
    ensures t.node < |h| && h[t.node].parent < |h|
    ensures t.node != root && h[h[t.node].parent].color == Red <==> c.In? && c.color.Red?
  {
    FocusFacts(h, root, c, t, s);
  }

  lemma {:induction false} MkFlip(d: Dir, a: Tree, n: Ptr, k: int, c: Color, b: Tree)
    ensures Mk(d, a, n, k, c, b) == Mk(Other(d), b, n, k, c, a)
  {
  }

  /** Parent and uncle black, grandparent red: one level of recolouring. */
  function Recoloured(c: Ctx, t: Tree): Tree
    requires c.In? && c.up.In? && c.up.sib.Node?
  {
    var g := c.up;
    Mk(g.dir, Mk(c.dir, t, c.node, c.key, Black, c.sib), g.node, g.key, Red, g.sib.(color := Black))
  }

  lemma {:induction false} RecolourShape(h: Mem, root: Ptr, c: Ctx, t: Tree, s: seq<Entry>)
    requires Zip(h, root, c, t, s) && c.In? && c.up.In? && c.up.sib.Node?
    ensures c.node < |h| && c.up.node < |h| && c.up.sib.node < |h|
    ensures Zip(SetColor(SetColor(SetColor(h, c.node, Black), c.up.sib.node, Black), c.up.node, Red),
                root, c.up.up, Recoloured(c, t), s)
    ensures {c.node, c.up.node, c.up.sib.node} <= Nodes(s)
  {
    var g := c.up;
    Ascend(h, root, c, t, s);
    var p := Fill(c, t);
    PaintShape(h, root, g, p, Black, s);
    var h1, p1 := SetColor(h, c.node, Black), p.(color := Black);
    Ascend(h1, root, g, p1, s);
    MkFlip(g.dir, p1, g.node, g.key, g.color, g.sib);
    Descend(h1, root, g.up, Other(g.dir), g.sib, g.node, g.key, g.color, p1, s);
    var cu := In(Other(g.dir), g.node, g.key, g.color, p1, g.up);
    PaintShape(h1, root, cu, g.sib, Black, s);
    var h2, u1 := SetColor(h1, g.sib.node, Black), g.sib.(color := Black);
    Ascend(h2, root, cu, u1, s);
    MkFlip(g.dir, p1, g.node, g.key, g.color, u1);
    PaintShape(h2, root, g.up, Fill(cu, u1), Red, s);
  }

  /** Parent black, grandparent red: the cells before the grandparent is turned. */
  lemma {:induction false} PairShape(h: Mem, root: Ptr, c: Ctx, t: Tree, s: seq<Entry>)
    requires Zip(h, root, c, t, s) && c.In? && c.up.In?
    ensures c.node < |h| && c.up.node < |h| && {c.node, c.up.node} <= Nodes(s)
    ensures Zip(SetColor(SetColor(h, c.node, Black), c.up.node, Red), root, c.up.up,
                Fill(c.up.(color := Red), Fill(c.(color := Black), t)), s)
  {
    Ascend(h, root, c, t, s);
    PaintShape(h, root, c.up, Fill(c, t), Black, s);
    var h1, p1 := SetColor(h, c.node, Black), Fill(c.(color := Black), t);
    Ascend(h1, root, c.up, p1, s);
    PaintShape(h1, root, c.up.up, Fill(c.up, p1), Red, s);
  }

  lemma {:induction false} RecolourColors(c: Ctx, t: Tree, n: nat)
    requires CtxOk(c, n) && RB(t, n) && c.In? && c.color.Red? && c.up.sib.Node? && c.up.sib.color.Red?
    ensures CtxOk(c.up.up, n + 1) && RB(Recoloured(c, t), n + 1)
  {
  }

  // ----- order

  ghost predicate Sorted(s: seq<Entry>) {
    forall i, j | 0 <= i < j < |s| :: s[i].key < s[j].key
  }

  ghost predicate AllBelow(s: seq<Entry>, k: int) {
    forall i | 0 <= i < |s| :: s[i].key < k
  }

  ghost predicate AllAbove(s: seq<Entry>, k: int) {
    forall i | 0 <= i < |s| :: k < s[i].key
  }

  /** How many keys of the sorted `s` are smaller than `k`. */
  ghost function Rank(s: seq<Entry>, k: int): (r: nat)
    ensures r <= |s|
  {
    if s == [] || s[0].key >= k then 0 else 1 + Rank(s[1..], k)
  }

  lemma {:induction false} RankSplit(a: seq<Entry>, b: seq<Entry>, k: int)
    requires AllBelow(a, k) && (b != [] ==> k <= b[0].key)
    ensures Rank(a + b, k) == |a|
  {
    if a == [] {
      assert a + b == b;
    } else {
      assert (a + b)[1..] == a[1..] + b;
      RankSplit(a[1..], b, k);
    }
  }

  /** Which side of a sorted sequence a comparison rules out. */
  lemma {:induction false} SortedCut(a: seq<Entry>, e: Entry, b: seq<Entry>, k: int)
    requires Sorted(a + [e] + b)
    ensures k < e.key ==> AllAbove([e] + b, k)
    ensures k > e.key ==> AllBelow(a + [e], k)
    ensures k == e.key ==> Rank(a + [e] + b, k) == |a|
  {
    var s := a + [e] + b;
    assert s[|a|] == e && forall i | 0 <= i < |a| :: s[i] == a[i];
    assert forall i | 0 <= i < |b| :: s[|a| + 1 + i] == b[i];
    if k == e.key {
      assert s == a + ([e] + b);
      RankSplit(a, [e] + b, k);
    }
  }

  lemma {:induction false} SortedAdd(a: seq<Entry>, e: Entry, b: seq<Entry>, s: seq<Entry>)
    requires Sorted(s) && s == a + [] + b && AllBelow(a, e.key) && AllAbove(b, e.key)
    ensures Sorted(a + [e] + b) && |a + [e] + b| == |s| + 1
  {
    forall i | 0 <= i < |b| ensures b[i] == s[|a| + i] {}
    forall i | 0 <= i < |a| ensures a[i] == s[i] {}
  }

  /** The state of a search for `k`: everything outside the focus is on its right side of `k`. */
  ghost predicate Seeking(h: Mem, root: Ptr, c: Ctx, t: Tree, s: seq<Entry>, k: int) {
    Zip(h, root, c, t, s) && Sorted(s) && AllBelow(Before(c), k) && AllAbove(After(c), k)
  }

  lemma {:induction false} SeekStep(h: Mem, root: Ptr, c: Ctx, t: Tree, s: seq<Entry>, k: int)
    requires Seeking(h, root, c, t, s, k) && t.Node?
    ensures 0 < t.node < |h| && h[t.node] == Cell(Parent(c), Ptr0(t.left), Ptr0(t.right), t.key, t.color)
    ensures k < t.key ==> Seeking(h, root, In(L, t.node, t.key, t.color, t.right, c), t.left, s, k)
    ensures k > t.key ==> Seeking(h, root, In(R, t.node, t.key, t.color, t.left, c), t.right, s, k)
    ensures k == t.key ==> var i := Rank(s, k); i < |s| && s[i] == Entry(t.node, k)
  {
    var e := Entry(t.node, t.key);
    var a, b := Before(c) + Inorder(t.left), Inorder(t.right) + After(c);
    assert s == a + [e] + b;
    SortedCut(a, e, b, k);
    if k < t.key {
      Descend(h, root, c, L, t.left, t.node, t.key, t.color, t.right, s);
      assert [e] + b == [e] + Inorder(t.right) + After(c);
    } else if k > t.key {
      Descend(h, root, c, R, t.right, t.node, t.key, t.color, t.left, s);
    }
  }

  /** The last node the search went to the right of. */
  ghost function Below(c: Ctx): AddrTree.Option<Ptr> {
    if Before(c) == [] then AddrTree.None else AddrTree.Some(Before(c)[|Before(c)| - 1].node)
  }

  lemma {:induction false} BelowStep(c: Ctx)
    requires c.In?
    ensures Below(c) == if c.dir.L? then Below(c.up) else AddrTree.Some(c.node)
  {
  }

  lemma {:induction false} BelowEnd(h: Mem, root: Ptr, c: Ctx, s: seq<Entry>, k: int)
    requires Seeking(h, root, c, Leaf, s, k)
    ensures var i := Rank(s, k);
            && (i < |s| ==> s[i].key > k)
            && Below(c) == if i == 0 then AddrTree.None else AddrTree.Some(s[i - 1].node)
  {
    SeekEnd(h, root, c, s, k);
  }

  lemma {:induction false} SeekEnd(h: Mem, root: Ptr, c: Ctx, s: seq<Entry>, k: int)
    requires Seeking(h, root, c, Leaf, s, k)
    ensures s == Before(c) + After(c) && Rank(s, k) == |Before(c)|
    ensures |Before(c)| < |s| ==> s[|Before(c)|].key > k
  {
    assert s == Before(c) + After(c);
    RankSplit(Before(c), After(c), k);
  }

  lemma {:induction false} Halves(s: seq<Entry>, a: seq<Entry>, b: seq<Entry>)
    requires s == a + b
    ensures s[..|a|] == a && s[|a|..] == b
  {
  }

  lemma {:induction false} StepColors(c: Ctx, t: Tree, n: nat, d: Dir)
    requires CtxOk(c, n) && RB(t, n) && Admits(c, Col(t)) && t.Node?
    ensures var m := if t.color.Red? then n else n - 1; var kid := Kid(d, t);
            m >= 0 && RB(kid, m)
            && CtxOk(In(d, t.node, t.key, t.color, Kid(Other(d), t), c), m)
            && Admits(In(d, t.node, t.key, t.color, Kid(Other(d), t), c), Col(kid))
  {
  }

  // ----- linking in a new node

  lemma {:induction false} AttachShape(h: Mem, h': Mem, root: Ptr, root': Ptr, c: Ctx, p: Ptr, k: int, s: seq<Entry>)
    requires Zip(h, root, c, Leaf, s) && |h'| == |h| && 0 < p < |h| && p !in Nodes(s)
    requires h'[p] == Cell(Parent(c), NIL, NIL, k, Red)
    requires c.Top? ==> root' == p
    requires c.In? ==> root' == root && c.node < |h| && c.node != p
                       && h'[c.node] == MkCell(c.dir, Parent(c.up), p, Ptr0(c.sib), c.key, c.color)
    requires forall o | 0 <= o < |h| && o != p && (c.Top? || o != c.node) :: h'[o] == h[o]
    ensures Zip(h', root', c, Node(Leaf, p, k, Red, Leaf), Before(c) + [Entry(p, k)] + After(c))
  {
    ZipNodes(h, root, c, Leaf, s);
    assert c.In? ==> c.node in CtxObjs(c);
    Relink(h, h', c, NIL, p, root, root');
    assert Inorder(Node(Leaf, p, k, Red, Leaf)) == [Entry(p, k)];
  }

  // ----- iteration

  lemma {:induction false} NilFacts(h: Mem, root: Ptr, c: Ctx, t: Tree, s: seq<Entry>)
    requires Zip(h, root, c, t, s)
    ensures Ptr0(t) < |h|
    ensures h[Ptr0(t)] == if t.Leaf? then NilCell else Cell(Parent(c), Ptr0(t.left), Ptr0(t.right), t.key, t.color)
    ensures t.Node? ==> (t.left.Leaf? <==> Ptr0(t.left) == NIL) && (t.right.Leaf? <==> Ptr0(t.right) == NIL)
                        && t.node != NIL
                        && (c.Top? <==> Parent(c) == NIL)
                        && Parent(c) < |h| && (c.In? ==> (t.node == h[c.node].right <==> c.dir.R?))
    ensures t.Leaf? && c.Top? ==> s == []
    ensures t.Node? && t.left.Leaf? ==> |Before(c)| < |s| && s[|Before(c)|] == Entry(t.node, t.key)
  {
    FocusFacts(h, root, c, t, s);
    assert t.Node? ==> Rep(h, t.left, t.node) && Rep(h, t.right, t.node);
    if t.Node? && t.left.Leaf? {
      assert Inorder(t)[0] == Entry(t.node, t.key);
    }
  }

  /** The zipper whose focus carries the entry number `i`. */
  lemma {:induction false} ZipAt(h: Mem, root: Ptr, c: Ctx, t: Tree, n: nat, s: seq<Entry>, i: nat)
    returns (c': Ctx, t': Tree, n': nat)
    requires Zip(h, root, c, t, s) && CtxOk(c, n) && RB(t, n) && Admits(c, Col(t))
    requires |Before(c)| <= i < |Before(c)| + |Inorder(t)|
    ensures Zip(h, root, c', t', s) && CtxOk(c', n') && RB(t', n') && Admits(c', Col(t'))
    ensures t'.Node? && |Before(c')| + |Inorder(t'.left)| == i && s[i] == Entry(t'.node, t'.key)
    decreases t
  {
    var j := |Before(c)| + |Inorder(t.left)|;
    var m := if t.color.Red? then n else n - 1;
    if i == j {
      assert s[i] == (Before(c) + Inorder(t))[i] == Inorder(t)[|Inorder(t.left)|];
      return c, t, n;
    } else if i < j {
      Descend(h, root, c, L, t.left, t.node, t.key, t.color, t.right, s);
      StepColors(c, t, n, L);
      c', t', n' := ZipAt(h, root, In(L, t.node, t.key, t.color, t.right, c), t.left, m, s, i);
    } else {
      Descend(h, root, c, R, t.right, t.node, t.key, t.color, t.left, s);
      StepColors(c, t, n, R);
      c', t', n' := ZipAt(h, root, In(R, t.node, t.key, t.color, t.left, c), t.right, m, s, i);
    }
  }
}
