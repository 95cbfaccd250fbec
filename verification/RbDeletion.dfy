module RbDeletion {
  import opened RbShape

  /** The context `q`, a walk down left links, hung into the hole of `base`. */
  ghost function Under(q: Ctx, base: Ctx): Ctx {
    if q.Top? then base else q.(up := Under(q.up, base))
  }

  ghost predicate LeftWalk(q: Ctx) {
    q.In? ==> q.dir.L? && LeftWalk(q.up)
  }

  ghost function Outer(q: Ctx): Ptr
    requires q.In?
  {
    if q.up.Top? then q.node else Outer(q.up)
  }

  lemma {:induction false} UnderOrder(q: Ctx, base: Ctx)
    requires LeftWalk(q)
    ensures Before(Under(q, base)) == Before(base)
    ensures After(Under(q, base)) == After(q) + After(base)
  {
    if q.In? {
      UnderOrder(q.up, base);
      Regroup([Entry(q.node, q.key)] + Inorder(q.sib), After(q.up), After(base));
    }
  }

  lemma {:induction false} Regroup(a: seq<Entry>, b: seq<Entry>, c: seq<Entry>)
    ensures a + (b + c) == (a + b) + c
  {
  }

  lemma {:induction false} UnderFacts(q: Ctx, base: Ctx)
    requires LeftWalk(q)
    ensures CtxObjs(Under(q, base)) == CtxObjs(q) + CtxObjs(base)
    ensures CtxDistinct(Under(q, base)) <==>
              CtxDistinct(q) && CtxDistinct(base) && CtxObjs(q) !! CtxObjs(base)
    ensures Before(Under(q, base)) == Before(base)
    ensures After(Under(q, base)) == After(q) + After(base)
    ensures q.In? ==> Outer(q) in CtxObjs(q) && q.node in CtxObjs(q)
  {
    UnderOrder(q, base);
    if q.In? {
      UnderFacts(q.up, base);
    }
  }

  lemma {:induction false} UnderDown(h: Mem, q: Ctx, base: Ctx, hole: Ptr, root: Ptr)
    requires CtxRep(h, Under(q, base), hole, root)
    ensures CtxRep(h, base, if q.Top? then hole else Outer(q), root)
  {
    if q.In? {
      UnderDown(h, q.up, base, q.node, root);
    }
  }

  /** What the exchange does to the cells of the walk. */
  ghost function Moved(h: Mem, q: Ctx, o: Ptr, hole: Ptr, s: Ptr): Cell
    requires o < |h| && q.In?
  {
    h[o].(left := if o == q.node then hole else h[o].left, parent := if o == Outer(q) then s else h[o].parent)
  }

  lemma {:induction false} WalkFrame(h: Mem, h': Mem, q: Ctx, base: Ctx, base': Ctx, hole: Ptr, hole': Ptr, root: Ptr, root': Ptr)
    requires CtxRep(h, Under(q, base), hole, root) && LeftWalk(q) && CtxDistinct(q) && |h'| == |h|
    requires base.In? && base'.In?
    requires q.In? ==> forall o <- CtxObjs(q) :: o < |h| ==> h'[o] == Moved(h, q, o, hole', base'.node)
    requires CtxRep(h', base', if q.Top? then hole' else Outer(q), root')
    ensures CtxRep(h', Under(q, base'), hole', root')
  {
    if q.In? {
      UnderFacts(q, Top);
      UnderFacts(q.up, Top);
      RepFrame(h, h', q.sib, q.node);
      WalkFrame(h, h', q.up, base, base', q.node, q.node, root, root');
    }
  }

  /** The distinct cells around a node `d` and its successor `x`, `q` below the right child of `d`. */
  lemma {:induction false} SwapFacts(h: Mem, root: Ptr, q: Ctx, d: Ptr, dk: int, dc: Color, lt: Tree, c: Ctx,
                  x: Ptr, xk: int, xc: Color, rt: Tree, s: seq<Entry>)
    requires Zip(h, root, Under(q, In(R, d, dk, dc, lt, c)), Node(Leaf, x, xk, xc, rt), s) && LeftWalk(q)
    ensures 0 < d < |h| && h[d] == Cell(Parent(c), Ptr0(lt), if q.Top? then x else Outer(q), dk, dc)
    ensures 0 < x < |h| && h[x] == Cell(if q.Top? then d else q.node, NIL, Ptr0(rt), xk, xc) && x != d
    ensures lt.Node? ==> 0 < lt.node < |h| && lt.node !in {d, x} && h[lt.node].parent == d
    ensures rt.Node? ==> 0 < rt.node < |h| && rt.node !in {d, x, Ptr0(lt)} && h[rt.node].parent == x
    ensures c.In? ==> 0 < c.node < |h| && c.node !in {d, x, Ptr0(lt), Ptr0(rt)} && Ptr0(c.sib) != d
                      && h[c.node] == MkCell(c.dir, Parent(c.up), d, Ptr0(c.sib), c.key, c.color)
    ensures c.Top? ==> root == d
    ensures q.In? ==> 0 < q.node < |h| && q.node !in {d, x, Ptr0(lt), Ptr0(rt), Parent(c)}
                      && 0 < Outer(q) < |h| && Outer(q) !in {d, x, Ptr0(lt), Ptr0(rt), Parent(c)}
                      && h[q.node].left == x && h[q.node].right != x && h[Outer(q)].parent == d
                      && (forall o <- CtxObjs(q) :: o < |h| && o !in {d, x, Ptr0(lt), Ptr0(rt), Parent(c)})
                      && q.node in CtxObjs(q) && Outer(q) in CtxObjs(q)
    ensures {d, x} <= Nodes(s) && {Ptr0(lt), Ptr0(rt), Parent(c)} - {NIL} <= Nodes(s)
    ensures q.In? ==> q.node in Nodes(s) && Outer(q) in Nodes(s)
  {
    var base := In(R, d, dk, dc, lt, c);
    var t := Node(Leaf, x, xk, xc, rt);
    ZipNodes(h, root, Under(q, base), t, s);
    UnderFacts(q, base);
    UnderDown(h, q, base, x, root);
    FocusFacts(h, root, Under(q, base), t, s);
    assert lt.Node? ==> lt.node in Objs(lt) && Rep(h, lt, d);
    assert rt.Node? ==> rt.node in Objs(rt) && Rep(h, rt, x);
    assert x in Objs(t) && d in CtxObjs(base) && (c.In? ==> c.node in CtxObjs(c));
    assert c.In? && c.sib.Node? ==> c.sib.node in Objs(c.sib);
    if q.In? {
      OuterParent(h, q, base, x, root);
      assert q.sib.Node? ==> q.sib.node in Objs(q.sib);
    }
  }

  lemma {:induction false} OuterParent(h: Mem, q: Ctx, base: Ctx, hole: Ptr, root: Ptr)
    requires CtxRep(h, Under(q, base), hole, root) && q.In? && base.In?
    ensures 0 < Outer(q) < |h| && h[Outer(q)].parent == base.node
  {
    if q.up.In? {
      OuterParent(h, q.up, base, q.node, root);
    } else {
      assert Under(q.up, base) == base && Under(q, base).up == base;
    }
  }

  /** Every cell after a node `d` and its successor `x` have changed places, `q` leading from `d` to `x`. */
  ghost predicate Swapped(h: Mem, h': Mem, root: Ptr, root': Ptr, q: Ctx, d: Ptr, dk: int, dc: Color, lt: Tree, c: Ctx,
                          x: Ptr, xk: int, xc: Color, rt: Tree) {
    && |h'| == |h| && d < |h| && x < |h| && h'[NIL] == NilCell
    && h'[x] == Cell(Parent(c), Ptr0(lt), if q.Top? then d else Outer(q), xk, dc)
    && h'[d] == Cell(if q.Top? then x else q.node, NIL, Ptr0(rt), dk, xc)
    && (lt.Node? ==> lt.node < |h| && h'[lt.node] == h[lt.node].(parent := x))
    && (rt.Node? ==> rt.node < |h| && h'[rt.node] == h[rt.node].(parent := d))
    && (c.Top? ==> root' == x)
    && (c.In? ==> root' == root && c.node < |h|
                  && h'[c.node] == MkCell(c.dir, Parent(c.up), x, Ptr0(c.sib), c.key, c.color))
    && (q.In? ==> forall o <- CtxObjs(q) :: o < |h| ==> h'[o] == Moved(h, q, o, d, x))
    && forall o | 0 <= o < |h| && o !in {d, x, Ptr0(lt), Ptr0(rt), Parent(c)} && o !in CtxObjs(q) :: h'[o] == h[o]
  }

  /** Colours exchanged, and the links from above redirected. */
  ghost predicate SwappedAbove(h: Mem, h': Mem, root: Ptr, root': Ptr, q: Ctx, d: Ptr, dc: Color, c: Ctx, x: Ptr, xc: Color) {
    && |h'| == |h| && d < |h| && x < |h| && h'[NIL] == NilCell
    && h'[d] == h[d].(color := xc) && h'[x] == h[x].(color := dc)
    && (c.Top? ==> root' == x)
    && (c.In? ==> root' == root && c.node < |h| && h'[c.node] == MkCell(c.dir, Parent(c.up), x, Ptr0(c.sib), c.key, c.color))
    && (q.In? ==> q.node < |h| && h'[q.node] == h[q.node].(left := d))
    && forall o | 0 <= o < |h| && o !in {d, x, Parent(c)} && (q.Top? || o != q.node) :: h'[o] == h[o]
  }

  /** The children of `d` are `l` and `r`, where `r` may be `x`; the only child of `x` is `z`. */
  ghost predicate KidsLinked(h: Mem, d: Ptr, x: Ptr, l: Ptr, r: Ptr, z: Ptr) {
    && 0 < d < |h| && 0 < x < |h| && d != x
    && h[d].left == l < |h| && h[d].right == r && 0 < r < |h|
    && h[x].left == NIL && h[x].right == z < |h|
    && l !in {d, x} && z !in {d, x} && r != d
    && (r != x ==> r !in {l, z} && h[r].parent == d)
    && (l != NIL ==> l != z && h[l].parent == d)
    && (z != NIL ==> h[z].parent == x)
  }

  /** The links from above do not touch the children. */
  lemma {:induction false} AboveLinked(h: Mem, h1: Mem, root: Ptr, root': Ptr, q: Ctx, d: Ptr, dk: int, dc: Color, lt: Tree, c: Ctx,
                    x: Ptr, xk: int, xc: Color, rt: Tree, s: seq<Entry>)
    requires Zip(h, root, Under(q, In(R, d, dk, dc, lt, c)), Node(Leaf, x, xk, xc, rt), s) && LeftWalk(q)
    requires SwappedAbove(h, h1, root, root', q, d, dc, c, x, xc)
    ensures KidsLinked(h1, d, x, Ptr0(lt), if q.Top? then x else Outer(q), Ptr0(rt))
  {
    SwapFacts(h, root, q, d, dk, dc, lt, c, x, xk, xc, rt, s);
  }

  /** The parent links of the children `l`, `r` of `d` and `z` of `x` redirected. */
  ghost predicate SwappedBelow(h: Mem, h': Mem, d: Ptr, x: Ptr, l: Ptr, r: Ptr, z: Ptr) {
    && |h'| == |h| && d < |h| && x < |h| && l < |h| && r < |h| && z < |h| && h'[NIL] == h[NIL]
    && h'[d] == h[d].(right := if r == x then d else r)
    && h'[x] == (if r == x then h[x].(parent := x) else h[x])
    && (l != NIL ==> h'[l] == h[l].(parent := x))
    && (z != NIL ==> h'[z] == h[z].(parent := d))
    && (r != x ==> h'[r] == h[r].(parent := x))
    && forall o | 0 <= o < |h| && o !in {d, x, l, r, z} :: h'[o] == h[o]
  }

  lemma {:induction false} SwapTogether(h: Mem, h1: Mem, h2: Mem, h3: Mem, root: Ptr, root': Ptr, q: Ctx, d: Ptr, dk: int, dc: Color, lt: Tree, c: Ctx,
                     x: Ptr, xk: int, xc: Color, rt: Tree, s: seq<Entry>)
    requires Zip(h, root, Under(q, In(R, d, dk, dc, lt, c)), Node(Leaf, x, xk, xc, rt), s) && LeftWalk(q)
    requires SwappedAbove(h, h1, root, root', q, d, dc, c, x, xc)
    requires SwappedBelow(h1, h2, d, x, Ptr0(lt), if q.Top? then x else Outer(q), Ptr0(rt))
    requires d != x && h3 == h2[d := Cell(h2[x].parent, h2[x].left, h2[x].right, h2[d].key, h2[d].color)]
                               [x := Cell(h2[d].parent, h2[d].left, h2[d].right, h2[x].key, h2[x].color)]
    ensures Swapped(h, h3, root, root', q, d, dk, dc, lt, c, x, xk, xc, rt)
  {
    SwapFacts(h, root, q, d, dk, dc, lt, c, x, xk, xc, rt, s);
    if q.In? {
      forall o <- CtxObjs(q) | o < |h| ensures h3[o] == Moved(h, q, o, d, x) {}
    }
  }

  lemma {:induction false} SwapBase(h: Mem, h': Mem, root: Ptr, root': Ptr, q: Ctx, d: Ptr, dk: int, dc: Color, lt: Tree, c: Ctx,
                 x: Ptr, xk: int, xc: Color, rt: Tree, s: seq<Entry>)
    requires Zip(h, root, Under(q, In(R, d, dk, dc, lt, c)), Node(Leaf, x, xk, xc, rt), s) && LeftWalk(q)
    requires Swapped(h, h', root, root', q, d, dk, dc, lt, c, x, xk, xc, rt)
    ensures Rep(h', lt, x) && Rep(h', rt, d) && 0 < x && 0 < d
    ensures CtxRep(h', In(R, x, xk, dc, lt, c), if q.Top? then d else Outer(q), root')
  {
    var base := In(R, d, dk, dc, lt, c);
    SwapFacts(h, root, q, d, dk, dc, lt, c, x, xk, xc, rt, s);
    SwapApart(q, d, dk, dc, lt, c, x, xk, xc, rt);
    UnderDown(h, q, base, x, root);
    SwapParts(h, h', root, root', d, lt, c, x, rt, CtxObjs(q));
  }

  lemma {:induction false} SwapOutside(h: Mem, h': Mem, root: Ptr, root': Ptr, q: Ctx, d: Ptr, dk: int, dc: Color, lt: Tree, c: Ctx,
                    x: Ptr, xk: int, xc: Color, rt: Tree, s: seq<Entry>)
    requires Zip(h, root, Under(q, In(R, d, dk, dc, lt, c)), Node(Leaf, x, xk, xc, rt), s) && LeftWalk(q)
    requires Swapped(h, h', root, root', q, d, dk, dc, lt, c, x, xk, xc, rt)
    ensures forall o | 0 <= o < |h| && o !in Nodes(s) :: h'[o] == h[o]
  {
    SwapFacts(h, root, q, d, dk, dc, lt, c, x, xk, xc, rt, s);
    ZipNodes(h, root, Under(q, In(R, d, dk, dc, lt, c)), Node(Leaf, x, xk, xc, rt), s);
    UnderFacts(q, In(R, d, dk, dc, lt, c));
  }

  /** Exchanging a node with its successor, seen cell by cell. */
  lemma {:induction false} SwapShape(h: Mem, h': Mem, root: Ptr, root': Ptr, q: Ctx, d: Ptr, dk: int, dc: Color, lt: Tree, c: Ctx,
                  x: Ptr, xk: int, xc: Color, rt: Tree, s: seq<Entry>)
    requires Zip(h, root, Under(q, In(R, d, dk, dc, lt, c)), Node(Leaf, x, xk, xc, rt), s) && LeftWalk(q)
    requires Swapped(h, h', root, root', q, d, dk, dc, lt, c, x, xk, xc, rt)
    ensures Zip(h', root', Under(q, In(R, x, xk, dc, lt, c)), Node(Leaf, d, dk, xc, rt),
                Before(c) + Inorder(lt) + [Entry(x, xk)] + ([Entry(d, dk)] + Inorder(rt)) + (After(q) + After(c)))
    ensures forall o | 0 <= o < |h| && o !in Nodes(s) :: h'[o] == h[o]
  {
    SwapOutside(h, h', root, root', q, d, dk, dc, lt, c, x, xk, xc, rt, s);
    var base' := In(R, x, xk, dc, lt, c);
    var t' := Node(Leaf, d, dk, xc, rt);
    SwapDistinct(q, d, dk, dc, lt, c, x, xk, xc, rt);
    SwapBase(h, h', root, root', q, d, dk, dc, lt, c, x, xk, xc, rt, s);
    SwapApart(q, d, dk, dc, lt, c, x, xk, xc, rt);
    WalkFrame(h, h', q, In(R, d, dk, dc, lt, c), base', x, d, root, root');
    SwapOrder(q, d, dk, lt, c, x, xk, dc, xc, rt);
    assert Parent(Under(q, base')) == if q.Top? then x else q.node;
  }

  lemma {:induction false} SwapOrder(q: Ctx, d: Ptr, dk: int, lt: Tree, c: Ctx, x: Ptr, xk: int, dc: Color, xc: Color, rt: Tree)
    requires LeftWalk(q)
    ensures var u, t := Under(q, In(R, x, xk, dc, lt, c)), Node(Leaf, d, dk, xc, rt);
            Before(u) + Inorder(t) + After(u)
            == Before(c) + Inorder(lt) + [Entry(x, xk)] + ([Entry(d, dk)] + Inorder(rt)) + (After(q) + After(c))
  {
    UnderFacts(q, In(R, x, xk, dc, lt, c));
    assert Inorder(Node(Leaf, d, dk, xc, rt)) == [Entry(d, dk)] + Inorder(rt);
  }

  lemma {:induction false} SwapApart(q: Ctx, d: Ptr, dk: int, dc: Color, lt: Tree, c: Ctx, x: Ptr, xk: int, xc: Color, rt: Tree)
    requires var u, t := Under(q, In(R, d, dk, dc, lt, c)), Node(Leaf, x, xk, xc, rt);
             LeftWalk(q) && CtxDistinct(u) && TreeDistinct(t) && CtxObjs(u) !! Objs(t)
    ensures CtxDistinct(c) && TreeDistinct(lt) && TreeDistinct(rt) && CtxDistinct(q)
    ensures CtxObjs(c) !! Objs(lt) !! Objs(rt) !! {d, x} && CtxObjs(q) !! CtxObjs(c) + Objs(lt) + Objs(rt)
    ensures d != x && d !in CtxObjs(q) && x !in CtxObjs(q)
  {
    UnderFacts(q, In(R, d, dk, dc, lt, c));
  }

  lemma {:induction false} SwapDistinct(q: Ctx, d: Ptr, dk: int, dc: Color, lt: Tree, c: Ctx, x: Ptr, xk: int, xc: Color, rt: Tree)
    requires var u, t := Under(q, In(R, d, dk, dc, lt, c)), Node(Leaf, x, xk, xc, rt);
             LeftWalk(q) && CtxDistinct(u) && TreeDistinct(t) && CtxObjs(u) !! Objs(t)
    ensures var u, t := Under(q, In(R, x, xk, dc, lt, c)), Node(Leaf, d, dk, xc, rt);
            CtxDistinct(u) && TreeDistinct(t) && CtxObjs(u) !! Objs(t)
  {
    SwapApart(q, d, dk, dc, lt, c, x, xk, xc, rt);
    UnderFacts(q, In(R, x, xk, dc, lt, c));
  }

  lemma {:induction false} SwapParts(h: Mem, h': Mem, root: Ptr, root': Ptr, d: Ptr, lt: Tree, c: Ctx, x: Ptr, rt: Tree, w: set<Ptr>)
    requires CtxRep(h, c, d, root) && Rep(h, lt, d) && Rep(h, rt, x) && |h'| == |h|
    requires CtxDistinct(c) && TreeDistinct(lt) && TreeDistinct(rt)
    requires CtxObjs(c) !! Objs(lt) !! Objs(rt) !! {d, x} && w !! CtxObjs(c) + Objs(lt) + Objs(rt)
    requires lt.Node? ==> lt.node < |h| && h'[lt.node] == h[lt.node].(parent := x)
    requires rt.Node? ==> rt.node < |h| && h'[rt.node] == h[rt.node].(parent := d)
    requires c.Top? ==> root' == x
    requires c.In? ==> root' == root && c.node < |h|
                       && h'[c.node] == MkCell(c.dir, Parent(c.up), x, Ptr0(c.sib), c.key, c.color)
    requires forall o | 0 <= o < |h| && o !in {d, x, Ptr0(lt), Ptr0(rt), Parent(c)} && o !in w :: h'[o] == h[o]
    ensures Rep(h', lt, x) && Rep(h', rt, d) && CtxRep(h', c, x, root')
  {
    assert c.In? ==> c.node in CtxObjs(c);
    assert lt.Node? ==> lt.node in Objs(lt);
    assert rt.Node? ==> rt.node in Objs(rt);
    assert Rep(h', lt, x) by { RepNonNil(h, lt, d); Reparent(h, h', lt, d, x); }
    assert Rep(h', rt, d) by { RepNonNil(h, rt, x); Reparent(h, h', rt, x, d); }
    CtxNonNil(h, c, d, root);
    Relink(h, h', c, d, x, root, root');
  }

  // ----- taking a node with at most one child out

  lemma {:induction false} SpliceShape(h: Mem, h': Mem, root: Ptr, root': Ptr, c: Ctx, t: Tree, kid: Tree, s: seq<Entry>)
    requires Zip(h, root, c, t, s) && t.Node? && |h'| == |h|
    requires (t.left.Leaf? && kid == t.right) || (t.right.Leaf? && kid == t.left)
    requires kid.Node? ==> kid.node < |h| && h'[kid.node] == h[kid.node].(parent := Parent(c))
    requires c.Top? ==> root' == Ptr0(kid)
    requires c.In? ==> root' == root && c.node < |h|
                       && h'[c.node] == MkCell(c.dir, Parent(c.up), Ptr0(kid), Ptr0(c.sib), c.key, c.color)
    requires forall o | 0 <= o < |h| && o != Ptr0(kid) && o != Parent(c) :: h'[o] == h[o]
    requires h'[NIL] == NilCell
    ensures Zip(h', root', c, kid, Before(c) + Inorder(kid) + After(c))
    ensures t.node !in Nodes(Before(c) + Inorder(kid) + After(c))
    ensures Nodes(Before(c) + Inorder(kid) + After(c)) <= Nodes(s)
  {
    ZipNodes(h, root, c, t, s);
    assert c.In? ==> c.node in CtxObjs(c);
    assert kid.Node? ==> kid.node in Objs(kid);
    Reparent(h, h', kid, t.node, Parent(c));
    Relink(h, h', c, t.node, Ptr0(kid), root, root');
    ZipNodes(h', root', c, kid, Before(c) + Inorder(kid) + After(c));
  }

  /** Cells outside the entries do not matter. */
  lemma {:induction false} ZipFrame(h: Mem, h': Mem, root: Ptr, c: Ctx, t: Tree, s: seq<Entry>)
    requires Zip(h, root, c, t, s) && |h'| == |h| && h'[NIL] == NilCell
    requires forall o <- Nodes(s) :: o < |h| ==> h'[o] == h[o]
    ensures Zip(h', root, c, t, s)
  {
    ZipNodes(h, root, c, t, s);
    RepFrame(h, h', t, Parent(c));
    CtxFrame(h, h', c, Ptr0(t), root);
  }

  // ----- the deletion's repairs

  lemma {:induction false} ToSibling(h: Mem, root: Ptr, c: Ctx, t: Tree, s: seq<Entry>)
    requires Zip(h, root, c, t, s) && c.In?
    ensures Zip(h, root, In(Other(c.dir), c.node, c.key, c.color, t, c.up), c.sib, s)
  {
    Ascend(h, root, c, t, s);
    MkFlip(c.dir, t, c.node, c.key, c.color, c.sib);
    Descend(h, root, c.up, Other(c.dir), c.sib, c.node, c.key, c.color, t, s);
  }

  lemma {:induction false} PaintParent(h: Mem, root: Ptr, c: Ctx, t: Tree, col: Color, s: seq<Entry>)
    requires Zip(h, root, c, t, s) && c.In?
    ensures c.node < |h| && c.node in Nodes(s)
    ensures Zip(SetColor(h, c.node, col), root, c.(color := col), t, s)
  {
    Ascend(h, root, c, t, s);
    PaintShape(h, root, c.up, Fill(c, t), col, s);
    Descend(SetColor(h, c.node, col), root, c.up, c.dir, t, c.node, c.key, col, c.sib, s);
  }

  lemma {:induction false} PaintSibling(h: Mem, root: Ptr, c: Ctx, t: Tree, col: Color, s: seq<Entry>)
    requires Zip(h, root, c, t, s) && c.In? && c.sib.Node?
    ensures c.sib.node < |h| && c.sib.node in Nodes(s)
    ensures Zip(SetColor(h, c.sib.node, col), root, c.(sib := c.sib.(color := col)), t, s)
  {
    ToSibling(h, root, c, t, s);
    var b := In(Other(c.dir), c.node, c.key, c.color, t, c.up);
    PaintShape(h, root, b, c.sib, col, s);
    ToSibling(SetColor(h, c.sib.node, col), root, b, c.sib.(color := col), s);
  }

  function WithKid(d: Dir, t: Tree, k: Tree): Tree
    requires t.Node?
  {
    if d.L? then t.(left := k) else t.(right := k)
  }

  lemma {:induction false} PaintNephew(h: Mem, root: Ptr, c: Ctx, t: Tree, d: Dir, col: Color, s: seq<Entry>)
    requires Zip(h, root, c, t, s) && c.In? && c.sib.Node? && Kid(d, c.sib).Node?
    ensures Kid(d, c.sib).node < |h| && Kid(d, c.sib).node in Nodes(s)
    ensures Zip(SetColor(h, Kid(d, c.sib).node, col), root,
                c.(sib := WithKid(d, c.sib, Kid(d, c.sib).(color := col))), t, s)
  {
    var b, e, x := In(Other(c.dir), c.node, c.key, c.color, t, c.up), c.sib, Kid(d, c.sib);
    ToSibling(h, root, c, t, s);
    Descend(h, root, b, d, x, e.node, e.key, e.color, Kid(Other(d), e), s);
    var f := In(d, e.node, e.key, e.color, Kid(Other(d), e), b);
    PaintShape(h, root, f, x, col, s);
    var h' := SetColor(h, x.node, col);
    Ascend(h', root, f, x.(color := col), s);
    ToSibling(h', root, b, Fill(f, x.(color := col)), s);
  }

  /** The colours the repairs look at. */
  lemma {:induction false} SibFacts(h: Mem, root: Ptr, c: Ctx, t: Tree, s: seq<Entry>)
    requires Zip(h, root, c, t, s) && c.In? && c.sib.Node?
    ensures 0 < c.node < |h|
            && h[c.node] == MkCell(c.dir, Parent(c.up), Ptr0(t), c.sib.node, c.key, c.color)
    ensures c.sib.node != Ptr0(t)
    ensures 0 < c.sib.node < |h|
            && h[c.sib.node] == Cell(c.node, Ptr0(c.sib.left), Ptr0(c.sib.right), c.sib.key, c.sib.color)
    ensures Ptr0(c.sib.left) < |h| && h[Ptr0(c.sib.left)].color == Col(c.sib.left)
    ensures Ptr0(c.sib.right) < |h| && h[Ptr0(c.sib.right)].color == Col(c.sib.right)
  {
    FocusFacts(h, root, c, t, s);
    ToSibling(h, root, c, t, s);
    assert Rep(h, c.sib.left, c.sib.node) && Rep(h, c.sib.right, c.sib.node);
  }

  /** Parent and sibling painted at once. */
  lemma {:induction false} PaintPair(h: Mem, root: Ptr, c: Ctx, t: Tree, pc: Color, sc: Color, s: seq<Entry>)
    requires Zip(h, root, c, t, s) && c.In? && c.sib.Node?
    ensures c.node < |h| && c.sib.node < |h| && c.node != c.sib.node && {c.node, c.sib.node} <= Nodes(s)
    ensures Zip(SetColor(SetColor(h, c.node, pc), c.sib.node, sc), root,
                c.(color := pc, sib := c.sib.(color := sc)), t, s)
  {
    SibFacts(h, root, c, t, s);
    PaintParent(h, root, c, t, pc, s);
    PaintSibling(SetColor(h, c.node, pc), root, c.(color := pc), t, sc, s);
  }

  /** Sibling and one nephew painted at once. */
  lemma {:induction false} PaintBelow(h: Mem, root: Ptr, c: Ctx, t: Tree, d: Dir, sc: Color, nc: Color, s: seq<Entry>)
    requires Zip(h, root, c, t, s) && c.In? && c.sib.Node? && Kid(d, c.sib).Node?
    ensures c.sib.node < |h| && Kid(d, c.sib).node < |h| && {c.sib.node, Kid(d, c.sib).node} <= Nodes(s)
    ensures c.node < |h| && h[c.node] == MkCell(c.dir, Parent(c.up), Ptr0(t), c.sib.node, c.key, c.color)
            && c.sib.node != Ptr0(t) && c.node != c.sib.node && c.node != Kid(d, c.sib).node
            && c.sib.node != Kid(d, c.sib).node
            && Kid(d, c.sib).node == (if d.L? then h[c.sib.node].left else h[c.sib.node].right)
    ensures Zip(SetColor(SetColor(h, c.sib.node, sc), Kid(d, c.sib).node, nc), root,
                c.(sib := WithKid(d, c.sib.(color := sc), Kid(d, c.sib).(color := nc))), t, s)
  {
    SibFacts(h, root, c, t, s);
    assert c.sib.node !in Objs(Kid(d, c.sib)) && Kid(d, c.sib).node in Objs(Kid(d, c.sib)) && TreeDistinct(c.sib);
    assert c.node !in Objs(c.sib);
    PaintSibling(h, root, c, t, sc, s);
    PaintNephew(SetColor(h, c.sib.node, sc), root, c.(sib := c.sib.(color := sc)), t, d, nc, s);
  }

  /** The sibling as the repairs compute it from the parent's links. */
  function SiblingOf(h: Mem, parent: Ptr, child: Ptr): Ptr
    requires parent < |h|
  {
    if h[parent].right == child then h[parent].left else h[parent].right
  }

  lemma {:induction false} MkColors(d: Dir, a: Tree, n: Ptr, k: int, c: Color, b: Tree, m: nat)
    ensures RB(Mk(d, a, n, k, c, b), m) <==>
              if c.Red? then Col(a).Black? && Col(b).Black? && RB(a, m) && RB(b, m)
              else m > 0 && RB(a, m - 1) && RB(b, m - 1)
  {
  }

  /** The focus is one black node short: its sibling cannot be the sentinel. */
  ghost predicate Short(c: Ctx, t: Tree, n: nat) {
    RB(t, n) && Col(t).Black? && CtxOk(c, n + 1)
  }

  /** A short focus below the root has a real sibling, and the parent's links lead to it. */
  lemma {:induction false} ParentIn(h: Mem, root: Ptr, c: Ctx, t: Tree, s: seq<Entry>)
    requires Zip(h, root, c, t, s) && exists n: nat :: Short(c, t, n)
    ensures Parent(c) < |h| && (c.Top? <==> Parent(c) == NIL)
    ensures c.In? ==> c.sib.Node? && SiblingOf(h, Parent(c), Ptr0(t)) == c.sib.node
  {
    if c.In? {
      SibFacts(h, root, c, t, s);
    }
  }

  /** Red sibling: after the turn the focus has a black sibling and a red parent. */
  function UnderRedParent(c: Ctx): Ctx
    requires c.In? && c.sib.Node?
  {
    In(c.dir, c.node, c.key, Red, Kid(c.dir, c.sib),
       In(c.dir, c.sib.node, c.sib.key, Black, Kid(Other(c.dir), c.sib), c.up))
  }

  lemma {:induction false} RedTurned(h: Mem, root: Ptr, c: Ctx, t: Tree, s: seq<Entry>)
    requires c.In? && c.sib.Node? && Kid(c.dir, c.sib).Node?
    requires Zip(h, root, c.up, Rotated(c.dir, Fill(c.(color := Red, sib := c.sib.(color := Black)), t)), s)
    ensures c.node < |h| && Zip(h, root, UnderRedParent(c), t, s)
    ensures SiblingOf(h, c.node, Ptr0(t)) == Kid(c.dir, c.sib).node
  {
    var p := Mk(c.dir, t, c.node, c.key, Red, Kid(c.dir, c.sib));
    Descend(h, root, c.up, c.dir, p, c.sib.node, c.sib.key, Black, Kid(Other(c.dir), c.sib), s);
    Descend(h, root, UnderRedParent(c).up, c.dir, t, c.node, c.key, Red, Kid(c.dir, c.sib), s);
    SibFacts(h, root, UnderRedParent(c), t, s);
  }

  lemma {:induction false} RedSiblingColors(c: Ctx, t: Tree, n: nat)
    requires Short(c, t, n) && c.In? && c.sib.Node? && c.sib.color.Red?
    ensures Short(UnderRedParent(c), t, n) && Kid(c.dir, c.sib).Node? && Kid(c.dir, c.sib).color.Black?
  {
    assert RB(c.sib, n + 1) && CtxOk(c.up, n + 2);
    assert RB(c.sib.left, n + 1) && RB(c.sib.right, n + 1);
    assert CtxOk(UnderRedParent(c).up, n + 1);
  }

  lemma {:induction false} GoUpColors(c: Ctx, t: Tree, n: nat)
    requires Short(c, t, n) && c.In? && c.color.Black? && c.sib.Node? && c.sib.color.Black?
    requires Col(c.sib.left).Black? && Col(c.sib.right).Black?
    ensures Short(c.up, Fill(c.(sib := c.sib.(color := Red)), t), n + 1)
  {
  }

  lemma {:induction false} RedParentColors(c: Ctx, t: Tree, n: nat)
    requires Short(c, t, n) && c.In? && c.color.Red? && c.sib.Node?
    requires Col(c.sib.left).Black? && Col(c.sib.right).Black?
    ensures RedBlack(Plug(c.(color := Black, sib := c.sib.(color := Red)), t))
  {
    CloseColors(c.up, Fill(c.(color := Black, sib := c.sib.(color := Red)), t), n + 1);
  }

  /** Inner nephew red, outer black: the sibling after its own turn. */
  function TurnedSibling(c: Ctx): Tree
    requires c.In? && c.sib.Node? && Kid(c.dir, c.sib).Node?
  {
    Rotated(Other(c.dir), WithKid(c.dir, c.sib.(color := Red), Kid(c.dir, c.sib).(color := Black)))
  }

  lemma {:induction false} InnerColors(c: Ctx, t: Tree, n: nat)
    requires Short(c, t, n) && c.In? && c.sib.Node? && c.sib.color.Black? && Col(Kid(c.dir, c.sib)).Red?
    requires Col(Kid(Other(c.dir), c.sib)).Black?
    ensures Short(c.(sib := TurnedSibling(c)), t, n)
    ensures TurnedSibling(c).Node? && TurnedSibling(c).color.Black? && Col(Kid(Other(c.dir), TurnedSibling(c))).Red?
  {
    var e, x := c.sib, Kid(c.dir, c.sib);
    assert RB(x, n) && RB(x.left, n) && RB(x.right, n);
    MkColors(Other(c.dir), Kid(Other(c.dir), e), e.node, e.key, Red, Kid(Other(c.dir), x), n);
    MkColors(Other(c.dir), Kid(Other(c.dir), TurnedSibling(c)), x.node, x.key, Black, Kid(c.dir, x), n + 1);
  }

  /** Outer nephew red: the last turn pays the missing black node. */
  function Repaid(c: Ctx, t: Tree): Tree
    requires c.In? && c.sib.Node? && Kid(Other(c.dir), c.sib).Node?
  {
    Rotated(c.dir, Fill(c.(color := Black,
                           sib := WithKid(Other(c.dir), c.sib.(color := c.color),
                                          Kid(Other(c.dir), c.sib).(color := Black))), t))
  }

  lemma {:induction false} OuterColors(c: Ctx, t: Tree, n: nat)
    requires Short(c, t, n) && c.In? && c.sib.Node? && c.sib.color.Black? && Col(Kid(Other(c.dir), c.sib)).Red?
    ensures RedBlack(Plug(c.up, Repaid(c, t)))
  {
    var e, x := c.sib, Kid(Other(c.dir), c.sib);
    assert RB(x, n) && RB(x.(color := Black), n + 1) && RB(Kid(c.dir, e), n);
    MkColors(c.dir, t, c.node, c.key, Black, Kid(c.dir, e), n + 1);
    MkColors(c.dir, Mk(c.dir, t, c.node, c.key, Black, Kid(c.dir, e)), e.node, e.key, c.color, x.(color := Black),
             if c.color.Red? then n + 1 else n + 2);
    CloseColors(c.up, Repaid(c, t), if c.color.Red? then n + 1 else n + 2);
  }

  // ----- the entries of a deletion

  lemma {:induction false} KidFacts(h: Mem, root: Ptr, c: Ctx, t: Tree, kid: Tree, s: seq<Entry>)
    requires Zip(h, root, c, t, s) && t.Node?
    requires (t.left.Leaf? && kid == t.right) || (t.right.Leaf? && kid == t.left)
    ensures Ptr0(kid) < |h| && Ptr0(kid) != t.node
    ensures kid.Node? ==> kid.node in Nodes(s) && kid.node != NIL && kid.node != Parent(c)
                          && h[kid.node].parent == t.node
  {
    ZipNodes(h, root, c, t, s);
    assert Rep(h, kid, t.node);
    assert kid.Node? ==> kid.node in Objs(kid);
    assert c.In? ==> c.node in CtxObjs(c);
  }

  lemma {:induction false} SortedCutOut(s: seq<Entry>, i: nat)
    requires Sorted(s) && i < |s|
    ensures Sorted(s[..i] + s[i + 1..])
  {
  }

  lemma {:induction false} CutOne(s: seq<Entry>, i: nat, a: seq<Entry>, t: Tree, b: seq<Entry>)
    requires s == a + Inorder(t) + b && t.Node? && (t.left.Leaf? || t.right.Leaf?) && i == |a| + |Inorder(t.left)|
    ensures i < |s| && s[..i] + s[i + 1..] == a + Inorder(if t.left.Node? then t.left else t.right) + b
  {
    var l, r := Inorder(t.left), Inorder(t.right);
    assert s == a + l + [Entry(t.node, t.key)] + r + b;
    assert s[..i] == a + l;
    assert s[i + 1..] == r + b;
  }

  /** The walk's entries before and after the exchange, with the node at position `i` gone. */
  lemma {:induction false} CutTwo(q: Ctx, t: Tree, c: Ctx, x: Tree, s: seq<Entry>, i: nat)
    requires t.Node? && x.Node? && x.left.Leaf? && LeftWalk(q)
    requires var u := Under(q, In(R, t.node, t.key, t.color, t.left, c)); s == Before(u) + Inorder(x) + After(u)
    requires i == |Before(c)| + |Inorder(t.left)|
    ensures var u := Under(q, In(R, x.node, x.key, t.color, t.left, c));
            i < |s| && s[..i] + s[i + 1..] == Before(u) + Inorder(x.right) + After(u)
  {
    UnderFacts(q, In(R, t.node, t.key, t.color, t.left, c));
    UnderFacts(q, In(R, x.node, x.key, t.color, t.left, c));
    assert Inorder(x) == [Entry(x.node, x.key)] + Inorder(x.right);
    CutSeq(Before(c) + Inorder(t.left), Entry(t.node, t.key), Entry(x.node, x.key), Inorder(x.right), After(q) + After(c), i);
  }

  lemma {:induction false} CutSeq(a: seq<Entry>, e: Entry, f: Entry, r: seq<Entry>, b: seq<Entry>, i: nat)
    requires i == |a|
    ensures var s := a + [e] + ([f] + r) + b; i < |s| && s[..i] + s[i + 1..] == a + [f] + r + b
  {
    var s := a + [e] + ([f] + r) + b;
    assert s[..i] == a;
    assert s[i + 1..] == [f] + r + b;
    assert a + ([f] + r + b) == a + [f] + r + b;
  }

  lemma {:induction false} SwapNodesOf(q: Ctx, t: Tree, c: Ctx, x: Tree, s: seq<Entry>, s1: seq<Entry>)
    requires t.Node? && x.Node? && x.left.Leaf? && LeftWalk(q)
    requires var u := Under(q, In(R, t.node, t.key, t.color, t.left, c)); s == Before(u) + Inorder(x) + After(u)
    requires var u := Under(q, In(R, x.node, x.key, t.color, t.left, c));
             s1 == Before(u) + Inorder(Node(Leaf, t.node, t.key, x.color, x.right)) + After(u)
    ensures Nodes(s1) == Nodes(s)
  {
    AllNodes(Under(q, In(R, t.node, t.key, t.color, t.left, c)), x);
    AllNodes(Under(q, In(R, x.node, x.key, t.color, t.left, c)), Node(Leaf, t.node, t.key, x.color, x.right));
    UnderFacts(q, In(R, t.node, t.key, t.color, t.left, c));
    UnderFacts(q, In(R, x.node, x.key, t.color, t.left, c));
  }

  /** Colours belong to positions, so the exchange keeps every colour rule. */
  lemma {:induction false} SwapColors(q: Ctx, base: Ctx, base': Ctx, x: Tree, m: nat)
    requires base.In? && base'.In? && base' == base.(node := base'.node, key := base'.key)
    requires CtxOk(Under(q, base), m)
    ensures CtxOk(Under(q, base'), m)
    ensures forall col :: Admits(Under(q, base), col) <==> Admits(Under(q, base'), col)
  {
    if q.In? {
      SwapColors(q.up, base, base', x, if q.color.Red? then m else m + 1);
    }
  }
}
