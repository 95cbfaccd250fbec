module RbTree {
  import opened RbShape
  import opened RbDeletion
  import opened AddrTree

  class RbTree {
    var root: Ptr
    var count: nat
    var mem: Mem
    ghost var tree: Tree
    ghost var entries: seq<Entry>

    ghost predicate Valid()
      reads this
    {
      && Zip(mem, root, Top, tree, entries)
      && RedBlack(tree)
      && Sorted(entries)
      && count == |entries|
    }

    constructor (arena: Mem)
      requires arena[NIL] == NilCell
      ensures Valid() && entries == [] && mem == arena
    {
      root, count, mem, tree, entries := NIL, 0, arena, Leaf, [];
      new;
      assert RB(tree, 0);
    }

    /** Redirects the link that leads to `node` from above to `other`. */
    method LinkFromAbove(node: Ptr, other: Ptr, ghost c: Ctx)
      requires 0 < node < |mem| && mem[node].parent == Parent(c)
      requires c.In? ==> 0 < c.node < |mem| && Ptr0(c.sib) != node
                         && mem[c.node] == MkCell(c.dir, Parent(c.up), node, Ptr0(c.sib), c.key, c.color)
      modifies this`root, this`mem
      ensures c.Top? ==> mem == old(mem) && root == other
      ensures c.In? ==> root == old(root) && mem == old(mem)[c.node :=
                          MkCell(c.dir, Parent(c.up), other, Ptr0(c.sib), c.key, c.color)]
    {
      if mem[node].parent != NIL {
        if node == mem[mem[node].parent].left {
          mem := SetLeft(mem, mem[node].parent, other);
        } else {
          mem := SetRight(mem, mem[node].parent, other);
        }
      } else {
        root := other;
      }
    }

    /** The inner subtree of `right` goes under `node`, and `right` under what is above `node`. */
    method MoveInnerLeft(node: Ptr, right: Ptr)
      requires 0 < node < |mem| && 0 < right < |mem| && node != right && mem[node].right == right
      requires mem[right].left < |mem| && mem[right].left !in {node, right}
      modifies this`mem
      ensures var x, y, b := old(mem)[node], old(mem)[right], old(mem)[right].left;
              && |mem| == |old(mem)|
              && mem[node] == x.(right := b) && mem[right] == y.(parent := x.parent)
              && (b != NIL ==> mem[b] == old(mem)[b].(parent := node))
              && forall o | 0 <= o < |mem| && o != node && o != right && (b == NIL || o != b) :: mem[o] == old(mem)[o]
    {
      mem := SetRight(mem, node, mem[right].left);
      if mem[right].left != NIL {
        mem := SetParent(mem, mem[right].left, node);
      }
      mem := SetParent(mem, right, mem[node].parent);
    }

    method RotateLeft(node: Ptr, ghost c: Ctx, ghost t: Tree, ghost s: seq<Entry>)
      requires Zip(mem, root, c, t, s) && t.Node? && t.right.Node? && t.node == node
      modifies this`root, this`mem
      ensures Zip(mem, root, c, Rotated(L, t), s)
      ensures Frame(old(mem), mem, s)
    {
      ghost var h, root0 := mem, root;
      RotBefore(mem, root, c, L, t, s);
      var right := mem[node].right;
      MoveInnerLeft(node, right);
      LinkFromAbove(node, right, c);
      mem := SetLeft(mem, right, node);
      mem := SetParent(mem, node, right);
      RotAfter(h, mem, root0, root, c, L, t, s);
    }

    /** The inner subtree of `left` goes under `node`, and `left` under what is above `node`. */
    method MoveInnerRight(node: Ptr, left: Ptr)
      requires 0 < node < |mem| && 0 < left < |mem| && node != left && mem[node].left == left
      requires mem[left].right < |mem| && mem[left].right !in {node, left}
      modifies this`mem
      ensures var x, y, b := old(mem)[node], old(mem)[left], old(mem)[left].right;
              && |mem| == |old(mem)|
              && mem[node] == x.(left := b) && mem[left] == y.(parent := x.parent)
              && (b != NIL ==> mem[b] == old(mem)[b].(parent := node))
              && forall o | 0 <= o < |mem| && o != node && o != left && (b == NIL || o != b) :: mem[o] == old(mem)[o]
    {
      mem := SetLeft(mem, node, mem[left].right);
      if mem[left].right != NIL {
        mem := SetParent(mem, mem[left].right, node);
      }
      mem := SetParent(mem, left, mem[node].parent);
    }

    method RotateRight(node: Ptr, ghost c: Ctx, ghost t: Tree, ghost s: seq<Entry>)
      requires Zip(mem, root, c, t, s) && t.Node? && t.left.Node? && t.node == node
      modifies this`root, this`mem
      ensures Zip(mem, root, c, Rotated(R, t), s)
      ensures Frame(old(mem), mem, s)
    {
      ghost var h, root0 := mem, root;
      RotBefore(mem, root, c, R, t, s);
      var left := mem[node].left;
      MoveInnerRight(node, left);
      LinkFromAbove(node, left, c);
      mem := SetRight(mem, left, node);
      mem := SetParent(mem, node, left);
      RotAfter(h, mem, root0, root, c, R, t, s);
    }

    method Paint(p: Ptr, col: Color, ghost c: Ctx, ghost t: Tree, ghost s: seq<Entry>)
      requires Zip(mem, root, c, t, s) && t.Node? && t.node == p
      modifies this`mem
      ensures Zip(mem, root, c, t.(color := col), s)
      ensures p < |old(mem)| && mem == SetColor(old(mem), p, col)
      ensures Frame(old(mem), mem, s)
    {
      PaintShape(mem, root, c, t, col, s);
      mem := SetColor(mem, p, col);
    }

    /** The uncle is red: paint it and the parent black, the grandparent red, and go on there. */
    method Recolour(start: Ptr, uncle: Ptr, ghost c: Ctx, ghost t: Tree, ghost n: nat, ghost s: seq<Entry>)
      returns (node: Ptr, ghost c': Ctx, ghost t': Tree, ghost n': nat)
      requires Zip(mem, root, c, t, s) && t.Node? && t.node == start && RB(t, n) && CtxOk(c, n)
      requires c.In? && c.color.Red? && Col(c.up.sib).Red? && uncle == c.up.sib.node
      modifies this`mem
      ensures Zip(mem, root, c', t', s) && t'.Node? && t'.node == node && t'.color.Red?
      ensures RB(t', n') && CtxOk(c', n') && Frame(old(mem), mem, s) && Depth(c') < Depth(c)
    {
      GrandFacts(mem, root, c, t, s);
      RecolourShape(mem, root, c, t, s);
      RecolourColors(c, t, n);
      mem := SetColor(mem, mem[start].parent, Black);
      mem := SetColor(mem, uncle, Black);
      mem := SetColor(mem, mem[mem[start].parent].parent, Red);
      node := mem[mem[start].parent].parent;
      c', t', n' := c.up.up, Recoloured(c, t), n + 1;
    }

    /** The uncle is black and `node` is an outer grandchild: recolour and turn the grandparent. */
    method TurnUnderLeft(node: Ptr, ghost c: Ctx, ghost t: Tree, ghost n: nat, ghost s: seq<Entry>)
      returns (ghost c': Ctx)
      requires Zip(mem, root, c, t, s) && t.Node? && t.node == node
      requires CtxOk(c, n) && c.In? && c.color.Red? && c.dir == L && c.up.dir == L && Col(c.up.sib).Black?
      modifies this`root, this`mem
      ensures Zip(mem, root, c', t, s) && Frame(old(mem), mem, s)
      ensures CtxOk(c', n) && c'.In? && c'.color.Black?
    {
      ghost var g := c.up;
      GrandFacts(mem, root, c, t, s);
      PairShape(mem, root, c, t, s);
      mem := SetColor(mem, mem[node].parent, Black);
      mem := SetColor(mem, mem[mem[node].parent].parent, Red);
      RotateRight(mem[mem[node].parent].parent, g.up, Fill(g.(color := Red), Fill(c.(color := Black), t)), s);
      ghost var gr := Mk(L, c.sib, g.node, g.key, Red, g.sib);
      Descend(mem, root, g.up, L, t, c.node, c.key, Black, gr, s);
      c' := In(L, c.node, c.key, Black, gr, g.up);
    }

    /** One round of the loop below when the parent of `node` is a left child. */
    method FixUnderLeft(start: Ptr, ghost c: Ctx, ghost t: Tree, ghost n: nat, ghost s: seq<Entry>)
      returns (node: Ptr, ghost c': Ctx, ghost t': Tree, ghost n': nat)
      requires Zip(mem, root, c, t, s) && t.Node? && t.node == start && t.color.Red?
      requires RB(t, n) && CtxOk(c, n) && c.In? && c.color.Red? && c.up.dir == L
      modifies this`root, this`mem
      ensures Zip(mem, root, c', t', s) && t'.Node? && t'.node == node && t'.color.Red?
      ensures RB(t', n') && CtxOk(c', n') && Frame(old(mem), mem, s)
      ensures Depth(c') < Depth(c) || (c'.In? && c'.color.Black?)
    {
      node, c', t', n' := start, c, t, n;
      ghost var g := c.up;
      FocusFacts(mem, root, c, t, s);
      Ascend(mem, root, c, t, s);
      FocusFacts(mem, root, g, Fill(c, t), s);
      var uncle := mem[mem[mem[node].parent].parent].right;
      if mem[uncle].color == Red {
        node, c', t', n' := Recolour(node, uncle, c, t, n, s);
      } else {
        if node == mem[mem[node].parent].right {
          node := mem[node].parent;
          RotateLeft(node, g, Fill(c, t), s);
          c', t' := In(L, t.node, t.key, Red, t.right, g), Mk(L, c.sib, c.node, c.key, Red, t.left);
          Descend(mem, root, g, L, t', c'.node, c'.key, Red, c'.sib, s);
        }
        c' := TurnUnderLeft(node, c', t', n, s);
      }
    }

    /** The uncle is black and `node` is an outer grandchild: recolour and turn the grandparent. */
    method TurnUnderRight(node: Ptr, ghost c: Ctx, ghost t: Tree, ghost n: nat, ghost s: seq<Entry>)
      returns (ghost c': Ctx)
      requires Zip(mem, root, c, t, s) && t.Node? && t.node == node
      requires CtxOk(c, n) && c.In? && c.color.Red? && c.dir == R && c.up.dir == R && Col(c.up.sib).Black?
      modifies this`root, this`mem
      ensures Zip(mem, root, c', t, s) && Frame(old(mem), mem, s)
      ensures CtxOk(c', n) && c'.In? && c'.color.Black?
    {
      ghost var g := c.up;
      GrandFacts(mem, root, c, t, s);
      PairShape(mem, root, c, t, s);
      mem := SetColor(mem, mem[node].parent, Black);
      mem := SetColor(mem, mem[mem[node].parent].parent, Red);
      RotateLeft(mem[mem[node].parent].parent, g.up, Fill(g.(color := Red), Fill(c.(color := Black), t)), s);
      ghost var gr := Mk(R, c.sib, g.node, g.key, Red, g.sib);
      Descend(mem, root, g.up, R, t, c.node, c.key, Black, gr, s);
      c' := In(R, c.node, c.key, Black, gr, g.up);
    }

    /** One round of the loop below when the parent of `node` is a right child. */
    method FixUnderRight(start: Ptr, ghost c: Ctx, ghost t: Tree, ghost n: nat, ghost s: seq<Entry>)
      returns (node: Ptr, ghost c': Ctx, ghost t': Tree, ghost n': nat)
      requires Zip(mem, root, c, t, s) && t.Node? && t.node == start && t.color.Red?
      requires RB(t, n) && CtxOk(c, n) && c.In? && c.color.Red? && c.up.dir == R
      modifies this`root, this`mem
      ensures Zip(mem, root, c', t', s) && t'.Node? && t'.node == node && t'.color.Red?
      ensures RB(t', n') && CtxOk(c', n') && Frame(old(mem), mem, s)
      ensures Depth(c') < Depth(c) || (c'.In? && c'.color.Black?)
    {
      node, c', t', n' := start, c, t, n;
      ghost var g := c.up;
      FocusFacts(mem, root, c, t, s);
      Ascend(mem, root, c, t, s);
      FocusFacts(mem, root, g, Fill(c, t), s);
      var uncle := mem[mem[mem[node].parent].parent].left;
      if mem[uncle].color == Red {
        node, c', t', n' := Recolour(node, uncle, c, t, n, s);
      } else {
        if node == mem[mem[node].parent].left {
          node := mem[node].parent;
          RotateRight(node, g, Fill(c, t), s);
          c', t' := In(R, t.node, t.key, Red, t.left, g), Mk(R, c.sib, c.node, c.key, Red, t.right);
          Descend(mem, root, g, R, t', c'.node, c'.key, Red, c'.sib, s);
        }
        c' := TurnUnderRight(node, c', t', n, s);
      }
    }

    /** The loop's state: the red focus `node` breaks at most the rule about red pairs. */
    ghost predicate Fixing(node: Ptr, c: Ctx, t: Tree, n: nat, s: seq<Entry>)
      reads this
    {
      Zip(mem, root, c, t, s) && t.Node? && t.node == node && t.color.Red? && RB(t, n) && CtxOk(c, n)
    }

    method FixRound(start: Ptr, ghost c: Ctx, ghost t: Tree, ghost n: nat, ghost s: seq<Entry>)
      returns (node: Ptr, ghost c': Ctx, ghost t': Tree, ghost n': nat)
      requires Fixing(start, c, t, n, s) && c.In? && c.color.Red?
      modifies this`root, this`mem
      ensures Fixing(node, c', t', n', s) && Frame(old(mem), mem, s)
      ensures Depth(c') < Depth(c) || (c'.In? && c'.color.Black?)
    {
      GrandFacts(mem, root, c, t, s);
      if mem[start].parent == mem[mem[mem[start].parent].parent].left {
        node, c', t', n' := FixUnderLeft(start, c, t, n, s);
      } else {
        node, c', t', n' := FixUnderRight(start, c, t, n, s);
      }
    }

    method InsertFixup(start: Ptr, ghost c0: Ctx, ghost t0: Tree, ghost n0: nat, ghost s: seq<Entry>)
      requires Fixing(start, c0, t0, n0, s)
      modifies this`root, this`mem, this`tree
      ensures Zip(mem, root, Top, tree, s) && RedBlack(tree)
      ensures Frame(old(mem), mem, s)
    {
      var node: Ptr := start;
      ghost var c, t, n: nat := c0, t0, n0;
      GuardFacts(mem, root, c, t, s);
      while node != root && mem[mem[node].parent].color == Red
        invariant Fixing(node, c, t, n, s) && Frame(old(mem), mem, s)
        invariant node < |mem| && mem[node].parent < |mem|
        invariant node != root && mem[mem[node].parent].color == Red <==> c.In? && c.color.Red?
        decreases if c.In? && c.color.Red? then Depth(c) + 1 else 0
      {
        node, c, t, n := FixRound(node, c, t, n, s);
        GuardFacts(mem, root, c, t, s);
      }
      BlackenRoot(c, t, n, s);
    }

    method BlackenRoot(ghost c: Ctx, ghost t: Tree, ghost n: nat, ghost s: seq<Entry>)
      requires Zip(mem, root, c, t, s) && RB(t, n) && CtxOk(c, n) && t.Node? && (c.In? ==> Admits(c, Col(t)))
      modifies this`mem, this`tree
      ensures Zip(mem, root, Top, tree, s) && RedBlack(tree) && Frame(old(mem), mem, s)
    {
      Close(mem, root, c, t, s);
      tree := Plug(c, t);
      PlugColors(c, t, n);
      FocusFacts(mem, root, Top, tree, s);
      Paint(root, Black, Top, tree, s);
      tree := tree.(color := Black);
    }

    /** A key is in the tree when the entry of its rank carries it. */
    ghost predicate Has(k: int)
      reads this
    {
      var i := Rank(entries, k);
      i < |entries| && entries[i].key == k
    }

    method Insert(data: Ptr) returns (r: Option<Ptr>)
      requires Valid() && 0 < data < |mem| && data !in Nodes(entries)
      modifies this
      ensures Valid()
      ensures |mem| == old(|mem|)
      ensures var k := old(mem[data].key); var i := Rank(old(entries), k);
              if old(Has(k)) then
                r == None && entries == old(entries) && mem == old(mem)
              else
                r == Some(data) && entries == old(entries[..i]) + [Entry(data, k)] + old(entries[i..])
      ensures Frame(old(mem), mem, entries)
    {
      ghost var s, k := entries, mem[data].key;
      var node, parent: Ptr := root, NIL;
      var less := false;
      ghost var c, t, n: nat := Top, tree, BlackHeight(tree);
      while node != NIL
        invariant Seeking(mem, root, c, t, s, k) && node == Ptr0(t) && parent == Parent(c)
        invariant RB(t, n) && CtxOk(c, n) && Admits(c, Col(t))
        invariant c.In? ==> (less <==> c.dir.L?)
        modifies {}
        decreases t
      {
        SeekStep(mem, root, c, t, s, k);
        if mem[data].key == mem[node].key {
          return None;
        }
        parent := node;
        less := mem[data].key < mem[node].key;
        StepColors(c, t, n, if less then L else R);
        n := if t.color.Red? then n else n - 1;
        if less {
          node := mem[node].left;
          c, t := In(L, t.node, t.key, t.color, t.right, c), t.left;
        } else {
          node := mem[node].right;
          c, t := In(R, t.node, t.key, t.color, t.left, c), t.right;
        }
      }
      SeekEnd(mem, root, c, s, k);
      AddAt(data, parent, less, c);
      Halves(s, Before(c), After(c));
      return Some(data);
    }

    /** The part of the insertion after the search: link, count, repair. */
    method AddAt(data: Ptr, parent: Ptr, less: bool, ghost c: Ctx)
      requires 0 < data < |mem| && data !in Nodes(entries)
      requires Seeking(mem, root, c, Leaf, entries, mem[data].key) && CtxOk(c, 0) && count == |entries|
      requires parent == Parent(c) && (c.In? ==> (less <==> c.dir.L?))
      modifies this
      ensures Valid()
      ensures entries == Before(c) + [Entry(data, old(mem[data].key))] + After(c)
      ensures Frame(old(mem), mem, entries)
    {
      ghost var k := mem[data].key;
      SortedAdd(Before(c), Entry(data, k), After(c), entries);
      Attach(data, parent, less, c);
      count := count + 1;
      entries := Before(c) + [Entry(data, k)] + After(c);
      InsertFixup(data, c, Node(Leaf, data, k, Red, Leaf), 0, entries);
    }

    /** Initialises the new node and links it below `parent`. */
    method Attach(data: Ptr, parent: Ptr, less: bool, ghost c: Ctx)
      requires Zip(mem, root, c, Leaf, entries) && parent == Parent(c) && (c.In? ==> (less <==> c.dir.L?))
      requires 0 < data < |mem| && data !in Nodes(entries)
      modifies this`root, this`mem
      ensures Zip(mem, root, c, Node(Leaf, data, old(mem[data].key), Red, Leaf),
                  Before(c) + [Entry(data, old(mem[data].key))] + After(c))
      ensures Frame(old(mem), mem, Before(c) + [Entry(data, old(mem[data].key))] + After(c))
    {
      ghost var h, root0, k := mem, root, mem[data].key;
      FocusFacts(mem, root, c, Leaf, entries);
      mem := mem[data := Cell(parent, NIL, NIL, mem[data].key, Red)];
      if parent != NIL {
        if less {
          mem := SetLeft(mem, parent, data);
        } else {
          mem := SetRight(mem, parent, data);
        }
      } else {
        root := data;
      }
      AttachShape(h, mem, root0, root, c, data, k, entries);
      ZipNodes(mem, root, c, Node(Leaf, data, k, Red, Leaf), Before(c) + [Entry(data, k)] + After(c));
    }

    method FindLessEqual(k: int) returns (exact: bool, result: Option<Ptr>)
      requires Valid()
      ensures exact <==> Has(k)
      ensures var i := Rank(entries, k);
              result == if exact then Some(entries[i].node)
                        else if i == 0 then None else Some(entries[i - 1].node)
    {
      var node := root;
      result := None;
      ghost var c, t := Top, tree;
      while node != NIL
        invariant Seeking(mem, root, c, t, entries, k) && node == Ptr0(t)
        invariant result == Below(c)
        decreases t
      {
        SeekStep(mem, root, c, t, entries, k);
        if k == mem[node].key {
          return true, Some(node);
        }
        if k < mem[node].key {
          node := mem[node].left;
          c, t := In(L, t.node, t.key, t.color, t.right, c), t.left;
        } else {
          result := Some(node);
          node := mem[node].right;
          c, t := In(R, t.node, t.key, t.color, t.left, c), t.right;
        }
        BelowStep(c);
      }
      BelowEnd(mem, root, c, entries, k);
      return false, result;
    }

    method Search(k: int) returns (r: Option<Ptr>)
      requires Valid()
      ensures r == if Has(k) then Some(entries[Rank(entries, k)].node) else None
    {
      var exact, node := FindLessEqual(k);
      return if exact then node else None;
    }

    /** The smallest node, or the sentinel when the tree is empty. */
    method First() returns (node: Ptr)
      requires Valid()
      ensures node == if entries == [] then NIL else entries[0].node
    {
      node := root;
      ghost var c, t := Top, tree;
      NilFacts(mem, root, c, t, entries);
      while mem[node].left != NIL
        invariant Zip(mem, root, c, t, entries) && node == Ptr0(t) && Before(c) == []
        invariant node < |mem| && mem[node].left == (if t.Leaf? then NIL else Ptr0(t.left))
        invariant t.Leaf? ==> c.Top?
        decreases t
      {
        Descend(mem, root, c, L, t.left, t.node, t.key, t.color, t.right, entries);
        NilFacts(mem, root, c, t, entries);
        node := mem[node].left;
        c, t := In(L, t.node, t.key, t.color, t.right, c), t.left;
        NilFacts(mem, root, c, t, entries);
      }
      NilFacts(mem, root, c, t, entries);
    }

    /** The node after `start` in key order, or the sentinel after the last one. */
    method Next(start: Ptr, ghost i: nat) returns (node: Ptr)
      requires Valid() && i < |entries| && entries[i].node == start
      ensures node == if i + 1 < |entries| then entries[i + 1].node else NIL
    {
      ghost var c, t, n := ZipAt(mem, root, Top, tree, BlackHeight(tree), entries, i);
      node := start;
      NilFacts(mem, root, c, t, entries);
      if mem[node].right != NIL {
        Descend(mem, root, c, R, t.right, t.node, t.key, t.color, t.left, entries);
        node := mem[node].right;
        c, t := In(R, t.node, t.key, t.color, t.left, c), t.right;
        NilFacts(mem, root, c, t, entries);
        while mem[node].left != NIL
          invariant Zip(mem, root, c, t, entries) && node == Ptr0(t) && |Before(c)| == i + 1 && t.Node?
          invariant node < |mem| && mem[node].left == Ptr0(t.left)
          decreases t
        {
          Descend(mem, root, c, L, t.left, t.node, t.key, t.color, t.right, entries);
          NilFacts(mem, root, c, t, entries);
          node := mem[node].left;
          c, t := In(L, t.node, t.key, t.color, t.right, c), t.left;
          NilFacts(mem, root, c, t, entries);
        }
        NilFacts(mem, root, c, t, entries);
      } else {
        node := NextAbove(node, i, c, t);
      }
    }

    /** Climbs from a node without a right subtree to the first ancestor that it precedes. */
    method NextAbove(start: Ptr, ghost i: nat, ghost c0: Ctx, ghost t0: Tree) returns (parent: Ptr)
      requires Zip(mem, root, c0, t0, entries) && t0.Node? && start == t0.node
      requires |Before(c0)| + |Inorder(t0)| == i + 1
      ensures parent == if i + 1 < |entries| then entries[i + 1].node else NIL
    {
      var node := start;
      ghost var c, t := c0, t0;
      NilFacts(mem, root, c, t, entries);
      parent := mem[node].parent;
      while parent != NIL && node == mem[parent].right
        invariant Zip(mem, root, c, t, entries) && node == Ptr0(t) && t.Node? && parent == Parent(c)
        invariant |Before(c)| + |Inorder(t)| == i + 1
        invariant parent < |mem| && (c.Top? <==> parent == NIL)
        invariant c.In? ==> (node == mem[parent].right <==> c.dir.R?)
        decreases c
      {
        Ascend(mem, root, c, t, entries);
        node := parent;
        c, t := c.up, Fill(c, t);
        NilFacts(mem, root, c, t, entries);
        parent := mem[parent].parent;
      }
      assert |entries| == |Before(c)| + |Inorder(t)| + |After(c)|;
      assert c.In? ==> entries[i + 1] == After(c)[0] == Entry(c.node, c.key);
    }

    method ChangeParentPtr(parent: Ptr, was: Ptr, now: Ptr)
      requires parent < |mem|
      modifies this`root, this`mem
      ensures if parent == NIL then mem == old(mem) && root == (if old(root) == was then now else old(root))
              else root == old(root) && mem == old(mem)[parent := old(mem)[parent].(
                     left := if old(mem)[parent].left == was then now else old(mem)[parent].left,
                     right := if old(mem)[parent].right == was then now else old(mem)[parent].right)]
    {
      if parent == NIL {
        if root == was {
          root := now;
        }
        return;
      }
      if mem[parent].left == was {
        mem := SetLeft(mem, parent, now);
      }
      if mem[parent].right == was {
        mem := SetRight(mem, parent, now);
      }
    }

    method ChangeChildPtr(child: Ptr, was: Ptr, now: Ptr)
      requires child < |mem|
      modifies this`mem
      ensures mem == if child == NIL || old(mem)[child].parent != was then old(mem)
                     else SetParent(old(mem), child, now)
    {
      if child == NIL {
        return;
      }
      if mem[child].parent == was {
        mem := SetParent(mem, child, now);
      }
    }

    /** Exchanges a node with its successor by readjusting links, not by copying keys. */
    method SwapNodes(toDelete: Ptr, smright: Ptr, ghost q: Ctx, ghost t: Tree, ghost c: Ctx, ghost x: Tree, ghost s: seq<Entry>)
      requires t.Node? && t.node == toDelete && x.Node? && x.node == smright && x.left.Leaf? && LeftWalk(q)
      requires Zip(mem, root, Under(q, In(R, t.node, t.key, t.color, t.left, c)), x, s)
      modifies this`root, this`mem
      ensures Zip(mem, root, Under(q, In(R, x.node, x.key, t.color, t.left, c)),
                  Node(Leaf, t.node, t.key, x.color, x.right),
                  Before(c) + Inorder(t.left) + [Entry(x.node, x.key)] + ([Entry(t.node, t.key)] + Inorder(x.right))
                  + (After(q) + After(c)))
      ensures Frame(old(mem), mem, s)
    {
      ghost var h, root0 := mem, root;
      SwapCells(toDelete, smright, q, t, c, x, s);
      SwapShape(h, mem, root0, root, q, t.node, t.key, t.color, t.left, c, x.node, x.key, x.color, x.right, s);
    }

    method SwapCells(toDelete: Ptr, smright: Ptr, ghost q: Ctx, ghost t: Tree, ghost c: Ctx, ghost x: Tree, ghost s: seq<Entry>)
      requires t.Node? && t.node == toDelete && x.Node? && x.node == smright && x.left.Leaf? && LeftWalk(q)
      requires Zip(mem, root, Under(q, In(R, t.node, t.key, t.color, t.left, c)), x, s)
      modifies this`root, this`mem
      ensures Swapped(old(mem), mem, old(root), root, q, t.node, t.key, t.color, t.left, c, x.node, x.key, x.color, x.right)
      ensures SameKeys(old(mem), mem)
    {
      ghost var h, root0 := mem, root;
      SwapAbove(toDelete, smright, q, t, c, x, s);
      ghost var h1 := mem;
      AboveLinked(h, h1, root0, root, q, t.node, t.key, t.color, t.left, c, x.node, x.key, x.color, x.right, s);
      SwapBelow(toDelete, smright, Ptr0(t.left), if q.Top? then smright else Outer(q), Ptr0(x.right));
      ghost var h2 := mem;
      SwapLinks(toDelete, smright);
      SwapTogether(h, h1, h2, mem, root0, root, q, t.node, t.key, t.color, t.left, c, x.node, x.key, x.color, x.right, s);
    }

    method ExchangeColors(toDelete: Ptr, smright: Ptr)
      requires toDelete < |mem| && smright < |mem| && toDelete != smright
      modifies this`mem
      ensures |mem| == |old(mem)|
      ensures mem[toDelete] == old(mem)[toDelete].(color := old(mem)[smright].color)
      ensures mem[smright] == old(mem)[smright].(color := old(mem)[toDelete].color)
      ensures forall o | 0 <= o < |mem| && o != toDelete && o != smright :: mem[o] == old(mem)[o]
    {
      var col := mem[toDelete].color;
      mem := SetColor(mem, toDelete, mem[smright].color);
      mem := SetColor(mem, smright, col);
    }

    /** Colours, and the links that lead to the two nodes from above. */
    method SwapAbove(toDelete: Ptr, smright: Ptr, ghost q: Ctx, ghost t: Tree, ghost c: Ctx, ghost x: Tree, ghost s: seq<Entry>)
      requires t.Node? && t.node == toDelete && x.Node? && x.node == smright && x.left.Leaf? && LeftWalk(q)
      requires Zip(mem, root, Under(q, In(R, t.node, t.key, t.color, t.left, c)), x, s)
      modifies this`root, this`mem
      ensures SameKeys(old(mem), mem)
      ensures SwappedAbove(old(mem), mem, old(root), root, q, toDelete, t.color, c, smright, x.color)
    {
      SwapFacts(mem, root, q, t.node, t.key, t.color, t.left, c, x.node, x.key, x.color, x.right, s);
      ExchangeColors(toDelete, smright);
      ChangeParentPtr(mem[toDelete].parent, toDelete, smright);
      if mem[toDelete].right != smright {
        ChangeParentPtr(mem[smright].parent, smright, toDelete);
      }
    }

    /** The children that keep their place under the other node. */
    method SwapKids(toDelete: Ptr, smright: Ptr, ghost l: Ptr, ghost z: Ptr)
      requires 0 < toDelete < |mem| && 0 < smright < |mem| && toDelete != smright
      requires mem[toDelete].left == l < |mem| && mem[smright].left == NIL && mem[smright].right == z < |mem|
      requires l !in {toDelete, smright} && z !in {toDelete, smright}
      requires l != NIL ==> l != z && mem[l].parent == toDelete
      requires z != NIL ==> mem[z].parent == smright
      modifies this`mem
      ensures SameKeys(old(mem), mem)
      ensures l != NIL ==> mem[l] == old(mem)[l].(parent := smright)
      ensures z != NIL ==> mem[z] == old(mem)[z].(parent := toDelete)
      ensures forall o | 0 <= o < |mem| && (o == NIL || o !in {l, z}) :: mem[o] == old(mem)[o]
    {
      ChangeChildPtr(mem[smright].left, smright, toDelete);
      ChangeChildPtr(mem[smright].left, smright, toDelete);
      ChangeChildPtr(mem[smright].right, smright, toDelete);
      ChangeChildPtr(mem[smright].right, smright, toDelete);
      ChangeChildPtr(mem[toDelete].left, toDelete, smright);
    }

    /** The parent links of the children of the two nodes. */
    method SwapBelow(toDelete: Ptr, smright: Ptr, ghost l: Ptr, ghost r: Ptr, ghost z: Ptr)
      requires KidsLinked(mem, toDelete, smright, l, r, z)
      modifies this`mem
      ensures SameKeys(old(mem), mem)
      ensures SwappedBelow(old(mem), mem, toDelete, smright, l, r, z)
    {
      SwapKids(toDelete, smright, l, z);
      if mem[toDelete].right != smright {
        ChangeChildPtr(mem[toDelete].right, toDelete, smright);
      }
      if mem[toDelete].right == smright {
        mem := SetRight(mem, toDelete, toDelete);
        mem := SetParent(mem, smright, smright);
      }
    }

    method SwapLinks(toDelete: Ptr, smright: Ptr)
      requires toDelete < |mem| && smright < |mem| && toDelete != smright
      modifies this`mem
      ensures var d, x := old(mem)[toDelete], old(mem)[smright];
              mem == old(mem)[toDelete := Cell(x.parent, x.left, x.right, d.key, d.color)]
                             [smright := Cell(d.parent, d.left, d.right, x.key, x.color)]
    {
      var p, l, r := mem[toDelete].parent, mem[toDelete].left, mem[toDelete].right;
      mem := SetParent(mem, toDelete, mem[smright].parent);
      mem := SetParent(mem, smright, p);
      mem := SetLeft(mem, toDelete, mem[smright].left);
      mem := SetLeft(mem, smright, l);
      mem := SetRight(mem, toDelete, mem[smright].right);
      mem := SetRight(mem, smright, r);
    }

    // ----- repairs after a deletion

    /** The sibling is red: turn the parent so that the focus gets a black sibling. */
    method RedSibling(child: Ptr, childParent: Ptr, red: Ptr, ghost c: Ctx, ghost t: Tree, ghost s: seq<Entry>)
      returns (sibling: Ptr)
      requires Zip(mem, root, c, t, s) && c.In? && c.sib.Node? && Kid(c.dir, c.sib).Node?
      requires child == Ptr0(t) && childParent == c.node && red == c.sib.node
      modifies this`root, this`mem
      ensures Zip(mem, root, UnderRedParent(c), t, s) && sibling == Kid(c.dir, c.sib).node
      ensures Frame(old(mem), mem, s)
    {
      SwapSiblingColor(childParent, red, c, t, s);
      ghost var b := c.(color := Red, sib := c.sib.(color := Black));
      TurnParent(child, childParent, b, t, s);
      RedTurned(mem, root, c, t, s);
      sibling := SiblingOf(mem, childParent, child);
    }

    /** The parent becomes red and its red child black. */
    method SwapSiblingColor(childParent: Ptr, red: Ptr, ghost c: Ctx, ghost t: Tree, ghost s: seq<Entry>)
      requires Zip(mem, root, c, t, s) && c.In? && c.sib.Node? && childParent == c.node && red == c.sib.node
      modifies this`mem
      ensures Zip(mem, root, c.(color := Red, sib := c.sib.(color := Black)), t, s) && Frame(old(mem), mem, s)
    {
      SibFacts(mem, root, c, t, s);
      PaintPair(mem, root, c, t, Red, Black, s);
      mem := SetColor(mem, childParent, Red);
      mem := SetColor(mem, red, Black);
    }

    /** Rotates the parent of the focus towards the focus. */
    method TurnParent(child: Ptr, childParent: Ptr, ghost c: Ctx, ghost t: Tree, ghost s: seq<Entry>)
      requires Zip(mem, root, c, t, s) && c.In? && c.sib.Node? && child == Ptr0(t) && childParent == c.node
      modifies this`root, this`mem
      ensures Zip(mem, root, c.up, Rotated(c.dir, Fill(c, t)), s) && Frame(old(mem), mem, s)
    {
      SibFacts(mem, root, c, t, s);
      Ascend(mem, root, c, t, s);
      if mem[childParent].right == child {
        RotateRight(childParent, c.up, Fill(c, t), s);
      } else {
        RotateLeft(childParent, c.up, Fill(c, t), s);
      }
    }

    /** Keeps the tree once every rule holds again. */
    ghost method Finish(c: Ctx, t: Tree, s: seq<Entry>)
      requires Zip(mem, root, c, t, s) && RedBlack(Plug(c, t))
      modifies this`tree
      ensures Zip(mem, root, Top, tree, s) && RedBlack(tree)
    {
      Close(mem, root, c, t, s);
      tree := Plug(c, t);
    }

    method DeleteFixup(child0: Ptr, parent0: Ptr, ghost c0: Ctx, ghost t0: Tree, ghost n0: nat, ghost s: seq<Entry>)
      requires Zip(mem, root, c0, t0, s) && Short(c0, t0, n0) && child0 == Ptr0(t0) && parent0 == Parent(c0)
      modifies this`root, this`mem, this`tree
      ensures Zip(mem, root, Top, tree, s) && RedBlack(tree) && Frame(old(mem), mem, s)
    {
      var child, childParent: Ptr := child0, parent0;
      ghost var c, t, n: nat := c0, t0, n0;
      var goUp := true;
      ParentIn(mem, root, c, t, s);
      var sibling := SiblingOf(mem, childParent, child);
      while goUp
        invariant Zip(mem, root, c, t, s) && Short(c, t, n) && Frame(old(mem), mem, s)
        invariant child == Ptr0(t) && childParent == Parent(c) && (c.Top? <==> childParent == NIL)
        invariant c.In? ==> c.sib.Node? && sibling == c.sib.node
        invariant !goUp ==> c.In? && c.sib.color.Black?
        invariant !goUp && Col(c.sib.left).Black? && Col(c.sib.right).Black? ==> c.color.Red?
        decreases goUp, Depth(c)
      {
        if childParent == NIL {
          CloseColors(c, t, n);
          Finish(c, t, s);
          return;
        }
        goUp, child, childParent, sibling, c, t, n := DeleteRound(child, childParent, sibling, c, t, n, s);
      }
      Settle(child, childParent, sibling, c, t, n, s);
    }

    /** One round of the loop above, below the root. */
    method DeleteRound(child0: Ptr, parent0: Ptr, sibling0: Ptr, ghost c0: Ctx, ghost t0: Tree, ghost n0: nat, ghost s: seq<Entry>)
      returns (goUp: bool, child: Ptr, childParent: Ptr, sibling: Ptr, ghost c: Ctx, ghost t: Tree, ghost n: nat)
      requires Zip(mem, root, c0, t0, s) && Short(c0, t0, n0) && c0.In?
      requires child0 == Ptr0(t0) && parent0 == c0.node && c0.sib.Node? && sibling0 == c0.sib.node
      modifies this`root, this`mem
      ensures Zip(mem, root, c, t, s) && Short(c, t, n) && Frame(old(mem), mem, s)
      ensures child == Ptr0(t) && childParent == Parent(c) && (c.Top? <==> childParent == NIL)
      ensures c.In? ==> c.sib.Node? && sibling == c.sib.node
      ensures !goUp ==> c.In? && c.sib.color.Black?
      ensures !goUp && Col(c.sib.left).Black? && Col(c.sib.right).Black? ==> c.color.Red?
      ensures goUp ==> Depth(c) < Depth(c0)
    {
      child, childParent, sibling, c, t, n := child0, parent0, sibling0, c0, t0, n0;
      SibFacts(mem, root, c, t, s);
      if mem[sibling].color == Red {
        RedSiblingColors(c, t, n);
        sibling := RedSibling(child, childParent, sibling, c, t, s);
        c := UnderRedParent(c);
        SibFacts(mem, root, c, t, s);
      }
      if mem[childParent].color == Black && mem[sibling].color == Black
         && mem[mem[sibling].left].color == Black && mem[mem[sibling].right].color == Black {
        GoUpColors(c, t, n);
        PaintSibling(mem, root, c, t, Red, s);
        if sibling != NIL {
          mem := SetColor(mem, sibling, Red);
        }
        ghost var b := c.(sib := c.sib.(color := Red));
        SibFacts(mem, root, b, t, s);
        Ascend(mem, root, b, t, s);
        child := childParent;
        childParent := mem[childParent].parent;
        c, t, n := b.up, Fill(b, t), n + 1;
        ParentIn(mem, root, c, t, s);
        sibling := SiblingOf(mem, childParent, child);
        goUp := true;
      } else {
        goUp := false;
      }
    }

    /** After the loop: the parent is red, or a nephew is. */
    method Settle(child: Ptr, childParent: Ptr, black: Ptr, ghost c: Ctx, ghost t: Tree, ghost n: nat, ghost s: seq<Entry>)
      requires Zip(mem, root, c, t, s) && Short(c, t, n) && c.In? && c.sib.Node? && c.sib.color.Black?
      requires child == Ptr0(t) && childParent == c.node && black == c.sib.node
      requires Col(c.sib.left).Black? && Col(c.sib.right).Black? ==> c.color.Red?
      modifies this`root, this`mem, this`tree
      ensures Zip(mem, root, Top, tree, s) && RedBlack(tree) && Frame(old(mem), mem, s)
    {
      var sibling := black;
      ghost var b;
      SibFacts(mem, root, c, t, s);
      if mem[childParent].color == Red && mem[sibling].color == Black
         && mem[mem[sibling].left].color == Black && mem[mem[sibling].right].color == Black {
        RedParentColors(c, t, n);
        PayFromParent(childParent, sibling, c, t, s);
        Finish(c.(color := Black, sib := c.sib.(color := Red)), t, s);
        return;
      }
      sibling, b := TurnIfInner(child, childParent, sibling, c, t, n, s);
      OuterColors(b, t, n);
      Repay(child, childParent, sibling, b, t, s);
      Finish(b.up, Repaid(b, t), s);
    }

    /** The parent is red: it becomes black and the sibling red. */
    method PayFromParent(childParent: Ptr, sibling: Ptr, ghost c: Ctx, ghost t: Tree, ghost s: seq<Entry>)
      requires Zip(mem, root, c, t, s) && c.In? && c.sib.Node? && childParent == c.node && sibling == c.sib.node
      modifies this`mem
      ensures Zip(mem, root, c.(color := Black, sib := c.sib.(color := Red)), t, s) && Frame(old(mem), mem, s)
    {
      SibFacts(mem, root, c, t, s);
      PaintSibling(mem, root, c, t, Red, s);
      if sibling != NIL {
        mem := SetColor(mem, sibling, Red);
      }
      PaintParent(mem, root, c.(sib := c.sib.(color := Red)), t, Black, s);
      mem := SetColor(mem, childParent, Black);
    }

    /** Makes the outer nephew red when only the inner one is. */
    method TurnIfInner(child: Ptr, childParent: Ptr, black: Ptr, ghost c: Ctx, ghost t: Tree, ghost n: nat, ghost s: seq<Entry>)
      returns (sibling: Ptr, ghost b: Ctx)
      requires Zip(mem, root, c, t, s) && Short(c, t, n) && c.In? && c.sib.Node? && c.sib.color.Black?
      requires child == Ptr0(t) && childParent == c.node && black == c.sib.node
      requires Col(c.sib.left).Red? || Col(c.sib.right).Red?
      modifies this`root, this`mem
      ensures Zip(mem, root, b, t, s) && Frame(old(mem), mem, s) && Short(b, t, n) && b.In?
      ensures childParent == b.node && b.sib.Node? && sibling == b.sib.node && b.sib.color.Black?
      ensures Col(Kid(Other(b.dir), b.sib)).Red?
    {
      sibling, b := black, c;
      SibFacts(mem, root, c, t, s);
      if mem[childParent].right == child && mem[sibling].color == Black
         && mem[mem[sibling].right].color == Red && mem[mem[sibling].left].color == Black {
        InnerColors(c, t, n);
        sibling := TurnSibling(child, childParent, sibling, c, t, s);
        b := c.(sib := TurnedSibling(c));
      } else if mem[childParent].left == child && mem[sibling].color == Black
                && mem[mem[sibling].left].color == Red && mem[mem[sibling].right].color == Black {
        InnerColors(c, t, n);
        sibling := TurnSibling(child, childParent, sibling, c, t, s);
        b := c.(sib := TurnedSibling(c));
      }
    }

    /** The inner nephew is red and the outer one black: turn the sibling outwards. */
    method TurnSibling(child: Ptr, childParent: Ptr, black: Ptr, ghost c: Ctx, ghost t: Tree, ghost s: seq<Entry>)
      returns (sibling: Ptr)
      requires Zip(mem, root, c, t, s) && c.In? && c.sib.Node? && Kid(c.dir, c.sib).Node?
      requires child == Ptr0(t) && childParent == c.node && black == c.sib.node
      modifies this`root, this`mem
      ensures Zip(mem, root, c.(sib := TurnedSibling(c)), t, s) && sibling == TurnedSibling(c).node
      ensures Frame(old(mem), mem, s)
    {
      PaintBelow(mem, root, c, t, c.dir, Red, Black, s);
      ghost var e := WithKid(c.dir, c.sib.(color := Red), Kid(c.dir, c.sib).(color := Black));
      ghost var f := In(Other(c.dir), c.node, c.key, c.color, t, c.up);
      mem := SetColor(mem, black, Red);
      if mem[childParent].right == child {
        mem := SetColor(mem, mem[black].right, Black);
        ToSibling(mem, root, c.(sib := e), t, s);
        RotateLeft(black, f, e, s);
      } else {
        mem := SetColor(mem, mem[black].left, Black);
        ToSibling(mem, root, c.(sib := e), t, s);
        RotateRight(black, f, e, s);
      }
      ToSibling(mem, root, f, TurnedSibling(c), s);
      SibFacts(mem, root, c.(sib := TurnedSibling(c)), t, s);
      sibling := SiblingOf(mem, childParent, child);
    }

    /** The outer nephew is red: exchange colours and turn the parent. */
    method Repay(child: Ptr, childParent: Ptr, sibling: Ptr, ghost c: Ctx, ghost t: Tree, ghost s: seq<Entry>)
      requires Zip(mem, root, c, t, s) && c.In? && c.sib.Node? && Kid(Other(c.dir), c.sib).Node?
      requires child == Ptr0(t) && childParent == c.node && sibling == c.sib.node
      modifies this`root, this`mem
      ensures Zip(mem, root, c.up, Repaid(c, t), s) && Frame(old(mem), mem, s)
    {
      SibFacts(mem, root, c, t, s);
      PaintPair(mem, root, c, t, Black, c.color, s);
      mem := SetColor(mem, sibling, mem[childParent].color);
      mem := SetColor(mem, childParent, Black);
      assert mem == SetColor(SetColor(old(mem), childParent, Black), sibling, c.color);
      PaintOuter(child, childParent, sibling, c.(color := Black, sib := c.sib.(color := c.color)), t, s);
    }

    /** The last step of the above: the outer nephew becomes black and the parent turns. */
    method PaintOuter(child: Ptr, childParent: Ptr, sibling: Ptr, ghost c: Ctx, ghost t: Tree, ghost s: seq<Entry>)
      requires Zip(mem, root, c, t, s) && c.In? && c.sib.Node? && Kid(Other(c.dir), c.sib).Node?
      requires child == Ptr0(t) && childParent == c.node && sibling == c.sib.node
      modifies this`root, this`mem
      ensures Zip(mem, root, c.up, Rotated(c.dir, Fill(c.(sib :=
                WithKid(Other(c.dir), c.sib, Kid(Other(c.dir), c.sib).(color := Black))), t)), s)
      ensures Frame(old(mem), mem, s)
    {
      SibFacts(mem, root, c, t, s);
      PaintNephew(mem, root, c, t, Other(c.dir), Black, s);
      if mem[childParent].right == child {
        mem := SetColor(mem, mem[sibling].left, Black);
      } else {
        mem := SetColor(mem, mem[sibling].right, Black);
      }
      ghost var b := c.(sib := WithKid(Other(c.dir), c.sib, Kid(Other(c.dir), c.sib).(color := Black)));
      TurnParent(child, childParent, b, t, s);
    }

    /** Takes out a node with at most one child and repairs the colours. */
    method Unlink(toDelete: Ptr, ghost c: Ctx, ghost t: Tree, ghost n: nat, ghost s: seq<Entry>) returns (ghost s': seq<Entry>)
      requires Zip(mem, root, c, t, s) && t.Node? && t.node == toDelete && (t.left.Leaf? || t.right.Leaf?)
      requires RB(t, n) && CtxOk(c, n) && Admits(c, t.color)
      modifies this`root, this`mem, this`tree
      ensures s' == Before(c) + Inorder(if t.left.Node? then t.left else t.right) + After(c)
      ensures Zip(mem, root, Top, tree, s') && RedBlack(tree)
      ensures Frame(old(mem), mem, s)
    {
      ghost var kid := if t.left.Node? then t.left else t.right;
      s' := Before(c) + Inorder(kid) + After(c);
      NilFacts(mem, root, c, t, s);
      var child := if mem[toDelete].left != NIL then mem[toDelete].left else mem[toDelete].right;
      Bypass(toDelete, child, c, t, kid, s);
      NilFacts(mem, root, c, kid, s');
      Recover(toDelete, child, c, t, kid, n, s');
      Detach(toDelete, s');
    }

    /** Repairs the colours after a node of colour `mem[toDelete].color` went from above the focus. */
    method Recover(toDelete: Ptr, child: Ptr, ghost c: Ctx, ghost t: Tree, ghost kid: Tree, ghost n: nat, ghost s: seq<Entry>)
      requires Zip(mem, root, c, kid, s) && t.Node? && child == Ptr0(kid)
      requires (t.left.Leaf? && kid == t.right) || (t.right.Leaf? && kid == t.left)
      requires RB(t, n) && CtxOk(c, n) && Admits(c, t.color)
      requires toDelete < |mem| && mem[toDelete].color == t.color && mem[toDelete].parent == Parent(c)
      modifies this`root, this`mem, this`tree
      ensures Zip(mem, root, Top, tree, s) && RedBlack(tree) && Frame(old(mem), mem, s)
    {
      NilFacts(mem, root, c, kid, s);
      if mem[toDelete].color == Red {
        CloseColors(c, kid, n);
        Finish(c, kid, s);
      } else if mem[child].color == Red {
        PaintShape(mem, root, c, kid, Black, s);
        if child != NIL {
          mem := SetColor(mem, child, Black);
        }
        CloseColors(c, kid.(color := Black), n);
        Finish(c, kid.(color := Black), s);
      } else {
        DeleteFixup(child, mem[toDelete].parent, c, kid, n - 1, s);
      }
    }

    /** Clears the links of a node that is out of the tree. */
    method Detach(toDelete: Ptr, ghost s: seq<Entry>)
      requires 0 < toDelete < |mem| && toDelete !in Nodes(s) && Zip(mem, root, Top, tree, s)
      modifies this`mem
      ensures mem == old(mem)[toDelete := Cell(NIL, NIL, NIL, old(mem)[toDelete].key, Black)]
      ensures Zip(mem, root, Top, tree, s)
    {
      ghost var h := mem;
      mem := SetParent(mem, toDelete, NIL);
      mem := SetLeft(mem, toDelete, NIL);
      mem := SetRight(mem, toDelete, NIL);
      mem := SetColor(mem, toDelete, Black);
      ZipFrame(h, mem, root, Top, tree, s);
    }

    /** Links the only child of a node to the node's parent. */
    method Bypass(toDelete: Ptr, child: Ptr, ghost c: Ctx, ghost t: Tree, ghost kid: Tree, ghost s: seq<Entry>)
      requires Zip(mem, root, c, t, s) && t.Node? && t.node == toDelete && child == Ptr0(kid)
      requires (t.left.Leaf? && kid == t.right) || (t.right.Leaf? && kid == t.left)
      modifies this`root, this`mem
      ensures Zip(mem, root, c, kid, Before(c) + Inorder(kid) + After(c))
      ensures toDelete !in Nodes(Before(c) + Inorder(kid) + After(c))
      ensures Nodes(Before(c) + Inorder(kid) + After(c)) <= Nodes(s)
      ensures toDelete < |mem| && toDelete != NIL && toDelete in Nodes(s) && mem[toDelete] == old(mem)[toDelete]
      ensures mem[toDelete].color == t.color && mem[toDelete].parent == Parent(c)
      ensures Frame(old(mem), mem, s)
    {
      ghost var h, root0 := mem, root;
      FocusFacts(mem, root, c, t, s);
      KidFacts(mem, root, c, t, kid, s);
      ChangeParentPtr(mem[toDelete].parent, toDelete, child);
      ChangeChildPtr(child, toDelete, mem[toDelete].parent);
      SpliceShape(h, mem, root0, root, c, t, kid, s);
    }

    method Delete(k: int) returns (r: Option<Ptr>)
      requires Valid()
      modifies this
      ensures Valid()
      ensures var i := Rank(old(entries), k);
              if old(Has(k)) then
                r == Some(old(entries)[i].node) && entries == old(entries[..i]) + old(entries[i + 1..])
              else
                r == None && entries == old(entries) && mem == old(mem)
      ensures Frame(old(mem), mem, old(entries))
    {
      var found := Search(k);
      if found.None? {
        return None;
      }
      var toDelete := found.value;
      ghost var s, i := entries, Rank(entries, k);
      ghost var c, t, n := ZipAt(mem, root, Top, tree, BlackHeight(tree), entries, i);
      count := count - 1;
      entries := DeleteNode(toDelete, c, t, n, i);
      SortedCutOut(s, i);
      return Some(toDelete);
    }

    /** Takes out the node, at once or from where its successor was. */
    method DeleteNode(toDelete: Ptr, ghost c: Ctx, ghost t: Tree, ghost n: nat, ghost i: nat) returns (ghost s': seq<Entry>)
      requires Zip(mem, root, c, t, entries) && CtxOk(c, n) && RB(t, n) && Admits(c, Col(t))
      requires t.Node? && t.node == toDelete && |Before(c)| + |Inorder(t.left)| == i < |entries|
      modifies this`root, this`mem, this`tree
      ensures s' == entries[..i] + entries[i + 1..]
      ensures Zip(mem, root, Top, tree, s') && RedBlack(tree)
      ensures Frame(old(mem), mem, entries)
    {
      NilFacts(mem, root, c, t, entries);
      if mem[toDelete].left != NIL && mem[toDelete].right != NIL {
        s' := DeleteInner(toDelete, c, t, n, i);
      } else {
        s' := Unlink(toDelete, c, t, n, entries);
        CutOne(entries, i, Before(c), t, After(c));
      }
    }

    /** The smallest node of the subtree at `start`. */
    method Smallest(start: Ptr, ghost base: Ctx, ghost t: Tree, ghost n: nat)
      returns (smright: Ptr, ghost q: Ctx, ghost x: Tree, ghost m: nat)
      requires Zip(mem, root, base, t, entries) && t.Node? && start == t.node
      requires CtxOk(base, n) && RB(t, n) && Admits(base, Col(t))
      ensures Zip(mem, root, Under(q, base), x, entries) && LeftWalk(q) && x.Node? && smright == x.node && x.left.Leaf?
      ensures CtxOk(Under(q, base), m) && RB(x, m) && Admits(Under(q, base), Col(x))
    {
      smright, q, x, m := start, Top, t, n;
      NilFacts(mem, root, base, x, entries);
      while mem[smright].left != NIL
        invariant Zip(mem, root, Under(q, base), x, entries) && LeftWalk(q) && x.Node? && smright == x.node < |mem|
        invariant CtxOk(Under(q, base), m) && RB(x, m) && Admits(Under(q, base), Col(x))
        invariant mem[smright].left == NIL <==> x.left.Leaf?
        invariant mem[smright].left == Ptr0(x.left)
        decreases x
      {
        Descend(mem, root, Under(q, base), L, x.left, x.node, x.key, x.color, x.right, entries);
        StepColors(Under(q, base), x, m, L);
        smright := mem[smright].left;
        m := if x.color.Red? then m else m - 1;
        q, x := In(L, x.node, x.key, x.color, x.right, q), x.left;
        NilFacts(mem, root, Under(q, base), x, entries);
      }
    }

    /** The node after `toDelete`, which has a right subtree. */
    method Successor(toDelete: Ptr, ghost c: Ctx, ghost t: Tree, ghost n: nat)
      returns (smright: Ptr, ghost q: Ctx, ghost x: Tree, ghost m: nat)
      requires Zip(mem, root, c, t, entries) && CtxOk(c, n) && RB(t, n) && Admits(c, Col(t))
      requires t.Node? && t.node == toDelete && t.right.Node?
      ensures var base := In(R, t.node, t.key, t.color, t.left, c);
              && Zip(mem, root, Under(q, base), x, entries) && LeftWalk(q) && x.Node? && smright == x.node && x.left.Leaf?
              && CtxOk(Under(q, base), m) && RB(x, m) && Admits(Under(q, base), Col(x))
    {
      NilFacts(mem, root, c, t, entries);
      Descend(mem, root, c, R, t.right, t.node, t.key, t.color, t.left, entries);
      StepColors(c, t, n, R);
      smright, q, x, m := Smallest(mem[toDelete].right, In(R, t.node, t.key, t.color, t.left, c), t.right,
                                   if t.color.Red? then n else n - 1);
    }

    /** Deletion of a node with two children: it first changes places with its successor. */
    method DeleteInner(toDelete: Ptr, ghost c: Ctx, ghost t: Tree, ghost n: nat, ghost i: nat) returns (ghost s': seq<Entry>)
      requires Zip(mem, root, c, t, entries) && CtxOk(c, n) && RB(t, n) && Admits(c, Col(t))
      requires t.Node? && t.node == toDelete && t.left.Node? && t.right.Node?
      requires |Before(c)| + |Inorder(t.left)| == i < |entries|
      modifies this`root, this`mem, this`tree
      ensures s' == entries[..i] + entries[i + 1..]
      ensures Zip(mem, root, Top, tree, s') && RedBlack(tree)
      ensures Frame(old(mem), mem, entries)
    {
      var smright;
      ghost var q, x, m;
      smright, q, x, m := Successor(toDelete, c, t, n);
      s' := CutExchanged(toDelete, smright, q, t, c, x, m, entries);
      CutTwo(q, t, c, x, entries, i);
    }

    /** The two nodes change places, and the one to delete is taken out from where its successor was. */
    method CutExchanged(toDelete: Ptr, smright: Ptr, ghost q: Ctx, ghost t: Tree, ghost c: Ctx, ghost x: Tree, ghost m: nat,
                        ghost s: seq<Entry>) returns (ghost s': seq<Entry>)
      requires t.Node? && t.node == toDelete && x.Node? && x.node == smright && x.left.Leaf? && LeftWalk(q)
      requires var u := Under(q, In(R, t.node, t.key, t.color, t.left, c));
               Zip(mem, root, u, x, s) && CtxOk(u, m) && RB(x, m) && Admits(u, Col(x))
      modifies this`root, this`mem, this`tree
      ensures var u := Under(q, In(R, x.node, x.key, t.color, t.left, c)); s' == Before(u) + Inorder(x.right) + After(u)
      ensures Zip(mem, root, Top, tree, s') && RedBlack(tree) && Frame(old(mem), mem, s)
    {
      SwapColors(q, In(R, t.node, t.key, t.color, t.left, c), In(R, x.node, x.key, t.color, t.left, c), x, m);
      SwapNodes(toDelete, smright, q, t, c, x, s);
      ghost var u := Under(q, In(R, x.node, x.key, t.color, t.left, c));
      ghost var y := Node(Leaf, t.node, t.key, x.color, x.right);
      ghost var s1 := Before(u) + Inorder(y) + After(u);
      s' := Unlink(toDelete, u, y, m, s1);
      SwapNodesOf(q, t, c, x, s, s1);
    }
  }
}
