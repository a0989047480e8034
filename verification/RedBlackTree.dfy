/**
  AK/RedBlackTree.h: insertion and removal by rewriting node pointers in place.
  `Holds(ctx, t)` says that the heap is exactly the shape `t` sitting in the hole of `ctx`;
  every method takes one such position to another.
 */
module RedBlackTrees {
  import opened Common
  import opened RedBlackShape

  /** The fields of the nodes of `t` are what the shape says, with `parent` above its root. */
  ghost predicate Linked(t: Tree, parent: Node?)
    reads Nodes(t)
  {
    t.Bin? ==>
      && t.n.left == Root(t.l) && t.n.right == Root(t.r) && t.n.parent == parent && t.n.color == t.c
      && Linked(t.l, t.n) && Linked(t.r, t.n)
  }

  /** The fields of the nodes of `ctx` are what the context says, with `hole` in its hole. */
  ghost predicate CtxLinked(ctx: Context, hole: Node?)
    reads CtxNodes(ctx)
  {
    !ctx.Top? ==>
      && ctx.n.left == (if ctx.InLeft? then hole else Root(ctx.other))
      && ctx.n.right == (if ctx.InLeft? then Root(ctx.other) else hole)
      && ctx.n.parent == Above(ctx.up) && ctx.n.color == ctx.c
      && Linked(ctx.other, ctx.n) && CtxLinked(ctx.up, ctx.n)
  }

  /** The first node in order has no left child. */
  lemma {:induction false} FirstHasNoLeft(t: Tree, parent: Node?)
    requires t.Bin? && Linked(t, parent)
    ensures Inorder(t) != [] && Inorder(t)[0].left == null
  {
    if t.l.Bin? {
      FirstHasNoLeft(t.l, t.n);
    }
  }

  /** If the first node has no right child either, it is the left child of the second. */
  lemma {:induction false} FirstBelowSecond(t: Tree, parent: Node?)
    requires Linked(t, parent) && |Inorder(t)| >= 2 && Inorder(t)[0].right == null
    ensures Inorder(t)[1].left == Inorder(t)[0]
  {
    if t.l.Bin? && t.l.l.Leaf? && t.l.r.Leaf? {
      assert Inorder(t.l) == [t.l.n];
    } else if t.l.Bin? {
      InorderNodes(t.l.l);
      InorderNodes(t.l.r);
      FirstBelowSecond(t.l, t.n);
      assert Inorder(t)[0] == Inorder(t.l)[0] && Inorder(t)[1] == Inorder(t.l)[1];
    }
  }

  /** if (child) child->parent = parent */
  method SetParent(child: Node?, parent: Node?, ghost t: Tree)
    requires Distinct(t) && child == Root(t)
    requires t.Bin? ==> Linked(t, t.n.parent)
    modifies child
    ensures Linked(t, parent)
    ensures child != null ==> child.left == old(child.left) && child.right == old(child.right)
  {
    if child != null {
      child.parent := parent;
    }
  }

  method TurnLeft(x: Node, y: Node, parent: Node?, ghost t: Tree, ghost nodes: set<Node>)
    requires Distinct(t) && t.Bin? && t.r.Bin? && t.n == x && t.r.n == y && Nodes(t) <= nodes
    requires Linked(t, parent)
    modifies Nodes(t)
    ensures Linked(RotL(t), parent)
    ensures forall n | n in nodes && old(n.right) == null :: n.right == null
  {
    ghost var b := t.r.l;
    assert Distinct(t.r) && Linked(t.r, x) && Distinct(b) && Linked(b, y);
    x.right := y.left;
    SetParent(x.right, x, b);
    y.left := x;
    x.parent := y;
    y.parent := parent;
    assert Linked(RotL(t).l, y);
  }

  method TurnRight(x: Node, y: Node, parent: Node?, ghost t: Tree, ghost nodes: set<Node>)
    requires Distinct(t) && t.Bin? && t.l.Bin? && t.n == x && t.l.n == y && Nodes(t) <= nodes
    requires Linked(t, parent)
    modifies Nodes(t)
    ensures Linked(RotR(t), parent)
    ensures forall n | n in nodes && n != y && old(n.right) == null :: n.right == null
  {
    ghost var b := t.l.r;
    assert Distinct(t.l) && Linked(t.l, x) && Distinct(b) && Linked(b, y);
    x.left := y.right;
    SetParent(x.left, x, b);
    y.right := x;
    x.parent := y;
    y.parent := parent;
    assert Linked(RotR(t).r, y);
  }

  ghost predicate Consistent(nodes: set<Node>)
    reads nodes
  {
    forall n | n in nodes ::
      && (n.left != null ==> n.left in nodes && n.left.parent == n && n.left != n.right)
      && (n.right != null ==> n.right in nodes && n.right.parent == n)
      && (n.parent != null ==> n.parent in nodes && (n.parent.left == n || n.parent.right == n))
  }

  datatype Cell = Cell(left: Node?, right: Node?, parent: Node?, color: Color)

  ghost function Snapshot(nodes: set<Node>): map<Node, Cell>
    reads nodes
  {
    map n | n in nodes :: Cell(n.left, n.right, n.parent, n.color)
  }

  ghost predicate HasCell(n: Node, cell: Cell)
    reads n
  {
    n.left == cell.left && n.right == cell.right && n.parent == cell.parent && n.color == cell.color
  }

  ghost function SwapCell(cell: Cell, a: Node, b: Node): Cell {
    Cell(SwapPtr(cell.left, a, b), SwapPtr(cell.right, a, b), SwapPtr(cell.parent, a, b), cell.color)
  }

  /** Compared with `was`, the nodes `a` and `b` have traded places and every pointer followed. */
  ghost predicate Exchanged(was: map<Node, Cell>, a: Node, b: Node)
    reads was.Keys
  {
    && a in was && b in was
    && HasCell(a, SwapCell(was[b], a, b)) && HasCell(b, SwapCell(was[a], a, b))
    && forall n | n in was && n != a && n != b :: HasCell(n, SwapCell(was[n], a, b))
  }

  /** `Linked`, read off a snapshot. */
  ghost predicate LinkedIn(was: map<Node, Cell>, t: Tree, parent: Node?) {
    t.Bin? ==>
      && t.n in was && was[t.n] == Cell(Root(t.l), Root(t.r), parent, t.c)
      && LinkedIn(was, t.l, t.n) && LinkedIn(was, t.r, t.n)
  }

  lemma {:induction false} LinkedSnapshot(nodes: set<Node>, t: Tree, parent: Node?)
    requires Linked(t, parent) && Nodes(t) <= nodes
    ensures LinkedIn(Snapshot(nodes), t, parent)
  {
    if t.Bin? {
      LinkedSnapshot(nodes, t.l, t.n);
      LinkedSnapshot(nodes, t.r, t.n);
    }
  }

  /** parent's link to `was` becomes a link to `now` */
  method Repoint(parent: Node, was: Node, now: Node)
    requires parent.left == was || parent.right == was
    modifies parent
    ensures parent.left == (if old(parent.left) == was then now else old(parent.left))
    ensures parent.right == (if old(parent.left) == was then old(parent.right) else now)
    ensures parent.parent == old(parent.parent) && parent.color == old(parent.color)
  {
    if parent.left == was {
      parent.left := now;
    } else {
      parent.right := now;
    }
  }

  lemma {:induction false} LinkedConsistent(t: Tree, parent: Node?)
    requires Distinct(t) && Linked(t, parent)
    ensures forall n | n in Nodes(t) ::
      && (n.left != null ==> n.left in Nodes(t) && n.left.parent == n && n.left != n.right)
      && (n.right != null ==> n.right in Nodes(t) && n.right.parent == n)
      && (n == Root(t) ==> n.parent == parent)
      && (n != Root(t) ==> n.parent in Nodes(t) && n.parent != n && (n.parent.left == n || n.parent.right == n))
  {
    if t.Bin? {
      LinkedConsistent(t.l, t.n);
      LinkedConsistent(t.r, t.n);
    }
  }

  /** Exchanging the links of two nodes exchanges their places in the shape. */
  lemma {:induction false} LinkedSwap(was: map<Node, Cell>, t: Tree, parent: Node?, a: Node, b: Node)
    requires LinkedIn(was, t, parent) && Exchanged(was, a, b)
    ensures Linked(Swap(t, a, b), SwapPtr(parent, a, b))
    decreases t
  {
    if t.Bin? {
      LinkedSwap(was, t.l, t.n, a, b);
      LinkedSwap(was, t.r, t.n, a, b);
    }
  }

  method Trade(node: Node, s: Node, neighbours: bool)
    requires node != s
    modifies node, s
    ensures node.left == old(s.left) && s.left == old(node.left)
    ensures node.right == old(s.right) && s.right == (if neighbours then node else old(node.right))
    ensures s.parent == old(node.parent) && node.parent == (if neighbours then s else old(s.parent))
    ensures node.color == old(s.color) && s.color == old(node.color)
  {
    if neighbours {
      s.parent := node.parent;
      node.parent := s;
    } else {
      node.parent, s.parent := s.parent, node.parent;
    }
    node.left, s.left := s.left, node.left;
    if neighbours {
      node.right := s.right;
      s.right := node;
    } else {
      node.right, s.right := s.right, node.right;
    }
    node.color, s.color := s.color, node.color;
  }

  class RedBlackTree {
    var root: Node?
    var size: nat
    var minimum: Node?
    ghost var tree: Tree
    ghost var nodes: set<Node>

    ghost predicate Holds(ctx: Context, t: Tree)
      reads this, nodes
    {
      && Proper(ctx, t) && AllNodes(ctx, t) == nodes && root == CtxRoot(ctx, Root(t))
      && Linked(t, Above(ctx)) && CtxLinked(ctx, Root(t))
    }

    lemma HoldsUp(ctx: Context, t: Tree)
      requires !ctx.Top?
      ensures Holds(ctx, t) <==> Holds(ctx.up, Step(ctx, t))
      ensures AllInorder(ctx.up, Step(ctx, t)) == AllInorder(ctx, t)
    {
      FocusUp(ctx, t);
    }

    lemma {:induction false} HoldsTop(ctx: Context, t: Tree)
      requires Holds(ctx, t)
      ensures Holds(Top, Plug(ctx, t))
      ensures Inorder(Plug(ctx, t)) == AllInorder(ctx, t)
      decreases ctx
    {
      if !ctx.Top? {
        HoldsUp(ctx, t);
        HoldsTop(ctx.up, Step(ctx, t));
      }
    }

    /** Puts `child` below `parent` in the place of `was`. */
    method ReplaceChild(parent: Node?, was: Node, child: Node?, ghost ctx: Context)
      requires CtxDistinct(ctx) && CtxLinked(ctx, was) && root == CtxRoot(ctx, was)
      requires parent == Above(ctx) && (ctx.InRight? ==> Root(ctx.other) != was)
      modifies this`root, parent
      ensures CtxLinked(ctx, child) && root == CtxRoot(ctx, child)
      ensures parent != null && old(parent.right) != was ==> parent.right == old(parent.right)
    {
      if parent == null {
        root := child;
      } else if parent.left == was {
        parent.left := child;
      } else {
        parent.right := child;
      }
    }

    method RotateLeft(x: Node, ghost ctx: Context, ghost t: Tree)
      requires Holds(ctx, t) && t.Bin? && t.n == x && t.r.Bin?
      modifies this`root, nodes
      ensures Holds(ctx, RotL(t)) && AllInorder(ctx, RotL(t)) == AllInorder(ctx, t)
      ensures forall n | n in nodes && old(n.right) == null :: n.right == null
    {
      RotateLeftKeeps(t);
      var pivot := x.right;
      var parent := x.parent;
      TurnLeft(x, pivot, parent, t, nodes);
      ReplaceChild(parent, x, pivot, ctx);
    }

    method RotateRight(x: Node, ghost ctx: Context, ghost t: Tree)
      requires Holds(ctx, t) && t.Bin? && t.n == x && t.l.Bin?
      modifies this`root, nodes
      ensures Holds(ctx, RotR(t)) && AllInorder(ctx, RotR(t)) == AllInorder(ctx, t)
      ensures forall n | n in nodes && n != t.l.n && old(n.right) == null :: n.right == null
    {
      RotateRightKeeps(t);
      var pivot := x.left;
      var parent := x.parent;
      TurnRight(x, pivot, parent, t, nodes);
      ReplaceChild(parent, x, pivot, ctx);
    }

    method Paint(n: Node, color: Color, ghost ctx: Context, ghost t: Tree)
      requires Holds(ctx, t) && t.Bin? && t.n == n
      modifies n`color
      ensures Holds(ctx, t.(c := color)) && Inorder(t.(c := color)) == Inorder(t)
    {
      n.color := color;
    }

    /** Parent and uncle to black, grandparent to red. */
    method Recolor(g: Node, a: Node, b: Node, ghost ctx: Context, ghost t: Tree)
      requires Holds(ctx, t) && t.Bin? && t.l.Bin? && t.r.Bin? && t.n == g && t.l.n == a && t.r.n == b
      modifies g`color, a`color, b`color
      ensures Holds(ctx, Bin(t.l.(c := Black), g, Red, t.r.(c := Black)))
      ensures AllInorder(ctx, Bin(t.l.(c := Black), g, Red, t.r.(c := Black))) == AllInorder(ctx, t)
    {
      ghost var cl := InLeft(ctx, g, t.c, t.r);
      HoldsUp(cl, t.l);
      Paint(a, Black, cl, t.l);
      ghost var l := t.l.(c := Black);
      HoldsUp(cl, l);
      ghost var cr := InRight(ctx, g, t.c, l);
      HoldsUp(cr, t.r);
      Paint(b, Black, cr, t.r);
      ghost var r := t.r.(c := Black);
      HoldsUp(cr, r);
      Paint(g, Red, ctx, Bin(l, g, t.c, r));
    }

    /** p->color = Black; g->color = Red; rotate_right(g) */
    method PromoteLeft(p: Node, g: Node, ghost ctx: Context, ghost t: Tree)
      requires Holds(ctx, t) && t.Bin? && t.l.Bin? && t.n == g && t.l.n == p
      modifies this`root, nodes
      ensures Holds(ctx, Bin(t.l.l, p, Black, Bin(t.l.r, g, Red, t.r)))
      ensures AllInorder(ctx, Bin(t.l.l, p, Black, Bin(t.l.r, g, Red, t.r))) == AllInorder(ctx, t)
      ensures t.l.l.Bin? ==>
                forall n | n in nodes && n == AllInorder(ctx, t)[0] && old(n.right) == null :: n.right == null
    {
      ghost var cl := InLeft(ctx, g, t.c, t.r);
      HoldsUp(cl, t.l);
      if t.l.l.Bin? {
        NotFirst(cl, t.l);
      }
      Paint(p, Black, cl, t.l);
      ghost var l := t.l.(c := Black);
      HoldsUp(cl, l);
      Paint(g, Red, ctx, Bin(l, g, t.c, t.r));
      RotateRight(g, ctx, Bin(l, g, Red, t.r));
    }

    /** p->color = Black; g->color = Red; rotate_left(g) */
    method PromoteRight(p: Node, g: Node, ghost ctx: Context, ghost t: Tree)
      requires Holds(ctx, t) && t.Bin? && t.r.Bin? && t.n == g && t.r.n == p
      modifies this`root, nodes
      ensures Holds(ctx, Bin(Bin(t.l, g, Red, t.r.l), p, Black, t.r.r))
      ensures AllInorder(ctx, Bin(Bin(t.l, g, Red, t.r.l), p, Black, t.r.r)) == AllInorder(ctx, t)
      ensures forall n | n in nodes && old(n.right) == null :: n.right == null
    {
      ghost var cr := InRight(ctx, g, t.c, t.l);
      HoldsUp(cr, t.r);
      Paint(p, Black, cr, t.r);
      ghost var r := t.r.(c := Black);
      HoldsUp(cr, r);
      Paint(g, Red, ctx, Bin(t.l, g, t.c, r));
      RotateLeft(g, ctx, Bin(t.l, g, Red, r));
    }

    /** The black-uncle case with the parent a left child. */
    method InsertTurnRight(x: Node, g: Node, ghost ctx: Context, ghost t: Tree)
      returns (node: Node, ghost ctx': Context, ghost t': Tree)
      requires Holds(ctx, t) && RedSound(ctx, t) && t.n == x && CtxColor(ctx) == Red
      requires ctx.up.InLeft? && ctx.up.n == g && ColorOf(ctx.up.other) == Black
      modifies this`root, nodes
      ensures Holds(ctx', t') && RedSound(ctx', t') && t'.n == node && CtxColor(ctx') == Black
      ensures AllInorder(ctx', t') == AllInorder(ctx, t)
      ensures forall n | n in nodes && n == AllInorder(ctx, t)[0] && old(n.right) == null :: n.right == null
    {
      ghost var up := ctx.up;
      TurnRightSound(ctx, t);
      node, ctx', t' := x, ctx, t;
      HoldsUp(ctx, t);
      if node.parent.right == node {
        node := node.parent;
        RotateLeft(node, up, Step(ctx, t));
        ctx', t' := InLeft(up, x, Red, t.r), Bin(ctx.other, node, Red, t.l);
        HoldsUp(ctx', t');
      }
      ghost var p := Step(ctx', t');
      HoldsUp(up, p);
      PromoteLeft(node.parent, g, up.up, Step(up, p));
      ctx' := InLeft(up.up, ctx'.n, Black, Bin(ctx'.other, g, Red, up.other));
      HoldsUp(ctx', t');
    }

    /** The black-uncle case with the parent a right child. */
    method InsertTurnLeft(x: Node, g: Node, ghost ctx: Context, ghost t: Tree)
      returns (node: Node, ghost ctx': Context, ghost t': Tree)
      requires Holds(ctx, t) && RedSound(ctx, t) && t.n == x && CtxColor(ctx) == Red
      requires ctx.up.InRight? && ctx.up.n == g && ColorOf(ctx.up.other) == Black
      modifies this`root, nodes
      ensures Holds(ctx', t') && RedSound(ctx', t') && t'.n == node && CtxColor(ctx') == Black
      ensures AllInorder(ctx', t') == AllInorder(ctx, t)
      ensures forall n | n in nodes && n == AllInorder(ctx, t)[0] && old(n.right) == null :: n.right == null
    {
      ghost var up := ctx.up;
      TurnLeftSound(ctx, t);
      node, ctx', t' := x, ctx, t;
      HoldsUp(ctx, t);
      if node.parent.left == node {
        NotFirst(ctx, t);
        node := node.parent;
        RotateRight(node, up, Step(ctx, t));
        ctx', t' := InRight(up, x, Red, t.l), Bin(t.r, node, Red, ctx.other);
        HoldsUp(ctx', t');
      }
      ghost var p := Step(ctx', t');
      HoldsUp(up, p);
      PromoteRight(node.parent, g, up.up, Step(up, p));
      ctx' := InRight(up.up, ctx'.n, Black, Bin(up.other, g, Red, ctx'.other));
      HoldsUp(ctx', t');
    }

    /** The red-uncle case: the violation moves two levels up. */
    method InsertRecolor(g: Node, ghost ctx: Context, ghost t: Tree) returns (ghost t': Tree)
      requires Holds(ctx, t) && RedSound(ctx, t) && CtxColor(ctx) == Red
      requires !ctx.up.Top? && ctx.up.n == g && ColorOf(ctx.up.other) == Red
      modifies nodes`color
      ensures Holds(ctx.up.up, t') && RedSound(ctx.up.up, t') && t'.n == g
      ensures AllInorder(ctx.up.up, t') == AllInorder(ctx, t)
    {
      HoldsUp(ctx, t);
      HoldsUp(ctx.up, Step(ctx, t));
      ghost var whole := Step(ctx.up, Step(ctx, t));
      RecolorSound(ctx, t, whole);
      Recolor(g, g.left, g.right, ctx.up.up, whole);
      t' := Bin(whole.l.(c := Black), g, Red, whole.r.(c := Black));
    }

    /** One pass of the loop of insert_fixups. */
    method InsertStep(x: Node, ghost ctx: Context, ghost t: Tree)
      returns (node: Node, ghost ctx': Context, ghost t': Tree)
      requires Holds(ctx, t) && RedSound(ctx, t) && t.n == x && CtxColor(ctx) == Red
      modifies this`root, nodes
      ensures Holds(ctx', t') && RedSound(ctx', t') && t'.n == node
      ensures CtxColor(ctx') == Black || Depth(ctx') < Depth(ctx)
      ensures AllInorder(ctx', t') == AllInorder(ctx, t)
      ensures forall n | n in nodes && n == AllInorder(ctx, t)[0] && old(n.right) == null :: n.right == null
    {
      assert CtxLinked(ctx.up, ctx.n) && Linked(ctx.up.other, ctx.up.n);
      var grand := x.parent.parent;
      if grand.right == x.parent {
        var uncle := grand.left;
        if uncle != null && uncle.color == Red {
          t' := InsertRecolor(grand, ctx, t);
          node, ctx' := grand, ctx.up.up;
        } else {
          node, ctx', t' := InsertTurnLeft(x, grand, ctx, t);
        }
      } else {
        var uncle := grand.right;
        if uncle != null && uncle.color == Red {
          t' := InsertRecolor(grand, ctx, t);
          node, ctx' := grand, ctx.up.up;
        } else {
          node, ctx', t' := InsertTurnRight(x, grand, ctx, t);
        }
      }
    }

    method InsertFixups(start: Node, ghost ctx0: Context, ghost t0: Tree) returns (ghost whole: Tree)
      requires Holds(ctx0, t0) && RedSound(ctx0, t0) && t0.n == start && t0.r.Leaf?
      modifies this`root, nodes
      ensures Holds(Top, whole) && Valid(whole) && Inorder(whole) == AllInorder(ctx0, t0)
      ensures AllInorder(ctx0, t0)[0] == start ==> start.right == null
    {
      var node := start;
      ghost var ctx, t := ctx0, t0;
      while node.parent != null && node.parent.color == Red
        invariant Holds(ctx, t) && RedSound(ctx, t) && t.n == node
        invariant AllInorder(ctx, t) == AllInorder(ctx0, t0)
        invariant AllInorder(ctx, t)[0] == start ==> start.right == null
        decreases if CtxColor(ctx) == Red then 1 + Depth(ctx) else 0
      {
        node, ctx, t := InsertStep(node, ctx, t);
      }
      HoldsTop(ctx, t);
      SoundPlug(ctx, t);
      whole := Plug(ctx, t);
      Paint(root, Black, Top, whole);
      whole := whole.(c := Black);
    }

    // ----- the public state -----

    /** What every call of a public method finds and leaves. */
    ghost predicate Ok()
      reads this, nodes
    {
      && Holds(Top, tree) && Valid(tree) && Sorted(Inorder(tree)) && size == |Inorder(tree)|
      && (size > 0 ==> minimum == Inorder(tree)[0])
    }

    constructor ()
      ensures Ok() && Inorder(tree) == [] && fresh(nodes)
    {
      root, size, minimum := null, 0, null;
      tree, nodes := Leaf, {};
    }

    /** A step to the left passes only larger keys. */
    lemma GoLeft(ctx: Context, t: Tree, key: int)
      requires Holds(ctx, t) && t.Bin? && Sorted(AllInorder(ctx, t)) && key < t.n.key
      requires forall n | n in After(ctx) :: key < n.key
      ensures
        var c := InLeft(ctx, t.n, t.c, t.r);
        && Holds(c, t.l) && AllInorder(c, t.l) == AllInorder(ctx, t)
        && Before(c) == Before(ctx) && forall n | n in After(c) :: key < n.key
    {
      SortedAround(ctx, t);
      HoldsUp(InLeft(ctx, t.n, t.c, t.r), t.l);
    }

    /** A step to the right passes only keys that are not larger. */
    lemma GoRight(ctx: Context, t: Tree, key: int)
      requires Holds(ctx, t) && t.Bin? && Sorted(AllInorder(ctx, t)) && t.n.key <= key
      requires forall n | n in Before(ctx) :: n.key <= key
      ensures
        var c := InRight(ctx, t.n, t.c, t.l);
        && Holds(c, t.r) && AllInorder(c, t.r) == AllInorder(ctx, t)
        && Before(c) != [] && Before(c)[|Before(c)| - 1] == t.n
        && After(c) == After(ctx) && forall n | n in Before(c) :: n.key <= key
    {
      SortedAround(ctx, t);
      HoldsUp(InRight(ctx, t.n, t.c, t.l), t.r);
    }

    /** The walk from the root to the leaf position where `key` belongs. */
    method Descend(key: int) returns (parent: Node?, ghost ctx: Context)
      requires Ok()
      ensures Holds(ctx, Leaf) && parent == Above(ctx) && Fits(ctx, Leaf) && RootBlack(ctx)
      ensures AllInorder(ctx, Leaf) == Inorder(tree)
      ensures forall n | n in Before(ctx) :: n.key <= key
      ensures forall n | n in After(ctx) :: key < n.key
      ensures parent != null ==> (key < parent.key <==> ctx.InLeft?)
    {
      parent, ctx := null, Top;
      ghost var t := tree;
      var temp := root;
      while temp != null
        invariant Holds(ctx, t) && temp == Root(t) && parent == Above(ctx)
        invariant Sound(t) && Fits(ctx, t) && RootBlack(ctx) && (ctx.Top? ==> ColorOf(t) == Black)
        invariant AllInorder(ctx, t) == Inorder(tree)
        invariant forall n | n in Before(ctx) :: n.key <= key
        invariant forall n | n in After(ctx) :: key < n.key
        invariant parent != null ==> (key < parent.key <==> ctx.InLeft?)
        decreases t
      {
        parent := temp;
        SoundDown(ctx, t);
        if key < temp.key {
          GoLeft(ctx, t, key);
          temp := temp.left;
          ctx, t := InLeft(ctx, t.n, t.c, t.r), t.l;
        } else {
          GoRight(ctx, t, key);
          temp := temp.right;
          ctx, t := InRight(ctx, t.n, t.c, t.l), t.r;
        }
      }
    }

    /** Hangs a fresh node into the empty position `ctx`. */
    method Attach(node: Node, parent: Node, ghost ctx: Context)
      requires Holds(ctx, Leaf) && parent == Above(ctx) && (node.key < parent.key <==> ctx.InLeft?)
      requires node !in nodes && node.left == null && node.right == null && node.color == Red
      modifies parent, node, this`nodes
      ensures Holds(ctx, Bin(Leaf, node, Red, Leaf)) && nodes == old(nodes) + {node}
    {
      if node.key < parent.key {
        parent.left := node;
      } else {
        parent.right := node;
      }
      node.parent := parent;
      nodes := nodes + {node};
    }

    method InsertColors(node: Node, ghost ctx: Context)
      requires Holds(ctx, Bin(Leaf, node, Red, Leaf)) && RedSound(ctx, Bin(Leaf, node, Red, Leaf)) && !ctx.Top?
      modifies this`root, this`tree, nodes
      ensures Holds(Top, tree) && Valid(tree) && Inorder(tree) == Before(ctx) + [node] + After(ctx)
      ensures Before(ctx) == [] ==> node.right == null
    {
      ghost var t := Bin(Leaf, node, Red, Leaf);
      assert Inorder(t) == [node];
      if node.parent.parent != null {
        tree := InsertFixups(node, ctx, t);
      } else {
        HoldsTop(ctx, t);
        SoundPlug(ctx, t);
        tree := Plug(ctx, t);
      }
    }

    /** Everything insert does once the position is known and the tree is not empty. */
    method InsertBelow(node: Node, parent: Node, ghost ctx: Context)
      requires node !in nodes && node.left == null && node.right == null && node.color == Red
      requires Holds(ctx, Leaf) && parent == Above(ctx) && (node.key < parent.key <==> ctx.InLeft?)
      requires Fits(ctx, Leaf) && RootBlack(ctx)
      requires size == |Before(ctx) + After(ctx)| > 0 && minimum == (Before(ctx) + After(ctx))[0]
      modifies this, nodes, node
      ensures Holds(Top, tree) && Valid(tree) && nodes == old(nodes) + {node}
      ensures Inorder(tree) == Before(ctx) + [node] + After(ctx)
      ensures size == |Inorder(tree)| && minimum == Inorder(tree)[0]
    {
      assert BlackHeight(Bin(Leaf, node, Red, Leaf)) == 0;
      Attach(node, parent, ctx);
      InsertColors(node, ctx);
      size := size + 1;
      RefreshMinimum(node, |Before(ctx)|);
    }

    method Insert(node: Node) returns (ghost k: nat)
      requires Ok() && node !in nodes
      requires node.left == null && node.right == null && node.parent == null && node.color == Red
      modifies this, nodes, node
      ensures Ok() && nodes == old(nodes) + {node}
      ensures k <= old(|Inorder(tree)|)
      ensures Inorder(tree) == old(Inorder(tree)[..k] + [node] + Inorder(tree)[k..])
      ensures forall n | n in old(Inorder(tree)[..k]) :: n.key <= node.key
      ensures forall n | n in old(Inorder(tree)[k..]) :: node.key < n.key
    {
      var parent, ctx := Descend(node.key);
      ghost var s := Inorder(tree);
      k := |Before(ctx)|;
      assert s[..k] == Before(ctx) && s[k..] == After(ctx);
      InsertSorted(s, k, node);
      if parent == null { // new root
        node.color := Black;
        root := node;
        size := 1;
        minimum := node;
        tree, nodes := Bin(Leaf, node, Black, Leaf), nodes + {node};
      } else {
        assert Before(ctx) + Inorder(Leaf) + After(ctx) == Before(ctx) + After(ctx);
        InsertBelow(node, parent, ctx);
      }
    }

    /** After an insertion at position `k` the old minimum's left child tells whether the new node comes first. */
    method RefreshMinimum(node: Node, ghost k: nat)
      requires Holds(Top, tree) && |Inorder(tree)| >= 2 && k < |Inorder(tree)| && Inorder(tree)[k] == node
      requires minimum == Inorder(tree)[if k == 0 then 1 else 0]
      requires k == 0 ==> node.right == null
      modifies this`minimum
      ensures minimum == Inorder(tree)[0]
    {
      FirstHasNoLeft(tree, null);
      if k == 0 {
        FirstBelowSecond(tree, null);
      }
      if minimum.left == node {
        minimum := node;
      }
    }

    // ----- removal -----

    /** The same position with the sibling's root in focus. */
    lemma HoldsAcross(ctx: Context, t: Tree)
      requires !ctx.Top?
      ensures
        var across := if ctx.InLeft? then InRight(ctx.up, ctx.n, ctx.c, t) else InLeft(ctx.up, ctx.n, ctx.c, t);
        (Holds(ctx, t) <==> Holds(across, ctx.other)) && AllInorder(across, ctx.other) == AllInorder(ctx, t)
    {
      HoldsUp(ctx, t);
      HoldsUp(if ctx.InLeft? then InRight(ctx.up, ctx.n, ctx.c, t) else InLeft(ctx.up, ctx.n, ctx.c, t), ctx.other);
    }

    /** Sibling red, hole on the left. */
    method RemoveRedLeft(parent: Node, ghost ctx: Context, ghost t: Tree) returns (ghost ctx': Context)
      requires Holds(ctx, t) && Short(ctx, t) && ColorOf(t) == Black
      requires ctx.InLeft? && ctx.n == parent && ColorOf(ctx.other) == Red
      modifies this`root, nodes
      ensures Holds(ctx', t) && Short(ctx', t) && ctx'.InLeft? && ctx'.n == parent
      ensures ctx'.other.Bin? && ctx'.other.c == Black && Depth(ctx') == Depth(ctx) + 1 && ctx'.c == Red
      ensures AllInorder(ctx', t) == AllInorder(ctx, t)
    {
      ghost var s := ctx.other;
      RedSiblingLeft(ctx, t);
      HoldsUp(ctx, t);
      PromoteRight(parent.right, parent, ctx.up, Step(ctx, t));
      ghost var outer := InLeft(ctx.up, s.n, Black, s.r);
      ctx' := InLeft(outer, parent, Red, s.l);
      HoldsUp(outer, Step(ctx', t));
      HoldsUp(ctx', t);
    }

    /** Far nephew red, hole on the left: recolour and rotate the parent. */
    method RemoveFarLeft(parent: Node, ghost ctx: Context, ghost t: Tree) returns (ghost u: Tree)
      requires Holds(ctx, t) && Short(ctx, t) && ColorOf(t) == Black
      requires ctx.InLeft? && ctx.n == parent && ctx.other.Bin? && ctx.other.c == Black && ColorOf(ctx.other.r) == Red
      modifies this`root, nodes
      ensures Holds(ctx.up, u) && Sound(u) && Fits(ctx.up, u) && RootBlack(ctx.up)
      ensures AllInorder(ctx.up, u) == AllInorder(ctx, t)
    {
      FarNephewLeft(ctx, t);
      var sibling := parent.right;
      ghost var s, c := ctx.other, ctx.c;
      assert Linked(s, parent);
      HoldsAcross(ctx, t);
      ghost var a := InRight(ctx.up, parent, c, t);
      Paint(sibling, parent.color, a, s);
      s := s.(c := c);
      ghost var b := InRight(a, sibling, c, s.l);
      HoldsUp(b, s.r);
      Paint(sibling.right, Black, b, s.r);
      HoldsUp(b, s.r.(c := Black));
      s := Bin(s.l, s.n, c, s.r.(c := Black));
      HoldsUp(a, s);
      Paint(parent, Black, ctx.up, Bin(t, parent, c, s));
      RotateLeft(parent, ctx.up, Bin(t, parent, Black, s));
      u := RotL(Bin(t, parent, Black, s));
    }

    /** A nephew is red, hole on the left: at most two rotations end the shortage. */
    method RemoveTurnLeft(parent: Node, ghost ctx0: Context, ghost t: Tree) returns (ghost whole: Tree)
      requires Holds(ctx0, t) && Short(ctx0, t) && ColorOf(t) == Black
      requires ctx0.InLeft? && ctx0.n == parent && ctx0.other.Bin? && ctx0.other.c == Black
      requires ColorOf(ctx0.other.l) == Red || ColorOf(ctx0.other.r) == Red
      modifies this`root, nodes
      ensures Holds(Top, whole) && Sound(whole) && Inorder(whole) == AllInorder(ctx0, t)
    {
      ghost var ctx := ctx0;
      ghost var s := ctx.other;
      var sibling := parent.right;
      assert Linked(s, parent) && Linked(s.l, s.n) && Linked(s.r, s.n);
      if sibling.right == null || sibling.right.color == Black {
        NearNephewLeft(ctx, t);
        HoldsAcross(ctx, t);
        PromoteLeft(sibling.left, sibling, InRight(ctx.up, parent, ctx.c, t), s);
        ctx := InLeft(ctx.up, parent, ctx.c, Bin(s.l.l, s.l.n, Black, Bin(s.l.r, s.n, Red, s.r)));
        HoldsAcross(ctx, t);
      }
      ghost var u := RemoveFarLeft(parent, ctx, t);
      HoldsTop(ctx.up, u);
      SoundPlug(ctx.up, u);
      whole := Plug(ctx.up, u);
    }

    /** Both nephews are black, hole on the left: painting the sibling lifts the shortage. */
    method LiftLeft(parent: Node, sibling: Node, ghost ctx: Context, ghost t: Tree) returns (ghost t': Tree)
      requires Holds(ctx, t) && Short(ctx, t) && ColorOf(t) == Black
      requires ctx.InLeft? && ctx.n == parent && ctx.other.Bin? && ctx.other.c == Black && ctx.other.n == sibling
      requires ColorOf(ctx.other.l) == Black && ColorOf(ctx.other.r) == Black
      modifies this`root, nodes
      ensures t' == Bin(t, parent, ctx.c, ctx.other.(c := Red))
      ensures Holds(ctx.up, t') && Short(ctx.up, t') && AllInorder(ctx.up, t') == AllInorder(ctx, t)
    {
      ghost var s := ctx.other;
      BlackNephews(ctx, t);
      HoldsAcross(ctx, t);
      ghost var a := InRight(ctx.up, parent, ctx.c, t);
      Paint(sibling, Red, a, s);
      HoldsUp(a, s.(c := Red));
      t' := Bin(t, parent, ctx.c, ctx.other.(c := Red));
    }

    /** The sibling is black, hole on the left: lift the shortage or end it. */
    method RemoveBlackLeft(parent: Node, ghost ctx: Context, ghost t: Tree)
      returns (node: Node, ghost ctx': Context, ghost t': Tree)
      requires Holds(ctx, t) && Short(ctx, t) && ColorOf(t) == Black
      requires ctx.InLeft? && ctx.n == parent && ctx.other.Bin? && ctx.other.c == Black
      modifies this`root, nodes
      ensures Holds(ctx', t') && Short(ctx', t') && Root(t') == node
      ensures ctx'.Top? || (ctx' == ctx.up && ColorOf(t') == ctx.c)
      ensures AllInorder(ctx', t') == AllInorder(ctx, t)
    {
      ghost var s := ctx.other;
      var sibling := parent.right;
      assert Linked(s, parent) && Linked(s.l, s.n) && Linked(s.r, s.n);
      if (sibling.left == null || sibling.left.color == Black)
        && (sibling.right == null || sibling.right.color == Black) {
        t' := LiftLeft(parent, sibling, ctx, t);
        node, ctx' := parent, ctx.up;
      } else {
        ghost var whole := RemoveTurnLeft(parent, ctx, t);
        assert parent in nodes;
        TopInorder(whole);
        node, ctx', t' := root, Top, whole;
      }
    }

    method RemoveStepLeft(parent: Node, ghost ctx: Context, ghost t: Tree)
      returns (node: Node, ghost ctx': Context, ghost t': Tree)
      requires Holds(ctx, t) && Short(ctx, t) && ColorOf(t) == Black && ctx.InLeft? && ctx.n == parent
      modifies this`root, nodes
      ensures Holds(ctx', t') && Short(ctx', t') && Root(t') == node
      ensures ctx'.Top? || ColorOf(t') == Red || Depth(ctx') < Depth(ctx)
      ensures AllInorder(ctx', t') == AllInorder(ctx, t)
    {
      assert Linked(ctx.other, parent);
      var sibling := parent.right;
      if sibling.color == Red {
        ghost var k := RemoveRedLeft(parent, ctx, t);
        node, ctx', t' := RemoveBlackLeft(parent, k, t);
      } else {
        node, ctx', t' := RemoveBlackLeft(parent, ctx, t);
      }
    }

    /** Sibling red, hole on the right. */
    method RemoveRedRight(parent: Node, ghost ctx: Context, ghost t: Tree) returns (ghost ctx': Context)
      requires Holds(ctx, t) && Short(ctx, t) && ColorOf(t) == Black
      requires ctx.InRight? && ctx.n == parent && ColorOf(ctx.other) == Red
      modifies this`root, nodes
      ensures Holds(ctx', t) && Short(ctx', t) && ctx'.InRight? && ctx'.n == parent
      ensures ctx'.other.Bin? && ctx'.other.c == Black && Depth(ctx') == Depth(ctx) + 1 && ctx'.c == Red
      ensures AllInorder(ctx', t) == AllInorder(ctx, t)
    {
      ghost var s := ctx.other;
      RedSiblingRight(ctx, t);
      HoldsUp(ctx, t);
      PromoteLeft(parent.left, parent, ctx.up, Step(ctx, t));
      ghost var outer := InRight(ctx.up, s.n, Black, s.l);
      ctx' := InRight(outer, parent, Red, s.r);
      HoldsUp(outer, Step(ctx', t));
      HoldsUp(ctx', t);
    }

    /** Far nephew red, hole on the right: recolour and rotate the parent. */
    method RemoveFarRight(parent: Node, ghost ctx: Context, ghost t: Tree) returns (ghost u: Tree)
      requires Holds(ctx, t) && Short(ctx, t) && ColorOf(t) == Black
      requires ctx.InRight? && ctx.n == parent && ctx.other.Bin? && ctx.other.c == Black && ColorOf(ctx.other.l) == Red
      modifies this`root, nodes
      ensures Holds(ctx.up, u) && Sound(u) && Fits(ctx.up, u) && RootBlack(ctx.up)
      ensures AllInorder(ctx.up, u) == AllInorder(ctx, t)
    {
      FarNephewRight(ctx, t);
      var sibling := parent.left;
      ghost var s, c := ctx.other, ctx.c;
      assert Linked(s, parent);
      HoldsAcross(ctx, t);
      ghost var a := InLeft(ctx.up, parent, c, t);
      Paint(sibling, parent.color, a, s);
      s := s.(c := c);
      ghost var b := InLeft(a, sibling, c, s.r);
      HoldsUp(b, s.l);
      Paint(sibling.left, Black, b, s.l);
      HoldsUp(b, s.l.(c := Black));
      s := Bin(s.l.(c := Black), s.n, c, s.r);
      HoldsUp(a, s);
      Paint(parent, Black, ctx.up, Bin(s, parent, c, t));
      RotateRight(parent, ctx.up, Bin(s, parent, Black, t));
      u := RotR(Bin(s, parent, Black, t));
    }

    /** A nephew is red, hole on the right: at most two rotations end the shortage. */
    method RemoveTurnRight(parent: Node, ghost ctx0: Context, ghost t: Tree) returns (ghost whole: Tree)
      requires Holds(ctx0, t) && Short(ctx0, t) && ColorOf(t) == Black
      requires ctx0.InRight? && ctx0.n == parent && ctx0.other.Bin? && ctx0.other.c == Black
      requires ColorOf(ctx0.other.l) == Red || ColorOf(ctx0.other.r) == Red
      modifies this`root, nodes
      ensures Holds(Top, whole) && Sound(whole) && Inorder(whole) == AllInorder(ctx0, t)
    {
      ghost var ctx := ctx0;
      ghost var s := ctx.other;
      var sibling := parent.left;
      assert Linked(s, parent) && Linked(s.l, s.n) && Linked(s.r, s.n);
      if sibling.left == null || sibling.left.color == Black {
        NearNephewRight(ctx, t);
        HoldsAcross(ctx, t);
        PromoteRight(sibling.right, sibling, InLeft(ctx.up, parent, ctx.c, t), s);
        ctx := InRight(ctx.up, parent, ctx.c, Bin(Bin(s.l, s.n, Red, s.r.l), s.r.n, Black, s.r.r));
        HoldsAcross(ctx, t);
      }
      ghost var u := RemoveFarRight(parent, ctx, t);
      HoldsTop(ctx.up, u);
      SoundPlug(ctx.up, u);
      whole := Plug(ctx.up, u);
    }

    /** Both nephews are black, hole on the right: painting the sibling lifts the shortage. */
    method LiftRight(parent: Node, sibling: Node, ghost ctx: Context, ghost t: Tree) returns (ghost t': Tree)
      requires Holds(ctx, t) && Short(ctx, t) && ColorOf(t) == Black
      requires ctx.InRight? && ctx.n == parent && ctx.other.Bin? && ctx.other.c == Black && ctx.other.n == sibling
      requires ColorOf(ctx.other.l) == Black && ColorOf(ctx.other.r) == Black
      modifies this`root, nodes
      ensures t' == Bin(ctx.other.(c := Red), parent, ctx.c, t)
      ensures Holds(ctx.up, t') && Short(ctx.up, t') && AllInorder(ctx.up, t') == AllInorder(ctx, t)
    {
      ghost var s := ctx.other;
      BlackNephews(ctx, t);
      HoldsAcross(ctx, t);
      ghost var a := InLeft(ctx.up, parent, ctx.c, t);
      Paint(sibling, Red, a, s);
      HoldsUp(a, s.(c := Red));
      t' := Bin(ctx.other.(c := Red), parent, ctx.c, t);
    }

    /** The sibling is black, hole on the right: lift the shortage or end it. */
    method RemoveBlackRight(parent: Node, ghost ctx: Context, ghost t: Tree)
      returns (node: Node, ghost ctx': Context, ghost t': Tree)
      requires Holds(ctx, t) && Short(ctx, t) && ColorOf(t) == Black
      requires ctx.InRight? && ctx.n == parent && ctx.other.Bin? && ctx.other.c == Black
      modifies this`root, nodes
      ensures Holds(ctx', t') && Short(ctx', t') && Root(t') == node
      ensures ctx'.Top? || (ctx' == ctx.up && ColorOf(t') == ctx.c)
      ensures AllInorder(ctx', t') == AllInorder(ctx, t)
    {
      ghost var s := ctx.other;
      var sibling := parent.left;
      assert Linked(s, parent) && Linked(s.l, s.n) && Linked(s.r, s.n);
      if (sibling.left == null || sibling.left.color == Black)
        && (sibling.right == null || sibling.right.color == Black) {
        t' := LiftRight(parent, sibling, ctx, t);
        node, ctx' := parent, ctx.up;
      } else {
        ghost var whole := RemoveTurnRight(parent, ctx, t);
        assert parent in nodes;
        TopInorder(whole);
        node, ctx', t' := root, Top, whole;
      }
    }

    method RemoveStepRight(parent: Node, ghost ctx: Context, ghost t: Tree)
      returns (node: Node, ghost ctx': Context, ghost t': Tree)
      requires Holds(ctx, t) && Short(ctx, t) && ColorOf(t) == Black && ctx.InRight? && ctx.n == parent
      modifies this`root, nodes
      ensures Holds(ctx', t') && Short(ctx', t') && Root(t') == node
      ensures ctx'.Top? || ColorOf(t') == Red || Depth(ctx') < Depth(ctx)
      ensures AllInorder(ctx', t') == AllInorder(ctx, t)
    {
      assert Linked(ctx.other, parent);
      var sibling := parent.left;
      if sibling.color == Red {
        ghost var k := RemoveRedRight(parent, ctx, t);
        node, ctx', t' := RemoveBlackRight(parent, k, t);
      } else {
        node, ctx', t' := RemoveBlackRight(parent, ctx, t);
      }
    }

    /** One pass of the loop of remove_fixups. */
    method RemoveStep(x: Node?, parent: Node, ghost ctx: Context, ghost t: Tree)
      returns (node: Node, ghost ctx': Context, ghost t': Tree)
      requires Holds(ctx, t) && Short(ctx, t) && ColorOf(t) == Black && Root(t) == x && Above(ctx) == parent
      modifies this`root, nodes
      ensures Holds(ctx', t') && Short(ctx', t') && Root(t') == node
      ensures ctx'.Top? || ColorOf(t') == Red || Depth(ctx') < Depth(ctx)
      ensures AllInorder(ctx', t') == AllInorder(ctx, t)
    {
      assert BlackHeight(ctx.other) > 0;
      if parent.left == x {
        node, ctx', t' := RemoveStepLeft(parent, ctx, t);
      } else {
        node, ctx', t' := RemoveStepRight(parent, ctx, t);
      }
    }

    method RemoveFinish(node: Node?, ghost ctx: Context, ghost t: Tree) returns (ghost whole: Tree)
      requires Holds(ctx, t) && Short(ctx, t) && Root(t) == node && AllInorder(ctx, t) != []
      requires node == root || (node != null && node.color == Red)
      modifies node
      ensures Holds(Top, whole) && Valid(whole) && Inorder(whole) == AllInorder(ctx, t)
    {
      if !ctx.Top? {
        RootInContext(ctx, node);
      }
      PaintedSound(ctx, t);
      Paint(node, Black, ctx, t);
      HoldsTop(ctx, t.(c := Black));
      whole := Plug(ctx, t.(c := Black));
    }

    method RemoveFixups(start: Node?, above: Node?, ghost ctx0: Context, ghost t0: Tree) returns (ghost whole: Tree)
      requires Holds(ctx0, t0) && Short(ctx0, t0) && Root(t0) == start && Above(ctx0) == above
      requires AllInorder(ctx0, t0) != []
      modifies this`root, nodes
      ensures Holds(Top, whole) && Valid(whole) && Inorder(whole) == AllInorder(ctx0, t0)
    {
      var node: Node?, parent: Node? := start, above;
      ghost var ctx, t := ctx0, t0;
      while node != root && (node == null || node.color == Black)
        invariant Holds(ctx, t) && Short(ctx, t) && Root(t) == node && Above(ctx) == parent
        invariant AllInorder(ctx, t) == AllInorder(ctx0, t0)
        decreases if ctx.Top? || ColorOf(t) == Red then 0 else Depth(ctx)
      {
        node, ctx, t := RemoveStep(node, parent, ctx, t);
        parent := node.parent;
      }
      whole := RemoveFinish(node, ctx, t);
    }

    /** Everything that points at `node`, except `s`, points at `s`. */
    method AroundNode(node: Node, s: Node)
      requires Consistent(nodes) && node in nodes && s in nodes && node != s
      requires node.left != null && node.right != null && node.left != s
      requires node.parent != s && node.parent != node
      modifies this`root, nodes
      ensures root == if old(node.parent) == null then s else old(root)
      ensures forall n | n in nodes && n != node && n != s ::
        && n.left == (if old(n.left) == node then s else old(n.left))
        && n.right == (if old(n.right) == node then s else old(n.right))
        && n.parent == (if old(n.parent) == node then s else old(n.parent))
        && n.color == old(n.color)
      ensures node.left == old(node.left) && node.right == old(node.right) && node.parent == old(node.parent)
        && node.color == old(node.color)
      ensures s.left == old(s.left) && s.right == old(s.right) && s.parent == old(s.parent) && s.color == old(s.color)
    {
      node.left.parent := s;
      if s.parent != node {
        node.right.parent := s;
      }
      if node.parent != null {
        Repoint(node.parent, node, s);
      } else {
        root := s;
      }
    }

    /** What points at `s` points at `node`, except that neighbours keep the link between them for later. */
    method AroundSuccessor(node: Node, s: Node, neighbours: bool)
      requires node in nodes && s in nodes && node != s && s.right != node && s.right != s
      requires s.right != null ==> s.right in nodes
      requires !neighbours ==> s.parent != null && s.parent in nodes && s.parent != node && s.parent != s
      requires !neighbours ==> s.parent.left == s || s.parent.right == s
      modifies nodes - {node, s}
      ensures forall n | n in nodes && n != node && n != s ::
        && n.left == (if !neighbours && n == s.parent && old(n.left) == s then node else old(n.left))
        && n.right == (if !neighbours && n == s.parent && old(n.left) != s then node else old(n.right))
        && n.parent == (if n == s.right then node else old(n.parent))
        && n.color == old(n.color)
    {
      if s.right != null {
        s.right.parent := node;
      }
      if !neighbours {
        Repoint(s.parent, s, node);
      }
    }

    /** What relinking needs: `s` is below `node` on the right and has no left child. */
    ghost predicate Relinkable(node: Node, s: Node)
      reads this, nodes
    {
      && Consistent(nodes) && node in nodes && s in nodes && node != s
      && node.left != null && node.right != null && node.left != s && s.left == null
      && node.parent != s && node.parent != node
      && s.parent != null && s.parent != s && s.parent != node.parent
      && (node.parent == null <==> root == node)
      && s != root
      && (s.parent == node <==> node.right == s)
    }

    /** The links of all other nodes. */
    method AroundBoth(node: Node, s: Node, neighbours: bool)
      requires Relinkable(node, s) && neighbours == (s.parent == node)
      modifies this`root, nodes
      ensures root == SwapPtr(old(root), node, s)
      ensures node.left == old(node.left) && node.right == old(node.right)
      ensures node.parent == old(node.parent) && node.color == old(node.color)
      ensures s.left == old(s.left) && s.right == old(s.right) && s.parent == old(s.parent) && s.color == old(s.color)
      ensures forall n | n in nodes && n != node && n != s ::
        && n.left == SwapPtr(old(n.left), node, s) && n.right == SwapPtr(old(n.right), node, s)
        && n.parent == SwapPtr(old(n.parent), node, s) && n.color == old(n.color)
    {
      AroundNode(node, s);
      AroundSuccessor(node, s, neighbours);
    }

    /** Puts `s`, the successor of `node`, into the tree at the place of `node`, and `node` at the place of `s`. */
    method Relink(node: Node, s: Node)
      requires Relinkable(node, s)
      modifies this`root, nodes
      ensures Exchanged(old(Snapshot(nodes)), node, s) && root == SwapPtr(old(root), node, s)
      ensures node.left == null
    {
      var neighbours := s.parent == node;
      AroundBoth(node, s, neighbours);
      Trade(node, s, neighbours);
    }

    /** The position of a node, with the colouring facts that hold around it. */
    lemma {:induction false} Locate(ctx: Context, t: Tree, n: Node) returns (ctx': Context, t': Tree)
      requires Holds(ctx, t) && n in Nodes(t)
      requires Sound(t) && Fits(ctx, t) && RootBlack(ctx) && (ctx.Top? ==> ColorOf(t) == Black)
      ensures Holds(ctx', t') && t'.Bin? && t'.n == n && AllInorder(ctx', t') == AllInorder(ctx, t)
      ensures Sound(t') && Fits(ctx', t') && RootBlack(ctx') && (ctx'.Top? ==> ColorOf(t') == Black)
      decreases t
    {
      if t.n == n {
        ctx', t' := ctx, t;
      } else {
        SoundDown(ctx, t);
        if n in Nodes(t.l) {
          HoldsUp(InLeft(ctx, t.n, t.c, t.r), t.l);
          ctx', t' := Locate(InLeft(ctx, t.n, t.c, t.r), t.l, n);
        } else {
          HoldsUp(InRight(ctx, t.n, t.c, t.l), t.r);
          ctx', t' := Locate(InRight(ctx, t.n, t.c, t.l), t.r, n);
        }
      }
    }

    /** The next node in order, or null for the last one. */
    method Successor(x: Node, ghost ctx: Context, ghost t: Tree) returns (next: Node?)
      requires Holds(ctx, t) && Root(t) == x
      ensures next == if t.r.Bin? then Inorder(t.r)[0] else if After(ctx) != [] then After(ctx)[0] else null
    {
      if x.right != null {
        next := x.right;
        ghost var u, p := t.r, x;
        while next.left != null
          invariant u.Bin? && next == u.n && Linked(u, p) && Inorder(u)[0] == Inorder(t.r)[0]
          decreases u
        {
          next := next.left;
          u, p := u.l, u.n;
        }
      } else {
        var node: Node := x;
        next := x.parent;
        ghost var c := ctx;
        while next != null && node == next.right
          invariant next == Above(c) && CtxLinked(c, node) && CtxDistinct(c) && node !in CtxNodes(c)
          invariant After(c) == After(ctx)
          decreases c
        {
          assert c.other.Bin? ==> c.other.n in Nodes(c.other);
          node := next;
          next := next.parent;
          c := c.up;
        }
      }
    }

    /** Unhooks a node that has at most one child. */
    method Splice(node: Node, child: Node?, ghost ctx: Context, ghost t: Tree, ghost rest: Tree)
      requires Holds(ctx, t) && t.Bin? && t.n == node && child == Root(rest)
      requires (t.l.Leaf? && rest == t.r) || (t.r.Leaf? && rest == t.l)
      modifies this`root, this`nodes, nodes - {node}
      ensures Holds(ctx, rest) && nodes == old(nodes) - {node}
    {
      assert Linked(rest, node) && (rest.Bin? ==> rest.n in Nodes(rest));
      SetParent(child, node.parent, rest);
      ReplaceChild(node.parent, node, child, ctx);
      nodes := nodes - {node};
    }

    /** The removal proper, of a node that has at most one child. */
    method Detach(node: Node, ghost ctx: Context, ghost t: Tree)
      requires Holds(ctx, t) && t.Bin? && t.n == node && (t.l.Leaf? || t.r.Leaf?)
      requires Sound(t) && Fits(ctx, t) && RootBlack(ctx) && (ctx.Top? ==> t.c == Black)
      requires Before(ctx) + (Inorder(t.l) + Inorder(t.r)) + After(ctx) != []
      modifies this`root, this`nodes, this`tree, nodes
      ensures Holds(Top, tree) && Valid(tree) && nodes == old(nodes) - {node}
      ensures Inorder(tree) == Before(ctx) + (Inorder(t.l) + Inorder(t.r)) + After(ctx)
    {
      ghost var rest := if t.l.Bin? then t.l else t.r;
      assert Inorder(rest) == Inorder(t.l) + Inorder(t.r);
      var child := if node.left != null then node.left else node.right;
      SpliceSound(ctx, t, rest);
      Splice(node, child, ctx, t, rest);
      if node.color != Red {
        tree := RemoveFixups(child, node.parent, ctx, rest);
      } else {
        HoldsTop(ctx, rest);
        tree := Plug(ctx, rest);
      }
    }

    lemma SuccessorBelow(node: Node, s: Node, ctx: Context, t: Tree)
      requires Holds(ctx, t) && t.Bin? && t.n == node && t.l.Bin? && t.r.Bin? && s == Inorder(t.r)[0]
      ensures s in Nodes(t.r) && node != s && node.left != s && s.left == null && s != root
      ensures node.parent != s && node.parent != node && (node.parent == null <==> root == node)
      ensures s.parent != null && s.parent != s && s.parent != node.parent
      ensures s.parent == node <==> node.right == s
    {
      FirstHasNoLeft(t.r, node);
      InorderNodes(t.r);
      assert s in Inorder(t.r);
      assert t.l.n in Nodes(t.l);
      LinkedConsistent(t.r, node);
      if !ctx.Top? {
        RootInContext(ctx, node);
      }
    }

    lemma TreeRelinkable(node: Node, s: Node, ctx: Context, t: Tree)
      requires Holds(Top, tree) && Holds(ctx, t)
      requires t.Bin? && t.n == node && t.l.Bin? && t.r.Bin? && s == Inorder(t.r)[0]
      ensures Relinkable(node, s) && LinkedIn(Snapshot(nodes), tree, null)
    {
      SuccessorBelow(node, s, ctx, t);
      LinkedConsistent(tree, null);
      LinkedSnapshot(nodes, tree, null);
    }

    lemma SwapHolds(was: map<Node, Cell>, t: Tree, a: Node, b: Node)
      requires LinkedIn(was, t, null) && Exchanged(was, a, b) && was.Keys == nodes
      requires Distinct(t) && Nodes(t) == nodes && root == SwapPtr(Root(t), a, b)
      ensures Holds(Top, Swap(t, a, b))
    {
      LinkedSwap(was, t, null, a, b);
      SwapDistinct(t, a, b);
      SwapNodes(t, a, b);
    }

    /** Trades places with the successor, so that `node` has no left child. */
    method Lower(node: Node, s: Node, ghost ctx: Context, ghost t: Tree)
      requires Holds(Top, tree) && Holds(ctx, t)
      requires t.Bin? && t.n == node && t.l.Bin? && t.r.Bin? && s == Inorder(t.r)[0]
      modifies this`root, this`tree, nodes
      ensures Holds(Top, tree) && tree == Swap(old(tree), node, s) && node.left == null
    {
      TreeRelinkable(node, s, ctx, t);
      ghost var was := Snapshot(nodes);
      Relink(node, s);
      SwapHolds(was, tree, node, s);
      tree := Swap(tree, node, s);
    }

    /** Takes `node` out of a tree that has another node, whatever its number of children. */
    method RemoveNode(node: Node, ghost ctx: Context, ghost t: Tree, ghost i: nat)
      requires Holds(Top, tree) && Valid(tree) && |Inorder(tree)| > 1
      requires Holds(ctx, t) && t.Bin? && t.n == node && AllInorder(ctx, t) == Inorder(tree)
      requires Sound(t) && Fits(ctx, t) && RootBlack(ctx) && (ctx.Top? ==> t.c == Black)
      requires i == |Before(ctx)| + |Inorder(t.l)|
      modifies this`root, this`nodes, this`tree, nodes
      ensures Holds(Top, tree) && Valid(tree) && nodes == old(nodes) - {node}
      ensures Inorder(tree) == Without(old(Inorder(tree)), i)
    {
      if node.left != null && node.right != null {
        RemoveLowered(node, ctx, t, i);
      } else {
        WithoutAt(ctx, t);
        ghost var left := Without(Inorder(tree), i);
        assert left == Before(ctx) + (Inorder(t.l) + Inorder(t.r)) + After(ctx);
        Detach(node, ctx, t);
        assert Inorder(tree) == left;
      }
    }

    method DetachLow(node: Node, ghost j: nat)
      requires Holds(Top, tree) && Valid(tree) && node in nodes && node.left == null
      requires NoRepeats(Inorder(tree)) && 1 < |Inorder(tree)| && j < |Inorder(tree)| && Inorder(tree)[j] == node
      modifies this`root, this`nodes, this`tree, nodes
      ensures Holds(Top, tree) && Valid(tree) && nodes == old(nodes) - {node}
      ensures Inorder(tree) == Without(old(Inorder(tree)), j)
    {
      ghost var ctx, t := Locate(Top, tree, node);
      assert AllInorder(Top, tree) == Inorder(tree);
      WithoutNode(ctx, t, Inorder(tree), j);
      Detach(node, ctx, t);
    }

    method RemoveLowered(node: Node, ghost ctx: Context, ghost t: Tree, ghost i: nat)
      requires Holds(Top, tree) && Valid(tree)
      requires Holds(ctx, t) && t.Bin? && t.n == node && t.l.Bin? && t.r.Bin? && AllInorder(ctx, t) == Inorder(tree)
      requires i == |Before(ctx)| + |Inorder(t.l)|
      modifies this`root, this`nodes, this`tree, nodes
      ensures Holds(Top, tree) && Valid(tree) && nodes == old(nodes) - {node}
      ensures Inorder(tree) == Without(old(Inorder(tree)), i)
    {
      InorderNodes(t.r);
      var s := Successor(node, ctx, t);
      SwappedOrder(tree, node, s, i);
      Lower(node, s, ctx, t);
      DetachLow(node, i + 1);
    }

    /** The new minimum when the first node leaves. */
    method AdvanceMinimum(node: Node, ghost ctx: Context, ghost t: Tree, ghost i: nat)
      requires Ok() && size > 1 && Holds(ctx, t) && Root(t) == node && AllInorder(ctx, t) == Inorder(tree)
      requires i == |Before(ctx)| + |Inorder(t.l)|
      modifies this`minimum
      ensures minimum == Without(Inorder(tree), i)[0]
    {
      ghost var s := Inorder(tree);
      WithoutAt(ctx, t);
      InorderNoRepeats(tree);
      if minimum == node {
        minimum := Successor(node, ctx, t);
        assert i == 0;
        InorderNodes(t.r);
        assert s == [node] + Inorder(t.r) + After(ctx);
      }
    }

    method Remove(node: Node) returns (ghost i: nat)
      requires Ok() && node in nodes
      modifies this, nodes
      ensures Ok() && nodes == old(nodes) - {node}
      ensures i < old(|Inorder(tree)|) && old(Inorder(tree)[i]) == node
      ensures Inorder(tree) == Without(old(Inorder(tree)), i)
    {
      ghost var ctx, t := Locate(Top, tree, node);
      i := |Before(ctx)| + |Inorder(t.l)|;
      WithoutAt(ctx, t);
      if size == 1 {
        RemoveOnly(node);
      } else {
        RemoveOneOfMany(node, ctx, t, i);
      }
    }

    method RemoveOneOfMany(node: Node, ghost ctx: Context, ghost t: Tree, ghost i: nat)
      requires Ok() && size > 1
      requires Holds(ctx, t) && Root(t) == node && AllInorder(ctx, t) == Inorder(tree)
      requires Sound(t) && Fits(ctx, t) && RootBlack(ctx) && (ctx.Top? ==> t.c == Black)
      requires i == |Before(ctx)| + |Inorder(t.l)|
      modifies this, nodes
      ensures Ok() && nodes == old(nodes) - {node}
      ensures Inorder(tree) == Without(old(Inorder(tree)), i)
    {
      WithoutSorted(Inorder(tree), i);
      AdvanceMinimum(node, ctx, t, i);
      RemoveNode(node, ctx, t, i);
      size := size - 1;
    }

    /** The special case of the only node; the cached minimum is left as it was. */
    method RemoveOnly(node: Node)
      requires Ok() && Inorder(tree) == [node]
      modifies this
      ensures Ok() && size == 0 && nodes == old(nodes) - {node} && Inorder(tree) == []
      ensures minimum == old(minimum)
    {
      InorderNodes(tree);
      assert nodes == {node};
      root := null;
      size := 0;
      tree, nodes := Leaf, {};
    }

    /** One step down from a node with another key. */
    lemma GoDown(ctx: Context, t: Tree, key: int)
      requires Holds(ctx, t) && t.Bin? && Sorted(AllInorder(ctx, t)) && key != t.n.key && Between(ctx, key)
      ensures
        var c := if key < t.n.key then InLeft(ctx, t.n, t.c, t.r) else InRight(ctx, t.n, t.c, t.l);
        var u := if key < t.n.key then t.l else t.r;
        && Holds(c, u) && AllInorder(c, u) == AllInorder(ctx, t) && Between(c, key)
        && (if key < t.n.key then Before(c) == Before(ctx) else Before(c) != [] && Before(c)[|Before(c)| - 1] == t.n)
    {
      if key < t.n.key {
        GoLeft(ctx, t, key);
      } else {
        GoRight(ctx, t, key - 1);
      }
    }

    method Find(key: int) returns (node: Node?)
      requires Ok()
      ensures node != null ==> node in Inorder(tree) && node.key == key
      ensures node == null ==> forall n | n in Inorder(tree) :: n.key != key
    {
      node := root;
      ghost var ctx, t := Top, tree;
      while node != null && node.key != key
        invariant Holds(ctx, t) && node == Root(t) && AllInorder(ctx, t) == Inorder(tree) && Between(ctx, key)
        decreases t
      {
        GoDown(ctx, t, key);
        if key < node.key {
          node := node.left;
          ctx, t := InLeft(ctx, t.n, t.c, t.r), t.l;
        } else {
          node := node.right;
          ctx, t := InRight(ctx, t.n, t.c, t.l), t.r;
        }
      }
      if t.Bin? {
        FocusListed(ctx, t);
      }
    }

    /** The node just before a position. */
    ghost function JustBefore(ctx: Context): Node? {
      if Before(ctx) == [] then null else Before(ctx)[|Before(ctx)| - 1]
    }

    method FindLargestNotAbove(key: int) returns (candidate: Node?)
      requires Ok()
      ensures candidate != null ==> candidate in Inorder(tree) && candidate.key <= key
      ensures candidate != null ==> forall n | n in Inorder(tree) && n.key <= key :: n.key <= candidate.key
      ensures candidate == null ==> forall n | n in Inorder(tree) :: key < n.key
    {
      candidate := null;
      var node := root;
      ghost var ctx, t := Top, tree;
      while node != null
        invariant Holds(ctx, t) && node == Root(t) && AllInorder(ctx, t) == Inorder(tree)
        invariant Between(ctx, key) && candidate == JustBefore(ctx)
        decreases t
      {
        if key == node.key {
          FocusListed(ctx, t);
          return node;
        }
        GoDown(ctx, t, key);
        if key < node.key {
          node := node.left;
          ctx, t := InLeft(ctx, t.n, t.c, t.r), t.l;
        } else {
          candidate := node;
          node := node.right;
          ctx, t := InRight(ctx, t.n, t.c, t.l), t.r;
        }
      }
      LastBelow(ctx, key);
    }
  }
}
