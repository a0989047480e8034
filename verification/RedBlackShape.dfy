/**
  The value side of AK/RedBlackTree.h: the shape of a tree of nodes, the zipper that
  names a position inside it, its order, and its colouring rules.  The heap side is
  RedBlackTree.dfy, which keeps the pointer fields equal to what a shape says.
 */
module RedBlackShape {
  import opened Common

  datatype Color = Red | Black

  class Node {
    var left: Node?
    var right: Node?
    var parent: Node?
    var color: Color
    const key: int

    constructor (key: int)
      ensures this.key == key
      ensures left == null && right == null && parent == null && color == Red
    {
      left, right, parent := null, null, null;
      color := Red;
      this.key := key;
    }
  }

  datatype Tree = Leaf | Bin(l: Tree, n: Node, c: Color, r: Tree)

  /** A tree with one subtree missing; the frame next to the hole comes first. */
  datatype Context =
    | Top
    | InLeft(up: Context, n: Node, c: Color, other: Tree)
    | InRight(up: Context, n: Node, c: Color, other: Tree)

  // ----- shapes -----

  ghost function Root(t: Tree): Node? {
    if t.Leaf? then null else t.n
  }

  ghost function Nodes(t: Tree): set<Node> {
    match t
    case Leaf => {}
    case Bin(l, n, _, r) => Nodes(l) + {n} + Nodes(r)
  }

  ghost predicate Distinct(t: Tree) {
    match t
    case Leaf => true
    case Bin(l, n, _, r) =>
      && Distinct(l) && Distinct(r)
      && n !in Nodes(l) && n !in Nodes(r) && Nodes(l) !! Nodes(r)
  }

  ghost function Inorder(t: Tree): seq<Node> {
    match t
    case Leaf => []
    case Bin(l, n, _, r) => Inorder(l) + [n] + Inorder(r)
  }

  // ----- contexts -----

  ghost function Above(ctx: Context): Node? {
    if ctx.Top? then null else ctx.n
  }

  ghost function CtxNodes(ctx: Context): set<Node> {
    if ctx.Top? then {} else CtxNodes(ctx.up) + {ctx.n} + Nodes(ctx.other)
  }

  ghost predicate CtxDistinct(ctx: Context) {
    !ctx.Top? ==>
      && CtxDistinct(ctx.up) && Distinct(ctx.other)
      && ctx.n !in CtxNodes(ctx.up) && ctx.n !in Nodes(ctx.other)
      && CtxNodes(ctx.up) !! Nodes(ctx.other)
  }

  /** The nodes before, and after, the hole in order. */
  ghost function Before(ctx: Context): seq<Node> {
    match ctx
    case Top => []
    case InLeft(up, _, _, _) => Before(up)
    case InRight(up, n, _, l) => Before(up) + (Inorder(l) + [n])
  }

  ghost function After(ctx: Context): seq<Node> {
    match ctx
    case Top => []
    case InLeft(up, n, _, r) => ([n] + Inorder(r)) + After(up)
    case InRight(up, _, _, _) => After(up)
  }

  /** The subtree one level up, when `t` fills the hole. */
  ghost function Step(ctx: Context, t: Tree): Tree
    requires !ctx.Top?
  {
    if ctx.InLeft? then Bin(t, ctx.n, ctx.c, ctx.other) else Bin(ctx.other, ctx.n, ctx.c, t)
  }

  ghost function WithSibling(ctx: Context, s: Tree): Context
    requires !ctx.Top?
  {
    if ctx.InLeft? then InLeft(ctx.up, ctx.n, ctx.c, s) else InRight(ctx.up, ctx.n, ctx.c, s)
  }

  ghost function Plug(ctx: Context, t: Tree): Tree {
    if ctx.Top? then t else Plug(ctx.up, Step(ctx, t))
  }

  ghost function CtxRoot(ctx: Context, hole: Node?): Node? {
    if ctx.Top? then hole else CtxRoot(ctx.up, ctx.n)
  }

  ghost function Depth(ctx: Context): nat {
    if ctx.Top? then 0 else 1 + Depth(ctx.up)
  }

  ghost predicate Proper(ctx: Context, t: Tree) {
    CtxDistinct(ctx) && Distinct(t) && CtxNodes(ctx) !! Nodes(t)
  }

  ghost function AllNodes(ctx: Context, t: Tree): set<Node> {
    CtxNodes(ctx) + Nodes(t)
  }

  ghost function AllInorder(ctx: Context, t: Tree): seq<Node> {
    Before(ctx) + Inorder(t) + After(ctx)
  }

  lemma TopInorder(t: Tree)
    ensures AllInorder(Top, t) == Inorder(t)
  {
  }

  // ----- moving the focus changes nothing -----

  lemma {:induction false} FocusUpInorder(ctx: Context, t: Tree)
    requires !ctx.Top?
    ensures AllInorder(ctx.up, Step(ctx, t)) == AllInorder(ctx, t)
  {
    var b, o, i, a := Before(ctx.up), Inorder(ctx.other), Inorder(t), After(ctx.up);
    if ctx.InLeft? {
      assert b + (i + [ctx.n] + o) + a == b + i + (([ctx.n] + o) + a);
    } else {
      assert b + (o + [ctx.n] + i) + a == (b + (o + [ctx.n])) + i + a;
    }
  }

  /** One step up: the same nodes, order and root, seen from the parent. */
  lemma {:induction false} FocusUp(ctx: Context, t: Tree)
    requires !ctx.Top?
    ensures Proper(ctx, t) <==> Proper(ctx.up, Step(ctx, t))
    ensures AllNodes(ctx.up, Step(ctx, t)) == AllNodes(ctx, t)
    ensures AllInorder(ctx.up, Step(ctx, t)) == AllInorder(ctx, t)
    ensures CtxRoot(ctx.up, Root(Step(ctx, t))) == CtxRoot(ctx, Root(t))
    ensures Plug(ctx.up, Step(ctx, t)) == Plug(ctx, t)
  {
    FocusUpInorder(ctx, t);
    assert Distinct(Step(ctx, t)) <==>
           Distinct(t) && Distinct(ctx.other) && ctx.n !in Nodes(t) && ctx.n !in Nodes(ctx.other)
             && Nodes(t) !! Nodes(ctx.other);
    assert Nodes(Step(ctx, t)) == Nodes(t) + {ctx.n} + Nodes(ctx.other);
  }

  lemma {:induction false} FocusTop(ctx: Context, t: Tree)
    requires Proper(ctx, t)
    ensures Distinct(Plug(ctx, t))
    ensures Nodes(Plug(ctx, t)) == AllNodes(ctx, t)
    ensures Inorder(Plug(ctx, t)) == AllInorder(ctx, t)
    ensures Root(Plug(ctx, t)) == CtxRoot(ctx, Root(t))
    decreases ctx
  {
    if !ctx.Top? {
      FocusUp(ctx, t);
      FocusTop(ctx.up, Step(ctx, t));
    }
  }

  lemma {:induction false} InorderNodes(t: Tree)
    ensures forall n | n in Inorder(t) :: n in Nodes(t)
    ensures forall n | n in Nodes(t) :: n in Inorder(t)
    ensures t.Bin? ==> Inorder(t) != []
  {
    if t.Bin? {
      InorderNodes(t.l);
      InorderNodes(t.r);
    }
  }

  lemma {:induction false} BeforeAfterNodes(ctx: Context)
    ensures forall n | n in Before(ctx) || n in After(ctx) :: n in CtxNodes(ctx)
  {
    if !ctx.Top? {
      BeforeAfterNodes(ctx.up);
      InorderNodes(ctx.other);
    }
  }

  /** A node with something before it is not the first in order. */
  lemma {:induction false} NotFirst(ctx: Context, t: Tree)
    requires Proper(ctx, t) && t.Bin? && (t.l.Bin? || Before(ctx) != [])
    ensures AllInorder(ctx, t) != [] && AllInorder(ctx, t)[0] != t.n
  {
    BeforeAfterNodes(ctx);
    InorderNodes(t.l);
    if Before(ctx) != [] {
      assert AllInorder(ctx, t)[0] == Before(ctx)[0];
    } else {
      assert AllInorder(ctx, t)[0] == Inorder(t.l)[0];
    }
  }

  lemma {:induction false} RootInContext(ctx: Context, hole: Node?)
    requires !ctx.Top?
    ensures CtxRoot(ctx, hole) in CtxNodes(ctx)
  {
    if !ctx.up.Top? {
      RootInContext(ctx.up, ctx.n);
    }
  }

  // ----- key order -----

  ghost predicate Sorted(s: seq<Node>) {
    forall i, j | 0 <= i < j < |s| :: s[i].key <= s[j].key
  }

  /** In a sorted position, a subtree's root separates the keys of its two subtrees. */
  lemma {:induction false} SortedAround(ctx: Context, t: Tree)
    requires t.Bin? && Sorted(AllInorder(ctx, t))
    ensures forall n | n in Inorder(t.l) :: n.key <= t.n.key
    ensures forall n | n in Inorder(t.r) :: t.n.key <= n.key
  {
    var s, a := AllInorder(ctx, t), |Before(ctx)|;
    var m := a + |Inorder(t.l)|;
    assert s[m] == t.n;
    forall i | 0 <= i < |Inorder(t.l)| ensures Inorder(t.l)[i].key <= t.n.key {
      assert s[a + i] == Inorder(t.l)[i];
    }
    forall i | 0 <= i < |Inorder(t.r)| ensures t.n.key <= Inorder(t.r)[i].key {
      assert s[m + 1 + i] == Inorder(t.r)[i];
    }
  }

  /** The keys before a position are below a key, those after it above. */
  ghost predicate Between(ctx: Context, key: int) {
    (forall n | n in Before(ctx) :: n.key < key) && (forall n | n in After(ctx) :: key < n.key)
  }

  /** At an empty position between smaller and larger keys, the node before it has the largest key below. */
  lemma {:induction false} LastBelow(ctx: Context, key: int)
    requires Sorted(AllInorder(ctx, Leaf))
    requires Between(ctx, key)
    ensures forall n | n in AllInorder(ctx, Leaf) && n.key <= key :: n in Before(ctx)
    ensures Before(ctx) != [] ==> Before(ctx)[|Before(ctx)| - 1] in AllInorder(ctx, Leaf)
    ensures forall n | n in Before(ctx) :: n.key <= Before(ctx)[|Before(ctx)| - 1].key
  {
    var b, s := Before(ctx), AllInorder(ctx, Leaf);
    assert b == s[..|b|];
    assert b != [] ==> s[|b| - 1] == b[|b| - 1];
    forall i | 0 <= i < |b| ensures b[i].key <= b[|b| - 1].key {
      assert s[i] == b[i];
    }
  }

  lemma {:induction false} FocusListed(ctx: Context, t: Tree)
    requires t.Bin?
    ensures t.n in AllInorder(ctx, t)
  {
    assert AllInorder(ctx, t)[|Before(ctx)| + |Inorder(t.l)|] == t.n;
  }

  lemma InsertSorted(s: seq<Node>, k: nat, n: Node)
    requires Sorted(s) && k <= |s|
    requires forall m | m in s[..k] :: m.key <= n.key
    requires forall m | m in s[k..] :: n.key < m.key
    ensures Sorted(s[..k] + [n] + s[k..])
  {
    var u := s[..k] + [n] + s[k..];
    forall i, j | 0 <= i < j < |u| ensures u[i].key <= u[j].key {
      assert i < k ==> u[i] in s[..k];
      assert j > k ==> u[j] in s[k..];
    }
  }

  // ----- rotations -----

  ghost function RotL(t: Tree): Tree
    requires t.Bin? && t.r.Bin?
  {
    Bin(Bin(t.l, t.n, t.c, t.r.l), t.r.n, t.r.c, t.r.r)
  }

  ghost function RotR(t: Tree): Tree
    requires t.Bin? && t.l.Bin?
  {
    Bin(t.l.l, t.l.n, t.l.c, Bin(t.l.r, t.n, t.c, t.r))
  }

  lemma {:induction false} RotateLeftKeeps(t: Tree)
    requires t.Bin? && t.r.Bin?
    ensures Distinct(RotL(t)) <==> Distinct(t)
    ensures Nodes(RotL(t)) == Nodes(t)
    ensures Inorder(RotL(t)) == Inorder(t)
  {
    var u := RotL(t);
    var a, b, c := t.l, t.r.l, t.r.r;
    assert Nodes(t.r) == Nodes(b) + {t.r.n} + Nodes(c);
    assert Nodes(u.l) == Nodes(a) + {t.n} + Nodes(b);
    assert Distinct(t.r) <==>
      Distinct(b) && Distinct(c) && t.r.n !in Nodes(b) && t.r.n !in Nodes(c) && Nodes(b) !! Nodes(c);
    assert Distinct(u.l) <==>
      Distinct(a) && Distinct(b) && t.n !in Nodes(a) && t.n !in Nodes(b) && Nodes(a) !! Nodes(b);
    var i, j, k := Inorder(a), Inorder(b), Inorder(c);
    assert (i + [t.n] + j) + [t.r.n] + k == i + [t.n] + (j + [t.r.n] + k);
  }

  lemma {:induction false} RotateRightKeeps(t: Tree)
    requires t.Bin? && t.l.Bin?
    ensures Distinct(RotR(t)) <==> Distinct(t)
    ensures Nodes(RotR(t)) == Nodes(t)
    ensures Inorder(RotR(t)) == Inorder(t)
  {
    RotateLeftKeeps(RotR(t));
    assert RotL(RotR(t)) == t;
  }

  // ----- colours -----

  ghost function ColorOf(t: Tree): Color {
    if t.Leaf? then Black else t.c
  }

  ghost function Weight(c: Color): nat {
    if c == Black then 1 else 0
  }

  /** Black nodes on the leftmost path. */
  ghost function BlackHeight(t: Tree): nat {
    if t.Leaf? then 0 else BlackHeight(t.l) + Weight(t.c)
  }

  /** Equal black heights everywhere and no red node with a red child. */
  ghost predicate Sound(t: Tree) {
    t.Bin? ==>
      && Sound(t.l) && Sound(t.r) && BlackHeight(t.l) == BlackHeight(t.r)
      && (t.c == Red ==> ColorOf(t.l) == Black && ColorOf(t.r) == Black)
  }

  /** Sound except that a red root may have red children. */
  ghost predicate SoundBelow(t: Tree) {
    t.Bin? ==> Sound(t.l) && Sound(t.r) && BlackHeight(t.l) == BlackHeight(t.r)
  }

  ghost predicate Valid(t: Tree) {
    Sound(t) && ColorOf(t) == Black
  }

  ghost function CtxColor(ctx: Context): Color {
    if ctx.Top? then Black else ctx.c
  }

  /** `ctx` obeys the rules for a subtree of black height `h`, whatever that subtree's colour. */
  ghost predicate CtxSound(ctx: Context, h: nat) {
    !ctx.Top? ==>
      && Sound(ctx.other) && BlackHeight(ctx.other) == h
      && (ctx.c == Red ==> ColorOf(ctx.other) == Black && CtxColor(ctx.up) == Black)
      && CtxSound(ctx.up, h + Weight(ctx.c))
  }

  ghost predicate RootBlack(ctx: Context) {
    !ctx.Top? ==> if ctx.up.Top? then ctx.c == Black else RootBlack(ctx.up)
  }

  ghost predicate Fits(ctx: Context, t: Tree) {
    CtxSound(ctx, BlackHeight(t)) && (ColorOf(t) == Black || CtxColor(ctx) == Black)
  }

  /** Soundness of the whole is soundness of the two parts. */
  lemma {:induction false} SoundPlug(ctx: Context, t: Tree)
    requires Sound(t) && Fits(ctx, t)
    ensures Sound(Plug(ctx, t))
    ensures RootBlack(ctx) && !ctx.Top? ==> Valid(Plug(ctx, t))
    decreases ctx
  {
    if !ctx.Top? {
      SoundPlug(ctx.up, Step(ctx, t));
    }
  }

  /** Going down one level in a sound position keeps it sound. */
  lemma {:induction false} SoundDown(ctx: Context, t: Tree)
    requires t.Bin? && Sound(t) && Fits(ctx, t)
    requires RootBlack(ctx) && (ctx.Top? ==> t.c == Black)
    ensures Fits(InLeft(ctx, t.n, t.c, t.r), t.l) && RootBlack(InLeft(ctx, t.n, t.c, t.r))
    ensures Fits(InRight(ctx, t.n, t.c, t.l), t.r) && RootBlack(InRight(ctx, t.n, t.c, t.l))
  {
  }

  // ----- the colour arithmetic of insert_fixups and remove_fixups -----

  /** A red subtree in a context that is right for its height, but whose parent may be red too. */
  ghost predicate RedSound(ctx: Context, t: Tree) {
    t.Bin? && t.c == Red && Sound(t) && CtxSound(ctx, BlackHeight(t)) && RootBlack(ctx)
  }

  /** The position two levels up once parent, uncle and grandparent are recoloured. */
  lemma {:induction false} RecolorSound(ctx: Context, t: Tree, g: Tree)
    requires RedSound(ctx, t) && CtxColor(ctx) == Red
    requires !ctx.up.Top? && g == Step(ctx.up, Step(ctx, t)) && ColorOf(ctx.up.other) == Red
    ensures g.l.Bin? && g.r.Bin? && RedSound(ctx.up.up, Bin(g.l.(c := Black), g.n, Red, g.r.(c := Black)))
  {
    var p := Step(ctx, t);
    assert CtxSound(ctx.up, BlackHeight(t)) && RootBlack(ctx.up) && RootBlack(ctx.up.up);
    assert Sound(p.(c := Black)) && BlackHeight(p.(c := Black)) == BlackHeight(t) + 1;
  }

  lemma {:induction false} TurnRightSound(ctx: Context, t: Tree)
    requires RedSound(ctx, t) && CtxColor(ctx) == Red
    requires ctx.up.InLeft? && ColorOf(ctx.up.other) == Black
    ensures
      var up := ctx.up;
      if ctx.InLeft? then RedSound(InLeft(up.up, ctx.n, Black, Bin(ctx.other, up.n, Red, up.other)), t)
      else RedSound(InLeft(up.up, t.n, Black, Bin(t.r, up.n, Red, up.other)), Bin(ctx.other, ctx.n, Red, t.l))
  {
    var up := ctx.up;
    assert CtxSound(up, BlackHeight(t)) && RootBlack(up) && RootBlack(up.up);
    var s := if ctx.InLeft? then ctx.other else t.r;
    assert Sound(Bin(s, up.n, Red, up.other));
  }

  lemma {:induction false} TurnLeftSound(ctx: Context, t: Tree)
    requires RedSound(ctx, t) && CtxColor(ctx) == Red
    requires ctx.up.InRight? && ColorOf(ctx.up.other) == Black
    ensures
      var up := ctx.up;
      if ctx.InRight? then RedSound(InRight(up.up, ctx.n, Black, Bin(up.other, up.n, Red, ctx.other)), t)
      else RedSound(InRight(up.up, t.n, Black, Bin(up.other, up.n, Red, t.l)), Bin(t.r, ctx.n, Red, ctx.other))
  {
    var up := ctx.up;
    assert CtxSound(up, BlackHeight(t)) && RootBlack(up) && RootBlack(up.up);
    var s := if ctx.InRight? then ctx.other else t.l;
    assert Sound(Bin(up.other, up.n, Red, s));
  }

  /** A subtree one black node short of what its context needs. */
  ghost predicate Short(ctx: Context, t: Tree) {
    SoundBelow(t) && CtxSound(ctx, BlackHeight(t) + 1) && RootBlack(ctx)
  }

  /** The sibling is red: after one rotation the new sibling is black. */
  lemma {:induction false} RedSiblingLeft(ctx: Context, t: Tree)
    requires ctx.InLeft? && Short(ctx, t) && ColorOf(t) == Black && ColorOf(ctx.other) == Red
    ensures
      var s := ctx.other;
      var ctx' := InLeft(InLeft(ctx.up, s.n, Black, s.r), ctx.n, Red, s.l);
      ctx.c == Black && Short(ctx', t) && s.l.Bin? && s.l.c == Black
  {
    assert RootBlack(ctx.up) && CtxSound(ctx.up, BlackHeight(t) + 2);
  }

  lemma {:induction false} RedSiblingRight(ctx: Context, t: Tree)
    requires ctx.InRight? && Short(ctx, t) && ColorOf(t) == Black && ColorOf(ctx.other) == Red
    ensures
      var s := ctx.other;
      var ctx' := InRight(InRight(ctx.up, s.n, Black, s.l), ctx.n, Red, s.r);
      ctx.c == Black && Short(ctx', t) && s.r.Bin? && s.r.c == Black
  {
    assert RootBlack(ctx.up) && CtxSound(ctx.up, BlackHeight(t) + 2);
  }

  /** Both nephews are black: the shortage moves one level up. */
  lemma {:induction false} BlackNephews(ctx: Context, t: Tree)
    requires !ctx.Top? && Short(ctx, t) && ColorOf(t) == Black
    requires ctx.other.Bin? && ctx.other.c == Black && ColorOf(ctx.other.l) == Black && ColorOf(ctx.other.r) == Black
    ensures Short(ctx.up, Step(WithSibling(ctx, ctx.other.(c := Red)), t))
  {
    assert Sound(t) && Sound(ctx.other.(c := Red));
    assert RootBlack(ctx.up);
  }

  /** The near nephew is red and the far one black: a rotation of the sibling makes the far one red. */
  lemma {:induction false} NearNephewLeft(ctx: Context, t: Tree)
    requires ctx.InLeft? && Short(ctx, t)
    requires ctx.other.Bin? && ctx.other.c == Black && ColorOf(ctx.other.l) == Red && ColorOf(ctx.other.r) == Black
    ensures
      var s := ctx.other;
      Short(WithSibling(ctx, Bin(s.l.l, s.l.n, Black, Bin(s.l.r, s.n, Red, s.r))), t)
  {
    var s := ctx.other;
    assert Sound(s.l);
    assert Sound(Bin(s.l.r, s.n, Red, s.r));
    assert BlackHeight(Bin(s.l.l, s.l.n, Black, Bin(s.l.r, s.n, Red, s.r))) == BlackHeight(s);
  }

  lemma {:induction false} NearNephewRight(ctx: Context, t: Tree)
    requires ctx.InRight? && Short(ctx, t)
    requires ctx.other.Bin? && ctx.other.c == Black && ColorOf(ctx.other.r) == Red && ColorOf(ctx.other.l) == Black
    ensures
      var s := ctx.other;
      Short(WithSibling(ctx, Bin(Bin(s.l, s.n, Red, s.r.l), s.r.n, Black, s.r.r)), t)
  {
    var s := ctx.other;
    assert Sound(s.r);
    assert Sound(Bin(s.l, s.n, Red, s.r.l));
    assert BlackHeight(Bin(Bin(s.l, s.n, Red, s.r.l), s.r.n, Black, s.r.r)) == BlackHeight(s);
  }

  /** The far nephew is red: one rotation of the parent ends the shortage. */
  lemma {:induction false} FarNephewLeft(ctx: Context, t: Tree)
    requires ctx.InLeft? && Short(ctx, t) && ColorOf(t) == Black
    requires ctx.other.Bin? && ctx.other.c == Black && ColorOf(ctx.other.r) == Red
    ensures
      var s := ctx.other;
      var u := Bin(Bin(t, ctx.n, Black, s.l), s.n, ctx.c, s.r.(c := Black));
      Sound(u) && Fits(ctx.up, u) && RootBlack(ctx.up)
  {
    var s := ctx.other;
    assert Sound(s.r) && Sound(s.r.(c := Black)) && BlackHeight(s.r.(c := Black)) == BlackHeight(t) + 1;
    assert Sound(Bin(t, ctx.n, Black, s.l));
  }

  lemma {:induction false} FarNephewRight(ctx: Context, t: Tree)
    requires ctx.InRight? && Short(ctx, t) && ColorOf(t) == Black
    requires ctx.other.Bin? && ctx.other.c == Black && ColorOf(ctx.other.l) == Red
    ensures
      var s := ctx.other;
      var u := Bin(s.l.(c := Black), s.n, ctx.c, Bin(s.r, ctx.n, Black, t));
      Sound(u) && Fits(ctx.up, u) && RootBlack(ctx.up)
  {
    var s := ctx.other;
    assert Sound(s.l) && Sound(s.l.(c := Black)) && BlackHeight(s.l.(c := Black)) == BlackHeight(t) + 1;
    assert Sound(Bin(s.r, ctx.n, Black, t));
  }

  /** Where remove_fixups stops, painting the node black ends the shortage. */
  lemma {:induction false} PaintedSound(ctx: Context, t: Tree)
    requires Short(ctx, t) && t.Bin? && (t.c == Red || ctx.Top?)
    ensures Valid(Plug(ctx, t.(c := Black)))
  {
    var u := t.(c := Black);
    assert Sound(u) && (t.c == Red ==> BlackHeight(u) == BlackHeight(t) + 1);
    SoundPlug(ctx, u);
  }

  /** Taking out a node with at most one child leaves a sound tree or one black node too few. */
  lemma {:induction false} SpliceSound(ctx: Context, t: Tree, child: Tree)
    requires t.Bin? && Sound(t) && Fits(ctx, t) && RootBlack(ctx) && (ctx.Top? ==> t.c == Black)
    requires (t.l.Leaf? && child == t.r) || (t.r.Leaf? && child == t.l)
    ensures t.c == Red ==> Valid(Plug(ctx, child))
    ensures t.c == Black ==> Short(ctx, child)
  {
    if t.c == Red {
      SoundPlug(ctx, child);
    }
  }

  // ----- exchanging two nodes -----

  ghost function SwapPtr(p: Node?, a: Node, b: Node): Node? {
    if p == a then b else if p == b then a else p
  }

  ghost function SwapNode(n: Node, a: Node, b: Node): Node {
    if n == a then b else if n == b then a else n
  }

  /** The same shape and colours with the nodes `a` and `b` in each other's place. */
  ghost function Swap(t: Tree, a: Node, b: Node): Tree {
    if t.Leaf? then Leaf else Bin(Swap(t.l, a, b), SwapNode(t.n, a, b), t.c, Swap(t.r, a, b))
  }

  lemma {:induction false} SwapMembers(t: Tree, a: Node, b: Node)
    ensures forall n | n in Nodes(Swap(t, a, b)) :: SwapNode(n, a, b) in Nodes(t)
    ensures forall n | n in Nodes(t) :: SwapNode(n, a, b) in Nodes(Swap(t, a, b))
  {
    if t.Bin? {
      SwapMembers(t.l, a, b);
      SwapMembers(t.r, a, b);
    }
  }

  lemma {:induction false} SwapDistinct(t: Tree, a: Node, b: Node)
    requires Distinct(t)
    ensures Distinct(Swap(t, a, b))
  {
    if t.Bin? {
      SwapDistinct(t.l, a, b);
      SwapDistinct(t.r, a, b);
      SwapMembers(t.l, a, b);
      SwapMembers(t.r, a, b);
      forall n | n in Nodes(Swap(t.l, a, b)) ensures n !in Nodes(Swap(t.r, a, b)) {
        assert SwapNode(n, a, b) in Nodes(t.l);
      }
    }
  }

  lemma {:induction false} SwapSound(t: Tree, a: Node, b: Node)
    ensures BlackHeight(Swap(t, a, b)) == BlackHeight(t) && ColorOf(Swap(t, a, b)) == ColorOf(t)
    ensures Sound(t) ==> Sound(Swap(t, a, b))
  {
    if t.Bin? {
      SwapSound(t.l, a, b);
      SwapSound(t.r, a, b);
    }
  }

  lemma {:induction false} SwapNodes(t: Tree, a: Node, b: Node)
    requires a in Nodes(t) && b in Nodes(t)
    ensures Nodes(Swap(t, a, b)) == Nodes(t)
  {
    SwapMembers(t, a, b);
    forall n | n in Nodes(t) ensures n in Nodes(Swap(t, a, b)) {
      assert SwapNode(SwapNode(n, a, b), a, b) == n;
      assert SwapNode(n, a, b) in Nodes(t);
    }
  }

  lemma {:induction false} SwapInorder(t: Tree, a: Node, b: Node)
    ensures |Inorder(Swap(t, a, b))| == |Inorder(t)|
    ensures forall i | 0 <= i < |Inorder(t)| :: Inorder(Swap(t, a, b))[i] == SwapNode(Inorder(t)[i], a, b)
  {
    if t.Bin? {
      SwapInorder(t.l, a, b);
      SwapInorder(t.r, a, b);
    }
  }

  ghost predicate NoRepeats(s: seq<Node>) {
    forall i, j | 0 <= i < j < |s| :: s[i] != s[j]
  }

  lemma NoRepeatsConcat(a: seq<Node>, b: seq<Node>)
    requires NoRepeats(a) && NoRepeats(b)
    requires forall n | n in a :: n !in b
    ensures NoRepeats(a + b)
  {
    var s := a + b;
    forall i, j | 0 <= i < j < |s| ensures s[i] != s[j] {
      assert i < |a| ==> s[i] in a;
      assert j >= |a| ==> s[j] in b;
    }
  }

  lemma {:induction false} InorderNoRepeats(t: Tree)
    requires Distinct(t)
    ensures NoRepeats(Inorder(t))
  {
    if t.Bin? {
      InorderNoRepeats(t.l);
      InorderNoRepeats(t.r);
      InorderNodes(t.l);
      InorderNodes(t.r);
      NoRepeatsConcat(Inorder(t.l), [t.n]);
      forall n | n in Inorder(t.l) + [t.n] ensures n !in Inorder(t.r) {
        assert n in Inorder(t.l) || n == t.n;
        assert n !in Nodes(t.r);
      }
      NoRepeatsConcat(Inorder(t.l) + [t.n], Inorder(t.r));
    }
  }

  lemma {:induction false} WithoutAt(ctx: Context, t: Tree)
    requires t.Bin?
    ensures AllInorder(ctx, t)[|Before(ctx)| + |Inorder(t.l)|] == t.n
    ensures Without(AllInorder(ctx, t), |Before(ctx)| + |Inorder(t.l)|) ==
            Before(ctx) + (Inorder(t.l) + Inorder(t.r)) + After(ctx)
  {
  }

  lemma SameIndex(s: seq<Node>, i: nat, j: nat)
    requires NoRepeats(s) && i < |s| && j < |s| && s[i] == s[j]
    ensures i == j
  {
  }

  lemma WithoutNode(ctx: Context, t: Tree, s: seq<Node>, j: nat)
    requires t.Bin? && s == AllInorder(ctx, t) && NoRepeats(s) && j < |s| && s[j] == t.n
    ensures Without(s, j) == Before(ctx) + (Inorder(t.l) + Inorder(t.r)) + After(ctx)
  {
    var i := |Before(ctx)| + |Inorder(t.l)|;
    assert i < |s| && s[i] == t.n && Without(s, i) == Before(ctx) + (Inorder(t.l) + Inorder(t.r)) + After(ctx) by {
      WithoutAt(ctx, t);
    }
    SameIndex(s, i, j);
  }

  /** Dropping a node after trading places with its successor is dropping it from its own place. */
  lemma DropSwapped(s: seq<Node>, u: seq<Node>, i: nat)
    requires i + 1 < |s| == |u| && NoRepeats(s)
    requires forall k | 0 <= k < |s| :: u[k] == SwapNode(s[k], s[i], s[i + 1])
    ensures Without(u, i + 1) == Without(s, i)
    ensures NoRepeats(u) && u[i + 1] == s[i]
  {
  }

  lemma SwappedOrder(t: Tree, a: Node, b: Node, i: nat)
    requires Distinct(t) && Valid(t)
    requires i + 1 < |Inorder(t)| && Inorder(t)[i] == a && Inorder(t)[i + 1] == b
    ensures Valid(Swap(t, a, b)) && |Inorder(Swap(t, a, b))| == |Inorder(t)|
    ensures NoRepeats(Inorder(Swap(t, a, b))) && Inorder(Swap(t, a, b))[i + 1] == a
    ensures Without(Inorder(Swap(t, a, b)), i + 1) == Without(Inorder(t), i)
  {
    InorderNoRepeats(t);
    SwapInorder(t, a, b);
    SwapSound(t, a, b);
    DropSwapped(Inorder(t), Inorder(Swap(t, a, b)), i);
  }

  lemma WithoutSorted(s: seq<Node>, i: nat)
    requires Sorted(s) && i < |s|
    ensures Sorted(Without(s, i))
  {
    var u := Without(s, i);
    forall j, k | 0 <= j < k < |u| ensures u[j].key <= u[k].key {
      assert u[j] == s[if j < i then j else j + 1] && u[k] == s[if k < i then k else k + 1];
    }
  }

  // ----- the height bound -----

  ghost function Height(t: Tree): nat {
    if t.Leaf? then 0
    else 1 + if Height(t.l) > Height(t.r) then Height(t.l) else Height(t.r)
  }

  lemma {:induction false} Pow2Monotone(a: nat, b: nat)
    requires a <= b
    ensures 1 <= Pow2(a) <= Pow2(b)
    decreases b
  {
    if a < b { Pow2Monotone(a, b - 1); } else if a > 0 { Pow2Monotone(a - 1, b - 1); }
  }

  lemma {:induction false} Pow2Add(a: nat, b: nat)
    ensures Pow2(a + b) == Pow2(a) * Pow2(b)
  {
    if a > 0 { Pow2Add(a - 1, b); }
  }

  lemma {:induction false} BlackHeightBounds(t: Tree)
    requires Sound(t)
    ensures Pow2(BlackHeight(t)) <= |Inorder(t)| + 1
    ensures Height(t) <= 2 * BlackHeight(t) + (if ColorOf(t) == Red then 1 else 0)
  {
    if t.Bin? {
      BlackHeightBounds(t.l);
      BlackHeightBounds(t.r);
    }
  }

  lemma SquareMonotone(a: nat, b: nat)
    requires a <= b
    ensures a * a <= b * b
  {
    assert a * a <= a * b <= b * b;
  }

  /** height <= 2 * log2(n + 1), written without logarithms. */
  lemma {:induction false} HeightBound(t: Tree)
    requires Valid(t)
    ensures Pow2(Height(t)) <= (|Inorder(t)| + 1) * (|Inorder(t)| + 1)
  {
    BlackHeightBounds(t);
    var h := BlackHeight(t);
    Pow2Monotone(Height(t), h + h);
    Pow2Add(h, h);
    SquareMonotone(Pow2(h), |Inorder(t)| + 1);
  }
}
