/**
  The shape of an intrusive red-black tree: which node hangs where, with the
  key and colour each node carries.  Leaves stand for the shared sentinel.

  A tree is taken apart at one node with a context (`Ctx`), the path back to the
  root, so that every step of the fix-up loops is an equation
  `Plug(c, t) == Plug(c', t')`.  The flag `d` of a context frame says that the
  hole is the left child; `Build` and `Rotate` take the same flag, so that the
  mirrored halves of the C code share one definition.
*/
module RbNodes {
  class RbNode {
    var key: nat
    var left: RbNode?
    var right: RbNode?
    var parent: RbNode?
    var red: bool
    // The structure this node is a member of.
    var container: object?

    constructor ()
    {
      key, left, right, parent, red, container := 0, null, null, null, false, null;
    }
  }
}

module RbShape {
  import opened Powers
  import opened RbNodes

  datatype Entry = Entry(key: nat, node: RbNode)

  datatype Tree =
    | Leaf
    | Node(left: Tree, node: RbNode, key: nat, red: bool, right: Tree)

  datatype Ctx =
    | Top
    | In(d: bool, node: RbNode, key: nat, red: bool, sib: Tree, up: Ctx)

  /** The node with `near` on side `d` and `far` on the other side. */
  function Build(d: bool, near: Tree, n: RbNode, k: nat, red: bool, far: Tree): Tree {
    if d then Node(near, n, k, red, far) else Node(far, n, k, red, near)
  }

  function Near(d: bool, t: Tree): Tree
    requires t.Node?
  {
    if d then t.left else t.right
  }

  function Far(d: bool, t: Tree): Tree
    requires t.Node?
  {
    if d then t.right else t.left
  }

  function Plug(c: Ctx, t: Tree): Tree
    decreases c
  {
    match c
    case Top => t
    case In(d, n, k, red, sib, up) => Plug(up, Build(d, t, n, k, red, sib))
  }

  /** Bring the far child of `t` up; `t`'s own root sinks to side `d`. */
  function Rotate(d: bool, t: Tree): Tree
    requires t.Node? && Far(d, t).Node?
  {
    var y := Far(d, t);
    Build(d, Build(d, Near(d, t), t.node, t.key, t.red, Near(d, y)), y.node, y.key, y.red, Far(d, y))
  }

  function Paint(t: Tree, red: bool): Tree {
    if t.Leaf? then t else t.(red := red)
  }

  function Depth(c: Ctx): nat {
    if c.Top? then 0 else 1 + Depth(c.up)
  }

  // ---------- Nodes ----------

  function Nodes(t: Tree): set<RbNode> {
    if t.Leaf? then {} else Nodes(t.left) + {t.node} + Nodes(t.right)
  }

  function CtxNodes(c: Ctx): set<RbNode> {
    if c.Top? then {} else {c.node} + Nodes(c.sib) + CtxNodes(c.up)
  }

  /** No node occurs twice. */
  predicate Distinct(t: Tree) {
    t.Leaf? ||
    (&& Distinct(t.left) && Distinct(t.right)
     && t.node !in Nodes(t.left) && t.node !in Nodes(t.right)
     && Nodes(t.left) !! Nodes(t.right))
  }

  predicate CtxDistinct(c: Ctx) {
    c.Top? ||
    (&& Distinct(c.sib) && CtxDistinct(c.up)
     && c.node !in Nodes(c.sib) && c.node !in CtxNodes(c.up)
     && Nodes(c.sib) !! CtxNodes(c.up))
  }

  lemma {:induction false} NodesPlug(c: Ctx, t: Tree)
    ensures Nodes(Plug(c, t)) == Nodes(t) + CtxNodes(c)
    decreases c
  {
    if c.In? {
      NodesPlug(c.up, Build(c.d, t, c.node, c.key, c.red, c.sib));
    }
  }

  lemma {:induction false} DistinctPlug(c: Ctx, t: Tree)
    ensures Distinct(Plug(c, t)) <==> Distinct(t) && CtxDistinct(c) && Nodes(t) !! CtxNodes(c)
    decreases c
  {
    if c.In? {
      var b := Build(c.d, t, c.node, c.key, c.red, c.sib);
      DistinctPlug(c.up, b);
      assert Nodes(b) == Nodes(t) + {c.node} + Nodes(c.sib);
    }
  }

  /** The root of a plugged tree belongs to the context, unless the context is empty. */
  lemma {:induction false} RootOutside(c: Ctx, t: Tree)
    requires c.In?
    ensures Plug(c, t).Node? && Plug(c, t).node in CtxNodes(c)
    decreases c
  {
    if c.up.In? {
      RootOutside(c.up, Build(c.d, t, c.node, c.key, c.red, c.sib));
    }
  }

  lemma FocusRight(c: Ctx, t: Tree)
    requires t.Node?
    ensures Plug(In(false, t.node, t.key, t.red, t.left, c), t.right) == Plug(c, t)
  {
    assert Build(false, t.right, t.node, t.key, t.red, t.left) == t;
  }

  // ---------- In-order sequence ----------

  function Order(t: Tree): seq<Entry> {
    if t.Leaf? then [] else Order(t.left) + [Entry(t.key, t.node)] + Order(t.right)
  }

  /** What stands before the hole of a context, in order. */
  function Before(c: Ctx): seq<Entry> {
    if c.Top? then []
    else if c.d then Before(c.up)
    else Before(c.up) + Order(c.sib) + [Entry(c.key, c.node)]
  }

  /** What stands after the hole of a context, in order. */
  function After(c: Ctx): seq<Entry> {
    if c.Top? then []
    else if c.d then [Entry(c.key, c.node)] + Order(c.sib) + After(c.up)
    else After(c.up)
  }

  predicate Sorted(s: seq<Entry>) {
    forall i, j :: 0 <= i < j < |s| ==> s[i].key <= s[j].key
  }

  /** Insertion into a sequence: before the first entry with a larger key. */
  function InsertEntry(s: seq<Entry>, e: Entry): seq<Entry> {
    if s == [] || e.key < s[0].key then [e] + s else [s[0]] + InsertEntry(s[1..], e)
  }

  lemma {:induction false} InsertEntryAt(a: seq<Entry>, b: seq<Entry>, e: Entry)
    requires forall i :: 0 <= i < |a| ==> a[i].key <= e.key
    requires forall i :: 0 <= i < |b| ==> e.key < b[i].key
    ensures InsertEntry(a + b, e) == a + [e] + b
  {
    if a == [] {
      assert a + b == b;
    } else {
      InsertEntryAt(a[1..], b, e);
      assert (a + b)[1..] == a[1..] + b;
      assert a == [a[0]] + a[1..];
    }
  }

  lemma {:induction false} InsertSorted(a: seq<Entry>, b: seq<Entry>, e: Entry)
    requires Sorted(a + b)
    requires forall i :: 0 <= i < |a| ==> a[i].key <= e.key
    requires forall i :: 0 <= i < |b| ==> e.key < b[i].key
    ensures Sorted(a + [e] + b)
  {
    var s := a + [e] + b;
    forall i, j | 0 <= i < j < |s|
      ensures s[i].key <= s[j].key
    {
      assert i < |a| ==> s[i] == (a + b)[i];
      assert i > |a| ==> s[i] == (a + b)[i - 1];
      assert j < |a| ==> s[j] == (a + b)[j];
      assert j > |a| ==> s[j] == (a + b)[j - 1] == b[j - 1 - |a|];
      assert i > |a| ==> s[i] == b[i - 1 - |a|];
    }
  }

  /** The order around a node, with its near subtree on the left and on the right. */
  lemma Gathered(a: seq<Entry>, b: seq<Entry>, e: seq<Entry>, c: seq<Entry>, d: seq<Entry>)
    ensures a + (b + e + c) + d == a + b + (e + c + d)
    ensures a + (b + e + c) + d == (a + b + e) + c + d
  {
  }

  lemma {:induction false} OrderPlug(c: Ctx, t: Tree)
    ensures Order(Plug(c, t)) == Before(c) + Order(t) + After(c)
    decreases c
  {
    if c.In? {
      var e, s := [Entry(c.key, c.node)], Order(c.sib);
      OrderPlug(c.up, Build(c.d, t, c.node, c.key, c.red, c.sib));
      Gathered(Before(c.up), Order(t), e, s, After(c.up));
      Gathered(Before(c.up), s, e, Order(t), After(c.up));
    }
  }

  /** Every node of a tree has a place: the context around it and the subtree at it. */
  lemma {:induction false} Locate(c0: Ctx, t: Tree, n: RbNode) returns (c: Ctx, s: Tree)
    requires n in Nodes(t)
    ensures s.Node? && s.node == n && Plug(c, s) == Plug(c0, t)
    decreases t
  {
    if n == t.node {
      c, s := c0, t;
    } else if n in Nodes(t.left) {
      c, s := Locate(In(true, t.node, t.key, t.red, t.right, c0), t.left, n);
    } else {
      c, s := Locate(In(false, t.node, t.key, t.red, t.left, c0), t.right, n);
    }
  }

  /** Rotations never change the in-order sequence. */
  lemma RotateOrder(d: bool, t: Tree)
    requires t.Node? && Far(d, t).Node?
    ensures Order(Rotate(d, t)) == Order(t)
  {
    var y := Far(d, t);
    if d {
      assert Order(Rotate(d, t)) == (Order(t.left) + [Entry(t.key, t.node)] + Order(y.left)) + [Entry(y.key, y.node)] + Order(y.right);
    } else {
      assert Order(Rotate(d, t)) == Order(y.left) + [Entry(y.key, y.node)] + (Order(y.right) + [Entry(t.key, t.node)] + Order(t.right));
    }
  }

  lemma RotateNodes(d: bool, t: Tree)
    requires t.Node? && Far(d, t).Node?
    ensures Nodes(Rotate(d, t)) == Nodes(t)
    ensures Distinct(t) ==> Distinct(Rotate(d, t))
  {
    var y := Far(d, t);
    var x' := Build(d, Near(d, t), t.node, t.key, t.red, Near(d, y));
    assert Nodes(x') == Nodes(Near(d, t)) + {t.node} + Nodes(Near(d, y));
    assert Nodes(y) == Nodes(Near(d, y)) + {y.node} + Nodes(Far(d, y));
    if Distinct(t) {
      assert Distinct(y);
      RotateDistinct(Near(d, t), t.node, Near(d, y), y.node, Far(d, y));
    }
  }

  lemma RotateDistinct(a: Tree, x: RbNode, b: Tree, y: RbNode, c: Tree)
    requires Distinct(a) && Distinct(b) && Distinct(c)
    requires x !in Nodes(a) && x !in Nodes(b) + {y} + Nodes(c) && y !in Nodes(b) && y !in Nodes(c)
    requires Nodes(a) !! Nodes(b) + {y} + Nodes(c) && Nodes(b) !! Nodes(c)
    ensures Nodes(a) !! Nodes(b)
    ensures y !in Nodes(a) + {x} + Nodes(b) && Nodes(a) + {x} + Nodes(b) !! Nodes(c)
  {
  }

  // ---------- Colours ----------

  predicate Black(t: Tree) {
    t.Leaf? || !t.red
  }

  /** Black nodes on the leftmost path; by `Rb`, on every path. */
  function BlackHeight(t: Tree): nat {
    if t.Leaf? then 0 else BlackHeight(t.left) + (if t.red then 0 else 1)
  }

  /** No red node has a red child, and every path has the same black count. */
  predicate Rb(t: Tree) {
    t.Leaf? ||
    (&& Rb(t.left) && Rb(t.right)
     && BlackHeight(t.left) == BlackHeight(t.right)
     && (t.red ==> Black(t.left) && Black(t.right)))
  }

  predicate RedBlack(t: Tree) {
    Rb(t) && Black(t)
  }

  /** `c` is red-black when its hole is filled by a black-rooted tree of black height `h`. */
  predicate CtxRb(c: Ctx, h: nat)
    decreases c
  {
    c.Top? ||
    (&& Rb(c.sib) && BlackHeight(c.sib) == h
     && (c.red ==> Black(c.sib) && c.up.In? && !c.up.red)
     && CtxRb(c.up, if c.red then h else h + 1))
  }

  lemma {:induction false} RbPlug(c: Ctx, t: Tree)
    ensures RedBlack(Plug(c, t)) <==>
      Rb(t) && CtxRb(c, BlackHeight(t)) && (c.Top? || c.red ==> Black(t))
    decreases c
  {
    if c.In? {
      RbPlug(c.up, Build(c.d, t, c.node, c.key, c.red, c.sib));
    }
  }

  // ---------- Height ----------

  function Height(t: Tree): nat {
    if t.Leaf? then 0
    else 1 + (if Height(t.left) < Height(t.right) then Height(t.right) else Height(t.left))
  }

  lemma {:induction false} BlackHeightBounds(t: Tree)
    requires Rb(t)
    ensures Pow2(BlackHeight(t)) <= |Order(t)| + 1
    ensures Height(t) <= 2 * BlackHeight(t) + (if Black(t) then 0 else 1)
  {
    if t.Node? {
      BlackHeightBounds(t.left);
      BlackHeightBounds(t.right);
    }
  }

  lemma SquareMonotone(a: nat, b: nat)
    requires a <= b
    ensures a * a <= b * b
  {
    assert b * b - a * a == (b - a) * (b + a);
  }

  /** A tree of n nodes has height at most 2*log2(n + 1). */
  lemma HeightBound(t: Tree)
    requires RedBlack(t)
    ensures Pow2(Height(t)) <= (|Order(t)| + 1) * (|Order(t)| + 1)
  {
    BlackHeightBounds(t);
    var b, n := Pow2(BlackHeight(t)), |Order(t)| + 1;
    Pow2Monotone(Height(t), 2 * BlackHeight(t));
    Pow2Add(BlackHeight(t), BlackHeight(t));
    SquareMonotone(b, n);
  }

  // ---------- One iteration of the insertion fix-up ----------

  /** The tree would be red-black but for the red root of `t`, which may hang below a red parent or be the root. */
  predicate Growing(c: Ctx, t: Tree) {
    t.Node? && t.red && Rb(t) && CtxRb(c, BlackHeight(t))
  }

  /** The loop exits at the root or below a black parent; painting the root black completes the tree. */
  lemma GrowingDone(c: Ctx, t: Tree)
    requires Growing(c, t) && (c.In? ==> !c.red)
    ensures RedBlack(Paint(Plug(c, t), false))
  {
    RbPlug(c, t);
  }

  function ParentTree(c: Ctx, t: Tree): Tree
    requires c.In?
  {
    Build(c.d, t, c.node, c.key, c.red, c.sib)
  }

  lemma SameOrder(c: Ctx, t: Tree, t': Tree)
    requires Order(t) == Order(t')
    ensures Order(Plug(c, t)) == Order(Plug(c, t'))
  {
    OrderPlug(c, t);
    OrderPlug(c, t');
  }

  /** Red uncle: the grandparent turns red and takes the place of the focus. */
  lemma InsertRecolour(c: Ctx, t: Tree)
    requires Growing(c, t) && c.In? && c.red && c.up.In? && !Black(c.up.sib)
    ensures
      var p := Paint(ParentTree(c, t), false);
      var g := Paint(ParentTree(c.up.(sib := Paint(c.up.sib, false)), p), true);
      Growing(c.up.up, g) && Order(Plug(c.up.up, g)) == Order(Plug(c, t))
  {
    var h := BlackHeight(t);
    var p := Paint(ParentTree(c, t), false);
    var u := Paint(c.up.sib, false);
    assert Rb(p) && BlackHeight(p) == h + 1;
    assert CtxRb(c.up, h) && Rb(c.up.sib);
    assert Rb(u) && BlackHeight(u) == h + 1;
    var g := Paint(ParentTree(c.up.(sib := u), p), true);
    var g0 := ParentTree(c.up, ParentTree(c, t));
    assert Order(u) == Order(c.up.sib) && Order(p) == Order(ParentTree(c, t));
    SameOrder(c.up.up, g0, g);
  }

  /** Black uncle, outer child: after recolouring, one rotation at the grandparent ends the loop. */
  lemma InsertRotateOuter(c: Ctx, t: Tree)
    requires Growing(c, t) && c.In? && c.red && c.up.In? && c.d == c.up.d && Black(c.up.sib)
    ensures
      var g := Paint(ParentTree(c.up, Paint(ParentTree(c, t), false)), true);
      var c' := In(c.d, c.node, c.key, false, Build(c.d, c.sib, c.up.node, c.up.key, true, c.up.sib), c.up.up);
      && Plug(c.up.up, Rotate(!c.d, g)) == Plug(c', t)
      && Growing(c', t) && Order(Plug(c', t)) == Order(Plug(c, t))
  {
    var g := Paint(ParentTree(c.up, Paint(ParentTree(c, t), false)), true);
    RotateOrder(!c.d, g);
    var g0 := ParentTree(c.up, ParentTree(c, t));
    assert Order(Paint(ParentTree(c, t), false)) == Order(ParentTree(c, t));
    SameOrder(c.up.up, g0, g);
    SameOrder(c.up.up, g, Rotate(!c.d, g));
    var h := BlackHeight(t);
    assert CtxRb(c.up, h);
    var u := Build(c.d, c.sib, c.up.node, c.up.key, true, c.up.sib);
    assert Rb(u) && BlackHeight(u) == h;
  }

  /** Inner child: rotating at the parent turns it into the outer case with the parent as focus. */
  lemma InsertRotateInner(c: Ctx, t: Tree)
    requires Growing(c, t) && c.In? && c.red && c.up.In? && c.d != c.up.d
    ensures
      var t' := Build(c.up.d, c.sib, c.node, c.key, true, Near(c.up.d, t));
      var c' := In(c.up.d, t.node, t.key, true, Far(c.up.d, t), c.up);
      && Plug(c.up, Rotate(c.up.d, ParentTree(c, t))) == Plug(c', t')
      && Growing(c', t') && Order(Plug(c', t')) == Order(Plug(c, t))
  {
    RotateOrder(c.up.d, ParentTree(c, t));
    SameOrder(c.up, ParentTree(c, t), Rotate(c.up.d, ParentTree(c, t)));
  }

  // ---------- One iteration of the deletion fix-up ----------

  /** The hole of `c` wants one black node more than `t` has; only the root of `t` may be too red. */
  predicate Lacking(c: Ctx, t: Tree) {
    Rb(Paint(t, false)) && CtxRb(c, BlackHeight(t) + 1)
  }

  /** The loop exits when the focus is red or the root: painting it black completes the tree. */
  lemma LackingDone(c: Ctx, t: Tree)
    requires Lacking(c, t) && (c.Top? || !Black(t))
    ensures RedBlack(Plug(c, Paint(t, false)))
  {
    RbPlug(c, Paint(t, false));
  }

  /** The termination measure of the loop: a red focus ends it. */
  function Busy(c: Ctx, t: Tree): nat {
    if Black(t) then 1 + Depth(c) else 0
  }

  /** Red sibling: one rotation gives the focus a black sibling, and a red parent. */
  lemma DeleteRedSibling(c: Ctx, t: Tree)
    requires c.In? && Lacking(c, t) && Black(t) && !Black(c.sib)
    ensures Near(c.d, c.sib).Node? && Black(Near(c.d, c.sib))
    ensures
      var g := Paint(ParentTree(c.(sib := Paint(c.sib, false)), t), true);
      var c' := In(c.d, c.node, c.key, true, Near(c.d, c.sib), In(c.d, c.sib.node, c.sib.key, false, Far(c.d, c.sib), c.up));
      && Plug(c.up, Rotate(c.d, g)) == Plug(c', t) && Lacking(c', t)
      && Order(Plug(c', t)) == Order(Plug(c, t))
  {
    var g := Paint(ParentTree(c.(sib := Paint(c.sib, false)), t), true);
    RotateOrder(c.d, g);
    assert Order(Paint(c.sib, false)) == Order(c.sib);
    SameOrder(c.up, ParentTree(c, t), g);
    SameOrder(c.up, g, Rotate(c.d, g));
  }

  /** Black sibling with black children: it turns red, and the parent lacks one black node instead. */
  lemma DeleteRecolour(c: Ctx, t: Tree)
    requires c.In? && Lacking(c, t) && Black(t) && Black(c.sib)
    ensures c.sib.Node?
    ensures
      var p := ParentTree(c.(sib := Paint(c.sib, true)), t);
      && Order(Plug(c.up, p)) == Order(Plug(c, t))
      && (Black(c.sib.left) && Black(c.sib.right) ==> Lacking(c.up, p))
  {
    assert BlackHeight(c.sib) == BlackHeight(t) + 1;
    var w := Paint(c.sib, true);
    if Black(c.sib.left) && Black(c.sib.right) {
      assert Rb(w) && BlackHeight(w) == BlackHeight(t);
    }
    SameOrder(c.up, ParentTree(c, t), ParentTree(c.(sib := w), t));
  }

  /** Black sibling whose far child is black: rotating it makes its red near child the new sibling. */
  lemma DeleteRotateSibling(c: Ctx, t: Tree)
    requires c.In? && Lacking(c, t) && Black(t) && c.sib.Node? && Black(c.sib)
    requires Black(Far(c.d, c.sib)) && !Black(Near(c.d, c.sib))
    ensures
      var w := c.sib;
      var w' := Rotate(!c.d, Build(c.d, Paint(Near(c.d, w), false), w.node, w.key, true, Far(c.d, w)));
      && w'.Node? && Black(w') && !Black(Far(c.d, w')) && Lacking(c.(sib := w'), t)
      && Order(Plug(c.(sib := w'), t)) == Order(Plug(c, t))
  {
    var w, h := c.sib, BlackHeight(t);
    var a := Near(c.d, w);
    assert Rb(w) && Rb(a) && BlackHeight(a) == h;
    var lower := Build(c.d, Far(c.d, a), w.node, w.key, true, Far(c.d, w));
    assert Rb(lower) && BlackHeight(lower) == h;
    var w' := Build(c.d, Near(c.d, a), a.node, a.key, false, lower);
    assert Rb(w') && BlackHeight(w') == h + 1;
    var w1 := Build(c.d, Paint(a, false), w.node, w.key, true, Far(c.d, w));
    assert w' == Rotate(!c.d, w1);
    assert c.(sib := w').sib == w';
    RotateOrder(!c.d, w1);
    assert Order(w1) == Order(w) by {
      assert Order(Paint(a, false)) == Order(a);
    }
    SameOrder(c.up, ParentTree(c, t), ParentTree(c.(sib := w'), t));
  }

  /** Black sibling with a red far child: one rotation supplies the missing black node. */
  lemma DeleteRotateParent(c: Ctx, t: Tree)
    requires c.In? && Lacking(c, t) && Black(t) && c.sib.Node? && Black(c.sib)
    requires !Black(Far(c.d, c.sib))
    ensures
      var w := c.sib;
      var w' := Build(c.d, Near(c.d, w), w.node, w.key, c.red, Paint(Far(c.d, w), false));
      var r := Plug(c.up, Rotate(c.d, Paint(ParentTree(c.(sib := w'), t), false)));
      RedBlack(r) && Order(r) == Order(Plug(c, t))
  {
    var w := c.sib;
    var w' := Build(c.d, Near(c.d, w), w.node, w.key, c.red, Paint(Far(c.d, w), false));
    var q := Paint(ParentTree(c.(sib := w'), t), false);
    var h := BlackHeight(t);
    assert Rb(t) && Rb(w) && BlackHeight(w) == h + 1;
    assert Rb(Far(c.d, w)) && BlackHeight(Far(c.d, w)) == h;
    var x := Build(c.d, t, c.node, c.key, false, Near(c.d, w));
    var z := Paint(Far(c.d, w), false);
    assert Rb(x) && BlackHeight(x) == h + 1;
    assert Rb(z) && BlackHeight(z) == h + 1;
    assert Rotate(c.d, q) == Build(c.d, x, w.node, w.key, c.red, z);
    RbPlug(c.up, Rotate(c.d, q));
    DeleteRotateOrder(c, t);
  }

  lemma DeleteRotateOrder(c: Ctx, t: Tree)
    requires c.In? && c.sib.Node?
    requires !Black(Far(c.d, c.sib))
    ensures
      var w := c.sib;
      var w' := Build(c.d, Near(c.d, w), w.node, w.key, c.red, Paint(Far(c.d, w), false));
      var r := Plug(c.up, Rotate(c.d, Paint(ParentTree(c.(sib := w'), t), false)));
      Order(r) == Order(Plug(c, t))
  {
    var w := c.sib;
    var w' := Build(c.d, Near(c.d, w), w.node, w.key, c.red, Paint(Far(c.d, w), false));
    assert Order(w') == Order(w) by {
      assert Order(Paint(Far(c.d, w), false)) == Order(Far(c.d, w));
    }
    var q := Paint(ParentTree(c.(sib := w'), t), false);
    RotateOrder(c.d, q);
    SameOrder(c.up, ParentTree(c, t), q);
    SameOrder(c.up, q, Rotate(c.d, q));
  }

  // ---------- Removal ----------

  /** The sequence without the first entry of node `n`. */
  function RemoveNode(s: seq<Entry>, n: RbNode): seq<Entry> {
    if s == [] then [] else if s[0].node == n then s[1..] else [s[0]] + RemoveNode(s[1..], n)
  }

  lemma {:induction false} RemoveNodeAt(a: seq<Entry>, e: Entry, b: seq<Entry>)
    requires forall i :: 0 <= i < |a| ==> a[i].node != e.node
    ensures RemoveNode(a + [e] + b, e.node) == a + b
  {
    if a == [] {
      assert a + [e] + b == [e] + b;
      assert a + b == b;
    } else {
      RemoveNodeAt(a[1..], e, b);
      assert (a + [e] + b)[1..] == a[1..] + [e] + b;
      assert a + b == [a[0]] + (a[1..] + b);
    }
  }

  lemma {:induction false} OrderInNodes(t: Tree)
    ensures forall i :: 0 <= i < |Order(t)| ==> Order(t)[i].node in Nodes(t)
  {
    if t.Node? {
      OrderInNodes(t.left);
      OrderInNodes(t.right);
    }
  }

  lemma {:induction false} BeforeInNodes(c: Ctx)
    ensures forall i :: 0 <= i < |Before(c)| ==> Before(c)[i].node in CtxNodes(c)
    decreases c
  {
    if c.In? {
      BeforeInNodes(c.up);
      OrderInNodes(c.sib);
    }
  }

  predicate Behind(s: seq<Entry>, i: nat, next: RbNode?) {
    next == if i + 1 < |s| then s[i + 1].node else null
  }

  /** `next` stands right behind `node`, or is null when `node` stands last. */
  predicate Follows(s: seq<Entry>, node: RbNode, next: RbNode?) {
    exists i :: 0 <= i < |s| && s[i].node == node && Behind(s, i, next)
  }

  predicate NoRepeats(s: seq<Entry>) {
    forall i, j :: 0 <= i < j < |s| ==> s[i].node != s[j].node
  }

  lemma {:induction false} OrderNoRepeats(t: Tree)
    requires Distinct(t)
    ensures NoRepeats(Order(t))
  {
    if t.Node? {
      OrderNoRepeats(t.left);
      OrderNoRepeats(t.right);
      OrderInNodes(t.left);
      OrderInNodes(t.right);
      var s, l, r := Order(t), Order(t.left), Order(t.right);
      forall i, j | 0 <= i < j < |s|
        ensures s[i].node != s[j].node
      {
        assert s[i].node == if i < |l| then l[i].node else if i == |l| then t.node else r[i - |l| - 1].node;
        assert s[j].node == if j < |l| then l[j].node else if j == |l| then t.node else r[j - |l| - 1].node;
      }
    }
  }

  /** Without repeats, what follows a node is what stands behind it. */
  lemma FollowsAt(s: seq<Entry>, i: nat, next: RbNode?)
    requires NoRepeats(s) && i < |s| && Follows(s, s[i].node, next)
    ensures Behind(s, i, next)
  {
    var j :| 0 <= j < |s| && s[j].node == s[i].node && Behind(s, j, next);
    assert i == j;
  }

  /** The nodes of a sequence of entries. */
  function Names(s: seq<Entry>): (r: seq<RbNode>)
    ensures |r| == |s| && forall i :: 0 <= i < |s| ==> r[i] == s[i].node
  {
    if s == [] then [] else [s[0].node] + Names(s[1..])
  }

  /** Taking an entry out of a sorted sequence leaves it sorted. */
  lemma RemoveSorted(a: seq<Entry>, e: Entry, b: seq<Entry>)
    requires Sorted(a + [e] + b)
    ensures Sorted(a + b)
  {
    var s := a + [e] + b;
    forall i, j | 0 <= i < j < |a + b|
      ensures (a + b)[i].key <= (a + b)[j].key
    {
      assert (a + b)[i] == s[if i < |a| then i else i + 1];
      assert (a + b)[j] == s[if j < |a| then j else j + 1];
    }
  }

  /** The context `c` continued inside by the context `sp`. */
  function Append(sp: Ctx, c: Ctx): Ctx
    decreases sp
  {
    match sp
    case Top => c
    case In(d, n, k, red, sib, up) => In(d, n, k, red, sib, Append(up, c))
  }

  lemma {:induction false} PlugAppend(sp: Ctx, c: Ctx, t: Tree)
    ensures Plug(Append(sp, c), t) == Plug(c, Plug(sp, t))
    decreases sp
  {
    if sp.In? {
      PlugAppend(sp.up, c, ParentTree(sp, t));
    }
  }

  /** The hole is reached by going left only. */
  predicate LeftSpine(sp: Ctx)
    decreases sp
  {
    sp.Top? || (sp.d && LeftSpine(sp.up))
  }

  lemma {:induction false} LeftSpineBefore(sp: Ctx, c: Ctx)
    requires LeftSpine(sp)
    ensures Before(sp) == [] && Before(Append(sp, c)) == Before(c)
    decreases sp
  {
    if sp.In? {
      LeftSpineBefore(sp.up, c);
    }
  }

  /** `x` is what is left of `t` when its root, which has at most one child, is taken out. */
  predicate OnlyChild(t: Tree, x: Tree) {
    t.Node? && ((t.left.Leaf? && x == t.right) || (t.right.Leaf? && x == t.left))
  }

  lemma BeforeRoot(c: Ctx, t: Tree)
    requires t.Node? && Distinct(Plug(c, t))
    ensures
      var a := Before(c) + Order(t.left);
      forall i :: 0 <= i < |a| ==> a[i].node != t.node
  {
    DistinctPlug(c, t);
    BeforeInNodes(c);
    OrderInNodes(t.left);
    assert t.node in Nodes(t);
  }

  lemma OrderSplit(c: Ctx, t: Tree)
    requires t.Node?
    ensures Order(Plug(c, t)) == (Before(c) + Order(t.left)) + [Entry(t.key, t.node)] + (Order(t.right) + After(c))
  {
    OrderPlug(c, t);
    Halved(Before(c), Order(t.left), [Entry(t.key, t.node)], Order(t.right), After(c));
  }

  lemma Halved(a: seq<Entry>, b: seq<Entry>, e: seq<Entry>, c: seq<Entry>, d: seq<Entry>)
    ensures a + (b + e + c) + d == (a + b) + e + (c + d)
  {
  }

  lemma RemoveRoot(c: Ctx, t: Tree)
    requires t.Node? && Distinct(Plug(c, t)) && Sorted(Order(Plug(c, t)))
    ensures RemoveNode(Order(Plug(c, t)), t.node) == (Before(c) + Order(t.left)) + (Order(t.right) + After(c))
    ensures Sorted((Before(c) + Order(t.left)) + (Order(t.right) + After(c)))
  {
    OrderSplit(c, t);
    BeforeRoot(c, t);
    RemoveNodeAt(Before(c) + Order(t.left), Entry(t.key, t.node), Order(t.right) + After(c));
    RemoveSorted(Before(c) + Order(t.left), Entry(t.key, t.node), Order(t.right) + After(c));
  }

  lemma Regroup(a: seq<Entry>, b: seq<Entry>, c: seq<Entry>, d: seq<Entry>)
    ensures (a + b) + (c + d) == a + (b + c) + d
    ensures b == [] ==> b + c == c
    ensures c == [] ==> b + c == b
  {
  }

  lemma Shift(a: seq<Entry>, e: seq<Entry>, r: seq<Entry>, d: seq<Entry>, er: seq<Entry>)
    requires er == e + r
    ensures a + (er + d) == a + e + (r + d)
  {
  }

  lemma RemoveOnlyOrder(c: Ctx, t: Tree, x: Tree)
    requires OnlyChild(t, x) && Distinct(Plug(c, t)) && Sorted(Order(Plug(c, t)))
    ensures Order(Plug(c, x)) == RemoveNode(Order(Plug(c, t)), t.node)
    ensures Sorted(Order(Plug(c, x)))
  {
    RemoveRoot(c, t);
    OrderPlug(c, x);
    if t.left.Leaf? {
      Regroup(Before(c), [], Order(x), After(c));
    } else {
      Regroup(Before(c), Order(x), [], After(c));
    }
  }

  /** Putting the in-order successor in the place of the removed node. */
  lemma RemoveSubstOrder(c: Ctx, t: Tree, sp: Ctx, u: Tree)
    requires t.Node? && u.Node? && u.left.Leaf? && LeftSpine(sp) && t.right == Plug(sp, u)
    requires Distinct(Plug(c, t)) && Sorted(Order(Plug(c, t)))
    ensures
      var t' := Node(t.left, u.node, u.key, t.red, Plug(sp, u.right));
      Order(Plug(c, t')) == RemoveNode(Order(Plug(c, t)), t.node) && Sorted(Order(Plug(c, t')))
  {
    RemoveRoot(c, t);
    SpineOrder(sp, u);
    var t' := Node(t.left, u.node, u.key, t.red, Plug(sp, u.right));
    OrderSplit(c, t');
    Shift(Before(c) + Order(t.left), [Entry(u.key, u.node)], Order(t'.right), After(c), Order(t.right));
  }

  lemma SpineOrder(sp: Ctx, u: Tree)
    requires u.Node? && u.left.Leaf? && LeftSpine(sp)
    ensures Order(Plug(sp, u)) == [Entry(u.key, u.node)] + Order(Plug(sp, u.right))
  {
    OrderPlug(sp, u);
    OrderPlug(sp, u.right);
    LeftSpineBefore(sp, Top);
  }

  /** Taking out a red node keeps the tree red-black; taking out a black one leaves its place lacking. */
  lemma RemoveOnlyColours(c: Ctx, t: Tree, x: Tree)
    requires OnlyChild(t, x) && RedBlack(Plug(c, t))
    ensures if t.red then RedBlack(Plug(c, x)) else Lacking(c, x)
    ensures c.Top? ==> RedBlack(Paint(x, false))
  {
    RbPlug(c, t);
    RbPlug(c, x);
    assert Rb(x) && BlackHeight(x) == 0;
    if x.Node? {
      assert x.red;
    }
  }

  lemma {:induction false} CtxRbRename(sp: Ctx, c: Ctx, c': Ctx, h: nat)
    requires c.In? && c'.In? && c'.red == c.red && c'.sib == c.sib && c'.up == c.up && CtxRb(Append(sp, c), h)
    ensures CtxRb(Append(sp, c'), h)
    decreases sp
  {
    if sp.In? {
      CtxRbRename(sp.up, c, c', if sp.red then h else h + 1);
    }
  }

  lemma RemoveSubstColours(c: Ctx, t: Tree, sp: Ctx, u: Tree)
    requires t.Node? && u.Node? && u.left.Leaf? && t.right == Plug(sp, u)
    requires RedBlack(Plug(c, t))
    ensures
      var c' := Append(sp, In(false, u.node, u.key, t.red, t.left, c));
      if u.red then RedBlack(Plug(c', u.right)) else Lacking(c', u.right)
  {
    var f, f' := In(false, t.node, t.key, t.red, t.left, c), In(false, u.node, u.key, t.red, t.left, c);
    PlugAppend(sp, f, u);
    RbPlug(Append(sp, f), u);
    CtxRbRename(sp, f, f', BlackHeight(u));
    RbPlug(Append(sp, f'), u);
    assert !u.red || Black(Plug(Append(sp, f'), u)) ;
    RemoveOnlyColours(Append(sp, f'), u, u.right);
  }
}
