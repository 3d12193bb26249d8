/**
  How a shape lies in memory.  A snapshot maps each node to the contents of its
  fields; `Links` says that the fields agree with the shape.  Two things are
  deliberately not said: what the root's `parent` holds (deleting with the
  shortcut of rbtree.c leaves it stale), and anything about the sentinel.
*/
module RbStore {
  import opened RbNodes
  import opened RbShape

  datatype Cell = Cell(key: nat, left: RbNode?, right: RbNode?, parent: RbNode?, red: bool)

  type Store = map<RbNode, Cell>

  datatype Parent = Any | Is(node: RbNode)

  function ParentOf(c: Ctx): Parent {
    if c.Top? then Any else Is(c.node)
  }

  /** The address of a subtree; `nil` is the sentinel. */
  function Addr(t: Tree, nil: RbNode): RbNode {
    if t.Leaf? then nil else t.node
  }

  predicate CellIs(s: Store, n: RbNode, k: nat, red: bool, l: RbNode, r: RbNode, p: Parent) {
    n in s && s[n].key == k && s[n].red == red && s[n].left == l && s[n].right == r
    && (p.Is? ==> s[n].parent == p.node)
  }

  predicate Links(s: Store, nil: RbNode, t: Tree, p: Parent) {
    t.Leaf? ||
    (&& CellIs(s, t.node, t.key, t.red, Addr(t.left, nil), Addr(t.right, nil), p)
     && Links(s, nil, t.left, Is(t.node)) && Links(s, nil, t.right, Is(t.node)))
  }

  /** The nodes of a context, linked up so that its hole holds the address `x`. */
  predicate CtxLinks(s: Store, nil: RbNode, c: Ctx, x: RbNode) {
    c.Top? ||
    (&& FrameIs(s, nil, c, x)
     && Links(s, nil, c.sib, Is(c.node)) && CtxLinks(s, nil, c.up, c.node))
  }

  predicate FrameIs(s: Store, nil: RbNode, c: Ctx, x: RbNode)
    requires c.In?
  {
    CellIs(s, c.node, c.key, c.red,
      if c.d then x else Addr(c.sib, nil), if c.d then Addr(c.sib, nil) else x, ParentOf(c.up))
  }

  lemma {:induction false} LinksPlug(s: Store, nil: RbNode, c: Ctx, t: Tree)
    ensures Links(s, nil, Plug(c, t), Any) <==>
      CtxLinks(s, nil, c, Addr(t, nil)) && Links(s, nil, t, ParentOf(c))
    decreases c
  {
    if c.In? {
      LinksPlug(s, nil, c.up, Build(c.d, t, c.node, c.key, c.red, c.sib));
    }
  }

  predicate Agree(s: Store, s': Store, ns: set<RbNode>) {
    forall n :: n in ns ==> n in s && n in s' && s[n] == s'[n]
  }

  lemma {:induction false} LinksFrame(s: Store, s': Store, nil: RbNode, t: Tree, p: Parent)
    requires Links(s, nil, t, p) && Agree(s, s', Nodes(t))
    ensures Links(s', nil, t, p)
  {
    if t.Node? {
      LinksFrame(s, s', nil, t.left, Is(t.node));
      LinksFrame(s, s', nil, t.right, Is(t.node));
    }
  }

  lemma {:induction false} CtxLinksFrame(s: Store, s': Store, nil: RbNode, c: Ctx, x: RbNode)
    requires CtxLinks(s, nil, c, x) && Agree(s, s', CtxNodes(c))
    ensures CtxLinks(s', nil, c, x)
  {
    if c.In? {
      LinksFrame(s, s', nil, c.sib, Is(c.node));
      CtxLinksFrame(s, s', nil, c.up, c.node);
    }
  }

  /** Hanging a subtree below another parent: only its root's `parent` is rewritten. */
  lemma LinksReparent(s: Store, s': Store, nil: RbNode, t: Tree, p: Parent, q: Parent)
    requires Links(s, nil, t, p) && Distinct(t)
    requires t.Node? ==> t.node in s' && s'[t.node] == s[t.node].(parent := s'[t.node].parent)
    requires t.Node? && q.Is? ==> s'[t.node].parent == q.node
    requires t.Node? ==> Agree(s, s', Nodes(t) - {t.node})
    ensures Links(s', nil, t, q)
  {
    if t.Node? {
      LinksFrame(s, s', nil, t.left, Is(t.node));
      LinksFrame(s, s', nil, t.right, Is(t.node));
    }
  }

  /** Filling the hole of a context with another address: only one child pointer is rewritten. */
  lemma CtxRefill(s: Store, s': Store, nil: RbNode, c: Ctx, x: RbNode, x': RbNode)
    requires CtxLinks(s, nil, c, x) && CtxDistinct(c)
    requires c.In? ==> c.node in s' && s'[c.node] == if c.d then s[c.node].(left := x') else s[c.node].(right := x')
    requires c.In? ==> Agree(s, s', CtxNodes(c) - {c.node})
    ensures CtxLinks(s', nil, c, x')
  {
    if c.In? {
      LinksFrame(s, s', nil, c.sib, Is(c.node));
      CtxLinksFrame(s, s', nil, c.up, c.node);
    }
  }

  /** Recolouring one node. */
  lemma LinksPaint(s: Store, s': Store, nil: RbNode, c: Ctx, t: Tree, red: bool)
    requires Links(s, nil, Plug(c, t), Any) && Distinct(Plug(c, t)) && t.Node?
    requires Agree(s, s', Nodes(Plug(c, t)) - {t.node})
    requires t.node in s && t.node in s' && s'[t.node] == s[t.node].(red := red)
    ensures Links(s', nil, Plug(c, Paint(t, red)), Any)
  {
    LinksPlug(s, nil, c, t);
    LinksPlug(s', nil, c, Paint(t, red));
    NodesPlug(c, t);
    DistinctPlug(c, t);
    LinksFrame(s, s', nil, t.left, Is(t.node));
    LinksFrame(s, s', nil, t.right, Is(t.node));
    CtxLinksFrame(s, s', nil, c, t.node);
  }

  /** The parts around a rotation have no node in common. */
  lemma RotateApart(d: bool, c: Ctx, t: Tree)
    requires t.Node? && Far(d, t).Node? && Distinct(Plug(c, t))
    ensures
      var x, y, a := t.node, Far(d, t), Near(d, t);
      && Distinct(a) && Distinct(y) && CtxDistinct(c)
      && x !in Nodes(a) && x !in Nodes(y) && x !in CtxNodes(c)
      && Nodes(a) !! Nodes(y) && Nodes(a) !! CtxNodes(c) && Nodes(y) !! CtxNodes(c)
    ensures Nodes(Plug(c, t)) == Nodes(Near(d, t)) + {t.node} + Nodes(Far(d, t)) + CtxNodes(c)
  {
    DistinctPlug(c, t);
    NodesPlug(c, t);
    assert Nodes(t) == Nodes(Near(d, t)) + {t.node} + Nodes(Far(d, t));
  }

  lemma ChildrenApart(d: bool, y: Tree)
    requires y.Node? && Distinct(y)
    ensures Distinct(Near(d, y)) && Distinct(Far(d, y)) && Nodes(Near(d, y)) !! Nodes(Far(d, y))
    ensures y.node !in Nodes(Near(d, y)) && y.node !in Nodes(Far(d, y))
    ensures Nodes(y) == Nodes(Near(d, y)) + {y.node} + Nodes(Far(d, y))
  {
  }

  /** `s'` differs from `s` at most in the cells of `ns`. */
  predicate Frame(s: Store, s': Store, ns: set<RbNode>) {
    s'.Keys == s.Keys && forall n :: n in s && n !in ns ==> s'[n] == s[n]
  }

  /** The nodes a rotation writes to. */
  function Touched(d: bool, c: Ctx, t: Tree): set<RbNode>
    requires t.Node? && Far(d, t).Node?
  {
    var b := Near(d, Far(d, t));
    {t.node, Far(d, t).node} + (if b.Node? then {b.node} else {}) + (if c.In? then {c.node} else {})
  }

  function Put(cell: Cell, d: bool, x: RbNode?): Cell {
    if d then cell.(left := x) else cell.(right := x)
  }

  /** The pointer writes of a rotation at `x`, whose far child is `y`, below `p` unless `x` is the root. */
  predicate Turned(s: Store, s': Store, nil: RbNode, d: bool, x: RbNode, y: RbNode, b: RbNode, c: Ctx) {
    && x in s && x in s' && y in s && y in s'
    && s'[x] == Put(s[x], !d, b).(parent := y)
    && s'[y] == Put(s[y], d, x).(parent := s[x].parent)
    && (b != nil ==> b in s && b in s' && s'[b] == s[b].(parent := x))
    && (c.In? ==> c.node in s && c.node in s' && s'[c.node] == Put(s[c.node], c.d, y))
  }

  predicate Rotated(s: Store, s': Store, nil: RbNode, d: bool, c: Ctx, t: Tree)
    requires t.Node? && Far(d, t).Node?
  {
    && Turned(s, s', nil, d, t.node, Far(d, t).node, Addr(Near(d, Far(d, t)), nil), c)
    && Frame(s, s', Touched(d, c, t))
  }

  /** The subtrees around a rotation are untouched, but for the root of the one that changes sides. */
  lemma RotateFrames(s: Store, s': Store, d: bool, c: Ctx, t: Tree)
    requires t.Node? && Far(d, t).Node? && Distinct(Plug(c, t)) && s.Keys == Nodes(Plug(c, t))
    requires Frame(s, s', Touched(d, c, t))
    ensures
      var y := Far(d, t);
      && Agree(s, s', Nodes(Near(d, t))) && Agree(s, s', Nodes(Far(d, y)))
      && Agree(s, s', Nodes(Near(d, y)) - (if Near(d, y).Node? then {Near(d, y).node} else {}))
      && Distinct(Near(d, y))
  {
    hide Plug, Distinct, CtxDistinct, Links;
    RotateApart(d, c, t);
    var y := Far(d, t);
    ChildrenApart(d, y);
    assert Near(d, y).Node? ==> Near(d, y).node in Nodes(Near(d, y));
    assert c.In? ==> c.node in CtxNodes(c);
  }

  lemma LinksRotate(s: Store, s': Store, nil: RbNode, d: bool, c: Ctx, t: Tree)
    requires t.Node? && Far(d, t).Node? && nil !in Nodes(Plug(c, t))
    requires Links(s, nil, t, ParentOf(c)) && Distinct(Plug(c, t))
    requires Rotated(s, s', nil, d, c, t) && s.Keys == Nodes(Plug(c, t))
    ensures Links(s', nil, Rotate(d, t), ParentOf(c))
  {
    var x, y := t.node, Far(d, t);
    assert Links(s, nil, y, Is(x));
    var a, b, e := Near(d, t), Near(d, y), Far(d, y);
    RotateFrames(s, s', d, c, t);
    assert b.Node? ==> b.node != nil by {
      RotateApart(d, c, t);
      ChildrenApart(d, y);
    }
    LinksFrame(s, s', nil, a, Is(x));
    LinksReparent(s, s', nil, b, Is(y.node), Is(x));
    LinksFrame(s, s', nil, e, Is(y.node));
    assert Links(s', nil, Build(d, a, x, t.key, t.red, b), Is(y.node));
  }

  lemma CtxRotate(s: Store, s': Store, nil: RbNode, d: bool, c: Ctx, t: Tree)
    requires t.Node? && Far(d, t).Node?
    requires CtxLinks(s, nil, c, t.node) && Distinct(Plug(c, t))
    requires Rotated(s, s', nil, d, c, t) && s.Keys == Nodes(Plug(c, t))
    ensures CtxLinks(s', nil, c, Far(d, t).node)
  {
    RotateApart(d, c, t);
    var y := Far(d, t);
    ChildrenApart(d, y);
    if Near(d, y).Node? {
      assert Near(d, y).node in Nodes(Near(d, y));
    }
    CtxRefill(s, s', nil, c, t.node, y.node);
  }

  lemma LinksRotatePlug(s: Store, s': Store, nil: RbNode, d: bool, c: Ctx, t: Tree)
    requires t.Node? && Far(d, t).Node? && nil !in Nodes(Plug(c, t))
    requires Links(s, nil, Plug(c, t), Any) && Distinct(Plug(c, t))
    requires Rotated(s, s', nil, d, c, t) && s.Keys == Nodes(Plug(c, t))
    ensures Links(s', nil, Plug(c, Rotate(d, t)), Any)
    ensures Distinct(Plug(c, Rotate(d, t))) && Nodes(Plug(c, Rotate(d, t))) == Nodes(Plug(c, t))
  {
    LinksPlug(s, nil, c, t);
    LinksRotate(s, s', nil, d, c, t);
    CtxRotate(s, s', nil, d, c, t);
    LinksPlug(s', nil, c, Rotate(d, t));
    RotatePlugNodes(d, c, t);
  }

  lemma RotatePlugNodes(d: bool, c: Ctx, t: Tree)
    requires t.Node? && Far(d, t).Node? && Distinct(Plug(c, t))
    ensures Distinct(Plug(c, Rotate(d, t))) && Nodes(Plug(c, Rotate(d, t))) == Nodes(Plug(c, t))
  {
    DistinctPlug(c, t);
    NodesPlug(c, t);
    RotateNodes(d, t);
    NodesPlug(c, Rotate(d, t));
    DistinctPlug(c, Rotate(d, t));
  }

  /** Hanging a fresh red node into an empty hole. */
  lemma LinksAttach(s: Store, s': Store, nil: RbNode, c: Ctx, n: RbNode, k: nat)
    requires c.In? && Links(s, nil, Plug(c, Leaf), Any) && Distinct(Plug(c, Leaf))
    requires n !in Nodes(Plug(c, Leaf)) && n in s' && s'[n] == Cell(k, nil, nil, c.node, true)
    requires c.node in s && c.node in s' && s'[c.node] == Put(s[c.node], c.d, n)
    requires Agree(s, s', Nodes(Plug(c, Leaf)) - {c.node})
    ensures Links(s', nil, Plug(c, Node(Leaf, n, k, true, Leaf)), Any)
    ensures Distinct(Plug(c, Node(Leaf, n, k, true, Leaf)))
    ensures Nodes(Plug(c, Node(Leaf, n, k, true, Leaf))) == Nodes(Plug(c, Leaf)) + {n}
  {
    var t := Node(Leaf, n, k, true, Leaf);
    LinksPlug(s, nil, c, Leaf);
    DistinctPlug(c, Leaf);
    NodesPlug(c, Leaf);
    CtxRefill(s, s', nil, c, nil, n);
    LinksPlug(s', nil, c, t);
    assert Nodes(t) == {n};
    DistinctPlug(c, t);
    NodesPlug(c, t);
  }

  /** Taking out a node with at most one child: its parent adopts that child. */
  lemma LinksSplice(s: Store, s': Store, nil: RbNode, c: Ctx, t: Tree, x: Tree)
    requires OnlyChild(t, x) && Links(s, nil, Plug(c, t), Any) && Distinct(Plug(c, t))
    requires c.In? ==> c.node in s && c.node in s' && s'[c.node] == Put(s[c.node], c.d, Addr(x, nil))
    requires x.Node? ==> x.node in s && x.node in s' && s'[x.node] == s[x.node].(parent := s'[x.node].parent)
    requires x.Node? && c.In? ==> s'[x.node].parent == c.node
    requires Agree(s, s', Nodes(Plug(c, t)) - {t.node} - (if c.In? then {c.node} else {}) - (if x.Node? then {x.node} else {}))
    ensures Links(s', nil, Plug(c, x), Any)
    ensures Distinct(Plug(c, x)) && Nodes(Plug(c, x)) == Nodes(Plug(c, t)) - {t.node}
  {
    LinksPlug(s, nil, c, t);
    DistinctPlug(c, t);
    NodesPlug(c, t);
    DistinctPlug(c, x);
    NodesPlug(c, x);
    assert Nodes(t) == Nodes(x) + {t.node};
    CtxRefill(s, s', nil, c, t.node, Addr(x, nil));
    LinksReparent(s, s', nil, x, Is(t.node), ParentOf(c));
    LinksPlug(s', nil, c, x);
  }

  /** Node `t'.node` takes over the place of node `t.node`; the subtrees below may have hung anywhere. */
  lemma LinksReplace(s: Store, s': Store, nil: RbNode, c: Ctx, t: Tree, t': Tree)
    requires t.Node? && t'.Node? && t'.left == t.left && t'.right == t.right
    requires CtxLinks(s, nil, c, t.node) && Links(s, nil, t.left, Any) && Links(s, nil, t.right, Any)
    requires Distinct(Plug(c, t)) && t'.node !in Nodes(Plug(c, t))
    requires CellIs(s', t'.node, t'.key, t'.red, Addr(t.left, nil), Addr(t.right, nil), ParentOf(c))
    requires c.In? ==> c.node in s && c.node in s' && s'[c.node] == Put(s[c.node], c.d, t'.node)
    requires Reparented(s, s', t.left, t'.node) && Reparented(s, s', t.right, t'.node)
    requires Agree(s, s', Nodes(Plug(c, t)) - Around(c, t))
    ensures Links(s', nil, Plug(c, t'), Any)
    ensures Distinct(Plug(c, t')) && Nodes(Plug(c, t')) == Nodes(Plug(c, t)) - {t.node} + {t'.node}
  {
    ReplaceNodes(c, t, t');
    ReplaceFrames(s, s', c, t);
    CtxRefill(s, s', nil, c, t.node, t'.node);
    LinksReparent(s, s', nil, t.left, Any, Is(t'.node));
    LinksReparent(s, s', nil, t.right, Any, Is(t'.node));
    LinksPlug(s', nil, c, t');
  }

  lemma ReplaceFrames(s: Store, s': Store, c: Ctx, t: Tree)
    requires t.Node? && Distinct(Plug(c, t))
    requires Agree(s, s', Nodes(Plug(c, t)) - Around(c, t))
    ensures Agree(s, s', Nodes(t.left) - (if t.left.Node? then {t.left.node} else {}))
    ensures Agree(s, s', Nodes(t.right) - (if t.right.Node? then {t.right.node} else {}))
    ensures Agree(s, s', CtxNodes(c) - (if c.In? then {c.node} else {}))
  {
    DistinctPlug(c, t);
    NodesPlug(c, t);
    assert Nodes(t) == Nodes(t.left) + {t.node} + Nodes(t.right);
    assert t.left.Node? ==> t.left.node in Nodes(t.left);
    assert t.right.Node? ==> t.right.node in Nodes(t.right);
    assert c.In? ==> c.node in CtxNodes(c);
  }

  predicate Reparented(s: Store, s': Store, t: Tree, p: RbNode) {
    t.Node? ==> t.node in s && t.node in s' && s'[t.node] == s[t.node].(parent := p)
  }

  lemma ReplaceNodes(c: Ctx, t: Tree, t': Tree)
    requires t.Node? && t'.Node? && t'.left == t.left && t'.right == t.right
    requires Distinct(Plug(c, t)) && t'.node !in Nodes(Plug(c, t))
    ensures Distinct(Plug(c, t')) && Nodes(Plug(c, t')) == Nodes(Plug(c, t)) - {t.node} + {t'.node}
    ensures Distinct(t) && CtxDistinct(c)
    ensures Nodes(Plug(c, t)) == Nodes(t.left) + {t.node} + Nodes(t.right) + CtxNodes(c)
    ensures {t.node} + Nodes(t.left) + Nodes(t.right) !! CtxNodes(c)
  {
    var m, n := Nodes(t.left), Nodes(t.right);
    DistinctPlug(c, t);
    NodesPlug(c, t);
    assert Nodes(t) == m + {t.node} + n;
    assert Nodes(t') == m + {t'.node} + n;
    ReplaceInSets(m, n, CtxNodes(c), t.node, t'.node);
    DistinctPlug(c, t');
    NodesPlug(c, t');
  }

  lemma ReplaceInSets(a: set<RbNode>, b: set<RbNode>, c: set<RbNode>, n: RbNode, n': RbNode)
    requires n !in a && n !in b && n !in c && n' !in a && n' !in b && n' !in c
    ensures a + {n'} + b + c == a + {n} + b + c - {n} + {n'}
  {
  }

  /** A node, its parent and its children. */
  function Around(c: Ctx, t: Tree): set<RbNode>
    requires t.Node?
  {
    {t.node} + (if c.In? then {c.node} else {})
    + (if t.left.Node? then {t.left.node} else {}) + (if t.right.Node? then {t.right.node} else {})
  }

  /** The tree without the successor `u.node` of the root of `t`. */
  lemma SubstNodes(c: Ctx, t: Tree, sp: Ctx, u: Tree)
    requires Distinct(Plug(c, t)) && t.Node? && u.Node? && u.left.Leaf? && t.right == Plug(sp, u)
    ensures
      var t1 := Node(t.left, t.node, t.key, t.red, Plug(sp, u.right));
      && Distinct(Plug(c, t1)) && Nodes(Plug(c, t)) == Nodes(Plug(c, t1)) + {u.node}
      && u.node !in Nodes(Plug(c, t1))
  {
    var f := In(false, t.node, t.key, t.red, t.left, c);
    PlugAppend(sp, f, u);
    PlugAppend(sp, f, u.right);
    DistinctPlug(Append(sp, f), u);
    NodesPlug(Append(sp, f), u);
    DistinctPlug(Append(sp, f), u.right);
    NodesPlug(Append(sp, f), u.right);
    assert Nodes(u) == {u.node} + Nodes(u.right);
  }

  function SubstParent(t: Tree, sp: Ctx): RbNode
    requires t.Node?
  {
    if sp.In? then sp.node else t.node
  }

  /** The parent of the successor adopts the successor's right child. */
  predicate SubstSpliced(s: Store, s': Store, nil: RbNode, c: Ctx, t: Tree, sp: Ctx, u: Tree)
    requires t.Node? && u.Node?
  {
    var p := SubstParent(t, sp);
    && p in s && p in s' && s'[p] == Put(s[p], sp.In?, Addr(u.right, nil))
    && Reparented(s, s', u.right, if sp.In? then sp.node else u.node)
    && Agree(s, s', Nodes(Plug(c, t)) - {p} - (if u.right.Node? then {u.right.node} else {}))
  }

  lemma LinksSubstSplice(s: Store, s': Store, nil: RbNode, c: Ctx, t: Tree, sp: Ctx, u: Tree)
    requires Links(s, nil, Plug(c, t), Any) && Distinct(Plug(c, t)) && t.Node?
    requires u.Node? && u.left.Leaf? && LeftSpine(sp) && t.right == Plug(sp, u)
    requires SubstSpliced(s, s', nil, c, t, sp, u)
    ensures
      var r := Plug(sp, u.right);
      && CtxLinks(s', nil, c, t.node) && Links(s', nil, t.left, Any) && Links(s', nil, r, Any)
      && CellIs(s', t.node, t.key, t.red, Addr(t.left, nil), Addr(r, nil), ParentOf(c))
  {
    LinksPlug(s, nil, c, t);
    SubstApart(c, t, sp, u);
    LinksFrame(s, s', nil, t.left, Is(t.node));
    LinksAny(s', nil, t.left, Is(t.node));
    LinksAny(s, nil, t.right, Is(t.node));
    CtxLinksFrame(s, s', nil, c, t.node);
    if sp.In? {
      LinksSplice(s, s', nil, sp, u, u.right);
      AddrPlug(sp, u, u.right, nil);
    } else {
      LinksReparent(s, s', nil, u.right, Is(u.node), Any);
    }
  }

  lemma SubstApart(c: Ctx, t: Tree, sp: Ctx, u: Tree)
    requires Distinct(Plug(c, t)) && t.Node? && u.Node? && t.right == Plug(sp, u)
    ensures Distinct(t.right) && Distinct(u) && Nodes(Plug(c, t)) == Nodes(t.left) + {t.node} + Nodes(t.right) + CtxNodes(c)
    ensures t.node !in CtxNodes(c) && t.node !in Nodes(t.left) && t.node !in Nodes(t.right)
    ensures Nodes(t.left) !! Nodes(t.right) && Nodes(t.left) !! CtxNodes(c) && Nodes(t.right) !! CtxNodes(c)
    ensures Nodes(t.right) == Nodes(u) + CtxNodes(sp) && Nodes(u) !! CtxNodes(sp)
    ensures sp.In? ==> sp.node in CtxNodes(sp)
    ensures u.right.Node? ==> u.right.node in Nodes(u) && u.right.node != u.node
  {
    DistinctPlug(c, t);
    NodesPlug(c, t);
    NodesPlug(sp, u);
    DistinctPlug(sp, u);
    assert Nodes(t) == Nodes(t.left) + {t.node} + Nodes(t.right);
    assert u.right.Node? ==> u.right.node in Nodes(u.right);
  }

  lemma LinksAny(s: Store, nil: RbNode, t: Tree, p: Parent)
    requires Links(s, nil, t, p)
    ensures Links(s, nil, t, Any)
  {
  }

  lemma {:induction false} AddrPlug(c: Ctx, t: Tree, t': Tree, nil: RbNode)
    requires c.In? || Addr(t, nil) == Addr(t', nil)
    ensures Addr(Plug(c, t), nil) == Addr(Plug(c, t'), nil)
    ensures c.In? ==> Plug(c, t).Node? && Plug(c, t').Node?
    decreases c
  {
    if c.In? {
      AddrPlug(c.up, ParentTree(c, t), ParentTree(c, t'), nil);
    }
  }

  lemma OrphanApart(c: Ctx, t: Tree, sp: Ctx, u: Tree, nil: RbNode)
    requires Distinct(Plug(c, t)) && t.Node? && u.Node? && t.right == Plug(sp, u) && nil !in Nodes(Plug(c, t))
    ensures
      var p, temp := SubstParent(t, sp), Addr(u.right, nil);
      && p in Nodes(Plug(c, t)) && u.node in Nodes(Plug(c, t)) && t.node in Nodes(Plug(c, t))
      && (if u.right.Node? then temp in Nodes(Plug(c, t)) else temp == nil)
      && p != u.node && temp != p && temp != u.node && temp != t.node && (p == t.node <==> sp.Top?) && t.node != u.node
      && (t.left.Node? ==> t.left.node in Nodes(Plug(c, t)) && temp != t.left.node)
  {
    SubstApart(c, t, sp, u);
    assert u.node in Nodes(u);
    assert t.left.Node? ==> t.left.node in Nodes(t.left);
  }

  lemma PlaceApart(c: Ctx, t: Tree)
    requires t.Node? && Distinct(Plug(c, t))
    ensures Around(c, t) <= Nodes(Plug(c, t))
    ensures c.In? ==> c.node != t.node
    ensures t.left.Node? ==> t.left.node != t.node && (c.In? ==> t.left.node != c.node)
    ensures t.right.Node? ==> t.right.node != t.node && (c.In? ==> t.right.node != c.node)
    ensures t.left.Node? && t.right.Node? ==> t.left.node != t.right.node
    ensures c.In? && c.sib.Node? ==> c.sib.node != t.node
  {
    DistinctPlug(c, t);
    NodesPlug(c, t);
    assert t.left.Node? ==> t.left.node in Nodes(t.left);
    assert t.right.Node? ==> t.right.node in Nodes(t.right);
  }

  /** Unless the successor is the right child itself, its orphan does not become the right child. */
  lemma OrphanBelow(c: Ctx, t: Tree, sp: Ctx, u: Tree, nil: RbNode)
    requires Distinct(Plug(c, t)) && t.Node? && u.Node? && t.right == Plug(sp, u) && nil !in Nodes(Plug(c, t))
    ensures sp.In? ==> Plug(sp, u.right).Node? && Addr(u.right, nil) != Plug(sp, u.right).node
  {
    SubstApart(c, t, sp, u);
    if sp.In? {
      RootOutside(sp, u.right);
    }
  }

  /** The place of the successor, seen from the top. */
  lemma OrphanPlace(c: Ctx, t: Tree, sp: Ctx, u: Tree) returns (a: Ctx)
    requires t.Node? && t.right == Plug(sp, u) && LeftSpine(sp)
    ensures a == Append(sp, In(false, t.node, t.key, t.red, t.left, c)) && Plug(a, u) == Plug(c, t)
    ensures a.In? && a.node == SubstParent(t, sp) && a.d == sp.In?
  {
    a := Append(sp, In(false, t.node, t.key, t.red, t.left, c));
    PlugAppend(sp, In(false, t.node, t.key, t.red, t.left, c), u);
    FocusRight(c, t);
  }
}
