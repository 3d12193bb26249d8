/**
  The red-black tree of code/common/rbtree.c on heap nodes.  `shape` is the tree
  the pointers spell out; every method keeps it in step with the fields it writes.
*/
module RbTrees {
  import opened RbNodes
  import opened RbShape
  import opened RbStore

  ghost function Snap(ns: set<RbNode>): Store
    reads ns
  {
    map n | n in ns :: CellOf(n)
  }

  function CellOf(n: RbNode): Cell
    reads n
  {
    Cell(n.key, n.left, n.right, n.parent, n.red)
  }

  class RbTree {
    var root: RbNode
    var sentinel: RbNode
    ghost var shape: Tree

    /** The pointers spell out `shape`; its colours and its order are arbitrary. */
    ghost predicate Linked()
      reads this, sentinel, Nodes(shape)
    {
      && Distinct(shape) && sentinel !in Nodes(shape) && !sentinel.red
      && root == Addr(shape, sentinel)
      && Links(Snap(Nodes(shape)), sentinel, shape, Any)
    }

    ghost predicate Valid()
      reads this, sentinel, Nodes(shape)
    {
      Linked() && RedBlack(shape) && Sorted(Order(shape))
    }

    constructor Init(sentinel: RbNode)
      modifies sentinel`red
      ensures Valid() && shape == Leaf && this.sentinel == sentinel
    {
      root := sentinel;
      this.sentinel := sentinel;
      shape := Leaf;
      new;
      sentinel.red := false;
    }

    /** What the fields of the node at a known place hold. */
    lemma NodeAt(c: Ctx, t: Tree)
      requires Linked() && shape == Plug(c, t) && t.Node?
      ensures t.node in Nodes(shape) && t.node != sentinel
      ensures t.node.key == t.key && t.node.red == t.red
      ensures t.node.left == Addr(t.left, sentinel) && t.node.right == Addr(t.right, sentinel)
      ensures (t.left.Node? ==> t.left.node in Nodes(shape)) && (t.right.Node? ==> t.right.node in Nodes(shape))
      ensures (t.node.left == sentinel <==> t.left.Leaf?) && (t.node.right == sentinel <==> t.right.Leaf?)
      ensures c.In? ==> t.node.parent == c.node
      ensures c.Top? <==> root == t.node
    {
      assert t.left.Node? ==> t.left.node in Nodes(t);
      assert t.right.Node? ==> t.right.node in Nodes(t);
      LinksPlug(Snap(Nodes(shape)), sentinel, c, t);
      NodesPlug(c, t);
      DistinctPlug(c, t);
      if c.In? {
        RootOutside(c, t);
      }
    }

    /** What the fields of the frame above a known place hold. */
    lemma FrameAt(c: Ctx, t: Tree)
      requires Linked() && shape == Plug(c, t) && c.In?
      ensures c.node in Nodes(shape) && c.node != sentinel
      ensures c.node.key == c.key && c.node.red == c.red
      ensures c.node.left == (if c.d then Addr(t, sentinel) else Addr(c.sib, sentinel))
      ensures c.node.right == (if c.d then Addr(c.sib, sentinel) else Addr(t, sentinel))
      ensures c.up.In? ==> c.node.parent == c.up.node
      ensures c.up.Top? <==> root == c.node
      ensures t.Node? ==> t.node != Addr(c.sib, sentinel) && t.node.parent == c.node
      ensures c.sib.Node? ==> c.sib.node in Nodes(shape) && c.sib.node != Addr(t, sentinel) && c.sib.node.parent == c.node
    {
      var b := Build(c.d, t, c.node, c.key, c.red, c.sib);
      NodeAt(c.up, b);
      LinksPlug(Snap(Nodes(shape)), sentinel, c, t);
      DistinctPlug(c, t);
      NodesPlug(c, t);
    }

    /** rbtree_set_red and rbtree_set_black; the sentinel is only ever painted black. */
    method SetColor(node: RbNode, red: bool, ghost c: Ctx, ghost t: Tree)
      requires Linked() && node == Addr(t, sentinel) && shape == Plug(c, t) && (t.Leaf? ==> !red)
      modifies node`red, this`shape
      ensures Linked() && shape == Plug(c, Paint(t, red))
      ensures Nodes(shape) == old(Nodes(shape))
    {
      ghost var ns, s := Nodes(shape), Snap(Nodes(shape));
      NodesPlug(c, t);
      DistinctPlug(c, t);
      node.red := red;
      NodesPlug(c, Paint(t, red));
      DistinctPlug(c, Paint(t, red));
      if t.Leaf? {
        assert Agree(s, Snap(ns), ns);
        LinksFrame(s, Snap(ns), sentinel, shape, Any);
      } else {
        LinksPaint(s, Snap(ns), sentinel, c, t, red);
        PaintRoot(c, t, red);
      }
      Reshape(ns, Plug(c, Paint(t, red)));
    }

    static lemma {:induction false} PaintRoot(c: Ctx, t: Tree, red: bool)
      requires t.Node?
      ensures Plug(c, t).Node? && Plug(c, Paint(t, red)).Node? && Plug(c, t).node == Plug(c, Paint(t, red)).node
    {
      SameRoot(c, t, Paint(t, red));
    }

    static lemma {:induction false} SameRoot(c: Ctx, t: Tree, t': Tree)
      requires c.In? || (t.Node? && t'.Node? && t.node == t'.node)
      ensures Plug(c, t).Node? && Plug(c, t').Node? && Plug(c, t).node == Plug(c, t').node
      decreases c
    {
      if c.In? {
        SameRoot(c.up, Build(c.d, t, c.node, c.key, c.red, c.sib), Build(c.d, t', c.node, c.key, c.red, c.sib));
      }
    }

    /** Record that the pointers, as they stand, spell out `t`. */
    ghost method Reshape(ns: set<RbNode>, t: Tree)
      requires Nodes(t) == ns && Distinct(t) && sentinel !in ns && !sentinel.red && root == Addr(t, sentinel)
      requires Links(Snap(ns), sentinel, t, Any)
      modifies this`shape
      ensures Linked() && shape == t
    {
      shape := t;
    }

    /** Everything the fields around `t` hold, and which of the nodes there differ. */
    lemma RotateFacts(d: bool, c: Ctx, t: Tree)
      requires Linked() && shape == Plug(c, t) && t.Node? && Far(d, t).Node?
      ensures
        var x, y := t.node, Far(d, t);
        var b := Near(d, y);
        && Touched(d, c, t) <= Nodes(shape) && sentinel !in Touched(d, c, t)
        && x != y.node && (b.Node? ==> b.node != x && b.node != y.node)
        && (c.In? ==> c.node != x && c.node != y.node && (b.Node? ==> b.node != c.node))
    {
      RotateApart(d, c, t);
      ChildrenApart(d, Far(d, t));
    }

    lemma RotateCells(d: bool, c: Ctx, t: Tree)
      requires Linked() && shape == Plug(c, t) && t.Node? && Far(d, t).Node?
      ensures
        var x, y := t.node, Far(d, t);
        && x.key == t.key && x.red == t.red && y.node.key == y.key && y.node.red == y.red
        && (if d then x.left else x.right) == Addr(Near(d, t), sentinel)
        && (if d then x.right else x.left) == y.node
        && (if d then y.node.left else y.node.right) == Addr(Near(d, y), sentinel)
        && (if d then y.node.right else y.node.left) == Addr(Far(d, y), sentinel)
        && (c.In? ==> x.parent == c.node && (x == c.node.left <==> c.d))
        && (c.Top? <==> x == root)
    {
      NodeAt(c, t);
      NodeAt(In(!d, t.node, t.key, t.red, Near(d, t), c), Far(d, t));
      if c.In? {
        FrameAt(c, t);
      }
    }

    /** The pointer writes of the left rotation, on nodes of which nothing more is known. */
    method TurnLeft(node: RbNode)
      requires node.right != null && node.right.left != null && node.right != node
      requires sentinel !in {node, node.right}
      requires node.right.left != node && node.right.left != node.right
      requires node != root ==> node.parent != null && node.parent !in {node, node.right, node.right.left, sentinel}
      modifies this`root, node`left, node`right, node`parent, node.right`left, node.right`right, node.right`parent
      modifies (if node.right.left == sentinel then {} else {node.right.left})`parent
      modifies (if node == root then {} else {node.parent})`left, (if node == root then {} else {node.parent})`right
      ensures CellOf(node) == old(CellOf(node)).(right := old(node.right.left), parent := old(node.right))
      ensures CellOf(old(node.right)) == old(CellOf(node.right)).(left := node, parent := old(node.parent))
      ensures old(node.right.left) != sentinel ==> CellOf(old(node.right.left)) == old(CellOf(node.right.left)).(parent := node)
      ensures old(node != root) ==>
        CellOf(old(node.parent)) == Put(old(CellOf(node.parent)), old(node == node.parent.left), old(node.right))
      ensures sentinel.red == old(sentinel.red)
      ensures root == if old(node == root) then old(node.right) else old(root)
    {
      var temp := node.right;
      node.right := temp.left;
      if temp.left != sentinel {
        temp.left.parent := node;
      }

      temp.left := node;
      temp.parent := node.parent;

      if node == root {
        root := temp;
      } else if node == node.parent.left {
        node.parent.left := temp;
      } else {
        node.parent.right := temp;
      }

      node.parent := temp;
    }

    /** The pointer writes of the right rotation, on nodes of which nothing more is known. */
    method TurnRight(node: RbNode)
      requires node.left != null && node.left.right != null && node.left != node
      requires sentinel !in {node, node.left}
      requires node.left.right != node && node.left.right != node.left
      requires node != root ==> node.parent != null && node.parent !in {node, node.left, node.left.right, sentinel}
      modifies this`root, node`left, node`right, node`parent, node.left`left, node.left`right, node.left`parent
      modifies (if node.left.right == sentinel then {} else {node.left.right})`parent
      modifies (if node == root then {} else {node.parent})`left, (if node == root then {} else {node.parent})`right
      ensures CellOf(node) == old(CellOf(node)).(left := old(node.left.right), parent := old(node.left))
      ensures CellOf(old(node.left)) == old(CellOf(node.left)).(right := node, parent := old(node.parent))
      ensures old(node.left.right) != sentinel ==> CellOf(old(node.left.right)) == old(CellOf(node.left.right)).(parent := node)
      ensures old(node != root) ==>
        CellOf(old(node.parent)) == Put(old(CellOf(node.parent)), old(node == node.parent.left), old(node.left))
      ensures sentinel.red == old(sentinel.red)
      ensures root == if old(node == root) then old(node.left) else old(root)
    {
      var temp := node.left;
      node.left := temp.right;
      if temp.right != sentinel {
        temp.right.parent := node;
      }

      temp.right := node;
      temp.parent := node.parent;

      if node == root {
        root := temp;
      } else if node == node.parent.left {
        node.parent.left := temp;
      } else {
        node.parent.right := temp;
      }

      node.parent := temp;
    }

    static lemma RotateRoot(d: bool, c: Ctx, t: Tree, nil: RbNode)
      requires t.Node? && Far(d, t).Node?
      ensures Addr(Plug(c, Rotate(d, t)), nil) == if c.Top? then Far(d, t).node else Addr(Plug(c, t), nil)
    {
      if c.In? {
        SameRoot(c, t, Rotate(d, t));
      }
    }

    /** The pointers as they stand after a rotation spell out the rotated tree. */
    ghost method Settle(d: bool, c: Ctx, t: Tree, ns: set<RbNode>, s: Store)
      requires t.Node? && Far(d, t).Node? && Distinct(Plug(c, t)) && ns == Nodes(Plug(c, t)) == s.Keys
      requires sentinel !in ns && !sentinel.red && Links(s, sentinel, Plug(c, t), Any)
      requires Rotated(s, Snap(ns), sentinel, d, c, t)
      requires root == if c.Top? then Far(d, t).node else Addr(Plug(c, t), sentinel)
      modifies this`shape
      ensures Linked() && shape == Plug(c, Rotate(d, t)) && Nodes(shape) == ns
    {
      hide Rotated, Links, Distinct, Plug, Rotate, Nodes;
      LinksRotatePlug(s, Snap(ns), sentinel, d, c, t);
      RotateRoot(d, c, t, sentinel);
      Reshape(ns, Plug(c, Rotate(d, t)));
    }

    method RotateLeft(node: RbNode, ghost c: Ctx, ghost t: Tree)
      requires Linked() && t.Node? && t.right.Node? && t.node == node && shape == Plug(c, t)
      modifies this`root, this`shape, Nodes(shape)`left, Nodes(shape)`right, Nodes(shape)`parent, Nodes(shape)`red
      ensures Linked() && shape == Plug(c, Rotate(true, t))
      ensures Nodes(shape) == old(Nodes(shape))
    {
      hide Links, CtxLinks, Plug, Distinct;
      ghost var ns, s := Nodes(shape), Snap(Nodes(shape));
      RotateFacts(true, c, t);
      RotateCells(true, c, t);
      TurnLeft(node);
      assert Frame(s, Snap(ns), Touched(true, c, t));
      Settle(true, c, t, ns, s);
    }

    method RotateRight(node: RbNode, ghost c: Ctx, ghost t: Tree)
      requires Linked() && t.Node? && t.left.Node? && t.node == node && shape == Plug(c, t)
      modifies this`root, this`shape, Nodes(shape)`left, Nodes(shape)`right, Nodes(shape)`parent, Nodes(shape)`red
      ensures Linked() && shape == Plug(c, Rotate(false, t))
      ensures Nodes(shape) == old(Nodes(shape))
    {
      hide Links, CtxLinks, Plug, Distinct;
      ghost var ns, s := Nodes(shape), Snap(Nodes(shape));
      RotateFacts(false, c, t);
      RotateCells(false, c, t);
      TurnRight(node);
      assert Frame(s, Snap(ns), Touched(false, c, t));
      Settle(false, c, t, ns, s);
    }

    // ---------- Insertion ----------

    method InsertCore(node: RbNode) returns (ghost c: Ctx)
      requires Valid() && shape.Node? && node !in Nodes(shape) && node != sentinel
      modifies this`shape, Nodes(shape)`left, Nodes(shape)`right, Nodes(shape)`parent, Nodes(shape)`red
      modifies node`left, node`right, node`parent, node`red
      ensures Linked() && c.In? && old(shape) == Plug(c, Leaf)
      ensures node.key == old(node.key) && shape == Plug(c, Node(Leaf, node, node.key, true, Leaf))
      ensures forall i :: 0 <= i < |Before(c)| ==> Before(c)[i].key <= node.key
      ensures forall i :: 0 <= i < |After(c)| ==> node.key < After(c)[i].key
    {
      hide RbTree.Linked, Order, RedBlack, Sorted;
      NodeAt(Top, shape);
      var cur := root;
      c := Top;
      ghost var t := shape;
      while true
        invariant Linked() && node.key == old(node.key)
        invariant shape == old(shape) == Plug(c, t) && t.Node? && t.node == cur
        invariant forall i :: 0 <= i < |Before(c)| ==> Before(c)[i].key <= node.key
        invariant forall i :: 0 <= i < |After(c)| ==> node.key < After(c)[i].key
        decreases t
      {
        NodeAt(c, t);
        Descend(c, t, node.key);
        var left := node.key < cur.key;
        var it := if left then cur.left else cur.right;
        c := In(left, t.node, t.key, t.red, Far(left, t), c);
        t := Near(left, t);
        if it == sentinel {
          DistinctPlug(c, t);
          NodesPlug(c, t);
          assert t.Leaf?;
          Attach(node, cur, left, c);
          return;
        }
        cur := it;
      }
    }

    /** Going left of a larger key, or right of any other, keeps the hole between smaller-or-equal and larger keys. */
    static lemma Descend(c: Ctx, t: Tree, key: nat)
      requires t.Node? && Sorted(Order(Plug(c, t)))
      requires forall i :: 0 <= i < |Before(c)| ==> Before(c)[i].key <= key
      requires forall i :: 0 <= i < |After(c)| ==> key < After(c)[i].key
      ensures
        var left := key < t.key;
        var c' := In(left, t.node, t.key, t.red, Far(left, t), c);
        && (forall i :: 0 <= i < |Before(c')| ==> Before(c')[i].key <= key)
        && (forall i :: 0 <= i < |After(c')| ==> key < After(c')[i].key)
    {
      hide Plug, Order, Sorted;
      OrderSplit(c, t);
      var e, l, r := Entry(t.key, t.node), Order(t.left), Order(t.right);
      SortedAround(Before(c), l, e, r, After(c));
      if key < t.key {
        assert After(In(true, t.node, t.key, t.red, t.right, c)) == [e] + r + After(c);
      } else {
        assert Before(In(false, t.node, t.key, t.red, t.left, c)) == Before(c) + l + [e];
      }
    }

    static lemma SortedAround(a: seq<Entry>, l: seq<Entry>, e: Entry, r: seq<Entry>, d: seq<Entry>)
      requires Sorted((a + l) + [e] + (r + d))
      ensures forall i :: 0 <= i < |l| ==> l[i].key <= e.key
      ensures forall i :: 0 <= i < |r| ==> e.key <= r[i].key
    {
      var s, m := (a + l) + [e] + (r + d), |a| + |l|;
      assert s[m] == e;
      forall i | 0 <= i < |l|
        ensures l[i].key <= e.key
      {
        assert s[|a| + i] == l[i];
      }
      forall i | 0 <= i < |r|
        ensures e.key <= r[i].key
      {
        assert s[m + 1 + i] == r[i];
      }
    }

    method Attach(node: RbNode, cur: RbNode, left: bool, ghost c: Ctx)
      requires Linked() && shape == Plug(c, Leaf) && c.In? && c.node == cur && c.d == left
      requires node !in Nodes(shape) && node != sentinel
      modifies this`shape, node`left, node`right, node`parent, node`red, cur`left, cur`right
      ensures Linked() && node.key == old(node.key) && shape == Plug(c, Node(Leaf, node, node.key, true, Leaf))
    {
      hide Links, CtxLinks, Plug, Distinct, Build;
      ghost var ns, s := Nodes(shape), Snap(Nodes(shape));
      FrameAt(c, Leaf);
      node.left := sentinel;
      node.right := sentinel;
      node.parent := cur;
      node.red := true;
      if left {
        cur.left := node;
      } else {
        cur.right := node;
      }
      ghost var s' := Snap(ns + {node});
      assert Agree(s, s', ns - {cur});
      LinksAttach(s, s', sentinel, c, node, node.key);
      SameRoot(c, Leaf, Node(Leaf, node, node.key, true, Leaf));
      Reshape(ns + {node}, Plug(c, Node(Leaf, node, node.key, true, Leaf)));
    }

    // ---------- Insertion fix-up ----------

    /** The colour test on a child address agrees with the shape, the sentinel counting as black. */
    lemma UncleColour(c: Ctx, t: Tree)
      requires Linked() && shape == Plug(c, t) && c.In?
      ensures Addr(c.sib, sentinel).red == !Black(c.sib)
      ensures Addr(c.sib, sentinel) in Nodes(shape) + {sentinel}
    {
      if c.sib.Node? {
        NodeAt(In(!c.d, c.node, c.key, c.red, t, c.up), c.sib);
      }
    }

    /** One iteration of the insertion fix-up below a left child. */
    method InsertFixLeft(node: RbNode, ghost c: Ctx, ghost t: Tree) returns (node': RbNode, ghost c': Ctx, ghost t': Tree)
      requires Linked() && shape == Plug(c, t) && t.Node? && t.node == node
      requires Growing(c, t) && c.In? && c.red && c.up.d
      modifies this`root, this`shape, Nodes(shape)`left, Nodes(shape)`right, Nodes(shape)`parent, Nodes(shape)`red
      ensures Linked() && shape == Plug(c', t') && Growing(c', t') && t'.node == node' && Depth(c') < Depth(c)
      ensures Nodes(shape) == old(Nodes(shape)) && Order(shape) == old(Order(shape))
    {
      hide RbTree.Linked, Order, Nodes;
      ghost var p := ParentTree(c, t);
      FrameAt(c, t);
      FrameAt(c.up, p);
      UncleColour(c.up, p);
      var uncle := node.parent.parent.right;
      if uncle.red {
        InsertRecolour(c, t);
        SetColor(node.parent, false, c.up, p);
        SetColor(uncle, false, In(false, c.up.node, c.up.key, false, Paint(p, false), c.up.up), c.up.sib);
        t' := ParentTree(c.up.(sib := Paint(c.up.sib, false)), Paint(p, false));
        SetColor(node.parent.parent, true, c.up.up, t');
        node', c', t' := node.parent.parent, c.up.up, Paint(t', true);
      } else {
        node', c', t' := node, c, t;
        if node == node.parent.right {
          node' := node.parent;
          InsertRotateInner(c, t);
          RotateLeft(node', c.up, p);
          c' := In(true, t.node, t.key, true, Far(true, t), c.up);
          t' := Build(true, c.sib, c.node, c.key, true, Near(true, t));
        }
        c' := InsertFinishLeft(node', c', t');
      }
    }

    /** Black uncle and outer child: recolour, and rotate at the grandparent. */
    method InsertFinishLeft(node: RbNode, ghost c: Ctx, ghost t: Tree) returns (ghost c': Ctx)
      requires Linked() && shape == Plug(c, t) && t.Node? && t.node == node
      requires Growing(c, t) && c.In? && c.red && c.d && c.up.d && Black(c.up.sib)
      modifies this`root, this`shape, Nodes(shape)`left, Nodes(shape)`right, Nodes(shape)`parent, Nodes(shape)`red
      ensures Linked() && shape == Plug(c', t) && Growing(c', t) && Depth(c') < Depth(c)
      ensures Nodes(shape) == old(Nodes(shape)) && Order(shape) == old(Order(shape))
    {
      ghost var p := ParentTree(c, t);
      FrameAt(c, t);
      FrameAt(c.up, p);
      InsertRotateOuter(c, t);
      SetColor(node.parent, false, c.up, p);
      ghost var g := ParentTree(c.up, Paint(p, false));
      SetColor(node.parent.parent, true, c.up.up, g);
      RotateRight(node.parent.parent, c.up.up, Paint(g, true));
      c' := In(c.d, c.node, c.key, false, Build(c.d, c.sib, c.up.node, c.up.key, true, c.up.sib), c.up.up);
    }

    /** One iteration of the insertion fix-up below a right child. */
    method InsertFixRight(node: RbNode, ghost c: Ctx, ghost t: Tree) returns (node': RbNode, ghost c': Ctx, ghost t': Tree)
      requires Linked() && shape == Plug(c, t) && t.Node? && t.node == node
      requires Growing(c, t) && c.In? && c.red && !c.up.d
      modifies this`root, this`shape, Nodes(shape)`left, Nodes(shape)`right, Nodes(shape)`parent, Nodes(shape)`red
      ensures Linked() && shape == Plug(c', t') && Growing(c', t') && t'.node == node' && Depth(c') < Depth(c)
      ensures Nodes(shape) == old(Nodes(shape)) && Order(shape) == old(Order(shape))
    {
      hide RbTree.Linked, Order, Nodes;
      ghost var p := ParentTree(c, t);
      FrameAt(c, t);
      FrameAt(c.up, p);
      UncleColour(c.up, p);
      var uncle := node.parent.parent.left;
      if uncle.red {
        InsertRecolour(c, t);
        SetColor(node.parent, false, c.up, p);
        SetColor(uncle, false, In(true, c.up.node, c.up.key, false, Paint(p, false), c.up.up), c.up.sib);
        t' := ParentTree(c.up.(sib := Paint(c.up.sib, false)), Paint(p, false));
        SetColor(node.parent.parent, true, c.up.up, t');
        node', c', t' := node.parent.parent, c.up.up, Paint(t', true);
      } else {
        node', c', t' := node, c, t;
        if node == node.parent.left {
          node' := node.parent;
          InsertRotateInner(c, t);
          RotateRight(node', c.up, p);
          c' := In(false, t.node, t.key, true, Far(false, t), c.up);
          t' := Build(false, c.sib, c.node, c.key, true, Near(false, t));
        }
        c' := InsertFinishRight(node', c', t');
      }
    }

    /** Black uncle and outer child: recolour, and rotate at the grandparent. */
    method InsertFinishRight(node: RbNode, ghost c: Ctx, ghost t: Tree) returns (ghost c': Ctx)
      requires Linked() && shape == Plug(c, t) && t.Node? && t.node == node
      requires Growing(c, t) && c.In? && c.red && !c.d && !c.up.d && Black(c.up.sib)
      modifies this`root, this`shape, Nodes(shape)`left, Nodes(shape)`right, Nodes(shape)`parent, Nodes(shape)`red
      ensures Linked() && shape == Plug(c', t) && Growing(c', t) && Depth(c') < Depth(c)
      ensures Nodes(shape) == old(Nodes(shape)) && Order(shape) == old(Order(shape))
    {
      ghost var p := ParentTree(c, t);
      FrameAt(c, t);
      FrameAt(c.up, p);
      InsertRotateOuter(c, t);
      SetColor(node.parent, false, c.up, p);
      ghost var g := ParentTree(c.up, Paint(p, false));
      SetColor(node.parent.parent, true, c.up.up, g);
      RotateLeft(node.parent.parent, c.up.up, Paint(g, true));
      c' := In(c.d, c.node, c.key, false, Build(c.d, c.sib, c.up.node, c.up.key, true, c.up.sib), c.up.up);
    }

    /** rbtree_insert: the new node lands behind every node with a key less than or equal to its own. */
    method Insert(node: RbNode)
      requires Valid() && node !in Nodes(shape) && node != sentinel
      modifies this`root, this`shape, Nodes(shape)`left, Nodes(shape)`right, Nodes(shape)`parent, Nodes(shape)`red
      modifies node`left, node`right, node`parent, node`red
      ensures Valid() && Nodes(shape) == old(Nodes(shape)) + {node}
      ensures node.key == old(node.key)
      ensures Order(shape) == InsertEntry(old(Order(shape)), Entry(node.key, node))
    {
      if root == sentinel {
        node.left := sentinel;
        node.right := sentinel;
        node.parent := null;
        node.red := false;
        root := node;
        Reshape({node}, Node(Leaf, node, node.key, false, Leaf));
        return;
      }

      ghost var c := InsertCore(node);
      ghost var t := Node(Leaf, node, node.key, true, Leaf);
      InsertedOrder(c, node, node.key);
      InsertFixup(node, c, t);
    }

    static lemma InsertedOrder(c: Ctx, node: RbNode, key: nat)
      requires RedBlack(Plug(c, Leaf)) && Sorted(Order(Plug(c, Leaf)))
      requires forall i :: 0 <= i < |Before(c)| ==> Before(c)[i].key <= key
      requires forall i :: 0 <= i < |After(c)| ==> key < After(c)[i].key
      ensures
        var t := Node(Leaf, node, key, true, Leaf);
        && Growing(c, t) && Nodes(Plug(c, t)) == Nodes(Plug(c, Leaf)) + {node}
        && Order(Plug(c, t)) == InsertEntry(Order(Plug(c, Leaf)), Entry(key, node)) && Sorted(Order(Plug(c, t)))
    {
      hide Plug, Before, After, Sorted, Growing, Order, InsertEntry, RedBlack, Nodes;
      InsertedGrowing(c, node, key);
      LeafOrders(node, key);
      OrderPlug(c, Node(Leaf, node, key, true, Leaf));
      OrderPlug(c, Leaf);
      assert Before(c) + [] + After(c) == Before(c) + After(c);
      InsertEntryAt(Before(c), After(c), Entry(key, node));
      InsertSorted(Before(c), After(c), Entry(key, node));
    }

    static lemma LeafOrders(node: RbNode, key: nat)
      ensures Order(Leaf) == [] && Order(Node(Leaf, node, key, true, Leaf)) == [Entry(key, node)]
    {
    }

    static lemma InsertedGrowing(c: Ctx, node: RbNode, key: nat)
      requires RedBlack(Plug(c, Leaf))
      ensures
        var t := Node(Leaf, node, key, true, Leaf);
        Growing(c, t) && Nodes(Plug(c, t)) == Nodes(Plug(c, Leaf)) + {node}
    {
      RbPlug(c, Leaf);
      NodesPlug(c, Node(Leaf, node, key, true, Leaf));
      NodesPlug(c, Leaf);
    }

    method InsertFixup(start: RbNode, ghost c0: Ctx, ghost t0: Tree)
      requires Linked() && shape == Plug(c0, t0) && t0.Node? && t0.node == start
      requires Growing(c0, t0) && Sorted(Order(shape))
      modifies this`root, this`shape, Nodes(shape)`left, Nodes(shape)`right, Nodes(shape)`parent, Nodes(shape)`red
      ensures Valid() && Nodes(shape) == old(Nodes(shape)) && Order(shape) == old(Order(shape))
    {
      var node := start;
      ghost var c, t := c0, t0;
      NodeAt(c, t);
      if c.In? {
        FrameAt(c, t);
      }
      while node != root && node.parent.red
        invariant Linked() && shape == Plug(c, t) && Growing(c, t) && t.node == node
        invariant c.Top? <==> node == root
        invariant c.In? ==> node.parent == c.node && c.node.red == c.red
        invariant Nodes(shape) == old(Nodes(shape)) && Order(shape) == old(Order(shape))
        decreases Depth(c)
      {
        FrameAt(c, t);
        FrameAt(c.up, ParentTree(c, t));
        if node.parent == node.parent.parent.left {
          node, c, t := InsertFixLeft(node, c, t);
        } else {
          node, c, t := InsertFixRight(node, c, t);
        }
        NodeAt(c, t);
        if c.In? {
          FrameAt(c, t);
        }
      }
      GrowingDone(c, t);
      SameOrder(Top, shape, Paint(shape, false));
      SetColor(root, false, Top, shape);
    }

    // ---------- Traversal ----------

    /** rbtree_min: the leftmost node of a subtree. */
    method Min(node: RbNode, ghost c: Ctx, ghost t: Tree) returns (m: RbNode, ghost sp: Ctx, ghost u: Tree)
      requires Linked() && shape == Plug(c, t) && t.Node? && t.node == node
      ensures u.Node? && u.node == m && u.left.Leaf? && LeftSpine(sp) && t == Plug(sp, u)
      ensures Linked() && shape == Plug(Append(sp, c), u)
      ensures Order(t) != [] && Order(t)[0].node == m
    {
      m := node;
      sp, u := Top, t;
      NodeAt(c, t);
      while m.left != sentinel
        invariant Linked() && u.Node? && u.node == m && LeftSpine(sp) && t == Plug(sp, u)
        invariant shape == Plug(Append(sp, c), u)
        invariant m.left == Addr(u.left, sentinel)
        decreases u
      {
        DistinctPlug(Append(sp, c), u);
        sp, u := In(true, u.node, u.key, u.red, u.right, sp), u.left;
        PlugAppend(sp, c, u);
        m := m.left;
        NodeAt(Append(sp, c), u);
      }
      NodeAt(Append(sp, c), u);
      SpineOrder(sp, u);
    }

    /** rbtree_next: the in-order successor, found without reading the root's `parent`. */
    method Next(node: RbNode) returns (next: RbNode?)
      requires Linked() && node in Nodes(shape)
      ensures Linked() && Follows(Order(shape), node, next)
    {
      ghost var c, t := Locate(Top, shape, node);
      NodeAt(c, t);
      OrderSplit(c, t);
      ghost var a, e := Before(c) + Order(t.left), Entry(t.key, t.node);
      if node.right != sentinel {
        ghost var r := In(false, t.node, t.key, t.red, t.left, c);
        ghost var sp, u;
        next, sp, u := Min(node.right, r, t.right);
        SpineOrder(sp, u);
        assert (Order(t.right) + After(c))[0] == Entry(u.key, u.node);
        assert Order(shape)[|a|].node == node && Behind(Order(shape), |a|, next);
        return;
      }
      assert Order(shape) == a + [e] + After(c);
      ghost var c', t' := c, t;
      var cur := node;
      while true
        invariant Linked() && shape == Plug(c', t') && t'.Node? && t'.node == cur && After(c') == After(c)
        decreases c'
      {
        NodeAt(c', t');
        var parent := cur.parent;
        if cur == root {
          assert After(c') == [] && Order(shape)[|a|] == e && |a| + 1 == |Order(shape)|;
          assert Behind(Order(shape), |a|, null);
          return null;
        }
        FrameAt(c', t');
        if cur == parent.left {
          assert Order(shape)[|a|].node == node && Behind(Order(shape), |a|, parent);
          return parent;
        }
        t', c' := ParentTree(c', t'), c'.up;
        cur := parent;
      }
    }

    /**
      The walk that rbtree_min and rbtree_next are for: from the minimum of the root on,
      the successors visit every node once, in order, and then null ends it.
    */
    method Traverse() returns (visited: seq<RbNode>)
      requires Linked()
      ensures visited == Names(Order(shape))
    {
      hide Order;
      ghost var s := Order(shape);
      visited := [];
      if root == sentinel {
        OrderOfLeaf(shape);
        return;
      }
      OrderNoRepeats(shape);
      NodeAt(Top, shape);
      ghost var sp, u;
      var node: RbNode?;
      node, sp, u := Min(root, Top, shape);
      while node != null
        invariant Linked() && |visited| <= |s| && visited == Names(s)[..|visited|]
        invariant node == if |visited| < |s| then s[|visited|].node else null
        decreases |s| - |visited|
      {
        InOrder(shape, |visited|);
        assert Names(s)[..|visited| + 1] == Names(s)[..|visited|] + [node];
        visited := visited + [node];
        node := Next(node);
        FollowsAt(s, |visited| - 1, node);
      }
    }

    static lemma OrderOfLeaf(t: Tree)
      requires t.Leaf?
      ensures Order(t) == []
    {
    }

    static lemma InOrder(t: Tree, i: nat)
      requires i < |Order(t)|
      ensures Order(t)[i].node in Nodes(t)
    {
      OrderInNodes(t);
    }

    // ---------- Deletion fix-up ----------

    /** The colour tests on the children of a node agree with the shape, the sentinel counting as black. */
    lemma ChildColours(c: Ctx, t: Tree)
      requires Linked() && shape == Plug(c, t) && t.Node?
      ensures Addr(t.left, sentinel).red == !Black(t.left) && Addr(t.right, sentinel).red == !Black(t.right)
      ensures t.node.left == Addr(t.left, sentinel) && t.node.right == Addr(t.right, sentinel)
    {
      NodeAt(c, t);
      UncleColour(In(true, t.node, t.key, t.red, t.right, c), t.left);
      UncleColour(In(false, t.node, t.key, t.red, t.left, c), t.right);
    }

    static lemma LackingTop(t: Tree)
      requires RedBlack(t)
      ensures Lacking(Top, t) && Black(t)
    {
    }

    /** One iteration of the deletion fix-up for a left child. */
    method DeleteFixLeft(temp: RbNode, ghost c: Ctx, ghost t: Tree) returns (temp': RbNode, ghost c': Ctx, ghost t': Tree)
      requires Linked() && shape == Plug(c, t) && temp == Addr(t, sentinel)
      requires c.In? && c.d && Lacking(c, t) && Black(t) && temp.parent == c.node
      modifies this`root, this`shape, Nodes(shape)`left, Nodes(shape)`right, Nodes(shape)`parent, Nodes(shape)`red
      ensures Linked() && shape == Plug(c', t') && temp' == Addr(t', sentinel)
      ensures Lacking(c', t') && Busy(c', t') < Busy(c, t) && (c'.In? ==> temp'.parent == c'.node)
      ensures Nodes(shape) == old(Nodes(shape)) && Order(shape) == old(Order(shape))
    {
      hide RbTree.Linked, Order, Nodes;
      c' := c;
      FrameAt(c, t);
      UncleColour(c, t);
      var sibling := temp.parent.right;
      if sibling.red {
        DeleteRedSibling(c, t);
        ghost var c1 := c.(sib := Paint(c.sib, false));
        SetColor(sibling, false, In(!c.d, c.node, c.key, c.red, t, c.up), c.sib);
        SetColor(temp.parent, true, c.up, ParentTree(c1, t));
        RotateLeft(temp.parent, c.up, Paint(ParentTree(c1, t), true));
        c' := In(c.d, c.node, c.key, true, Near(c.d, c.sib), In(c.d, c.sib.node, c.sib.key, false, Far(c.d, c.sib), c.up));
        FrameAt(c', t);
        sibling := temp.parent.right;
      }
      temp', c', t' := DeleteFixBlackLeft(temp, sibling, c', t);
    }

    /** The same once the sibling is black. */
    method DeleteFixBlackLeft(temp: RbNode, sibling: RbNode, ghost c: Ctx, ghost t: Tree)
      returns (temp': RbNode, ghost c': Ctx, ghost t': Tree)
      requires Linked() && shape == Plug(c, t) && temp == Addr(t, sentinel)
      requires c.In? && c.d && Lacking(c, t) && Black(t) && temp.parent == c.node
      requires Black(c.sib) && sibling == Addr(c.sib, sentinel)
      modifies this`root, this`shape, Nodes(shape)`left, Nodes(shape)`right, Nodes(shape)`parent, Nodes(shape)`red
      ensures Linked() && shape == Plug(c', t') && temp' == Addr(t', sentinel)
      ensures Lacking(c', t') && (c'.In? ==> temp'.parent == c'.node)
      ensures c' == Top || (c' == c.up && !Black(t') == c.red)
      ensures Nodes(shape) == old(Nodes(shape)) && Order(shape) == old(Order(shape))
    {
      ghost var f := In(!c.d, c.node, c.key, c.red, t, c.up);
      DeleteRecolour(c, t);
      FrameAt(c, t);
      NodeAt(f, c.sib);
      ChildColours(f, c.sib);
      if !sibling.left.red && !sibling.right.red {
        SetColor(sibling, true, f, c.sib);
        temp', c', t' := temp.parent, c.up, ParentTree(c.(sib := Paint(c.sib, true)), t);
        NodeAt(c', t');
      } else {
        ghost var c1 := c;
        var w := sibling;
        if !sibling.right.red {
          DeleteRotateSibling(c, t);
          w, c1 := RaiseNephewLeft(temp, sibling, c, t);
        }
        DeleteFinishLeft(temp, w, c1, t);
        temp', c', t' := root, Top, shape;
        LackingTop(shape);
      }
    }

    /** Rotate at the sibling, so that its red near child becomes the sibling. */
    method RaiseNephewLeft(temp: RbNode, sibling: RbNode, ghost c: Ctx, ghost t: Tree) returns (w: RbNode, ghost c': Ctx)
      requires Linked() && shape == Plug(c, t) && temp == Addr(t, sentinel) && c.In? && c.d && temp.parent == c.node
      requires c.sib.Node? && sibling == c.sib.node && Near(c.d, c.sib).Node?
      modifies this`root, this`shape, Nodes(shape)`left, Nodes(shape)`right, Nodes(shape)`parent, Nodes(shape)`red
      ensures
        var a := Build(c.d, Paint(Near(c.d, c.sib), false), c.sib.node, c.sib.key, true, Far(c.d, c.sib));
        c' == c.(sib := Rotate(!c.d, a))
      ensures Linked() && shape == Plug(c', t) && temp.parent == c.node && w == c'.sib.node
      ensures Nodes(shape) == old(Nodes(shape))
    {
      ghost var f := In(!c.d, c.node, c.key, c.red, t, c.up);
      NodeAt(f, c.sib);
      ghost var a := c.sib.(left := Paint(c.sib.left, false));
      SetColor(sibling.left, false, In(true, c.sib.node, c.sib.key, c.sib.red, c.sib.right, f), c.sib.left);
      SetColor(sibling, true, f, a);
      RotateRight(sibling, f, Paint(a, true));
      c' := c.(sib := Rotate(false, Paint(a, true)));
      FrameAt(c', t);
      w := temp.parent.right;
    }

    /** Black sibling with a red far child: recolour, and rotate at the parent. */
    method DeleteFinishLeft(temp: RbNode, sibling: RbNode, ghost c: Ctx, ghost t: Tree)
      requires Linked() && shape == Plug(c, t) && temp == Addr(t, sentinel)
      requires c.In? && c.d && Lacking(c, t) && Black(t) && temp.parent == c.node
      requires c.sib.Node? && Black(c.sib) && sibling == c.sib.node && !Black(Far(c.d, c.sib))
      modifies this`root, this`shape, Nodes(shape)`left, Nodes(shape)`right, Nodes(shape)`parent, Nodes(shape)`red
      ensures Linked() && RedBlack(shape)
      ensures Nodes(shape) == old(Nodes(shape)) && Order(shape) == old(Order(shape))
    {
      hide RbTree.Linked, Order, Nodes;
      ghost var f := In(!c.d, c.node, c.key, c.red, t, c.up);
      FrameAt(c, t);
      NodeAt(f, c.sib);
      DeleteRotateParent(c, t);
      SetColor(sibling, temp.parent.red, f, c.sib);
      ghost var w1 := Paint(c.sib, c.red);
      ghost var p := Paint(ParentTree(c.(sib := w1), t), false);
      SetColor(temp.parent, false, c.up, ParentTree(c.(sib := w1), t));
      SetColor(sibling.right, false,
        In(false, w1.node, w1.key, w1.red, w1.left, In(!c.d, c.node, c.key, false, t, c.up)), w1.right);
      ghost var w2 := w1.(right := Paint(w1.right, false));
      RotateLeft(temp.parent, c.up, Paint(ParentTree(c.(sib := w2), t), false));
    }

    /** One iteration of the deletion fix-up for a right child. */
    method DeleteFixRight(temp: RbNode, ghost c: Ctx, ghost t: Tree) returns (temp': RbNode, ghost c': Ctx, ghost t': Tree)
      requires Linked() && shape == Plug(c, t) && temp == Addr(t, sentinel)
      requires c.In? && !c.d && Lacking(c, t) && Black(t) && temp.parent == c.node
      modifies this`root, this`shape, Nodes(shape)`left, Nodes(shape)`right, Nodes(shape)`parent, Nodes(shape)`red
      ensures Linked() && shape == Plug(c', t') && temp' == Addr(t', sentinel)
      ensures Lacking(c', t') && Busy(c', t') < Busy(c, t) && (c'.In? ==> temp'.parent == c'.node)
      ensures Nodes(shape) == old(Nodes(shape)) && Order(shape) == old(Order(shape))
    {
      hide RbTree.Linked, Order, Nodes;
      c' := c;
      FrameAt(c, t);
      UncleColour(c, t);
      var sibling := temp.parent.left;
      if sibling.red {
        DeleteRedSibling(c, t);
        ghost var c1 := c.(sib := Paint(c.sib, false));
        SetColor(sibling, false, In(!c.d, c.node, c.key, c.red, t, c.up), c.sib);
        SetColor(temp.parent, true, c.up, ParentTree(c1, t));
        RotateRight(temp.parent, c.up, Paint(ParentTree(c1, t), true));
        c' := In(c.d, c.node, c.key, true, Near(c.d, c.sib), In(c.d, c.sib.node, c.sib.key, false, Far(c.d, c.sib), c.up));
        FrameAt(c', t);
        sibling := temp.parent.left;
      }
      temp', c', t' := DeleteFixBlackRight(temp, sibling, c', t);
    }

    /** The same once the sibling is black. */
    method DeleteFixBlackRight(temp: RbNode, sibling: RbNode, ghost c: Ctx, ghost t: Tree)
      returns (temp': RbNode, ghost c': Ctx, ghost t': Tree)
      requires Linked() && shape == Plug(c, t) && temp == Addr(t, sentinel)
      requires c.In? && !c.d && Lacking(c, t) && Black(t) && temp.parent == c.node
      requires Black(c.sib) && sibling == Addr(c.sib, sentinel)
      modifies this`root, this`shape, Nodes(shape)`left, Nodes(shape)`right, Nodes(shape)`parent, Nodes(shape)`red
      ensures Linked() && shape == Plug(c', t') && temp' == Addr(t', sentinel)
      ensures Lacking(c', t') && (c'.In? ==> temp'.parent == c'.node)
      ensures c' == Top || (c' == c.up && !Black(t') == c.red)
      ensures Nodes(shape) == old(Nodes(shape)) && Order(shape) == old(Order(shape))
    {
      ghost var f := In(!c.d, c.node, c.key, c.red, t, c.up);
      DeleteRecolour(c, t);
      FrameAt(c, t);
      NodeAt(f, c.sib);
      ChildColours(f, c.sib);
      if !sibling.right.red && !sibling.left.red {
        SetColor(sibling, true, f, c.sib);
        temp', c', t' := temp.parent, c.up, ParentTree(c.(sib := Paint(c.sib, true)), t);
        NodeAt(c', t');
      } else {
        ghost var c1 := c;
        var w := sibling;
        if !sibling.left.red {
          DeleteRotateSibling(c, t);
          w, c1 := RaiseNephewRight(temp, sibling, c, t);
        }
        DeleteFinishRight(temp, w, c1, t);
        temp', c', t' := root, Top, shape;
        LackingTop(shape);
      }
    }

    /** Rotate at the sibling, so that its red near child becomes the sibling. */
    method RaiseNephewRight(temp: RbNode, sibling: RbNode, ghost c: Ctx, ghost t: Tree) returns (w: RbNode, ghost c': Ctx)
      requires Linked() && shape == Plug(c, t) && temp == Addr(t, sentinel) && c.In? && !c.d && temp.parent == c.node
      requires c.sib.Node? && sibling == c.sib.node && Near(c.d, c.sib).Node?
      modifies this`root, this`shape, Nodes(shape)`left, Nodes(shape)`right, Nodes(shape)`parent, Nodes(shape)`red
      ensures
        var a := Build(c.d, Paint(Near(c.d, c.sib), false), c.sib.node, c.sib.key, true, Far(c.d, c.sib));
        c' == c.(sib := Rotate(!c.d, a))
      ensures Linked() && shape == Plug(c', t) && temp.parent == c.node && w == c'.sib.node
      ensures Nodes(shape) == old(Nodes(shape))
    {
      ghost var f := In(!c.d, c.node, c.key, c.red, t, c.up);
      NodeAt(f, c.sib);
      ghost var a := c.sib.(right := Paint(c.sib.right, false));
      SetColor(sibling.right, false, In(false, c.sib.node, c.sib.key, c.sib.red, c.sib.left, f), c.sib.right);
      SetColor(sibling, true, f, a);
      RotateLeft(sibling, f, Paint(a, true));
      c' := c.(sib := Rotate(true, Paint(a, true)));
      FrameAt(c', t);
      w := temp.parent.left;
    }

    /** Black sibling with a red far child: recolour, and rotate at the parent. */
    method DeleteFinishRight(temp: RbNode, sibling: RbNode, ghost c: Ctx, ghost t: Tree)
      requires Linked() && shape == Plug(c, t) && temp == Addr(t, sentinel)
      requires c.In? && !c.d && Lacking(c, t) && Black(t) && temp.parent == c.node
      requires c.sib.Node? && Black(c.sib) && sibling == c.sib.node && !Black(Far(c.d, c.sib))
      modifies this`root, this`shape, Nodes(shape)`left, Nodes(shape)`right, Nodes(shape)`parent, Nodes(shape)`red
      ensures Linked() && RedBlack(shape)
      ensures Nodes(shape) == old(Nodes(shape)) && Order(shape) == old(Order(shape))
    {
      hide RbTree.Linked, Order, Nodes;
      ghost var f := In(!c.d, c.node, c.key, c.red, t, c.up);
      FrameAt(c, t);
      NodeAt(f, c.sib);
      DeleteRotateParent(c, t);
      SetColor(sibling, temp.parent.red, f, c.sib);
      ghost var w1 := Paint(c.sib, c.red);
      ghost var p := Paint(ParentTree(c.(sib := w1), t), false);
      SetColor(temp.parent, false, c.up, ParentTree(c.(sib := w1), t));
      SetColor(sibling.left, false,
        In(true, w1.node, w1.key, w1.red, w1.right, In(!c.d, c.node, c.key, false, t, c.up)), w1.left);
      ghost var w2 := w1.(left := Paint(w1.left, false));
      RotateRight(temp.parent, c.up, Paint(ParentTree(c.(sib := w2), t), false));
    }

    method DeleteFixup(start: RbNode, ghost c0: Ctx, ghost t0: Tree)
      requires Linked() && shape == Plug(c0, t0) && start == Addr(t0, sentinel) && Lacking(c0, t0)
      requires (c0.In? ==> start.parent == c0.node) && Sorted(Order(shape))
      modifies this`root, this`shape, Nodes(shape)`left, Nodes(shape)`right, Nodes(shape)`parent, Nodes(shape)`red
      modifies sentinel`red
      ensures Valid() && Nodes(shape) == old(Nodes(shape)) && Order(shape) == old(Order(shape))
    {
      var temp := start;
      ghost var c, t := c0, t0;
      FocusAt(c, t);
      while temp != root && !temp.red
        invariant Linked() && shape == Plug(c, t) && temp == Addr(t, sentinel) && Lacking(c, t)
        invariant c.In? ==> temp.parent == c.node
        invariant (c.Top? <==> temp == root) && temp.red == !Black(t)
        invariant Nodes(shape) == old(Nodes(shape)) && Order(shape) == old(Order(shape))
        decreases Busy(c, t)
      {
        FrameAt(c, t);
        if temp == temp.parent.left {
          temp, c, t := DeleteFixLeft(temp, c, t);
        } else {
          temp, c, t := DeleteFixRight(temp, c, t);
        }
        FocusAt(c, t);
      }
      FocusAt(c, t);
      LackingDone(c, t);
      SameOrder(c, t, Paint(t, false));
      SetColor(temp, false, c, t);
    }

    /** What the loop test sees: the focus is the root exactly when nothing is above it; a leaf is black. */
    lemma FocusAt(c: Ctx, t: Tree)
      requires Linked() && shape == Plug(c, t)
      ensures c.Top? <==> Addr(t, sentinel) == root
      ensures Addr(t, sentinel).red == !Black(t)
      ensures Addr(t, sentinel) in Nodes(shape) + {sentinel}
    {
      if t.Node? {
        NodeAt(c, t);
      } else if c.In? {
        RootOutside(c, t);
      }
    }

    // ---------- Deletion ----------

    /** The removed node, no longer part of the shape, loses its links. */
    method Detach(node: RbNode)
      requires Linked() && node !in Nodes(shape) && node != sentinel
      modifies node`left, node`right, node`parent
      ensures Linked() && node.left == null && node.right == null && node.parent == null
    {
      ghost var s := Snap(Nodes(shape));
      node.left := null;
      node.right := null;
      node.parent := null;
      LinksFrame(s, Snap(Nodes(shape)), sentinel, shape, Any);
    }

    /** The shortcut for a root with at most one child: the child becomes the root, its `parent` is left stale. */
    method DeleteRoot(node: RbNode, temp: RbNode, ghost t: Tree, ghost x: Tree)
      requires Valid() && shape == t && OnlyChild(t, x) && t.node == node && temp == Addr(x, sentinel)
      modifies this`root, this`shape, Nodes(shape)`left, Nodes(shape)`right, Nodes(shape)`parent, Nodes(shape)`red
      modifies sentinel`red
      ensures Valid() && Nodes(shape) == old(Nodes(shape)) - {node}
      ensures Order(shape) == RemoveNode(old(Order(shape)), node)
      ensures node.left == null && node.right == null && node.parent == null
    {
      ghost var ns, s := Nodes(shape), Snap(Nodes(shape));
      RemoveOnlyOrder(Top, t, x);
      RemoveOnlyColours(Top, t, x);
      LinksSplice(s, s, sentinel, Top, t, x);
      root := temp;
      LinksFrame(s, Snap(ns - {node}), sentinel, x, Any);
      Reshape(ns - {node}, x);
      SetColor(temp, false, Top, x);
      SameOrder(Top, x, Paint(x, false));
      Detach(node);
    }

    /** `subst == node`: the parent adopts the only child, which may be the sentinel. */
    method Bypass(node: RbNode, temp: RbNode, ghost c: Ctx, ghost t: Tree, ghost x: Tree)
      requires Linked() && shape == Plug(c, t) && OnlyChild(t, x) && t.node == node && temp == Addr(x, sentinel)
      requires c.In?
      modifies this`shape, Nodes(shape)`left, Nodes(shape)`right, Nodes(shape)`parent, Nodes(shape)`red
      modifies sentinel`parent
      ensures Linked() && shape == Plug(c, x) && temp.parent == c.node
      ensures Nodes(shape) == old(Nodes(shape)) - {node}
    {
      hide Links, CtxLinks, Plug, Build, Distinct, Nodes;
      ghost var ns, s := Nodes(shape), Snap(Nodes(shape));
      BypassFacts(c, t, x);
      FrameAt(c, t);
      NodeAt(c, t);
      GiveChild(node, node, temp);
      ghost var s' := Snap(ns - {node});
      assert Agree(s, s', ns - {node} - {c.node} - (if x.Node? then {x.node} else {}));
      LinksSplice(s, s', sentinel, c, t, x);
      SameRoot(c, t, x);
      Reshape(ns - {node}, Plug(c, x));
    }

    lemma BypassFacts(c: Ctx, t: Tree, x: Tree)
      requires Linked() && shape == Plug(c, t) && OnlyChild(t, x) && c.In?
      ensures c.node in Nodes(shape) && c.node != t.node && (x.Node? ==> x.node in Nodes(shape) && x.node != t.node && x.node != c.node)
    {
      DistinctPlug(c, t);
      NodesPlug(c, t);
      assert x.Node? ==> x.node in Nodes(x);
    }

    /** Two children: the in-order successor is spliced out and takes the place and colour of `node`. */
    method Substitute(node: RbNode, subst: RbNode, temp: RbNode, ghost c: Ctx, ghost t: Tree, ghost sp: Ctx, ghost u: Tree)
      requires Linked() && shape == Plug(c, t) && t.Node? && t.node == node && t.left.Node? && t.right == Plug(sp, u)
      requires LeftSpine(sp) && u.Node? && u.left.Leaf? && u.node == subst && temp == Addr(u.right, sentinel)
      modifies this`root, this`shape, Nodes(shape)`left, Nodes(shape)`right, Nodes(shape)`parent, Nodes(shape)`red
      modifies sentinel`parent
      ensures
        var f := In(false, u.node, u.key, t.red, t.left, c);
        && Linked() && shape == Plug(c, Node(t.left, u.node, u.key, t.red, Plug(sp, u.right)))
        && temp.parent == Append(sp, f).node
      ensures Nodes(shape) == old(Nodes(shape)) - {node}
    {
      hide Links, CtxLinks, Plug, Distinct, LeftSpine, Nodes;
      ghost var t1 := Node(t.left, t.node, t.key, t.red, Plug(sp, u.right));
      SubstNodes(c, t, sp, u);
      OrphanApart(c, t, sp, u, sentinel);
      OrphanBelow(c, t, sp, u, sentinel);
      AdoptOrphan(node, subst, temp, c, t, sp, u);
      AddrPlug(c, t, t1, sentinel);
      if sp.In? {
        AddrPlug(sp, u, u.right, sentinel);
        SpineTop(sp, In(false, u.node, u.key, t.red, t.left, c));
      }
      TakePlace(node, subst, temp, c, t1, u.key);
    }

    /** What is known around the successor: its parent, and on which side it hangs. */
    lemma OrphanFacts(c: Ctx, t: Tree, sp: Ctx, u: Tree)
      requires Linked() && shape == Plug(c, t) && t.Node? && t.right == Plug(sp, u)
      requires LeftSpine(sp) && u.Node? && u.left.Leaf?
      ensures
        var p := SubstParent(t, sp);
        && p in Nodes(shape) && u.node.parent == p && u.node.key == u.key && (u.node == p.left <==> sp.In?)
    {
      var a := OrphanPlace(c, t, sp, u);
      NodeAt(a, u);
      FrameAt(a, u);
    }

    /** The parent of `subst` gets its child; of the nodes nothing more is known. */
    method GiveChild(node: RbNode, subst: RbNode, temp: RbNode)
      requires subst.parent != null && subst.parent != subst && temp != subst && temp != subst.parent
      modifies subst.parent`left, subst.parent`right, temp`parent
      ensures CellOf(old(subst.parent)) == Put(old(CellOf(subst.parent)), old(subst == subst.parent.left), temp)
      ensures CellOf(temp) == old(CellOf(temp)).(parent := old(if subst.parent == node then subst else subst.parent))
    {
      if subst == subst.parent.left {
        subst.parent.left := temp;
      } else {
        subst.parent.right := temp;
      }

      if subst.parent == node {
        temp.parent := subst;
      } else {
        temp.parent := subst.parent;
      }
    }

    method AdoptOrphan(node: RbNode, subst: RbNode, temp: RbNode, ghost c: Ctx, ghost t: Tree, ghost sp: Ctx, ghost u: Tree)
      requires Linked() && shape == Plug(c, t) && t.Node? && t.node == node && t.right == Plug(sp, u)
      requires LeftSpine(sp) && u.Node? && u.left.Leaf? && u.node == subst && temp == Addr(u.right, sentinel)
      modifies Nodes(shape)`left, Nodes(shape)`right, Nodes(shape)`parent, Nodes(shape)`red
      modifies sentinel`parent
      ensures
        var s', r := Snap(Nodes(shape)), Plug(sp, u.right);
        && CtxLinks(s', sentinel, c, node) && Links(s', sentinel, t.left, Any) && Links(s', sentinel, r, Any)
        && CellIs(s', node, t.key, t.red, Addr(t.left, sentinel), Addr(r, sentinel), ParentOf(c))
      ensures temp.parent == (if sp.In? then sp.node else subst) && subst.key == u.key
    {
      hide Links, CtxLinks, Plug, Distinct, LeftSpine;
      ghost var s := Snap(Nodes(shape));
      OrphanFacts(c, t, sp, u);
      OrphanApart(c, t, sp, u, sentinel);
      GiveChild(node, subst, temp);
      ghost var s' := Snap(Nodes(shape));
      assert SubstSpliced(s, s', sentinel, c, t, sp, u);
      LinksSubstSplice(s, s', sentinel, c, t, sp, u);
    }

    static lemma {:induction false} SpineTop(sp: Ctx, f: Ctx)
      requires f.In? && LeftSpine(sp)
      ensures var a := Append(sp, f);
        a.In? && (if sp.In? then a.node == sp.node && a.d else a == f)
    {
    }

    /** `subst`, already out of the tree, takes over the links, the colour and the place of `node`. */
    method TakePlace(node: RbNode, subst: RbNode, ghost temp: RbNode, ghost c: Ctx, ghost t: Tree, ghost key: nat)
      requires t.Node? && t.left.Node? && t.node == node && Distinct(Plug(c, t))
      requires subst !in Nodes(Plug(c, t)) && subst.key == key
      requires sentinel !in Nodes(Plug(c, t)) + {subst} && !sentinel.red && root == Addr(Plug(c, t), sentinel)
      requires temp != subst && temp != node && temp != t.left.node
      requires
        var s := Snap(Nodes(Plug(c, t)) + {subst});
        && CtxLinks(s, sentinel, c, node) && Links(s, sentinel, t.left, Any) && Links(s, sentinel, t.right, Any)
        && CellIs(s, node, t.key, t.red, Addr(t.left, sentinel), Addr(t.right, sentinel), ParentOf(c))
      modifies this`root, this`shape, subst`left, subst`right, subst`parent, subst`red
      modifies Nodes(Plug(c, t))`left, Nodes(Plug(c, t))`right, Nodes(Plug(c, t))`parent
      ensures Linked() && shape == Plug(c, Node(t.left, subst, key, t.red, t.right))
      ensures Nodes(shape) == Nodes(Plug(c, t)) - {node} + {subst}
      ensures temp.parent == if t.right.Node? && temp == t.right.node then subst else old(temp.parent)
    {
      hide Plug, Distinct, Build, Links, CtxLinks, Nodes;
      ghost var ns := Nodes(Plug(c, t));
      ghost var s := Snap(ns + {subst});
      ghost var t' := Node(t.left, subst, key, t.red, t.right);
      PlaceFacts(ns + {subst}, c, t);
      MoveLinks(node, subst, temp);
      ghost var s' := Snap(ns - {node} + {subst});
      assert Agree(s, s', ns - Around(c, t));
      LinksReplace(s, s', sentinel, c, t, t');
      AddrReplace(c, t, t', sentinel);
      Reshape(ns - {node} + {subst}, Plug(c, t'));
    }

    static lemma AddrReplace(c: Ctx, t: Tree, t': Tree, nil: RbNode)
      requires t.Node? && t'.Node?
      ensures Addr(Plug(c, t'), nil) == if c.Top? then t'.node else Addr(Plug(c, t), nil)
    {
      if c.In? {
        AddrPlug(c, t, t', nil);
      }
    }

    method MoveLinks(node: RbNode, subst: RbNode, ghost temp: RbNode)
      requires node.left != null && node.right != null && subst != node && node.left != sentinel
      requires temp != subst && temp != node.left
      requires subst !in {sentinel, node.left, node.right} && node !in {sentinel, node.left, node.right}
      requires node.left != node.right
      requires node != root ==> node.parent != null && node.parent !in {node, subst, node.left, node.right, sentinel}
      modifies this`root, subst`left, subst`right, subst`parent, subst`red
      modifies node.left`parent, (if node.right == sentinel then {} else {node.right})`parent
      modifies (if node == root then {} else {node.parent})`left, (if node == root then {} else {node.parent})`right
      ensures sentinel.red == old(sentinel.red)
      ensures temp.parent == old(if temp == node.right && node.right != sentinel then subst else temp.parent)
      ensures CellOf(subst) == old(Cell(subst.key, node.left, node.right, node.parent, node.red))
      ensures CellOf(old(node.left)) == old(CellOf(node.left)).(parent := subst)
      ensures old(node.right) != sentinel ==> CellOf(old(node.right)) == old(CellOf(node.right)).(parent := subst)
      ensures old(node != root) ==>
        CellOf(old(node.parent)) == Put(old(CellOf(node.parent)), old(node == node.parent.left), subst)
      ensures root == if old(node == root) then subst else old(root)
    {
      subst.left := node.left;
      subst.right := node.right;
      subst.parent := node.parent;
      subst.red := node.red;

      if node == root {
        root := subst;
      } else {
        if node == node.parent.left {
          node.parent.left := subst;
        } else {
          node.parent.right := subst;
        }
      }

      if subst.left != sentinel {
        subst.left.parent := subst;
      }

      if subst.right != sentinel {
        subst.right.parent := subst;
      }
    }

    lemma PlaceFacts(ns: set<RbNode>, c: Ctx, t: Tree)
      requires t.Node? && Distinct(Plug(c, t)) && sentinel !in Nodes(Plug(c, t))
      requires root == Addr(Plug(c, t), sentinel)
      requires CtxLinks(Snap(ns), sentinel, c, t.node)
      ensures c.Top? <==> root == t.node
      ensures c.In? ==> (c.d <==> c.node.left == t.node) && c.node in Nodes(Plug(c, t)) && c.node != sentinel
      ensures Around(c, t) <= Nodes(Plug(c, t))
      ensures c.In? ==> c.node != t.node
      ensures t.left.Node? ==> t.left.node != t.node && (c.In? ==> t.left.node != c.node)
      ensures t.right.Node? ==> t.right.node != t.node && (c.In? ==> t.right.node != c.node)
      ensures t.left.Node? && t.right.Node? ==> t.left.node != t.right.node
    {
      PlaceApart(c, t);
      NodesPlug(c, t);
      DistinctPlug(c, t);
      if c.In? {
        RootOutside(c, t);
      }
    }

    lemma NoNodeTwice()
      requires Linked()
      ensures Distinct(shape)
    {
    }

    /** rbtree_delete: exactly `node` leaves the tree, the order of the rest is kept. */
    method Delete(node: RbNode)
      requires Valid() && node in Nodes(shape)
      modifies this`root, this`shape, Nodes(shape)`left, Nodes(shape)`right, Nodes(shape)`parent, Nodes(shape)`red
      modifies sentinel`red, sentinel`parent
      ensures Valid() && Nodes(shape) == old(Nodes(shape)) - {node}
      ensures Order(shape) == RemoveNode(old(Order(shape)), node)
      ensures node.left == null && node.right == null && node.parent == null
    {
      hide RbTree.Linked, Nodes, Order;
      NoNodeTwice();
      var subst, temp;
      ghost var c, t := Locate(Top, shape, node);
      ghost var sp, u := Top, t;
      ghost var x;
      NodeAt(c, t);
      if node.left == sentinel {
        temp := node.right;
        subst := node;
        x := t.right;
      } else if node.right == sentinel {
        temp := node.left;
        subst := node;
        x := t.left;
      } else {
        subst, sp, u := Min(node.right, In(false, t.node, t.key, t.red, t.left, c), t.right);
        NodeAt(Append(sp, In(false, t.node, t.key, t.red, t.left, c)), u);
        // The source also handles a left child here; the minimum has none.
        if subst.left != sentinel {
          assert false;
        }
        temp := subst.right;
        x := u.right;
      }

      if subst == root {
        DeleteRoot(node, temp, t, x);
        return;
      }

      var substIsRed := subst.red;
      if subst == node {
        Bypass(node, temp, c, t, x);
        RemoveOnlyOrder(c, t, x);
        RemoveOnlyColours(c, t, x);
      } else {
        Substitute(node, subst, temp, c, t, sp, u);
        RemoveSubstOrder(c, t, sp, u);
        RemoveSubstColours(c, t, sp, u);
        PlugAppend(sp, In(false, u.node, u.key, t.red, t.left, c), x);
        c := Append(sp, In(false, u.node, u.key, t.red, t.left, c));
      }

      FocusAt(c, x);
      Detach(node);

      if substIsRed {
        return;
      }

      DeleteFixup(temp, c, x);
    }
  }
}
