/** The intrusive circular list of code/common/list.h.  A ring starts with the list's head. */
module Lists {
  class ListNode {
    var prev: ListNode?
    var next: ListNode?
    /** The structure that the node is a member of; null for the head of a list. */
    var container: object?

    constructor ()
      ensures prev == null && next == null && container == null
    {
      prev, next, container := null, null, null;
    }
  }

  predicate NoRepeats<T(==)>(s: seq<T>) {
    forall i, j :: 0 <= i < j < |s| ==> s[i] != s[j]
  }

  function Succ(i: nat, n: nat): nat {
    if i + 1 < n then i + 1 else 0
  }

  /** The nodes of `r` are linked in a circle, in this order. */
  ghost predicate Ring(r: seq<ListNode>)
    reads r
  {
    && r != [] && NoRepeats(r)
    && forall i :: 0 <= i < |r| ==> r[i].next == r[Succ(i, |r|)] && r[Succ(i, |r|)].prev == r[i]
  }

  twostate lemma RingKept(r: seq<ListNode>)
    requires old(Ring(r)) && forall n :: n in r ==> n.prev == old(n.prev) && n.next == old(n.next)
    ensures Ring(r)
  {
  }

  lemma RingEnds(r: seq<ListNode>)
    requires Ring(r)
    ensures r[|r| - 1].next == r[0] && r[0].prev == r[|r| - 1]
    ensures |r| > 1 ==> r[0].next == r[1] && r[1].prev == r[0]
  {
    assert r[|r| - 1].next == r[Succ(|r| - 1, |r|)];
    assert r[0].next == r[Succ(0, |r|)];
  }

  lemma OnceRemoved<T>(a: seq<T>, x: T, b: seq<T>)
    requires NoRepeats(a + [x] + b)
    ensures NoRepeats(a + b) && x !in a + b
  {
    var s, t := a + [x] + b, a + b;
    forall i, j | 0 <= i < j < |t|
      ensures t[i] != t[j]
    {
      assert t[i] == s[if i < |a| then i else i + 1] && t[j] == s[if j < |a| then j else j + 1];
    }
    forall i | 0 <= i < |t|
      ensures t[i] != x
    {
      assert t[i] == s[if i < |a| then i else i + 1] && s[|a|] == x;
    }
  }

  lemma OnceParts<T>(h: T, a: seq<T>, b: seq<T>)
    requires NoRepeats([h] + a + b)
    ensures NoRepeats(a) && NoRepeats([h] + b) && h !in a && h !in b && forall x :: x in a ==> x !in b
  {
    var s := [h] + a + b;
    assert s[0] == h;
    assert forall i :: 0 <= i < |a| ==> s[1 + i] == a[i];
    assert forall i :: 0 <= i < |b| ==> s[1 + |a| + i] == b[i];
    OnceAmong(s, a, 1);
    OnceAmong(s, b, 1 + |a|);
    OnceUnder(h, b);
  }

  /** A part of a sequence without repeats has none. */
  lemma OnceAmong<T>(s: seq<T>, a: seq<T>, k: nat)
    requires NoRepeats(s) && k + |a| <= |s| && forall i :: 0 <= i < |a| ==> s[k + i] == a[i]
    ensures NoRepeats(a)
  {
    forall i, j | 0 <= i < j < |a|
      ensures a[i] != a[j]
    {
      assert s[k + i] != s[k + j];
    }
  }

  lemma OnceUnder<T>(h: T, a: seq<T>)
    requires NoRepeats(a) && h !in a
    ensures NoRepeats([h] + a)
  {
    var s := [h] + a;
    forall i, j | 0 <= i < j < |s|
      ensures s[i] != s[j]
    {
      assert s[j] == a[j - 1] && (i > 0 ==> s[i] == a[i - 1]);
    }
  }

  method Init(list: ListNode)
    modifies list`prev, list`next
    ensures Ring([list])
  {
    list.prev := list;
    list.next := list;
  }

  /** Whether the list has no nodes. */
  predicate Empty(list: ListNode)
    reads list
  {
    list == list.next
  }

  lemma EmptyRing(r: seq<ListNode>)
    requires Ring(r)
    ensures Empty(r[0]) <==> |r| == 1
  {
    RingEnds(r);
  }

  ghost function First(list: ListNode, r: seq<ListNode>): ListNode {
    if r == [] then list else r[0]
  }

  /** The private `list_add`: a new node comes between two neighbours of a circle. */
  method Add(prev: ListNode, next: ListNode, node: ListNode, ghost a: seq<ListNode>, ghost b: seq<ListNode>)
    requires a != [] && Ring(a + b) && node !in a + b
    requires prev == a[|a| - 1] && next == First(a[0], b)
    modifies prev`prev, prev`next, next`prev, next`next, node`prev, node`next
    ensures Ring(a + [node] + b)
  {
    ghost var s, t, k := a + b, a + [node] + b, |a|;
    OnceAdded(a, node, b);
    assert s[k - 1] == prev && prev in s && next in s && s[Succ(k - 1, |s|)] == next;
    next.prev := node;
    node.next := next;

    prev.next := node;
    node.prev := prev;
    forall i | 0 <= i < |t|
      ensures t[i].next == t[Succ(i, |t|)] && t[Succ(i, |t|)].prev == t[i]
    {
      if i == k - 1 {
        assert t[i] == prev && t[i + 1] == node;
      } else if i == k {
        assert t[i] == node && t[Succ(i, |t|)] == next;
      } else {
        var j := if i < k then i else i - 1;
        assert t[i] == s[j] && t[Succ(i, |t|)] == s[Succ(j, |s|)];
        assert old(s[j].next == s[Succ(j, |s|)] && s[Succ(j, |s|)].prev == s[j]);
        assert s[j] != s[k - 1] && s[j] in s;
        OnlyPredecessor(s, j, k - 1);
      }
    }
  }

  lemma OnceAdded<T>(a: seq<T>, x: T, b: seq<T>)
    requires NoRepeats(a + b) && x !in a + b
    ensures NoRepeats(a + [x] + b)
  {
    var s, t := a + b, a + [x] + b;
    forall i, j | 0 <= i < j < |t|
      ensures t[i] != t[j]
    {
      assert i != |a| ==> t[i] == s[if i < |a| then i else i - 1] && t[i] in s;
      assert j != |a| ==> t[j] == s[if j < |a| then j else j - 1] && t[j] in s;
    }
  }

  /** Different places have different successors. */
  lemma OnlyPredecessor<T>(s: seq<T>, i: nat, j: nat)
    requires NoRepeats(s) && i < |s| && j < |s| && i != j
    ensures s[Succ(i, |s|)] != s[Succ(j, |s|)]
  {
  }

  /** A new node becomes the first. */
  method InsertHead(list: ListNode, node: ListNode, ghost r: seq<ListNode>)
    requires Ring([list] + r) && node !in [list] + r
    modifies list`prev, list`next, node`prev, node`next, First(list, r)`prev, First(list, r)`next
    ensures Ring([list, node] + r)
  {
    RingEnds([list] + r);
    Add(list, list.next, node, [list], r);
    assert [list] + [node] + r == [list, node] + r;
  }

  /** `list_remove`: the neighbours are joined, and the node itself is left as it was. */
  method Remove(node: ListNode, ghost a: seq<ListNode>, ghost b: seq<ListNode>)
    requires a != [] && Ring(a + [node] + b)
    modifies a`prev, a`next, b`prev, b`next
    ensures Ring(a + b)
  {
    ghost var s, t := a + [node] + b, a + b;
    ghost var k := |a|;
    assert s[k] == node && s[k - 1].next == s[Succ(k - 1, |s|)];
    assert s[Succ(k, |s|)].prev == s[k];
    assert node.prev == s[k - 1] == t[k - 1];
    OnceRemoved(a, node, b);
    node.prev.next := node.next;
    node.next.prev := node.prev;
    forall i | 0 <= i < |t|
      ensures t[i].next == t[Succ(i, |t|)] && t[Succ(i, |t|)].prev == t[i]
    {
      var j := if i < k then i else i + 1;
      assert t[i] == s[j];
      assert old(s[j].next == s[Succ(j, |s|)] && s[Succ(j, |s|)].prev == s[j]);
    }
  }

  /** `list_split`: the nodes of `list2` before `node` move to `list1`, whatever that held. */
  method Split(list1: ListNode, list2: ListNode, node: ListNode, ghost a: seq<ListNode>, ghost b: seq<ListNode>)
    requires Ring([list2] + a + b) && node == ([list2] + b)[if b == [] then 0 else 1]
    requires list1 !in [list2] + a + b
    modifies list1`prev, list1`next, list2`prev, list2`next, a`prev, a`next, b`prev, b`next
    ensures if b == [] then Ring([list1]) && Ring([list2] + a) else Ring([list1] + a) && Ring([list2] + b)
  {
    ghost var s := [list2] + a + b;
    RingEnds(s);
    EmptyRing(s);
    OnceParts(list2, a, b);
    OnceUnder(list1, a);
    assert b == [] ==> s == [list2] + a;
    assert a == [] ==> s == [list2] + b && [list1] + a == [list1];
    assert a != [] ==> s[1] == a[0];
    assert b != [] ==> s[1 + |a|] == b[0] == node;
    if Empty(list2) || list2.next == node || list2 == node {
      Init(list1);
      return;
    }
    assert s[|a|].next == s[Succ(|a|, |s|)];
    list1.next := list2.next;
    list1.next.prev := list1;

    list1.prev := node.prev;
    node.prev.next := list1;

    list2.next := node;
    node.prev := list2;
    ghost var t, u := [list1] + a, [list2] + b;
    forall i | 0 <= i < |t|
      ensures t[i].next == t[Succ(i, |t|)] && t[Succ(i, |t|)].prev == t[i]
    {
      if 0 < i < |a| {
        assert t[i] == s[i] == a[i - 1] && t[i + 1] == s[i + 1] == a[i];
        assert old(s[i].next == s[i + 1] && s[i + 1].prev == s[i]) by { assert i + 1 == Succ(i, |s|); }
      } else if i > 0 {
        assert t[i] == s[|a|];
      }
    }
    forall i | 0 <= i < |u|
      ensures u[i].next == u[Succ(i, |u|)] && u[Succ(i, |u|)].prev == u[i]
    {
      ghost var j := |a| + i;
      if 0 < i < |b| {
        assert u[i] == s[j] == b[i - 1] && u[i + 1] == s[j + 1] == b[i];
        assert old(s[j].next == s[j + 1] && s[j + 1].prev == s[j]) by { assert j + 1 == Succ(j, |s|); }
      } else if i > 0 {
        assert u[i] == s[|s| - 1];
      }
    }
  }

  lemma ConcatApart<T>(h: T, a: seq<T>, k: T, b: seq<T>)
    requires NoRepeats([h] + a + [k] + b)
    ensures forall x, y :: x in [h] + a && y in [k] + b ==> x != y
  {
    var s := [h] + a + [k] + b;
    forall x, y | x in [h] + a && y in [k] + b
      ensures x != y
    {
      var i :| 0 <= i < |a| + 1 && ([h] + a)[i] == x;
      var j :| 0 <= j < |b| + 1 && ([k] + b)[j] == y;
      assert s[i] == x && s[|a| + 1 + j] == y;
    }
  }

  /** `list_concat`: the nodes of `list2` follow those of `list1`; its head is left stale. */
  method Concat(list1: ListNode, list2: ListNode, ghost a: seq<ListNode>, ghost b: seq<ListNode>)
    requires Ring([list1] + a) && Ring([list2] + b) && NoRepeats([list1] + a + [list2] + b)
    modifies list1`prev, list1`next, a`prev, a`next, b`prev, b`next
    ensures Ring([list1] + a + b)
  {
    ghost var s, t, u := [list1] + a, [list2] + b, [list1] + a + b;
    RingEnds(s);
    RingEnds(t);
    EmptyRing(t);
    OnceRemoved([list1] + a, list2, b);
    ConcatApart(list1, a, list2, b);
    if Empty(list2) {
      assert u == s;
      return;
    }
    var last1, first2, last2 := list1.prev, list2.next, list2.prev;

    last1.next := first2;
    first2.prev := last1;

    last2.next := list1;
    list1.prev := last2;
    forall i | 0 <= i < |u|
      ensures u[i].next == u[Succ(i, |u|)] && u[Succ(i, |u|)].prev == u[i]
    {
      if i < |a| {
        assert u[i] == s[i] && u[i + 1] == s[i + 1];
        assert s[i] in s && s[i] != s[|a|] && last2 in t;
        assert old(s[i].next == s[Succ(i, |s|)] && s[Succ(i, |s|)].prev == s[i]);
      } else if i > |a| {
        var j := i - |a|;
        assert u[i] == t[j];
        assert old(t[j].next == t[Succ(j, |t|)] && t[Succ(j, |t|)].prev == t[j]);
        assert t[j] in t && t[j] != last1 by { assert last1 in s; }
        assert i + 1 < |u| ==> u[i + 1] == t[j + 1] && t[j] != t[|t| - 1];
        assert i + 1 == |u| ==> t[j] == last2;
      } else {
        assert u[i] == s[i] == last1 && u[i + 1] == t[1] == first2;
      }
    }
  }

  /** `list_set_head`: the same nodes under another head, as `Init` and `Concat` would give. */
  method SetHead(newHead: ListNode, oldHead: ListNode, ghost a: seq<ListNode>)
    requires Ring([oldHead] + a) && newHead !in [oldHead] + a
    modifies newHead`prev, newHead`next, a`prev, a`next
    ensures Ring([newHead] + a)
  {
    ghost var s, t := [oldHead] + a, [newHead] + a;
    RingEnds(s);
    EmptyRing(s);
    if Empty(oldHead) {
      Init(newHead);
      assert t == [newHead];
      return;
    }
    newHead.prev, newHead.next := oldHead.prev, oldHead.next;
    newHead.next.prev := newHead;
    newHead.prev.next := newHead;
    forall i | 0 <= i < |t|
      ensures t[i].next == t[Succ(i, |t|)] && t[Succ(i, |t|)].prev == t[i]
    {
      assert i > 0 ==> t[i] == s[i];
      assert i > 0 ==> old(s[i].next == s[Succ(i, |s|)] && s[Succ(i, |s|)].prev == s[i]);
    }
  }
}
