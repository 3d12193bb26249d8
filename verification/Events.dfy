/**
  The event manager of code/client/event.c.  Callbacks may register and unregister
  entries while an event is being broadcast.
*/
module EventSpec {
  import opened Lists

  /** `s` without `x`. */
  function Without<T(==)>(s: seq<T>, x: T): seq<T> {
    if s == [] then [] else (if s[0] == x then [] else [s[0]]) + Without(s[1..], x)
  }

  lemma {:induction false} WithoutIn<T>(s: seq<T>, x: T, y: T)
    ensures y in Without(s, x) <==> y in s && y != x
  {
    if s != [] {
      WithoutIn(s[1..], x, y);
    }
  }

  lemma {:induction false} WithoutAbsent<T>(s: seq<T>, x: T)
    requires x !in s
    ensures Without(s, x) == s
  {
    if s != [] {
      WithoutAbsent(s[1..], x);
    }
  }

  lemma {:induction false} WithoutConcat<T>(s: seq<T>, t: seq<T>, x: T)
    ensures Without(s + t, x) == Without(s, x) + Without(t, x)
  {
    if s == [] {
      assert s + t == t;
    } else {
      assert (s + t)[1..] == s[1..] + t;
      WithoutConcat(s[1..], t, x);
    }
  }

  lemma WithoutMiddle<T>(a: seq<T>, x: T, b: seq<T>)
    requires x !in a && x !in b
    ensures Without(a + [x] + b, x) == a + b
  {
    WithoutSelf(x);
    hide Without;
    WithoutConcat(a + [x], b, x);
    WithoutConcat(a, [x], x);
    WithoutAbsent(a, x);
    WithoutAbsent(b, x);
    assert a + [] == a;
  }

  lemma WithoutSelf<T>(x: T)
    ensures Without([x], x) == []
  {
  }

  // ---------- Which lists an entry is in ----------

  ghost predicate InSome<T>(lists: seq<seq<T>>, x: T) {
    exists e :: 0 <= e < |lists| && x in lists[e]
  }

  /** All lists draw from `known`, and no entry is in two of them. */
  ghost predicate Sound<T>(lists: seq<seq<T>>, known: set<T>) {
    && (forall e, x :: 0 <= e < |lists| && x in lists[e] ==> x in known)
    && (forall e, f, x :: 0 <= e < f < |lists| && x in lists[e] ==> x !in lists[f])
  }

  function Added<T>(lists: seq<seq<T>>, e: nat, x: T): seq<seq<T>>
    requires e < |lists|
  {
    lists[e := [x] + lists[e]]
  }

  function Removed<T(==)>(lists: seq<seq<T>>, x: T): (r: seq<seq<T>>)
    ensures |r| == |lists|
  {
    seq(|lists|, e requires 0 <= e < |lists| => Without(lists[e], x))
  }

  lemma SoundAdded<T>(lists: seq<seq<T>>, known: set<T>, e: nat, x: T)
    requires Sound(lists, known) && e < |lists| && !InSome(lists, x)
    ensures Sound(Added(lists, e, x), known + {x})
  {
  }

  lemma InAdded<T>(lists: seq<seq<T>>, e: nat, x: T, y: T)
    requires e < |lists|
    ensures InSome(Added(lists, e, x), y) <==> y == x || InSome(lists, y)
  {
    var r := Added(lists, e, x);
    if y == x {
      assert y in r[e];
    } else if InSome(lists, y) {
      var f :| 0 <= f < |lists| && y in lists[f];
      assert y in r[f];
    }
  }

  lemma SoundRemoved<T>(lists: seq<seq<T>>, known: set<T>, x: T)
    requires Sound(lists, known)
    ensures Sound(Removed(lists, x), known)
  {
    var r := Removed(lists, x);
    forall e, y | 0 <= e < |r| && y in r[e]
      ensures y in lists[e]
    {
      WithoutIn(lists[e], x, y);
    }
  }

  lemma InRemoved<T>(lists: seq<seq<T>>, x: T, y: T)
    ensures InSome(Removed(lists, x), y) <==> y != x && InSome(lists, y)
  {
    var r := Removed(lists, x);
    forall e | 0 <= e < |lists|
      ensures y in r[e] <==> y != x && y in lists[e]
    {
      WithoutIn(lists[e], x, y);
    }
    if y != x && InSome(lists, y) {
      var f :| 0 <= f < |lists| && y in lists[f];
      assert y in r[f];
    }
  }

  /** Only the list that holds `x` changes. */
  lemma RemovedIs<T>(lists: seq<seq<T>>, known: set<T>, e: nat, a: seq<T>, x: T, b: seq<T>)
    requires Sound(lists, known) && e < |lists| && lists[e] == a + [x] + b && x !in a && x !in b
    ensures Removed(lists, x) == lists[e := a + b]
  {
    WithoutMiddle(a, x, b);
    assert x in lists[e];
    forall f | 0 <= f < |lists| && f != e
      ensures Without(lists[f], x) == lists[f]
    {
      WithoutAbsent(lists[f], x);
    }
  }

  /** What is still to come is the end of the list. */
  predicate EndsWith<T(==)>(s: seq<T>, todo: seq<T>) {
    |todo| <= |s| && s[|s| - |todo|..] == todo
  }

  lemma EndsWithMore<T>(x: T, s: seq<T>, todo: seq<T>)
    requires EndsWith(s, todo)
    ensures EndsWith([x] + s, todo)
  {
  }

  lemma EndsWithout<T>(s: seq<T>, todo: seq<T>, x: T)
    requires EndsWith(s, todo)
    ensures EndsWith(Without(s, x), Without(todo, x))
  {
    var front := s[..|s| - |todo|];
    assert s == front + todo;
    WithoutConcat(front, todo, x);
  }

  // ---------- What is left when entries are taken out ----------

  function Keep<T(==)>(s: seq<T>, removed: set<T>): (r: seq<T>)
    ensures |r| <= |s|
  {
    if s == [] then [] else (if s[0] in removed then [] else [s[0]]) + Keep(s[1..], removed)
  }

  lemma {:induction false} KeepIn<T>(s: seq<T>, removed: set<T>, x: T)
    ensures x in Keep(s, removed) <==> x in s && x !in removed
  {
    if s != [] {
      KeepIn(s[1..], removed, x);
    }
  }

  lemma KeepCons<T>(x: T, s: seq<T>, removed: set<T>)
    ensures Keep([x] + s, removed) == (if x in removed then [] else [x]) + Keep(s, removed)
    ensures forall y :: Without([x] + s, y) == (if x == y then [] else [x]) + Without(s, y)
  {
    assert ([x] + s)[1..] == s;
  }

  lemma {:induction false} KeepWithout<T>(s: seq<T>, removed: set<T>, x: T)
    ensures Keep(s, removed + {x}) == Without(Keep(s, removed), x)
  {
    if s != [] {
      var k := Keep(s[1..], removed);
      KeepWithout(s[1..], removed, x);
      KeepCons(s[0], k, removed);
      assert [] + k == k && [] + Keep(s[1..], removed + {x}) == Keep(s[1..], removed + {x});
    }
  }

  lemma {:induction false} KeepTwice<T>(s: seq<T>, removed: set<T>, more: set<T>)
    ensures Keep(s, removed + more) == Keep(Keep(s, removed), removed + more)
  {
    if s != [] {
      var k := Keep(s[1..], removed);
      KeepTwice(s[1..], removed, more);
      KeepCons(s[0], k, removed + more);
      assert [] + k == k && [] + Keep(s[1..], removed + more) == Keep(s[1..], removed + more);
    }
  }

  lemma {:induction false} KeepAll<T>(s: seq<T>, removed: set<T>)
    requires forall x :: x in s ==> x !in removed
    ensures Keep(s, removed) == s
  {
    if s != [] {
      KeepAll(s[1..], removed);
    }
  }

  lemma {:induction false} KeepMore<T>(s: seq<T>, removed: set<T>, more: set<T>)
    requires forall x :: x in s ==> x !in removed
    ensures Keep(s, removed + more) == Keep(s, more)
  {
    if s != [] {
      KeepMore(s[1..], removed, more);
    }
  }
}

module Events {
  import opened Lists
  import opened EventSpec

  class CallbackEntry {
    const node: ListNode
    var registered: bool
    /** Whether `callback` is set. */
    const callback: bool

    constructor (callback: bool)
      ensures !registered && fresh(node) && node.container == this && this.callback == callback
    {
      registered := false;
      this.callback := callback;
      node := new ListNode();
      new;
      node.container := this;
    }
  }

  /** What a callback does, through RegisterEvent and UnRegisterEvent. */
  datatype Action = Register(event: nat, entry: CallbackEntry) | Unregister(entry: CallbackEntry)

  type Scripts = map<CallbackEntry, seq<Action>>

  function ScriptOf(scripts: Scripts, x: CallbackEntry): seq<Action> {
    if x in scripts then scripts[x] else []
  }

  /** The entries that a callback unregisters. */
  function RemovedBy(script: seq<Action>): set<CallbackEntry> {
    set a | a in script && a.Unregister? :: a.entry
  }

  /** The entries of `s` that are called: those that no earlier call has removed. */
  function Calls(s: seq<CallbackEntry>, removed: set<CallbackEntry>, scripts: Scripts): seq<CallbackEntry>
    decreases |s|
  {
    if s == [] then []
    else if s[0] in removed then Calls(s[1..], removed, scripts)
    else [s[0]] + Calls(s[1..], removed + RemovedBy(ScriptOf(scripts, s[0])), scripts)
  }

  /** No callback removes the entry that is due right after its own, on which the cursor already stands. */
  predicate Clear(s: seq<CallbackEntry>, removed: set<CallbackEntry>, scripts: Scripts)
    decreases |s|
  {
    s != [] ==>
      if s[0] in removed then Clear(s[1..], removed, scripts)
      else
        var gone, next := RemovedBy(ScriptOf(scripts, s[0])), Keep(s[1..], removed);
        (next != [] ==> next[0] !in gone) && Clear(s[1..], removed + gone, scripts)
  }

  lemma {:induction false} CallsKept(s: seq<CallbackEntry>, removed: set<CallbackEntry>, scripts: Scripts)
    ensures Calls(s, removed, scripts) == Calls(Keep(s, removed), removed, scripts)
    ensures Clear(s, removed, scripts) <==> Clear(Keep(s, removed), removed, scripts)
    decreases |s|
  {
    if s != [] {
      var k := Keep(s[1..], removed);
      if s[0] in removed {
        CallsKept(s[1..], removed, scripts);
        assert [] + k == k;
      } else {
        var more := removed + RemovedBy(ScriptOf(scripts, s[0]));
        assert ([s[0]] + k)[1..] == k;
        CallsKept(s[1..], more, scripts);
        CallsKept(k, more, scripts);
        KeepTwice(s[1..], removed, RemovedBy(ScriptOf(scripts, s[0])));
        KeepTwice(s[1..], removed, {});
        assert removed + {} == removed;
      }
    }
  }

  lemma KeepNone(s: seq<CallbackEntry>)
    ensures Keep(s, {}) == s
  {
    KeepAll(s, {});
  }

  lemma {:induction false} CallsAmong(s: seq<CallbackEntry>, removed: set<CallbackEntry>, scripts: Scripts, x: CallbackEntry)
    requires x in Calls(s, removed, scripts)
    ensures x in s && x !in removed
    decreases |s|
  {
    if s[0] in removed {
      CallsAmong(s[1..], removed, scripts, x);
    } else if x != s[0] {
      CallsAmong(s[1..], removed + RemovedBy(ScriptOf(scripts, s[0])), scripts, x);
    }
  }

  /** An entry is called exactly when no entry called before it removes it. */
  lemma {:induction false} CalledUnlessRemoved(s: seq<CallbackEntry>, removed: set<CallbackEntry>, scripts: Scripts, i: nat)
    requires NoRepeats(s) && i < |s|
    ensures s[i] in Calls(s, removed, scripts) <==>
      s[i] !in removed &&
      forall j :: 0 <= j < i && s[j] in Calls(s, removed, scripts) ==> Unregister(s[i]) !in ScriptOf(scripts, s[j])
    decreases |s|
  {
    var c, t := Calls(s, removed, scripts), s[1..];
    var gone := RemovedBy(ScriptOf(scripts, s[0]));
    var more := if s[0] in removed then removed else removed + gone;
    var d := Calls(t, more, scripts);
    if s[0] in d {
      CallsAmong(t, more, scripts, s[0]);
      assert false;
    }
    assert forall j :: 0 <= j < |t| ==> t[j] == s[j + 1] && (t[j] in c <==> t[j] in d);
    if i > 0 {
      CalledUnlessRemoved(t, more, scripts, i - 1);
      assert s[i] in gone <==> Unregister(s[i]) in ScriptOf(scripts, s[0]);
      assert forall j :: 1 <= j < i ==> s[j] == t[j - 1];
    }
  }

  lemma CallsLast(y: CallbackEntry, removed: set<CallbackEntry>, scripts: Scripts)
    requires y in removed
    ensures Calls([y], removed, scripts) == []
  {
    assert [y][1..] == [];
  }

  /** With two entries, the first of which removes the second, the second must not be called but is next. */
  lemma SecondRemoved(x: CallbackEntry, y: CallbackEntry)
    requires x != y
    ensures var scripts := map[x := [Unregister(y)]];
      Calls([x, y], {}, scripts) == [x] && !Clear([x, y], {}, scripts)
  {
    var scripts := map[x := [Unregister(y)]];
    assert [x, y][1..] == [y] && Unregister(y) in ScriptOf(scripts, x);
    assert y in RemovedBy(ScriptOf(scripts, x));
    KeepNone([y]);
    CallsLast(y, {y}, scripts);
    assert {} + RemovedBy(ScriptOf(scripts, x)) == {y};
  }

  function Nodes(es: seq<CallbackEntry>): (r: seq<ListNode>)
    ensures |r| == |es| && forall i :: 0 <= i < |es| ==> r[i] == es[i].node
  {
    seq(|es|, i requires 0 <= i < |es| => es[i].node)
  }

  class EventManager {
    const callbacks: seq<ListNode>
    /** The entries of each event, newest first. */
    ghost var entries: seq<seq<CallbackEntry>>
    /** All entries that were ever registered. */
    ghost var known: set<CallbackEntry>

    ghost function Links(): set<ListNode>
      reads this
    {
      (set h | h in callbacks) + (set x | x in known :: x.node)
    }

    /** Every list is a circle through its head and its entries; an entry is in at most one. */
    ghost predicate Valid()
      reads this, Links(), known
    {
      && |entries| == |callbacks| && NoRepeats(callbacks) && Sound(entries, known)
      && (forall h :: h in callbacks ==> h.container == null)
      && (forall x :: x in known ==> x.node.container == x && x.callback)
      && (forall e :: 0 <= e < |callbacks| ==> Ring(RingOf(e)))
      && (forall x :: x in known ==> (x.registered <==> InSome(entries, x)))
    }

    ghost function RingOf(e: nat): seq<ListNode>
      requires e < |entries| && e < |callbacks|
      reads this
    {
      [callbacks[e]] + Nodes(entries[e])
    }

    /** `init_event_manager`. */
    constructor (count: nat)
      ensures Valid() && |callbacks| == count && entries == seq(count, _ => []) && known == {}
      ensures fresh(Links())
    {
      var heads: seq<ListNode> := [];
      for i := 0 to count
        invariant |heads| == i && NoRepeats(heads)
        invariant forall h :: h in heads ==> fresh(h) && h.container == null && Ring([h])
      {
        var h := new ListNode();
        Init(h);
        heads := heads + [h];
      }
      callbacks := heads;
      entries := seq(count, _ => []);
      known := {};
      new;
      forall e | 0 <= e < count
        ensures Ring(RingOf(e))
      {
        assert RingOf(e) == [callbacks[e]];
      }
    }

    /** A node belongs to one list: a head to its event, another to the list of its entry. */
    lemma InRing(e: nat, n: ListNode)
      requires Valid() && e < |entries|
      ensures n in RingOf(e) <==>
        n == callbacks[e] || (n.container != null && exists x :: x in entries[e] && x.node == n && n.container == x)
    {
      var es := entries[e];
      assert forall x :: x in es ==> x in known;
      if n in Nodes(es) {
        var i :| 0 <= i < |es| && Nodes(es)[i] == n;
        assert es[i] in es && es[i].node == n;
      }
      if x :| x in es && x.node == n {
        var i :| 0 <= i < |es| && es[i] == x;
        assert Nodes(es)[i] == n;
      }
    }

    lemma Apart(e: nat, f: nat, n: ListNode)
      requires Valid() && e < |entries| && f < |entries| && e != f && n in RingOf(e)
      ensures n !in RingOf(f)
    {
      InRing(e, n);
      InRing(f, n);
    }

    /** An entry that is not registered has no place in any ring. */
    lemma NotYet(x: CallbackEntry)
      requires Valid() && x.node.container == x && !x.registered
      ensures !InSome(entries, x) && forall e :: 0 <= e < |entries| ==> x.node !in RingOf(e)
    {
      forall e | 0 <= e < |entries|
        ensures x.node !in RingOf(e)
      {
        InRing(e, x.node);
      }
    }

    lemma RingsApart(e: nat)
      requires Valid() && e < |entries|
      ensures forall f, n :: 0 <= f < |entries| && f != e && n in RingOf(f) ==> n !in RingOf(e)
      ensures forall n :: n in RingOf(e) ==> n in Links()
    {
      forall f, n | 0 <= f < |entries| && f != e && n in RingOf(f)
        ensures n !in RingOf(e)
      {
        Apart(f, e, n);
      }
      forall n | n in RingOf(e)
        ensures n in Links()
      {
        InRing(e, n);
      }
    }

    lemma FirstIn(list: ListNode, r: seq<ListNode>)
      ensures First(list, r) in [list] + r
    {
    }

    /** `events_add_entry`: the entry becomes the first of its event. */
    method AddEntry(e: nat, x: CallbackEntry)
      requires Valid() && e < |callbacks|
      requires x.callback && !x.registered && x.node.container == x
      modifies this`entries, this`known, Links()`prev, Links()`next, x.node`prev, x.node`next, x`registered
      ensures Valid() && known == old(known) + {x}
      ensures entries == Added(old(entries), e, x)
    {
      hide Ring, NoRepeats, Sound, InSome;
      ghost var was := entries;
      NotYet(x);
      RingsApart(e);
      SoundAdded(was, known, e, x);
      forall y
        ensures InSome(Added(was, e, x), y) <==> y == x || InSome(was, y)
      {
        InAdded(was, e, x, y);
      }
      assert Ring(RingOf(e));
      FirstIn(callbacks[e], Nodes(was[e]));
      ghost var touched := {callbacks[e], x.node, First(callbacks[e], Nodes(was[e]))};
      assert callbacks[e] in RingOf(e);
      assert forall f, n :: 0 <= f < |entries| && f != e && n in RingOf(f) ==> n !in touched;
      InsertHead(callbacks[e], x.node, Nodes(was[e]));
      x.registered := true;
      entries := Added(was, e, x);
      known := known + {x};
      assert [callbacks[e], x.node] + Nodes(was[e]) == RingOf(e);
      forall f | 0 <= f < |entries| && f != e
        ensures Ring(RingOf(f))
      {
        assert RingOf(f) == old(RingOf(f)) && old(Ring(RingOf(f)));
        assert forall n :: n in RingOf(f) ==> n !in touched;
        RingKept(RingOf(f));
      }
    }

    /** Where a registered entry is. */
    lemma PlaceOf(x: CallbackEntry) returns (e: nat, i: nat)
      requires Valid() && x in known && x.registered
      ensures e < |entries| && i < |entries[e]| && entries[e][i] == x
      ensures x !in entries[e][..i] && x !in entries[e][i + 1..]
      ensures var a, b := [callbacks[e]] + Nodes(entries[e][..i]), Nodes(entries[e][i + 1..]);
        RingOf(e) == a + [x.node] + b && Ring(RingOf(e))
    {
      hide Sound;
      e :| 0 <= e < |entries| && x in entries[e];
      i :| 0 <= i < |entries[e]| && entries[e][i] == x;
      assert Ring(RingOf(e));
      NodesSplit(callbacks[e], entries[e], i);
    }

    lemma LinksNonNull(r: seq<ListNode>, n: ListNode)
      requires Ring(r) && n in r
      ensures n.next != null && n.prev != null
    {
      var i :| 0 <= i < |r| && r[i] == n;
      if i > 0 {
        assert r[i - 1].next == r[Succ(i - 1, |r|)] && r[Succ(i - 1, |r|)].prev == r[i - 1];
      } else {
        RingEnds(r);
      }
    }

    /** `events_rem_entry`: exactly this entry leaves its list. */
    method RemEntry(x: CallbackEntry)
      requires Valid() && x in known && x.registered
      modifies this`entries, Links()`prev, Links()`next, x`registered
      ensures Valid() && entries == Removed(old(entries), x)
    {
      hide Ring, NoRepeats, Sound, InSome, Without, Removed, Nodes, EndsWith, Succ;
      ghost var was := entries;
      ghost var e, i := PlaceOf(x);
      ghost var l, r := was[e][..i], was[e][i + 1..];
      ghost var a, b := [callbacks[e]] + Nodes(l), Nodes(r);
      RingsApart(e);
      LinksNonNull(RingOf(e), x.node);
      assert was[e] == l + [x] + r;
      RemovedIs(was, known, e, l, x, r);
      SoundRemoved(was, known, x);
      InAllRemoved(was, known, x);
      ghost var touched := RingOf(e);
      assert forall n :: n in a || n in b || n == x.node ==> n in touched by {
        assert touched == a + [x.node] + b;
      }
      Unlink(x.node, a, b);
      x.registered := false;
      entries := Removed(was, x);
      assert RingOf(e) == a + b;
      forall f | 0 <= f < |entries| && f != e
        ensures Ring(RingOf(f))
      {
        assert RingOf(f) == old(RingOf(f)) && old(Ring(RingOf(f)));
        assert forall n :: n in RingOf(f) ==> n !in touched;
        RingKept(RingOf(f));
      }
    }

    /** An entry that callers may pass: if it is registered at all, it is registered here. */
    static ghost predicate Owns(known: set<CallbackEntry>, y: CallbackEntry)
      reads y, y.node
    {
      y.callback && y.node.container == y && (y.registered ==> y in known)
    }

    /** All that may change when entries of `pool` are registered and unregistered. */
    ghost function Footprint(pool: set<CallbackEntry>): set<ListNode> {
      (set h | h in callbacks) + (set x | x in pool :: x.node)
    }

    /** `RegisterEvent`: refused for an unknown event or an entry that is registered. */
    method RegisterEvent(e: nat, x: CallbackEntry, ghost pool: set<CallbackEntry>) returns (done: bool)
      requires Valid() && x in pool && known <= pool && forall y :: y in pool ==> Owns(known, y)
      modifies this`entries, this`known, Footprint(pool)`prev, Footprint(pool)`next, pool`registered
      ensures Valid() && known <= pool && forall y :: y in pool ==> Owns(known, y)
      ensures done <==> e < |callbacks| && !old(x.registered)
      ensures entries == if done then Added(old(entries), e, x) else old(entries)
    {
      if |callbacks| <= e { return false; }
      if x.registered { return false; }
      AddEntry(e, x);
      return true;
    }

    /** `UnRegisterEvent`. */
    method UnRegisterEvent(x: CallbackEntry, ghost pool: set<CallbackEntry>) returns (done: bool)
      requires Valid() && x in pool && known <= pool && forall y :: y in pool ==> Owns(known, y)
      modifies this`entries, Footprint(pool)`prev, Footprint(pool)`next, pool`registered
      ensures Valid() && known <= pool && (forall y :: y in pool ==> Owns(known, y)) && done
      ensures entries == if old(x.registered) then Removed(old(entries), x) else old(entries)
    {
      hide Ring, NoRepeats, Sound, Removed, Nodes;
      if !x.registered { return true; }
      var e, i := PlaceOf(x);
      LinksNonNull(RingOf(e), x.node);
      if x.node.prev == null || x.node.next == null { return false; }
      RemEntry(x);
      return true;
    }

    /** A callback: any registrations and removals; what it removes is no longer to come. */
    method RunCallback(script: seq<Action>, e: nat, ghost todo: seq<CallbackEntry>, ghost pool: set<CallbackEntry>)
      requires Valid() && known <= pool && (forall y :: y in pool ==> Owns(known, y))
      requires forall a :: a in script ==> a.entry in pool
      requires e < |callbacks| && EndsWith(entries[e], todo)
      modifies this`entries, this`known, Footprint(pool)`prev, Footprint(pool)`next, pool`registered
      ensures Valid() && known <= pool && forall y :: y in pool ==> Owns(known, y)
      ensures EndsWith(entries[e], Keep(todo, RemovedBy(script)))
    {
      hide EndsWith, Removed, Added, Keep, RemovedBy, Without;
      ghost var left := todo;
      RemovedNone(todo, script);
      for k := 0 to |script|
        invariant Valid() && known <= pool && forall y :: y in pool ==> Owns(known, y)
        invariant left == Keep(todo, RemovedBy(script[..k])) && EndsWith(entries[e], left)
      {
        ghost var was := entries;
        var done;
        assert script[k] in script;
        RemovedNext(todo, script, k);
        match script[k] {
          case Register(f, x) =>
            done := RegisterEvent(f, x, pool);
            if done { StillEnds(was, f, x, e, left); }
          case Unregister(x) =>
            NotListed(x, e, left);
            done := UnRegisterEvent(x, pool);
            StillEndsWithout(was, x, e, left);
            left := Without(left, x);
        }
      }
      assert script[..|script|] == script;
    }

    /** An entry that is not registered is not to come. */
    lemma NotListed(x: CallbackEntry, e: nat, left: seq<CallbackEntry>)
      requires Valid() && e < |entries| && EndsWith(entries[e], left)
      ensures !x.registered ==> Without(left, x) == left
    {
      if !x.registered {
        assert x !in entries[e];
        WithoutAbsent(left, x);
      }
    }

    /**
      `broadcast_event`: the entries registered at the start are called, newest first,
      without those that were removed before their turn.  That holds exactly when no
      callback removes the entry under the cursor: the loop calls that one all the same.
      What it does after such a call depends on the build, and the method ends there.
    */
    method Broadcast(e: nat, scripts: Scripts, ghost pool: set<CallbackEntry>)
      returns (clear: bool, ghost called: seq<CallbackEntry>)
      requires Valid() && e < |callbacks| && known <= pool && (forall y :: y in pool ==> Owns(known, y))
      requires forall c, a :: c in scripts && a in scripts[c] ==> a.entry in pool
      modifies this`entries, this`known, Footprint(pool)`prev, Footprint(pool)`next, pool`registered
      ensures Valid() && known <= pool && forall y :: y in pool ==> Owns(known, y)
      ensures clear <==> Clear(old(entries[e]), {}, scripts)
      ensures called == Calls(old(entries[e]), {}, scripts) <==> clear
      ensures !clear ==> called != [] && called[|called| - 1] !in Calls(old(entries[e]), {}, scripts)
    {
      hide EndsWith, Ring, NoRepeats, Sound, InSome, Nodes, First, Calls, Clear, Keep, RemovedBy;
      ghost var all := entries[e];
      ghost var todo, removed := all, {};
      called := [];
      EndsAll(all);
      KeepNone(all);
      var it := callbacks[e].next;
      FirstLink(e, all);
      while it != callbacks[e]
        invariant Valid() && known <= pool && forall y :: y in pool ==> Owns(known, y)
        invariant EndsWith(entries[e], todo) && Keep(todo, removed) == todo
        invariant CallsSplit(all, called, todo, removed, scripts)
        invariant it == First(callbacks[e], Nodes(todo))
        decreases |todo|
      {
        HeadApart(e, todo);
        var entry := it.container as CallbackEntry;
        assert entry == todo[0];
        NextLink(e, todo);
        it := it.next;
        ghost var rest := todo[1..];
        EndsTail(entries[e], todo);
        HeadApart(e, rest);
        TodoDistinct(e, todo);
        var script := ScriptOf(scripts, entry);
        CallStep(all, called, todo, removed, scripts);
        called := called + [entry];
        if entry.callback {
          RunCallback(script, e, rest, pool);
        }
        if it != callbacks[e] {
          var next := it.container as CallbackEntry;
          UnregisterIs(script, next);
          if Unregister(next) in script {
            called := called + [next];
            return false, called;
          }
        }
        todo, removed := Keep(rest, RemovedBy(script)), removed + RemovedBy(script);
        FirstKept(callbacks[e], rest, RemovedBy(script));
      }
      NoneLeft(e, todo);
      CallsEnd(removed, scripts);
      assert called + [] == called;
      return true, called;
    }

    lemma FirstLink(e: nat, all: seq<CallbackEntry>)
      requires Valid() && e < |callbacks| && all == entries[e]
      ensures callbacks[e].next == First(callbacks[e], Nodes(all))
    {
      assert Ring(RingOf(e));
      RingEnds(RingOf(e));
    }

    /** The cursor stands on the first entry still to be called. */
    lemma HeadApart(e: nat, todo: seq<CallbackEntry>)
      requires Valid() && e < |callbacks| && EndsWith(entries[e], todo)
      ensures First(callbacks[e], Nodes(todo)) == callbacks[e] <==> todo == []
      ensures todo != [] ==> todo[0] in known && First(callbacks[e], Nodes(todo)) == todo[0].node
    {
      if todo != [] {
        assert todo[0] == entries[e][|entries[e]| - |todo|];
        assert todo[0] in entries[e];
      }
    }

    lemma TodoDistinct(e: nat, todo: seq<CallbackEntry>)
      requires Valid() && e < |callbacks| && EndsWith(entries[e], todo)
      ensures NoRepeats(todo)
    {
      var r, k := RingOf(e), 1 + |entries[e]| - |todo|;
      assert Ring(r);
      forall i, j | 0 <= i < j < |todo|
        ensures todo[i] != todo[j]
      {
        assert r[k + i] == entries[e][k - 1 + i].node && r[k + j] == entries[e][k - 1 + j].node;
      }
    }

    lemma NoneLeft(e: nat, todo: seq<CallbackEntry>)
      requires Valid() && e < |callbacks| && EndsWith(entries[e], todo)
      requires First(callbacks[e], Nodes(todo)) == callbacks[e]
      ensures todo == []
    {
      HeadApart(e, todo);
    }

    lemma NextLink(e: nat, todo: seq<CallbackEntry>)
      requires Valid() && e < |callbacks| && EndsWith(entries[e], todo) && todo != []
      ensures todo[0].node.next == First(callbacks[e], Nodes(todo[1..]))
    {
      var r, k := RingOf(e), 1 + |entries[e]| - |todo|;
      assert Ring(r);
      assert todo[0] == entries[e][k - 1] && r[k] == todo[0].node;
      assert r[k].next == r[Succ(k, |r|)];
      if |todo| > 1 {
        assert todo[1] == entries[e][k] && r[k + 1] == todo[1].node;
      }
    }
  }

  lemma StillEnds(was: seq<seq<CallbackEntry>>, f: nat, x: CallbackEntry, e: nat, todo: seq<CallbackEntry>)
    requires f < |was| && e < |was| && EndsWith(was[e], todo)
    ensures EndsWith(Added(was, f, x)[e], todo)
  {
    EndsWithMore(x, was[e], todo);
  }

  lemma StillEndsWithout(was: seq<seq<CallbackEntry>>, x: CallbackEntry, e: nat, todo: seq<CallbackEntry>)
    requires e < |was| && EndsWith(was[e], todo)
    ensures EndsWith(Removed(was, x)[e], Without(todo, x))
  {
    EndsWithout(was[e], todo, x);
  }

  lemma EndsAll(s: seq<CallbackEntry>)
    ensures EndsWith(s, s)
  {
  }

  lemma EndsTail(s: seq<CallbackEntry>, todo: seq<CallbackEntry>)
    requires EndsWith(s, todo) && todo != []
    ensures EndsWith(s, todo[1..])
  {
    assert s[|s| - |todo|..][1..] == s[|s| - |todo| + 1..];
  }

  lemma RemovedNone(todo: seq<CallbackEntry>, script: seq<Action>)
    ensures Keep(todo, RemovedBy(script[..0])) == todo
  {
    KeepNone(todo);
    assert RemovedBy(script[..0]) == {};
  }

  lemma RemovedNext(todo: seq<CallbackEntry>, script: seq<Action>, k: nat)
    requires k < |script|
    ensures var left := Keep(todo, RemovedBy(script[..k]));
      Keep(todo, RemovedBy(script[..k + 1])) ==
        if script[k].Unregister? then Without(left, script[k].entry) else left
  {
    var a, r := script[k], RemovedBy(script[..k]);
    assert script[..k + 1] == script[..k] + [a];
    if a.Unregister? {
      assert RemovedBy(script[..k + 1]) == r + {a.entry} by {
        assert a in script[..k + 1];
      }
      KeepWithout(todo, r, a.entry);
    } else {
      assert RemovedBy(script[..k + 1]) == r;
    }
  }

  lemma UnregisterIs(script: seq<Action>, x: CallbackEntry)
    ensures Unregister(x) in script <==> x in RemovedBy(script)
  {
  }

  /** The calls made and the calls to come make up the whole, and so does what is clear. */
  ghost predicate CallsSplit(all: seq<CallbackEntry>, called: seq<CallbackEntry>, todo: seq<CallbackEntry>,
                             removed: set<CallbackEntry>, scripts: Scripts) {
    && Calls(all, {}, scripts) == called + Calls(todo, removed, scripts)
    && (Clear(all, {}, scripts) <==> Clear(todo, removed, scripts))
    && forall x :: x in called ==> x !in todo
  }

  lemma CallStep(all: seq<CallbackEntry>, called: seq<CallbackEntry>, todo: seq<CallbackEntry>,
                 removed: set<CallbackEntry>, scripts: Scripts)
    requires CallsSplit(all, called, todo, removed, scripts)
    requires todo != [] && NoRepeats(todo) && Keep(todo, removed) == todo
    ensures var x, rest, gone := todo[0], todo[1..], RemovedBy(ScriptOf(scripts, todo[0]));
      (rest == [] || rest[0] !in gone) ==>
        && CallsSplit(all, called + [x], Keep(rest, gone), removed + gone, scripts)
        && Keep(Keep(rest, gone), removed + gone) == Keep(rest, gone)
    ensures var x, rest, gone := todo[0], todo[1..], RemovedBy(ScriptOf(scripts, todo[0]));
      rest != [] && rest[0] in gone ==>
        !Clear(all, {}, scripts) && rest[0] !in Calls(all, {}, scripts)
  {
    hide RemovedBy, ScriptOf, Keep, Calls, Clear;
    var x, rest, gone := todo[0], todo[1..], RemovedBy(ScriptOf(scripts, todo[0]));
    KeepIn(todo, removed, x);
    KeptRest(called, todo, removed, gone);
    CallsFirst(todo, removed, scripts);
    assert called + ([x] + Calls(rest, removed + gone, scripts)) == (called + [x]) + Calls(rest, removed + gone, scripts);
    if rest != [] && rest[0] in gone {
      if rest[0] in Calls(rest, removed + gone, scripts) {
        CallsAmong(rest, removed + gone, scripts, rest[0]);
        assert false;
      }
    }
  }

  /** What is left to call is what the removals leave of it. */
  lemma KeptRest(called: seq<CallbackEntry>, todo: seq<CallbackEntry>, removed: set<CallbackEntry>, gone: set<CallbackEntry>)
    requires todo != [] && NoRepeats(todo) && Keep(todo, removed) == todo
    requires forall y :: y in called ==> y !in todo
    ensures Keep(Keep(todo[1..], gone), removed + gone) == Keep(todo[1..], gone)
    ensures forall y :: y in called + [todo[0]] ==> y !in Keep(todo[1..], gone)
  {
    hide Keep;
    var rest := todo[1..];
    forall y | y in Keep(rest, gone)
      ensures y in rest && y !in removed + gone
    {
      KeepIn(rest, gone, y);
      KeepIn(todo, removed, y);
    }
    KeepAll(Keep(rest, gone), removed + gone);
  }

  /** The calls from the first entry on, when none of those left has been removed before. */
  lemma CallsFirst(todo: seq<CallbackEntry>, removed: set<CallbackEntry>, scripts: Scripts)
    requires todo != [] && Keep(todo, removed) == todo
    ensures var rest, gone := todo[1..], RemovedBy(ScriptOf(scripts, todo[0]));
      && Calls(todo, removed, scripts) == [todo[0]] + Calls(rest, removed + gone, scripts)
      && Calls(rest, removed + gone, scripts) == Calls(Keep(rest, gone), removed + gone, scripts)
      && (Clear(todo, removed, scripts) <==>
        (rest == [] || rest[0] !in gone) && Clear(Keep(rest, gone), removed + gone, scripts))
  {
    hide RemovedBy, ScriptOf, Keep;
    var rest, gone := todo[1..], RemovedBy(ScriptOf(scripts, todo[0]));
    forall y | y in todo
      ensures y !in removed
    {
      KeepIn(todo, removed, y);
    }
    KeepAll(rest, removed);
    KeepMore(rest, removed, gone);
    CallsKept(rest, removed + gone, scripts);
  }

  lemma CallsEnd(removed: set<CallbackEntry>, scripts: Scripts)
    ensures Calls([], removed, scripts) == [] && Clear([], removed, scripts)
  {
  }

  /** The cursor stays on the first of the rest when that one is kept. */
  lemma FirstKept(head: ListNode, rest: seq<CallbackEntry>, gone: set<CallbackEntry>)
    requires rest != [] ==> rest[0] !in gone
    ensures First(head, Nodes(Keep(rest, gone))) == First(head, Nodes(rest))
    ensures |Keep(rest, gone)| <= |rest|
  {
  }

  lemma NodesSplit(h: ListNode, es: seq<CallbackEntry>, i: nat)
    requires i < |es| && NoRepeats([h] + Nodes(es))
    ensures [h] + Nodes(es) == [h] + Nodes(es[..i]) + [es[i].node] + Nodes(es[i + 1..])
    ensures es[i] !in es[..i] && es[i] !in es[i + 1..]
  {
    var r := [h] + Nodes(es);
    forall j | 0 <= j < |es| && j != i
      ensures es[j] != es[i]
    {
      assert r[1 + j] == es[j].node && r[1 + i] == es[i].node;
    }
  }

  lemma InAllRemoved(lists: seq<seq<CallbackEntry>>, known: set<CallbackEntry>, x: CallbackEntry)
    ensures forall y :: y in known ==> (InSome(Removed(lists, x), y) <==> y != x && InSome(lists, y))
  {
    forall y | y in known
      ensures InSome(Removed(lists, x), y) <==> y != x && InSome(lists, y)
    {
      InRemoved(lists, x, y);
    }
  }

  /** Removal from a ring, with the links of the node cleared as in a debug build. */
  method Unlink(node: ListNode, ghost a: seq<ListNode>, ghost b: seq<ListNode>)
    requires a != [] && Ring(a + [node] + b) && node.next != null && node.prev != null
    modifies a`prev, a`next, b`prev, b`next, node`prev, node`next
    ensures Ring(a + b)
  {
    OnceRemoved(a, node, b);
    Remove(node, a, b);
    node.next := null;
    node.prev := null;
  }
}
