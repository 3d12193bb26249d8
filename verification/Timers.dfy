/**
  The timer queue of code/common/timer.c.  First the queue as a value: entries
  sorted by deadline, equal deadlines in the order they were armed, and what one
  pass over the due timers does to it.  Then the queue on the red-black tree.
*/
module TimerSpec {
  import opened RbNodes
  import opened RbShape

  const WRAP64: nat := 0x1_0000_0000_0000_0000

  /** What a handler may do to the queue; `clock` is the reading of the clock at that moment. */
  datatype Action = Arm(node: RbNode, clock: nat, timeout: nat) | DisarmIfSet(node: RbNode)

  function Deadline(clock: nat, timeout: nat): nat {
    (clock + timeout) % WRAP64
  }

  function Armed(q: seq<Entry>, node: RbNode, key: nat): seq<Entry> {
    InsertEntry(RemoveNode(q, node), Entry(key, node))
  }

  function Act(q: seq<Entry>, a: Action): seq<Entry> {
    match a
    case Arm(node, clock, timeout) => Armed(q, node, Deadline(clock, timeout))
    case DisarmIfSet(node) => RemoveNode(q, node)
  }

  function Acts(q: seq<Entry>, acts: seq<Action>): seq<Entry>
    decreases |acts|
  {
    if acts == [] then q else Acts(Act(q, acts[0]), acts[1..])
  }

  /** No action sets a deadline that `now` has already reached. */
  predicate IntoFuture(acts: seq<Action>, now: nat) {
    forall i :: 0 <= i < |acts| && acts[i].Arm? ==> now < Deadline(acts[i].clock, acts[i].timeout)
  }

  ghost predicate AllIntoFuture(script: nat -> seq<Action>, now: nat) {
    forall k: nat :: IntoFuture(script(k), now)
  }

  /** The leading entries whose deadline `now` has reached; of a sorted queue, all of them. */
  function Due(q: seq<Entry>, now: nat): seq<Entry> {
    if q == [] || now < q[0].key then [] else [q[0]] + Due(q[1..], now)
  }

  datatype Outcome = Outcome(fired: seq<RbNode>, queue: seq<Entry>)

  /** One pass of process_timers: the k-th handler called in the pass performs `script(k)`. */
  ghost function Pass(q: seq<Entry>, now: nat, script: nat -> seq<Action>, k: nat): Outcome
    requires Sorted(q) && AllIntoFuture(script, now)
    decreases |Due(q, now)|
  {
    if q == [] || now < q[0].key then Outcome([], q)
    else
      assert IntoFuture(script(k), now);
      ActsDue(q[1..], now, script(k));
      PruneShrinks(Due(q[1..], now), script(k));
      var rest := Pass(Acts(q[1..], script(k)), now, script, k + 1);
      Outcome([q[0].node] + rest.fired, rest.queue)
  }

  /** Entries whose timer none of the actions names. */
  function Prune(s: seq<Entry>, acts: seq<Action>): seq<Entry>
    decreases |acts|
  {
    if acts == [] then s else Prune(RemoveNode(s, acts[0].node), acts[1..])
  }

  /** Who fires: each due timer in turn, unless an earlier handler re-armed or disarmed it. */
  function Survivors(due: seq<Entry>, script: nat -> seq<Action>, k: nat): seq<RbNode>
    decreases |due|
  {
    if due == [] then []
    else
      PruneShrinks(due[1..], script(k));
      [due[0].node] + Survivors(Prune(due[1..], script(k)), script, k + 1)
  }

  lemma {:induction false} RemoveNodeShrinks(s: seq<Entry>, n: RbNode)
    ensures |RemoveNode(s, n)| <= |s|
  {
    if s != [] && s[0].node != n {
      RemoveNodeShrinks(s[1..], n);
    }
  }

  lemma {:induction false} PruneShrinks(s: seq<Entry>, acts: seq<Action>)
    ensures |Prune(s, acts)| <= |s|
    decreases |acts|
  {
    if acts != [] {
      RemoveNodeShrinks(s, acts[0].node);
      PruneShrinks(RemoveNode(s, acts[0].node), acts[1..]);
    }
  }

  lemma {:induction false} RemoveNodeKeys(q: seq<Entry>, n: RbNode, lo: nat)
    requires forall i :: 0 <= i < |q| ==> lo <= q[i].key
    ensures forall i :: 0 <= i < |RemoveNode(q, n)| ==> lo <= RemoveNode(q, n)[i].key
  {
    if q != [] && q[0].node != n {
      RemoveNodeKeys(q[1..], n, lo);
    }
  }

  lemma {:induction false} InsertEntryKeys(q: seq<Entry>, e: Entry, lo: nat)
    requires lo <= e.key && forall i :: 0 <= i < |q| ==> lo <= q[i].key
    ensures forall i :: 0 <= i < |InsertEntry(q, e)| ==> lo <= InsertEntry(q, e)[i].key
  {
    if q != [] && e.key >= q[0].key {
      InsertEntryKeys(q[1..], e, lo);
    }
  }

  lemma {:induction false} RemoveDue(q: seq<Entry>, n: RbNode, now: nat)
    requires Sorted(q)
    ensures Due(RemoveNode(q, n), now) == RemoveNode(Due(q, now), n)
    ensures Sorted(RemoveNode(q, n))
  {
    if q != [] && q[0].node != n {
      RemoveDue(q[1..], n, now);
      RemoveNodeKeys(q[1..], n, q[0].key);
    }
  }

  lemma {:induction false} InsertDue(q: seq<Entry>, e: Entry, now: nat)
    requires Sorted(q)
    ensures Sorted(InsertEntry(q, e))
    ensures now < e.key ==> Due(InsertEntry(q, e), now) == Due(q, now)
  {
    if q != [] && e.key >= q[0].key {
      InsertDue(q[1..], e, now);
      InsertEntryKeys(q[1..], e, q[0].key);
    }
  }

  /** Actions into the future only take entries out of the due part of the queue. */
  lemma {:induction false} ActsDue(q: seq<Entry>, now: nat, acts: seq<Action>)
    requires Sorted(q) && IntoFuture(acts, now)
    ensures Sorted(Acts(q, acts)) && Due(Acts(q, acts), now) == Prune(Due(q, now), acts)
    decreases |acts|
  {
    if acts != [] {
      var a := acts[0];
      RemoveDue(q, a.node, now);
      if a.Arm? {
        InsertDue(RemoveNode(q, a.node), Entry(Deadline(a.clock, a.timeout), a.node), now);
      }
      assert IntoFuture(acts[1..], now);
      ActsDue(Act(q, a), now, acts[1..]);
    }
  }

  /** Whatever the handlers arm into the future, those who fire are exactly the survivors of the due timers. */
  lemma {:induction false} PassFires(q: seq<Entry>, now: nat, script: nat -> seq<Action>, k: nat)
    requires Sorted(q) && AllIntoFuture(script, now)
    ensures Pass(q, now, script, k).fired == Survivors(Due(q, now), script, k)
    ensures Sorted(Pass(q, now, script, k).queue) && Due(Pass(q, now, script, k).queue, now) == []
    decreases |Due(q, now)|
  {
    if q != [] && q[0].key <= now {
      assert IntoFuture(script(k), now);
      ActsDue(q[1..], now, script(k));
      PruneShrinks(Due(q[1..], now), script(k));
      PassFires(Acts(q[1..], script(k)), now, script, k + 1);
    }
  }

  /** One round: the first entry is due and leaves, then its handler acts. */
  predicate IsRound(q: seq<Entry>, q': seq<Entry>, n: RbNode, now: nat, acts: seq<Action>) {
    q != [] && q[0].key <= now && q[0].node == n && q' == Acts(q[1..], acts)
  }

  predicate Rounds(qs: seq<seq<Entry>>, fired: seq<RbNode>, now: nat, script: nat -> seq<Action>)
    requires |qs| == |fired| + 1
  {
    forall i :: 0 <= i < |fired| ==> IsRound(qs[i], qs[i + 1], fired[i], now, script(i))
  }

  lemma RoundShrinks(q: seq<Entry>, q': seq<Entry>, now: nat, script: nat -> seq<Action>, k: nat)
    requires Sorted(q) && AllIntoFuture(script, now) && q != [] && IsRound(q, q', q[0].node, now, script(k))
    ensures Sorted(q') && |Due(q', now)| < |Due(q, now)|
  {
    assert IntoFuture(script(k), now);
    ActsDue(q[1..], now, script(k));
    PruneShrinks(Due(q[1..], now), script(k));
  }

  /** A run of rounds that ends with nothing due is one pass. */
  lemma {:induction false} RoundsPass(qs: seq<seq<Entry>>, fired: seq<RbNode>, now: nat, script: nat -> seq<Action>, k: nat)
    requires |qs| == |fired| + 1 && k <= |fired| && Sorted(qs[k]) && AllIntoFuture(script, now)
    requires Rounds(qs, fired, now, script)
    requires var last := qs[|fired|]; last == [] || now < last[0].key
    ensures Pass(qs[k], now, script, k) == Outcome(fired[k..], qs[|fired|])
    decreases |fired| - k
  {
    if k < |fired| {
      assert IsRound(qs[k], qs[k + 1], fired[k], now, script(k));
      RoundShrinks(qs[k], qs[k + 1], now, script, k);
      RoundsPass(qs, fired, now, script, k + 1);
      assert fired[k..] == [fired[k]] + fired[k + 1..];
    }
  }

  /** No handler of the pass names a timer that is due at its start. */
  ghost predicate LeavesDueAlone(due: seq<Entry>, script: nat -> seq<Action>) {
    forall k: nat, i, j :: 0 <= i < |script(k)| && 0 <= j < |due| ==> script(k)[i].node != due[j].node
  }

  lemma {:induction false} RemoveAbsent(s: seq<Entry>, n: RbNode)
    requires forall j :: 0 <= j < |s| ==> s[j].node != n
    ensures RemoveNode(s, n) == s
  {
    if s != [] {
      RemoveAbsent(s[1..], n);
    }
  }

  lemma {:induction false} PruneAbsent(s: seq<Entry>, acts: seq<Action>)
    requires forall i, j :: 0 <= i < |acts| && 0 <= j < |s| ==> acts[i].node != s[j].node
    ensures Prune(s, acts) == s
    decreases |acts|
  {
    if acts != [] {
      RemoveAbsent(s, acts[0].node);
      PruneAbsent(s, acts[1..]);
    }
  }

  lemma {:induction false} AllSurvive(due: seq<Entry>, script: nat -> seq<Action>, k: nat)
    requires LeavesDueAlone(due, script)
    ensures Survivors(due, script, k) == Names(due)
    decreases |due|
  {
    if due != [] {
      PruneAbsent(due[1..], script(k));
      AllSurvive(due[1..], script, k + 1);
    }
  }

  /**
    One pass fires exactly the timers whose deadline has been reached, each once,
    in the order of deadline and arming, when handlers leave those timers alone.
  */
  lemma PassFiresExactlyDue(q: seq<Entry>, now: nat, script: nat -> seq<Action>)
    requires Sorted(q) && AllIntoFuture(script, now) && LeavesDueAlone(Due(q, now), script)
    ensures Pass(q, now, script, 0).fired == Names(Due(q, now))
  {
    PassFires(q, now, script, 0);
    AllSurvive(Due(q, now), script, 0);
  }

  /** `Due` is the set of reached deadlines, not only a prefix: nothing behind it is due. */
  lemma {:induction false} DueIsExact(q: seq<Entry>, now: nat)
    requires Sorted(q)
    ensures var d := Due(q, now);
      && |d| <= |q| && d == q[..|d|]
      && (forall i :: 0 <= i < |d| ==> q[i].key <= now)
      && (forall i :: |d| <= i < |q| ==> now < q[i].key)
  {
    if q != [] && q[0].key <= now {
      DueIsExact(q[1..], now);
    }
  }

  // ---------- Which due timers fire ----------

  /** One of the actions disarms or re-arms the timer of this node. */
  predicate Touches(acts: seq<Action>, n: RbNode) {
    exists i :: 0 <= i < |acts| && acts[i].node == n
  }

  /** None of the `m` handlers called from the `k`-th on touches the timer of this node. */
  ghost predicate Untouched(script: nat -> seq<Action>, k: nat, m: nat, n: RbNode) {
    forall j: nat :: k <= j < k + m ==> !Touches(script(j), n)
  }

  lemma {:induction false} RemoveKeeps(s: seq<Entry>, n: RbNode)
    ensures forall e :: e in RemoveNode(s, n) ==> e in s
  {
    if s != [] && s[0].node != n {
      RemoveKeeps(s[1..], n);
    }
  }

  lemma RepeatsTail(s: seq<Entry>)
    requires s != [] && NoRepeats(s)
    ensures NoRepeats(s[1..]) && forall e :: e in s[1..] ==> e.node != s[0].node
  {
  }

  lemma RepeatsCons(x: Entry, s: seq<Entry>)
    requires NoRepeats(s) && forall e :: e in s ==> e.node != x.node
    ensures NoRepeats([x] + s)
  {
  }

  /** Removal from a queue without repeated nodes, as its last entry sees it. */
  lemma {:induction false} RemoveLast(s: seq<Entry>, x: Entry, n: RbNode)
    requires NoRepeats(s + [x])
    ensures RemoveNode(s + [x], n) == RemoveNode(s, n) + if n == x.node then [] else [x]
    ensures NoRepeats(RemoveNode(s, n) + [x])
  {
    hide NoRepeats;
    var all := s + [x];
    if s == [] {
      assert all[1..] == [] && [] + [x] == [x];
    } else {
      assert all[1..] == s[1..] + [x] && all[0] == s[0];
      RepeatsTail(all);
      assert x in all[1..];
      if s[0].node != n {
        RemoveLast(s[1..], x, n);
        RemoveKeeps(s[1..], n);
        RepeatsCons(s[0], RemoveNode(s[1..], n) + [x]);
        assert RemoveNode(s, n) + [x] == [s[0]] + (RemoveNode(s[1..], n) + [x]);
      }
    }
  }

  lemma TouchesFirst(acts: seq<Action>, n: RbNode)
    requires acts != []
    ensures Touches(acts, n) <==> acts[0].node == n || Touches(acts[1..], n)
  {
    if Touches(acts, n) && acts[0].node != n {
      var i :| 0 <= i < |acts| && acts[i].node == n;
      assert acts[1..][i - 1] == acts[i];
    }
  }

  /** Pruning takes the last entry out exactly when an action touches it. */
  lemma {:induction false} PruneLast(s: seq<Entry>, x: Entry, acts: seq<Action>)
    requires NoRepeats(s + [x])
    ensures Prune(s + [x], acts) == Prune(s, acts) + if Touches(acts, x.node) then [] else [x]
    ensures NoRepeats(Prune(s, acts) + [x])
    decreases |acts|
  {
    hide RemoveNode, Touches;
    if acts == [] {
      NotTouched(x.node);
    } else {
      var n := acts[0].node;
      RemoveLast(s, x, n);
      PruneLast(RemoveNode(s, n), x, acts[1..]);
      TouchesFirst(acts, x.node);
      if n == x.node {
        assert RemoveNode(s, n) + [] == RemoveNode(s, n);
        assert Prune(s, acts) + [] == Prune(s, acts);
      }
    }
  }

  lemma NotTouched(n: RbNode)
    ensures !Touches([], n)
  {
  }

  /** The last of the due timers fires, behind all others that do, exactly when no handler called before touches it. */
  lemma {:induction false} LastFires(s: seq<Entry>, x: Entry, script: nat -> seq<Action>, k: nat)
    requires NoRepeats(s + [x])
    ensures var before := Survivors(s, script, k);
      Survivors(s + [x], script, k) == before + if Untouched(script, k, |before|, x.node) then [x.node] else []
    decreases |s|
  {
    hide Prune, Touches;
    var all := s + [x];
    if s == [] {
      PruneNone(script(k));
    } else {
      assert all[1..] == s[1..] + [x] && all[0] == s[0];
      PruneLast(s[1..], x, script(k));
      var p := Prune(s[1..], script(k));
      PruneShrinks(s[1..], script(k));
      LastFires(p, x, script, k + 1);
      var later := Survivors(p, script, k + 1);
      assert Survivors(s, script, k) == [s[0].node] + later;
      assert Untouched(script, k, |later| + 1, x.node) <==>
        !Touches(script(k), x.node) && Untouched(script, k + 1, |later|, x.node);
      assert p + [] == p;
    }
  }

  lemma {:induction false} PruneNone(acts: seq<Action>)
    ensures Prune([], acts) == []
    decreases |acts|
  {
    if acts != [] {
      PruneNone(acts[1..]);
    }
  }

  /** Only due timers fire. */
  lemma {:induction false} SurvivorsDue(due: seq<Entry>, script: nat -> seq<Action>, k: nat)
    ensures forall n :: n in Survivors(due, script, k) ==> n in Names(due)
    decreases |due|
  {
    hide Prune;
    if due != [] {
      var p := Prune(due[1..], script(k));
      PruneShrinks(due[1..], script(k));
      PruneKeeps(due[1..], script(k));
      SurvivorsDue(p, script, k + 1);
      forall n | n in Survivors(p, script, k + 1)
        ensures n in Names(due)
      {
        var i :| 0 <= i < |p| && Names(p)[i] == n;
        assert p[i] in due[1..];
        var j :| 0 <= j < |due[1..]| && due[1..][j] == p[i];
        assert Names(due)[j + 1] == n;
      }
      assert Names(due)[0] == due[0].node;
    }
  }

  lemma {:induction false} PruneKeeps(s: seq<Entry>, acts: seq<Action>)
    ensures forall e :: e in Prune(s, acts) ==> e in s
    decreases |acts|
  {
    if acts != [] {
      PruneKeeps(RemoveNode(s, acts[0].node), acts[1..]);
      RemoveKeeps(s, acts[0].node);
    }
  }

  /** Those that fire among the first `i` do so first; whoever fires after them stands behind them. */
  lemma {:induction false} FiresInOrder(due: seq<Entry>, i: nat, script: nat -> seq<Action>, k: nat) returns (later: seq<RbNode>)
    requires NoRepeats(due) && i <= |due|
    ensures Survivors(due, script, k) == Survivors(due[..i], script, k) + later
    ensures forall n :: n in later ==> n in Names(due[i..])
    decreases |due| - i
  {
    hide Survivors, Untouched;
    if i == |due| {
      assert due[..i] == due;
      later := [];
    } else {
      var x, before := due[i], Survivors(due[..i], script, k);
      assert due[..i + 1] == due[..i] + [x];
      LastFires(due[..i], x, script, k);
      var more := FiresInOrder(due, i + 1, script, k);
      later := (if Untouched(script, k, |before|, x.node) then [x.node] else []) + more;
      assert due[i..] == [x] + due[i + 1..];
      NamesCons(x, due[i + 1..]);
    }
  }

  lemma NamesCons(x: Entry, s: seq<Entry>)
    ensures Names([x] + s) == [x.node] + Names(s)
  {
    assert ([x] + s)[1..] == s;
  }

  lemma NamesApart(due: seq<Entry>, i: nat)
    requires NoRepeats(due) && i < |due|
    ensures forall n :: n in Names(due[..i]) ==> n !in Names(due[i..])
    ensures due[i].node !in Names(due[i + 1..]) && due[i].node in Names(due[i..])
  {
    assert Names(due[i..])[0] == due[i].node;
  }

  /**
    A due timer fires exactly when none of the handlers called before its turn touches
    it: they are as many as fire among the due timers in front of it.
  */
  lemma SurvivesUntouched(due: seq<Entry>, i: nat, script: nat -> seq<Action>, k: nat)
    requires NoRepeats(due) && i < |due|
    ensures due[i].node in Survivors(due, script, k) <==>
      forall j: nat :: k <= j < k + |Survivors(due[..i], script, k)| ==> !Touches(script(j), due[i].node)
  {
    hide Survivors, Touches, Names;
    var x, before := due[i], Survivors(due[..i], script, k);
    assert due[..i + 1] == due[..i] + [x];
    LastFires(due[..i], x, script, k);
    var later := FiresInOrder(due, i + 1, script, k);
    SurvivorsDue(due[..i], script, k);
    NamesApart(due, i);
  }

  /**
    In one pass a due timer fires exactly when no due timer in front of it that fires
    has a handler that touches it.
  */
  lemma FiresUnlessTouched(q: seq<Entry>, now: nat, script: nat -> seq<Action>, i: nat)
    requires Sorted(q) && NoRepeats(q) && AllIntoFuture(script, now) && i < |q| && q[i].key <= now
    ensures var fired := Pass(q, now, script, 0).fired;
      q[i].node in fired <==>
      forall j :: 0 <= j < |fired| && fired[j] in Names(q[..i]) ==> !Touches(script(j), q[i].node)
  {
    hide Survivors, Touches, Names, Due, Pass, Sorted;
    var due, fired := Due(q, now), Pass(q, now, script, 0).fired;
    DueIsExact(q, now);
    PassFires(q, now, script, 0);
    assert due[..i] == q[..i] && due[i] == q[i];
    var before := Survivors(due[..i], script, 0);
    var later := FiresInOrder(due, i, script, 0);
    SurvivorsDue(due[..i], script, 0);
    SurvivesUntouched(due, i, script, 0);
    NamesApart(due, i);
    forall j | 0 <= j < |fired|
      ensures j < |before| <==> fired[j] in Names(q[..i])
    {
      if j < |before| {
        assert fired[j] == before[j];
      } else {
        assert fired[j] == later[j - |before|];
      }
    }
  }

  // ---------- When an armed timer is due ----------

  lemma {:induction false} RemoveGone(s: seq<Entry>, n: RbNode)
    requires NoRepeats(s)
    ensures forall e :: e in RemoveNode(s, n) ==> e.node != n
  {
    if s != [] {
      RepeatsTail(s);
      RemoveGone(s[1..], n);
    }
  }

  /** An entry that goes in can be taken out again, and nothing else has moved. */
  lemma {:induction false} EnteredBack(s: seq<Entry>, e: Entry)
    requires forall x :: x in s ==> x.node != e.node
    ensures RemoveNode(InsertEntry(s, e), e.node) == s && e in InsertEntry(s, e)
  {
    if s == [] || e.key < s[0].key {
      assert ([e] + s)[1..] == s;
    } else {
      EnteredBack(s[1..], e);
      assert s[0] in s;
    }
  }

  /** A timer is due exactly from its deadline on. */
  lemma DueAt(q: seq<Entry>, key: nat, n: RbNode)
    requires Sorted(q) && NoRepeats(q) && Entry(key, n) in q
    ensures forall now: nat :: n in Names(Due(q, now)) <==> key <= now
  {
    hide Due;
    forall now: nat
      ensures n in Names(Due(q, now)) <==> key <= now
    {
      DueIsExact(q, now);
      var d := Due(q, now);
      var i :| 0 <= i < |q| && q[i] == Entry(key, n);
      if key <= now {
        assert Names(d)[i] == n;
      } else {
        assert forall j :: 0 <= j < |d| ==> j < i && Names(d)[j] == q[j].node;
      }
    }
  }
}

module Timers {
  import opened RbNodes
  import opened RbShape
  import opened RbTrees
  import opened TimerSpec

  /** `struct timer`: the node it embeds, and the flag that says it is armed. */
  class Timer {
    const rbnode: RbNode
    var timerSet: bool

    constructor ()
      ensures fresh(rbnode) && rbnode.container == this && !timerSet
    {
      rbnode := new RbNode();
      timerSet := false;
      new;
      rbnode.container := this;
    }
  }

  /** The file's two static variables, with the timers that were ever handed to it. */
  class TimerQueue {
    const tree: RbTree
    ghost var timers: set<Timer>

    ghost function Queue(): seq<Entry>
      reads this, tree
    {
      Order(tree.shape)
    }

    /** `timerSet` holds exactly for the timers whose node is in the tree. */
    ghost predicate Valid()
      reads this, timers, Rbs(timers), tree, tree.sentinel, Nodes(tree.shape)
    {
      && tree.Valid()
      && (forall t :: t in timers ==> t.rbnode.container == t && t.rbnode != tree.sentinel)
      && (forall t :: t in timers ==> (t.timerSet <==> t.rbnode in Nodes(tree.shape)))
      && Nodes(tree.shape) <= Rbs(timers)
    }

    static ghost function Rbs(timers: set<Timer>): set<RbNode> {
      set t | t in timers :: t.rbnode
    }

    /** init_timers. */
    constructor ()
      ensures Valid() && fresh(tree) && timers == {} && Queue() == []
    {
      var sentinel := new RbNode();
      tree := new RbTree.Init(sentinel);
      timers := {};
    }

    /** A timer that is not armed may come under the queue's care at any time. */
    ghost method Adopt(timer: Timer)
      requires Valid() && timer !in timers && !timer.timerSet
      requires timer.rbnode.container == timer && timer.rbnode != tree.sentinel
      modifies this`timers
      ensures Valid() && timers == old(timers) + {timer} && Queue() == old(Queue())
    {
      timers := timers + {timer};
    }

    /** timer_del: the source demands an armed timer. */
    method Del(timer: Timer)
      requires Valid() && timer in timers && timer.timerSet
      modifies timer`timerSet, tree`root, tree`shape, tree.sentinel`red, tree.sentinel`parent
      modifies Nodes(tree.shape)`left, Nodes(tree.shape)`right, Nodes(tree.shape)`parent, Nodes(tree.shape)`red
      ensures Valid() && !timer.timerSet && Queue() == RemoveNode(old(Queue()), timer.rbnode)
      ensures forall t :: t in timers && t != timer ==> t.timerSet == old(t.timerSet)
    {
      hide Nodes, Order, RemoveNode, RbTree.Valid;
      tree.Delete(timer.rbnode);
      timer.timerSet := false;
    }

    /** timer_add: arms the timer, taking it out first when it is armed already. */
    method Add(timer: Timer, clock: nat, timeout: nat)
      requires Valid() && timer in timers
      modifies timer`timerSet, tree`root, tree`shape, tree.sentinel`red, tree.sentinel`parent
      modifies Nodes(tree.shape)`left, Nodes(tree.shape)`right, Nodes(tree.shape)`parent, Nodes(tree.shape)`red
      modifies timer.rbnode`key, timer.rbnode`left, timer.rbnode`right, timer.rbnode`parent, timer.rbnode`red
      ensures Valid() && timer.timerSet && Queue() == Armed(old(Queue()), timer.rbnode, Deadline(clock, timeout))
      ensures clock + timeout < 0x1_0000_0000_0000_0000 ==>
        forall now: nat :: timer.rbnode in Names(Due(Queue(), now)) <==> clock + timeout <= now
      ensures 0x1_0000_0000_0000_0000 <= clock + timeout < 0x2_0000_0000_0000_0000 ==>
        forall now: nat :: timer.rbnode in Names(Due(Queue(), now)) <==> clock + timeout - 0x1_0000_0000_0000_0000 <= now
      ensures RemoveNode(Queue(), timer.rbnode) == RemoveNode(old(Queue()), timer.rbnode)
      ensures forall t :: t in timers && t != timer ==> t.timerSet == old(t.timerSet)
    {
      hide Names, Due, InsertEntry, RemoveNode, RbTree.Valid, Nodes, Order, Sorted, NoRepeats;
      ghost var was, n := Queue(), timer.rbnode;
      QueueOrdered();
      var key := (clock + timeout) % WRAP64;

      if timer.timerSet {
        Del(timer);
      } else {
        QueueAbsent(timer.rbnode);
      }

      Enter(timer, key);
      RemoveGone(was, n);
      EnteredBack(RemoveNode(was, n), Entry(key, n));
      QueueOrdered();
      DueAt(Queue(), key, n);
    }

    method Enter(timer: Timer, key: nat)
      requires Valid() && timer in timers && !timer.timerSet
      modifies timer`timerSet, tree`root, tree`shape
      modifies Nodes(tree.shape)`left, Nodes(tree.shape)`right, Nodes(tree.shape)`parent, Nodes(tree.shape)`red
      modifies timer.rbnode`key, timer.rbnode`left, timer.rbnode`right, timer.rbnode`parent, timer.rbnode`red
      ensures Valid() && timer.timerSet && Queue() == InsertEntry(old(Queue()), Entry(key, timer.rbnode))
      ensures forall t :: t in timers && t != timer ==> t.timerSet == old(t.timerSet)
      ensures Nodes(tree.shape) == old(Nodes(tree.shape)) + {timer.rbnode}
    {
      hide Order, Nodes, InsertEntry, RbTree.Valid;
      timer.rbnode.key := key;
      assert tree.Valid();

      tree.Insert(timer.rbnode);
      timer.timerSet := true;
    }

    lemma QueueAbsent(n: RbNode)
      requires n !in Nodes(tree.shape)
      ensures RemoveNode(Queue(), n) == Queue()
    {
      OrderInNodes(tree.shape);
      RemoveAbsent(Queue(), n);
    }

    /** What the laws about passes ask of a queue. */
    lemma QueueOrdered()
      requires Valid()
      ensures Sorted(Queue()) && NoRepeats(Queue())
    {
      OrderNoRepeats(tree.shape);
    }

    /** The node that rbtree_min finds stands first in the queue. */
    lemma MinFirst(sp: Ctx, u: Tree)
      requires tree.Linked() && u.Node? && u.left.Leaf? && LeftSpine(sp) && tree.shape == Plug(sp, u)
      ensures Queue() != [] && Queue()[0] == Entry(u.node.key, u.node) && u.node in Nodes(tree.shape)
      ensures RemoveNode(Queue(), u.node) == Queue()[1..]
    {
      tree.NodeAt(sp, u);
      SpineOrder(sp, u);
    }

    /** A handler performs its actions; it disarms only armed timers. */
    method RunHandler(acts: seq<Action>)
      requires Valid() && (forall i :: 0 <= i < |acts| ==> acts[i].node in Rbs(timers))
      modifies tree`root, tree`shape, tree.sentinel`red, tree.sentinel`parent, timers`timerSet
      modifies Rbs(timers)`key, Rbs(timers)`left, Rbs(timers)`right, Rbs(timers)`parent, Rbs(timers)`red
      ensures Valid() && Queue() == Acts(old(Queue()), acts)
    {
      var i := 0;
      while i < |acts|
        invariant 0 <= i <= |acts| && Valid()
        invariant Acts(Queue(), acts[i..]) == Acts(old(Queue()), acts)
      {
        assert acts[i..][1..] == acts[i + 1..];
        RunAction(acts[i]);
        i := i + 1;
      }
    }

    method RunAction(a: Action)
      requires Valid() && a.node in Rbs(timers)
      modifies tree`root, tree`shape, tree.sentinel`red, tree.sentinel`parent, timers`timerSet
      modifies Rbs(timers)`key, Rbs(timers)`left, Rbs(timers)`right, Rbs(timers)`parent, Rbs(timers)`red
      ensures Valid() && Queue() == Act(old(Queue()), a)
    {
      var timer := a.node.container as Timer;
      match a {
        case Arm(_, clock, timeout) =>
          Add(timer, clock, timeout);
        case DisarmIfSet(_) =>
          if timer.timerSet {
            Del(timer);
          } else {
            QueueAbsent(timer.rbnode);
          }
      }
    }

    /** One round of process_timers up to the handler call: the first timer, when due, leaves the queue. */
    method Expire(now: nat) returns (timer: Timer?)
      requires Valid()
      modifies tree`root, tree`shape, tree.sentinel`red, tree.sentinel`parent, timers`timerSet
      modifies Nodes(tree.shape)`left, Nodes(tree.shape)`right, Nodes(tree.shape)`parent, Nodes(tree.shape)`red
      ensures Valid()
      ensures timer == null ==> Queue() == old(Queue()) && (Queue() == [] || now < Queue()[0].key)
      ensures timer != null ==> var q := old(Queue());
        timer in timers && !timer.timerSet && q != [] && q[0].key <= now && q[0].node == timer.rbnode && Queue() == q[1..]
    {
      var root := tree.root;

      if root == tree.sentinel {
        return null;
      }

      var node;
      ghost var sp, u;
      node, sp, u := tree.Min(root, Top, tree.shape);
      MinFirst(sp, u);

      if now < node.key {
        return null;
      }

      // The source repeats the two statements of timer_del here.
      timer := node.container as Timer;
      Del(timer);
    }

    /** One round of process_timers, with the handler call. */
    method Round(now: nat, acts: seq<Action>) returns (timer: Timer?)
      requires Valid() && (forall i :: 0 <= i < |acts| ==> acts[i].node in Rbs(timers))
      modifies tree`root, tree`shape, tree.sentinel`red, tree.sentinel`parent, timers`timerSet
      modifies Rbs(timers)`key, Rbs(timers)`left, Rbs(timers)`right, Rbs(timers)`parent, Rbs(timers)`red
      ensures Valid()
      ensures timer == null ==> Queue() == old(Queue()) && (Queue() == [] || now < Queue()[0].key)
      ensures timer != null ==> var q := old(Queue());
        q != [] && q[0].key <= now && q[0].node == timer.rbnode && Queue() == Acts(q[1..], acts)
    {
      timer := Expire(now);
      if timer != null {
        RunHandler(acts);
      }
    }

    /** process_timers at time `now`; `fired` is the trace of handler calls, the k-th of which performs `script(k)`. */
    method Process(now: nat, script: nat -> seq<Action>) returns (fired: seq<RbNode>)
      requires Valid() && AllIntoFuture(script, now)
      requires forall k: nat, i :: 0 <= i < |script(k)| ==> script(k)[i].node in Rbs(timers)
      modifies tree`root, tree`shape, tree.sentinel`red, tree.sentinel`parent, timers`timerSet
      modifies Rbs(timers)`key, Rbs(timers)`left, Rbs(timers)`right, Rbs(timers)`parent, Rbs(timers)`red
      ensures Valid() && Outcome(fired, Queue()) == Pass(old(Queue()), now, script, 0)
    {
      hide TimerQueue.Valid, TimerQueue.Queue, Pass, Due, Sorted;
      QueueOrdered();
      fired := [];
      ghost var qs := [Queue()];
      while true
        invariant Valid() && |qs| == |fired| + 1 && qs[0] == old(Queue()) && qs[|fired|] == Queue()
        invariant Rounds(qs, fired, now, script)
        decreases |Due(Queue(), now)|
      {
        QueueOrdered();
        ghost var q := Queue();
        var timer := Round(now, script(|fired|));
        if timer == null {
          RoundsPass(qs, fired, now, script, 0);
          return;
        }

        RoundShrinks(q, Queue(), now, script, |fired|);
        fired, qs := fired + [timer.rbnode], qs + [Queue()];
      }
    }
  }
}
