/**
  Open addressing by hashing the hash again: what the tables of include/vars.c and the
  bag table of code/client/item.c have in common.
*/
module Probing {
  import opened Hashing

  /** What each slot holds: nothing, or the number of the entry that was put there. */
  type Table = seq<int>

  const FREE := -1

  /** The hash after `k` collisions. */
  function Path(h: Word, k: nat): Word {
    if k == 0 then h else HashInt32(Path(h, k - 1))
  }

  function Index(h: Word, size: nat): (i: nat)
    requires size > 0
    ensures i < size
  {
    h % size
  }

  /** What is found on the path after `k` collisions. */
  function Seen(t: Table, h: Word, k: nat): int
    requires |t| > 0
  {
    t[Index(Path(h, k), |t|)]
  }

  /** Entry `i` lies on its path, behind entries that came before it. */
  predicate PlacedAt(t: Table, starts: seq<Word>, i: nat, k: nat)
    requires |t| > 0 && i < |starts|
  {
    Seen(t, starts[i], k) == i && forall j :: 0 <= j < k ==> 0 <= Seen(t, starts[i], j) < i
  }

  ghost predicate Placed(t: Table, starts: seq<Word>, i: nat)
    requires |t| > 0 && i < |starts|
  {
    exists k: nat :: PlacedAt(t, starts, i, k)
  }

  /** Every entry so far has its place, and nothing else is in the table. */
  ghost predicate TableOk(t: Table, starts: seq<Word>) {
    && |t| > 0
    && (forall s :: 0 <= s < |t| ==> FREE <= t[s] < |starts|)
    && (forall i :: 0 <= i < |starts| ==> Placed(t, starts, i))
  }

  /** The first `fuel` slots on the path are all taken. */
  predicate Blocked(t: Table, h: Word, fuel: nat)
    requires |t| > 0
  {
    forall k :: 0 <= k < fuel ==> Seen(t, h, k) != FREE
  }

  lemma EmptyTable(t: Table)
    requires |t| > 0 && forall s :: 0 <= s < |t| ==> t[s] == FREE
    ensures TableOk(t, [])
  {
  }

  /** A write to another slot is not seen. */
  lemma SeenAfter(t: Table, s: nat, v: int, h: Word, k: nat)
    requires s < |t|
    ensures Seen(t[s := v], h, k) == if Index(Path(h, k), |t|) == s then v else Seen(t, h, k)
  {
    hide Path;
  }

  /** Filling a free slot leaves every entry its place. */
  lemma StillPlaced(t: Table, starts: seq<Word>, s: nat, h: Word, i: nat)
    requires |t| > 0 && i < |starts| && s < |t| && t[s] == FREE && Placed(t, starts, i)
    ensures Placed(t[s := |starts|], starts + [h], i)
  {
    hide Path;
    var t', starts' := t[s := |starts|], starts + [h];
    var m: nat :| PlacedAt(t, starts, i, m);
    forall j | 0 <= j <= m
      ensures Seen(t', starts[i], j) == Seen(t, starts[i], j)
    {
      SeenAfter(t, s, |starts|, starts[i], j);
      assert Seen(t, starts[i], j) != FREE;
    }
    assert PlacedAt(t', starts', i, m);
  }

  lemma NowPlaced(t: Table, starts: seq<Word>, h: Word, k: nat)
    requires |t| > 0 && Blocked(t, h, k) && Seen(t, h, k) == FREE
    requires forall s :: 0 <= s < |t| ==> FREE <= t[s] < |starts|
    ensures Placed(t[Index(Path(h, k), |t|) := |starts|], starts + [h], |starts|)
  {
    hide Path;
    var s := Index(Path(h, k), |t|);
    var t' := t[s := |starts|];
    forall j | 0 <= j < k
      ensures 0 <= Seen(t', h, j) < |starts|
    {
      SeenAfter(t, s, |starts|, h, j);
    }
    SeenAfter(t, s, |starts|, h, k);
    assert PlacedAt(t', starts + [h], |starts|, k);
  }

  /** Taking the first free slot on its path gives an entry its place, and moves no other. */
  lemma InsertKeeps(t: Table, starts: seq<Word>, h: Word, k: nat)
    requires TableOk(t, starts) && Blocked(t, h, k) && Seen(t, h, k) == FREE
    ensures TableOk(t[Index(Path(h, k), |t|) := |starts|], starts + [h])
  {
    hide Path, Placed, Blocked;
    var s := Index(Path(h, k), |t|);
    NowPlaced(t, starts, h, k);
    var t', starts' := t[s := |starts|], starts + [h];
    forall i: nat | i < |starts|
      ensures Placed(t', starts', i)
    {
      StillPlaced(t, starts, s, h, i);
    }
  }

  /** `i` is the first entry that matches. */
  predicate FirstMatch(matches: set<int>, i: int) {
    i in matches && forall j :: j in matches ==> i <= j
  }

  /**
    The first slot on the path that is free or matches answers the search: it holds the
    first entry that matches, or it is free and no entry does.
  */
  lemma SearchEnds(t: Table, starts: seq<Word>, h: Word, matches: set<int>, k: nat)
    requires TableOk(t, starts)
    requires forall i :: i in matches ==> 0 <= i < |starts| && starts[i] == h
    requires forall j :: 0 <= j < k ==> Seen(t, h, j) != FREE && Seen(t, h, j) !in matches
    ensures Seen(t, h, k) == FREE ==> matches == {}
    ensures Seen(t, h, k) in matches ==> FirstMatch(matches, Seen(t, h, k))
  {
    hide Path;
    forall i | i in matches
      ensures Seen(t, h, k) != FREE
      ensures Seen(t, h, k) in matches ==> Seen(t, h, k) <= i
    {
      assert Placed(t, starts, i);
      var m: nat :| PlacedAt(t, starts, i, m);
      assert Seen(t, h, m) == i;
      assert m >= k;
    }
  }
}

module VarTables {
  import opened Hashing
  import opened Probing

  /** A slot as the source keeps it. */
  datatype HashSlot = HashSlot(occupied: bool, hash: Word, value: nat, key: Text)

  /** The names of the variables, in the order of declaration; parsing made them lower-case. */
  predicate NamesOk(names: seq<Text>) {
    forall i :: 0 <= i < |names| ==> LowerText(names[i]) == names[i]
  }

  ghost function Starts(names: seq<Text>): (s: seq<Word>)
    ensures |s| == |names| && forall i :: 0 <= i < |names| ==> s[i] == Hash(names[i])
  {
    seq<Word>(|names|, i requires 0 <= i < |names| => Hash(names[i]))
  }

  ghost function Held(slots: seq<HashSlot>): (t: Table)
    ensures |t| == |slots|
    ensures forall i :: 0 <= i < |slots| ==> t[i] == if slots[i].occupied then slots[i].value else FREE
  {
    seq<int>(|slots|, i requires 0 <= i < |slots| => if slots[i].occupied then slots[i].value else FREE)
  }

  /** The variables that are called `name`, whatever the case. */
  ghost function Called(names: seq<Text>, name: Text): set<int> {
    set i | 0 <= i < |names| && LowerText(names[i]) == LowerText(name)
  }

  class VarSection {
    const names: seq<Text>
    const slots: array<HashSlot>

    ghost predicate Valid()
      reads slots
    {
      ValidFor(|names|)
    }

    /** The table holds the first `n` variables. */
    ghost predicate ValidFor(n: nat)
      reads slots
    {
      && n <= |names| && NamesOk(names) && slots.Length == 2 * |names|
      && |names| > 0 && TableOk(Held(slots[..]), Starts(names[..n]))
      && (forall s :: 0 <= s < slots.Length && slots[s].occupied ==>
        slots[s].value < |names| && slots[s].key == names[slots[s].value])
    }

    /** The section with its empty table, as calloc leaves it. */
    constructor (names: seq<Text>)
      requires names != [] && NamesOk(names)
      ensures this.names == names && ValidFor(0) && fresh(slots)
    {
      this.names := names;
      slots := new HashSlot[2 * |names|](_ => HashSlot(false, 0, 0, []));
      new;
      EmptyTable(Held(slots[..]));
      assert Starts(names[..0]) == [];
    }

    /** The probing loop of the insertion; it ends within `fuel` steps or not at all. */
    method FreeSlot(start: Word, fuel: nat) returns (done: bool, hash: Word, index: nat, ghost k: nat)
      requires slots.Length > 0
      ensures done <==> !Blocked(Held(slots[..]), start, fuel)
      ensures done ==> hash == Path(start, k) && index == Index(hash, slots.Length)
      ensures done ==> Blocked(Held(slots[..]), start, k) && Seen(Held(slots[..]), start, k) == FREE
    {
      hide Path, HashInt32;
      ghost var t := Held(slots[..]);
      hash := start;
      index := hash % slots.Length;
      var steps := 0;
      PathStart(start);
      while steps < fuel && slots[index].occupied
        invariant steps <= fuel && hash == Path(start, steps) && index == Index(hash, slots.Length)
        invariant Blocked(t, start, steps)
      {
        assert Seen(t, start, steps) == t[index];
        PathStep(start, steps);
        hash := HashInt32(hash);
        index := hash % slots.Length;
        steps := steps + 1;
      }
      assert Seen(t, start, steps) == t[index];
      return steps < fuel, hash, index, steps;
    }

    /** One variable takes the first free slot on its path. */
    method Insert(i: nat, fuel: nat) returns (done: bool)
      requires i < |names| && ValidFor(i)
      modifies slots
      ensures done ==> ValidFor(i + 1)
      ensures done <==> !Blocked(old(Held(slots[..])), Hash(names[i]), fuel)
      ensures !done ==> ValidFor(i) && slots[..] == old(slots[..])
    {
      hide Path, TableOk, Starts, Hash, LowerText, HashInt32, Seen, Blocked;
      ghost var t := Held(slots[..]);
      var start := HashStr(names[i]);
      var hash, index;
      ghost var k;
      done, hash, index, k := FreeSlot(start, fuel);
      if done {
        slots[index] := HashSlot(true, hash, i, names[i]);
        InsertKeeps(t, Starts(names[..i]), start, k);
        assert Held(slots[..]) == t[index := i];
        StartsNext(names, i);
      }
    }

    /** `create_section_table`, if every search for a free slot ends within `fuel` steps. */
    method CreateTable(fuel: nat) returns (done: bool)
      requires ValidFor(0)
      modifies slots
      ensures done ==> Valid()
      ensures !done ==> exists i :: 0 <= i < |names| && ValidFor(i) && Blocked(Held(slots[..]), Hash(names[i]), fuel)
    {
      for i := 0 to |names|
        invariant ValidFor(i)
      {
        done := Insert(i, fuel);
        if !done {
          assert ValidFor(i) && Blocked(Held(slots[..]), Hash(names[i]), fuel);
          return;
        }
      }
      assert names[..|names|] == names;
      return true;
    }

    /**
      `find_var`: if the search ends, it ends at the first variable of that name, or
      there is none.
    */
    method FindVar(name: Text, fuel: nat) returns (done: bool, r: int)
      requires Valid()
      ensures done && r != FREE ==> FirstMatch(Called(names, name), r)
      ensures done && r == FREE ==> Called(names, name) == {}
      ensures done <==> Ends(Held(slots[..]), Hash(LowerText(name)), fuel, Called(names, name))
    {
      hide Path, TableOk, Starts, Hash;
      ghost var t, c := Held(slots[..]), Called(names, name);
      var hash := HashStrI(name);
      ghost var start := hash;
      CalledStart(names, name);
      var index := hash % slots.Length;
      var k := 0;
      PathStart(start);
      assert names[..|names|] == names;
      while k < fuel && slots[index].occupied
        invariant k <= fuel && hash == Path(start, k) && index == Index(hash, slots.Length)
        invariant forall j :: 0 <= j < k ==> Seen(t, start, j) != FREE && Seen(t, start, j) !in c
      {
        var differ := Stricmp(name, slots[index].key);
        if differ == 0 {
          SearchEnds(t, Starts(names), start, c, k);
          assert Answers(t, start, k, c);
          return true, slots[index].value;
        }
        PathStep(start, k);
        hash := HashInt32(hash);
        index := hash % slots.Length;
        k := k + 1;
      }
      if k == fuel { return false, FREE; }
      SearchEnds(t, Starts(names), start, c, k);
      assert Answers(t, start, k, c);
      return true, FREE;
    }
  }

  /** After `k` collisions a search stops. */
  ghost predicate Answers(t: Table, h: Word, k: nat, matches: set<int>)
    requires |t| > 0
  {
    Seen(t, h, k) == FREE || Seen(t, h, k) in matches
  }

  /** A search stops within `fuel` steps. */
  ghost predicate Ends(t: Table, h: Word, fuel: nat, matches: set<int>)
    requires |t| > 0
  {
    exists k :: 0 <= k < fuel && Answers(t, h, k, matches)
  }

  lemma PathStart(h: Word)
    ensures Path(h, 0) == h
  {
  }

  lemma PathStep(h: Word, k: nat)
    ensures Path(h, k + 1) == HashInt32(Path(h, k))
  {
  }

  lemma StartsNext(names: seq<Text>, i: nat)
    requires i < |names|
    ensures Starts(names[..i + 1]) == Starts(names[..i]) + [Hash(names[i])]
  {
  }

  /** Searching without regard to case starts where the name was put. */
  lemma CalledStart(names: seq<Text>, name: Text)
    requires NamesOk(names)
    ensures forall i :: i in Called(names, name) ==> Starts(names)[i] == Hash(LowerText(name))
  {
  }
}

/** The bag table of code/client/item.c, where a bag id of 0 marks a free slot. */
module BagTables {
  import opened Hashing
  import opened Probing
  import opened VarTables

  ghost function BagStarts(ids: seq<Word>): (s: seq<Word>)
    ensures |s| == |ids| && forall i :: 0 <= i < |ids| ==> s[i] == HashInt32(ids[i])
  {
    seq<Word>(|ids|, i requires 0 <= i < |ids| => HashInt32(ids[i]))
  }

  ghost function WithId(ids: seq<Word>, id: Word): set<int> {
    set i | 0 <= i < |ids| && ids[i] == id
  }

  predicate Distinct(ids: seq<Word>) {
    forall i, j :: 0 <= i < j < |ids| ==> ids[i] != ids[j]
  }

  class BagTable {
    const bags: array<Word>
    /** The ids of the bags that were created, and which of them each slot holds. */
    ghost var ids: seq<Word>
    ghost var table: Table

    ghost predicate Valid()
      reads this, bags
    {
      && bags.Length > 0 && |table| == bags.Length && TableOk(table, BagStarts(ids)) && Distinct(ids)
      && (forall i :: 0 <= i < |ids| ==> ids[i] > 0)
      && (forall s :: 0 <= s < bags.Length ==> bags[s] == if table[s] == FREE then 0 else ids[table[s]])
    }

    constructor (size: nat)
      requires size > 0
      ensures Valid() && ids == [] && fresh(bags)
    {
      bags := new Word[size](_ => 0);
      ids := [];
      table := seq<int>(size, _ => FREE);
      new;
      EmptyTable(table);
    }

    /** The probing loop of HandleInventoryCreateBag; it ends within `fuel` steps or not at all. */
    method FreeSlot(start: Word, fuel: nat) returns (done: bool, index: nat, ghost k: nat)
      requires Valid()
      ensures done <==> !Blocked(table, start, fuel)
      ensures done ==> index == Index(Path(start, k), bags.Length)
      ensures done ==> Blocked(table, start, k) && Seen(table, start, k) == FREE
    {
      hide Path, TableOk, BagStarts, HashInt32, Distinct;
      var hash, steps := start, 0;
      index := hash % bags.Length;
      PathStart(start);
      while steps < fuel && bags[index] != 0
        invariant steps <= fuel && hash == Path(start, steps) && index == Index(hash, bags.Length)
        invariant Blocked(table, start, steps)
      {
        assert Seen(table, start, steps) == table[index];
        PathStep(start, steps);
        hash := HashInt32(hash);
        index := hash % bags.Length;
        steps := steps + 1;
      }
      assert Seen(table, start, steps) == table[index];
      InTable(table, BagStarts(ids), index);
      return steps < fuel, index, steps;
    }

    /** A new bag takes the first free slot on its path. */
    method CreateBag(id: Word, fuel: nat) returns (done: bool)
      requires Valid() && id > 0 && id !in ids
      modifies this, bags
      ensures done <==> !Blocked(old(table), HashInt32(id), fuel)
      ensures Valid() && ids == if done then old(ids) + [id] else old(ids)
    {
      hide Path, TableOk, BagStarts, HashInt32, Seen, Blocked;
      ghost var t, was := table, ids;
      var index;
      ghost var k;
      done, index, k := FreeSlot(HashInt32(id), fuel);
      if done {
        InsertKeeps(t, BagStarts(was), HashInt32(id), k);
        BagStartsNext(was, id);
        AllInTable(t, BagStarts(was));
        bags[index] := id;
        table := t[index := |was|];
        ids := was + [id];
      }
    }

    /**
      The probing loop of HandleInventoryItemLocation and HandleItemChangeLocation: it
      finds the slot of a bag that was created, and for any other id its assert fails.
    */
    method FindBag(id: Word, fuel: nat) returns (done: bool, found: bool, index: nat)
      requires Valid() && id > 0
      ensures done ==> (found <==> id in ids)
      ensures done && found ==> index < bags.Length && bags[index] == id
      ensures done <==> Ends(table, HashInt32(id), fuel, WithId(ids, id))
    {
      hide Path, TableOk, BagStarts, HashInt32;
      ghost var c := WithId(ids, id);
      var hash := HashInt32(id);
      ghost var start := hash;
      index := hash % bags.Length;
      var k := 0;
      PathStart(start);
      while k < fuel && bags[index] != id
        invariant k <= fuel && hash == Path(start, k) && index == Index(hash, bags.Length)
        invariant forall j :: 0 <= j < k ==> Seen(table, start, j) != FREE && Seen(table, start, j) !in c
      {
        assert Seen(table, start, k) == table[index];
        if bags[index] == 0 {
          InTable(table, BagStarts(ids), index);
          SearchEnds(table, BagStarts(ids), start, c, k);
          assert forall i :: 0 <= i < |ids| && ids[i] == id ==> i in c;
          assert Answers(table, start, k, c);
          return true, false, index;
        }
        PathStep(start, k);
        hash := HashInt32(hash);
        index := hash % bags.Length;
        k := k + 1;
      }
      if k == fuel { return false, false, index; }
      InTable(table, BagStarts(ids), index);
      assert Seen(table, start, k) == table[index] && Answers(table, start, k, c);
      return true, true, index;
    }
  }

  lemma AllInTable(t: Table, starts: seq<Word>)
    requires TableOk(t, starts)
    ensures forall s :: 0 <= s < |t| ==> FREE <= t[s] < |starts|
  {
  }

  lemma InTable(t: Table, starts: seq<Word>, s: nat)
    requires TableOk(t, starts) && s < |t|
    ensures FREE <= t[s] < |starts|
  {
  }

  lemma BagStartsNext(ids: seq<Word>, id: Word)
    ensures BagStarts(ids + [id]) == BagStarts(ids) + [HashInt32(id)]
  {
  }
}
