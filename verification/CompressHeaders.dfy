/** The write side of a code: the lengths of its symbols, run by run from the last symbol down. */
module LengthStreams {
  import opened Options
  import opened Powers
  import opened Bits
  import opened CanonicalCode
  import opened HuffmanTables
  import opened Decoders
  import opened InflateSpec
  import opened SourceTables

  // ---------- The code that runs are written with ----------

  /** The lowest code of each row; the codes of row `k` have `k + 3` bits. */
  const CODES: seq<nat> := [5, 6, 8, 8, 9, 12, 14, 12, 11, 15, 24, 44, 80, 0]

  /** The row that holds place `i` of the second table. */
  function RowOf(i: nat, k: nat): (r: nat)
    requires k <= |TABLE1|
    ensures k <= r <= |TABLE1| && (r < |TABLE1| ==> i <= TABLE1[r].lastIndex)
    ensures forall j :: k <= j < r ==> TABLE1[j].lastIndex < i
    decreases |TABLE1| - k
  {
    if k == |TABLE1| || i <= TABLE1[k].lastIndex then k else RowOf(i, k + 1)
  }

  lemma RowIn(i: nat)
    requires i < 256
    ensures RowOf(i, 0) < 14 == |TABLE1| == |CODES|
  {
    hide RowOf;
    assert TABLE1[13].lastIndex == 255;
  }

  /** How a run is written whose byte stands at place `i` of the second table. */
  function RunBits(i: nat): (b: seq<bool>)
    requires i < 256
  {
    RowIn(i);
    var k := RowOf(i, 0);
    BitsOf(CODES[k] + (TABLE1[k].lastIndex - i), k + 3)
  }

  lemma BigPowers()
    ensures Pow2(16) == 0x1_0000 && Pow2(17) == 0x2_0000 && Pow2(18) == 0x4_0000 && Pow2(19) == 0x8_0000
    ensures Pow2(20) == 0x10_0000 && Pow2(21) == 0x20_0000 && Pow2(22) == 0x40_0000 && Pow2(23) == 0x80_0000
    ensures Pow2(24) == 0x100_0000 && Pow2(25) == 0x200_0000 && Pow2(26) == 0x400_0000 && Pow2(27) == 0x800_0000
    ensures Pow2(28) == 0x1000_0000 && Pow2(29) == 0x2000_0000
  {
    Pow2Values();
    assert Pow2(17) == 0x2_0000;
    assert Pow2(19) == 0x8_0000;
    assert Pow2(21) == 0x20_0000;
    assert Pow2(23) == 0x80_0000;
    assert Pow2(25) == 0x200_0000;
    assert Pow2(27) == 0x800_0000;
  }

  function Before(k: nat): int
    requires k < |TABLE1|
  {
    if k == 0 then -1 else TABLE1[k - 1].lastIndex
  }

  lemma RowStart(k: nat)
    requires k < |TABLE1| == 14
    ensures TABLE1[k].firstEncoding == CODES[k] * Pow2(29 - k) && Before(k) < TABLE1[k].lastIndex < 256
  {
    hide Pow2;
    BigPowers();
  }

  lemma RowEnd(k: nat)
    requires k < |TABLE1| == 14
    ensures (CODES[k] + (TABLE1[k].lastIndex - Before(k))) * Pow2(29 - k) == RowTop(TABLE1, k) + 1
  {
    hide Pow2;
    BigPowers();
  }

  lemma {:induction false} RowsFall(i: nat, j: nat)
    requires i <= j < |TABLE1| == 14
    ensures TABLE1[j].firstEncoding <= TABLE1[i].firstEncoding
    decreases j
  {
    if i < j {
      RowsFall(i, j - 1);
      RowFalls(j);
    }
  }

  lemma RowFalls(j: nat)
    requires 0 < j < |TABLE1|
    ensures TABLE1[j].firstEncoding <= TABLE1[j - 1].firstEncoding
  {
  }

  /** A window in the span of a row is found there. */
  lemma RowFound(k: nat, w: nat)
    requires k < |TABLE1| == 14 && TABLE1[k].firstEncoding <= w <= RowTop(TABLE1, k)
    ensures FindRow(TABLE1, w, 0) == k
  {
    hide FindRow, TABLE1;
    var r := FindRow(TABLE1, w, 0);
    if r < k {
      RowsFall(r, k - 1);
      assert false;
    }
  }

  lemma Scaled(v: nat, n: nat, p: nat, top: int, low: nat)
    requires low < p && (v + n) * p == top + 1 && n >= 1
    ensures v * p + low <= top
  {
    assert (v + n) * p == v * p + n * p && n * p >= p;
  }

  /** What the window shows of a run, and where it is found. */
  lemma RunWindow(i: nat, more: seq<bool>)
    requires i < 256
    ensures RowOf(i, 0) < 14 == |TABLE1| == |CODES|
    ensures var k := RowOf(i, 0);
      var low, w := Val(Take(more, 29 - k)), Val(Take(RunBits(i) + more, 32));
      var v := CODES[k] + (TABLE1[k].lastIndex - i);
      && low < Pow2(29 - k) && w == v * Pow2(29 - k) + low && v < Pow2(k + 3)
      && TABLE1[k].firstEncoding <= w <= RowTop(TABLE1, k)
  {
    hide BitsOf, Val, Pow2, RowOf, TABLE1, CODES, FindRow;
    RowIn(i);
    var k := RowOf(i, 0);
    var v := CODES[k] + (TABLE1[k].lastIndex - i);
    var low := Val(Take(more, 29 - k));
    RowStart(k);
    RowEnd(k);
    ValBound(Take(more, 29 - k));
    assert Before(k) < i;
    RowTopWord(k);
    Scaled(v, i - Before(k), Pow2(29 - k), RowTop(TABLE1, k), low);
    Fewer(v, k);
    ValBitsOf(v, k + 3);
    assert Take(RunBits(i) + more, 32) == RunBits(i) + Take(more, 29 - k);
    ValConcat(RunBits(i), Take(more, 29 - k));
    Grows(CODES[k], v, Pow2(29 - k));
  }

  lemma RowTopWord(k: nat)
    requires k < |TABLE1|
    ensures RowTop(TABLE1, k) < WORD
  {
  }

  lemma Grows(a: nat, b: nat, p: nat)
    requires a <= b
    ensures a * p <= b * p
  {
  }

  lemma Fewer(v: nat, k: nat)
    requires k < 14 && v * Pow2(29 - k) < WORD
    ensures v < Pow2(k + 3)
  {
    Pow2Values();
    Pow2Add(k + 3, 29 - k);
    if v >= Pow2(k + 3) {
      Grows(Pow2(k + 3), v, Pow2(29 - k));
      assert false;
    }
  }

  /** A run is read back: how many symbols beyond the first, and their length. */
  lemma RunBack(i: nat, more: seq<bool>)
    requires i < 256 && TablesOk(SOURCE_TABLES)
    ensures var p, s := ReadPair(SOURCE_TABLES, RunBits(i) + more), RunBits(i) + more;
      |TABLE2| == 256 && p.count == TABLE2[i] / 32 && p.len == TABLE2[i] % 32 && Drop(s, p.bits) == more
  {
    hide TABLE1, TABLE2, TABLE3, CODES, Val, Pow2, FindRow, TablesOk, BitsOf, RowOf, Take, Drop, Shr, RowTop;
    var s := RunBits(i) + more;
    var k, w := RowOf(i, 0), Val(Take(s, 32));
    RunWindow(i, more);
    Table2Size();
    RowFound(k, w);
    Pow2Values();
    ValBound(Take(s, 32));
    RowExists(SOURCE_TABLES, w);
    RowStart(k);
    var v, low := CODES[k] + (TABLE1[k].lastIndex - i), Val(Take(more, 29 - k));
    Apart(CODES[k], TABLE1[k].lastIndex - i, Pow2(29 - k));
    ShrMultiple(TABLE1[k].lastIndex - i, Pow2(29 - k), 29 - k, low);
    InFront(RunBits(i), more);
  }

  lemma Apart(a: nat, b: nat, p: nat)
    ensures (a + b) * p - a * p == b * p
  {
  }

  // ---------- The lists of symbols ----------

  predicate Ascending(s: seq<nat>) {
    forall i, j :: 0 <= i < j < |s| ==> s[i] < s[j]
  }

  /** The list of each length holds, in order, the symbols from `m` on that have it; length 0 means none. */
  predicate Lists(ch: Chains, lens: seq<nat>, m: nat) {
    ch[0] == [] && forall l :: 1 <= l < LENGTHS ==> Holds(ch[l], lens, l, m)
  }

  predicate Holds(s: seq<nat>, lens: seq<nat>, l: nat, m: nat) {
    && Ascending(s)
    && (forall i :: 0 <= i < |s| ==> m <= s[i] < |lens| && lens[s[i]] == l)
    && (forall x :: m <= x < |lens| && lens[x] == l ==> x in s)
  }

  /** The runs, from the last symbol down, cover the lengths. */
  predicate Runs(rs: seq<nat>, lens: seq<nat>)
    decreases |rs|
  {
    if rs == [] || |TABLE2| != 256 then rs == [] && lens == []
    else
      && rs[0] < 256
      && var n, l := TABLE2[rs[0]] / 32 + 1, TABLE2[rs[0]] % 32;
      && n <= |lens| && (forall x :: |lens| - n <= x < |lens| ==> lens[x] == l)
      && Runs(rs[1..], lens[..|lens| - n])
  }

  function RunsBits(rs: seq<nat>): seq<bool>
    requires forall i :: 0 <= i < |rs| ==> rs[i] < 256
  {
    if rs == [] then [] else RunBits(rs[0]) + RunsBits(rs[1..])
  }

  lemma {:induction false} RunsPlaces(rs: seq<nat>, lens: seq<nat>)
    requires Runs(rs, lens)
    ensures forall i :: 0 <= i < |rs| ==> rs[i] < 256
    decreases |rs|
  {
    hide TABLE2;
    if rs != [] {
      RunsPlaces(rs[1..], lens[..|lens| - (TABLE2[rs[0]] / 32 + 1)]);
    }
  }

  lemma {:induction false} PushLists(ch: Chains, lens: seq<nat>, m: nat, l: nat, n: nat)
    requires Lists(ch, lens, m) && n <= m <= |lens| && 1 <= l < LENGTHS
    requires forall x :: m - n <= x < m ==> lens[x] == l
    ensures Lists(Push(ch, l, m - 1, n), lens, m - n)
    decreases n
  {
    hide Lists;
    if n > 0 {
      PushOneLists(ch, lens, m, l);
      PushLists(PushOne(ch, l, m - 1), lens, m - 1, l, n - 1);
    }
  }

  lemma PushOneLists(ch: Chains, lens: seq<nat>, m: nat, l: nat)
    requires Lists(ch, lens, m) && 0 < m <= |lens| && 1 <= l < LENGTHS && lens[m - 1] == l
    ensures Lists(PushOne(ch, l, m - 1), lens, m - 1)
  {
    hide Holds;
    var ch' := PushOne(ch, l, m - 1);
    forall k | 1 <= k < LENGTHS
      ensures Holds(ch'[k], lens, k, m - 1)
    {
      HoldsMore(ch[k], lens, k, m);
    }
  }

  lemma HoldsMore(s: seq<nat>, lens: seq<nat>, l: nat, m: nat)
    requires Holds(s, lens, l, m) && 0 < m <= |lens|
    ensures Holds(if lens[m - 1] == l then [m - 1] + s else s, lens, l, m - 1)
  {
    if lens[m - 1] == l {
      var r := [m - 1] + s;
      forall i, j | 0 <= i < j < |r|
        ensures r[i] < r[j]
      {
        assert r[j] == s[j - 1] && (i > 0 ==> r[i] == s[i - 1]);
      }
      forall x | m - 1 <= x < |lens| && lens[x] == l
        ensures x in r
      {
        assert x >= m ==> x in s;
      }
    }
  }

  /** Absent symbols are in no list. */
  lemma {:induction false} SkipLists(ch: Chains, lens: seq<nat>, m: nat, n: nat)
    requires Lists(ch, lens, m) && n <= m <= |lens| && forall x :: m - n <= x < m ==> lens[x] == 0
    ensures Lists(ch, lens, m - n)
    decreases n
  {
    hide Holds;
    if n > 0 {
      forall k | 1 <= k < LENGTHS
        ensures Holds(ch[k], lens, k, m - 1)
      {
        HoldsMore(ch[k], lens, k, m);
      }
      SkipLists(ch, lens, m - 1, n - 1);
    }
  }

  /** The lists are determined by the lengths. */
  lemma ListsUnique(ch: Chains, ch': Chains, lens: seq<nat>)
    requires Lists(ch, lens, 0) && Lists(ch', lens, 0)
    ensures ch == ch'
  {
    hide Ascending;
    forall l | 1 <= l < LENGTHS
      ensures ch[l] == ch'[l]
    {
      assert Holds(ch[l], lens, l, 0) && Holds(ch'[l], lens, l, 0);
      assert forall x :: x in ch[l] <==> x in ch'[l];
      SameElements(ch[l], ch'[l]);
    }
  }

  lemma {:induction false} SameElements(s: seq<nat>, t: seq<nat>)
    requires Ascending(s) && Ascending(t) && forall x :: x in s <==> x in t
    ensures s == t
    decreases |s|
  {
    if s == [] {
      if t != [] {
        SomeElement(t);
        assert false;
      }
    } else {
      assert s[0] in t;
      assert t[0] in s;
      assert s[0] == t[0];
      forall x: nat
        ensures x in s[1..] <==> x in t[1..]
      {
        TailHolds(s, x);
        TailHolds(t, x);
      }
      SameElements(s[1..], t[1..]);
    }
  }

  lemma SomeElement(t: seq<nat>)
    requires t != []
    ensures exists x :: x in t
  {
    assert t[0] in t;
  }

  lemma TailHolds(s: seq<nat>, x: nat)
    requires s != [] && Ascending(s)
    ensures x in s[1..] <==> x in s && x != s[0]
  {
  }

  // ---------- The header of a code ----------

  lemma {:induction false} LengthsBack(rs: seq<nat>, lens: seq<nat>, m: nat, ch: Chains, more: seq<bool>)
    requires TablesOk(SOURCE_TABLES) && 2 <= |lens| && m <= |lens|
    requires Runs(rs, lens[..m]) && Lists(ch, lens, m) && forall i :: 0 <= i < |rs| ==> rs[i] < 256
    ensures var r := ReadLengths(SOURCE_TABLES, RunsBits(rs) + more, |lens|, m - 1, ch);
      r.Some? && r.value.rest == more && Lists(r.value.ch, lens, 0)
    decreases |rs|
  {
    hide TABLE2, TablesOk, ReadPair, RunBits, Lists, Push;
    Table2Size();
    if rs == [] {
      assert [] + more == more;
    } else {
      var n, l := TABLE2[rs[0]] / 32 + 1, TABLE2[rs[0]] % 32;
      assert RunsBits(rs) + more == RunBits(rs[0]) + (RunsBits(rs[1..]) + more);
      RunBack(rs[0], RunsBits(rs[1..]) + more);
      assert lens[..m][..m - n] == lens[..m - n];
      assert forall x :: m - n <= x < m ==> lens[..m][x] == lens[x];
      if l == 0 {
        SkipLists(ch, lens, m, n);
        LengthsBack(rs[1..], lens, m - n, ch, more);
      } else {
        PushLists(ch, lens, m, l, n);
        LengthsBack(rs[1..], lens, m - n, Push(ch, l, m - 1, n), more);
      }
    }
  }

  lemma EmptyLists(lens: seq<nat>)
    ensures Lists(Empty(), lens, |lens|)
  {
  }

  lemma {:induction false} CountAtLeast(ch: Chains, l: nat, m: nat)
    requires l < m <= LENGTHS
    ensures Count(ch, m) >= |ch[l]|
    decreases m
  {
    if l + 1 < m {
      CountAtLeast(ch, l, m - 1);
    }
  }

  /** The number of symbols, then the runs. */
  function CodeBits(count: nat, rs: seq<nat>): seq<bool>
    requires forall i :: 0 <= i < |rs| ==> rs[i] < 256
  {
    BitsOf(count, 16) + RunsBits(rs)
  }

  /** A code is read back as the lists of its symbols, absent ones left out. */
  lemma CodeBack(rs: seq<nat>, lens: seq<nat>, ch: Chains, more: seq<bool>)
    requires TablesOk(SOURCE_TABLES) && 2 <= |lens| < 0x1_0000 && Runs(rs, lens) && Lists(ch, lens, 0)
    requires exists x :: 0 <= x < |lens| && 1 <= lens[x] < LENGTHS
    ensures forall i :: 0 <= i < |rs| ==> rs[i] < 256
    ensures ReadHeader(SOURCE_TABLES, CodeBits(|lens|, rs) + more) == Some(Header(ch, more))
  {
    hide TablesOk, ReadHeader, ReadLengths, BitsOf, Runs, RunsBits, Lists, Empty, Count, SOURCE_TABLES;
    RunsPlaces(rs, lens);
    assert CodeBits(|lens|, rs) + more == BitsOf(|lens|, 16) + (RunsBits(rs) + more);
    AllBack(rs, lens, ch, more);
    HeaderIs(|lens|, RunsBits(rs) + more);
    SomeSymbol(ch, lens);
  }

  /** The first 16 bits of a code count its symbols. */
  lemma HeaderIs(count: nat, runs: seq<bool>)
    requires TablesOk(SOURCE_TABLES) && count < 0x1_0000
    ensures ReadHeader(SOURCE_TABLES, BitsOf(count, 16) + runs) ==
      Finish(ReadLengths(SOURCE_TABLES, runs, count, count - 1, Empty()), count)
  {
    hide TablesOk, ReadLengths, BitsOf, Val, Empty, Pow2, Take, Drop, Finish, SOURCE_TABLES;
    InFront(BitsOf(count, 16), runs);
    Pow2Values();
    ValBitsOf(count, 16);
  }

  lemma InFront(a: seq<bool>, b: seq<bool>)
    ensures Take(a + b, |a|) == a && Drop(a + b, |a|) == b
  {
  }

  lemma AllBack(rs: seq<nat>, lens: seq<nat>, ch: Chains, more: seq<bool>)
    requires TablesOk(SOURCE_TABLES) && 2 <= |lens| && Runs(rs, lens) && Lists(ch, lens, 0)
    requires forall i :: 0 <= i < |rs| ==> rs[i] < 256
    ensures ReadLengths(SOURCE_TABLES, RunsBits(rs) + more, |lens|, |lens| - 1, Empty()) == Some(Header(ch, more))
  {
    hide TablesOk, ReadLengths, Runs, RunsBits, Lists, Empty, TABLE1, TABLE2;
    assert lens[..|lens|] == lens;
    EmptyLists(lens);
    LengthsBack(rs, lens, |lens|, Empty(), more);
    var r := ReadLengths(SOURCE_TABLES, RunsBits(rs) + more, |lens|, |lens| - 1, Empty());
    ListsUnique(r.value.ch, ch, lens);
  }

  lemma SomeSymbol(ch: Chains, lens: seq<nat>)
    requires Lists(ch, lens, 0) && exists x :: 0 <= x < |lens| && 1 <= lens[x] < LENGTHS
    ensures Count(ch, LENGTHS) > 0
  {
    var x :| 0 <= x < |lens| && 1 <= lens[x] < LENGTHS;
    assert Holds(ch[lens[x]], lens, lens[x], 0);
    assert x in ch[lens[x]];
    CountAtLeast(ch, lens[x], LENGTHS);
  }

  // ---------- Codes with at most one symbol ----------

  lemma {:induction false} NoneCounted(m: nat)
    requires m <= LENGTHS
    ensures Count(Empty(), m) == 0
  {
    if m > 0 {
      NoneCounted(m - 1);
    }
  }

  /** When every symbol is absent, the last one gets the empty codeword. */
  lemma NoneBack(rs: seq<nat>, lens: seq<nat>, more: seq<bool>)
    requires TablesOk(SOURCE_TABLES) && 2 <= |lens| < 0x1_0000 && Runs(rs, lens)
    requires forall x :: 0 <= x < |lens| ==> lens[x] == 0
    ensures forall i :: 0 <= i < |rs| ==> rs[i] < 256
    ensures ReadHeader(SOURCE_TABLES, CodeBits(|lens|, rs) + more) == Some(Header(Empty()[0 := [|lens| - 1]], more))
  {
    hide TablesOk, ReadHeader, ReadLengths, BitsOf, Runs, RunsBits, Count, Empty, Lists, SOURCE_TABLES;
    RunsPlaces(rs, lens);
    assert CodeBits(|lens|, rs) + more == BitsOf(|lens|, 16) + (RunsBits(rs) + more);
    NoLists(lens);
    AllBack(rs, lens, Empty(), more);
    HeaderIs(|lens|, RunsBits(rs) + more);
    NoneCounted(LENGTHS);
  }

  lemma NoLists(lens: seq<nat>)
    requires forall x :: 0 <= x < |lens| ==> lens[x] == 0
    ensures Lists(Empty(), lens, 0)
  {
  }

  /** A single symbol, of any length, also of length 0. */
  lemma OneBack(i: nat, more: seq<bool>)
    requires TablesOk(SOURCE_TABLES) && i < 256 && |TABLE2| == 256 && TABLE2[i] < 32
    ensures ReadHeader(SOURCE_TABLES, CodeBits(1, [i]) + more) == Some(Header(Empty()[TABLE2[i] := [0]], more))
  {
    hide TablesOk, ReadHeader, ReadPair, BitsOf, RunBits, Count, TABLE1, TABLE2;
    assert [i][1..] == [] && RunsBits([i]) == RunBits(i) + [];
    assert CodeBits(1, [i]) + more == BitsOf(1, 16) + (RunBits(i) + more);
    RunBack(i, more);
    OnePushed(TABLE2[i]);
    var ch := Empty()[TABLE2[i] := [0]];
    CountAtLeast(ch, TABLE2[i], LENGTHS);
    assert ReadLengths(SOURCE_TABLES, more, 1, -1, ch) == Some(Header(ch, more));
    HeaderIs(1, RunBits(i) + more);
  }

  lemma OnePushed(l: nat)
    requires l < LENGTHS
    ensures Push(Empty(), l, 0, 1) == Empty()[l := [0]]
  {
    var ch := PushOne(Empty(), l, 0);
    assert [0] + Empty()[l] == [0];
    assert ch == Empty()[l := [0]];
    assert Push(ch, l, -1, 0) == ch;
  }
}
