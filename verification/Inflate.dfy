/**
  DecompressFile of docs/compress.c.  The stream means a list of tokens, decoded
  by plain prefix codes; the method below, which works through the tables, writes
  what the tokens expand to.
*/
module InflateSpec {
  import Bytes
  import opened Options
  import opened Powers
  import opened Bits
  import opened CanonicalCode
  import opened HuffmanTables
  import opened Decoders

  type Byte = Bytes.Byte

  /** A row of the table that the code lengths are written with. */
  datatype Row = Row(firstEncoding: nat, lastIndex: nat)

  /** The tables the source holds in global variables. */
  datatype CodeTables = CodeTables(
    table1: seq<Row>, table2: seq<Byte>, table3: seq<nat>,
    extraBitsLength: seq<nat>, extraBitsDistance: seq<nat>, backtrackTable: seq<nat>)

  /** The highest window that reaches row `k`. */
  function RowTop(t: seq<Row>, k: nat): int
    requires k < |t|
  {
    if k == 0 then WORD - 1 else t[k - 1].firstEncoding - 1
  }

  predicate RowOk(t: seq<Row>, k: nat)
    requires k < |t| <= 28
  {
    && 0 <= t[k].firstEncoding <= RowTop(t, k)
    && Shr(RowTop(t, k) - t[k].firstEncoding, 29 - k) <= t[k].lastIndex < 256
  }

  /** What the code relies on: every window has a row, and every index stays inside its table. */
  predicate TablesOk(tb: CodeTables) {
    && 1 <= |tb.table1| <= 28 && tb.table1[|tb.table1| - 1].firstEncoding == 0
    && (forall k :: 0 <= k < |tb.table1| ==> RowOk(tb.table1, k))
    && |tb.table2| == 256 && |tb.table3| >= 29 && |tb.extraBitsLength| == 29
    && |tb.extraBitsDistance| == 32 && |tb.backtrackTable| >= 32
    && (forall i :: 0 <= i < 29 ==> tb.extraBitsLength[i] <= 31)
    && (forall i :: 0 <= i < 32 ==> tb.extraBitsDistance[i] <= 31)
  }

  // ---------- The code lengths ----------

  /** The first row that the window reaches. */
  function FindRow(t: seq<Row>, w: nat, k: nat): (r: nat)
    requires k <= |t|
    ensures k <= r <= |t|
    ensures r < |t| ==> t[r].firstEncoding <= w
    ensures forall i :: k <= i < r ==> w < t[i].firstEncoding
    decreases |t| - k
  {
    if k == |t| || t[k].firstEncoding <= w then k else FindRow(t, w, k + 1)
  }

  lemma RowExists(tb: CodeTables, w: nat)
    requires TablesOk(tb) && w < WORD
    ensures
      var k := FindRow(tb.table1, w, 0);
      && k < |tb.table1|
      && Shr(w - tb.table1[k].firstEncoding, 29 - k) <= tb.table1[k].lastIndex < 256
  {
    hide FindRow, Shr;
    var t := tb.table1;
    var k := FindRow(t, w, 0);
    assert t[|t| - 1].firstEncoding <= w;
    assert RowOk(t, k);
    assert k > 0 ==> w < t[k - 1].firstEncoding;
    ShrMonotone(w - t[k].firstEncoding, RowTop(t, k) - t[k].firstEncoding, 29 - k);
  }

  datatype Pair = Pair(count: nat, len: nat, bits: nat)

  /** The next group of code lengths: how many symbols beyond the first, their length, and the bits it took. */
  function ReadPair(tb: CodeTables, s: seq<bool>): (p: Pair)
    requires TablesOk(tb)
    ensures p.count <= 7 && p.len < LENGTHS && 3 <= p.bits <= 31
  {
    var w := Val(Take(s, 32));
    Pow2Values();
    ValBound(Take(s, 32));
    RowExists(tb, w);
    var k := FindRow(tb.table1, w, 0);
    var temp := tb.table2[tb.table1[k].lastIndex - Shr(w - tb.table1[k].firstEncoding, 29 - k)];
    Pair(temp / 32, temp % 32, k + 3)
  }

  function Empty(): Chains {
    seq(LENGTHS, _ => [])
  }

  function PushOne(ch: Chains, l: nat, x: nat): Chains
    requires l < LENGTHS
  {
    ch[l := [x] + ch[l]]
  }

  /** The symbols from `cur` down, `n` of them, join the front of the list of length `l` one by one. */
  function Push(ch: Chains, l: nat, cur: int, n: nat): Chains
    requires l < LENGTHS && n <= cur + 1
    decreases n
  {
    if n == 0 then ch else Push(PushOne(ch, l, cur), l, cur - 1, n - 1)
  }

  datatype Header = Header(ch: Chains, rest: seq<bool>)

  /** The lists of symbols by length, read from symbol `cur` down; `None` when a group has too many symbols. */
  function ReadLengths(tb: CodeTables, s: seq<bool>, count: nat, cur: int, ch: Chains): Option<Header>
    requires TablesOk(tb) && cur < count
    decreases cur + 1
  {
    if cur < 0 then Some(Header(ch, s))
    else
      var p := ReadPair(tb, s);
      if p.count > cur then None
      else if p.len != 0 || count < 2 then
        ReadLengths(tb, Drop(s, p.bits), count, cur - p.count - 1, Push(ch, p.len, cur, p.count + 1))
      else
        ReadLengths(tb, Drop(s, p.bits), count, cur - p.count - 1, ch)
  }

  /** A table without any codeword gives the last symbol the empty codeword. */
  function Defaulted(ch: Chains, count: nat): Chains {
    if count != 0 && Count(ch, LENGTHS) == 0 then ch[0 := [count - 1]] else ch
  }

  function ReadHeader(tb: CodeTables, s: seq<bool>): Option<Header>
    requires TablesOk(tb)
  {
    var count := Val(Take(s, 16));
    Finish(ReadLengths(tb, Drop(s, 16), count, count - 1, Empty()), count)
  }

  function Finish(h: Option<Header>, count: nat): Option<Header> {
    if h.None? then None else Some(Header(Defaulted(h.value.ch, count), h.value.rest))
  }

  // ---------- Tokens ----------

  type Positive = n: int | 1 <= n witness 1

  datatype Token = Literal(byte: Byte) | Copy(count: Positive, distance: Positive)

  /** i modulo d, by counting round and round. */
  function Cycle(i: nat, d: Positive): (c: nat)
    ensures c < d && c <= i
  {
    if i < d then i else Cycle(i - d, d)
  }

  lemma {:induction false} CycleIsModulo(i: nat, d: Positive)
    ensures Cycle(i, d) == i % d
  {
    if i >= d {
      CycleIsModulo(i - d, d);
      ModuloLess(i, d);
    } else {
      QuotientUnique(d, i / d, i % d, 0, i);
    }
  }

  lemma ModuloLess(i: nat, d: Positive)
    requires i >= d
    ensures (i - d) % d == i % d
  {
    var q, r := (i - d) / d, (i - d) % d;
    assert i - d == q * d + r;
    assert (q + 1) * d == q * d + d;
    QuotientUnique(d, i / d, i % d, q + 1, r);
  }

  /** What a token appends: a byte, or the last `distance` bytes over and over. */
  function Expand(out: seq<Byte>, t: Token): (r: seq<Byte>)
    requires t.Copy? ==> t.distance <= |out|
    ensures out <= r && |r| == |out| + (if t.Copy? then t.count else 1)
  {
    match t
    case Literal(b) => out + [b]
    case Copy(n, d) => out + seq(n, i requires 0 <= i < n => out[|out| - d + Cycle(i, d)])
  }

  /** A copy repeats the last `d` bytes with period `d`, also when it is longer than `d`. */
  lemma CopyPeriodic(out: seq<Byte>, n: Positive, d: Positive, i: nat)
    requires d <= |out| && i < n
    ensures Expand(out, Copy(n, d))[|out| + i] == out[|out| - d + i % d]
  {
    CycleIsModulo(i, d);
    hide Cycle;
  }

  datatype Decoded2 = Decoded2(token: Token, rest: seq<bool>)

  /**
    What reading comes to: a value; the end of the program at a failed assert (or at a
    shift by the width of a word); or nothing that the source defines, where a code is
    not complete or a table is read outside its bounds.
  */
  datatype Reading<+T> = Done(value: T) | Stops | Unknown

  function WithExtra(base: nat, s: seq<bool>, n: nat): nat {
    if n == 0 then base else Or(base, Val(Take(s, n)))
  }

  datatype Distance = Distance(value: Positive, rest: seq<bool>)

  function ReadDistance(tb: CodeTables, dist: Chains, s: seq<bool>): Reading<Distance>
    requires TablesOk(tb)
  {
    if !Complete(dist) then Unknown
    else if !ShortEnough(dist) then Stops
    else
      var e := Decode(dist, s);
      var s' := Drop(s, e.len);
      if e.symbol >= 32 then Unknown
      else
        var back := WithExtra(tb.backtrackTable[e.symbol], s', tb.extraBitsDistance[e.symbol]);
        Done(Distance(back + 1, Drop(s', tb.extraBitsDistance[e.symbol])))
  }

  /** A copy token: its length from symbol `256 + k` on, its distance from the second code. */
  function CopyToken(tb: CodeTables, dist: Chains, first4: nat, k: nat, s: seq<bool>): Reading<Decoded2>
    requires TablesOk(tb) && k < 29
  {
    var n := first4 + WithExtra(tb.table3[k], s, tb.extraBitsLength[k]) + 1;
    var d := ReadDistance(tb, dist, Drop(s, tb.extraBitsLength[k]));
    match d
    case Unknown => Unknown
    case Stops => Stops
    case Done(e) => Done(Decoded2(Copy(n, e.value), e.rest))
  }

  /** The next token. */
  function ReadToken(tb: CodeTables, lit: Chains, dist: Chains, first4: nat, s: seq<bool>): Reading<Decoded2>
    requires TablesOk(tb)
  {
    if !Complete(lit) then Unknown
    else if !ShortEnough(lit) then Stops
    else
      var c := Decode(lit, s);
      var s1 := Drop(s, c.len);
      if c.symbol < 256 then Done(Decoded2(Literal(c.symbol), s1))
      else if c.symbol - 256 >= 29 then Stops
      else CopyToken(tb, dist, first4, c.symbol - 256, s1)
  }

  /** A copy neither starts before the output nor runs past its end. */
  predicate Allowed(t: Token, written: nat, size: nat) {
    t.Copy? ==> t.distance <= written && written + t.count <= size
  }

  datatype Progress = Progress(out: seq<Byte>, rest: seq<bool>)

  /** Up to `n` tokens, or until `size` bytes are written; a token may not reach before the start or past the end. */
  function ReadBlock(tb: CodeTables, lit: Chains, dist: Chains, first4: nat, s: seq<bool>,
                     out: seq<Byte>, size: nat, n: nat): (r: Reading<Progress>)
    requires TablesOk(tb) && |out| <= size
    ensures r.Done? ==> |out| <= |r.value.out| <= size && out <= r.value.out
    ensures r.Done? && |out| < size && n > 0 ==> |out| < |r.value.out|
    decreases n
  {
    if n == 0 || |out| == size then Done(Progress(out, s))
    else
      match ReadToken(tb, lit, dist, first4, s)
      case Unknown => Unknown
      case Stops => Stops
      case Done(d) =>
        if !Allowed(d.token, |out|, size) then Stops
        else ReadBlock(tb, lit, dist, first4, d.rest, Expand(out, d.token), size, n - 1)
  }

  /** Block after block, each with its own two codes, until `size` bytes are written. */
  function ReadBlocks(tb: CodeTables, first4: nat, s: seq<bool>, out: seq<Byte>, size: nat): (r: Reading<seq<Byte>>)
    requires TablesOk(tb) && |out| <= size
    ensures r.Done? ==> |r.value| == size && out <= r.value
    decreases size - |out|
  {
    if |out| == size then Done(out)
    else
      match ReadHeader(tb, s)
      case None => Stops
      case Some(lit) =>
        match ReadHeader(tb, lit.rest)
        case None => Stops
        case Some(dist) =>
          var n := (Val(Take(dist.rest, 4)) + 1) * 4096;
          match ReadBlock(tb, lit.ch, dist.ch, first4, Drop(dist.rest, 4), out, size, n)
          case Unknown => Unknown
          case Stops => Stops
          case Done(p) => ReadBlocks(tb, first4, p.rest, p.out, size)
  }

  /** The whole file: 4 bits to skip, 4 bits that every copy length starts from, then the blocks. */
  function ReadFile(tb: CodeTables, s: seq<bool>, size: nat): Reading<seq<Byte>>
    requires TablesOk(tb)
  {
    var s1 := Drop(s, 4);
    ReadBlocks(tb, Val(Take(s1, 4)), Drop(s1, 4), [], size)
  }
}

module Inflating {
  import opened Options
  import opened Powers
  import opened Bits
  import opened CanonicalCode
  import opened HuffmanTables
  import opened Decoders
  import opened BitReaders
  import opened InflateSpec

  // ---------- The linked lists of symbols ----------

  predicate Above(ch: Chains, cur: int) {
    forall l, i :: 0 <= l < LENGTHS && 0 <= i < |ch[l]| ==> cur < ch[l][i]
  }

  lemma {:induction false} LinkedFrame(follow: seq<nat>, start: nat, c: seq<nat>, x: nat, v: nat)
    requires Linked(follow, start, c) && x < |follow| && forall i :: 0 <= i < |c| ==> c[i] != x
    ensures Linked(follow[x := v], start, c)
    decreases |c|
  {
    if c != [] {
      LinkedFrame(follow, follow[c[0]], c[1..], x, v);
    }
  }

  lemma PushLinked(follow: seq<nat>, root: seq<nat>, ch: Chains, l: nat, x: nat)
    requires AllLinked(follow, root, ch) && l < LENGTHS && x < |follow| < NIL && Above(ch, x)
    ensures AllLinked(follow[x := root[l]], root[l := x], PushOne(ch, l, x))
    ensures Above(PushOne(ch, l, x), x - 1)
  {
    var f := follow[x := root[l]];
    forall k | 0 <= k < LENGTHS
      ensures Linked(f, root[l := x][k], PushOne(ch, l, x)[k])
    {
      LinkedFrame(follow, root[k], ch[k], x, root[l]);
      assert ([x] + ch[l])[1..] == ch[l];
    }
  }

  lemma {:induction false} CountPush(ch: Chains, l: nat, x: nat, m: nat)
    requires l < LENGTHS && m <= LENGTHS
    ensures Count(PushOne(ch, l, x), m) == Count(ch, m) + (if l < m then 1 else 0)
  {
    if m > 0 {
      CountPush(ch, l, x, m - 1);
    }
  }

  lemma {:induction false} CountEmpty(m: nat)
    requires m <= LENGTHS
    ensures Count(Empty(), m) == 0
  {
    if m > 0 {
      CountEmpty(m - 1);
    }
  }

  /** The group of symbols `cur` down to `cur - n + 1` is linked in. */
  method PushGroup(root: array<nat>, follow: array<nat>, codeLen: nat, cur0: nat, n: nat, ghost ch0: Chains) returns (ghost ch: Chains)
    requires root != follow && codeLen < LENGTHS && n <= cur0 + 1 && cur0 < follow.Length < 0x1_0000
    requires AllLinked(follow[..], root[..], ch0) && Above(ch0, cur0)
    modifies root, follow
    ensures ch == Push(ch0, codeLen, cur0, n) && Count(ch, LENGTHS) == Count(ch0, LENGTHS) + n
    ensures AllLinked(follow[..], root[..], ch) && Above(ch, cur0 - n)
  {
    ch := ch0;
    var cur: int := cur0;
    var i := 0;
    while i < n
      invariant 0 <= i <= n && cur == cur0 - i
      invariant Push(ch, codeLen, cur, n - i) == Push(ch0, codeLen, cur0, n)
      invariant Count(ch, LENGTHS) == Count(ch0, LENGTHS) + i
      invariant AllLinked(follow[..], root[..], ch) && Above(ch, cur)
    {
      ghost var f: seq<nat>, r: seq<nat> := follow[..], root[..];
      var x: nat := cur;
      follow[x] := root[codeLen];
      root[codeLen] := x;
      PushLinked(f, r, ch, codeLen, x);
      CountPush(ch, codeLen, x, LENGTHS);
      assert follow[..] == f[x := r[codeLen]] && root[..] == r[codeLen := x];
      ch := PushOne(ch, codeLen, x);
      cur := cur - 1;
      i := i + 1;
    }
  }

  lemma PairAt(tb: CodeTables, s: seq<bool>, w: nat, k: nat)
    requires TablesOk(tb) && w == Val(Take(s, 32)) && w < WORD && k == FindRow(tb.table1, w, 0)
    ensures 3 <= k + 3 <= 31 && k < |tb.table1| && tb.table1[k].firstEncoding <= w
    ensures var offset := Shr(w - tb.table1[k].firstEncoding, 32 - (k + 3));
      && offset <= tb.table1[k].lastIndex && tb.table1[k].lastIndex - offset < |tb.table2|
      && var temp := tb.table2[tb.table1[k].lastIndex - offset];
      ReadPair(tb, s) == Pair(temp / 32, temp % 32, k + 3)
  {
    hide Val, Take, Shr, FindRow, RowOk;
    RowExists(tb, w);
  }

  lemma RowsEnd(tb: CodeTables, w: nat)
    requires TablesOk(tb) && w < WORD
    ensures FindRow(tb.table1, w, 0) < |tb.table1| <= 28
  {
    hide FindRow;
    RowExists(tb, w);
  }

  lemma SmallWindow(s: seq<bool>)
    ensures Val(Take(s, 32)) < WORD
  {
    Pow2Values();
    ValBound(Take(s, 32));
  }

  /** The next group of code lengths. */
  method NextPair(state: DecompressState, tb: CodeTables) returns (numberOfCode: nat, codeLen: nat)
    requires TablesOk(tb) && state.Valid()
    modifies state
    ensures state.Valid()
    ensures var p := ReadPair(tb, old(state.rest));
      numberOfCode == p.count && codeLen == p.len && state.rest == Drop(old(state.rest), p.bits)
  {
    hide ReadPair, TablesOk, DecompressState.Valid, Val, Take, Drop, Shr;
    state.Window();
    SmallWindow(state.rest);
    RowsEnd(tb, state.buf1);
    var idx := 0;
    while tb.table1[idx].firstEncoding > state.buf1
      invariant 0 <= idx <= FindRow(tb.table1, state.buf1, 0)
      invariant FindRow(tb.table1, state.buf1, idx) == FindRow(tb.table1, state.buf1, 0)
      decreases FindRow(tb.table1, state.buf1, 0) - idx
    {
      idx := idx + 1;
    }
    PairAt(tb, state.rest, state.buf1, idx);

    var bitCount := idx + 3;
    var offset := Shr(state.buf1 - tb.table1[idx].firstEncoding, 32 - bitCount);
    var temp := tb.table2[tb.table1[idx].lastIndex - offset];
    state.ConsumeBits(bitCount);

    numberOfCode := temp / 32;
    codeLen := temp % 32;
  }

  /** One group: its symbols are linked in, unless their length says that they are absent. */
  method ReadGroup(state: DecompressState, tb: CodeTables, root: array<nat>, follow: array<nat>, cur: nat, ghost ch0: Chains)
    returns (ok: bool, n: nat, added: nat, ghost ch: Chains)
    requires TablesOk(tb) && state.Valid() && root != follow && cur < follow.Length < 0x1_0000
    requires AllLinked(follow[..], root[..], ch0) && Above(ch0, cur)
    modifies state, root, follow
    ensures state.Valid() && 1 <= n && (ok ==> n <= cur + 1)
    ensures AllLinked(follow[..], root[..], ch)
    ensures ReadLengths(tb, old(state.rest), follow.Length, cur, ch0)
         == if ok then ReadLengths(tb, state.rest, follow.Length, cur - n, ch) else None
    ensures ok ==> Above(ch, cur - n)
    ensures ok ==> Count(ch, LENGTHS) == Count(ch0, LENGTHS) + added && added <= n
  {
    hide ReadPair, Push, AllLinked, Count, Drop, TablesOk, DecompressState.Valid;
    ch, added := ch0, 0;
    var numberOfCode, codeLen := NextPair(state, tb);
    n := numberOfCode + 1;
    ok := numberOfCode <= cur;
    if ok && (codeLen != 0 || follow.Length < 2) {
      added := n;
      ch := PushGroup(root, follow, codeLen, cur, n, ch);
    }
  }

  /** The loop over the symbols; `cur` at -1 stands for the source's unsigned wrap-around, which ends it. */
  method ReadCodeLengths(state: DecompressState, tb: CodeTables, root: array<nat>, follow: array<nat>)
    returns (ok: bool, totalSymbolCount: nat, ghost ch: Chains)
    requires TablesOk(tb) && state.Valid() && root != follow && follow.Length < 0x1_0000
    requires AllLinked(follow[..], root[..], Empty())
    modifies state, root, follow
    ensures state.Valid()
    ensures
      var h := ReadLengths(tb, old(state.rest), follow.Length, follow.Length - 1, Empty());
      (ok <==> h.Some?) && (ok ==> h.value == Header(ch, state.rest))
    ensures ok ==> AllLinked(follow[..], root[..], ch) && totalSymbolCount == Count(ch, LENGTHS) <= follow.Length
  {
    var symbolsCount := follow.Length;
    totalSymbolCount, ch := 0, Empty();
    CountEmpty(LENGTHS);
    var cur: int := symbolsCount - 1;
    ghost var goal := ReadLengths(tb, state.rest, symbolsCount, cur, ch);
    while cur >= 0
      invariant -1 <= cur < symbolsCount && state.Valid() && AllLinked(follow[..], root[..], ch) && Above(ch, cur)
      invariant totalSymbolCount == Count(ch, LENGTHS) <= symbolsCount - 1 - cur
      invariant ReadLengths(tb, state.rest, symbolsCount, cur, ch) == goal
      decreases cur + 1
    {
      var n, added;
      ok, n, added, ch := ReadGroup(state, tb, root, follow, cur, ch);
      if !ok {
        return;
      }
      totalSymbolCount := totalSymbolCount + added;
      cur := cur - n;
    }
    ok := true;
  }

  /** A table without any codeword gives the last symbol the empty codeword. */
  method DefaultSymbol(root: array<nat>, follow: array<nat>, total0: nat, ghost ch0: Chains) returns (total: nat, ghost ch: Chains)
    requires root != follow && follow.Length < 0x1_0000 && AllLinked(follow[..], root[..], ch0)
    requires total0 == Count(ch0, LENGTHS) <= follow.Length
    modifies root, follow
    ensures ch == Defaulted(ch0, follow.Length) && AllLinked(follow[..], root[..], ch)
    ensures total == Count(ch, LENGTHS) <= follow.Length
  {
    total, ch := total0, ch0;
    var symbolsCount := follow.Length;
    if symbolsCount != 0 && total == 0 {
      ghost var f: seq<nat>, r: seq<nat> := follow[..], root[..];
      NoSymbols(ch0, LENGTHS);
      var x: nat := symbolsCount - 1;
      follow[x] := root[0];
      root[0] := x;
      PushLinked(f, r, ch0, 0, x);
      CountPush(ch0, 0, x, LENGTHS);
      assert follow[..] == f[x := r[0]] && root[..] == r[0 := x];
      ch := PushOne(ch0, 0, x);
      assert [x] + ch0[0] == [x];
      total := 1;
    }
  }

  /** SetupNodesandTree; `ok` is false where its assertion stops the program. */
  method SetupNodesandTree(state: DecompressState, h: HuffmanData, tb: CodeTables) returns (ok: bool, ghost ch: Chains)
    requires TablesOk(tb) && state.Valid() && h.Sane()
    modifies state, h, h.table, h.large
    ensures state.Valid() && h.Sane() && h.number == h.codes.Length && fresh(h.codes)
    ensures
      var header := ReadHeader(tb, old(state.rest));
      (ok <==> header.Some?) && (ok ==> header.value == Header(ch, state.rest))
    ensures ok && Complete(ch) ==> h.Ready(ch)
  {
    h.codes := new nat[0];
    h.number := 0;

    var root, follow, totalSymbolCount;
    ok, root, follow, totalSymbolCount, ch := ReadTable(state, tb);
    if ok {
      var fits := h.BuildTables(root, follow, totalSymbolCount, ch);
    }
  }

  /** The first half of SetupNodesandTree: the number of symbols, then their code lengths. */
  method ReadTable(state: DecompressState, tb: CodeTables)
    returns (ok: bool, root: array<nat>, follow: array<nat>, totalSymbolCount: nat, ghost ch: Chains)
    requires TablesOk(tb) && state.Valid()
    modifies state
    ensures state.Valid() && fresh(root) && fresh(follow)
    ensures
      var header := ReadHeader(tb, old(state.rest));
      (ok <==> header.Some?) && (ok ==> header.value == Header(ch, state.rest))
    ensures ok ==> AllLinked(follow[..], root[..], ch) && totalSymbolCount == Count(ch, LENGTHS) < 0x1_0000
  {
    ghost var s := state.rest;
    var symbolsCount := state.GetBits(16);
    Pow2Values();
    ValBound(Take(state.rest, 16));
    state.ConsumeBits(16);
    assert ReadHeader(tb, s) == Finish(ReadLengths(tb, state.rest, symbolsCount, symbolsCount as int - 1, Empty()), symbolsCount);

    follow := new nat[symbolsCount](_ => 0);
    root := new nat[LENGTHS](_ => NIL);

    ok, totalSymbolCount, ch := ReadCodeLengths(state, tb, root, follow);
    if ok {
      totalSymbolCount, ch := DefaultSymbol(root, follow, totalSymbolCount, ch);
    }
  }

  lemma {:induction false} NoSymbols(ch: Chains, m: nat)
    requires m <= LENGTHS && Count(ch, m) == 0
    ensures forall l :: 0 <= l < m ==> ch[l] == []
  {
    if m > 0 {
      NoSymbols(ch, m - 1);
    }
  }

  // ---------- Tokens ----------

  /** The byte-by-byte copy, which may read bytes it has just written. */
  method CopyBytes(output: array<Byte>, ptr: nat, distance: Positive, count: Positive)
    requires distance <= ptr && ptr + count <= output.Length
    modifies output
    ensures output[..ptr + count] == Expand(old(output[..ptr]), Copy(count, distance))
  {
    ghost var out := output[..ptr];
    var i := 0;
    while i < count
      invariant 0 <= i <= count && output[..ptr] == out
      invariant forall k :: 0 <= k < i ==> output[ptr + k] == out[ptr - distance + Cycle(k, distance)]
    {
      if i >= distance {
        assert output[ptr + (i - distance)] == out[ptr - distance + Cycle(i - distance, distance)];
      } else {
        assert output[ptr - distance + i] == out[ptr - distance + i];
      }
      output[ptr + i] := output[ptr - distance + i];
      i := i + 1;
    }
    ghost var e := Expand(out, Copy(count, distance));
    forall k | 0 <= k < ptr + count
      ensures output[k] == e[k]
    {
      if k < ptr {
        assert output[..ptr][k] == out[k];
      } else {
        assert output[ptr + (k - ptr)] == out[ptr - distance + Cycle(k - ptr, distance)];
      }
    }
  }

  /** Extra bits below a base value; none are read when there are none. */
  method ReadExtra(state: DecompressState, base: nat, len: nat) returns (v: nat)
    requires state.Valid() && len <= 31
    modifies state
    ensures state.Valid() && v == WithExtra(base, old(state.rest), len) && state.rest == Drop(old(state.rest), len)
  {
    v := base;
    if len != 0 {
      v := Or(base, state.GetBits(len));
      state.ConsumeBits(len);
    }
  }

  /** The tables are ready if their code is complete. */
  ghost predicate Loaded(h: HuffmanData, ch: Chains)
    reads h, h.table, h.large, h.codes
  {
    h.Sane() && h.number == h.codes.Length && (Complete(ch) ==> h.Ready(ch))
  }

  /** One symbol, with what a complete code promises. */
  method NextSymbol(state: DecompressState, h: HuffmanData, ghost ch: Chains) returns (ok: bool, code: nat)
    requires state.Valid() && Loaded(h, ch)
    modifies state
    ensures state.Valid()
    ensures Complete(ch) ==> (ok <==> ShortEnough(ch))
    ensures Complete(ch) && ok ==> Decode(ch, old(state.rest)).symbol == code
    ensures Complete(ch) && ok ==> state.rest == Drop(old(state.rest), Decode(ch, old(state.rest)).len)
  {
    ok, code := GetNextCode(state, h, ch);
  }

  method TakeDistance(state: DecompressState, dist: HuffmanData, tb: CodeTables, ghost ch: Chains)
    returns (ok: bool, distance: Positive)
    requires TablesOk(tb) && state.Valid() && Loaded(dist, ch)
    modifies state
    ensures state.Valid()
    ensures
      var d := ReadDistance(tb, ch, old(state.rest));
      d.Unknown? || (if ok then d == Done(Distance(distance, state.rest)) else d.Stops?)
  {
    hide Complete, ShortEnough, Decode, WithExtra, Loaded, DecompressState.Valid, Take, Drop, Val;
    distance := 1;
    var symbol;
    ok, symbol := NextSymbol(state, dist, ch);
    if !ok {
      return;
    }
    // The source would read past the end of its table of extra bits.
    if symbol >= 32 {
      return false, distance;
    }
    var backtrack := ReadExtra(state, tb.backtrackTable[symbol], tb.extraBitsDistance[symbol]);
    distance := backtrack + 1;
  }

  method TakeCopy(state: DecompressState, dist: HuffmanData, tb: CodeTables, first4Bits: nat, k: nat, ghost ch: Chains)
    returns (ok: bool, token: Token)
    requires TablesOk(tb) && state.Valid() && Loaded(dist, ch) && k < 29
    modifies state
    ensures state.Valid()
    ensures
      var d := CopyToken(tb, ch, first4Bits, k, old(state.rest));
      d.Unknown? || (if ok then d == Done(Decoded2(token, state.rest)) else d.Stops?)
  {
    hide ReadDistance, WithExtra;
    var len := ReadExtra(state, tb.table3[k], tb.extraBitsLength[k]);
    var distance;
    ok, distance := TakeDistance(state, dist, tb, ch);
    token := Copy(first4Bits + len + 1, distance);
  }

  /** One token is decoded; `ok` is false where an assertion of the source stops the program. */
  method TakeToken(state: DecompressState, lit: HuffmanData, dist: HuffmanData, tb: CodeTables, first4Bits: nat,
                   ghost litCh: Chains, ghost distCh: Chains) returns (ok: bool, token: Token)
    requires TablesOk(tb) && state.Valid() && Loaded(lit, litCh) && Loaded(dist, distCh)
    modifies state
    ensures state.Valid()
    ensures
      var d := ReadToken(tb, litCh, distCh, first4Bits, old(state.rest));
      d.Unknown? || (if ok then d == Done(Decoded2(token, state.rest)) else d.Stops?)
  {
    token := Literal(0);
    var code;
    ok, code := NextSymbol(state, lit, litCh);
    if !ok {
      return;
    }

    if code < 0x100 {
      token := Literal(code);
    } else {
      var k := code - 0x100;
      if k >= 29 {
        return false, token;
      }
      ok, token := TakeCopy(state, dist, tb, first4Bits, k, distCh);
    }
  }

  /** One token is written, unless an assertion on a copy stops the program. */
  method WriteToken(output: array<Byte>, ptr: nat, token: Token) returns (ok: bool, ptr': nat)
    requires ptr < output.Length
    modifies output
    ensures ok <==> Allowed(token, ptr, output.Length)
    ensures ok ==> ptr < ptr' <= output.Length && output[..ptr'] == Expand(old(output[..ptr]), token)
  {
    ok, ptr' := true, ptr + 1;
    match token {
      case Literal(b) =>
        output[ptr] := b;
        assert output[..ptr'] == old(output[..ptr]) + [b];
      case Copy(count, distance) =>
        if distance > ptr || count > output.Length - ptr {
          return false, ptr;
        }
        CopyBytes(output, ptr, distance, count);
        ptr' := ptr + count;
    }
  }

  // ---------- Blocks ----------

  /** The inner loop of DecompressFile: tokens until the block or the output is full. */
  method DecodeBlock(state: DecompressState, lit: HuffmanData, dist: HuffmanData, tb: CodeTables, first4Bits: nat,
                     output: array<Byte>, ptr0: nat, blockSize: nat, ghost litCh: Chains, ghost distCh: Chains)
    returns (ok: bool, ptr: nat)
    requires TablesOk(tb) && state.Valid() && Loaded(lit, litCh) && Loaded(dist, distCh)
    requires ptr0 < output.Length && blockSize > 0
    modifies state, output
    ensures state.Valid() && (ok ==> ptr0 < ptr <= output.Length)
    ensures
      var r := ReadBlock(tb, litCh, distCh, first4Bits, old(state.rest), old(output[..ptr0]), output.Length, blockSize);
      r.Unknown? || (if ok then r == Done(Progress(output[..ptr], state.rest)) else r.Stops?)
  {
    hide ReadToken, Expand, Allowed, Loaded, Complete, ShortEnough, TablesOk, DecompressState.Valid;
    ptr := ptr0;
    ok := true;
    var loopCount := 0;
    ghost var goal := ReadBlock(tb, litCh, distCh, first4Bits, state.rest, output[..ptr0], output.Length, blockSize);
    while loopCount < blockSize && ptr != output.Length
      invariant loopCount <= blockSize && ptr0 <= ptr <= output.Length && (loopCount > 0 ==> ptr0 < ptr)
      invariant state.Valid() && Loaded(lit, litCh) && Loaded(dist, distCh)
      invariant goal.Unknown? || goal ==
        ReadBlock(tb, litCh, distCh, first4Bits, state.rest, output[..ptr], output.Length, blockSize - loopCount)
      decreases blockSize - loopCount
    {
      var token;
      ok, token := TakeToken(state, lit, dist, tb, first4Bits, litCh, distCh);
      if !ok {
        return;
      }
      ok, ptr := WriteToken(output, ptr, token);
      if !ok {
        return;
      }
      loopCount := loopCount + 1;
    }
  }

  /** DecompressFile, on the words of the input; `ok` is false where an assertion of the source stops the program. */
  method DecompressFile(input: seq<nat>, outputSize: nat, tb: CodeTables) returns (ok: bool, output: array<Byte>)
    requires TablesOk(tb) && |input| >= 2 && forall i :: 0 <= i < |input| ==> input[i] < WORD
    ensures output.Length == outputSize
    ensures
      var r := ReadFile(tb, WordsBits(input), outputSize);
      r.Unknown? || (if ok then r == Done(output[..]) else r.Stops?)
  {
    var state := new DecompressState(input);
    var lit := new HuffmanData();
    var dist := new HuffmanData();
    output := new Byte[outputSize](_ => 0);

    state.ConsumeBits(4);
    var first4Bits := state.GetBits(4);
    state.ConsumeBits(4);

    var ptr := 0;
    ghost var goal := ReadBlocks(tb, first4Bits, state.rest, [], outputSize);
    assert output[..0] == [];
    ok := true;
    while ptr != outputSize
      invariant ptr <= outputSize == output.Length && state.Valid() && lit.Sane() && dist.Sane()
      invariant goal.Unknown? || goal == ReadBlocks(tb, first4Bits, state.rest, output[..ptr], outputSize)
      decreases outputSize - ptr
    {
      ok, ptr := DecodeTwoTables(state, lit, dist, tb, first4Bits, output, ptr);
      if !ok {
        return;
      }
    }
    assert output[..ptr] == output[..];
  }

  /** One round of DecompressFile: two codes, the block size, the block. */
  method DecodeTwoTables(state: DecompressState, lit: HuffmanData, dist: HuffmanData, tb: CodeTables, first4Bits: nat,
                         output: array<Byte>, ptr0: nat) returns (ok: bool, ptr: nat)
    requires TablesOk(tb) && state.Valid() && lit.Sane() && dist.Sane() && ptr0 < output.Length
    requires lit != dist && lit.table != dist.table && lit.large != dist.large
    modifies state, output, lit, lit.table, lit.large, dist, dist.table, dist.large
    ensures state.Valid() && lit.Sane() && dist.Sane()
    ensures ok ==> ptr0 < ptr <= output.Length
    ensures
      var size, out := output.Length, old(output[..ptr0]);
      var r := ReadBlocks(tb, first4Bits, old(state.rest), out, size);
      r.Unknown? || (if ok then r == ReadBlocks(tb, first4Bits, state.rest, output[..ptr], size) else r.Stops?)
  {
    hide ReadHeader, ReadBlock, TablesOk, DecompressState.Valid, Complete, ShortEnough, HuffmanData.Ready, HuffmanData.Sane;
    ptr := ptr0;
    ghost var litCh, distCh;
    ok, litCh := SetupNodesandTree(state, lit, tb);
    if !ok {
      return;
    }
    ok, distCh := SetupNodesandTree(state, dist, tb);
    if !ok {
      return;
    }

    var blockInKbs := state.GetBits(4) + 1;
    var blockSize := blockInKbs * 4096;
    state.ConsumeBits(4);

    ok, ptr := DecodeBlock(state, lit, dist, tb, first4Bits, output, ptr, blockSize, litCh, distCh);
  }
}
