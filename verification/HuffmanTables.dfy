/**
  The decoding tables of docs/compress.c: 256 entries for codewords of up to 8
  bits, and for longer ones a table of lengths 9 to 31 with the symbols in the
  order their codewords are given out.
*/
module HuffmanTables {
  import opened Powers
  import opened Bits
  import opened CanonicalCode

  const NIL: nat := 0xFFFF_FFFF

  datatype HuffmanNode = HuffmanNode(len: nat, code: nat)
  datatype HuffmanHelper = HuffmanHelper(firstEncoding: nat, lastIndex: nat, encodingLen: nat)

  /** An unsigned subtraction that may go one below zero. */
  function Wrap(x: int): nat
    requires -1 <= x
  {
    if x < 0 then WORD - 1 else x
  }

  // ---------- The lists of symbols, linked through the follow table ----------

  /** The list from `start` on holds the symbols of `c`. */
  predicate Linked(follow: seq<nat>, start: nat, c: seq<nat>)
    decreases |c|
  {
    if c == [] then start == NIL
    else start == c[0] && c[0] < |follow| < NIL && Linked(follow, follow[c[0]], c[1..])
  }

  predicate AllLinked(follow: seq<nat>, root: seq<nat>, ch: Chains) {
    |root| == LENGTHS && forall l :: 0 <= l < LENGTHS ==> Linked(follow, root[l], ch[l])
  }

  // ---------- The fast table ----------

  /** The stream made of the bits of a table index. */
  function IndexBits(i: nat): seq<bool> {
    BitsOf(i, 8)
  }

  /** The entry of an index that starts with a codeword of at most 8 bits. */
  predicate ShortEntry(ch: Chains, i: nat, e: HuffmanNode) {
    var l := Find(ch, IndexBits(i), 0);
    var j := Index(ch, IndexBits(i), l);
    l <= 8 && 0 <= j < |ch[l]| && e == HuffmanNode(l, ch[l][j])
  }

  /** All indices from `t` on have their entries, the ones below are still empty. */
  predicate Painted(table: seq<HuffmanNode>, ch: Chains, t: int) {
    && |table| == 256 && 0 <= t <= 256
    && (forall i :: t <= i < 256 ==> ShortEntry(ch, i, table[i]))
    && (forall i :: 0 <= i < t ==> table[i] == HuffmanNode(0, 0))
  }

  /** The leading bits of a number between v * 2^(n - l) and the next such multiple. */
  lemma LeadingBits(i: nat, n: nat, l: nat, v: nat, lo: nat)
    requires l <= n && i < Pow2(n) && lo == v * Pow2(n - l) && lo <= i < lo + Pow2(n - l)
    ensures Prefix(BitsOf(i, n), l) == v
  {
    var b := BitsOf(i, n);
    ValBitsOf(i, n);
    assert b == b[..l] + b[l..] && Take(b, l) == b[..l];
    ValConcat(b[..l], b[l..]);
    ValBound(b[l..]);
    QuotientUnique(Pow2(n - l), Val(b[..l]), Val(b[l..]), v, i - lo);
  }

  lemma IndexPrefix(i: nat, l: nat, v: nat, lo: nat)
    requires l <= 8 && i < 256 && lo == v * Pow2(8 - l) && lo <= i < lo + Pow2(8 - l)
    ensures Prefix(IndexBits(i), l) == v
  {
    Pow2Values();
    LeadingBits(i, 8, l, v, lo);
  }

  /** The indices that start with the `j`-th codeword of length `l` decode to it. */
  lemma EntryOf(ch: Chains, l: nat, j: nat, i: nat, next: nat, lo: nat)
    requires l <= 8 && j < |ch[l]| && next == Room(ch, l) - 1 - j
    requires i < 256 && lo == next * Pow2(8 - l) && lo <= i < lo + Pow2(8 - l)
    ensures ShortEntry(ch, i, HuffmanNode(l, ch[l][j]))
  {
    IndexPrefix(i, l, next, lo);
    FoundAt(ch, IndexBits(i), l);
  }

  // ---------- The long codewords ----------

  /** The symbols of the lengths from 9 up to, but not including, `l`, in the order their codewords are given out. */
  function LongSymbols(ch: Chains, l: nat): (s: seq<nat>)
    requires 9 <= l <= LENGTHS
    ensures |s| == Offset(ch, l)
  {
    if l == 9 then [] else LongSymbols(ch, l - 1) + ch[l - 1]
  }

  function Offset(ch: Chains, l: nat): nat
    requires 9 <= l <= LENGTHS
  {
    if l == 9 then 0 else Offset(ch, l - 1) + |ch[l - 1]|
  }

  lemma {:induction false} LongSymbolsAt(ch: Chains, l: nat, j: nat, m: nat)
    requires 9 <= l < m <= LENGTHS && j < |ch[l]|
    ensures Offset(ch, l) + j < Offset(ch, m) && LongSymbols(ch, m)[Offset(ch, l) + j] == ch[l][j]
    decreases m
  {
    if l < m - 1 {
      LongSymbolsAt(ch, l, j, m - 1);
    }
  }

  /** How many symbols have lengths below `l`. */
  function Count(ch: Chains, l: nat): nat
    requires l <= LENGTHS
  {
    if l == 0 then 0 else Count(ch, l - 1) + |ch[l - 1]|
  }

  lemma {:induction false} CountSplit(ch: Chains, l: nat)
    requires 9 <= l <= LENGTHS
    ensures Count(ch, l) == Count(ch, 9) + Offset(ch, l)
  {
    if l > 9 {
      CountSplit(ch, l - 1);
    }
  }

  lemma {:induction false} CountMonotone(ch: Chains, l: nat, m: nat)
    requires l <= m <= LENGTHS
    ensures Count(ch, l) <= Count(ch, m)
    decreases m
  {
    if l < m {
      CountMonotone(ch, l, m - 1);
    }
  }

  /** r / 2^k, rounded up: how many indices the strings below `r` of 8 + k bits start with. */
  function Ceil(r: int, k: nat): int
    decreases k
  {
    if k == 0 then r else Ceil((r + 1) / 2, k - 1)
  }

  lemma {:induction false} CeilShr(r: int, k: nat)
    ensures r >= 1 ==> Ceil(r, k) == Shr(r - 1, k) + 1
    ensures r >= 0 ==> Ceil(r, k) >= Shr(r, k)
    decreases k
  {
    if k > 0 {
      CeilShr((r + 1) / 2, k - 1);
      if r >= 0 {
        ShrMonotone(r / 2, (r + 1) / 2, k - 1);
      }
      assert r >= 1 ==> (r + 1) / 2 - 1 == (r - 1) / 2;
    }
  }

  lemma {:induction false} ShrMonotone(x: nat, y: nat, k: nat)
    requires x <= y
    ensures Shr(x, k) <= Shr(y, k)
    decreases k
  {
    if k > 0 {
      ShrMonotone(x / 2, y / 2, k - 1);
    }
  }

  /** Entries of short codewords stand; the other indices are marked, except those some string below `r` of 8 + k bits starts with. */
  predicate Marked(table: seq<HuffmanNode>, ch: Chains, r: int, k: nat) {
    && |table| == 256 && 0 <= Ceil(r, k) <= Left(ch, 8) <= 256
    && (forall i :: Left(ch, 8) <= i < 256 ==> ShortEntry(ch, i, table[i]))
    && (forall i :: Ceil(r, k) <= i < Left(ch, 8) ==> table[i].len == NIL)
  }

  /** The symbols of the lengths from 9 up to `l`, and the first `j` of length `l`. */
  predicate Stored(codes: seq<nat>, ch: Chains, l: nat, j: nat)
    requires 9 <= l < LENGTHS && j <= |ch[l]|
  {
    Offset(ch, l) + j <= |codes| && codes[..Offset(ch, l) + j] == LongSymbols(ch, l) + ch[l][..j]
  }

  lemma TakeOneMore(a: seq<nat>, b: seq<nat>, j: nat)
    requires j < |b|
    ensures (a + b[..j]) + [b[j]] == a + b[..j + 1]
  {
  }

  lemma StoreStep(codes: seq<nat>, ch: Chains, l: nat, j: nat)
    requires 9 <= l < LENGTHS && j < |ch[l]| && Stored(codes, ch, l, j) && Offset(ch, l) + j < |codes|
    ensures Stored(codes[Offset(ch, l) + j := ch[l][j]], ch, l, j + 1)
  {
    var o := Offset(ch, l) + j;
    var codes' := codes[o := ch[l][j]];
    assert codes'[..o + 1] == codes[..o] + [ch[l][j]];
    TakeOneMore(LongSymbols(ch, l), ch[l], j);
  }

  predicate LongEntry(ch: Chains, l: nat, e: HuffmanHelper)
    requires 9 <= l < LENGTHS
  {
    Left(ch, l) >= 0 &&
    e == HuffmanHelper(Shl(Left(ch, l), 32 - l), Wrap(Offset(ch, l) + |ch[l]| - 1), l)
  }

  /** The row of length `l` in the table of long codewords. */
  predicate LongRowIs(ch: Chains, l: nat, large: seq<HuffmanHelper>)
    requires 9 <= l < LENGTHS && |large| == 24
  {
    LongEntry(ch, l, large[l - 9])
  }

  /** Marking the index that the string `r - 1` of 8 + k bits starts with. */
  lemma MarkStep(table: seq<HuffmanNode>, ch: Chains, r: nat, k: nat)
    requires Marked(table, ch, r, k) && r >= 1
    ensures
      var p := Shr(r - 1, k);
      p < Left(ch, 8) && Marked(table[p := table[p].(len := NIL)], ch, r - 1, k)
  {
    CeilShr(r, k);
    CeilShr(r - 1, k);
    CeilDown(r, k);
  }

  lemma {:induction false} CeilDown(r: int, k: nat)
    ensures Ceil(r - 1, k) <= Ceil(r, k)
    decreases k
  {
    if k > 0 {
      if r % 2 == 1 {
        CeilDown((r + 1) / 2, k - 1);
      }
    }
  }

  /** The lowest index that the first `given` codewords of length `l` cover: (Room - given) * 2^(8 - l). */
  function Edge(ch: Chains, l: nat, given: nat): int
    requires l <= 8
  {
    if given == 0 then Room(ch, l) * Pow2(8 - l) else Edge(ch, l, given - 1) - Pow2(8 - l)
  }

  lemma {:induction false} EdgeIs(ch: Chains, l: nat, given: nat)
    requires l <= 8
    ensures Edge(ch, l, given) == (Room(ch, l) - given) * Pow2(8 - l)
  {
    if given > 0 {
      EdgeIs(ch, l, given - 1);
      assert (Room(ch, l) - given) * Pow2(8 - l) == (Room(ch, l) - (given - 1)) * Pow2(8 - l) - Pow2(8 - l);
    }
  }

  /** Painting the indices of one more codeword. */
  lemma PaintStep(t: seq<HuffmanNode>, t': seq<HuffmanNode>, ch: Chains, l: nat, j: nat, lo: nat)
    requires l <= 8 && j < |ch[l]| && j < Room(ch, l) && lo == Edge(ch, l, j + 1)
    requires Painted(t, ch, Edge(ch, l, j)) && |t'| == 256
    requires forall i :: 0 <= i < 256 ==> t'[i] == if lo <= i < lo + Pow2(8 - l) then HuffmanNode(l, ch[l][j]) else t[i]
    ensures Painted(t', ch, lo)
  {
    EdgeIs(ch, l, j + 1);
    forall i | lo <= i < lo + Pow2(8 - l)
      ensures ShortEntry(ch, i, t'[i])
    {
      EntryOf(ch, l, j, i, Room(ch, l) - 1 - j, lo);
    }
  }

  /** The boundary between painted and empty indices does not move when the length grows. */
  lemma BoundaryStep(ch: Chains, l: nat)
    requires l < 8
    ensures Edge(ch, l + 1, 0) == Edge(ch, l, |ch[l]|)
  {
    EdgeIs(ch, l, |ch[l]|);
    var p := Pow2(8 - (l + 1));
    assert Pow2(8 - l) == 2 * p;
    assert (2 * Left(ch, l)) * p == Left(ch, l) * (2 * p);
  }

  /** Next code of the following length, computed modulo 2^32. */
  lemma NextLength(x: int)
    requires -1 <= x < 0x8000_0000
    ensures (2 * Wrap(x) + 1) % WORD == Wrap(2 * x + 1)
  {
  }

  lemma MarkedStart(table: seq<HuffmanNode>, ch: Chains)
    requires Painted(table, ch, Left(ch, 8))
    ensures Marked(table, ch, Room(ch, 9), 1)
  {
    assert Ceil(2 * Left(ch, 8), 1) == Left(ch, 8);
  }

  lemma MarkedNext(table: seq<HuffmanNode>, ch: Chains, l: nat)
    requires 9 <= l < LENGTHS && Marked(table, ch, Left(ch, l), l - 8)
    ensures Marked(table, ch, Room(ch, l + 1), l + 1 - 8)
  {
    assert Ceil(2 * Left(ch, l), l + 1 - 8) == Ceil(Left(ch, l), l - 8);
  }

  lemma StoredNext(codes: seq<nat>, ch: Chains, l: nat)
    requires 9 <= l < LENGTHS && Stored(codes, ch, l, |ch[l]|)
    ensures Offset(ch, l + 1) <= |codes| && codes[..Offset(ch, l + 1)] == LongSymbols(ch, l + 1)
  {
    assert ch[l][..|ch[l]|] == ch[l];
  }

  predicate RowsBelow(ch: Chains, len: nat, large: seq<HuffmanHelper>)
    requires len <= LENGTHS
  {
    |large| == 24 && forall l :: 9 <= l < len ==> LongRowIs(ch, l, large)
  }

  /** The lengths from 9 up to `len` have been dealt with. */
  predicate Rows(ch: Chains, len: nat, table: seq<HuffmanNode>, codes: seq<nat>, large: seq<HuffmanHelper>, next: nat, counter: nat)
  {
    && 9 <= len <= LENGTHS && 0 <= Room(ch, len) <= Pow2(len) && next == Wrap(Room(ch, len) - 1)
    && |codes| == Offset(ch, LENGTHS) && counter == Offset(ch, len) <= |codes| && codes[..counter] == LongSymbols(ch, len)
    && Marked(table, ch, Room(ch, len), len - 8)
    && RowsBelow(ch, len, large)
  }

  lemma RowsStart(ch: Chains, table: seq<HuffmanNode>, codes: seq<nat>, large: seq<HuffmanHelper>)
    requires Painted(table, ch, Left(ch, 8)) && |large| == 24 && |codes| == Offset(ch, LENGTHS)
    requires 0 <= Room(ch, 9) <= Pow2(9)
    ensures Rows(ch, 9, table, codes, large, Wrap(Room(ch, 9) - 1), 0)
  {
    MarkedStart(table, ch);
  }

  lemma RowsDone(ch: Chains, table: seq<HuffmanNode>, codes: seq<nat>, large: seq<HuffmanHelper>, next: nat, counter: nat)
    requires Rows(ch, LENGTHS, table, codes, large, next, counter)
    ensures codes == LongSymbols(ch, LENGTHS) && Marked(table, ch, Room(ch, LENGTHS), LENGTHS - 8)
    ensures RowsBelow(ch, LENGTHS, large)
  {
    assert codes[..|codes|] == codes;
  }

  lemma RowsNext(ch: Chains, len: nat, table: seq<HuffmanNode>, codes: seq<nat>,
                 large: seq<HuffmanHelper>, large': seq<HuffmanHelper>, next: nat)
    requires 9 <= len < LENGTHS && 0 <= Left(ch, len) && Room(ch, len) <= Pow2(len)
    requires Marked(table, ch, Left(ch, len), len - 8) && |codes| == Offset(ch, LENGTHS) && Stored(codes, ch, len, |ch[len]|)
    requires RowsBelow(ch, len, large) && |large'| == 24 && LongRowIs(ch, len, large')
    requires forall i :: 0 <= i < 24 && i != len - 9 ==> large'[i] == large[i]
    requires next == Wrap(2 * Left(ch, len) - 1)
    ensures Rows(ch, len + 1, table, codes, large', next, Offset(ch, len) + |ch[len]|)
  {
    assert Room(ch, len + 1) == 2 * Left(ch, len) && Pow2(len + 1) == 2 * Pow2(len);
    MarkedNext(table, ch, len);
    assert codes[..Offset(ch, len + 1)] == LongSymbols(ch, len + 1) && Offset(ch, len + 1) <= |codes| by {
      StoredNext(codes, ch, len);
    }
    RowsBelowNext(ch, len, large, large');
  }

  lemma RowsBelowNext(ch: Chains, len: nat, large: seq<HuffmanHelper>, large': seq<HuffmanHelper>)
    requires 9 <= len < LENGTHS && RowsBelow(ch, len, large) && |large'| == 24 && LongRowIs(ch, len, large')
    requires forall i :: 0 <= i < 24 && i != len - 9 ==> large'[i] == large[i]
    ensures RowsBelow(ch, len + 1, large')
  {
    forall l | 9 <= l < len + 1
      ensures LongRowIs(ch, l, large')
    {
      assert l < len ==> LongRowIs(ch, l, large) && large'[l - 9] == large[l - 9];
    }
  }

  lemma {:induction false} CeilZero(k: nat)
    ensures Ceil(0, k) == 0
  {
    if k > 0 {
      CeilZero(k - 1);
    }
  }

  /** Without codewords of more than 8 bits nothing changes from length 9 on. */
  lemma {:induction false} NoLongCodes(ch: Chains, l: nat)
    requires 9 <= l <= LENGTHS && Count(ch, LENGTHS) == Count(ch, 9) && FitsBelow(ch, 9)
    ensures FitsBelow(ch, l) && (Left(ch, 8) > 0 ==> Room(ch, l) > 0) && Room(ch, l) >= 0
  {
    if l > 9 {
      NoLongCodes(ch, l - 1);
      CountMonotone(ch, 9, l - 1);
      CountMonotone(ch, l, LENGTHS);
    }
  }

  /** The shape the tables have for a complete code. */
  predicate TablesFor(ch: Chains, table: seq<HuffmanNode>, codes: seq<nat>, large: seq<HuffmanHelper>) {
    && |large| == 24 && Marked(table, ch, 0, 0) && Count(ch, LENGTHS) < 0x1_0000
    && (Left(ch, 8) > 0 ==> codes == LongSymbols(ch, LENGTHS) && RowsBelow(ch, LENGTHS, large))
  }

  lemma TablesShort(ch: Chains, table: seq<HuffmanNode>, codes: seq<nat>, large: seq<HuffmanHelper>)
    requires Complete(ch) && |large| == 24 && Count(ch, LENGTHS) == Count(ch, 9) < 0x1_0000
    requires FitsBelow(ch, 9) && Painted(table, ch, Left(ch, 8))
    ensures TablesFor(ch, table, codes, large)
  {
    NoLongCodes(ch, LENGTHS);
    RoomZero(ch);
  }

  lemma TablesLong(ch: Chains, table: seq<HuffmanNode>, codes: seq<nat>, large: seq<HuffmanHelper>)
    requires Complete(ch) && RowsBelow(ch, LENGTHS, large) && codes == LongSymbols(ch, LENGTHS)
    requires Count(ch, LENGTHS) < 0x1_0000 && Marked(table, ch, Room(ch, LENGTHS), LENGTHS - 8)
    ensures TablesFor(ch, table, codes, large)
  {
    RoomZero(ch);
    CeilZero(LENGTHS - 8);
  }

  lemma RoomZero(ch: Chains)
    requires Complete(ch)
    ensures Room(ch, LENGTHS) == 0
  {
    var l :| 0 <= l < LENGTHS && Left(ch, l) == 0;
    StaysEmpty(ch, l, LENGTHS - 1);
  }

  class HuffmanData {
    const table: array<HuffmanNode>
    const large: array<HuffmanHelper>
    var codes: array<nat>
    var number: nat

    ghost predicate Shaped()
      reads this
    {
      table.Length == 256 && large.Length == 24
    }

    /** Lengths in the tables never exceed what the bit reader takes at once. */
    ghost predicate Sane()
      reads this, table, large
    {
      && Shaped()
      && (forall i :: 0 <= i < 256 ==> table[i].len <= 8 || table[i].len == NIL)
      && (forall i :: 0 <= i < 24 ==> large[i].encodingLen <= 31)
    }

    constructor ()
      ensures Sane() && fresh(table) && fresh(large)
    {
      table := new HuffmanNode[256](_ => HuffmanNode(0, 0));
      large := new HuffmanHelper[24](_ => HuffmanHelper(0, 0, 0));
      codes := new nat[0];
      number := 0;
    }

    /** Marks all indices from `start` on, `count` of them, with one codeword. */
    method Fill(start: nat, count: nat, len: nat, code: nat)
      requires Sane() && start + count <= 256 && len <= 8
      modifies table
      ensures Sane()
      ensures forall i :: 0 <= i < 256 ==>
        table[i] == if start <= i < start + count then HuffmanNode(len, code) else old(table[i])
    {
      var i := start;
      while i < start + count
        invariant start <= i <= start + count && Sane()
        invariant forall k :: 0 <= k < 256 ==>
          table[k] == if start <= k < i then HuffmanNode(len, code) else old(table[k])
      {
        table[i] := HuffmanNode(len, code);
        i := i + 1;
      }
    }

    /** Gives out the codewords of one length of at most 8 bits; fails when there are not enough. */
    method ShortLength(len: nat, first: nat, next0: nat, follow: array<nat>, ghost ch: Chains)
      returns (ok: bool, next: nat, given: nat)
      requires Sane() && len <= 8 && Linked(follow[..], first, ch[len])
      requires 0 <= Room(ch, len) <= Pow2(len) && next0 == Wrap(Room(ch, len) - 1)
      requires Painted(table[..], ch, Edge(ch, len, 0))
      modifies table
      ensures Sane() && (ok <==> Left(ch, len) >= 0)
      ensures ok ==> next == Wrap(Left(ch, len) - 1) && given == |ch[len]|
      ensures ok ==> Painted(table[..], ch, Edge(ch, len, |ch[len]|))
    {
      hide Painted, Edge, Shl, Pow2;
      var currentSymbol := first;
      next, given := next0, 0;
      while currentSymbol != NIL
        invariant Sane() && given <= |ch[len]| && Linked(follow[..], currentSymbol, ch[len][given..])
        invariant given <= Room(ch, len) && next == Wrap(Room(ch, len) - 1 - given)
        invariant Painted(table[..], ch, Edge(ch, len, given))
        decreases |ch[len]| - given
      {
        assert ch[len][given..][0] == ch[len][given] && ch[len][given..][1..] == ch[len][given + 1..];
        ShortBound(len);
        if Shl(1, len) <= next {
          return false, next, given;
        }

        ghost var t := table[..];
        SlotBounds(ch, len, given);
        var indexStart := Shl(next, 8 - len);
        var iterCount := Shl(1, 8 - len);
        Fill(indexStart, iterCount, len, currentSymbol);
        PaintStep(t, table[..], ch, len, given, indexStart);

        currentSymbol := follow[currentSymbol];
        next := if next == 0 then WORD - 1 else next - 1;
        given := given + 1;
      }
      ok := true;
    }

    static lemma ShortBound(len: nat)
      requires len <= 8
      ensures Shl(1, len) == Pow2(len) <= 256
    {
      Pow2Values();
      Pow2Monotone(len, 8);
      ShlVal(1, len);
    }

    /** The shifts of the source do not wrap, and stay inside the table. */
    static lemma SlotBounds(ch: Chains, len: nat, given: nat)
      requires len <= 8 && given < Room(ch, len) <= Pow2(len)
      ensures Shl(1, 8 - len) == Pow2(8 - len)
      ensures Shl(Room(ch, len) - 1 - given, 8 - len) == Edge(ch, len, given + 1)
      ensures 0 <= Edge(ch, len, given + 1) && Edge(ch, len, given + 1) + Pow2(8 - len) <= 256
    {
      var next := Room(ch, len) - 1 - given;
      ShortBound(8 - len);
      Pow2Values();
      Pow2Add(len, 8 - len);
      MulStep(next, Pow2(len), Pow2(8 - len));
      EdgeIs(ch, len, given + 1);
      ShlVal(next, 8 - len);
    }

    /** Marks the index that a codeword of more than 8 bits starts with. */
    method MarkPartial(len: nat, next: nat, ghost ch: Chains)
      requires Sane() && 9 <= len < LENGTHS && next < Room(ch, len)
      requires Marked(table[..], ch, next + 1, len - 8)
      modifies table
      ensures Sane() && Marked(table[..], ch, next, len - 8)
    {
      MarkStep(table[..], ch, next + 1, len - 8);
      var partialEncoding := Shr(next, len - 8);
      ghost var t := table[..];
      table[partialEncoding] := table[partialEncoding].(len := NIL);
      assert table[..] == t[partialEncoding := t[partialEncoding].(len := NIL)];
    }

    /** Stores the symbol of the next codeword of more than 8 bits. */
    method Store(len: nat, code: nat, counter: nat, ghost given: nat, ghost ch: Chains)
      requires 9 <= len < LENGTHS && given < |ch[len]| && code == ch[len][given] && counter == Offset(ch, len) + given
      requires codes.Length == number == Offset(ch, LENGTHS) && Stored(codes[..], ch, len, given)
      modifies codes
      ensures Stored(codes[..], ch, len, given + 1)
    {
      OffsetBound(ch, len);
      // The source gives up here when the symbols run out; they never do.
      if number <= counter {
        assert false;
      }

      ghost var c := codes[..];
      StoreStep(c, ch, len, given);
      codes[counter] := code;
      assert codes[..] == c[counter := code];
    }

    /** Gives out the codewords of one length of more than 8 bits. */
    method LongLength(len: nat, first: nat, next0: nat, counter0: nat, follow: array<nat>, ghost ch: Chains)
      returns (ok: bool, next: nat, counter: nat)
      requires Sane() && 9 <= len < LENGTHS && Linked(follow[..], first, ch[len]) && follow != codes
      requires 0 <= Room(ch, len) <= Pow2(len) && next0 == Wrap(Room(ch, len) - 1)
      requires Marked(table[..], ch, Room(ch, len), len - 8) && Stored(codes[..], ch, len, 0)
      requires counter0 == Offset(ch, len) && codes.Length == number == Offset(ch, LENGTHS)
      modifies table, codes
      ensures Sane() && (ok <==> Left(ch, len) >= 0)
      ensures ok ==> next == Wrap(Left(ch, len) - 1) && counter == Offset(ch, len) + |ch[len]|
      ensures ok ==> Marked(table[..], ch, Left(ch, len), len - 8) && Stored(codes[..], ch, len, |ch[len]|)
    {
      var code := first;
      next, counter := next0, counter0;
      ghost var given := 0;
      LongBound(len);
      while code != NIL
        invariant Sane() && given <= |ch[len]| && Linked(follow[..], code, ch[len][given..])
        invariant given <= Room(ch, len) && next == Wrap(Room(ch, len) - 1 - given)
        invariant counter == Offset(ch, len) + given
        invariant Marked(table[..], ch, Room(ch, len) - given, len - 8) && Stored(codes[..], ch, len, given)
        decreases |ch[len]| - given
      {
        assert ch[len][given..][0] == ch[len][given] && ch[len][given..][1..] == ch[len][given + 1..];
        if Shl(1, len) <= next {
          return false, next, counter;
        }

        MarkPartial(len, next, ch);
        Store(len, code, counter, given, ch);
        counter := counter + 1;

        code := follow[code];
        next := if next == 0 then WORD - 1 else next - 1;
        given := given + 1;
      }
      ok := true;
    }

    /** Records the lowest codeword of a length and the place of its symbol. */
    method Record(len: nat, next: nat, counter: nat, ghost ch: Chains)
      requires Sane() && 9 <= len < LENGTHS && 0 <= Left(ch, len) < WORD
      requires next == Wrap(Left(ch, len) - 1) && counter == Offset(ch, len) + |ch[len]|
      modifies large
      ensures Sane() && LongEntry(ch, len, large[len - 9])
      ensures forall i :: 0 <= i < 24 && i != len - 9 ==> large[i] == old(large[i])
    {
      large[len - 9] := HuffmanHelper(Shl((next + 1) % WORD, 32 - len), if counter == 0 then WORD - 1 else counter - 1, len);
    }

    static lemma LongBound(len: nat)
      requires len < LENGTHS
      ensures Shl(1, len) == Pow2(len) <= 0x8000_0000
    {
      Pow2Values();
      Pow2Monotone(len, 31);
      Pow2Add(31, 1);
      ShlVal(1, len);
    }

    static lemma OffsetBound(ch: Chains, len: nat)
      requires 9 <= len < LENGTHS
      ensures Offset(ch, len) + |ch[len]| == Offset(ch, len + 1) <= Offset(ch, LENGTHS)
    {
      CountSplit(ch, len + 1);
      CountSplit(ch, LENGTHS);
      CountMonotone(ch, len + 1, LENGTHS);
    }

    /** Nothing is assigned before the first length. */
    method ClearTable(ghost ch: Chains)
      requires Sane()
      modifies table
      ensures Sane() && Painted(table[..], ch, Edge(ch, 0, 0))
    {
      var i := 0;
      while i < 256
        invariant 0 <= i <= 256 && Sane() && forall k :: 0 <= k < i ==> table[k] == HuffmanNode(0, 0)
      {
        table[i] := HuffmanNode(0, 0);
        i := i + 1;
      }
      assert Edge(ch, 0, 0) == 256 by {
        Pow2Values();
      }
    }

    static lemma Started(ch: Chains)
      ensures FitsBelow(ch, 0) && Room(ch, 0) == Pow2(0) == 1 && Count(ch, 0) == 0
    {
    }

    /** The first entry that is assigned when the codewords of the lengths below `len` are. */
    static function Bar(ch: Chains, len: nat): int
      requires len <= 9
    {
      if len <= 8 then Edge(ch, len, 0) else Left(ch, 8)
    }

    /** One length: its codewords, then the next codeword of the following length. */
    method ShortRow(len: nat, first: nat, next0: nat, follow: array<nat>, ghost ch: Chains)
      returns (ok: bool, next: nat, given: nat)
      requires Sane() && len <= 8 && Linked(follow[..], first, ch[len])
      requires 0 <= Room(ch, len) <= Pow2(len) && next0 == Wrap(Room(ch, len) - 1)
      requires Painted(table[..], ch, Bar(ch, len))
      modifies table
      ensures Sane() && (ok <==> Left(ch, len) >= 0)
      ensures ok ==> 0 <= Room(ch, len + 1) <= Pow2(len + 1) && next == Wrap(Room(ch, len + 1) - 1) && given == |ch[len]|
      ensures ok ==> Painted(table[..], ch, Bar(ch, len + 1))
    {
      hide Painted, Edge, Linked;
      ok, next, given := ShortLength(len, first, next0, follow, ch);
      if ok {
        ShortBound(len);
        NextLength(Left(ch, len) - 1);
        next := (2 * next + 1) % WORD;
        NextEdge(ch, len);
      }
    }

    /** The fast table; `next` ends up as the next codeword of 9 bits. */
    method ShortTable(root: array<nat>, follow: array<nat>, ghost ch: Chains) returns (ok: bool, next: nat, given: nat)
      requires Sane() && AllLinked(follow[..], root[..], ch)
      modifies table
      ensures Sane()
      ensures if ok then FitsBelow(ch, 9) else !FitsBelow(ch, LENGTHS)
      ensures ok ==> 0 <= Room(ch, 9) <= Pow2(9) && next == Wrap(Room(ch, 9) - 1) && given == Count(ch, 9)
      ensures ok ==> Painted(table[..], ch, Left(ch, 8))
    {
      hide Painted, Edge, Linked, Room, Pow2;
      ClearTable(ch);
      Started(ch);
      next, given := 0, 0;
      var len := 0;
      while len < 9
        invariant 0 <= len <= 9 && Sane() && FitsBelow(ch, len)
        invariant 0 <= Room(ch, len) <= Pow2(len) && next == Wrap(Room(ch, len) - 1)
        invariant given == Count(ch, len) && Painted(table[..], ch, Bar(ch, len))
      {
        var more;
        ok, next, more := ShortRow(len, root[len], next, follow, ch);
        if !ok {
          BelowFits(ch, len + 1, LENGTHS);
          return;
        }
        given := given + more;
        len := len + 1;
      }
      ok := true;
    }

    static lemma NextEdge(ch: Chains, len: nat)
      requires len <= 8
      ensures len < 8 ==> Edge(ch, len + 1, 0) == Edge(ch, len, |ch[len]|)
      ensures len == 8 ==> Left(ch, 8) == Edge(ch, len, |ch[len]|)
    {
      if len < 8 {
        BoundaryStep(ch, len);
      } else {
        EdgeIs(ch, len, |ch[len]|);
      }
    }

    ghost predicate LongRows(len: nat, next: nat, counter: nat, ch: Chains)
      reads this, table, large, codes
    {
      Sane() && number == codes.Length && Rows(ch, len, table[..], codes[..], large[..], next, counter)
    }

    ghost predicate LongDone(ch: Chains)
      reads this, table, large, codes
    {
      && Sane() && codes[..] == LongSymbols(ch, LENGTHS) && number == codes.Length
      && Marked(table[..], ch, Room(ch, LENGTHS), LENGTHS - 8) && RowsBelow(ch, LENGTHS, large[..])
    }

    /** One row: the codewords of length `len`, then where they start. */
    method LongRow(len: nat, first: nat, next0: nat, counter0: nat, follow: array<nat>, ghost ch: Chains)
      returns (ok: bool, next: nat, counter: nat)
      requires LongRows(len, next0, counter0, ch) && len < LENGTHS && Linked(follow[..], first, ch[len]) && follow != codes
      modifies table, codes, large
      ensures Sane() && number == codes.Length && (ok <==> Left(ch, len) >= 0)
      ensures ok ==> LongRows(len + 1, next, counter, ch)
    {
      LongBound(len);
      assert Stored(codes[..], ch, len, 0) by {
        assert LongSymbols(ch, len) + ch[len][..0] == LongSymbols(ch, len);
      }
      ok, next, counter := LongLength(len, first, next0, counter0, follow, ch);
      if !ok {
        return;
      }
      ghost var rows := large[..];
      Record(len, next, counter, ch);
      NextLength(Left(ch, len) - 1);
      next := (2 * next + 1) % WORD;
      RowsNext(ch, len, table[..], codes[..], rows, large[..], next);
    }

    /** The table of codewords longer than 8 bits. */
    method LongTable(root: array<nat>, follow: array<nat>, next0: nat, remaining: nat, ghost ch: Chains) returns (ok: bool)
      requires Sane() && AllLinked(follow[..], root[..], ch)
      requires 0 <= Room(ch, 9) <= Pow2(9) && next0 == Wrap(Room(ch, 9) - 1) && remaining == Offset(ch, LENGTHS)
      requires Painted(table[..], ch, Left(ch, 8)) && FitsBelow(ch, 9)
      modifies this`codes, this`number, table, large
      ensures Sane() && fresh(codes) && number == codes.Length
      ensures ok <==> FitsBelow(ch, LENGTHS)
      ensures ok ==> LongDone(ch)
    {
      hide Rows, Painted, Marked, RowsBelow, Room, Pow2, LongSymbols, Offset, Linked;
      number := remaining;
      codes := new nat[remaining](_ => 0);

      RowsStart(ch, table[..], codes[..], large[..]);
      var next, counter := next0, 0;
      var len := 9;
      while len < 32
        invariant LongRows(len, next, counter, ch) && fresh(codes)
        invariant FitsBelow(ch, len)
      {
        ok, next, counter := LongRow(len, root[len], next, counter, follow, ch);
        if !ok {
          BelowFits(ch, len + 1, LENGTHS);
          return;
        }
        len := len + 1;
      }
      RowsDone(ch, table[..], codes[..], large[..], next, counter);
      ok := true;
    }

    /** The tables decode the complete code `ch`. */
    ghost predicate Ready(ch: Chains)
      reads this, table, large, codes
    {
      Sane() && number == codes.Length && TablesFor(ch, table[..], codes[..], large[..])
    }

    /**
      The second half of SetupNodesandTree, from the lists of symbols to the
      tables.  `fits` says whether the loops ran to their end; the source
      returns true either way.
    */
    method BuildTables(root: array<nat>, follow: array<nat>, totalSymbolCount: nat, ghost ch: Chains) returns (fits: bool)
      requires Sane() && AllLinked(follow[..], root[..], ch) && number == codes.Length
      requires totalSymbolCount == Count(ch, LENGTHS) < 0x1_0000
      modifies this`codes, this`number, table, large
      ensures Sane() && number == codes.Length && (codes == old(codes) || fresh(codes))
      ensures fits <==> Fits(ch)
      ensures Complete(ch) ==> Ready(ch)
    {
      var next, given;
      FitsIsBelow(ch);
      fits, next, given := ShortTable(root, follow, ch);
      if !fits {
        return;
      }

      CountSplit(ch, LENGTHS);
      if given < totalSymbolCount {
        fits := LongTable(root, follow, next, totalSymbolCount - given, ch);
        if Complete(ch) {
          TablesLong(ch, table[..], codes[..], large[..]);
        }
      } else {
        NoLongCodes(ch, LENGTHS);
        if Complete(ch) {
          TablesShort(ch, table[..], codes[..], large[..]);
        }
      }
    }
  }
}
