/** Decoding one symbol through the tables of docs/compress.c. */
module Decoders {
  import opened Powers
  import opened Bits
  import opened CanonicalCode
  import opened HuffmanTables
  import opened BitReaders

  /** Some codeword has at most 9 bits. */
  predicate ShortEnough(ch: Chains) {
    exists l :: 0 <= l <= 9 && ch[l] != []
  }

  /** Otherwise nothing of the room of length 9 is used, and its upper end does not fit a left-aligned word. */
  lemma {:induction false} FullRoom(ch: Chains, l: nat)
    requires l <= LENGTHS && Fits(ch)
    ensures Room(ch, l) == Pow2(l) <==> forall i :: 0 <= i < l ==> ch[i] == []
  {
    if l > 0 {
      FullRoom(ch, l - 1);
      RoomBound(ch, l - 1);
      assert Left(ch, l - 1) >= 0;
    }
  }

  lemma ShortEnoughRoom(ch: Chains)
    requires Fits(ch)
    ensures ShortEnough(ch) <==> Room(ch, 10) < Pow2(10)
  {
    FullRoom(ch, 10);
    RoomBound(ch, 10);
  }

  lemma {:induction false} LeftBelow(ch: Chains, l: nat)
    requires Fits(ch) && 9 <= l < LENGTHS && ShortEnough(ch)
    ensures 0 <= Left(ch, l) < Pow2(l)
  {
    assert Left(ch, l) >= 0;
    ShortEnoughRoom(ch);
    if l > 9 {
      LeftBelow(ch, l - 1);
    } else {
      assert Room(ch, 10) == 2 * Left(ch, 9) && Pow2(10) == 2 * Pow2(9);
    }
  }

  /** 1024 symbols of 10 bits each: a complete code of which the tables cannot decode anything. */
  function TenBitCode(): Chains {
    seq(LENGTHS, l => if l == 10 then seq(1024, i => i) else [])
  }

  lemma {:induction false} TenBitRoom(l: nat)
    requires l <= LENGTHS
    ensures Room(TenBitCode(), l) == if l <= 10 then Pow2(l) else 0
  {
    if l > 0 {
      TenBitRoom(l - 1);
      assert Pow2(10) == 1024;
    }
  }

  lemma TenBitCodeComplete()
    ensures Complete(TenBitCode()) && !ShortEnough(TenBitCode())
  {
    var ch := TenBitCode();
    forall l | 0 <= l < LENGTHS
      ensures Left(ch, l) >= 0 && (l == 10 ==> Left(ch, l) == 0)
    {
      TenBitRoom(l);
      assert Pow2(10) == 1024;
    }
    assert Left(ch, 10) == 0;
  }

  // ---------- The fast table ----------

  lemma FindUnique(ch: Chains, s: seq<bool>, l: nat)
    requires l < LENGTHS && Prefix(s, l) >= Left(ch, l)
    requires forall i :: 0 <= i < l ==> Prefix(s, i) < Left(ch, i)
    ensures Find(ch, s, 0) == l
  {
  }

  lemma IndexOf(s: seq<bool>)
    ensures Val(Take(s, 8)) < 256 && IndexBits(Val(Take(s, 8))) == Take(s, 8)
  {
    Pow2Values();
    ValBound(Take(s, 8));
    BitsOfVal(Take(s, 8));
  }

  lemma PrefixOfTake(s: seq<bool>, n: nat, l: nat)
    requires l <= n
    ensures Prefix(Take(s, n), l) == Prefix(s, l)
  {
    assert Take(Take(s, n), l) == Take(s, l);
  }

  lemma FindOfTake(ch: Chains, s: seq<bool>, n: nat)
    requires Find(ch, Take(s, n), 0) <= n < LENGTHS
    ensures Find(ch, s, 0) == Find(ch, Take(s, n), 0)
  {
    var t := Take(s, n);
    var l := Find(ch, t, 0);
    PrefixOfTake(s, n, l);
    forall i | 0 <= i < l
      ensures Prefix(s, i) < Left(ch, i)
    {
      PrefixOfTake(s, n, i);
      assert Prefix(t, i) < Left(ch, i);
    }
    FindUnique(ch, s, l);
  }

  /** What the entry at the next 8 bits says about the stream. */
  lemma FastEntry(ch: Chains, s: seq<bool>, table: seq<HuffmanNode>)
    requires Complete(ch) && Marked(table, ch, 0, 0)
    ensures
      var i := Val(Take(s, 8));
      && i < 256
      && (table[i].len == NIL ==> i == Prefix(s, 8) && Prefix(s, 8) < Left(ch, 8))
      && (table[i].len != NIL ==> table[i] == HuffmanNode(Decode(ch, s).len, Decode(ch, s).symbol))
  {
    var i := Val(Take(s, 8));
    IndexOf(s);
    if i >= Left(ch, 8) {
      assert ShortEntry(ch, i, table[i]);
      FindOfTake(ch, s, 8);
      PrefixOfTake(s, 8, Find(ch, s, 0));
    }
  }

  // ---------- The long codewords ----------

  /** A left-aligned word against the first bits of the stream. */
  lemma WindowSplit(s: seq<bool>, l: nat) returns (low: nat)
    requires l <= 32
    ensures low < Pow2(32 - l) && Val(Take(s, 32)) == Prefix(s, l) * Pow2(32 - l) + low
  {
    var rest := Take(Drop(s, l), 32 - l);
    TakeDrop(s, l, 32 - l);
    ValConcat(Take(s, l), rest);
    ValBound(rest);
    low := Val(rest);
  }

  lemma {:induction false} ShrMultiple(q: nat, p: nat, k: nat, r: nat)
    requires p == Pow2(k) && r < p
    ensures Shr(q * p + r, k) == q
    decreases k
  {
    if k > 0 {
      var h := Pow2(k - 1);
      var m := q * h;
      assert q * p == 2 * m;
      assert (2 * m + r) / 2 == m + r / 2;
      ShrMultiple(q, h, k - 1, r / 2);
    }
  }

  lemma LeftAligned(f: nat, l: nat)
    requires l <= 32 && f < Pow2(l)
    ensures Shl(f, 32 - l) == f * Pow2(32 - l)
  {
    Pow2Values();
    Pow2Add(l, 32 - l);
    MulStep(f, Pow2(l), Pow2(32 - l));
    ShlVal(f, 32 - l);
  }

  lemma CompareMultiples(f: nat, v: nat, p: nat, low: nat)
    requires low < p
    ensures f * p <= v * p + low <==> f <= v
    ensures f <= v ==> v * p + low - f * p == (v - f) * p + low
  {
    MulStep(v, f, p);
    if f <= v {
      MulSum(f, v - f, p);
    }
  }

  lemma MulSum(a: nat, b: nat, p: nat)
    ensures (a + b) * p == a * p + b * p
  {
  }

  /** The row of length `l` matches exactly when the first `l` bits are not an unassigned string. */
  lemma RowMatches(f: nat, s: seq<bool>, l: nat)
    requires l <= 32 && f < Pow2(l)
    ensures Shl(f, 32 - l) <= Val(Take(s, 32)) <==> f <= Prefix(s, l)
    ensures f <= Prefix(s, l) ==> Shr(Val(Take(s, 32)) - Shl(f, 32 - l), 32 - l) == Prefix(s, l) - f
  {
    hide Shl, Shr, Val, Take, Pow2;
    var low := WindowSplit(s, l);
    LeftAligned(f, l);
    CompareMultiples(f, Prefix(s, l), Pow2(32 - l), low);
    if f <= Prefix(s, l) {
      ShrMultiple(Prefix(s, l) - f, Pow2(32 - l), 32 - l, low);
    }
  }

  /** The upper end of a full room, left-aligned, wraps to zero. */
  lemma {:induction false} ShlOver(l: nat)
    requires l < 32
    ensures Shl(Pow2(l), 32 - l) == 0
    decreases 32 - l
  {
    Pow2Values();
    Pow2Monotone(l, 31);
    Pow2Add(31, 1);
    if l == 31 {
      assert Double(Pow2(31)) == 0;
    } else {
      Pow2Monotone(l + 1, 31);
      assert Double(Pow2(l)) == Pow2(l + 1);
      ShlOver(l + 1);
    }
  }

  /** The place of the symbol, computed modulo 2^32. */
  function LargeIndex(row: HuffmanHelper, window: nat): nat
    requires row.encodingLen <= 32 && row.firstEncoding <= window
  {
    (row.lastIndex - Shr(window - row.firstEncoding, 32 - row.encodingLen)) % WORD
  }

  lemma LongIndex(ch: Chains, s: seq<bool>, w: nat, row: HuffmanHelper, l: nat, j: nat)
    requires Fits(ch) && ShortEnough(ch) && w == Val(Take(s, 32)) && 9 <= l < LENGTHS && LongEntry(ch, l, row)
    requires j == Index(ch, s, l) && j < |ch[l]| && Offset(ch, l) + j < WORD
    ensures row.firstEncoding <= w && LargeIndex(row, w) == Offset(ch, l) + j
  {
    hide Room, Take, Val, Shr, Shl, Fits, ShortEnough, Offset, Pow2;
    LeftBelow(ch, l);
    RowMatches(Left(ch, l), s, l);
    SmallModulo(Offset(ch, l) + j);
  }

  /** From the row of the codeword's length, the symbol follows. */
  lemma LongSymbol(ch: Chains, s: seq<bool>, w: nat, row: HuffmanHelper, l: nat)
    requires Complete(ch) && ShortEnough(ch) && Count(ch, LENGTHS) < 0x1_0000
    requires w == Val(Take(s, 32)) && 9 <= l < LENGTHS && LongEntry(ch, l, row) && Find(ch, s, 0) == l
    ensures row.firstEncoding <= w
    ensures var i := LargeIndex(row, w);
      i < Offset(ch, LENGTHS) && LongSymbols(ch, LENGTHS)[i] == Decode(ch, s).symbol && Decode(ch, s).len == l
  {
    hide Find, Count, Val, Take, LongEntry, LongSymbols, LargeIndex;
    CompleteDecodes(ch, s);
    var j := Index(ch, s, l);
    LongSymbolsAt(ch, l, j, LENGTHS);
    CountSplit(ch, LENGTHS);
    LongIndex(ch, s, w, row, l, j);
  }

  lemma SmallModulo(i: nat)
    requires i < WORD
    ensures i % WORD == i
  {
  }

  lemma LargeModulo(i: nat)
    requires i < 0x200
    ensures (WORD - 1 - i) % WORD >= 0x1_0000
  {
  }

  /** The search through the rows stops at the length of the codeword. */
  lemma RowFound(ch: Chains, s: seq<bool>, w: nat, large: seq<HuffmanHelper>, idx: nat)
    requires Complete(ch) && ShortEnough(ch) && RowsBelow(ch, LENGTHS, large) && Prefix(s, 8) < Left(ch, 8)
    requires w == Val(Take(s, 32)) && idx < 23 && large[idx].firstEncoding <= w
    requires forall k :: 0 <= k < idx ==> w < large[k].firstEncoding
    ensures Find(ch, s, 0) == 9 + idx
  {
    var l := 9 + idx;
    RowAt(ch, s, w, large, l);
    forall i | 0 <= i < l
      ensures Prefix(s, i) < Left(ch, i)
    {
      if i <= 8 {
        Interior(ch, s, 8);
      } else {
        RowAt(ch, s, w, large, i);
        assert w < large[i - 9].firstEncoding;
      }
    }
    FindUnique(ch, s, l);
  }

  lemma RowAt(ch: Chains, s: seq<bool>, w: nat, large: seq<HuffmanHelper>, l: nat)
    requires Fits(ch) && ShortEnough(ch) && 9 <= l < LENGTHS && RowsBelow(ch, LENGTHS, large) && w == Val(Take(s, 32))
    ensures LongEntry(ch, l, large[l - 9])
    ensures large[l - 9].firstEncoding <= w <==> Left(ch, l) <= Prefix(s, l)
  {
    assert LongRowIs(ch, l, large);
    LeftBelow(ch, l);
    RowMatches(Left(ch, l), s, l);
  }

  /** Some row matches: the last one starts at zero. */
  lemma LastRow(ch: Chains, s: seq<bool>, large: seq<HuffmanHelper>)
    requires Complete(ch) && RowsBelow(ch, LENGTHS, large)
    ensures large[22].firstEncoding <= Val(Take(s, 32))
  {
    var l :| 0 <= l < LENGTHS && Left(ch, l) == 0;
    StaysEmpty(ch, l, 31);
    assert LongRowIs(ch, 31, large);
    assert Shl(0, 1) == 0;
  }

  /** Without a short codeword the first row matches every stream, and points outside the symbols. */
  lemma FirstRowWraps(ch: Chains, s: seq<bool>, large: seq<HuffmanHelper>)
    requires Complete(ch) && !ShortEnough(ch) && RowsBelow(ch, LENGTHS, large)
    ensures large[0] == HuffmanHelper(0, WORD - 1, 9)
    ensures Val(Take(s, 32)) < WORD && Shr(Val(Take(s, 32)), 23) < 0x200
  {
    assert LongRowIs(ch, 9, large);
    ShortEnoughRoom(ch);
    RoomBound(ch, 10);
    RoomBound(ch, 9);
    assert Room(ch, 10) == 2 * Left(ch, 9) && Pow2(10) == 2 * Pow2(9);
    ShlOver(9);
    Pow2Values();
    ValBound(Take(s, 32));
    ShrVal(Val(Take(s, 32)), 23);
    ValBound(BitsOf(Val(Take(s, 32)), 32)[..9]);
    assert Pow2(9) == 0x200;
  }

  /** What the search through the rows comes to. */
  lemma LongFacts(ch: Chains, s: seq<bool>, w: nat, large: seq<HuffmanHelper>, idx: nat)
    requires Complete(ch) && RowsBelow(ch, LENGTHS, large) && Prefix(s, 8) < Left(ch, 8) && Count(ch, LENGTHS) < 0x1_0000
    requires w == Val(Take(s, 32)) && idx <= 24 && (idx < 24 ==> large[idx].firstEncoding <= w)
    requires forall k :: 0 <= k < idx ==> w < large[k].firstEncoding
    ensures idx < 23 && 0 < large[idx].encodingLen <= 31
    ensures
      var i := LargeIndex(large[idx], w);
      if ShortEnough(ch)
      then i < Offset(ch, LENGTHS) && Decode(ch, s) == Decoded(LongSymbols(ch, LENGTHS)[i], large[idx].encodingLen)
      else i >= Offset(ch, LENGTHS)
  {
    hide Decode, LongSymbols, Left, Val, Take, Complete, Count, Offset;
    LastRow(ch, s, large);
    if ShortEnough(ch) {
      RowFound(ch, s, w, large, idx);
      assert LongRowIs(ch, 9 + idx, large);
      LongSymbol(ch, s, w, large[idx], 9 + idx);
    } else {
      CountSplit(ch, LENGTHS);
      FirstRowWraps(ch, s, large);
      LargeModulo(Shr(w, 23));
    }
  }

  /** A codeword in the fast table is a short one. */
  lemma FastIsShort(ch: Chains, s: seq<bool>)
    requires Complete(ch) && Decode(ch, s).len <= 8
    ensures ShortEnough(ch)
  {
    CompleteDecodes(ch, s);
    assert ch[Decode(ch, s).len] != [];
  }

  // ---------- The method ----------

  /** The codeword has more than 8 bits: its length, then its symbol. */
  method GetLongCode(state: DecompressState, h: HuffmanData, ghost ch: Chains) returns (ok: bool, encodingLen: nat, code: nat)
    requires state.Valid() && h.Sane() && h.number == h.codes.Length
    ensures ok ==> encodingLen <= 31
    ensures Complete(ch) && h.Ready(ch) && Prefix(state.rest, 8) < Left(ch, 8) ==> (ok <==> ShortEnough(ch))
    ensures Complete(ch) && h.Ready(ch) && Prefix(state.rest, 8) < Left(ch, 8) && ok ==>
      Decode(ch, state.rest) == Decoded(code, encodingLen)
  {
    ok, encodingLen, code := false, 0, 0;
    var idx := 0;
    while idx < 24
      invariant 0 <= idx <= 24
      invariant forall k :: 0 <= k < idx ==> state.buf1 < h.large[k].firstEncoding
    {
      if h.large[idx].firstEncoding <= state.buf1 {
        break;
      }
      idx := idx + 1;
    }

    ghost var known := Complete(ch) && h.Ready(ch) && Prefix(state.rest, 8) < Left(ch, 8);
    state.Window();
    if known {
      LongFacts(ch, state.rest, state.buf1, h.large[..], idx);
    }
    if idx == 24 {
      return;
    }

    encodingLen := h.large[idx].encodingLen;
    if encodingLen == 0 {
      return;
    }

    var largeEncIdx := LargeIndex(h.large[idx], state.buf1);

    if largeEncIdx >= h.number {
      return;
    }
    ok, code := true, h.codes[largeEncIdx];
  }

  /**
    GetNextCode.  `ok` is false where an assertion of the source stops the
    program (or where it would shift by the width of a word).
  */
  method GetNextCode(state: DecompressState, h: HuffmanData, ghost ch: Chains) returns (ok: bool, code: nat)
    requires state.Valid() && h.Sane() && h.number == h.codes.Length
    modifies state
    ensures state.Valid() && (!ok ==> state.rest == old(state.rest))
    ensures Complete(ch) && old(h.Ready(ch)) ==> (ok <==> ShortEnough(ch))
    ensures Complete(ch) && old(h.Ready(ch)) && ok ==>
      var d := Decode(ch, old(state.rest)); code == d.symbol && state.rest == Drop(old(state.rest), d.len)
  {
    ok := false;
    var nextBits := state.GetBits(8);
    IndexOf(state.rest);

    var encodingLen := h.table[nextBits].len;
    code := h.table[nextBits].code;

    if Complete(ch) && h.Ready(ch) {
      FastEntry(ch, state.rest, h.table[..]);
      if encodingLen != NIL {
        FastIsShort(ch, state.rest);
      }
    }
    if encodingLen == NIL {
      ok, encodingLen, code := GetLongCode(state, h, ch);
      if !ok {
        return;
      }
    }
    ok := true;

    if encodingLen != 0 {
      state.ConsumeBits(encodingLen);
    }
  }
}
