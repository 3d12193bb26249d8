/** A compressed stream that spells the complete code of which nothing decodes. */
module TenBitStream {
  import opened Options
  import opened Powers
  import opened Bits
  import opened BitReaders
  import opened CanonicalCode
  import opened HuffmanTables
  import opened Decoders
  import opened InflateSpec
  import opened Inflating
  import opened SourceTables

  /** One group of the header: eight more symbols whose codewords have 10 bits. */
  function Group(): (g: seq<bool>)
    ensures |g| == 15
  {
    BitsOf(80, 15)
  }

  function Groups(n: nat): seq<bool> {
    if n == 0 then [] else Group() + Groups(n - 1)
  }

  /** 1024 symbols, in 128 groups. */
  function TenBitHeader(): seq<bool> {
    BitsOf(1024, 16) + Groups(128)
  }

  /** The symbols from `m` on, all with 10 bits. */
  function From(m: nat): (ch: Chains)
    requires m <= 1024
  {
    seq(LENGTHS, l => if l == 10 then Run(m) else [])
  }

  function Run(m: nat): (s: seq<nat>)
    requires m <= 1024
    ensures |s| == 1024 - m && forall i :: 0 <= i < |s| ==> s[i] == m + i
  {
    seq<nat>(1024 - m, (i: nat) => m + i)
  }

  /** The window of a group falls into the row of the table that says so. */
  lemma GroupPair(more: seq<bool>)
    requires TablesOk(SOURCE_TABLES)
    ensures ReadPair(SOURCE_TABLES, Group() + more) == Pair(7, 10, 15)
  {
    hide TABLE1, TABLE2, TABLE3, Val, Pow2, FindRow, TablesOk, Group, BitsOf;
    var s := Group() + more;
    var w := Val(Take(s, 32));
    var low := Val(Take(more, 17));
    GroupWindow(more);
    ValBound(Take(s, 32));
    Pow2Values();
    RowExists(SOURCE_TABLES, w);
    var k := FindRow(TABLE1, w, 0);
    GroupRow(w, low, k);
    ShrMultiple(0, Pow2(17), 17, low);
    Table2Size();
  }

  lemma GroupWindow(more: seq<bool>)
    ensures var low := Val(Take(more, 17)); Val(Take(Group() + more, 32)) == 80 * 0x2_0000 + low && low < Pow2(17)
  {
    hide BitsOf, Val;
    var s := Group() + more;
    assert Take(s, 32) == Group() + Take(more, 17);
    ValConcat(Group(), Take(more, 17));
    GroupValue();
    ValBound(Take(more, 17));
    Pow17();
  }

  lemma GroupValue()
    ensures Val(Group()) == 80
  {
    Pow2Monotone(7, 15);
    assert Pow2(7) == 128;
    ValBitsOf(80, 15);
  }

  lemma Pow17()
    ensures Pow2(17) == 0x2_0000
  {
    Pow2Values();
    Pow2Add(16, 1);
  }

  lemma GroupRow(w: nat, low: nat, k: nat)
    requires w == 80 * 0x2_0000 + low && low < Pow2(17) && k == FindRow(TABLE1, w, 0)
    ensures k == 12 && w - TABLE1[k].firstEncoding == low && TABLE1[k].lastIndex == 95
  {
    hide FindRow, Pow2;
    Pow17();
    assert TABLE1[12] == Row(0x00a00000, 95);
    assert forall i :: 0 <= i < 12 ==> TABLE1[i].firstEncoding >= 0x00b00000;
  }

  /** Pushing symbols down from `m - 1` extends the list at its front. */
  lemma {:induction false} PushRun(m: nat, n: nat)
    requires n <= m <= 1024
    ensures Push(From(m), 10, m - 1, n) == From(m - n)
    decreases n
  {
    if n > 0 {
      assert [m - 1] + Run(m) == Run(m - 1);
      assert PushOne(From(m), 10, m - 1) == From(m - 1);
      PushRun(m - 1, n - 1);
    }
  }

  lemma {:induction false} GroupsRead(n: nat, more: seq<bool>)
    requires n <= 128 && TablesOk(SOURCE_TABLES)
    ensures ReadLengths(SOURCE_TABLES, Groups(n) + more, 1024, 8 * n - 1, From(8 * n)) == Some(Header(From(0), more))
    decreases n
  {
    hide ReadPair, Group, TablesOk, Push, From;
    if n == 0 {
      assert Groups(0) + more == more;
    } else {
      var rest := Groups(n - 1) + more;
      assert Groups(n) + more == Group() + rest;
      GroupPair(rest);
      assert Drop(Group() + rest, 15) == rest;
      PushRun(8 * n, 8);
      GroupsRead(n - 1, more);
    }
  }

  lemma FromEnds()
    ensures From(1024) == Empty() && From(0) == TenBitCode()
    ensures Count(TenBitCode(), LENGTHS) > 0
  {
    assert Run(1024) == [] && Run(0) == seq(1024, i => i);
    assert From(1024) == Empty();
    assert From(0) == TenBitCode();
    CountMonotone(TenBitCode(), 11, LENGTHS);
    assert Count(TenBitCode(), 11) >= |TenBitCode()[10]|;
  }

  /** The header is read as the code with 1024 codewords of 10 bits. */
  lemma TenBitRead(more: seq<bool>)
    requires TablesOk(SOURCE_TABLES)
    ensures ReadHeader(SOURCE_TABLES, TenBitHeader() + more) == Some(Header(TenBitCode(), more))
  {
    hide ReadLengths, TablesOk, BitsOf, Val, Groups, From, Empty, Count, TenBitCode;
    var s := TenBitHeader() + more;
    var count := BitsOf(1024, 16);
    assert Take(s, 16) == count && Drop(s, 16) == Groups(128) + more;
    Pow2Values();
    ValBitsOf(1024, 16);
    GroupsRead(128, more);
    FromEnds();
  }

  /** With the tables built from it no symbol can be decoded. */
  method TenBitFails(state: DecompressState, h: HuffmanData) returns (built: bool, decoded: bool)
    requires state.Valid() && h.Sane() && TenBitHeader() <= state.rest
    modifies state, h, h.table, h.large
    ensures built && !decoded
  {
    hide ReadHeader, Complete, ShortEnough, TablesOk, TenBitHeader, TenBitCode, DecompressState.Valid, HuffmanData.Sane;
    SourceTablesOk();
    ghost var more := state.rest[|TenBitHeader()|..];
    assert state.rest == TenBitHeader() + more;
    TenBitRead(more);
    TenBitCodeComplete();
    ghost var ch;
    var code;
    built, ch := SetupNodesandTree(state, h, SOURCE_TABLES);
    decoded, code := GetNextCode(state, h, ch);
  }

  /** A file of these headers stops at a failed assert as soon as a byte is asked of it. */
  lemma TenBitFileStops(first: seq<bool>, more: seq<bool>, size: nat)
    requires |first| == 8 && size > 0 && TablesOk(SOURCE_TABLES)
    ensures ReadFile(SOURCE_TABLES, first + (TenBitHeader() + (TenBitHeader() + more)), size).Stops?
  {
    hide ReadHeader, TablesOk, TenBitHeader, TenBitCode, Complete, ShortEnough, Decode, CopyToken, Val;
    var s := first + (TenBitHeader() + (TenBitHeader() + more));
    DropDrop(s, 4, 4);
    assert Drop(s, 8) == TenBitHeader() + (TenBitHeader() + more);
    TenBitRead(TenBitHeader() + more);
    TenBitRead(more);
    TenBitCodeComplete();
  }
}
