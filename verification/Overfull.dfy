/** A compressed stream whose code lengths do not fit, from which the tables are built all the same. */
module OverfullStream {
  import opened Options
  import opened Powers
  import opened Bits
  import opened BitReaders
  import opened CanonicalCode
  import opened HuffmanTables
  import opened Decoders
  import opened InflateSpec
  import opened Inflating
  import opened SourceTables

  /** One group: three symbols whose codewords have one bit. */
  function Triple(): (g: seq<bool>)
    ensures |g| == 16
  {
    BitsOf(127, 16)
  }

  /** Three symbols, in one group. */
  function OverfullHeader(): seq<bool> {
    BitsOf(3, 16) + Triple()
  }

  function OverfullCode(): Chains {
    seq(LENGTHS, l => if l == 1 then [0, 1, 2] else [])
  }

  lemma TripleWindow(more: seq<bool>)
    ensures var low := Val(Take(more, 16)); Val(Take(Triple() + more, 32)) == 127 * Pow2(16) + low && low < Pow2(16)
  {
    hide BitsOf, Val, Pow2;
    var s := Triple() + more;
    assert Take(s, 32) == Triple() + Take(more, 16);
    ValConcat(Triple(), Take(more, 16));
    Pow2Values();
    ValBitsOf(127, 16);
    ValBound(Take(more, 16));
  }

  lemma TripleRow(w: nat, low: nat, k: nat)
    requires w == 127 * Pow2(16) + low && low < Pow2(16) && k == FindRow(TABLE1, w, 0)
    ensures k == 13 && TABLE1[k] == Row(0, 255)
  {
    hide FindRow, Pow2;
    Pow2Values();
    assert TABLE1[13] == Row(0x00000000, 255);
    assert forall i :: 0 <= i < 13 ==> TABLE1[i].firstEncoding >= 0x00a00000;
  }

  lemma TriplePair(more: seq<bool>)
    requires TablesOk(SOURCE_TABLES)
    ensures ReadPair(SOURCE_TABLES, Triple() + more) == Pair(2, 1, 16)
  {
    hide TABLE1, TABLE2, TABLE3, Val, Pow2, FindRow, TablesOk, Triple, BitsOf;
    var w := Val(Take(Triple() + more, 32));
    var low := Val(Take(more, 16));
    TripleWindow(more);
    Pow2Values();
    RowExists(SOURCE_TABLES, w);
    TripleRow(w, low, FindRow(TABLE1, w, 0));
    ShrMultiple(127, Pow2(16), 16, low);
    Table2Size();
  }

  lemma PushThree()
    ensures Push(Empty(), 1, 2, 3) == OverfullCode()
  {
    var a := PushOne(Empty(), 1, 2);
    var b := PushOne(a, 1, 1);
    var c := PushOne(b, 1, 0);
    assert c[1] == [0, 1, 2];
    assert c == OverfullCode();
    assert Push(b, 1, 0, 1) == c;
  }

  lemma OverfullCounts()
    ensures Count(OverfullCode(), LENGTHS) > 0 && !Fits(OverfullCode())
  {
    CountMonotone(OverfullCode(), 2, LENGTHS);
    assert Count(OverfullCode(), 2) >= |OverfullCode()[1]|;
    ThreeOfOneBit(OverfullCode());
  }

  /** The header is read as three codewords of one bit, which do not fit. */
  lemma OverfullRead(more: seq<bool>)
    requires TablesOk(SOURCE_TABLES)
    ensures ReadHeader(SOURCE_TABLES, OverfullHeader() + more) == Some(Header(OverfullCode(), more))
    ensures !Fits(OverfullCode())
  {
    hide ReadPair, TablesOk, BitsOf, Val, Triple, Push, Empty, Count, OverfullCode, Fits;
    var s, count := OverfullHeader() + more, BitsOf(3, 16);
    assert Take(s, 16) == count && Drop(s, 16) == Triple() + more;
    Pow2Values();
    ValBitsOf(3, 16);
    TriplePair(more);
    assert Drop(Triple() + more, 16) == more;
    PushThree();
    OverfullCounts();
    assert ReadLengths(SOURCE_TABLES, more, 3, -1, OverfullCode()) == Some(Header(OverfullCode(), more));
  }

  /** On this stream the answer is true, although the lengths do not fit. */
  method OverfullBuilds(state: DecompressState, h: HuffmanData) returns (built: bool, ghost ch: Chains)
    requires state.Valid() && h.Sane() && OverfullHeader() <= state.rest
    modifies state, h, h.table, h.large
    ensures built && !Fits(ch)
  {
    hide ReadHeader, Fits, TablesOk, OverfullHeader, OverfullCode, DecompressState.Valid, HuffmanData.Sane;
    SourceTablesOk();
    ghost var more := state.rest[|OverfullHeader()|..];
    assert state.rest == OverfullHeader() + more;
    OverfullRead(more);
    built, ch := SetupNodesandTree(state, h, SOURCE_TABLES);
  }
}
