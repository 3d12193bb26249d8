/** Whole files: what is written of a text, block by block, is decompressed to the text. */
module FileStreams {
  import Bytes
  import opened Options
  import opened Powers
  import opened Bits
  import opened CanonicalCode
  import opened Decoders
  import opened InflateSpec
  import opened Inflating
  import opened SourceTables
  import opened TokenStreams
  import opened LengthStreams

  /** A code: the lengths of its symbols, the runs they are written in, and its lists of symbols. */
  datatype Code = Code(runs: seq<nat>, lens: seq<nat>, ch: Chains)

  /** One block: its two codes, its size in units of 4096 tokens less one, and its tokens up to `end`. */
  datatype Block = Block(lit: Code, dist: Code, units: nat, choices: seq<Choice>, tokens: seq<Token>, end: nat)

  ghost predicate CodeOk(c: Code) {
    && 2 <= |c.lens| < 0x1_0000 && Runs(c.runs, c.lens) && Lists(c.ch, c.lens, 0)
    && (exists x :: 0 <= x < |c.lens| && 1 <= c.lens[x] < LENGTHS)
    && Complete(c.ch) && ShortEnough(c.ch)
  }

  /** A block that is not the last is full. */
  ghost predicate BlockOk(b: Block, first4: nat, text: seq<Byte>, at: nat) {
    && CodeOk(b.lit) && CodeOk(b.dist) && b.units < 16
    && AllSpell(b.lit.ch, b.dist.ch, first4, b.choices, b.tokens) && Factors(text, at, b.end, b.tokens)
    && (|b.tokens| == 4096 * (b.units + 1) || (|b.tokens| <= 4096 * (b.units + 1) && b.end == |text|))
  }

  /** The blocks cover the text from `at` on. */
  ghost predicate BlocksOk(bs: seq<Block>, first4: nat, text: seq<Byte>, at: nat)
    decreases |bs|
  {
    if bs == [] then at == |text|
    else at < |text| && BlockOk(bs[0], first4, text, at) && BlocksOk(bs[1..], first4, text, bs[0].end)
  }

  ghost function WholeCode(c: Code): seq<bool>
    requires CodeOk(c)
  {
    RunsPlaces(c.runs, c.lens);
    CodeBits(|c.lens|, c.runs)
  }

  ghost function BlockBits(b: Block, first4: nat): seq<bool>
    requires CodeOk(b.lit) && CodeOk(b.dist) && AllSpell(b.lit.ch, b.dist.ch, first4, b.choices, b.tokens)
  {
    FitsOf(b.lit.ch);
    FitsOf(b.dist.ch);
    WholeCode(b.lit) + (WholeCode(b.dist) +
      (BitsOf(b.units, 4) + ChoicesBits(b.lit.ch, b.dist.ch, first4, b.choices, b.tokens)))
  }

  ghost function BlocksBits(bs: seq<Block>, first4: nat, text: seq<Byte>, at: nat): seq<bool>
    requires BlocksOk(bs, first4, text, at)
    decreases |bs|
  {
    if bs == [] then [] else BlockBits(bs[0], first4) + BlocksBits(bs[1..], first4, text, bs[0].end)
  }

  /** Four bits that are skipped, what every length starts from, and the blocks. */
  ghost function FileBits(skip: seq<bool>, bs: seq<Block>, first4: nat, text: seq<Byte>): seq<bool>
    requires BlocksOk(bs, first4, text, 0)
  {
    skip + (BitsOf(first4, 4) + BlocksBits(bs, first4, text, 0))
  }

  lemma WholeCodeBack(c: Code, more: seq<bool>)
    requires TablesOk(SOURCE_TABLES) && CodeOk(c)
    ensures ReadHeader(SOURCE_TABLES, WholeCode(c) + more) == Some(Header(c.ch, more))
  {
    hide ReadHeader, CodeBits, Lists, Runs, Complete, ShortEnough, TablesOk;
    CodeBack(c.runs, c.lens, c.ch, more);
  }

  lemma UnitsBack(units: nat, more: seq<bool>)
    requires units < 16
    ensures var s := BitsOf(units, 4) + more; Val(Take(s, 4)) == units && Drop(s, 4) == more
  {
    hide BitsOf, Val;
    InFront(BitsOf(units, 4), more);
    SmallPowers();
    ValBitsOf(units, 4);
  }

  /** The blocks of a text are read back to it. */
  lemma {:induction false} BlocksBack(bs: seq<Block>, first4: nat, text: seq<Byte>, at: nat, more: seq<bool>)
    requires TablesOk(SOURCE_TABLES) && BlocksOk(bs, first4, text, at) && at <= |text|
    ensures ReadBlocks(SOURCE_TABLES, first4, BlocksBits(bs, first4, text, at) + more, text[..at], |text|) == Done(text)
    decreases |bs|
  {
    hide TablesOk, ReadHeader, ReadBlock, WholeCode, ChoicesBits, BitsOf, Val, Take, Drop, AllSpell, Factors;
    hide Complete, ShortEnough, Lists, Runs;
    if bs == [] {
      assert text[..at] == text;
    } else {
      var b := bs[0];
      assert CodeOk(b.lit) && CodeOk(b.dist);
      FitsOf(b.lit.ch);
      FitsOf(b.dist.ch);
      NoTokens(text, at, b.end, b.tokens);
      var rest := BlocksBits(bs[1..], first4, text, b.end) + more;
      var tokens := ChoicesBits(b.lit.ch, b.dist.ch, first4, b.choices, b.tokens) + rest;
      var units := BitsOf(b.units, 4) + tokens;
      assert BlocksBits(bs, first4, text, at) + more == WholeCode(b.lit) + (WholeCode(b.dist) + units);
      WholeCodeBack(b.lit, WholeCode(b.dist) + units);
      WholeCodeBack(b.dist, units);
      UnitsBack(b.units, tokens);
      BlockBack(b.lit.ch, b.dist.ch, first4, b.choices, b.tokens, text, at, b.end, (b.units + 1) * 4096, rest);
      BlocksBack(bs[1..], first4, text, b.end, more);
    }
  }

  /**
    Any text, cut into literals and copies in any way and written with any complete codes
    that have a short codeword, is decompressed to itself, whatever follows in the file.
  */
  lemma FileBack(skip: seq<bool>, bs: seq<Block>, first4: nat, text: seq<Byte>, more: seq<bool>)
    requires TablesOk(SOURCE_TABLES) && |skip| == 4 && first4 < 16 && BlocksOk(bs, first4, text, 0)
    ensures ReadFile(SOURCE_TABLES, FileBits(skip, bs, first4, text) + more, |text|) == Done(text)
  {
    hide TablesOk, ReadBlocks, BlocksBits, BlocksOk, BitsOf, Val, Take, Drop;
    var blocks := BlocksBits(bs, first4, text, 0) + more;
    var s := BitsOf(first4, 4) + blocks;
    assert FileBits(skip, bs, first4, text) + more == skip + s;
    InFront(skip, s);
    UnitsBack(first4, blocks);
    BlocksBack(bs, first4, text, 0, more);
    assert text[..0] == [];
  }

  /** DecompressFile, on the words of such a file. */
  method Decompresses(input: seq<nat>, ghost skip: seq<bool>, ghost bs: seq<Block>, ghost first4: nat,
                      ghost text: seq<Byte>, ghost more: seq<bool>, size: nat)
    returns (ok: bool, output: array<Byte>)
    requires |input| >= 2 && forall i :: 0 <= i < |input| ==> input[i] < 0x1_0000_0000
    requires |skip| == 4 && first4 < 16 && BlocksOk(bs, first4, text, 0) && size == |text|
    requires WordsBits(input) == FileBits(skip, bs, first4, text) + more
    ensures ok && output[..] == text
  {
    hide TablesOk, ReadFile, BlocksOk, FileBits, WordsBits;
    SourceTablesOk();
    FileBack(skip, bs, first4, text, more);
    ok, output := DecompressFile(input, size, SOURCE_TABLES);
  }

  /** The bits of the file in order: each word from its highest bit down. */
  lemma {:induction false} FileBit(input: seq<nat>, i: nat, j: nat)
    requires i < |input| && j < 32
    ensures |WordsBits(input)| == 32 * |input|
    ensures WordsBits(input)[32 * i + j] <==> input[i] / Pow2(31 - j) % 2 == 1
    decreases i
  {
    WordsLength(input);
    if i == 0 {
      WordBit(input[0], 32, j);
    } else {
      FileBit(input[1..], i - 1, j);
    }
  }

  lemma {:induction false} WordsLength(input: seq<nat>)
    ensures |WordsBits(input)| == 32 * |input|
  {
    if input != [] {
      WordsLength(input[1..]);
    }
  }

  lemma {:induction false} WordBit(w: nat, n: nat, j: nat)
    requires j < n
    ensures BitsOf(w, n)[j] <==> w / Pow2(n - 1 - j) % 2 == 1
    decreases n
  {
    if j < n - 1 {
      WordBit(w / 2, n - 1, j);
      HalfThen(w, Pow2(n - 2 - j));
    }
  }
}
