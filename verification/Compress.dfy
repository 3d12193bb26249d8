/**
  The write side of the format that docs/compress.c reads: how any text, cut into
  literals and copies in any way, is spelled, and that DecompressFile gives it back.
*/
module TokenStreams {
  import opened Powers
  import opened Bits
  import opened CanonicalCode
  import opened Decoders
  import opened InflateSpec
  import opened SourceTables

  // ---------- A text as tokens ----------

  /**
    From `at` to `end` the text is what the tokens say: a literal is the next byte, and
    every byte of a copy equals the byte `distance` before it.
  */
  ghost predicate Factors(text: seq<Byte>, at: nat, end: nat, ts: seq<Token>)
    decreases |ts|
  {
    && at <= end <= |text|
    && if ts == [] then at == end
    else
      match ts[0]
      case Literal(b) => at < end && text[at] == b && Factors(text, at + 1, end, ts[1..])
      case Copy(n, d) =>
        && d <= at && at + n <= end && (forall i :: at <= i < at + n ==> text[i] == text[i - d])
        && Factors(text, at + n, end, ts[1..])
  }

  function Span(t: Token): (n: nat)
    ensures n > 0
  {
    if t.Copy? then t.count else 1
  }

  lemma {:induction false} CopyCycles(text: seq<Byte>, at: nat, n: nat, d: Positive, i: nat)
    requires d <= at && at + n <= |text| && (forall k :: at <= k < at + n ==> text[k] == text[k - d]) && i < n
    ensures text[at + i] == text[at - d + Cycle(i, d)]
    decreases i
  {
    if i >= d {
      CopyCycles(text, at, n, d, i - d);
      assert text[at + i] == text[at + i - d];
    } else {
      assert text[at + i] == text[at + i - d];
    }
  }

  /** A token that the text starts with expands what is written to more of the text. */
  lemma TokenExpands(text: seq<Byte>, at: nat, end: nat, ts: seq<Token>)
    requires Factors(text, at, end, ts) && ts != []
    ensures var n := Span(ts[0]);
      && Allowed(ts[0], at, |text|) && at + n <= end && Factors(text, at + n, end, ts[1..])
      && (ts[0].Copy? ==> ts[0].distance <= at) && Expand(text[..at], ts[0]) == text[..at + n]
  {
    hide Expand;
    match ts[0]
    case Literal(b) => OneMore(text, at, b);
    case Copy(n, d) => CopyExpands(text, at, n, d);
  }

  lemma OneMore(text: seq<Byte>, at: nat, b: Byte)
    requires at < |text| && text[at] == b
    ensures Expand(text[..at], Literal(b)) == text[..at + 1]
  {
  }

  lemma CopyExpands(text: seq<Byte>, at: nat, n: Positive, d: Positive)
    requires d <= at && at + n <= |text| && forall k :: at <= k < at + n ==> text[k] == text[k - d]
    ensures Expand(text[..at], Copy(n, d)) == text[..at + n]
  {
    hide Cycle;
    var r := Expand(text[..at], Copy(n, d));
    forall k | 0 <= k < at + n
      ensures r[k] == text[k]
    {
      if k >= at {
        CopyCycles(text, at, n, d, k - at);
        assert r[k] == text[..at][at - d + Cycle(k - at, d)];
      }
    }
  }

  // ---------- Tokens as bits ----------

  /** Where the codeword of a literal stands; for a copy also the distance's, and both extra values. */
  datatype Choice =
    | One(l: nat, j: nat)
    | Many(l: nat, j: nat, extra: nat, dl: nat, dj: nat, dextra: nat)

  predicate At(ch: Chains, l: nat, j: nat) {
    l < LENGTHS && j < |ch[l]|
  }

  /** The choice spells the token: lengths count from `first4 + 1`, distances from 1. */
  predicate Spells(lit: Chains, dist: Chains, first4: nat, c: Choice, t: Token) {
    && At(lit, c.l, c.j)
    && var symbol := lit[c.l][c.j];
    match t
    case Literal(b) => c.One? && symbol == b
    case Copy(n, d) =>
      && c.Many? && At(dist, c.dl, c.dj) && 256 <= symbol < 285
      && var k, m := symbol - 256, dist[c.dl][c.dj];
      && m < 30 && c.extra < Pow2(EXTRA_BITS_LENGTH[k]) && c.dextra < Pow2(EXTRA_BITS_DISTANCE[m])
      && n == first4 + 1 + TABLE3[k] + c.extra && d == 1 + BACKTRACK_BASES[m] + c.dextra
  }

  function ChoiceBits(lit: Chains, dist: Chains, c: Choice): seq<bool>
    requires Fits(lit) && Fits(dist) && At(lit, c.l, c.j)
    requires c.Many? ==> At(dist, c.dl, c.dj) && 256 <= lit[c.l][c.j] < 285 && dist[c.dl][c.dj] < 30
  {
    var w := Codeword(lit, c.l, c.j);
    if c.One? then w
    else
      w + (BitsOf(c.extra, EXTRA_BITS_LENGTH[lit[c.l][c.j] - 256])
           + (Codeword(dist, c.dl, c.dj) + BitsOf(c.dextra, EXTRA_BITS_DISTANCE[dist[c.dl][c.dj]])))
  }

  lemma FitsOf(ch: Chains)
    requires Complete(ch)
    ensures Fits(ch)
  {
  }

  /** A codeword is decoded to its symbol, and what follows is left. */
  lemma CodewordBack(ch: Chains, l: nat, j: nat, more: seq<bool>)
    requires Complete(ch) && At(ch, l, j)
    ensures var s := Codeword(ch, l, j) + more;
      Decode(ch, s) == Decoded(ch[l][j], l) && Drop(s, l) == more
  {
    hide Codeword, Decode;
    StartsConcat(ch, l, j, more);
    DecodeMeaning(ch, Codeword(ch, l, j) + more, l, j);
  }

  lemma {:induction false} OrAdds(a: nat, n: nat, x: nat)
    requires x < Pow2(n)
    ensures Or(a * Pow2(n), x) == a * Pow2(n) + x
    decreases n
  {
    if n == 0 {
      OrZero(a);
    } else {
      var p := Pow2(n - 1);
      assert a * Pow2(n) == 2 * (a * p);
      OrAdds(a, n - 1, x / 2);
      OrStep(a * Pow2(n), x);
    }
  }

  lemma {:induction false} OrZero(a: nat)
    ensures Or(a, 0) == a
  {
    if a > 0 {
      OrZero(a / 2);
    }
  }

  lemma OrStep(x: nat, y: nat)
    ensures Or(x, y) == 2 * Or(x / 2, y / 2) + BitOf(x % 2 == 1 || y % 2 == 1)
  {
  }

  /** Extra bits below a base that leaves room for them add up. */
  lemma ExtraBack(base: nat, a: nat, n: nat, x: nat, more: seq<bool>)
    requires base == a * Pow2(n) && x < Pow2(n)
    ensures var s := BitsOf(x, n) + more; WithExtra(base, s, n) == base + x && Drop(s, n) == more
  {
    hide Or, Val, BitsOf;
    var s := BitsOf(x, n) + more;
    assert Take(s, n) == BitsOf(x, n);
    ValBitsOf(x, n);
    OrAdds(a, n, x);
  }

  lemma SmallPowers()
    ensures Pow2(0) == 1 && Pow2(1) == 2 && Pow2(2) == 4 && Pow2(3) == 8 && Pow2(4) == 16 && Pow2(5) == 32
  {
  }

  lemma LengthBase(k: nat) returns (a: nat)
    requires k < 29
    ensures TABLE3[k] == a * Pow2(EXTRA_BITS_LENGTH[k])
  {
    hide Pow2;
    SmallPowers();
    a := if k < 8 then k else if k == 28 then 255 else 4 + k % 4;
  }

  lemma MorePowers()
    ensures Pow2(6) == 64 && Pow2(7) == 128 && Pow2(8) == 256 && Pow2(9) == 512 && Pow2(10) == 1024
    ensures Pow2(11) == 2048 && Pow2(12) == 4096 && Pow2(13) == 8192
  {
    SmallPowers();
    assert Pow2(6) == 64;
    assert Pow2(8) == 256;
    assert Pow2(10) == 1024;
    assert Pow2(12) == 4096;
  }

  lemma DistanceBase(m: nat) returns (a: nat)
    requires m < 30
    ensures BACKTRACK_BASES[m] == a * Pow2(EXTRA_BITS_DISTANCE[m])
  {
    hide Pow2;
    SmallPowers();
    MorePowers();
    a := if m < 4 then m else 2 + m % 2;
  }

  // ---------- One token and one block ----------

  lemma DistanceBack(dist: Chains, l: nat, j: nat, x: nat, more: seq<bool>)
    requires TablesOk(SOURCE_TABLES) && Complete(dist) && ShortEnough(dist) && At(dist, l, j)
    requires dist[l][j] < 30 && x < Pow2(EXTRA_BITS_DISTANCE[dist[l][j]])
    ensures var m := dist[l][j];
      ReadDistance(SOURCE_TABLES, dist, Codeword(dist, l, j) + (BitsOf(x, EXTRA_BITS_DISTANCE[m]) + more)) ==
      Done(Distance(BACKTRACK_BASES[m] + x + 1, more))
  {
    hide Codeword, Decode, Complete, ShortEnough, WithExtra, BitsOf, Drop, Pow2, TablesOk, TABLE1, TABLE2;
    hide BACKTRACK_BASES, BACKTRACK_REST, EXTRA_BITS_DISTANCE, TABLE3;
    SmallTables();
    var m := dist[l][j];
    CodewordBack(dist, l, j, BitsOf(x, EXTRA_BITS_DISTANCE[m]) + more);
    var a := DistanceBase(m);
    ExtraBack(BACKTRACK_BASES[m], a, EXTRA_BITS_DISTANCE[m], x, more);
  }

  /** A token is read back from its bits, whatever follows. */
  lemma TokenBack(lit: Chains, dist: Chains, first4: nat, c: Choice, t: Token, more: seq<bool>)
    requires TablesOk(SOURCE_TABLES) && Complete(lit) && ShortEnough(lit) && Complete(dist) && ShortEnough(dist)
    requires Spells(lit, dist, first4, c, t)
    ensures ReadToken(SOURCE_TABLES, lit, dist, first4, ChoiceBits(lit, dist, c) + more) == Done(Decoded2(t, more))
  {
    hide Codeword, Decode, Complete, ShortEnough, BitsOf, Drop, Pow2, TablesOk, CopyToken, TABLE1, TABLE2;
    hide BACKTRACK_BASES, BACKTRACK_REST, EXTRA_BITS_DISTANCE, EXTRA_BITS_LENGTH, TABLE3;
    FitsOf(lit);
    FitsOf(dist);
    SmallTables();
    if t.Literal? {
      CodewordBack(lit, c.l, c.j, more);
    } else {
      var k, m := lit[c.l][c.j] - 256, dist[c.dl][c.dj];
      var w, x := Codeword(lit, c.l, c.j), BitsOf(c.extra, EXTRA_BITS_LENGTH[k]);
      var e, y := Codeword(dist, c.dl, c.dj), BitsOf(c.dextra, EXTRA_BITS_DISTANCE[m]);
      Regroup(w, x, e, y, more);
      CodewordBack(lit, c.l, c.j, x + (e + (y + more)));
      CopyBack(dist, first4, k, c.extra, c.dl, c.dj, c.dextra, more);
    }
  }

  lemma Regroup(w: seq<bool>, x: seq<bool>, e: seq<bool>, y: seq<bool>, more: seq<bool>)
    ensures (w + (x + (e + y))) + more == w + (x + (e + (y + more)))
  {
  }

  lemma CopyBack(dist: Chains, first4: nat, k: nat, x: nat, l: nat, j: nat, y: nat, more: seq<bool>)
    requires TablesOk(SOURCE_TABLES) && Complete(dist) && ShortEnough(dist) && At(dist, l, j) && Fits(dist) && k < 29
    requires dist[l][j] < 30 && x < Pow2(EXTRA_BITS_LENGTH[k]) && y < Pow2(EXTRA_BITS_DISTANCE[dist[l][j]])
    ensures var m := dist[l][j];
      CopyToken(SOURCE_TABLES, dist, first4, k,
                BitsOf(x, EXTRA_BITS_LENGTH[k]) + (Codeword(dist, l, j) + (BitsOf(y, EXTRA_BITS_DISTANCE[m]) + more))) ==
      Done(Decoded2(Copy(first4 + 1 + TABLE3[k] + x, 1 + BACKTRACK_BASES[m] + y), more))
  {
    hide Codeword, Complete, ShortEnough, WithExtra, BitsOf, Drop, Pow2, TablesOk, TABLE1, TABLE2, ReadDistance, Fits;
    hide BACKTRACK_BASES, BACKTRACK_REST, EXTRA_BITS_DISTANCE, EXTRA_BITS_LENGTH, TABLE3;
    SmallTables();
    var a := LengthBase(k);
    ExtraBack(TABLE3[k], a, EXTRA_BITS_LENGTH[k], x,
              Codeword(dist, l, j) + (BitsOf(y, EXTRA_BITS_DISTANCE[dist[l][j]]) + more));
    DistanceBack(dist, l, j, y, more);
  }

  predicate AllSpell(lit: Chains, dist: Chains, first4: nat, cs: seq<Choice>, ts: seq<Token>) {
    |cs| == |ts| && forall i :: 0 <= i < |ts| ==> Spells(lit, dist, first4, cs[i], ts[i])
  }

  function ChoicesBits(lit: Chains, dist: Chains, first4: nat, cs: seq<Choice>, ts: seq<Token>): seq<bool>
    requires Fits(lit) && Fits(dist) && AllSpell(lit, dist, first4, cs, ts)
  {
    if cs == [] then []
    else
      assert Spells(lit, dist, first4, cs[0], ts[0]);
      ChoiceBits(lit, dist, cs[0]) + ChoicesBits(lit, dist, first4, cs[1..], ts[1..])
  }

  /** A block of tokens is read back to the text they cut up. */
  lemma {:induction false} BlockBack(lit: Chains, dist: Chains, first4: nat, cs: seq<Choice>, ts: seq<Token>,
                                     text: seq<Byte>, at: nat, end: nat, n: nat, more: seq<bool>)
    requires TablesOk(SOURCE_TABLES) && Complete(lit) && ShortEnough(lit) && Complete(dist) && ShortEnough(dist)
    requires AllSpell(lit, dist, first4, cs, ts) && Factors(text, at, end, ts)
    requires |ts| == n || (|ts| <= n && end == |text|)
    ensures ReadBlock(SOURCE_TABLES, lit, dist, first4, ChoicesBits(lit, dist, first4, cs, ts) + more,
                      text[..at], |text|, n) == Done(Progress(text[..end], more))
    decreases |ts|
  {
    hide Complete, ShortEnough, ReadToken, Spells, TablesOk, Expand, Allowed, ChoiceBits, Factors;
    FitsOf(lit);
    FitsOf(dist);
    NoTokens(text, at, end, ts);
    if ts == [] {
      assert [] + more == more;
    } else {
      assert Spells(lit, dist, first4, cs[0], ts[0]);
      var rest := ChoicesBits(lit, dist, first4, cs[1..], ts[1..]);
      SpelledBits(lit, dist, first4, cs[0], ts[0]);
      var head := ChoiceBits(lit, dist, cs[0]);
      assert ChoicesBits(lit, dist, first4, cs, ts) + more == head + (rest + more);
      TokenBack(lit, dist, first4, cs[0], ts[0], rest + more);
      TokenExpands(text, at, end, ts);
      BlockBack(lit, dist, first4, cs[1..], ts[1..], text, at + Span(ts[0]), end, n - 1, more);
    }
  }

  lemma SpelledBits(lit: Chains, dist: Chains, first4: nat, c: Choice, t: Token)
    requires Spells(lit, dist, first4, c, t)
    ensures At(lit, c.l, c.j)
    ensures c.Many? ==> At(dist, c.dl, c.dj) && 256 <= lit[c.l][c.j] < 285 && dist[c.dl][c.dj] < 30
  {
  }

  lemma NoTokens(text: seq<Byte>, at: nat, end: nat, ts: seq<Token>)
    requires Factors(text, at, end, ts)
    ensures at <= end <= |text| && (ts == [] ==> at == end) && (ts != [] ==> at < end)
  {
  }

  // ---------- Every length and every distance can be spelled ----------

  lemma NextLength(k: nat)
    requires k < 28
    ensures TABLE3[k] < TABLE3[k + 1] <= TABLE3[k] + Pow2(EXTRA_BITS_LENGTH[k])
  {
    hide Pow2;
    SmallPowers();
  }

  /** A length from `first4 + 1` to `first4 + 256` has its symbol and extra value. */
  lemma LengthSymbol(v: nat) returns (k: nat, x: nat)
    requires v < 256
    ensures k < 29 && x < Pow2(EXTRA_BITS_LENGTH[k]) && v == TABLE3[k] + x
  {
    hide Pow2;
    SmallPowers();
    k := 0;
    while k < 28 && TABLE3[k + 1] <= v
      invariant k < 29 && TABLE3[k] <= v
    {
      k := k + 1;
    }
    x := v - TABLE3[k];
    if k < 28 { NextLength(k); }
  }

  lemma NextDistance(m: nat)
    requires m < 29
    ensures BACKTRACK_BASES[m] < BACKTRACK_BASES[m + 1] <= BACKTRACK_BASES[m] + Pow2(EXTRA_BITS_DISTANCE[m])
  {
    hide Pow2;
    SmallPowers();
    MorePowers();
  }

  /** A distance from 1 to 32768 has its symbol and extra value. */
  lemma DistanceSymbol(w: nat) returns (m: nat, y: nat)
    requires w < 32768
    ensures m < 30 && y < Pow2(EXTRA_BITS_DISTANCE[m]) && w == BACKTRACK_BASES[m] + y
  {
    hide Pow2;
    SmallPowers();
    MorePowers();
    m := 0;
    while m < 29 && BACKTRACK_BASES[m + 1] <= w
      invariant m < 30 && BACKTRACK_BASES[m] <= w
    {
      m := m + 1;
    }
    y := w - BACKTRACK_BASES[m];
    if m < 29 { NextDistance(m); }
  }
}
