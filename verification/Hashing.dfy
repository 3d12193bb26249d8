/** The hash functions of code/common/hash.h, on 32-bit words and ASCII strings. */
module Hashing {
  import opened Powers
  import opened Bits
  import opened Bytes

  type Word = x: nat | x < 0x1_0000_0000

  // ---------- One word ----------

  /** `~n + (n << 15)`. */
  function Scatter(n: Word): Word {
    (WORD - 1 - n + n * 0x8000) % WORD
  }

  /** `n + (n << 2)`. */
  function Fivefold(n: Word): Word {
    (n + n * 4) % WORD
  }

  /** `n + ((n << 3) + (n << 11))`. */
  function Spread(n: Word): Word {
    (n + (n * 8 + n * 0x800)) % WORD
  }

  /** `n ^ (n >> k)`. */
  function Fold(n: Word, k: nat): Word {
    Pow2Values();
    ShrSmaller(n, k);
    XorBelow(n, Shr(n, k), 32);
    Xor(n, Shr(n, k))
  }

  lemma {:induction false} ShrSmaller(n: nat, k: nat)
    ensures Shr(n, k) <= n
    decreases k
  {
    if k > 0 {
      ShrSmaller(n / 2, k - 1);
    }
  }

  function HashInt32(n: Word): Word {
    Fold(Spread(Fold(Fivefold(Fold(Scatter(n), 12)), 4)), 16)
  }

  lemma {:induction false} ShrHalf(n: nat, k: nat)
    ensures Shr(n, k) / 2 == Shr(n / 2, k)
    decreases k
  {
    if k > 0 {
      ShrHalf(n / 2, k - 1);
    }
  }

  lemma {:induction false} FoldInjective(m: nat, n: nat, k: nat)
    requires k >= 1 && Xor(m, Shr(m, k)) == Xor(n, Shr(n, k))
    ensures m == n
    decreases m + n
  {
    if m != 0 || n != 0 {
      XorParts(m, Shr(m, k));
      XorParts(n, Shr(n, k));
      ShrHalf(m, k);
      ShrHalf(n, k);
      FoldInjective(m / 2, n / 2, k);
      assert Shr(m, k) == Shr(m / 2, k - 1) == Shr(n, k);
      XorUndone(m, Shr(m, k));
      XorUndone(n, Shr(n, k));
    }
  }

  lemma ScatterInjective(m: Word, n: Word)
    requires Scatter(m) == Scatter(n)
    ensures m == n
  {
    var p, q := (WORD - 1 - m + m * 0x8000) / WORD, (WORD - 1 - n + n * 0x8000) / WORD;
    var d, r := m - n, p - q;
    assert 0x7FFF * d == WORD * r;
    // The inverse of 0x7FFF modulo 2^32.
    assert 0x7FFF * 3221192703 - WORD * 24575 == 1;
    assert d == WORD * (3221192703 * r - 24575 * d);
  }

  lemma FivefoldInjective(m: Word, n: Word)
    requires Fivefold(m) == Fivefold(n)
    ensures m == n
  {
    var p, q := (m + m * 4) / WORD, (n + n * 4) / WORD;
    assert 5 * (m - n) == WORD * (p - q);
  }

  lemma SpreadInjective(m: Word, n: Word)
    requires Spread(m) == Spread(n)
    ensures m == n
  {
    var p, q := (m + (m * 8 + m * 0x800)) / WORD, (n + (n * 8 + n * 0x800)) / WORD;
    var d, r := m - n, p - q;
    assert 2057 * d == WORD * r;
    // The inverse of 2057 modulo 2^32.
    assert 2057 * 3369993785 - WORD * 1614 == 1;
    assert d == WORD * (3369993785 * r - 1614 * d);
  }

  /** No two words have the same hash, so paths of repeated hashes never merge. */
  lemma HashInjective(m: Word, n: Word)
    requires HashInt32(m) == HashInt32(n)
    ensures m == n
  {
    hide Scatter, Fivefold, Spread, Xor, Shr;
    var a, a' := Scatter(m), Scatter(n);
    var b, b' := Fold(a, 12), Fold(a', 12);
    var c, c' := Fivefold(b), Fivefold(b');
    var d, d' := Fold(c, 4), Fold(c', 4);
    var e, e' := Spread(d), Spread(d');
    FoldInjective(e, e', 16);
    SpreadInjective(d, d');
    FoldInjective(c, c', 4);
    FivefoldInjective(b, b');
    FoldInjective(a, a', 12);
    ScatterInjective(m, n);
  }

  /** The hash of a word in numbers, stage by stage. */
  lemma HashStages(n: Word) returns (a: Word, b: Word, c: Word, d: Word, e: Word)
    ensures a == (0xFFFF_FFFF - n + 32768 * n) % 0x1_0000_0000
    ensures b == Xor(a, a / 4096) && c == 5 * b % 0x1_0000_0000
    ensures d == Xor(c, c / 16) && e == 2057 * d % 0x1_0000_0000
    ensures HashInt32(n) == Xor(e, e / 65536)
  {
    hide Xor, Shr;
    a := Scatter(n);
    b := Fold(a, 12);
    c := Fivefold(b);
    d := Fold(c, 4);
    e := Spread(d);
    ShrSixteenth(a, 8);
    ShrSixteenth(a / 16, 4);
    ShrSixteenth(a / 256, 0);
    ShrSixteenth(c, 0);
    ShrSixteenth(e, 12);
    ShrSixteenth(e / 16, 8);
    ShrSixteenth(e / 256, 4);
    ShrSixteenth(e / 4096, 0);
    ShrNone(a / 4096);
    ShrNone(c / 16);
    ShrNone(e / 65536);
  }

  lemma ShrSixteenth(n: nat, k: nat)
    ensures Shr(n, k + 4) == Shr(n / 16, k)
  {
    assert Shr(n, k + 4) == Shr(n / 2, k + 3);
    assert Shr(n / 2, k + 3) == Shr(n / 2 / 2, k + 2);
    assert n / 2 / 2 / 2 / 2 == n / 16;
  }

  lemma ShrNone(n: nat)
    ensures Shr(n, 0) == n
  {
  }

  // ---------- Strings ----------

  type Ascii = x: nat | 1 <= x < 128 witness 1

  type Text = seq<Ascii>

  /** tolower in the C locale. */
  function Lower(c: Ascii): Ascii {
    if 65 <= c <= 90 then c + 32 else c
  }

  function LowerText(s: Text): (r: Text)
    ensures |r| == |s| && forall i :: 0 <= i < |s| ==> r[i] == Lower(s[i])
  {
    seq<Ascii>(|s|, i requires 0 <= i < |s| => Lower(s[i]))
  }

  /** The polynomial with base 31. */
  function Hash(s: Text): Word {
    if s == [] then 0 else Mix(Hash(s[..|s| - 1]), s[|s| - 1])
  }

  /** `((hash << 5) - hash) + c`. */
  function Mix(h: Word, c: Ascii): Word {
    (h * 32 - h + c) % WORD
  }

  /** The characters as digits of base 31. */
  function Polynomial(s: Text): nat {
    if s == [] then 0 else 31 * Polynomial(s[..|s| - 1]) + s[|s| - 1]
  }

  /** The hash is the number that the characters spell in base 31, modulo 2^32. */
  lemma {:induction false} HashIsPolynomial(s: Text)
    ensures Hash(s) == Polynomial(s) % 0x1_0000_0000
  {
    if s != [] {
      var p := s[..|s| - 1];
      HashIsPolynomial(p);
      ModStep(Polynomial(p), s[|s| - 1]);
    }
  }

  lemma ModStep(p: nat, c: nat)
    ensures (31 * (p % 0x1_0000_0000) + c) % 0x1_0000_0000 == (31 * p + c) % 0x1_0000_0000
  {
    var q := p / 0x1_0000_0000;
    assert 31 * p + c == 31 * (p % 0x1_0000_0000) + c + (31 * q) * 0x1_0000_0000;
  }

  method HashStr(s: Text) returns (hash: Word)
    ensures hash == Hash(s) == Polynomial(s) % 0x1_0000_0000
  {
    hash := 0;
    var i := 0;
    while i < |s|
      invariant i <= |s| && hash == Hash(s[..i])
    {
      hash := Mix(hash, s[i]);
      assert s[..i + 1][..i] == s[..i];
      i := i + 1;
    }
    assert s[..i] == s;
    HashIsPolynomial(s);
  }

  /** `t` is `s` with every capital letter made small. */
  predicate IsLower(t: Text, s: Text) {
    |t| == |s| && forall i :: 0 <= i < |s| ==> t[i] == if 65 <= s[i] <= 90 then s[i] + 32 else s[i]
  }

  /** Hashing without regard to case is hashing the lower-case string. */
  method HashStrI(s: Text) returns (hash: Word)
    ensures hash == Hash(LowerText(s))
    ensures forall low: Text :: IsLower(low, s) ==> hash == Polynomial(low) % 0x1_0000_0000
  {
    hash := 0;
    var i := 0;
    ghost var low := LowerText(s);
    while i < |s|
      invariant i <= |s| && hash == Hash(low[..i])
    {
      var lc := Lower(s[i]);
      hash := Mix(hash, lc);
      assert low[..i + 1][..i] == low[..i];
      i := i + 1;
    }
    assert low[..i] == low;
    HashIsPolynomial(low);
    forall t: Text | IsLower(t, s)
      ensures t == low
    {
    }
  }

  /** Two characters are the same letter, or the same other character. */
  lemma SameLower(c: Ascii, d: Ascii)
    ensures Lower(c) == Lower(d) <==>
      c == d || (65 <= c <= 90 && d == c + 32) || (65 <= d <= 90 && c == d + 32)
  {
  }

  /** The texts differ at most in the case of letters. */
  predicate SameButCase(a: Text, b: Text) {
    |a| == |b| && forall i :: 0 <= i < |a| ==>
      a[i] == b[i] || (65 <= a[i] <= 90 && b[i] == a[i] + 32) || (65 <= b[i] <= 90 && a[i] == b[i] + 32)
  }

  lemma SameTexts(a: Text, b: Text)
    ensures LowerText(a) == LowerText(b) <==> SameButCase(a, b)
  {
    hide Lower;
    if |a| == |b| {
      forall i | 0 <= i < |a|
        ensures LowerText(a)[i] == LowerText(b)[i] <==>
          a[i] == b[i] || (65 <= a[i] <= 90 && b[i] == a[i] + 32) || (65 <= b[i] <= 90 && a[i] == b[i] + 32)
      {
        SameLower(a[i], b[i]);
      }
      assert LowerText(a) == LowerText(b) <==> forall i :: 0 <= i < |a| ==> LowerText(a)[i] == LowerText(b)[i];
    }
  }

  /** The character at a place, or the zero that ends the text. */
  function CharAt(s: Text, i: nat): int {
    if i < |s| then s[i] else 0
  }

  /** Up to place `i` the texts are the same but for case, and there they end or differ by `r`. */
  predicate DifferAt(a: Text, b: Text, i: nat, r: int)
    requires i <= |a| && i <= |b|
  {
    && LowerText(a)[..i] == LowerText(b)[..i] && r == CharAt(a, i) - CharAt(b, i)
    && (i == |a| || i == |b| || Lower(a[i]) != Lower(b[i]))
  }

  /** `stricmp`, on strings that end with a zero. */
  method Stricmp(a: Text, b: Text) returns (r: int)
    ensures r == 0 <==> LowerText(a) == LowerText(b)
    ensures r == 0 <==> SameButCase(a, b)
    ensures exists i :: 0 <= i <= |a| && i <= |b| && DifferAt(a, b, i, r)
  {
    var i := 0;
    while i < |a|
      invariant i <= |a| && i <= |b| && LowerText(a)[..i] == LowerText(b)[..i]
    {
      if i == |b| || Lower(a[i]) != Lower(b[i]) { break; }
      assert LowerText(a)[..i + 1] == LowerText(b)[..i + 1];
      i := i + 1;
    }
    var x: int, y: int := if i < |a| then a[i] else 0, if i < |b| then b[i] else 0;
    r := x - y;
    SameTexts(a, b);
    assert DifferAt(a, b, i, r);
    if i == |a| == |b| {
      assert LowerText(a)[..i] == LowerText(a) && LowerText(b)[..i] == LowerText(b);
    } else if i < |a| && i < |b| {
      assert LowerText(a)[i] != LowerText(b)[i];
    }
  }
}
