/** Powers of two, machine words and the bit sequences they spell. */
module Powers {
  function Pow2(n: nat): (p: nat)
    ensures p >= 1
  {
    if n == 0 then 1 else 2 * Pow2(n - 1)
  }

  lemma {:induction false} Pow2Add(a: nat, b: nat)
    ensures Pow2(a + b) == Pow2(a) * Pow2(b)
  {
    if a > 0 {
      Pow2Add(a - 1, b);
      assert Pow2(a + b) == 2 * Pow2(a - 1 + b);
    }
  }

  lemma {:induction false} Pow2Monotone(a: nat, b: nat)
    requires a <= b
    ensures Pow2(a) <= Pow2(b)
    decreases b
  {
    if a < b {
      Pow2Monotone(a, b - 1);
    }
  }

  lemma Pow2Values()
    ensures Pow2(8) == 256 && Pow2(16) == 0x1_0000 && Pow2(32) == 0x1_0000_0000
  {
    assert Pow2(4) == 16;
    Pow2Add(4, 4);
    Pow2Add(8, 8);
    Pow2Add(16, 16);
  }
}

module Bits {
  import opened Powers

  const WORD: nat := 0x1_0000_0000

  function BitOf(b: bool): nat {
    if b then 1 else 0
  }

  /** The number a bit sequence spells, most significant bit first. */
  function Val(b: seq<bool>): nat {
    if b == [] then 0 else 2 * Val(b[..|b| - 1]) + BitOf(b[|b| - 1])
  }

  /** The low `n` bits of `w`, most significant bit first. */
  function BitsOf(w: nat, n: nat): (b: seq<bool>)
    ensures |b| == n
  {
    if n == 0 then [] else BitsOf(w / 2, n - 1) + [w % 2 == 1]
  }

  function Zeros(n: nat): (z: seq<bool>)
    ensures |z| == n && forall i :: 0 <= i < n ==> !z[i]
  {
    seq(n, _ => false)
  }

  lemma {:induction false} ValBound(b: seq<bool>)
    ensures Val(b) < Pow2(|b|)
  {
    if b != [] {
      ValBound(b[..|b| - 1]);
    }
  }

  lemma ValSnoc(b: seq<bool>, x: bool)
    ensures Val(b + [x]) == 2 * Val(b) + BitOf(x)
  {
    assert (b + [x])[..|b|] == b;
  }

  lemma {:induction false} ValBitsOf(w: nat, n: nat)
    requires w < Pow2(n)
    ensures Val(BitsOf(w, n)) == w
  {
    if n > 0 {
      ValBitsOf(w / 2, n - 1);
      ValSnoc(BitsOf(w / 2, n - 1), w % 2 == 1);
    }
  }

  lemma {:induction false} BitsOfVal(b: seq<bool>)
    ensures BitsOf(Val(b), |b|) == b
  {
    if b != [] {
      var b' := b[..|b| - 1];
      BitsOfVal(b');
      assert Val(b) / 2 == Val(b') && (Val(b) % 2 == 1) == b[|b| - 1];
      assert BitsOf(Val(b), |b|) == BitsOf(Val(b'), |b'|) + [b[|b| - 1]];
    }
  }

  lemma {:induction false} ValConcat(a: seq<bool>, b: seq<bool>)
    ensures Val(a + b) == Val(a) * Pow2(|b|) + Val(b)
  {
    if b == [] {
      assert a + b == a;
    } else {
      var b' := b[..|b| - 1];
      ValConcat(a, b');
      assert (a + b)[..|a + b| - 1] == a + b';
      assert Val(a + b) == 2 * Val(a + b') + BitOf(b[|b| - 1]);
      assert Pow2(|b|) == 2 * Pow2(|b'|);
      Distribute(Val(a), Pow2(|b'|), Val(b'));
    }
  }

  lemma Distribute(a: nat, p: nat, b: nat)
    ensures 2 * (a * p + b) == a * (2 * p) + 2 * b
  {
  }

  lemma {:induction false} ValZeros(n: nat)
    ensures Val(Zeros(n)) == 0
  {
    if n > 0 {
      ValZeros(n - 1);
      assert Zeros(n)[..n - 1] == Zeros(n - 1);
    }
  }

  lemma {:induction false} MulStep(a: nat, b: nat, m: nat)
    ensures a < b ==> a * m + m <= b * m
    decreases b
  {
    if a + 1 < b {
      MulStep(a, b - 1, m);
      assert b * m == (b - 1) * m + m;
    }
  }

  /** Quotient and remainder are determined. */
  lemma QuotientUnique(m: nat, q: nat, r: nat, q': nat, r': nat)
    requires r < m && r' < m && q * m + r == q' * m + r'
    ensures q == q' && r == r'
  {
    MulStep(q, q', m);
    MulStep(q', q, m);
  }

  /** Halving, then dividing, is dividing by the double. */
  lemma HalfThen(w: nat, p: nat)
    requires p > 0
    ensures w / 2 / p == w / (2 * p)
  {
    var h := w / 2;
    var q, r := Divide(h, p);
    var q', r' := Divide(w, 2 * p);
    Doubled(w, h, w % 2, p, q, r);
    QuotientUnique(2 * p, q', r', q, 2 * r + w % 2);
  }

  lemma Divide(a: nat, p: nat) returns (q: nat, r: nat)
    requires p > 0
    ensures q == a / p && r < p && q * p + r == a
  {
    q, r := a / p, a % p;
  }

  lemma Doubled(w: nat, h: nat, b: nat, p: nat, q: nat, r: nat)
    requires w == 2 * h + b && h == q * p + r
    ensures w == q * (2 * p) + (2 * r + b)
  {
  }

  // ---------- The machine operations on 32-bit words ----------

  /** Doubling a word, modulo 2^32. */
  function Double(w: nat): nat {
    if 2 * w < WORD then 2 * w else 2 * w - WORD
  }

  function Shl(w: nat, n: nat): nat
    decreases n
  {
    if n == 0 then w else Shl(Double(w), n - 1)
  }

  function Shr(w: nat, n: nat): nat
    decreases n
  {
    if n == 0 then w else Shr(w / 2, n - 1)
  }

  function Or(x: nat, y: nat): nat
    decreases x + y
  {
    if x == 0 && y == 0 then 0 else 2 * Or(x / 2, y / 2) + BitOf(x % 2 == 1 || y % 2 == 1)
  }

  lemma {:induction false} LeadingBit(w: nat, n: nat)
    ensures BitsOf(w, n + 1)[1..] == BitsOf(w, n)
    ensures w < Pow2(n) ==> !BitsOf(w, n + 1)[0]
    ensures w >= Pow2(n) ==> BitsOf(w - Pow2(n), n) == BitsOf(w, n)
  {
    if n > 0 {
      LeadingBit(w / 2, n - 1);
      assert BitsOf(w, n + 1) == BitsOf(w / 2, n) + [w % 2 == 1];
      if w >= Pow2(n) {
        assert (w - Pow2(n)) / 2 == w / 2 - Pow2(n - 1);
        assert (w - Pow2(n)) % 2 == w % 2;
      }
    }
  }

  /** Doubling modulo 2^n. */
  lemma DoubleBits(w: nat, x: nat, n: nat)
    requires n >= 1 && x % 2 == 0 && x / 2 == if w >= Pow2(n - 1) then w - Pow2(n - 1) else w
    ensures BitsOf(x, n) == BitsOf(w, n)[1..] + [false]
  {
    LeadingBit(w, n - 1);
  }

  /** A left shift multiplies, when nothing is shifted out. */
  lemma {:induction false} ShlVal(w: nat, n: nat)
    requires w * Pow2(n) < WORD
    ensures Shl(w, n) == w * Pow2(n)
    decreases n
  {
    if n > 0 {
      var p := Pow2(n - 1);
      assert w * Pow2(n) == (2 * w) * p;
      assert (2 * w) * 1 <= (2 * w) * p by {
        MulStep(1, p, 2 * w);
      }
      ShlVal(2 * w, n - 1);
    }
  }

  lemma ShlOne(w: nat)
    requires w < WORD
    ensures BitsOf(Double(w), 32) == BitsOf(w, 32)[1..] + [false]
  {
    Pow2Values();
    DoubleBits(w, Double(w), 32);
  }

  /** A left shift drops the leading bits and appends zeros. */
  lemma {:induction false} ShlBits(w: nat, n: nat)
    requires w < WORD && n <= 32
    ensures Shl(w, n) < WORD && BitsOf(Shl(w, n), 32) == BitsOf(w, 32)[n..] + Zeros(n)
    decreases n
  {
    if n > 0 {
      ShlOne(w);
      ShlBits(Double(w), n - 1);
      assert (BitsOf(w, 32)[1..] + [false])[n - 1..] + Zeros(n - 1) == BitsOf(w, 32)[n..] + Zeros(n);
    }
  }

  lemma BitsOfInit(w: nat, n: nat)
    requires n >= 1
    ensures BitsOf(w, n)[..n - 1] == BitsOf(w / 2, n - 1)
  {
  }

  lemma HalveBits(w: nat, n: nat)
    requires n >= 1 && w < Pow2(n)
    ensures BitsOf(w / 2, n) == [false] + BitsOf(w, n)[..n - 1]
  {
    hide BitsOf;
    LeadingBit(w / 2, n - 1);
    BitsOfInit(w, n);
    assert BitsOf(w / 2, n) == [BitsOf(w / 2, n)[0]] + BitsOf(w / 2, n)[1..];
  }

  lemma PushZero(b: seq<bool>, n: nat)
    requires 1 <= n <= |b|
    ensures Zeros(n - 1) + ([false] + b[..|b| - 1])[..|b| - (n - 1)] == Zeros(n) + b[..|b| - n]
  {
  }

  /** A right shift drops the trailing bits and prepends zeros. */
  lemma {:induction false} ShrBits(w: nat, n: nat)
    requires w < WORD && n <= 32
    ensures Shr(w, n) < WORD && BitsOf(Shr(w, n), 32) == Zeros(n) + BitsOf(w, 32)[..32 - n]
    decreases n
  {
    if n > 0 {
      Pow2Values();
      HalveBits(w, 32);
      ShrBits(w / 2, n - 1);
      PushZero(BitsOf(w, 32), n);
    }
  }

  lemma ShrVal(w: nat, n: nat)
    requires w < WORD && n <= 32
    ensures Shr(w, n) == Val(BitsOf(w, 32)[..32 - n])
  {
    Pow2Values();
    ShrBits(w, n);
    ValBitsOf(Shr(w, n), 32);
    ValConcat(Zeros(n), BitsOf(w, 32)[..32 - n]);
    ValZeros(n);
  }

  lemma {:induction false} OrBits(x: nat, y: nat, n: nat)
    requires x < Pow2(n) && y < Pow2(n)
    ensures Or(x, y) < Pow2(n)
    ensures forall i :: 0 <= i < n ==> BitsOf(Or(x, y), n)[i] == (BitsOf(x, n)[i] || BitsOf(y, n)[i])
    decreases n
  {
    if n > 0 {
      OrBits(x / 2, y / 2, n - 1);
      var o := Or(x, y);
      assert o / 2 == Or(x / 2, y / 2) && (o % 2 == 1) == (x % 2 == 1 || y % 2 == 1);
      assert BitsOf(o, n) == BitsOf(o / 2, n - 1) + [o % 2 == 1];
    }
  }

  // ---------- Zero-padded bit streams ----------

  /** The first `n` bits of a stream that goes on with zeros after its last bit. */
  function Take(s: seq<bool>, n: nat): (t: seq<bool>)
    ensures |t| == n
    ensures forall i :: 0 <= i < n ==> t[i] == (i < |s| && s[i])
  {
    if n <= |s| then s[..n] else s + Zeros(n - |s|)
  }

  function Drop(s: seq<bool>, n: nat): seq<bool> {
    if n <= |s| then s[n..] else []
  }

  lemma DropDrop(s: seq<bool>, m: nat, n: nat)
    ensures Drop(Drop(s, m), n) == Drop(s, m + n)
  {
  }

  lemma TakeDrop(s: seq<bool>, m: nat, n: nat)
    ensures Take(s, m) + Take(Drop(s, m), n) == Take(s, m + n)
    ensures Take(s, m + n)[..m] == Take(s, m) && Take(s, m + n)[m..] == Take(Drop(s, m), n)
  {
  }

  function WordsBits(ws: seq<nat>): seq<bool> {
    if ws == [] then [] else BitsOf(ws[0], 32) + WordsBits(ws[1..])
  }
}
