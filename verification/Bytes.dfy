/** A value that may be missing. */
module Options {
  datatype Option<+T> = None | Some(value: T)
}

/** Bytes, little-endian numbers and slices: what the wire codec and the cipher work on. */
module Bytes {
  import opened Powers

  type Byte = x: nat | x < 256

  function Zeros(n: nat): (s: seq<Byte>)
    ensures |s| == n && forall i :: 0 <= i < n ==> s[i] == 0
  {
    seq<Byte>(n, (i: nat) => 0)
  }

  /** The little-endian 16-bit number at the head of `s`. */
  function Le16(s: seq<Byte>): (v: nat)
    requires |s| >= 2
    ensures v < 0x1_0000
  {
    (s[0] as int) + 0x100 * (s[1] as int)
  }

  function Le16Bytes(v: nat): (s: seq<Byte>)
    requires v < 0x1_0000
    ensures |s| == 2 && Le16(s) == v
  {
    [v % 0x100, v / 0x100]
  }

  function Le32(s: seq<Byte>): (v: nat)
    requires |s| >= 4
    ensures v < 0x1_0000_0000
  {
    var (a: int, b: int, c: int, d: int) := (s[0], s[1], s[2], s[3]);
    a + 0x100 * (b + 0x100 * (c + 0x100 * d))
  }

  function Le32Bytes(v: nat): (s: seq<Byte>)
    requires v < 0x1_0000_0000
    ensures |s| == 4 && Le32(s) == v
  {
    [v % 0x100, v / 0x100 % 0x100, v / 0x1_0000 % 0x100, v / 0x100_0000]
  }

  lemma Le16Unique(s: seq<Byte>)
    requires |s| == 2
    ensures Le16Bytes(Le16(s)) == s
  {
  }

  lemma Le32Unique(s: seq<Byte>)
    requires |s| == 4
    ensures Le32Bytes(Le32(s)) == s
  {
    var (v: int, b: int, c: int, d: int) := (Le32(s), s[1], s[2], s[3]);
    assert v / 0x100 == b + 0x100 * (c + 0x100 * d);
    assert v / 0x1_0000 == c + 0x100 * d;
    assert v / 0x100_0000 == d;
  }

  /** Exclusive or of two numbers, bit by bit. */
  function Xor(a: nat, b: nat): nat {
    if a == 0 && b == 0 then 0 else (a % 2 + b % 2) % 2 + 2 * Xor(a / 2, b / 2)
  }

  lemma XorParts(a: nat, b: nat)
    ensures Xor(a, b) % 2 == (a % 2 + b % 2) % 2 && Xor(a, b) / 2 == Xor(a / 2, b / 2)
  {
  }

  lemma XorZero()
    ensures Xor(0, 0) == 0
  {
  }

  lemma {:induction false} XorUndone(a: nat, b: nat)
    ensures Xor(Xor(a, b), b) == a
    decreases a + b
  {
    XorParts(a, b);
    XorParts(Xor(a, b), b);
    XorZero();
    hide Xor;
    if a != 0 || b != 0 {
      XorUndone(a / 2, b / 2);
    }
  }

  lemma {:induction false} XorBelow(a: nat, b: nat, n: nat)
    requires a < Pow2(n) && b < Pow2(n)
    ensures Xor(a, b) < Pow2(n)
  {
    if n > 0 {
      XorBelow(a / 2, b / 2, n - 1);
    }
  }

  function XorByte(a: Byte, b: Byte): Byte {
    Pow2Values();
    XorBelow(a, b, 8);
    Xor(a, b)
  }
}
