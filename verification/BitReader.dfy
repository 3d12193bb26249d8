/**
  The bit reader of docs/compress.c: two words of look-ahead over an input of
  little-endian 32-bit words.  `rest` is what it stands for, the bits not yet
  consumed; past the end of the input it reads zeros.
*/
module BitReaders {
  import opened Powers
  import opened Bits

  /** Shifting the look-ahead left by `n` and filling up from the second word. */
  lemma MergeBits(b1: nat, b2: nat, n: nat)
    requires b1 < WORD && b2 < WORD && 1 <= n <= 31
    ensures
      var m := Or(Shr(b2, 32 - n), Shl(b1, n));
      m < WORD && BitsOf(m, 32) == BitsOf(b1, 32)[n..] + BitsOf(b2, 32)[..n]
  {
    Pow2Values();
    ShrBits(b2, 32 - n);
    ShlBits(b1, n);
    OrBits(Shr(b2, 32 - n), Shl(b1, n), 32);
    var m := BitsOf(Or(Shr(b2, 32 - n), Shl(b1, n)), 32);
    var e := BitsOf(b1, 32)[n..] + BitsOf(b2, 32)[..n];
    forall i | 0 <= i < 32
      ensures m[i] == e[i]
    {
    }
  }

  /** Or-ing the leading bits of a fresh word into trailing zeros. */
  lemma FillBits(b1: nat, w: nat, k: nat)
    requires b1 < WORD && w < WORD && k <= 32
    requires forall i :: k <= i < 32 ==> !BitsOf(b1, 32)[i]
    ensures
      var m := Or(b1, Shr(w, k));
      m < WORD && BitsOf(m, 32) == BitsOf(b1, 32)[..k] + BitsOf(w, 32)[..32 - k]
  {
    Pow2Values();
    ShrBits(w, k);
    OrBits(b1, Shr(w, k), 32);
    var m := BitsOf(Or(b1, Shr(w, k)), 32);
    var e := BitsOf(b1, 32)[..k] + BitsOf(w, 32)[..32 - k];
    forall i | 0 <= i < 32
      ensures m[i] == e[i]
    {
    }
  }

  /** The two words show `rest`: 32 bits, then `avail` bits, then the words still to come. */
  predicate Shows(b1: nat, b2: nat, avail: nat, ws: seq<nat>, rest: seq<bool>) {
    && b1 < WORD && b2 < WORD && avail <= 32
    && BitsOf(b1, 32) == Take(rest, 32)
    && Drop(rest, 32) == BitsOf(b2, 32)[..avail] + WordsBits(ws)
    && (forall i :: avail <= i < 32 ==> !BitsOf(b2, 32)[i])
  }

  lemma Inside(s: seq<bool>, n: nat)
    requires n <= |s|
    ensures Take(s, n) == s[..n] && Drop(s, n) == s[n..]
  {
  }

  /** Enough bits in the second word. */
  lemma ShowsShift(b1: nat, b2: nat, avail: nat, ws: seq<nat>, rest: seq<bool>, n: nat)
    requires Shows(b1, b2, avail, ws, rest) && 1 <= n <= 31 && n <= avail
    ensures Shows(Or(Shr(b2, 32 - n), Shl(b1, n)), Shl(b2, n), avail - n, ws, Drop(rest, n))
  {
    hide Or, Shr, Shl, BitsOf, Take, Drop, WordsBits;
    MergeBits(b1, b2, n);
    ShlBits(b2, n);
    Inside(Drop(rest, 32), n);
    var c1, c2, rest' := BitsOf(b1, 32), BitsOf(b2, 32), Drop(rest, n);
    TakeDrop(rest, n, 32);
    TakeDrop(rest, 32, n);
    DropDrop(rest, n, 32);
    DropDrop(rest, 32, n);
    assert Take(Drop(rest, 32), n) == c2[..n];
    assert Take(rest', 32) == c1[n..] + c2[..n];
    assert Drop(rest', 32) == c2[n..avail] + WordsBits(ws);
    assert c2[n..avail] == (c2[n..] + Zeros(n))[..avail - n];
  }

  /** The input is exhausted: zeros follow. */
  lemma ShowsEnd(b1: nat, b2: nat, avail: nat, rest: seq<bool>, n: nat)
    requires Shows(b1, b2, avail, [], rest) && 1 <= n <= 31 && avail < n
    ensures Shows(Or(Shr(b2, 32 - n), Shl(b1, n)), 0, 0, [], Drop(rest, n))
  {
    MergeBits(b1, b2, n);
    var c1, c2, rest' := BitsOf(b1, 32), BitsOf(b2, 32), Drop(rest, n);
    TakeDrop(rest, n, 32);
    TakeDrop(rest, 32, n);
    DropDrop(rest, n, 32);
    DropDrop(rest, 32, n);
    assert Take(Drop(rest, 32), n) == c2[..n];
    ZeroBits(32);
  }

  lemma {:induction false} ZeroBits(n: nat)
    ensures BitsOf(0, n) == Zeros(n)
  {
    if n > 0 {
      ZeroBits(n - 1);
    }
  }

  lemma RefillStream(c1: seq<bool>, c2: seq<bool>, cw: seq<bool>, more: seq<bool>, avail: nat, rest: seq<bool>, n: nat)
    requires |c1| == 32 && |c2| == 32 && |cw| == 32 && 1 <= n <= 31 && avail < n
    requires c1 == Take(rest, 32) && Drop(rest, 32) == c2[..avail] + (cw + more)
    ensures Take(Drop(rest, n), 32) == c1[n..] + (c2[..avail] + cw[..n - avail])
    ensures Drop(Drop(rest, n), 32) == cw[n - avail..] + more
  {
    hide Take, Drop;
    var tail := Drop(rest, 32);
    Inside(tail, n);
    TakeDrop(rest, n, 32);
    TakeDrop(rest, 32, n);
    DropDrop(rest, n, 32);
    DropDrop(rest, 32, n);
    assert Take(tail, n) == c2[..avail] + cw[..n - avail];
    assert Drop(tail, n) == cw[n - avail..] + more;
  }

  lemma RefillWords(b1: nat, b2: nat, avail: nat, w: nat, n: nat)
    requires b1 < WORD && b2 < WORD && w < WORD && 1 <= n <= 31 && avail < n
    requires forall i :: avail <= i < 32 ==> !BitsOf(b2, 32)[i]
    ensures
      var c1, c2, cw := BitsOf(b1, 32), BitsOf(b2, 32), BitsOf(w, 32);
      var b1' := Or(Or(Shr(b2, 32 - n), Shl(b1, n)), Shr(w, avail + 32 - n));
      b1' < WORD && BitsOf(b1', 32) == c1[n..] + (c2[..avail] + cw[..n - avail])
  {
    MergeBits(b1, b2, n);
    var k := avail + 32 - n;
    var m := Or(Shr(b2, 32 - n), Shl(b1, n));
    FillBits(m, w, k);
    SpliceBits(BitsOf(b1, 32)[n..], BitsOf(b2, 32), avail, n, BitsOf(w, 32)[..n - avail]);
  }

  lemma SpliceBits(a: seq<bool>, c: seq<bool>, avail: nat, n: nat, d: seq<bool>)
    requires avail <= n <= |c|
    ensures (a + c[..n])[..|a| + avail] + d == a + (c[..avail] + d)
  {
  }

  /** A fresh word supplies the missing bits. */
  lemma ShowsRefill(b1: nat, b2: nat, avail: nat, w: nat, ws: seq<nat>, rest: seq<bool>, n: nat)
    requires Shows(b1, b2, avail, [w] + ws, rest) && w < WORD && 1 <= n <= 31 && avail < n
    ensures
      var b1' := Or(Or(Shr(b2, 32 - n), Shl(b1, n)), Shr(w, avail + 32 - n));
      Shows(b1', Shl(w, n - avail), avail + 32 - n, ws, Drop(rest, n))
  {
    RefillWords(b1, b2, avail, w, n);
    var cw := BitsOf(w, 32);
    assert ([w] + ws)[1..] == ws;
    RefillStream(BitsOf(b1, 32), BitsOf(b2, 32), cw, WordsBits(ws), avail, rest, n);
    ShlBits(w, n - avail);
    assert cw[n - avail..] == (cw[n - avail..] + Zeros(n - avail))[..avail + 32 - n];
  }

  class DecompressState {
    var bitsAvailable: nat
    var buf1: nat
    var buf2: nat
    var cur: nat
    const input: seq<nat>
    ghost var rest: seq<bool>

    ghost predicate Valid()
      reads this
    {
      && cur <= |input| && (forall i :: 0 <= i < |input| ==> input[i] < WORD)
      && Shows(buf1, buf2, bitsAvailable, input[cur..], rest)
    }

    /** The reader at the start of an input of at least two words. */
    constructor (input: seq<nat>)
      requires |input| >= 2 && forall i :: 0 <= i < |input| ==> input[i] < WORD
      ensures Valid() && rest == WordsBits(input) && this.input == input
    {
      this.input := input;
      buf1 := input[0];
      buf2 := input[1];
      bitsAvailable := 32;
      cur := 2;
      rest := WordsBits(input);
      assert input == [input[0]] + ([input[1]] + input[2..]);
      assert input[1..] == [input[1]] + input[2..] && input[1..][1..] == input[2..];
      assert WordsBits(input) == BitsOf(input[0], 32) + (BitsOf(input[1], 32) + WordsBits(input[2..]));
    }

    /** Drops exactly `bitsCount` bits of the stream. */
    method ConsumeBits(bitsCount: nat)
      requires Valid() && 1 <= bitsCount <= 31
      modifies this
      ensures Valid() && rest == Drop(old(rest), bitsCount)
    {
      hide Shl, Shr, Or, Take, Drop, BitsOf, WordsBits;
      ghost var b1, b2, avail, ws := buf1, buf2, bitsAvailable, input[cur..];
      buf1 := Or(Shr(buf2, 32 - bitsCount), Shl(buf1, bitsCount));

      if bitsAvailable < bitsCount {
        if cur == |input| {
          assert ws == [];
          ShowsEnd(b1, b2, avail, rest, bitsCount);
          bitsAvailable := 0;
          buf2 := 0;
          assert input[cur..] == [];
          assert Shows(buf1, buf2, bitsAvailable, input[cur..], Drop(rest, bitsCount));
        } else {
          assert ws == [input[cur]] + input[cur + 1..];
          ShowsRefill(b1, b2, avail, input[cur], input[cur + 1..], rest, bitsCount);
          buf2 := input[cur];
          cur := cur + 1;

          var newBitsAvailable := bitsAvailable + 32 - bitsCount;

          buf1 := Or(buf1, Shr(buf2, newBitsAvailable));
          buf2 := Shl(buf2, bitsCount - bitsAvailable);
          bitsAvailable := newBitsAvailable;
          assert Shows(buf1, buf2, bitsAvailable, input[cur..], Drop(rest, bitsCount));
        }
      } else {
        ShowsShift(b1, b2, avail, ws, rest, bitsCount);
        bitsAvailable := bitsAvailable - bitsCount;
        buf2 := Shl(buf2, bitsCount);
        assert Shows(buf1, buf2, bitsAvailable, input[cur..], Drop(rest, bitsCount));
      }
      rest := Drop(rest, bitsCount);
    }

    /** The next `bitsCount` bits of the stream, as a number. */
    function GetBits(bitsCount: nat): (v: nat)
      requires Valid() && 1 <= bitsCount <= 32
      reads this
      ensures v == Val(Take(rest, bitsCount))
    {
      ShrVal(buf1, 32 - bitsCount);
      TakeDrop(rest, bitsCount, 32 - bitsCount);
      Shr(buf1, 32 - bitsCount)
    }

    /** The look-ahead word is the next 32 bits. */
    lemma Window()
      requires Valid()
      ensures buf1 == Val(Take(rest, 32))
    {
      Pow2Values();
      ValBitsOf(buf1, 32);
    }
  }
}
