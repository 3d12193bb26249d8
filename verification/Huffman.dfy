/**
  Canonical prefix codes as docs/compress.c assigns them.  `ch[l]` lists the
  symbols whose codeword has length `l`; codewords of one length are given out
  downwards, starting below those that shorter codewords already cover.
*/
module CanonicalCode {
  import opened Powers
  import opened Bits

  const LENGTHS: nat := 32

  /** The symbols of each code length, 0 to 31. */
  type Chains = c: seq<seq<nat>> | |c| == 32 witness seq(32, _ => [])

  /** How many strings of length `l` no shorter codeword is a prefix of. */
  function Room(ch: Chains, l: nat): int
    requires l <= LENGTHS
  {
    if l == 0 then 1 else 2 * (Room(ch, l - 1) - |ch[l - 1]|)
  }

  /** How many of them are left once the codewords of length `l` are assigned. */
  function Left(ch: Chains, l: nat): int
    requires l < LENGTHS
  {
    Room(ch, l) - |ch[l]|
  }

  /** No length has more symbols than strings to give them. */
  predicate Fits(ch: Chains) {
    forall l :: 0 <= l < LENGTHS ==> Left(ch, l) >= 0
  }

  /** The same for the lengths below `k`. */
  predicate FitsBelow(ch: Chains, k: nat)
    requires k <= LENGTHS
  {
    k == 0 || (FitsBelow(ch, k - 1) && Left(ch, k - 1) >= 0)
  }

  lemma {:induction false} FitsBelowAll(ch: Chains, k: nat)
    requires k <= LENGTHS
    ensures FitsBelow(ch, k) <==> forall l :: 0 <= l < k ==> Left(ch, l) >= 0
  {
    if k > 0 {
      FitsBelowAll(ch, k - 1);
    }
  }

  lemma FitsIsBelow(ch: Chains)
    ensures Fits(ch) <==> FitsBelow(ch, LENGTHS)
  {
    FitsBelowAll(ch, LENGTHS);
  }

  lemma {:induction false} BelowFits(ch: Chains, k: nat, m: nat)
    requires k <= m <= LENGTHS && !FitsBelow(ch, k)
    ensures !FitsBelow(ch, m)
    decreases m
  {
    if k < m {
      BelowFits(ch, k, m - 1);
    }
  }

  /** Three codewords of one bit do not fit. */
  lemma ThreeOfOneBit(ch: Chains)
    requires |ch[0]| == 0 && |ch[1]| == 3
    ensures !Fits(ch)
  {
    assert Room(ch, 1) == 2 * (Room(ch, 0) - 0);
    assert Left(ch, 1) == -1;
  }

  /** From some length on, no string is left unassigned. */
  predicate Complete(ch: Chains) {
    Fits(ch) && exists l :: 0 <= l < LENGTHS && Left(ch, l) == 0
  }

  lemma {:induction false} StaysEmpty(ch: Chains, l: nat, m: nat)
    requires Fits(ch) && l <= m < LENGTHS && Left(ch, l) == 0
    ensures Left(ch, m) == 0
    decreases m
  {
    if l < m {
      StaysEmpty(ch, l, m - 1);
      assert Left(ch, m) >= 0;
    }
  }

  /** The `j`-th codeword of length `l`. */
  function Codeword(ch: Chains, l: nat, j: nat): seq<bool>
    requires Fits(ch) && l < LENGTHS && j < |ch[l]|
  {
    assert Left(ch, l) >= 0;
    BitsOf(Room(ch, l) - 1 - j, l)
  }

  // ---------- Kraft's inequality ----------

  /** The sum of |ch[i]| * 2^(l - i) over i < k. */
  function Kraft(ch: Chains, l: nat, k: nat): nat
    requires k <= l + 1 && k <= LENGTHS
  {
    if k == 0 then 0 else Kraft(ch, l, k - 1) + |ch[k - 1]| * Pow2(l - (k - 1))
  }

  lemma {:induction false} KraftDouble(ch: Chains, l: nat, k: nat)
    requires k <= l + 1 && k <= LENGTHS
    ensures Kraft(ch, l + 1, k) == 2 * Kraft(ch, l, k)
  {
    if k > 0 {
      KraftDouble(ch, l, k - 1);
      Distribute(|ch[k - 1]|, Pow2(l - (k - 1)), 0);
    }
  }

  /** What is left at the start of each length, in closed form. */
  lemma {:induction false} RoomClosed(ch: Chains, l: nat)
    requires l <= LENGTHS
    ensures Room(ch, l) == Pow2(l) - Kraft(ch, l, l)
  {
    if l > 0 {
      RoomClosed(ch, l - 1);
      KraftDouble(ch, l - 1, l - 1);
      Distribute(|ch[l - 1]|, Pow2(0), 0);
    }
  }

  /** The codewords of a length count down from what Kraft's sum of the shorter ones leaves. */
  lemma CodewordValue(ch: Chains, l: nat, j: nat)
    requires Fits(ch) && l < LENGTHS && j < |ch[l]|
    ensures |Codeword(ch, l, j)| == l && Val(Codeword(ch, l, j)) == Pow2(l) - Kraft(ch, l, l) - 1 - j
  {
    hide BitsOf, Val, Kraft, Room;
    RoomClosed(ch, l);
    assert Left(ch, l) >= 0;
    KraftNat(ch, l);
    ValBitsOf(Room(ch, l) - 1 - j, l);
  }

  lemma KraftNat(ch: Chains, l: nat)
    requires l < LENGTHS
    ensures Kraft(ch, l, l) >= 0
  {
  }

  lemma {:induction false} Overdrawn(ch: Chains, l: nat, m: nat)
    requires l <= m < LENGTHS && Left(ch, l) < 0
    ensures Left(ch, m) < 0
    decreases m
  {
    if l < m {
      Overdrawn(ch, l, m - 1);
    }
  }

  lemma KraftLeft(ch: Chains, l: nat)
    requires l < LENGTHS
    ensures Kraft(ch, l, l + 1) == Pow2(l) - Left(ch, l)
  {
    RoomClosed(ch, l);
    assert Kraft(ch, l, l + 1) == Kraft(ch, l, l) + |ch[l]| * Pow2(l - l);
  }

  /** A set of lengths is complete exactly when its Kraft sum, scaled by 2^31, is 2^31. */
  lemma KraftComplete(ch: Chains, last: nat)
    requires last == LENGTHS - 1
    ensures Complete(ch) <==> Kraft(ch, last, last + 1) == Pow2(last)
    ensures Fits(ch) <==> Kraft(ch, last, last + 1) <= Pow2(last)
  {
    KraftLeft(ch, last);
    if !Fits(ch) {
      var l :| 0 <= l < LENGTHS && Left(ch, l) < 0;
      Overdrawn(ch, l, last);
    }
    if Complete(ch) {
      var l :| 0 <= l < LENGTHS && Left(ch, l) == 0;
      StaysEmpty(ch, l, last);
    }
  }

  lemma {:induction false} RoomBound(ch: Chains, l: nat)
    requires Fits(ch) && l <= LENGTHS
    ensures 0 <= Room(ch, l) <= Pow2(l)
  {
    if l > 0 {
      RoomBound(ch, l - 1);
      assert Left(ch, l - 1) >= 0;
    }
  }

  // ---------- Decoding ----------

  /** The value of the first `l` bits of a stream. */
  function Prefix(s: seq<bool>, l: nat): nat {
    Val(Take(s, l))
  }

  lemma PrefixStep(s: seq<bool>, l: nat)
    ensures Prefix(s, l + 1) / 2 == Prefix(s, l)
    ensures 2 * Prefix(s, l) <= Prefix(s, l + 1) <= 2 * Prefix(s, l) + 1
  {
    var t := Take(s, l + 1);
    assert t == Take(s, l) + [t[l]];
    ValSnoc(Take(s, l), t[l]);
  }

  /** The first length from `l` on at which the stream is not inside the unassigned strings. */
  function Find(ch: Chains, s: seq<bool>, l: nat): (m: nat)
    requires l <= LENGTHS
    ensures l <= m <= LENGTHS
    ensures m < LENGTHS ==> Prefix(s, m) >= Left(ch, m)
    ensures forall i :: l <= i < m ==> Prefix(s, i) < Left(ch, i)
    decreases LENGTHS - l
  {
    if l == LENGTHS || Prefix(s, l) >= Left(ch, l) then l else Find(ch, s, l + 1)
  }

  /** Inside the room of length `l`, every shorter prefix is an unassigned string. */
  lemma {:induction false} Interior(ch: Chains, s: seq<bool>, l: nat)
    requires l <= LENGTHS && Prefix(s, l) < Room(ch, l)
    ensures forall i :: 0 <= i < l ==> Prefix(s, i) < Left(ch, i)
  {
    if l > 0 {
      PrefixStep(s, l - 1);
      Interior(ch, s, l - 1);
    }
  }

  lemma {:induction false} InRoom(ch: Chains, s: seq<bool>, l: nat)
    requires l <= LENGTHS
    requires forall i :: 0 <= i < l ==> Prefix(s, i) < Left(ch, i)
    ensures Prefix(s, l) < Room(ch, l)
  {
    if l > 0 {
      PrefixStep(s, l - 1);
    }
  }

  lemma FoundAt(ch: Chains, s: seq<bool>, l: nat)
    requires l < LENGTHS && Left(ch, l) <= Prefix(s, l) < Room(ch, l)
    ensures Find(ch, s, 0) == l
  {
    Interior(ch, s, l);
  }

  /** The codeword at position (l, j) starts the stream. */
  predicate Starts(ch: Chains, s: seq<bool>, l: nat, j: nat)
    requires Fits(ch) && l < LENGTHS && j < |ch[l]|
  {
    Codeword(ch, l, j) == Take(s, l)
  }

  lemma StartsValue(ch: Chains, s: seq<bool>, l: nat, j: nat)
    requires Fits(ch) && l < LENGTHS && j < |ch[l]|
    ensures Starts(ch, s, l, j) <==> Prefix(s, l) == Room(ch, l) - 1 - j
  {
    hide Room, Val, BitsOf, Take;
    RoomBound(ch, l);
    assert Left(ch, l) >= 0;
    ValBitsOf(Room(ch, l) - 1 - j, l);
    BitsOfVal(Take(s, l));
  }

  /** A codeword that starts the stream has the length that `Find` finds. */
  lemma StartsFound(ch: Chains, s: seq<bool>, l: nat, j: nat)
    requires Fits(ch) && l < LENGTHS && j < |ch[l]| && Starts(ch, s, l, j)
    ensures Find(ch, s, 0) == l && j == Index(ch, s, l)
  {
    StartsValue(ch, s, l, j);
    Interior(ch, s, l);
  }

  /** Codewords are pairwise prefix-free: at most one of them starts any stream. */
  lemma PrefixFree(ch: Chains, s: seq<bool>, l: nat, j: nat, l': nat, j': nat)
    requires Fits(ch) && l < LENGTHS && j < |ch[l]| && l' < LENGTHS && j' < |ch[l']|
    requires Starts(ch, s, l, j) && Starts(ch, s, l', j')
    ensures l == l' && j == j'
  {
    StartsFound(ch, s, l, j);
    StartsFound(ch, s, l', j');
  }

  lemma FoundBefore(ch: Chains, s: seq<bool>, m: nat)
    requires m < LENGTHS && Left(ch, m) <= 0
    ensures Find(ch, s, 0) <= m
  {
    assert Prefix(s, m) >= Left(ch, m);
  }

  /** The position among the codewords of length `l` that the first `l` bits of the stream point at. */
  function Index(ch: Chains, s: seq<bool>, l: nat): int
    requires l <= LENGTHS
  {
    Room(ch, l) - 1 - Prefix(s, l)
  }

  /** With a complete set of lengths, the stream points at a codeword. */
  lemma CompleteDecodes(ch: Chains, s: seq<bool>)
    requires Complete(ch)
    ensures Find(ch, s, 0) < LENGTHS && 0 <= Index(ch, s, Find(ch, s, 0)) < |ch[Find(ch, s, 0)]|
  {
    var m :| 0 <= m < LENGTHS && Left(ch, m) == 0;
    FoundBefore(ch, s, m);
    InRoom(ch, s, Find(ch, s, 0));
  }

  datatype Decoded = Decoded(symbol: nat, len: nat)

  /** Plain prefix-code decoding: the symbol whose codeword starts the stream, and its length. */
  function Decode(ch: Chains, s: seq<bool>): (d: Decoded)
    requires Complete(ch)
    ensures d.len < LENGTHS
  {
    CompleteDecodes(ch, s);
    var l := Find(ch, s, 0);
    Decoded(ch[l][Index(ch, s, l)], l)
  }

  /** The decoded symbol is the one of the codeword that starts the stream, whichever that is. */
  lemma DecodeMeaning(ch: Chains, s: seq<bool>, l: nat, j: nat)
    requires Complete(ch) && l < LENGTHS && j < |ch[l]| && Starts(ch, s, l, j)
    ensures Decode(ch, s) == Decoded(ch[l][j], l)
  {
    StartsFound(ch, s, l, j);
  }

  /** There is such a codeword. */
  lemma DecodeExists(ch: Chains, s: seq<bool>) returns (j: nat)
    requires Complete(ch)
    ensures var d := Decode(ch, s); j < |ch[d.len]| && Starts(ch, s, d.len, j) && ch[d.len][j] == d.symbol
  {
    CompleteDecodes(ch, s);
    var l := Find(ch, s, 0);
    j := Index(ch, s, l);
    StartsValue(ch, s, l, j);
  }

  // ---------- Encoding ----------

  datatype Position = Position(len: nat, j: nat)

  predicate Valid(ch: Chains, ps: seq<Position>) {
    forall i :: 0 <= i < |ps| ==> ps[i].len < LENGTHS && ps[i].j < |ch[ps[i].len]|
  }

  /** The codewords of a list of symbols, each given by its position, one after the other. */
  function Encode(ch: Chains, ps: seq<Position>): seq<bool>
    requires Fits(ch) && Valid(ch, ps)
  {
    if ps == [] then [] else Codeword(ch, ps[0].len, ps[0].j) + Encode(ch, ps[1..])
  }

  function Symbols(ch: Chains, ps: seq<Position>): seq<nat>
    requires Valid(ch, ps)
  {
    if ps == [] then [] else [ch[ps[0].len][ps[0].j]] + Symbols(ch, ps[1..])
  }

  function DecodeMany(ch: Chains, s: seq<bool>, n: nat): seq<nat>
    requires Complete(ch)
    decreases n
  {
    if n == 0 then [] else var d := Decode(ch, s); [d.symbol] + DecodeMany(ch, Drop(s, d.len), n - 1)
  }

  lemma StartsConcat(ch: Chains, l: nat, j: nat, tail: seq<bool>)
    requires Fits(ch) && l < LENGTHS && j < |ch[l]|
    ensures Starts(ch, Codeword(ch, l, j) + tail, l, j) && Drop(Codeword(ch, l, j) + tail, l) == tail
  {
    assert Left(ch, l) >= 0;
    var w := Codeword(ch, l, j);
    assert |w| == l && Take(w + tail, l) == w;
  }

  /** Decoding what was encoded gives the symbols back, whatever follows in the stream. */
  lemma {:induction false} EncodeDecode(ch: Chains, ps: seq<Position>, tail: seq<bool>)
    requires Complete(ch) && Valid(ch, ps)
    ensures DecodeMany(ch, Encode(ch, ps) + tail, |ps|) == Symbols(ch, ps)
    decreases |ps|
  {
    hide Codeword, Decode, Find, Drop, Room;
    if ps != [] {
      var l, j, more := ps[0].len, ps[0].j, Encode(ch, ps[1..]);
      assert Encode(ch, ps) + tail == Codeword(ch, l, j) + (more + tail);
      StartsConcat(ch, l, j, more + tail);
      DecodeMeaning(ch, Codeword(ch, l, j) + (more + tail), l, j);
      EncodeDecode(ch, ps[1..], tail);
    }
  }
}
