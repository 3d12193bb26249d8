/**
  The stream cipher of code/client/arc4.c: the key schedule, the keystream as a
  function of the state alone, and the context that both ends of a connection keep.
*/
module Arc4 {
  import opened Bits
  import opened Bytes

  /** The value of a context: the permutation and the two indices. */
  datatype Cipher = Cipher(m: seq<Byte>, x: Byte, y: Byte)

  function Identity(): (m: seq<Byte>)
    ensures |m| == 256
  {
    seq(256, i requires 0 <= i < 256 => i as Byte)
  }

  /** `m` holds every byte value exactly once. */
  ghost predicate Permutation(m: seq<Byte>) {
    multiset(m) == multiset(Identity())
  }

  lemma PermutationMeaning(m: seq<Byte>)
    requires Permutation(m)
    ensures |m| == 256 && forall i, j :: 0 <= i < j < 256 ==> m[i] != m[j]
    ensures forall v: Byte :: v in m
  {
    var id: seq<int> := Identity();
    var m: seq<int> := m;
    assert |multiset(m)| == |m| && |multiset(id)| == 256;
    forall v: Byte
      ensures multiset(id)[v] == 1
    {
      IdentityCounts(v);
    }
    forall v: Byte
      ensures v in m
    {
      assert multiset(m)[v] == 1;
    }
    forall i, j | 0 <= i < j < 256
      ensures m[i] != m[j]
    {
      assert m == m[..j] + [m[j]] + m[j + 1..];
      assert multiset(m)[m[i]] == 1 && m[i] in m[..j];
    }
  }

  lemma IdentityCounts(v: Byte)
    ensures var id: seq<int> := Identity(); multiset(id)[v] == 1
  {
    var id: seq<int> := Identity();
    assert id == id[..v] + [id[v]] + id[v + 1..];
    assert v !in id[..v] && v !in id[v + 1..];
    assert multiset(id[..v])[v] == 0 && multiset(id[v + 1..])[v] == 0;
  }

  function Swap(m: seq<Byte>, i: nat, j: nat): (r: seq<Byte>)
    requires i < |m| && j < |m|
    ensures |r| == |m|
  {
    m[i := m[j]][j := m[i]]
  }

  lemma SwapPermutes(m: seq<Byte>, i: nat, j: nat)
    requires i < |m| && j < |m|
    ensures multiset(Swap(m, i, j)) == multiset(m)
  {
  }

  /** The key schedule's last `256 - i` swaps. */
  function Schedule(key: seq<Byte>, m: seq<Byte>, i: nat, j: Byte): (r: seq<Byte>)
    requires key != [] && |m| == 256 && i <= 256
    ensures |r| == 256 && multiset(r) == multiset(m)
    decreases 256 - i
  {
    if i == 256 then m
    else
      var j' := (j + m[i] + key[i % |key|]) % 256;
      SwapPermutes(m, i, j');
      Schedule(key, Swap(m, i, j'), i + 1, j')
  }

  lemma ScheduleStep(key: seq<Byte>, m: seq<Byte>, i: nat, j: Byte)
    requires key != [] && |m| == 256 && i < 256
    ensures var j' := (j + m[i] + key[i % |key|]) % 256; Schedule(key, m, i, j) == Schedule(key, Swap(m, i, j'), i + 1, j')
  {
  }

  lemma ScheduleEnd(key: seq<Byte>, m: seq<Byte>, j: Byte)
    requires key != [] && |m| == 256
    ensures Schedule(key, m, 256, j) == m
  {
  }

  function SetUp(key: seq<Byte>): (c: Cipher)
    requires key != []
    ensures |c.m| == 256 && Permutation(c.m)
  {
    Cipher(Schedule(key, Identity(), 0, 0), 0, 0)
  }

  /** The state after one more keystream byte. */
  function Step(c: Cipher): (r: Cipher)
    requires |c.m| == 256
    ensures |r.m| == 256 && multiset(r.m) == multiset(c.m)
  {
    var x := (c.x + 1) % 256;
    var y := (c.y + c.m[x]) % 256;
    SwapPermutes(c.m, x, y);
    Cipher(Swap(c.m, x, y), x, y)
  }

  /** The keystream byte that the step before just produced. */
  function Key(c: Cipher): Byte
    requires |c.m| == 256
  {
    c.m[(c.m[c.x] as int + c.m[c.y]) % 256]
  }

  function After(c: Cipher, n: nat): (r: Cipher)
    requires |c.m| == 256
    decreases n
    ensures |r.m| == 256 && multiset(r.m) == multiset(c.m)
  {
    if n == 0 then c else After(Step(c), n - 1)
  }

  /** Encryption and decryption are the same function. */
  function Crypted(c: Cipher, s: seq<Byte>): (r: seq<Byte>)
    requires |c.m| == 256
    ensures |r| == |s|
    decreases |s|
  {
    if s == [] then []
    else [XorByte(s[0], Key(Step(c)))] + Crypted(Step(c), s[1..])
  }

  /** Byte `k` is changed by the keystream byte of step `k + 1`, whatever the other bytes are. */
  lemma {:induction false} CryptAt(c: Cipher, s: seq<Byte>, k: nat)
    requires |c.m| == 256 && k < |s|
    ensures Crypted(c, s)[k] == XorByte(s[k], Key(After(c, k + 1)))
    decreases k
  {
    hide Step, Key, XorByte;
    if k > 0 {
      CryptAt(Step(c), s[1..], k - 1);
    } else {
      assert After(c, 1) == After(Step(c), 0);
    }
  }

  lemma {:induction false} CryptConcat(c: Cipher, s: seq<Byte>, t: seq<Byte>)
    requires |c.m| == 256
    ensures Crypted(c, s + t) == Crypted(c, s) + Crypted(After(c, |s|), t)
    ensures After(c, |s + t|) == After(After(c, |s|), |t|)
    decreases |s|
  {
    hide Step, Key, XorByte;
    if s == [] {
      assert s + t == t;
    } else {
      assert (s + t)[1..] == s[1..] + t;
      CryptConcat(Step(c), s[1..], t);
    }
  }

  lemma {:induction false} CryptUndone(c: Cipher, s: seq<Byte>)
    requires |c.m| == 256
    ensures Crypted(c, Crypted(c, s)) == s
    decreases |s|
  {
    if s != [] {
      XorUndone(s[0], Key(Step(c)));
      CryptUndone(Step(c), s[1..]);
      assert Crypted(c, s)[1..] == Crypted(Step(c), s[1..]);
    }
  }

  // ---------- Which keystream it is ----------

  lemma TwoSteps(c: Cipher)
    requires |c.m| == 256
    ensures After(c, 1) == Step(c) && After(c, 2) == Step(Step(c))
  {
    hide Step;
    assert After(Step(c), 1) == After(Step(Step(c)), 0);
    assert After(c, 1) == After(Step(c), 0);
  }

  lemma XorNone(a: Byte)
    ensures XorByte(a, 0) == a && XorByte(0, a) == a
  {
    XorZeroRight(a);
  }

  lemma {:induction false} XorZeroRight(a: nat)
    ensures Xor(a, 0) == a && Xor(0, a) == a
  {
    if a != 0 {
      XorZeroRight(a / 2);
    }
  }

  lemma StepAt(c: Cipher, x: Byte, y: Byte)
    requires |c.m| == 256 && c.x < 255 && x == c.x + 1 && y == (c.y + c.m[x]) % 256
    ensures Step(c) == Cipher(Swap(c.m, x, y), x, y)
  {
  }

  lemma SwapAt(m: seq<Byte>, i: nat, j: nat, k: nat)
    requires i < |m| && j < |m| && k < |m|
    ensures Swap(m, i, j)[k] == if k == j then m[i] else if k == i then m[j] else m[k]
  {
  }

  lemma SwapSelf(m: seq<Byte>, i: nat)
    requires i < |m|
    ensures Swap(m, i, i) == m
  {
  }

  lemma KeyAt(c: Cipher, t: nat)
    requires |c.m| == 256 && t == (c.m[c.x] as int + c.m[c.y]) % 256
    ensures Key(c) == c.m[t]
  {
  }

  /** With a 0 at place 2, and no 2 at place 1, the second byte of a stream stays as it is. */
  lemma SecondByteStays(c: Cipher, s: seq<Byte>)
    requires |c.m| == 256 && c.x == 0 && c.y == 0 && c.m[2] == 0 && c.m[1] != 2 && |s| >= 2
    ensures Crypted(c, s)[1] == s[1]
  {
    hide *;
    CryptAt(c, s, 1);
    TwoSteps(c);
    var a := c.m[1];
    StepAt(c, 1, a);
    var m := Swap(c.m, 1, a);
    SwapAt(c.m, 1, a, 2);
    SwapAt(c.m, 1, a, a);
    StepAt(Cipher(m, 1, a), 2, a);
    SwapAt(m, 2, a, 2);
    SwapAt(m, 2, a, a);
    KeyAt(Cipher(Swap(m, 2, a), 2, a), a);
    XorNone(s[1]);
  }

  lemma IdentitySteps()
    ensures var c := Cipher(Identity(), 0, 0);
      Key(After(c, 1)) == 2 && Key(After(c, 2)) == 5 && Key(After(c, 3)) == 7
  {
    hide *;
    var i := Identity();
    IdentityAt(1, 2, 3, 5, 7);
    var c := Cipher(i, 0, 0);
    StepAt(c, 1, 1);
    SwapSelf(i, 1);
    KeyAt(Cipher(i, 1, 1), 2);
    StepAt(Cipher(i, 1, 1), 2, 3);
    var m := Swap(i, 2, 3);
    SwapAt(i, 2, 3, 2);
    SwapAt(i, 2, 3, 3);
    SwapAt(i, 2, 3, 5);
    SwapAt(i, 2, 3, 7);
    KeyAt(Cipher(m, 2, 3), 5);
    StepAt(Cipher(m, 2, 3), 3, 5);
    SwapAt(m, 3, 5, 3);
    SwapAt(m, 3, 5, 5);
    SwapAt(m, 3, 5, 7);
    KeyAt(Cipher(Swap(m, 3, 5), 3, 5), 7);
    TwoSteps(c);
    AfterStep(c, 2);
  }

  /** The keystream of the table that holds every byte at its own place starts with 2, 5, 7. */
  lemma IdentityKeystream()
    ensures Crypted(Cipher(Identity(), 0, 0), [0, 0, 0]) == [2, 5, 7]
  {
    hide *;
    var c, s: seq<Byte> := Cipher(Identity(), 0, 0), [0, 0, 0];
    IdentitySteps();
    IdentityAt(0, 0, 0, 0, 0);
    CryptAt(c, s, 0);
    CryptAt(c, s, 1);
    CryptAt(c, s, 2);
    XorNone(2);
    XorNone(5);
    XorNone(7);
  }

  lemma IdentityAt(a: Byte, b: Byte, c: Byte, d: Byte, e: Byte)
    ensures var m := Identity(); m[a] == a && m[b] == b && m[c] == c && m[d] == d && m[e] == e
  {
  }

  // ---------- Which table a key gives ----------

  /** The key byte that moves the schedule to `j'`. */
  function KeyByte(j: Byte, a: Byte, j': Byte): (k: Byte)
    ensures (j + a + k) % 256 == j'
  {
    (j' - j - a) % 256
  }

  /** From round `i` on, key bytes that bring every place its byte of `p`. */
  lemma {:induction false} KeyFor(p: seq<Byte>, m: seq<Byte>, key: seq<Byte>, i: nat, j: Byte) returns (more: seq<Byte>)
    requires |p| == |m| == 256 && multiset(m) == multiset(p) && i <= 256 && m[..i] == p[..i] && |key| == i
    ensures |key + more| == 256 && Schedule(key + more, m, i, j) == p
    decreases 256 - i
  {
    hide Schedule, Swap;
    if i == 256 {
      more := [];
      assert m == p by { assert m[..256] == m && p[..256] == p; }
      ScheduleEnd(key + more, m, j);
    } else {
      var k := StillThere(p, m, i);
      var b := KeyByte(j, m[i], k);
      SwapPermutes(m, i, k);
      SwapPuts(p, m, i, k);
      var rest := KeyFor(p, Swap(m, i, k), key + [b], i + 1, k);
      more := [b] + rest;
      assert key + more == key + [b] + rest;
      assert (key + more)[i] == b && i % 256 == i;
      ScheduleStep(key + more, m, i, j);
    }
  }

  lemma SwapPuts(p: seq<Byte>, m: seq<Byte>, i: nat, k: nat)
    requires |p| == |m| && i <= k < |m| && m[..i] == p[..i] && m[k] == p[i]
    ensures Swap(m, i, k)[..i + 1] == p[..i + 1]
  {
    var r := Swap(m, i, k);
    forall a | 0 <= a < i + 1
      ensures r[a] == p[a]
    {
      assert a < i ==> m[..i][a] == p[..i][a];
    }
  }

  lemma StillThere(p: seq<Byte>, m: seq<Byte>, i: nat) returns (k: Byte)
    requires |p| == |m| == 256 && multiset(m) == multiset(p) && i < 256 && m[..i] == p[..i]
    ensures i <= k && m[k] == p[i]
  {
    assert m == m[..i] + m[i..] && p == p[..i] + p[i..];
    assert multiset(m) == multiset(m[..i]) + multiset(m[i..]);
    assert multiset(p) == multiset(p[..i]) + multiset(p[i..]);
    assert p[i..][0] == p[i];
    assert multiset(m)[p[i]] == multiset(m[..i])[p[i]] + multiset(m[i..])[p[i]];
    assert multiset(p)[p[i]] == multiset(p[..i])[p[i]] + multiset(p[i..])[p[i]];
    assert p[i] in m[i..];
    var a :| 0 <= a < |m[i..]| && m[i..][a] == p[i];
    k := i + a;
  }

  /** Every permutation of the bytes is the table of some key of 256 bytes. */
  lemma KeyOf(p: seq<Byte>) returns (key: seq<Byte>)
    requires Permutation(p)
    ensures |key| == 256 && SetUp(key) == Cipher(p, 0, 0)
  {
    hide Schedule;
    var id := Identity();
    PermutationMeaning(p);
    assert id[..0] == p[..0];
    key := KeyFor(p, id, [], 0, 0);
    assert [] + key == key;
  }

  /** A key is used over and over. */
  lemma {:induction false} KeyRepeats(key: seq<Byte>, long: seq<Byte>, m: seq<Byte>, i: nat, j: Byte)
    requires key != [] && |m| == 256 == |long| && i <= 256
    requires forall a :: 0 <= a < 256 ==> long[a] == key[a % |key|]
    ensures Schedule(key, m, i, j) == Schedule(long, m, i, j)
    decreases 256 - i
  {
    hide Swap;
    if i < 256 {
      var j' := (j + m[i] + key[i % |key|]) % 256;
      assert i % 256 == i;
      KeyRepeats(key, long, Swap(m, i, j'), i + 1, j');
    }
  }

  lemma ShortKey(key: seq<Byte>, long: seq<Byte>)
    requires key != [] && |long| == 256 && forall a :: 0 <= a < 256 ==> long[a] == key[a % |key|]
    ensures SetUp(key) == SetUp(long)
  {
    KeyRepeats(key, long, Identity(), 0, 0);
  }

  /** The key 0, 0, 255, 254, .., 2 leaves every byte at its own place. */
  function StillKey(): (key: seq<Byte>)
    ensures |key| == 256 && key[0] == 0 && forall i :: 1 <= i < 256 ==> key[i] == (257 - i) % 256
  {
    seq<Byte>(256, i requires 0 <= i < 256 => if i == 0 then 0 else (257 - i) % 256)
  }

  lemma StillRound(i: nat)
    requires 1 <= i < 256
    ensures i % 256 == i && (i - 1 + i + (257 - i) % 256) % 256 == i
  {
  }

  lemma {:induction false} StillFrom(i: nat)
    requires 1 <= i <= 256
    ensures Schedule(StillKey(), Identity(), i, i - 1) == Identity()
    decreases 256 - i
  {
    hide *;
    if i == 256 {
      ScheduleEnd(StillKey(), Identity(), 255);
    } else {
      StillRound(i);
      IdentityAt(i, 0, 0, 0, 0);
      ScheduleStep(StillKey(), Identity(), i, i - 1);
      SwapSelf(Identity(), i);
      StillFrom(i + 1);
    }
  }

  lemma StillKeyStays()
    ensures SetUp(StillKey()) == Cipher(Identity(), 0, 0)
  {
    hide Schedule, Swap;
    ScheduleStep(StillKey(), Identity(), 0, 0);
    SwapSelf(Identity(), 0);
    StillFrom(1);
  }

  // ---------- Streams cut into chunks ----------

  function Joined(chunks: seq<seq<Byte>>): seq<Byte> {
    if chunks == [] then [] else chunks[0] + Joined(chunks[1..])
  }

  /** One context run over the chunks in turn. */
  function CryptChunks(c: Cipher, chunks: seq<seq<Byte>>): seq<seq<Byte>>
    requires |c.m| == 256
    decreases |chunks|
  {
    if chunks == [] then []
    else [Crypted(c, chunks[0])] + CryptChunks(After(c, |chunks[0]|), chunks[1..])
  }

  lemma {:induction false} ChunksJoined(c: Cipher, chunks: seq<seq<Byte>>)
    requires |c.m| == 256
    ensures Joined(CryptChunks(c, chunks)) == Crypted(c, Joined(chunks))
    decreases |chunks|
  {
    if chunks != [] {
      var c' := After(c, |chunks[0]|);
      ChunksJoined(c', chunks[1..]);
      CryptConcat(c, chunks[0], Joined(chunks[1..]));
      assert CryptChunks(c, chunks)[1..] == CryptChunks(c', chunks[1..]);
    }
  }

  /**
    The sender crypts its stream in the chunks `sent`; the receiver, set up from the
    same key, gets the same bytes cut in any other way and recovers the stream.
  */
  lemma ChunkingsInvert(key: seq<Byte>, sent: seq<seq<Byte>>, received: seq<seq<Byte>>)
    requires key != []
    requires Joined(received) == Joined(CryptChunks(SetUp(key), sent))
    ensures Joined(CryptChunks(SetUp(key), received)) == Joined(sent)
  {
    var c := SetUp(key);
    ChunksJoined(c, sent);
    ChunksJoined(c, received);
    CryptUndone(c, Joined(sent));
  }

  lemma SetUpIs(m: seq<Byte>, key: seq<Byte>)
    requires key != [] && m == Schedule(key, Identity(), 0, 0)
    ensures Permutation(m) && SetUp(key) == Cipher(m, 0, 0)
  {
    hide Schedule;
  }

  // ---------- The context ----------

  class Context {
    const m: array<Byte>
    var x: Byte
    var y: Byte

    ghost function State(): Cipher
      reads this, m
    {
      Cipher(m[..], x, y)
    }

    ghost predicate Valid()
      reads this, m
    {
      m.Length == 256 && Permutation(m[..])
    }

    constructor (key: array<Byte>)
      requires key.Length > 0
      ensures Valid() && fresh(m)
      ensures State() == SetUp(key[..])
    {
      hide Schedule, Identity, Permutation, SetUp;
      var table := new Byte[256];
      FillIdentity(table);
      MixAll(table, key);
      SetUpIs(table[..], key[..]);
      m, x, y := table, 0, 0;
    }

    static method FillIdentity(m: array<Byte>)
      requires m.Length == 256
      modifies m
      ensures m[..] == Identity()
    {
      for i := 0 to 256
        invariant forall k :: 0 <= k < i ==> m[k] == k
      {
        m[i] := i;
      }
    }

    static method MixAll(m: array<Byte>, key: array<Byte>)
      requires m.Length == 256 && key.Length > 0 && key != m
      modifies m
      ensures m[..] == Schedule(key[..], old(m[..]), 0, 0)
    {
      hide Schedule, Swap;
      ghost var secret, start := key[..], m[..];
      var j: nat, k: nat := 0, 0;
      for i := 0 to 256
        invariant KeyIndex(k, i, key.Length)
        invariant 0 <= j < 256
        invariant Schedule(secret, m[..], i, j) == Schedule(secret, start, 0, 0)
      {
        if k >= key.Length { k := 0; }
        assert key[k] == secret[i % |secret|];
        ScheduleStep(secret, m[..], i, j);
        j := MixKey(m, i, j, key[k]);
        NextKey(k, i, key.Length);
        k := k + 1;
      }
      ScheduleEnd(secret, m[..], j);
    }

    /** One swap of the key schedule. */
    static method MixKey(m: array<Byte>, i: nat, j: Byte, k: Byte) returns (next: Byte)
      requires m.Length == 256 && i < 256
      modifies m
      ensures next == (j + old(m[i]) + k) % 256
      ensures m[..] == Swap(old(m[..]), i, next)
    {
      var a := m[i];
      next := (j + a + k) % 256;
      m[i] := m[next];
      m[next] := a;
    }

    /** `output` may be `input` itself, when both offsets agree. */
    method Crypt(length: nat, input: array<Byte>, from: nat, output: array<Byte>, to: nat)
      requires Valid()
      requires from + length <= input.Length && to + length <= output.Length
      requires input != m && output != m && (input == output ==> from == to)
      modifies this, m, output
      ensures Valid()
      ensures output[to..to + length] == Crypted(old(State()), old(input[from..from + length]))
      ensures State() == After(old(State()), length)
      ensures output[..to] == old(output[..to]) && output[to + length..] == old(output[to + length..])
    {
      hide Step, Key, XorByte, Permutation, Crypted;
      ghost var start := State();
      ghost var text := input[from..from + length];
      var x, y := this.x, this.y;
      for i := 0 to length
        invariant multiset(m[..]) == multiset(start.m) && Cipher(m[..], x, y) == After(start, i)
        invariant forall k :: i <= k < length ==> input[from + k] == text[k]
        invariant forall k :: 0 <= k < i ==> output[to + k] == XorByte(text[k], Key(After(start, k + 1)))
        invariant output[..to] == old(output[..to]) && output[to + length..] == old(output[to + length..])
      {
        AfterStep(start, i);
        var k;
        x, y, k := Advance(m, x, y);
        output[to + i] := XorByte(input[from + i], k);
      }
      this.x := x;
      this.y := y;
      forall k | 0 <= k < length
        ensures output[to..to + length][k] == Crypted(start, text)[k]
      {
        CryptAt(start, text, k);
      }
      StillPermuted(start.m, m[..]);
    }

    /** One keystream byte. */
    static method Advance(m: array<Byte>, x: Byte, y: Byte) returns (nextX: Byte, nextY: Byte, k: Byte)
      requires m.Length == 256
      modifies m
      ensures Cipher(m[..], nextX, nextY) == Step(Cipher(old(m[..]), x, y))
      ensures k == Key(Cipher(m[..], nextX, nextY))
    {
      nextX := (x + 1) % 256;
      var a: nat := m[nextX];
      nextY := (y + a) % 256;
      var b: nat := m[nextY];
      m[nextX] := b;
      m[nextY] := a;
      k := m[(a + b) % 256];
    }
  }

  lemma StillPermuted(m: seq<Byte>, r: seq<Byte>)
    requires Permutation(m) && multiset(r) == multiset(m)
    ensures Permutation(r)
  {
  }

  lemma {:induction false} AfterStep(c: Cipher, n: nat)
    requires |c.m| == 256
    ensures After(c, n + 1) == Step(After(c, n))
    decreases n
  {
    hide Step;
    if n > 0 {
      AfterStep(Step(c), n - 1);
    } else {
      assert After(c, 1) == After(Step(c), 0);
    }
  }

  /** The cursor over the key, which wraps before it is used. */
  predicate KeyIndex(k: nat, i: nat, n: nat)
    requires n > 0
  {
    k <= n && (if k == n then 0 else k) == i % n
  }

  lemma NextKey(k: nat, i: nat, n: nat)
    requires k < n && k == i % n
    ensures KeyIndex(k + 1, i + 1, n)
  {
    assert i == n * (i / n) + k;
    if k + 1 < n {
      assert i + 1 == n * (i / n) + (k + 1);
      ModIs(i + 1, n, i / n, k + 1);
    } else {
      assert i + 1 == n * (i / n + 1);
      ModIs(i + 1, n, i / n + 1, 0);
    }
  }

  lemma ModIs(a: nat, n: nat, q: nat, r: nat)
    requires r < n && a == n * q + r
    ensures a % n == r
  {
    QuotientUnique(n, a / n, a % n, q, r);
  }
}
