/**
  Texts that do not settle what `template_decode` returns: with suitable chars behind
  their bits a template with a negative attribute comes out.
*/
module TemplateUnsettled {
  import opened Options
  import opened Powers
  import opened TemplateFormat
  import opened TemplateMemory
  import opened TemplateSettled

  // ---------- What is missing counts as zero ----------

  function Zeros(n: nat): (b: seq<bool>)
    ensures |b| == n && forall i :: 0 <= i < n ==> !b[i]
  {
    seq(n, (i: nat) => false)
  }

  lemma {:induction false} NumPlus(a: seq<bool>, b: seq<bool>)
    ensures Num(a + b) == Num(a) + Pow2(|a|) * Num(b)
  {
    if a == [] {
      assert [] + b == b;
    } else {
      NumPlus(a[1..], b);
      assert (a + b)[1..] == a[1..] + b;
      assert Pow2(|a|) * Num(b) == 2 * (Pow2(|a| - 1) * Num(b));
    }
  }

  lemma {:induction false} NumZeros(n: nat)
    ensures Num(Zeros(n)) == 0
  {
    if n > 0 {
      NumZeros(n - 1);
      assert Zeros(n)[1..] == Zeros(n - 1);
    }
  }

  lemma NumPad(b: seq<bool>, n: nat)
    ensures Num(b + Zeros(n)) == Num(b)
  {
    NumPlus(b, Zeros(n));
    NumZeros(n);
  }

  function Left(b: seq<bool>, m: nat, n: nat): nat {
    if n <= |b| then m else if n <= |b| + m then |b| + m - n else 0
  }

  lemma FirstPad(b: seq<bool>, m: nat, n: nat)
    ensures First(b + Zeros(m), n) == First(b, n) && Past(b + Zeros(m), n) == Past(b, n) + Zeros(Left(b, m, n))
  {
    hide Num;
    var z := b + Zeros(m);
    if n <= |b| {
      assert z[..n] == b[..n] && z[n..] == b[n..] + Zeros(m);
    } else if n <= |b| + m {
      assert z[..n] == b + Zeros(n - |b|) && z[n..] == [] + Zeros(|b| + m - n);
      NumPad(b, n - |b|);
    } else {
      NumPad(b, m);
    }
  }

  lemma {:induction false} AttributesPad(b: seq<bool>, m: nat, n: nat, w: nat)
    ensures ReadAttributes(b + Zeros(m), n, w) == ReadAttributes(b, n, w)
    decreases n
  {
    hide First, Past, Left;
    if n > 0 {
      FirstPad(b, m, w);
      FirstPad(Past(b, w), Left(b, m, w), 4);
      AttributesPad(Past(Past(b, w), 4), Left(Past(b, w), Left(b, m, w), 4), n - 1, w);
    }
  }

  lemma {:induction false} SkillsPad(b: seq<bool>, m: nat, n: nat, w: nat, left: int)
    ensures ReadSkills(b + Zeros(m), n, w, left) == ReadSkills(b, n, w, left)
    decreases n
  {
    hide First, Past, Left;
    if n > 0 {
      if w > left {
        SkillsPad(b, m, n - 1, w, left);
      } else {
        FirstPad(b, m, w);
        SkillsPad(Past(b, w), Left(b, m, w), n - 1, w, left - w);
      }
    }
  }

  lemma SkillPartPad(b: seq<bool>, m: nat, left: int)
    ensures ReadSkillPart(b + Zeros(m), left) == ReadSkillPart(b, left)
  {
    hide First, Past, Left, ReadSkills;
    FirstPad(b, m, 4);
    SkillsPad(Past(b, 4), Left(b, m, 4), 8, First(b, 4) + 8, left - 4);
  }

  lemma AttributePartPad(b: seq<bool>, m: nat, left: int, primary: nat, secondary: nat)
    ensures ReadAttributePart(b + Zeros(m), left, primary, secondary) == ReadAttributePart(b, left, primary, secondary)
  {
    hide First, Past, Left, ReadAttributes, ReadSkillPart, AttributeSpan;
    FirstPad(b, m, 4);
    var b1, m1 := Past(b, 4), Left(b, m, 4);
    FirstPad(b1, m1, 4);
    AttributesPad(Past(b1, 4), Left(b1, m1, 4), First(b, 4), First(b1, 4) + 4);
    var k := AttributeBitCount(b);
    FirstPad(b, m, k);
    SkillPartPad(Past(b, k), Left(b, m, k), left - k);
  }

  lemma ProfessionPartPad(b: seq<bool>, m: nat, left: int)
    ensures ReadProfessionPart(b + Zeros(m), left) == ReadProfessionPart(b, left)
  {
    hide First, Past, Left, ReadAttributePart;
    FirstPad(b, m, 2);
    var w, b1, m1 := 2 * First(b, 2) + 4, Past(b, 2), Left(b, m, 2);
    FirstPad(b1, m1, w);
    var b2, m2 := Past(b1, w), Left(b1, m1, w);
    FirstPad(b2, m2, w);
    AttributePartPad(Past(b2, w), Left(b2, m2, w), left - 2 - w - w, First(b1, w), First(b2, w));
  }

  /** Zeros behind the bits of a text change nothing. */
  lemma TemplatePad(b: seq<bool>, m: nat, left: int)
    ensures ReadTemplate(b + Zeros(m), left) == ReadTemplate(b, left)
  {
    hide First, Past, Left, ReadProfessionPart;
    FirstPad(b, m, 4);
    var b1, m1 := Past(b, 4), Left(b, m, 4);
    FirstPad(b1, m1, 4);
    ProfessionPartPad(b1, m1, left - 4);
    ProfessionPartPad(Past(b1, 4), Left(b1, m1, 4), left - 8);
  }

  /** A settled text is refused or gives a valid template, whatever lies behind it. */
  lemma SettledSound(b: seq<bool>, g: seq<SChar>)
    requires Settled(b) && |b| + |g| == BIT_ROOM
    ensures Sound(RawTemplate(FromBits(b) + g, |b|))
  {
    hide ReadTemplate, RawTemplate, Settled, Encode, FormOk, Proper;
    SettledReads(b, g);
    var all := b + Zeros(|g|);
    TemplatePad(b, |g|, |b|);
    if ReadTemplate(b, |b|).Some? {
      var f := OnlyTemplates(all, |b|);
    }
  }

  // ---------- Bits that bring an unsettled text to the cut field ----------

  lemma FirstMore(b: seq<bool>, x: seq<bool>, n: nat)
    requires n <= |b|
    ensures First(b + x, n) == First(b, n) && Past(b + x, n) == Past(b, n) + x && |Past(b, n)| == |b| - n
  {
    hide Num;
    assert (b + x)[..n] == b[..n] && (b + x)[n..] == b[n..] + x;
  }

  lemma {:induction false} NumPositive(b: seq<bool>, i: nat)
    requires i < |b| && b[i]
    ensures Num(b) > 0
  {
    if i > 0 {
      NumPositive(b[1..], i - 1);
    }
  }

  /** The number of attributes and their width are there, but some attribute is cut. */
  predicate CutAttributes(c: seq<bool>) {
    && |c| >= 8
    && !SettledAttributes(Past(Past(c, 4), 4), First(c, 4), First(Past(c, 4), 4) + 4)
  }

  lemma NothingCut(c: seq<bool>)
    requires |c| == 8 && First(c, 4) > 0
    ensures CutAttributes(c)
  {
    hide First;
    assert Past(Past(c, 4), 4) == [];
  }

  lemma GrowAttributes(b: seq<bool>) returns (x: seq<bool>)
    requires !SettledAttributePart(b)
    ensures CutAttributes(b + x) && |x| <= 8
  {
    hide Num, SettledAttributes;
    if |b| >= 8 {
      x := [];
      assert b + x == b;
    } else if |b| >= 4 {
      x := Zeros(8 - |b|);
      FirstMore(b, x, 4);
      NothingCut(b + x);
    } else {
      x := [true] + Zeros(7 - |b|);
      NumPositive((b + x)[..4], |b|);
      NothingCut(b + x);
    }
  }

  predicate CutSecondary(c: seq<bool>, w: nat) {
    |c| >= w && First(c, w) < PROFESSION_COUNT && CutAttributes(Past(c, w))
  }

  lemma GrowSecondary(b: seq<bool>, w: nat) returns (x: seq<bool>)
    requires |b| < w ==> Num(b) < PROFESSION_COUNT
    requires |b| >= w ==> First(b, w) < PROFESSION_COUNT && !SettledAttributePart(Past(b, w))
    ensures CutSecondary(b + x, w) && |x| <= w + 8
  {
    hide First, Past, Num, SettledAttributePart, CutAttributes;
    if |b| < w {
      var z := Zeros(w - |b|);
      FirstPad(b, w - |b|, w);
      FirstAll(b, w);
      NoAttributePart();
      var y := GrowAttributes([]);
      FirstMore(b + z, y, w);
      assert Past(b + z, w) + y == [] + y;
      x := z + y;
      assert b + x == b + z + y;
    } else {
      x := GrowAttributes(Past(b, w));
      FirstMore(b, x, w);
    }
  }

  lemma FirstAll(b: seq<bool>, w: nat)
    requires |b| <= w
    ensures First(b, w) == Num(b) && Past(b, w) == []
  {
    if |b| == w {
      assert b[..w] == b;
    }
  }

  lemma NoAttributePart()
    ensures !SettledAttributePart([]) && Num([]) == 0
  {
  }

  predicate CutPrimary(c: seq<bool>, w: nat) {
    |c| >= w && 1 <= First(c, w) < PROFESSION_COUNT && CutSecondary(Past(c, w), w)
  }

  /** The missing bits of a profession that is not refused. */
  lemma PrimaryBits(b: seq<bool>, w: nat) returns (z: seq<bool>)
    requires |b| < w && Num(b) < PROFESSION_COUNT && (Num(b) == 0 ==> |b| < 4)
    ensures |b + z| == w && 1 <= First(b + z, w) < PROFESSION_COUNT && Past(b + z, w) == []
  {
    hide Num;
    if Num(b) == 0 {
      z := [true] + Zeros(w - |b| - 1);
      NumPlus(b, z);
      NumPlus([true], Zeros(w - |b| - 1));
      NumZeros(w - |b| - 1);
      assert Num([true]) == 1 by { OneBit(); }
      assert Pow2(|b|) in {1, 2, 4, 8} by { FourPowers(); }
    } else {
      z := Zeros(w - |b|);
      NumPad(b, w - |b|);
    }
    FirstAll(b + z, w);
  }

  lemma OneBit()
    ensures Num([true]) == 1
  {
    assert [true][1..] == [];
  }

  lemma FourPowers()
    ensures Pow2(0) == 1 && Pow2(1) == 2 && Pow2(2) == 4 && Pow2(3) == 8
  {
  }

  lemma GrowPrimary(b: seq<bool>, w: nat) returns (x: seq<bool>)
    requires |b| < w ==> Num(b) < PROFESSION_COUNT && (Num(b) == 0 ==> |b| < 4)
    requires |b| >= w ==> 1 <= First(b, w) < PROFESSION_COUNT
    requires w <= |b| < 2 * w ==> Num(Past(b, w)) < PROFESSION_COUNT
    requires |b| >= 2 * w ==>
      First(Past(b, w), w) < PROFESSION_COUNT && !SettledAttributePart(Past(Past(b, w), w))
    requires w > 0
    ensures CutPrimary(b + x, w) && |x| <= w + w + 8
  {
    hide First, Past, Num, SettledAttributePart, CutSecondary;
    if |b| < w {
      var z := PrimaryBits(b, w);
      NoAttributePart();
      var y := GrowSecondary([], w);
      FirstMore(b + z, y, w);
      assert Past(b + z, w) + y == [] + y;
      x := z + y;
      assert b + x == b + z + y;
    } else {
      PastLength(b, w);
      x := GrowSecondary(Past(b, w), w);
      FirstMore(b, x, w);
    }
  }

  predicate CutProfessions(c: seq<bool>) {
    |c| >= 2 && CutPrimary(Past(c, 2), 2 * First(c, 2) + 4)
  }

  lemma GrowProfessions(b: seq<bool>) returns (x: seq<bool>)
    requires !SettledProfessionPart(b)
    ensures CutProfessions(b + x) && |x| <= 36
  {
    hide First, Past, Num, SettledAttributePart, CutPrimary, Pow2;
    FourPowers();
    if |b| < 2 {
      var z := Zeros(2 - |b|);
      FirstAll(b + z, 2);
      NumBound(b + z);
      var w := 2 * First(b + z, 2) + 4;
      NoAttributePart();
      var y := GrowPrimary([], w);
      FirstMore(b + z, y, 2);
      assert Past(b + z, 2) + y == [] + y;
      x := z + y;
      assert b + x == b + z + y;
    } else {
      var w, b1 := 2 * First(b, 2) + 4, Past(b, 2);
      DigitsFirst(b, 2);
      if |b1| >= w { PastLength(b1, w); }
      x := GrowPrimary(b1, w);
      FirstMore(b, x, 2);
    }
  }

  predicate CutTemplate(c: seq<bool>) {
    && |c| >= 4
    && (First(c, 4) == 0 || (First(c, 4) == 14 && |c| >= 8))
    && CutProfessions(if First(c, 4) == 0 then Past(c, 4) else Past(Past(c, 4), 4))
  }

  lemma GrowTemplate(b: seq<bool>) returns (x: seq<bool>)
    requires !Settled(b) && |b| % 6 == 0
    ensures CutTemplate(b + x) && |x| <= 42
  {
    hide First, Past, Num, CutProfessions, SettledProfessionPart;
    NothingSettledAt();
    if b == [] {
      var z := Zeros(4);
      assert [] + z == z;
      FirstPad([], 4, 4);
      FirstAll([], 4);
      FirstAll(z, 4);
      var y := GrowProfessions([]);
      FirstMore(z, y, 4);
      assert Past(z, 4) + y == [] + y;
      x := z + y;
      assert [] + x == z + y;
    } else if First(b, 4) == 0 {
      x := GrowProfessions(Past(b, 4));
      FirstMore(b, x, 4);
    } else if |b| >= 8 {
      PastLength(b, 4);
      x := GrowProfessions(Past(Past(b, 4), 4));
      FirstMore(b, x, 4);
      FirstMore(Past(b, 4), x, 4);
    } else {
      var z := Zeros(2);
      FirstMore(b, z, 4);
      FirstAll(Past(b + z, 4), 4);
      var y := GrowProfessions([]);
      FirstMore(b + z, y, 4);
      FirstMore(Past(b + z, 4), y, 4);
      assert [] + y == y;
      x := z + y;
      assert b + x == b + z + y;
    }
  }

  lemma NothingSettledAt()
    ensures !SettledProfessionPart([]) && Num([]) == 0
  {
  }

  // ---------- A negative char and zeros behind the cut ----------

  function Garbage(m: nat): (g: seq<SChar>)
    ensures |g| == m + 1
  {
    [-128] + ZeroChars(m)
  }

  lemma CutField(c: seq<bool>, m: nat, n: nat)
    requires |c| < n <= 24 && n <= |c| + 1 + m
    ensures var s := FromBits(c) + Garbage(m);
      !Wild(|s|, n) && Read(s, n) < 0 && Skip(s, n) == ZeroChars(|c| + 1 + m - n)
  {
    hide Value;
    AcrossEnd(c, Garbage(m), n);
    var k := n - |c|;
    assert Garbage(m)[..k] == Garbage(k - 1) && Garbage(m)[k..] == ZeroChars(m + 1 - k);
    ValueNegative(c, k - 1);
  }

  lemma ZeroField(k: nat, n: nat)
    requires n <= k && n <= 24
    ensures !Wild(k, n) && Read(ZeroChars(k), n) == 0 && Skip(ZeroChars(k), n) == ZeroChars(k - n)
  {
    hide Value;
    assert ZeroChars(k)[..n] == [] + ZeroChars(n) && ZeroChars(k)[n..] == ZeroChars(k - n);
    ValueZeros([], n);
    ValueNothing();
  }

  lemma {:induction false} ZeroAttributes(k: nat, n: nat, w: nat)
    requires w <= 24 && AttributeSpan(n, w) <= k
    ensures var o := RawAttributes(ZeroChars(k), n, w);
      o.Known? && o.rest == ZeroChars(k - AttributeSpan(n, w))
    decreases n
  {
    hide Read, Skip, Wild;
    if n > 0 {
      ZeroField(k, w);
      ZeroField(k - w, 4);
      ZeroAttributes(k - w - 4, n - 1, w);
    }
  }

  predicate Negative(a: RawAttribute) {
    a.id < 0 || a.value < 0
  }

  lemma {:induction false} CutAttribute(c: seq<bool>, n: nat, w: nat, m: nat)
    requires !SettledAttributes(c, n, w) && w <= 24 && AttributeSpan(n, w) <= |c| + 1 + m
    ensures |c| < AttributeSpan(n, w)
    ensures var o := RawAttributes(FromBits(c) + Garbage(m), n, w);
      && o.Known? && |o.rest| == |c| + 1 + m - AttributeSpan(n, w)
      && exists i :: 0 <= i < n && Negative(o.value[i])
    decreases n
  {
    hide Read, Skip, First, Past, Wild, Garbage;
    var s := FromBits(c) + Garbage(m);
    if |c| < w {
      CutField(c, m, w);
      var k := |c| + 1 + m - w;
      ZeroField(k, 4);
      ZeroAttributes(k - 4, n - 1, w);
      assert Negative(RawAttributes(s, n, w).value[0]);
    } else {
      InText(c, Garbage(m), w);
      PastLength(c, w);
      var c1 := Past(c, w);
      if |c1| < 4 {
        CutField(c1, m, 4);
        ZeroAttributes(|c1| + 1 + m - 4, n - 1, w);
        assert Negative(RawAttributes(s, n, w).value[0]);
      } else {
        InText(c1, Garbage(m), 4);
        PastLength(c1, 4);
        var c2 := Past(c1, 4);
        CutAttribute(c2, n - 1, w, m);
        var more := RawAttributes(FromBits(c2) + Garbage(m), n - 1, w).value;
        var i :| 0 <= i < n - 1 && Negative(more[i]);
        assert RawAttributes(s, n, w).value[i + 1] == more[i];
      }
    }
  }

  /** A template with a negative attribute id or value comes out. */
  ghost predicate Broken(o: Outcome<Raw>) {
    o.Known? && exists i :: 0 <= i < |o.value.attributes| && Negative(o.value.attributes[i])
  }

  lemma BrokenUnsound(o: Outcome<Raw>)
    requires Broken(o)
    ensures !Sound(o)
  {
  }

  lemma BrokenAttributePart(c: seq<bool>, m: nat, left: int, primary: int, secondary: int)
    requires CutAttributes(c) && left <= |c| && m >= 400
    ensures |c| < 400
    ensures Broken(RawAttributePart(FromBits(c) + Garbage(m), left, primary, secondary))
  {
    hide Read, Skip, First, Past, Wild, Garbage, RawAttributes, RawSkillPart, AttributeSpan, SettledAttributes, Negative;
    SmallPowers();
    InText(c, Garbage(m), 4);
    PastLength(c, 4);
    var c1 := Past(c, 4);
    InText(c1, Garbage(m), 4);
    PastLength(c1, 4);
    var n, w, c2 := First(c, 4), First(c1, 4) + 4, Past(c1, 4);
    SpanBound(n, w);
    CutAttribute(c2, n, w, m);
    var o := RawAttributes(FromBits(c2) + Garbage(m), n, w);
    SkillPartPast(o.rest, left - 8 - AttributeSpan(n, w));
  }

  lemma BrokenProfessionPart(c: seq<bool>, m: nat, left: int)
    requires CutProfessions(c) && left <= |c| && m >= 400
    ensures |c| < 422
    ensures Broken(RawProfessionPart(FromBits(c) + Garbage(m), left))
  {
    hide Read, Skip, First, Past, Wild, Garbage, RawAttributePart, CutAttributes, Broken;
    SmallPowers();
    InText(c, Garbage(m), 2);
    PastLength(c, 2);
    var w, c1 := 2 * First(c, 2) + 4, Past(c, 2);
    InText(c1, Garbage(m), w);
    PastLength(c1, w);
    var c2 := Past(c1, w);
    InText(c2, Garbage(m), w);
    PastLength(c2, w);
    BrokenAttributePart(Past(c2, w), m, left - 2 - w - w, First(c1, w), First(c2, w));
  }

  lemma BrokenTemplate(c: seq<bool>, m: nat, left: int)
    requires CutTemplate(c) && left <= |c| && m >= 400
    ensures |c| < 430
    ensures Broken(RawTemplate(FromBits(c) + Garbage(m), left))
  {
    hide Read, Skip, First, Past, Wild, Garbage, RawProfessionPart, CutProfessions, Broken;
    InText(c, Garbage(m), 4);
    PastLength(c, 4);
    var c1 := Past(c, 4);
    if First(c, 4) == 0 {
      BrokenProfessionPart(c1, m, left - 4);
    } else {
      InText(c1, Garbage(m), 4);
      PastLength(c1, 4);
      BrokenProfessionPart(Past(c1, 4), m, left - 8);
    }
  }

  lemma CutShort(c: seq<bool>)
    requires CutTemplate(c)
    ensures |c| < 430
  {
    hide CutTemplate, Garbage;
    BrokenTemplate(c, 400, 0);
  }

  /** Behind a text that is not settled there may be chars with which a template with a negative attribute comes out. */
  lemma UnsettledBreaks(b: seq<bool>) returns (g: seq<SChar>)
    requires !Settled(b) && |b| % 6 == 0
    ensures |b| + |g| == BIT_ROOM
    ensures Broken(RawTemplate(FromBits(b) + g, |b|))
  {
    hide Settled, CutTemplate, RawTemplate, Broken, Garbage, FromBits;
    var x := GrowTemplate(b);
    CutShort(b + x);
    var m := BIT_ROOM - |b + x| - 1;
    BrokenTemplate(b + x, m, |b|);
    FromBitsConcat(b, x);
    g := FromBits(x) + Garbage(m);
    assert FromBits(b) + g == FromBits(b + x) + Garbage(m);
  }

  /**
    Whatever the buffer holds, a text is refused or gives a valid template, exactly when
    its bits settle it.
  */
  lemma SettledExactly(text: seq<Char>)
    requires TextOk(text) && 6 * |text| < BIT_ROOM
    ensures Settled(TextBits(text)) <==>
      forall g: seq<SChar> :: 6 * |text| + |g| == BIT_ROOM ==> Sound(RawTemplate(FromBits(TextBits(text)) + g, 6 * |text|))
  {
    hide *;
    var b := TextBits(text);
    if Settled(b) {
      forall g: seq<SChar> | 6 * |text| + |g| == BIT_ROOM
        ensures Sound(RawTemplate(FromBits(b) + g, 6 * |text|))
      {
        SettledSound(b, g);
      }
    } else {
      var g := UnsettledBreaks(b);
      BrokenUnsound(RawTemplate(FromBits(b) + g, 6 * |text|));
    }
  }
}
