/**
  When the text alone settles what `template_decode` returns, although the buffer behind
  its bits is never set.
*/
module TemplateSettled {
  import opened Options
  import opened Powers
  import opened TemplateFormat
  import opened TemplateMemory

  // ---------- A test on the bits of the text ----------

  /** Every attribute id that is looked at lies in the text, and so does every value up to a refusal. */
  predicate SettledAttributes(b: seq<bool>, n: nat, w: nat)
    decreases n
  {
    n > 0 ==>
      && |b| >= w
      && (First(b, w) > ATTRIBUTE_MAX ||
          (|b| >= w + 4 && SettledAttributes(Past(Past(b, w), 4), n - 1, w)))
  }

  predicate SettledAttributePart(b: seq<bool>) {
    && |b| >= 4
    && (First(b, 4) == 0 ||
        (|b| >= 8 && SettledAttributes(Past(Past(b, 4), 4), First(b, 4), First(Past(b, 4), 4) + 4)))
  }

  /** A profession that is cut off can still be refused whatever follows. */
  predicate SettledProfessionPart(b: seq<bool>) {
    && |b| >= 2
    && var w, b1 := 2 * First(b, 2) + 4, Past(b, 2);
    if |b1| < w then Num(b1) >= PROFESSION_COUNT || (|b1| >= 4 && Num(b1) == 0)
    else
      var primary, b2 := First(b1, w), Past(b1, w);
      || !(1 <= primary < PROFESSION_COUNT)
      || (if |b2| < w then Num(b2) >= PROFESSION_COUNT
          else First(b2, w) >= PROFESSION_COUNT || SettledAttributePart(Past(b2, w)))
  }

  /** The text reaches through the attributes, or it is refused before its end. */
  predicate Settled(b: seq<bool>) {
    && |b| >= 4
    && (First(b, 4) == 14 ==> SettledProfessionPart(Past(Past(b, 4), 4)))
    && (First(b, 4) == 0 ==> SettledProfessionPart(Past(b, 4)))
  }

  // ---------- Fields inside and across the end of the text ----------

  lemma InText(b: seq<bool>, g: seq<SChar>, n: nat)
    requires n <= |b| && n <= 24
    ensures var s := FromBits(b) + g;
      && !Wild(|s|, n) && Read(s, n) == First(b, n) && Skip(s, n) == FromBits(Past(b, n)) + g
      && 0 <= First(b, n) < Pow2(n)
  {
    hide Value, Num, Pow2;
    assert b == b[..n] + b[n..];
    FromBitsConcat(b[..n], b[n..]);
    var s := FromBits(b) + g;
    assert s[..n] == FromBits(b[..n]) && s[n..] == FromBits(b[n..]) + g;
    ValueBits(b[..n]);
    NumBound(b[..n]);
    assert Value([]) == Num([]) == 0 by { ValueNothing(); }
  }

  lemma ValueNothing()
    ensures Value([]) == 0 && Num([]) == 0
  {
  }

  lemma AcrossEnd(b: seq<bool>, g: seq<SChar>, n: nat)
    requires |b| < n <= |b| + |g| && n <= 24
    ensures var s := FromBits(b) + g;
      && !Wild(|s|, n) && Read(s, n) == Value(FromBits(b) + g[..n - |b|]) && Skip(s, n) == g[n - |b|..]
  {
    var s := FromBits(b) + g;
    assert s[..n] == FromBits(b) + g[..n - |b|] && s[n..] == g[n - |b|..];
  }

  // ---------- Skills: what is cut off is 0 ----------

  lemma {:induction false} SkillsIn(b: seq<bool>, g: seq<SChar>, n: nat, w: nat)
    requires 1 <= w <= 24
    ensures var o, r := RawSkills(FromBits(b) + g, n, w, |b|), ReadSkills(b, n, w, |b|);
      && (r.None? <==> o.Refused?) && (r.Some? ==> o.Known? && o.value == AsInts(r.value))
    decreases n
  {
    hide Read, Skip, First, Past;
    if n > 0 {
      if w > |b| {
        SkillsIn(b, g, n - 1, w);
      } else {
        InText(b, g, w);
        PastLength(b, w);
        SkillsIn(Past(b, w), g, n - 1, w);
      }
    }
  }

  lemma PastLength(b: seq<bool>, n: nat)
    requires n <= |b|
    ensures |Past(b, n)| == |b| - n
  {
  }

  lemma {:induction false} SkillsPast(s: seq<SChar>, n: nat, w: int, left: int)
    requires left < 0
    ensures RawSkills(s, n, w, left) == Known(AsInts(Blank(n)), s)
    decreases n
  {
    if n > 0 {
      SkillsPast(s, n - 1, w, left);
      assert AsInts(Blank(n)) == [0] + AsInts(Blank(n - 1));
    } else {
      assert AsInts(Blank(0)) == [];
    }
  }

  lemma SkillPartPast(s: seq<SChar>, left: int)
    requires left < 0 && |s| >= 4
    ensures RawSkillPart(s, left).Known? && RawSkillPart(s, left).value == AsInts(Blank(8))
    ensures ReadSkillPart([], left) == Some(Blank(8))
  {
    hide ReadSkills, RawSkills, Read, First;
    SkillsPast(Skip(s, 4), 8, Read(s, 4) + 8, left - 4);
    NoneWritten(Past([], 4), 8, First([], 4) + 8, left - 4);
  }

  lemma SkillPartIn(b: seq<bool>, g: seq<SChar>)
    requires |b| + |g| >= 4
    ensures var o, r := RawSkillPart(FromBits(b) + g, |b|), ReadSkillPart(b, |b|);
      && (r.None? <==> o.Refused?) && (r.Some? ==> o.Known? && o.value == AsInts(r.value))
  {
    hide ReadSkills, RawSkills, Read, First, Past, Skip;
    if |b| >= 4 {
      InText(b, g, 4);
      SmallPowers();
      PastLength(b, 4);
      SkillsIn(Past(b, 4), g, 8, First(b, 4) + 8);
    } else {
      var s := FromBits(b) + g;
      SkillsPast(Skip(s, 4), 8, Read(s, 4) + 8, |b| - 4);
      NoneWritten(Past(b, 4), 8, First(b, 4) + 8, |b| - 4);
    }
  }

  // ---------- Attributes ----------

  lemma {:induction false} AttributesIn(b: seq<bool>, g: seq<SChar>, n: nat, w: nat)
    requires SettledAttributes(b, n, w) && 4 <= w <= 19 && |b| + |g| >= AttributeSpan(n, w)
    ensures var o, r := RawAttributes(FromBits(b) + g, n, w), ReadAttributes(b, n, w);
      && (r.None? ==> o.Refused?)
      && (r.Some? ==> |b| >= AttributeSpan(n, w))
      && (r.Some? ==> o == Known(AsRawAttributes(r.value), FromBits(Past(b, AttributeSpan(n, w))) + g))
    decreases n
  {
    hide Read, Skip, First, Past, Wild;
    if n == 0 {
      PastAll(b);
    } else {
      InText(b, g, w);
      PastLength(b, w);
      var b1 := Past(b, w);
      if First(b, w) > ATTRIBUTE_MAX {
        WildIs(|FromBits(b1) + g|, 4);
      } else {
        InText(b1, g, 4);
        PastLength(b1, 4);
        AttributesIn(Past(b1, 4), g, n - 1, w);
        PastPast(b, w, 4);
        PastPast(b, w + 4, AttributeSpan(n - 1, w));
        AttributesCons(b, n, w);
      }
    }
  }

  lemma AttributesCons(b: seq<bool>, n: nat, w: nat)
    requires n > 0 && First(b, w) <= ATTRIBUTE_MAX
    ensures var r, more := ReadAttributes(b, n, w), ReadAttributes(Past(Past(b, w), 4), n - 1, w);
      var a := RawAttribute(First(b, w), First(Past(b, w), 4));
      && (r.Some? <==> more.Some?)
      && (r.Some? ==> AsRawAttributes(r.value) == [a] + AsRawAttributes(more.value))
  {
    hide First, Past;
  }

  lemma WildIs(room: nat, n: nat)
    requires n <= room && n <= 24
    ensures !Wild(room, n)
  {
  }

  lemma PastAll(b: seq<bool>)
    ensures Past(b, 0) == b && AsRawAttributes([]) == []
  {
  }

  lemma AttributePartIn(b: seq<bool>, g: seq<SChar>, primary: nat, secondary: nat)
    requires SettledAttributePart(b) && |b| + |g| >= 400
    ensures Reads(RawAttributePart(FromBits(b) + g, |b|, primary, secondary), ReadAttributePart(b, |b|, primary, secondary))
  {
    hide Read, Skip, First, Past, Wild, RawAttributes, ReadAttributes, RawSkillPart, ReadSkillPart, AttributeSpan;
    var s := FromBits(b) + g;
    SmallPowers();
    InText(b, g, 4);
    PastLength(b, 4);
    var n, b1 := First(b, 4), Past(b, 4);
    WildIs(|Skip(s, 4)|, 4);
    SkipLength(s, 4);
    SkipLength(Skip(s, 4), 4);
    if |b| >= 8 {
      InText(b1, g, 4);
      PastLength(b1, 4);
      var w := First(b1, 4) + 4;
      var b2 := Past(b1, 4);
      SpanBound(n, w);
      if n == 0 { NothingSettled(b2, w); }
      AttributesIn(b2, g, n, w);
      if ReadAttributes(b2, n, w).Some? {
        var k := AttributeSpan(n, w);
        PastLength(b2, k);
        PastPast(b, 4, 4);
        PastPast(b, 8, k);
        SkillPartIn(Past(b2, k), g);
      }
    } else {
      var s2 := Skip(Skip(s, 4), 4);
      NoAttributesAt(s2, Read(Skip(s, 4), 4) + 4, Past(b1, 4), First(b1, 4) + 4);
      SkillPartPast(s2, |b| - 8);
      PastEmpty(b, 8);
    }
  }

  lemma NothingSettled(b: seq<bool>, w: nat)
    ensures SettledAttributes(b, 0, w)
  {
  }

  lemma SkipLength(s: seq<SChar>, n: nat)
    requires !Wild(|s|, n)
    ensures |Skip(s, n)| == |s| - n
  {
  }

  lemma NoAttributesAt(s: seq<SChar>, w: int, b: seq<bool>, w': nat)
    ensures RawAttributes(s, 0, w) == Known([], s) && ReadAttributes(b, 0, w') == Some([]) && AttributeSpan(0, w') == 0
    ensures AsRawAttributes([]) == []
  {
  }

  lemma PastEmpty(b: seq<bool>, n: nat)
    requires |b| < n
    ensures Past(b, n) == []
  {
  }

  // ---------- Professions and the header ----------

  /** A primary profession that is cut off after refusing bits is refused. */
  lemma PrimaryCut(b: seq<bool>, g: seq<SChar>, w: nat)
    requires |b| < w <= 10 && w <= |b| + |g|
    requires Num(b) >= PROFESSION_COUNT || (|b| >= 4 && Num(b) == 0)
    ensures var v := Read(FromBits(b) + g, w); v <= 0 || v >= PROFESSION_COUNT
    ensures First(b, w) == Num(b)
  {
    hide Value, Num;
    AcrossEnd(b, g, w);
    ValueCut(b, g[..w - |b|]);
    if |b| >= 4 && Num(b) == 0 {
      ValueSixteen(b, g[..w - |b|]);
    }
  }

  lemma SecondaryCut(b: seq<bool>, g: seq<SChar>, w: nat)
    requires |b| < w <= 10 && w <= |b| + |g| && Num(b) >= PROFESSION_COUNT
    ensures var v := Read(FromBits(b) + g, w); v < 0 || v >= PROFESSION_COUNT
    ensures First(b, w) == Num(b)
  {
    hide Value, Num;
    AcrossEnd(b, g, w);
    ValueCut(b, g[..w - |b|]);
  }

  lemma ProfessionPartIn(b: seq<bool>, g: seq<SChar>)
    requires SettledProfessionPart(b) && |b| + |g| >= 500
    ensures Reads(RawProfessionPart(FromBits(b) + g, |b|), ReadProfessionPart(b, |b|))
  {
    hide Read, Skip, First, Past, Wild, Num, RawAttributePart, ReadAttributePart;
    var s := FromBits(b) + g;
    SmallPowers();
    InText(b, g, 2);
    PastLength(b, 2);
    var w, b1, s1 := 2 * First(b, 2) + 4, Past(b, 2), Skip(s, 2);
    SkipLength(s, 2);
    WildIs(|s1|, w);
    var s2 := Skip(s1, w);
    SkipLength(s1, w);
    WildIs(|s2|, w);
    SkipLength(s2, w);
    if |b1| < w {
      PrimaryCut(b1, g, w);
    } else {
      InText(b1, g, w);
      PastLength(b1, w);
      var b2 := Past(b1, w);
      if 1 <= First(b1, w) < PROFESSION_COUNT {
        if |b2| < w {
          SecondaryCut(b2, g, w);
        } else {
          InText(b2, g, w);
          PastLength(b2, w);
          if First(b2, w) < PROFESSION_COUNT {
            AttributePartIn(Past(b2, w), g, First(b1, w), First(b2, w));
          }
        }
      }
    }
  }

  /** A settled text is decoded as its bits say, whatever lies behind them. */
  lemma SettledReads(b: seq<bool>, g: seq<SChar>)
    requires Settled(b) && |b| + |g| == BIT_ROOM
    ensures Reads(RawTemplate(FromBits(b) + g, |b|), ReadTemplate(b, |b|))
  {
    hide Read, Skip, First, Past, Wild, RawProfessionPart, ReadProfessionPart, SettledProfessionPart;
    var s := FromBits(b) + g;
    InText(b, g, 4);
    PastLength(b, 4);
    var b1 := Past(b, 4);
    if First(b, 4) == 14 {
      NotEmpty(Past(b1, 4));
      if |b1| < 4 { PastEmpty(b1, 4); }
      InText(b1, g, 4);
      PastLength(b1, 4);
      ProfessionPartIn(Past(b1, 4), g);
    } else if First(b, 4) == 0 {
      ProfessionPartIn(b1, g);
    }
  }

  lemma NotEmpty(b: seq<bool>)
    requires SettledProfessionPart(b)
    ensures b != []
  {
  }
}
