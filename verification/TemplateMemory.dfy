/**
  The bit buffer of `template_decode` as it lies in memory: an array of signed chars of
  which the text fills the first ones with 0 and 1 and the others are never set.
*/
module TemplateMemory {
  import opened Options
  import opened Powers
  import opened TemplateFormat

  type SChar = x: int | -128 <= x < 128

  // ---------- Numbers put together with a bitwise or ----------

  function Size(a: int): nat {
    if a < 0 then -a else a
  }

  /** Bitwise or in two's complement. */
  function Or(a: int, b: int): int
    decreases Size(a) + Size(b)
  {
    if -1 <= a <= 0 && -1 <= b <= 0 then (if a == 0 && b == 0 then 0 else -1)
    else (if a % 2 == 1 || b % 2 == 1 then 1 else 0) + 2 * Or(a / 2, b / 2)
  }

  lemma {:induction false} OrSign(a: int, b: int)
    ensures Or(a, b) < 0 <==> a < 0 || b < 0
    ensures a >= 0 && b >= 0 ==> Or(a, b) >= a && Or(a, b) >= b
    decreases Size(a) + Size(b)
  {
    if !(-1 <= a <= 0 && -1 <= b <= 0) {
      OrSign(a / 2, b / 2);
    }
  }

  lemma {:induction false} OrZero(a: int)
    ensures Or(a, 0) == a && Or(0, a) == a
    decreases Size(a)
  {
    if !(-1 <= a <= 0) {
      OrZero(a / 2);
    }
  }

  lemma {:induction false} OrDisjoint(v: nat, n: nat)
    requires v < Pow2(n)
    ensures Or(v, Pow2(n)) == v + Pow2(n)
  {
    if n == 0 {
      OrZero(1);
    } else {
      OrDisjoint(v / 2, n - 1);
    }
  }

  lemma OrDouble(a: int, b: int)
    ensures Or(2 * a, 2 * b) == 2 * Or(a, b)
  {
  }

  lemma OrSixteen(a: int, b: int)
    ensures Or(16 * a, 16 * b) == 16 * Or(a, b)
  {
    OrDouble(a, b);
    OrDouble(2 * a, 2 * b);
    OrDouble(4 * a, 4 * b);
    OrDouble(8 * a, 8 * b);
  }

  /** What `_ReadBits` puts together from these chars: each is shifted to its place. */
  function Value(s: seq<SChar>): int {
    if s == [] then 0 else Or(Value(s[..|s| - 1]), s[|s| - 1] * Pow2(|s| - 1))
  }

  lemma ValueSnoc(s: seq<SChar>, c: SChar)
    ensures Value(s + [c]) == Or(Value(s), c * Pow2(|s|))
  {
    assert (s + [c])[..|s|] == s;
  }

  function FromBits(b: seq<bool>): (s: seq<SChar>)
    ensures |s| == |b| && forall i :: 0 <= i < |b| ==> s[i] == if b[i] then 1 else 0
  {
    seq<SChar>(|b|, i requires 0 <= i < |b| => if b[i] then 1 else 0)
  }

  lemma FromBitsConcat(a: seq<bool>, b: seq<bool>)
    ensures FromBits(a + b) == FromBits(a) + FromBits(b)
  {
  }

  /** On bits it is their number. */
  lemma {:induction false} ValueBits(b: seq<bool>)
    ensures Value(FromBits(b)) == Num(b)
  {
    if b != [] {
      var a, x := b[..|b| - 1], b[|b| - 1];
      ValueBits(a);
      NumBound(a);
      NumSnoc(a, x);
      assert b == a + [x];
      FromBitsConcat(a, [x]);
      ValueSnoc(FromBits(a), if x then 1 else 0);
      OrZero(Num(a));
      OrDisjoint(Num(a), |a|);
    }
  }

  function ZeroChars(n: nat): (s: seq<SChar>)
    ensures |s| == n && forall i :: 0 <= i < n ==> s[i] == 0
  {
    seq<SChar>(n, (i: nat) => 0)
  }

  lemma {:induction false} ValueZeros(s: seq<SChar>, n: nat)
    ensures Value(s + ZeroChars(n)) == Value(s)
  {
    if n == 0 {
      assert s + ZeroChars(0) == s;
    } else {
      ValueZeros(s, n - 1);
      assert s + ZeroChars(n) == (s + ZeroChars(n - 1)) + [0];
      ValueSnoc(s + ZeroChars(n - 1), 0);
      OrZero(Value(s));
    }
  }

  /** Chars behind the bits only add to the number or make it negative. */
  lemma {:induction false} ValueCut(b: seq<bool>, g: seq<SChar>)
    ensures var v := Value(FromBits(b) + g); v < 0 || v >= Num(b)
    decreases |g|
  {
    hide Or, Num, FromBits;
    if g == [] {
      assert FromBits(b) + g == FromBits(b);
      ValueBits(b);
    } else {
      var h, c := g[..|g| - 1], g[|g| - 1];
      var s := FromBits(b) + h;
      ValueCut(b, h);
      assert FromBits(b) + g == s + [c];
      ValueSnoc(s, c);
      OrSign(Value(s), c * Pow2(|s|));
      ShiftSign(c, |s|);
    }
  }

  lemma SixteenStep(v: int, c: int, n: nat)
    requires v % 16 == 0 && n >= 4
    ensures Or(v, c * Pow2(n)) % 16 == 0
  {
    hide Or;
    Pow2Add(4, n - 4);
    assert Pow2(4) == 16;
    var p := Pow2(n - 4);
    assert c * Pow2(n) == 16 * (c * p);
    OrSixteen(v / 16, c * p);
  }

  /** Behind four zero bits it stays a multiple of 16. */
  lemma {:induction false} ValueSixteen(b: seq<bool>, g: seq<SChar>)
    requires |b| >= 4 && Num(b) == 0
    ensures Value(FromBits(b) + g) % 16 == 0
    decreases |g|
  {
    hide Or, Num, FromBits, Value;
    if g == [] {
      assert FromBits(b) + g == FromBits(b);
      ValueBits(b);
    } else {
      var h, c := g[..|g| - 1], g[|g| - 1];
      var s := FromBits(b) + h;
      ValueSixteen(b, h);
      assert FromBits(b) + g == s + [c];
      ValueSnoc(s, c);
      SixteenStep(Value(s), c, |s|);
    }
  }

  lemma ShiftSign(c: SChar, n: nat)
    ensures c < 0 ==> c * Pow2(n) < 0
    ensures c >= 0 ==> c * Pow2(n) >= 0
  {
  }

  /** A negative char behind the bits makes the number negative. */
  lemma ValueNegative(b: seq<bool>, n: nat)
    ensures Value(FromBits(b) + ([-128] + ZeroChars(n))) < 0
  {
    var s := FromBits(b) + [-128];
    assert FromBits(b) + ([-128] + ZeroChars(n)) == s + ZeroChars(n);
    ValueZeros(s, n);
    ValueSnoc(FromBits(b), -128);
    ShiftSign(-128, |b|);
    OrSign(Value(FromBits(b)), -128 * Pow2(|b|));
  }

  // ---------- Decoding what lies in memory ----------

  /**
    `Undefined` is a read outside the buffer, a shift that may leave the range of int,
    or an array of negative size.
  */
  datatype Outcome<+T> = Known(value: T, rest: seq<SChar>) | Refused | Undefined

  datatype RawAttribute = RawAttribute(id: int, value: int)

  datatype Raw = Raw(primary: int, secondary: int, attributes: seq<RawAttribute>, skills: seq<int>)

  /** A field of `n` chars cannot be read where `room` are left. */
  predicate Wild(room: nat, n: int) {
    n > 24 || n > room
  }

  function Read(s: seq<SChar>, n: int): int
    requires !Wild(|s|, n)
  {
    if n <= 0 then 0 else Value(s[..n])
  }

  function Skip(s: seq<SChar>, n: int): (r: seq<SChar>)
    requires !Wild(|s|, n)
    ensures |r| == |s| - if n <= 0 then 0 else n
  {
    if n <= 0 then s else s[n..]
  }

  function RawAttributes(s: seq<SChar>, n: nat, w: int): (r: Outcome<seq<RawAttribute>>)
    ensures r.Known? ==> |r.value| == n && |r.rest| <= |s|
    decreases n
  {
    if n == 0 then Known([], s)
    else if Wild(|s|, w) || Wild(|Skip(s, w)|, 4) then Undefined
    else
      var a := RawAttribute(Read(s, w), Read(Skip(s, w), 4));
      if a.id > ATTRIBUTE_MAX then Refused
      else
        match RawAttributes(Skip(Skip(s, w), 4), n - 1, w)
        case Known(more, rest) => Known([a] + more, rest)
        case Refused => Refused
        case Undefined => Undefined
  }

  function RawSkills(s: seq<SChar>, n: nat, w: int, left: int): (r: Outcome<seq<int>>)
    ensures r.Known? ==> |r.value| == n
    decreases n
  {
    if n == 0 then Known([], s)
    else if w > left then
      match RawSkills(s, n - 1, w, left)
      case Known(more, rest) => Known([0] + more, rest)
      case Refused => Refused
      case Undefined => Undefined
    else if Wild(|s|, w) then Undefined
    else if Read(s, w) > SKILLS_MAX then Refused
    else
      var s' := Skip(s, w);
      match RawSkills(s', n - 1, w, left - (|s| - |s'|))
      case Known(more, rest) => Known([Read(s, w)] + more, rest)
      case Refused => Refused
      case Undefined => Undefined
  }

  function RawSkillPart(s: seq<SChar>, left: int): Outcome<seq<int>> {
    if Wild(|s|, 4) then Undefined else RawSkills(Skip(s, 4), 8, Read(s, 4) + 8, left - 4)
  }

  function RawAttributePart(s: seq<SChar>, left: int, primary: int, secondary: int): Outcome<Raw> {
    if Wild(|s|, 4) then Undefined
    else if Read(s, 4) >= 16 then Refused
    else if Read(s, 4) < 0 || Wild(|Skip(s, 4)|, 4) then Undefined
    else
      match RawAttributes(Skip(Skip(s, 4), 4), Read(s, 4), Read(Skip(s, 4), 4) + 4)
      case Refused => Refused
      case Undefined => Undefined
      case Known(attributes, rest) =>
        match RawSkillPart(rest, left - (|s| - |rest|))
        case Refused => Refused
        case Undefined => Undefined
        case Known(skills, end) => Known(Raw(primary, secondary, attributes, skills), end)
  }

  function RawProfessionPart(s: seq<SChar>, left: int): Outcome<Raw> {
    if Wild(|s|, 2) then Undefined
    else
      var w, s1 := 2 * Read(s, 2) + 4, Skip(s, 2);
      if Wild(|s1|, w) || Wild(|Skip(s1, w)|, w) then Undefined
      else
        var s2 := Skip(s1, w);
        var s3 := Skip(s2, w);
        var primary, secondary := Read(s1, w), Read(s2, w);
        if 1 <= primary < PROFESSION_COUNT && 0 <= secondary < PROFESSION_COUNT then
          RawAttributePart(s3, left - (|s| - |s3|), primary, secondary)
        else Refused
  }

  /** The template in a buffer of which the text filled the first `left` chars. */
  function RawTemplate(s: seq<SChar>, left: int): Outcome<Raw> {
    if Wild(|s|, 4) then Undefined
    else
      var s1 := Skip(s, 4);
      if Read(s, 4) == 14 then
        if Wild(|s1|, 4) then Undefined else RawProfessionPart(Skip(s1, 4), left - 8)
      else if Read(s, 4) == 0 then RawProfessionPart(s1, left - 4)
      else Refused
  }

  // ---------- What comes out ----------

  function AsRawAttributes(a: seq<Attribute>): (r: seq<RawAttribute>)
    ensures |r| == |a| && forall i :: 0 <= i < |a| ==> r[i] == RawAttribute(a[i].id, a[i].value)
  {
    seq<RawAttribute>(|a|, i requires 0 <= i < |a| => RawAttribute(a[i].id, a[i].value))
  }

  function AsInts(s: seq<nat>): (r: seq<int>)
    ensures |r| == |s| && forall i :: 0 <= i < |s| ==> r[i] == s[i]
  {
    seq<int>(|s|, i requires 0 <= i < |s| => s[i])
  }

  function AsRaw(t: Template): Raw {
    Raw(t.primary, t.secondary, AsRawAttributes(t.attributes), AsInts(t.skills))
  }

  /** A valid template has come out, or none. */
  ghost predicate Sound(o: Outcome<Raw>) {
    match o
    case Refused => true
    case Undefined => false
    case Known(r, _) => exists t :: TemplateOk(t) && r == AsRaw(t)
  }

  /** The outcome is what reading the bits says. */
  predicate Reads(o: Outcome<Raw>, t: Option<Template>) {
    match t
    case None => o.Refused?
    case Some(v) => o.Known? && o.value == AsRaw(v)
  }
}
