/**
  The two layouts in numbers: which bytes a message has on the wire and in memory, kind
  by kind, and which counts are refused.
*/
module WireNumbers {
  import opened Bytes
  import opened WireFormat
  import opened WireLayout

  /** The kinds of fixed size, and their bytes. */
  predicate FixedBytes(f: Field, e: nat) {
    match f.kind
    case MsgHeader => e == 2
    case AgentId => e == 4
    case Float => e == 4
    case Vect2 => e == 8
    case Vect3 => e == 12
    case ByteField => e == 1
    case Word => e == 2
    case Dword => e == 4
    case Blob => e == f.param
    case _ => false
  }

  /** The counted kinds, and the bytes of one element. */
  predicate ElementBytes(f: Field, e: nat) {
    match f.kind
    case String16 => e == 2
    case Array8 => e == 1
    case Array16 => e == 2
    case Array32 => e == 4
    case _ => false
  }

  /** The first field is of fixed size: its bytes, and nothing else, in both layouts. */
  lemma FixedField(fields: seq<Field>, msg: seq<Part>, e: nat)
    requires fields != [] && msg != [] && FixedBytes(fields[0], e)
    ensures Valid(fields, msg) <==> msg[0].count == 1 && |msg[0].bytes| == e && Valid(fields[1..], msg[1..])
    ensures Valid(fields, msg) ==>
      && Wire(fields, msg) == msg[0].bytes + Wire(fields[1..], msg[1..])
      && Image(fields, msg) == msg[0].bytes + Image(fields[1..], msg[1..])
  {
    hide Wire, Image, Valid, PartOk, HeadWire, HeadImage;
    HeadStep(fields, msg);
    FixedPart(fields, msg[0], e);
  }

  lemma FixedPart(fields: seq<Field>, p: Part, e: nat)
    requires fields != [] && FixedBytes(fields[0], e)
    ensures Rest(fields) == fields[1..] && (PartOk(fields, p) <==> p.count == 1 && |p.bytes| == e)
    ensures PartOk(fields, p) ==> HeadWire(fields, p) == p.bytes && HeadImage(fields, p) == p.bytes
  {
    OneElement(e);
  }

  lemma OneElement(e: nat)
    ensures Span(1, e) == e
  {
  }

  lemma HeadStep(fields: seq<Field>, msg: seq<Part>)
    requires fields != [] && msg != []
    ensures Valid(fields, msg) <==> PartOk(fields, msg[0]) && Valid(Rest(fields), msg[1..])
    ensures Valid(fields, msg) ==>
      && Wire(fields, msg) == HeadWire(fields, msg[0]) + Wire(Rest(fields), msg[1..])
      && Image(fields, msg) == HeadImage(fields, msg[0]) + Image(Rest(fields), msg[1..])
  {
    hide PartOk, HeadWire, HeadImage, Rest;
  }

  /**
    The first field is counted: on the wire two bytes with the count, low byte first, and
    the elements.  In memory the count takes four bytes, except for a text, which has
    none; zeros fill the unused elements.
  */
  lemma CountedField(fields: seq<Field>, msg: seq<Part>, e: nat)
    requires fields != [] && msg != [] && ElementBytes(fields[0], e)
    ensures var n := msg[0].count;
      Valid(fields, msg) <==>
      n <= fields[0].param && n <= 65535 && |msg[0].bytes| == n * e && Valid(fields[1..], msg[1..])
    ensures var n := msg[0].count; Valid(fields, msg) ==>
      Wire(fields, msg) == [n % 256, n / 256] + msg[0].bytes + Wire(fields[1..], msg[1..])
    ensures var n := msg[0].count; Valid(fields, msg) ==>
      && n * e <= fields[0].param * e
      && var count: seq<Byte> := if fields[0].kind.String16? then [] else [n % 256, n / 256, 0, 0];
      Image(fields, msg) ==
        count + msg[0].bytes + Zeros(fields[0].param * e - n * e) + Image(fields[1..], msg[1..])
  {
    hide Wire, Image, Valid, PartOk, HeadWire, HeadImage;
    HeadStep(fields, msg);
    CountedPart(fields, msg[0], e);
  }

  lemma CountedPart(fields: seq<Field>, p: Part, e: nat)
    requires fields != [] && ElementBytes(fields[0], e)
    ensures Rest(fields) == fields[1..]
    ensures PartOk(fields, p) <==> p.count <= fields[0].param && p.count <= 65535 && |p.bytes| == p.count * e
    ensures PartOk(fields, p) ==> p.count * e <= fields[0].param * e
    ensures PartOk(fields, p) ==> HeadWire(fields, p) == [p.count % 256, p.count / 256] + p.bytes
    ensures PartOk(fields, p) ==>
      var count: seq<Byte> := if fields[0].kind.String16? then [] else [p.count % 256, p.count / 256, 0, 0];
      HeadImage(fields, p) == count + p.bytes + Zeros(fields[0].param * e - p.count * e)
  {
    SpanIs(p.count, e);
    SpanIs(fields[0].param, e);
    if p.count <= fields[0].param {
      SpanMonotone(p.count, fields[0].param, e);
    }
    if p.count <= 65535 {
      CountInMemory(p.count);
    }
  }

  lemma SpanIs(n: nat, e: nat)
    ensures Span(n, e) == n * e
  {
  }

  lemma CountInMemory(n: nat)
    requires n <= 65535
    ensures Le32Bytes(n) == [n % 256, n / 256, 0, 0]
  {
  }

  /** A nested struct: one byte with the count on the wire, and four in memory. */
  lemma NestedField(fields: seq<Field>, msg: seq<Part>, e: nat)
    requires fields != [] && msg != [] && fields[0].kind.NestedStruct? && StructBytes(fields[1..], e)
    ensures var n := msg[0].count;
      Valid(fields, msg) <==> n <= fields[0].param && n <= 255 && |msg[0].bytes| == n * e && |msg| == 1
    ensures var n := msg[0].count; Valid(fields, msg) ==>
      && n * e <= fields[0].param * e
      && Wire(fields, msg) == [n] + msg[0].bytes
      && Image(fields, msg) == [n, 0, 0, 0] + msg[0].bytes + Zeros(fields[0].param * e - n * e)
  {
    hide Wire, Image, Valid, PartOk, HeadWire, HeadImage;
    HeadStep(fields, msg);
    NothingLeft(msg[1..]);
    NestedPart(fields, msg[0], e);
  }

  lemma NestedPart(fields: seq<Field>, p: Part, e: nat)
    requires fields != [] && fields[0].kind.NestedStruct? && StructBytes(fields[1..], e)
    ensures Rest(fields) == []
    ensures PartOk(fields, p) <==> p.count <= fields[0].param && p.count <= 255 && |p.bytes| == p.count * e
    ensures PartOk(fields, p) ==> p.count * e <= fields[0].param * e
    ensures PartOk(fields, p) ==> HeadWire(fields, p) == [p.count] + p.bytes
    ensures PartOk(fields, p) ==>
      HeadImage(fields, p) == [p.count, 0, 0, 0] + p.bytes + Zeros(fields[0].param * e - p.count * e)
  {
    StructSize(fields[1..], e);
    SpanIs(p.count, e);
    SpanIs(fields[0].param, e);
    if p.count <= fields[0].param {
      SpanMonotone(p.count, fields[0].param, e);
    }
    if p.count <= 255 {
      CountInMemory(p.count);
    }
  }

  lemma NothingLeft(msg: seq<Part>)
    ensures Valid([], msg) <==> msg == []
    ensures Wire([], []) == [] && Image([], []) == []
  {
  }

  /** Fields of fixed size that take `e` bytes together. */
  ghost predicate StructBytes(fields: seq<Field>, e: nat)
    decreases |fields|
  {
    if fields == [] then e == 0
    else exists k: nat :: k <= e && FixedBytes(fields[0], k) && StructBytes(fields[1..], e - k)
  }

  lemma {:induction false} StructSize(fields: seq<Field>, e: nat)
    requires StructBytes(fields, e)
    ensures FixedSize(fields) == e
    decreases |fields|
  {
    if fields != [] {
      var k: nat :| k <= e && FixedBytes(fields[0], k) && StructBytes(fields[1..], e - k);
      StructSize(fields[1..], e - k);
    }
  }

  /** The count that packing finds in memory: four bytes, low one first; for a text, the units in front of a zero. */
  lemma CountHeld(f: Field, mem: seq<Byte>)
    requires |mem| >= 4 && PrefixSize(f.kind) != 0
    ensures !f.kind.String16? ==>
      HeldCount(f, mem) == mem[0] as int + 256 * mem[1] as int + 65536 * mem[2] as int + 16777216 * mem[3] as int
    ensures f.kind.String16? && |mem| >= 2 * f.param ==> var n := HeldCount(f, mem);
      && n <= f.param && (forall i :: 0 <= i < n ==> mem[2 * i] != 0 || mem[2 * i + 1] != 0)
      && (n < f.param ==> mem[2 * n] == 0 && mem[2 * n + 1] == 0)
  {
    if !f.kind.String16? {
      var c := Cut(mem, 0, 4);
      assert c[0] == mem[0] && c[1] == mem[1] && c[2] == mem[2] && c[3] == mem[3];
    } else if |mem| >= 2 * f.param {
      var n := HeldCount(f, mem);
      forall i | 0 <= i < n
        ensures mem[2 * i] != 0 || mem[2 * i + 1] != 0
      {
        assert Unit(mem, i);
      }
    }
  }

  // ---------- What is refused ----------

  /** Unpacking a counted field: too few bytes, a count that is too large, or on to the next field. */
  lemma CountedParse(fields: seq<Field>, d: seq<Byte>, e: nat)
    requires fields != [] && ElementBytes(fields[0], e)
    ensures |d| < 2 ==> Parse(fields, d).Missing?
    ensures |d| >= 2 ==> var n := d[0] as int + 256 * d[1] as int;
      && (n > fields[0].param ==> Parse(fields, d).Rejected?)
      && (n <= fields[0].param && |d| < 2 + n * e ==> Parse(fields, d).Missing?)
      && (n <= fields[0].param && |d| >= 2 + n * e ==>
        (Parse(fields, d).Rejected? <==> Parse(fields[1..], d[2 + n * e..]).Rejected?))
  {
    hide Parse;
    OneParse(fields, d);
    if |d| >= 2 {
      SpanIs(d[0] as int + 256 * d[1] as int, e);
    }
  }

  lemma NestedParse(fields: seq<Field>, d: seq<Byte>, e: nat)
    requires fields != [] && fields[0].kind.NestedStruct? && StructBytes(fields[1..], e)
    ensures d == [] ==> Parse(fields, d).Missing?
    ensures d != [] ==>
      && (d[0] > fields[0].param ==> Parse(fields, d).Rejected?)
      && (d[0] <= fields[0].param && |d| < 1 + d[0] * e ==> Parse(fields, d).Missing?)
      && (d[0] <= fields[0].param && |d| >= 1 + d[0] * e ==> Parse(fields, d).Got?)
  {
    hide Parse;
    OneParse(fields, d);
    StructSize(fields[1..], e);
    if d != [] {
      SpanIs(d[0], e);
      if |d| >= 1 + d[0] * e {
        ParseNone(d[1 + d[0] * e..]);
      }
    }
  }

  lemma FixedParse(fields: seq<Field>, d: seq<Byte>, e: nat)
    requires fields != [] && FixedBytes(fields[0], e)
    ensures |d| < e ==> Parse(fields, d).Missing?
    ensures |d| >= e ==> (Parse(fields, d).Rejected? <==> Parse(fields[1..], d[e..]).Rejected?)
  {
    hide Parse;
    OneParse(fields, d);
    OneElement(e);
  }

  lemma OneParse(fields: seq<Field>, d: seq<Byte>)
    requires fields != []
    ensures var h := ParseHead(fields, d);
      && (h.Missing? ==> Parse(fields, d).Missing?) && (h.Rejected? ==> Parse(fields, d).Rejected?)
      && (h.Got? ==> (Parse(fields, d).Rejected? <==> Parse(Rest(fields), d[h.used..]).Rejected?))
      && (h.Got? ==> (Parse(fields, d).Got? <==> Parse(Rest(fields), d[h.used..]).Got?))
  {
    hide ParseHead, Rest;
  }
}
