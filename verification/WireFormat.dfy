/**
  The message formats of code/client/packets.h and the two layouts of a message:
  the packed bytes on the wire and the fixed-size struct in memory.
*/
module WireFormat {
  import opened Bytes

  datatype Kind =
    | MsgHeader | AgentId | Float | Vect2 | Vect3 | ByteField | Word | Dword | Blob
    | String16 | Array8 | Array16 | Array32 | NestedStruct

  /** `size` is optional in the tables; only packing a nested struct reads it. */
  datatype Field = Field(kind: Kind, param: nat, size: nat)

  /** The live content of one field: how many elements, and their bytes. */
  datatype Part = Part(count: nat, bytes: seq<Byte>)

  datatype Parsed<+T> = Got(value: T, used: nat) | Missing | Rejected

  function ElementSize(f: Field): nat {
    match f.kind
    case MsgHeader => 2
    case AgentId => 4
    case Float => 4
    case Vect2 => 8
    case Vect3 => 12
    case ByteField => 1
    case Word => 2
    case Dword => 4
    case Blob => f.param
    case String16 => 2
    case Array8 => 1
    case Array16 => 2
    case Array32 => 4
    case NestedStruct => 0
  }

  function PrefixSize(k: Kind): (n: nat)
    ensures n <= 2
  {
    match k
    case String16 => 2
    case Array8 => 2
    case Array16 => 2
    case Array32 => 2
    case NestedStruct => 1
    case _ => 0
  }

  function Span(n: nat, e: nat): nat {
    n * e
  }

  lemma SpanMonotone(n: nat, m: nat, e: nat)
    requires n <= m
    ensures Span(n, e) <= Span(m, e)
  {
  }

  lemma SpanSteps(n: nat, e: nat)
    ensures Span(0, e) == 0 && Span(1, e) == e && Span(n + 1, e) == e + Span(n, e)
  {
  }

  // ---------- Formats ----------

  predicate AllFixed(fields: seq<Field>) {
    forall f :: f in fields ==> PrefixSize(f.kind) == 0
  }

  function FixedSize(fields: seq<Field>): nat {
    if fields == [] then 0 else ElementSize(fields[0]) + FixedSize(fields[1..])
  }

  /** A nested struct takes all the fields after it, and those have fixed sizes. */
  predicate WellFormed(fields: seq<Field>) {
    fields != [] ==>
      if fields[0].kind.NestedStruct? then |fields| > 1 && AllFixed(fields[1..])
      else (fields[0].kind.String16? ==> fields[0].param >= 1) && WellFormed(fields[1..])
  }

  lemma {:induction false} FixedWellFormed(fields: seq<Field>)
    requires AllFixed(fields)
    ensures WellFormed(fields)
  {
    if fields != [] {
      assert fields[0] in fields;
      FixedWellFormed(fields[1..]);
    }
  }

  /** The size of one element of the first field. */
  function Elem(fields: seq<Field>): nat
    requires fields != []
  {
    if fields[0].kind.NestedStruct? then FixedSize(fields[1..]) else ElementSize(fields[0])
  }

  function Rest(fields: seq<Field>): seq<Field>
    requires fields != []
  {
    if fields[0].kind.NestedStruct? then [] else fields[1..]
  }

  /** Counted fields keep a 32-bit count in memory; strings end at a zero instead. */
  function CountSize(f: Field): (n: nat)
    ensures n == 0 || n == 4
  {
    if PrefixSize(f.kind) == 0 || f.kind.String16? then 0 else 4
  }

  function Slots(f: Field): nat {
    if PrefixSize(f.kind) == 0 then 1 else f.param
  }

  function SlotSize(fields: seq<Field>): nat
    requires fields != []
  {
    CountSize(fields[0]) + Span(Slots(fields[0]), Elem(fields))
  }

  function MemSize(fields: seq<Field>): nat
    decreases |fields|
  {
    if fields == [] then 0 else SlotSize(fields) + MemSize(Rest(fields))
  }

  // ---------- Messages ----------

  predicate CountOk(f: Field, count: nat) {
    match PrefixSize(f.kind)
    case 0 => count == 1
    case 1 => count <= f.param && count <= 0xFF
    case _ => count <= f.param && count <= 0xFFFF
  }

  predicate PartOk(fields: seq<Field>, p: Part)
    requires fields != []
  {
    CountOk(fields[0], p.count) && |p.bytes| == Span(p.count, Elem(fields))
  }

  predicate Valid(fields: seq<Field>, msg: seq<Part>)
    decreases |fields|
  {
    if fields == [] then msg == []
    else msg != [] && PartOk(fields, msg[0]) && Valid(Rest(fields), msg[1..])
  }

  // ---------- On the wire ----------

  function Prefix(f: Field, count: nat): (s: seq<Byte>)
    requires CountOk(f, count)
    ensures |s| == PrefixSize(f.kind)
  {
    match PrefixSize(f.kind)
    case 0 => []
    case 1 => [count]
    case _ => Le16Bytes(count)
  }

  function HeadWire(fields: seq<Field>, p: Part): (s: seq<Byte>)
    requires fields != [] && PartOk(fields, p)
    ensures |s| == PrefixSize(fields[0].kind) + Span(p.count, Elem(fields))
  {
    Prefix(fields[0], p.count) + p.bytes
  }

  function Wire(fields: seq<Field>, msg: seq<Part>): seq<Byte>
    requires Valid(fields, msg)
    decreases |fields|
  {
    if fields == [] then [] else HeadWire(fields, msg[0]) + Wire(Rest(fields), msg[1..])
  }

  /** The count in front of the elements, if enough bytes are there. */
  function ParseCount(f: Field, d: seq<Byte>): (r: Parsed<nat>)
    ensures r.Got? ==> r.used == PrefixSize(f.kind) <= |d| && CountOk(f, r.value)
  {
    var p := PrefixSize(f.kind);
    if p == 0 then Got(1, 0)
    else if |d| < p then Missing
    else
      var count := if p == 1 then d[0] else Le16(d);
      if count > f.param then Rejected else Got(count, p)
  }

  function ParseHead(fields: seq<Field>, d: seq<Byte>): (r: Parsed<Part>)
    requires fields != []
    ensures r.Got? ==> PartOk(fields, r.value) && r.used <= |d|
  {
    match ParseCount(fields[0], d)
    case Missing => Missing
    case Rejected => Rejected
    case Got(count, p) =>
      var n := Span(count, Elem(fields));
      if |d| - p < n then Missing else Got(Part(count, d[p..p + n]), p + n)
  }

  function Parse(fields: seq<Field>, d: seq<Byte>): (r: Parsed<seq<Part>>)
    ensures r.Got? ==> Valid(fields, r.value) && r.used <= |d|
    decreases |fields|
  {
    if fields == [] then Got([], 0)
    else
      match ParseHead(fields, d)
      case Missing => Missing
      case Rejected => Rejected
      case Got(p, n) =>
        match Parse(Rest(fields), d[n..])
        case Missing => Missing
        case Rejected => Rejected
        case Got(msg, m) => Got([p] + msg, n + m)
  }

  lemma HeadWireParse(fields: seq<Field>, p: Part, more: seq<Byte>)
    requires fields != [] && PartOk(fields, p)
    ensures ParseHead(fields, HeadWire(fields, p) + more) == Got(p, |HeadWire(fields, p)|)
  {
    var d := HeadWire(fields, p) + more;
    var n := PrefixSize(fields[0].kind);
    assert d[..n] == Prefix(fields[0], p.count);
    assert n == 2 ==> Le16(d) == Le16(d[..n]);
    assert n == 1 ==> d[0] == d[..n][0];
    assert d[n..n + |p.bytes|] == p.bytes;
  }

  /** Every message is read back from its wire form, whatever bytes follow it. */
  lemma {:induction false} WireParse(fields: seq<Field>, msg: seq<Part>, more: seq<Byte>)
    requires Valid(fields, msg)
    ensures Parse(fields, Wire(fields, msg) + more) == Got(msg, |Wire(fields, msg)|)
    decreases |fields|
  {
    hide HeadWire, ParseHead, PartOk, Elem, Span;
    if fields != [] {
      var head, tail := HeadWire(fields, msg[0]), Wire(Rest(fields), msg[1..]);
      WireParse(Rest(fields), msg[1..], more);
      HeadWireParse(fields, msg[0], tail + more);
      assert Wire(fields, msg) + more == head + (tail + more);
      assert (head + (tail + more))[|head|..] == tail + more;
      assert [msg[0]] + msg[1..] == msg;
    }
  }

  lemma HeadParseWire(fields: seq<Field>, d: seq<Byte>)
    requires fields != [] && ParseHead(fields, d).Got?
    ensures var r := ParseHead(fields, d); HeadWire(fields, r.value) == d[..r.used]
  {
    var n := PrefixSize(fields[0].kind);
    var r := ParseHead(fields, d);
    if n == 2 {
      Le16Unique(d[..2]);
      assert Le16(d) == Le16(d[..2]);
    }
    assert Prefix(fields[0], r.value.count) == d[..n];
    assert d[..r.used] == d[..n] + d[n..r.used];
  }

  /** Conversely, bytes that parse are the wire form of what was read. */
  lemma {:induction false} ParseWire(fields: seq<Field>, d: seq<Byte>)
    requires Parse(fields, d).Got?
    ensures var r := Parse(fields, d); Wire(fields, r.value) == d[..r.used]
    decreases |fields|
  {
    hide ParseHead, HeadWire, PartOk, Elem, Span;
    if fields != [] {
      var r, h := Parse(fields, d), ParseHead(fields, d);
      HeadParseWire(fields, d);
      ParseWire(Rest(fields), d[h.used..]);
      assert r.value[1..] == Parse(Rest(fields), d[h.used..]).value;
      assert d[..r.used] == d[..h.used] + d[h.used..][..r.used - h.used];
    }
  }

  lemma {:induction false} RejectedStays(fields: seq<Field>, d: seq<Byte>, more: seq<Byte>)
    requires Parse(fields, d).Rejected?
    ensures Parse(fields, d + more).Rejected?
    decreases |fields|
  {
    var h := ParseHead(fields, d);
    if h.Got? {
      HeadParseWire(fields, d);
      assert d + more == d[..h.used] + (d[h.used..] + more);
      HeadWireParse(fields, h.value, d[h.used..] + more);
      assert (d + more)[h.used..] == d[h.used..] + more;
      RejectedStays(Rest(fields), d[h.used..], more);
    } else {
      assert PrefixSize(fields[0].kind) == 2 ==> Le16(d + more) == Le16(d);
    }
  }

  lemma HeadPrefixMissing(fields: seq<Field>, d: seq<Byte>, k: nat)
    requires fields != [] && ParseHead(fields, d).Got? && k < ParseHead(fields, d).used
    ensures ParseHead(fields, d[..k]).Missing?
  {
    hide Span, Elem;
    assert PrefixSize(fields[0].kind) <= k && PrefixSize(fields[0].kind) == 2 ==> Le16(d[..k]) == Le16(d);
  }

  /** Parsing, one field at a time. */
  lemma ParseStep(fields: seq<Field>, d: seq<Byte>)
    requires fields != []
    ensures var h, all := ParseHead(fields, d), Parse(fields, d);
      !h.Got? ==> !all.Got? && (h.Missing? <==> all.Missing?)
    ensures var h, all := ParseHead(fields, d), Parse(fields, d); h.Got? ==>
      var rest := Parse(Rest(fields), d[h.used..]);
      && (rest.Missing? <==> all.Missing?) && (rest.Got? <==> all.Got?)
      && (all.Got? ==> all.used == h.used + rest.used)
  {
    hide ParseHead, PartOk, Rest;
  }

  lemma {:induction false} PrefixMissing(fields: seq<Field>, d: seq<Byte>, k: nat)
    requires Parse(fields, d).Got? && k < Parse(fields, d).used
    ensures Parse(fields, d[..k]).Missing?
    decreases |fields|
  {
    ParseNone(d);
    hide Parse, ParseHead, HeadWire;
    ParseStep(fields, d);
    ParseStep(fields, d[..k]);
    var h := ParseHead(fields, d);
    if k < h.used {
      HeadPrefixMissing(fields, d, k);
    } else {
      HeadParseWire(fields, d);
      assert d[..k] == d[..h.used] + d[h.used..k];
      HeadWireParse(fields, h.value, d[h.used..k]);
      assert d[..k][h.used..] == d[h.used..][..k - h.used];
      PrefixMissing(Rest(fields), d[h.used..], k - h.used);
    }
  }

  lemma ParseNone(d: seq<Byte>)
    ensures Parse([], d) == Got([], 0)
  {
  }

  /** A message ends where it ends: more bytes change nothing, and with fewer it is incomplete. */
  lemma SelfDelimiting(fields: seq<Field>, d: seq<Byte>, more: seq<Byte>)
    requires Parse(fields, d).Got?
    ensures var n := Parse(fields, d).used; Parse(fields, d[..n] + more) == Parse(fields, d)
    ensures forall k :: 0 <= k < Parse(fields, d).used ==> Parse(fields, d[..k]).Missing?
  {
    var r := Parse(fields, d);
    ParseWire(fields, d);
    WireParse(fields, r.value, more);
    forall k | 0 <= k < r.used
      ensures Parse(fields, d[..k]).Missing?
    {
      PrefixMissing(fields, d, k);
    }
  }
}
