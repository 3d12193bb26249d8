/** `unpack` of code/client/network.c. */
module Unpacking {
  import opened Bytes
  import opened WireFormat
  import opened WireLayout
  import opened Codec

  /** The `n` bytes of `b` from `at` on are zero. */
  predicate Cleared(b: seq<Byte>, at: nat, n: nat) {
    at + n <= |b| && forall i :: at <= i < at + n ==> b[i] == 0
  }

  lemma ClearedPart(b: seq<Byte>, at: nat, n: nat, s: seq<Byte>, m: nat)
    requires Cleared(b, at, n) && |s| + m <= n
    ensures Cleared(Put(b, at, s), at + |s|, m)
  {
    var c := Put(b, at, s);
    assert c[at + |s|..] == b[at + |s|..];
    assert forall i :: at + |s| <= i < at + |s| + m ==> c[i] == c[at + |s|..][i - at - |s|] == b[i];
  }

  lemma PutZeros(b: seq<Byte>, at: nat, n: nat, s: seq<Byte>)
    requires Cleared(b, at, n) && |s| <= n
    ensures Put(b, at, s) == Put(b, at, s + Zeros(n - |s|))
  {
    assert b[at + |s|..at + n] == Zeros(n - |s|);
    assert b[at + |s|..] == b[at + |s|..at + n] + b[at + n..];
  }

  /** `r` is what the reading `p` of the wire asks for. */
  predicate Agrees<T>(r: Status, p: Parsed<T>) {
    match p
    case Got(_, n) => r == Finished(n)
    case Missing => r == Short
    case Rejected => r == Aborted
  }

  /** Ending a text is a write of zeros over zeros. */
  method EndText(buffer: array<Byte>, to: nat, n: nat, end: nat)
    requires end < n && Cleared(buffer[..], to, 2 * n)
    modifies buffer
    ensures buffer[..] == old(buffer[..])
  {
    buffer[to + 2 * end], buffer[to + 2 * end + 1] := 0, 0;
  }

  method StoreCount(buffer: array<Byte>, to: nat, count: nat)
    requires to + 4 <= buffer.Length && count < 0x1_0000_0000
    modifies buffer
    ensures buffer[..] == Put(old(buffer[..]), to, Le32Bytes(count))
  {
    var le := Le32Bytes(count);
    buffer[to], buffer[to + 1], buffer[to + 2], buffer[to + 3] := le[0], le[1], le[2], le[3];
  }

  /** The count in front of the elements; a text gets its terminator, an array its count. */
  method UnpackCount(data: array<Byte>, from: nat, readable: nat, buffer: array<Byte>, to: nat, f: Field)
    returns (count: nat, r: Status)
    requires data != buffer && from + readable <= data.Length
    requires to + CountSize(f) <= buffer.Length
    requires f.kind.String16? ==> f.param >= 1 && Cleared(buffer[..], to, 2 * f.param)
    modifies buffer
    ensures Agrees(r, ParseCount(f, data[from..from + readable]))
    ensures r.Finished? ==> ParseCount(f, data[from..from + readable]) == Got(count, r.used)
    ensures r.Finished? ==> buffer[..] == Put(old(buffer[..]), to, CountBytes(f, count))
    ensures !r.Finished? ==> buffer[..] == old(buffer[..])
  {
    hide Put, Cleared, Le16, Le32Bytes;
    count := 1;
    ghost var was, d := buffer[..], data[from..from + readable];
    var p := PrefixSize(f.kind);
    PutNothing(was, to);
    if p != 0 {
      if readable < p { return count, Short; }
      if p == 1 {
        assert d[0] == data[from];
        count := data[from];
      } else {
        assert d[..2] == data[from..from + 2];
        Le16Head(d);
        count := Le16(data[from..from + 2]);
      }
      if count > f.param { return count, Aborted; }
      if f.kind.String16? {
        var end := if f.param - 1 < count then f.param - 1 else count;
        EndText(buffer, to, f.param, end);
      } else {
        StoreCount(buffer, to, count);
      }
    }
    return count, Finished(p);
  }

  lemma Le16Head(d: seq<Byte>)
    requires |d| >= 2
    ensures Le16(d[..2]) == Le16(d)
  {
  }

  /** One element of a nested struct: its bytes as they are. */
  method UnpackElement(data: array<Byte>, from: nat, readable: nat, buffer: array<Byte>, to: nat, inner: seq<Field>)
    returns (r: Status)
    requires data != buffer && from + readable <= data.Length
    requires AllFixed(inner) && Cleared(buffer[..], to, FixedSize(inner))
    modifies buffer
    ensures r == if FixedSize(inner) <= readable then Finished(FixedSize(inner)) else Short
    ensures r.Finished? ==> buffer[..] == Put(old(buffer[..]), to, data[from..from + FixedSize(inner)])
    ensures !r.Finished? ==> Within(old(buffer[..]), buffer[..], to, FixedSize(inner))
    decreases |inner|, 4
  {
    hide *;
    ghost var d := data[from..from + readable];
    FixedWellFormed(inner);
    FixedMemSize(inner);
    FixedParse(inner, d);
    ClearedBound(buffer[..], to, FixedSize(inner));
    r := Unpack(data, from, readable, buffer, to, inner);
    AgreesIs(r, Parse(inner, d));
    if r.Finished? {
      assert d[..FixedSize(inner)] == data[from..from + FixedSize(inner)];
    }
  }

  lemma AgreesIs<T>(r: Status, p: Parsed<T>)
    requires Agrees(r, p)
    ensures r.Finished? <==> p.Got?
    ensures r.Short? <==> p.Missing?
    ensures p.Got? ==> r.used == p.used
  {
  }

  lemma ClearedBound(b: seq<Byte>, at: nat, n: nat)
    requires Cleared(b, at, n)
    ensures at + n <= |b|
  {
  }

  /** The elements of the nested struct `fields[0]`, one after the other. */
  method UnpackElements(data: array<Byte>, from: nat, readable: nat, buffer: array<Byte>, to: nat,
                        fields: seq<Field>, count: nat)
    returns (r: Status)
    requires data != buffer && from + readable <= data.Length
    requires fields != [] && fields[0].kind.NestedStruct? && AllFixed(fields[1..])
    requires Cleared(buffer[..], to, Span(count, Elem(fields)))
    modifies buffer
    ensures var n := Span(count, Elem(fields)); r == if n <= readable then Finished(n) else Short
    ensures r.Finished? ==> buffer[..] == Put(old(buffer[..]), to, data[from..from + r.used])
    ensures !r.Finished? ==> Within(old(buffer[..]), buffer[..], to, Span(count, Elem(fields)))
    decreases |fields|, 0
  {
    hide *;
    var inner := fields[1..];
    ghost var e, was := FixedSize(inner), buffer[..];
    ghost var n := Span(count, e);
    NestedElem(fields);
    ClearedBound(was, to, n);
    PutNothing(was, to);
    GatherStart([], e, e);
    var readed: nat, written: nat := 0, 0;
    SpanMonotone(0, count, e);
    assert data[from..from] == [];
    for j := 0 to count
      invariant readed == written == Span(j, e) <= readable && written <= n
      invariant buffer[..] == Put(was, to, data[from..from + readed])
    {
      SpanSteps(j, e);
      SpanMonotone(j + 1, count, e);
      ghost var done := data[from..from + readed];
      ghost var elem := if readed + e <= readable then data[from + readed..from + readed + e] else [];
      ClearedPart(was, to, n, done, e);
      var tmp := UnpackElement(data, from + readed, readable - readed, buffer, to + written, inner);
      if !tmp.Finished? {
        WithinLess(was, to, done, e, n, buffer[..]);
        return tmp;
      }
      PutPut(was, to, done, elem);
      assert data[from..from + readed + e] == done + elem;
      readed := readed + tmp.used;
      written := written + tmp.used;
    }
    return Finished(readed);
  }

  /** Less room than there is was used. */
  lemma WithinLess(a: seq<Byte>, at: nat, s: seq<Byte>, m: nat, n: nat, b: seq<Byte>)
    requires at + n <= |a| && |s| + m <= n
    requires Within(Put(a, at, s), b, at + |s|, m)
    ensures Within(a, b, at, n)
  {
    var p := Put(a, at, s);
    assert a[..at] == p[..at + |s|][..at] == b[..at];
    assert p[at + n..] == p[at + |s| + m..][n - |s| - m..] == b[at + n..];
  }

  /** The elements of any field, after its count. */
  method UnpackItems(data: array<Byte>, from: nat, readable: nat, buffer: array<Byte>, to: nat,
                     fields: seq<Field>, count: nat)
    returns (r: Status)
    requires data != buffer && from + readable <= data.Length
    requires fields != [] && WellFormed(fields) && Cleared(buffer[..], to, Span(count, Elem(fields)))
    modifies buffer
    ensures var n := Span(count, Elem(fields)); r == if n <= readable then Finished(n) else Short
    ensures r.Finished? ==> buffer[..] == Put(old(buffer[..]), to, data[from..from + r.used])
    ensures !r.Finished? ==> Within(old(buffer[..]), buffer[..], to, Span(count, Elem(fields)))
    decreases |fields|, 1
  {
    hide Put, Within, Cleared, ElementSize, Span, Elem;
    var f := fields[0];
    ElemIs(fields, count);
    ClearedBound(buffer[..], to, Span(count, Elem(fields)));
    if f.kind.NestedStruct? {
      r := UnpackElements(data, from, readable, buffer, to, fields, count);
    } else {
      var n := ElementSize(f) * count;
      if readable < n {
        WithinSame(buffer[..], to, n);
        return Short;
      }
      Copy(data, from, buffer, to, n);
      r := Finished(n);
    }
  }

  lemma ElemIs(fields: seq<Field>, count: nat)
    requires fields != []
    ensures !fields[0].kind.NestedStruct? ==> Span(count, Elem(fields)) == ElementSize(fields[0]) * count
  {
  }

  /** One field, with the struct elements that follow it when it is nested. */
  method UnpackField(data: array<Byte>, from: nat, readable: nat, buffer: array<Byte>, to: nat, fields: seq<Field>)
    returns (r: Status)
    requires data != buffer && from + readable <= data.Length
    requires fields != [] && WellFormed(fields) && Cleared(buffer[..], to, SlotSize(fields))
    modifies buffer
    ensures Agrees(r, ParseHead(fields, data[from..from + readable]))
    ensures r.Finished? ==>
      buffer[..] == Put(old(buffer[..]), to, HeadImage(fields, ParseHead(fields, data[from..from + readable]).value))
    ensures !r.Finished? ==> Within(old(buffer[..]), buffer[..], to, SlotSize(fields))
    decreases |fields|, 2
  {
    hide *;
    var f := fields[0];
    ghost var d, was := data[from..from + readable], buffer[..];
    ghost var slot := SlotSize(fields);
    ClearedBound(was, to, slot);
    TextSlot(fields, was, to);
    var count, c := UnpackCount(data, from, readable, buffer, to, f);
    AgreesIs(c, ParseCount(f, d));
    if !c.Finished? {
      HeadFails(fields, d, c);
      WithinSame(was, to, slot);
      return c;
    }
    ghost var head, n := CountBytes(f, count), Span(count, Elem(fields));
    HeadRoom(fields, count);
    ClearedPart(was, to, slot, head, n);
    var s := UnpackItems(data, from + c.used, readable - c.used, buffer, to + CountSize(f), fields, count);
    HeadDone(fields, d, count, c.used);
    if !s.Finished? {
      WithinLess(was, to, head, n, slot, buffer[..]);
      return s;
    }
    ghost var bytes := data[from + c.used..from + c.used + n];
    SliceSlice(data[..], from, readable, c.used, n);
    assert data[..][from..from + readable] == d && data[..][from + c.used..from + c.used + n] == bytes;
    PutPut(was, to, head, bytes);
    PutZeros(was, to, slot, head + bytes);
    return Finished(c.used + s.used);
  }

  lemma SliceSlice(b: seq<Byte>, from: nat, m: nat, k: nat, n: nat)
    requires from + m <= |b| && k + n <= m
    ensures b[from..from + m][k..k + n] == b[from + k..from + k + n]
  {
    var x, y := b[from..from + m][k..k + n], b[from + k..from + k + n];
    assert forall i :: 0 <= i < n ==> x[i] == y[i];
  }

  lemma HeadRoom(fields: seq<Field>, count: nat)
    requires fields != [] && CountOk(fields[0], count)
    ensures CountSize(fields[0]) + Span(count, Elem(fields)) <= SlotSize(fields)
  {
    SpanMonotone(count, Slots(fields[0]), Elem(fields));
  }

  lemma HeadFails(fields: seq<Field>, d: seq<Byte>, c: Status)
    requires fields != [] && Agrees(c, ParseCount(fields[0], d)) && !c.Finished?
    ensures Agrees(c, ParseHead(fields, d))
  {
  }

  /** What unpacking the first field comes down to, once its count is read. */
  lemma HeadDone(fields: seq<Field>, d: seq<Byte>, count: nat, p: nat)
    requires fields != [] && ParseCount(fields[0], d) == Got(count, p)
    ensures p <= |d|
    ensures var n, h := Span(count, Elem(fields)), ParseHead(fields, d);
      && (|d| - p < n ==> Agrees(Short, h))
      && (|d| - p >= n ==> h == Got(Part(count, d[p..p + n]), p + n) && Agrees(Finished(p + n), h))
    ensures var n, h := Span(count, Elem(fields)), ParseHead(fields, d); |d| - p >= n ==>
      var s := CountBytes(fields[0], count) + d[p..p + n];
      && |s| <= SlotSize(fields) && HeadImage(fields, h.value) == s + Zeros(SlotSize(fields) - |s|)
  {
    hide ParseCount, CountBytes, Span;
    HeadRoom(fields, count);
  }

  lemma TextSlot(fields: seq<Field>, b: seq<Byte>, at: nat)
    requires fields != [] && WellFormed(fields) && Cleared(b, at, SlotSize(fields))
    ensures var f := fields[0]; f.kind.String16? ==> f.param >= 1 && Cleared(b, at, 2 * f.param)
    ensures CountSize(fields[0]) <= SlotSize(fields)
  {
  }

  /** `unpack` into cleared memory: the message that the bytes parse to, as a struct. */
  method Unpack(data: array<Byte>, from: nat, readable: nat, buffer: array<Byte>, to: nat, fields: seq<Field>)
    returns (r: Status)
    requires data != buffer && from + readable <= data.Length
    requires WellFormed(fields) && Cleared(buffer[..], to, MemSize(fields))
    modifies buffer
    ensures Agrees(r, Parse(fields, data[from..from + readable]))
    ensures r.Finished? ==>
      buffer[..] == Put(old(buffer[..]), to, Image(fields, Parse(fields, data[from..from + readable]).value))
    ensures !r.Finished? ==> Within(old(buffer[..]), buffer[..], to, MemSize(fields))
    decreases |fields|, 3
  {
    hide Put, Within, Cleared, WellFormed, HeadImage, ParseHead, Parse, Image, MemSize, Agrees, Valid, PartOk;
    ghost var d, was := data[from..from + readable], buffer[..];
    ghost var size := MemSize(fields);
    ClearedBound(was, to, size);
    var readed: nat, written: nat := 0, 0;
    ghost var done: seq<Byte> := [];
    PutNothing(was, to);
    UnpackStart(fields, d);
    var i := 0;
    while i < |fields|
      invariant i <= |fields| && UnpackTodo(fields, fields[i..], d, readed, done)
      invariant written == |done| <= size && buffer[..] == Put(was, to, done)
    {
      var todo := fields[i..];
      UnpackStep(fields, todo, d, readed, done);
      assert data[from + readed..from + readable] == d[readed..];
      ClearedPart(was, to, size, done, SlotSize(todo));
      var s := UnpackField(data, from + readed, readable - readed, buffer, to + written, todo);
      ghost var head := ParseHead(todo, d[readed..]);
      AgreesIs(s, head);
      if !s.Finished? {
        WithinLess(was, to, done, SlotSize(todo), size, buffer[..]);
        AgreesFails(s, head, Parse(fields, d));
        return s;
      }
      PutPut(was, to, done, HeadImage(todo, head.value));
      done := done + HeadImage(todo, head.value);
      readed := readed + s.used;
      if fields[i].kind.NestedStruct? {
        AgreesDone(readed, Parse(fields, d));
        return Finished(readed);
      }
      written := written + CountSize(fields[i]) + Slots(fields[i]) * ElementSize(fields[i]);
      assert todo[1..] == fields[i + 1..];
      i := i + 1;
    }
    assert fields[i..] == [];
    UnpackEnd(fields, d, readed, done);
    AgreesDone(readed, Parse(fields, d));
    return Finished(readed);
  }

  lemma AgreesDone<T>(n: nat, p: Parsed<T>)
    requires p.Got? && p.used == n
    ensures Agrees(Finished(n), p)
  {
  }

  lemma AgreesFails<T, U>(s: Status, h: Parsed<T>, p: Parsed<U>)
    requires Agrees(s, h) && !h.Got? && (h.Missing? <==> p.Missing?) && (h.Rejected? <==> p.Rejected?)
    ensures Agrees(s, p)
  {
  }

  /** The fields `todo` are still to be read, and `done` has been written for the others. */
  ghost predicate UnpackTodo(fields: seq<Field>, todo: seq<Field>, d: seq<Byte>, readed: nat, done: seq<Byte>) {
    && WellFormed(todo) && readed <= |d| && |done| + MemSize(todo) == MemSize(fields)
    && var all, left := Parse(fields, d), Parse(todo, d[readed..]);
    && (all.Missing? <==> left.Missing?) && (all.Rejected? <==> left.Rejected?)
    && (all.Got? ==> all.used == readed + left.used && Image(fields, all.value) == done + Image(todo, left.value))
  }

  lemma UnpackStart(fields: seq<Field>, d: seq<Byte>)
    requires WellFormed(fields)
    ensures UnpackTodo(fields, fields[0..], d, 0, [])
  {
    assert fields[0..] == fields && d[0..] == d;
  }

  lemma UnpackEnd(fields: seq<Field>, d: seq<Byte>, readed: nat, done: seq<Byte>)
    requires UnpackTodo(fields, [], d, readed, done)
    ensures Parse(fields, d).Got? && Parse(fields, d).used == readed && Image(fields, Parse(fields, d).value) == done
  {
  }

  /** One more field, and the end of the loop at a nested struct. */
  lemma UnpackStep(fields: seq<Field>, todo: seq<Field>, d: seq<Byte>, readed: nat, done: seq<Byte>)
    requires todo != [] && UnpackTodo(fields, todo, d, readed, done)
    ensures |done| + SlotSize(todo) <= MemSize(fields)
    ensures var h, all := ParseHead(todo, d[readed..]), Parse(fields, d);
      !h.Got? ==> !all.Got? && (h.Missing? <==> all.Missing?) && (h.Rejected? <==> all.Rejected?)
    ensures var h, all := ParseHead(todo, d[readed..]), Parse(fields, d); h.Got? ==>
      var next := done + HeadImage(todo, h.value);
      && (!todo[0].kind.NestedStruct? ==> UnpackTodo(fields, todo[1..], d, readed + h.used, next))
      && (todo[0].kind.NestedStruct? ==>
        all.Got? && all.used == readed + h.used && Image(fields, all.value) == next)
  {
    hide *;
    TodoIs(fields, todo, d, readed, done);
    var left := d[readed..];
    var h := ParseHead(todo, left);
    ParseSteps(todo, left);
    RestIs(todo);
    if h.Got? {
      assert left[h.used..] == d[readed + h.used..];
      var rest := Parse(Rest(todo), d[readed + h.used..]);
      var next := done + HeadImage(todo, h.value);
      if rest.Got? {
        var t := Image(Rest(todo), rest.value);
        assert done + (HeadImage(todo, h.value) + t) == next + t;
      }
      if todo[0].kind.NestedStruct? {
        ParseNothing(d[readed + h.used..]);
        assert rest.Got? ==> next + [] == next;
      } else {
        TodoMake(fields, todo[1..], d, readed + h.used, next);
      }
    }
  }

  lemma TodoIs(fields: seq<Field>, todo: seq<Field>, d: seq<Byte>, readed: nat, done: seq<Byte>)
    requires UnpackTodo(fields, todo, d, readed, done)
    ensures WellFormed(todo) && readed <= |d| && |done| + MemSize(todo) == MemSize(fields)
    ensures var all, left := Parse(fields, d), Parse(todo, d[readed..]);
      && (all.Missing? <==> left.Missing?) && (all.Rejected? <==> left.Rejected?)
      && (all.Got? ==> all.used == readed + left.used && Image(fields, all.value) == done + Image(todo, left.value))
  {
  }

  lemma TodoMake(fields: seq<Field>, todo: seq<Field>, d: seq<Byte>, readed: nat, done: seq<Byte>)
    requires WellFormed(todo) && readed <= |d| && |done| + MemSize(todo) == MemSize(fields)
    requires var all, left := Parse(fields, d), Parse(todo, d[readed..]);
      && (all.Missing? <==> left.Missing?) && (all.Rejected? <==> left.Rejected?)
      && (all.Got? ==> all.used == readed + left.used && Image(fields, all.value) == done + Image(todo, left.value))
    ensures UnpackTodo(fields, todo, d, readed, done)
  {
    hide Parse, Image, MemSize, WellFormed, Valid;
  }

  lemma ParseNothing(d: seq<Byte>)
    ensures Parse([], d) == Got([], 0) && Image([], []) == []
  {
  }

  lemma RestIs(fields: seq<Field>)
    requires fields != [] && WellFormed(fields)
    ensures MemSize(fields) == SlotSize(fields) + MemSize(Rest(fields)) && MemSize([]) == 0
    ensures fields[0].kind.NestedStruct? ==> Rest(fields) == []
    ensures !fields[0].kind.NestedStruct? ==> Rest(fields) == fields[1..] && WellFormed(fields[1..])
  {
  }

  lemma ParseSteps(fields: seq<Field>, d: seq<Byte>)
    requires fields != []
    ensures var h, all := ParseHead(fields, d), Parse(fields, d);
      !h.Got? ==> !all.Got? && (h.Missing? <==> all.Missing?) && (h.Rejected? <==> all.Rejected?)
    ensures var h, all := ParseHead(fields, d), Parse(fields, d); h.Got? ==>
      var rest := Parse(Rest(fields), d[h.used..]);
      && h.used <= |d| && PartOk(fields, h.value)
      && (rest.Missing? <==> all.Missing?) && (rest.Rejected? <==> all.Rejected?)
      && (all.Got? ==> all.used == h.used + rest.used)
      && (all.Got? ==> Image(fields, all.value) == HeadImage(fields, h.value) + Image(Rest(fields), rest.value))
  {
    hide ParseHead, HeadImage, PartOk, Rest;
    var h, all := ParseHead(fields, d), Parse(fields, d);
    if all.Got? {
      assert all.value[1..] == Parse(Rest(fields), d[h.used..]).value;
    }
  }
}
