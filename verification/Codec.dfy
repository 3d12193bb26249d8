/**
  `pack` and `unpack` of code/client/network.c: one loop over the fields each, with
  byte offsets in place of pointers.
*/
module Codec {
  import opened Bytes
  import opened WireFormat
  import opened WireLayout

  /** `Short` is the source's -1; `Aborted` is a failed assert. */
  datatype Status = Finished(used: nat) | Short | Aborted

  /** How far into memory packing may read. */
  function Reach(fields: seq<Field>): nat
    decreases |fields|
  {
    if fields == [] then 0
    else if fields[0].kind.NestedStruct? then 4 + Span(fields[0].param, fields[0].size) + Elem(fields)
    else SlotSize(fields) + Reach(Rest(fields))
  }

  predicate HeadFits(fields: seq<Field>, mem: seq<Byte>, room: nat)
    requires fields != []
  {
    var p := HeadView(fields, mem);
    PartOk(fields, p) && |HeadWire(fields, p)| <= room
  }

  predicate Fits(fields: seq<Field>, mem: seq<Byte>, room: nat) {
    Valid(fields, View(fields, mem)) && |Wire(fields, View(fields, mem))| <= room
  }

  lemma FitsSteps(fields: seq<Field>, mem: seq<Byte>, room: nat)
    requires fields != []
    ensures Fits(fields, mem, room) ==> HeadFits(fields, mem, room)
    ensures HeadFits(fields, mem, room) ==>
      var w := HeadWire(fields, HeadView(fields, mem));
      var mem' := Drop(mem, SlotSize(fields));
      && (Fits(fields, mem, room) <==> Fits(Rest(fields), mem', room - |w|))
      && (Fits(fields, mem, room) ==>
        Wire(fields, View(fields, mem)) == w + Wire(Rest(fields), View(Rest(fields), mem')))
    ensures Fits(fields, mem, room) ==> Valid(fields, View(fields, mem))
    ensures Valid(fields, View(fields, mem)) ==>
      PartOk(fields, HeadView(fields, mem)) && Valid(Rest(fields), View(Rest(fields), Drop(mem, SlotSize(fields))))
  {
    hide HeadView, PartOk, HeadWire, SlotSize;
    var msg := View(fields, mem);
    assert msg[1..] == View(Rest(fields), Drop(mem, SlotSize(fields)));
  }

  // ---------- Writes into a buffer ----------

  /** `b` with `s` written over it from `at` on. */
  function Put(b: seq<Byte>, at: nat, s: seq<Byte>): (r: seq<Byte>)
    requires at + |s| <= |b|
    ensures |r| == |b|
  {
    b[..at] + s + b[at + |s|..]
  }

  /** The two buffers differ in `n` bytes from `at` on, at most. */
  predicate Within(a: seq<Byte>, b: seq<Byte>, at: nat, n: nat) {
    |a| == |b| && at + n <= |a| && a[..at] == b[..at] && a[at + n..] == b[at + n..]
  }

  lemma PutPut(b: seq<Byte>, at: nat, s: seq<Byte>, t: seq<Byte>)
    requires at + |s| + |t| <= |b|
    ensures Put(Put(b, at, s), at + |s|, t) == Put(b, at, s + t)
  {
  }

  lemma PutWithin(a: seq<Byte>, at: nat, s: seq<Byte>, n: nat, b: seq<Byte>)
    requires at + n <= |a| && |s| <= n
    requires Within(Put(a, at, s), b, at + |s|, n - |s|)
    ensures Within(a, b, at, n)
  {
    var m := Put(a, at, s);
    assert a[..at] == m[..at + |s|][..at] == b[..at];
    assert a[at + n..] == m[at + n..];
  }

  lemma PutNothing(b: seq<Byte>, at: nat)
    requires at <= |b|
    ensures Put(b, at, []) == b
  {
  }

  /** memcpy between two arrays. */
  method Copy(src: array<Byte>, from: nat, dst: array<Byte>, to: nat, n: nat)
    requires src != dst && from + n <= src.Length && to + n <= dst.Length
    modifies dst
    ensures dst[..] == Put(old(dst[..]), to, src[from..from + n])
  {
    for i := 0 to n
      invariant dst[to..to + i] == src[from..from + i]
      invariant dst[..to] == old(dst[..to]) && dst[to + i..] == old(dst[to + i..])
    {
      dst[to + i] := src[from + i];
    }
  }

  /** `unicode16_len`. */
  method TextLen(mem: array<Byte>, from: nat, n: nat) returns (r: nat)
    requires from + 2 * n <= mem.Length
    ensures r == TextLength(mem[from..], n) <= n
    ensures forall i :: 0 <= i < r ==> mem[from + 2 * i] != 0 || mem[from + 2 * i + 1] != 0
    ensures r < n ==> mem[from + 2 * r] == 0 && mem[from + 2 * r + 1] == 0
  {
    r := 0;
    while r < n
      invariant r <= n && forall i :: 0 <= i < r ==> Unit(mem[from..], i)
      invariant forall i :: 0 <= i < r ==> mem[from + 2 * i] != 0 || mem[from + 2 * i + 1] != 0
    {
      if mem[from + 2 * r] == 0 && mem[from + 2 * r + 1] == 0 {
        break;
      }
      r := r + 1;
    }
    TextLengthIs(mem[from..], n, r);
  }

  function ReachHead(fields: seq<Field>): nat
    requires fields != []
  {
    if fields[0].kind.NestedStruct? then Reach(fields) else SlotSize(fields)
  }

  /** The count in front of the elements, as it is written. */
  method PackCount(data: array<Byte>, from: nat, buffer: array<Byte>, to: nat, room: nat, f: Field)
    returns (count: nat, r: Status)
    requires data != buffer && to + room <= buffer.Length
    requires from + CountSize(f) <= data.Length && (f.kind.String16? ==> from + 2 * f.param <= data.Length)
    modifies buffer
    ensures r.Finished? <==> PrefixSize(f.kind) <= room && CountOk(f, HeldCount(f, data[from..]))
    ensures r.Finished? ==> count == HeldCount(f, data[from..]) && r.used == PrefixSize(f.kind)
    ensures r.Finished? ==> buffer[..] == Put(old(buffer[..]), to, Prefix(f, count))
    ensures r == Aborted ==> !CountOk(f, HeldCount(f, data[from..]))
    ensures !r.Finished? ==> Within(old(buffer[..]), buffer[..], to, room)
  {
    count := 1;
    var p := PrefixSize(f.kind);
    if p != 0 {
      if room < p { return count, Short; }
      if f.kind.String16? {
        count := TextLen(data, from, f.param);
      } else {
        count := Le32(data[from..from + 4]);
        assert Cut(data[from..], 0, 4) == data[from..from + 4];
      }
      if count > f.param { return count, Aborted; }
      if p == 1 {
        if count > 0xFF { return count, Aborted; }
        buffer[to] := count;
      } else {
        if count > 0xFFFF { return count, Aborted; }
        buffer[to], buffer[to + 1] := count % 0x100, count / 0x100;
      }
    }
    return count, Finished(p);
  }

  lemma {:induction false} GatherLast(mem: seq<Byte>, from: nat, s: nat, e: nat, n: nat)
    ensures Gather(mem, from, s, e, n + 1) == Gather(mem, from, s, e, n) + Cut(mem, from + Span(n, s), e)
    decreases n
  {
    SpanSteps(0, s);
    if n > 0 {
      SpanSteps(n - 1, s);
      GatherLast(mem, from + s, s, e, n - 1);
    }
  }

  lemma {:induction false} FixedReach(fields: seq<Field>)
    requires AllFixed(fields)
    ensures Reach(fields) == FixedSize(fields)
  {
    if fields != [] {
      FixedHead(fields, []);
      FixedReach(fields[1..]);
    }
  }

  lemma FixedFits(fields: seq<Field>, mem: seq<Byte>, room: nat)
    requires AllFixed(fields)
    ensures Fits(fields, mem, room) <==> FixedSize(fields) <= room
    ensures Valid(fields, View(fields, mem))
    ensures Wire(fields, View(fields, mem)) == Cut(mem, 0, FixedSize(fields))
  {
    FixedView(fields, mem);
  }

  lemma CutTail(mem: seq<Byte>, from: nat, n: nat)
    ensures Cut(mem, from, n) == Cut(Drop(mem, from), 0, n)
  {
    assert forall i :: 0 <= i < n ==> At(mem, from + i) == At(Drop(mem, from), i);
  }

  /** One element of a nested struct, which packs to its own bytes. */
  method PackElement(data: array<Byte>, from: nat, buffer: array<Byte>, to: nat, room: nat, inner: seq<Field>)
    returns (r: Status)
    requires data != buffer && to + room <= buffer.Length
    requires AllFixed(inner) && from + FixedSize(inner) <= data.Length
    modifies buffer
    ensures r == if FixedSize(inner) <= room then Finished(FixedSize(inner)) else Short
    ensures r.Finished? ==> buffer[..] == Put(old(buffer[..]), to, Cut(data[from..], 0, FixedSize(inner)))
    ensures !r.Finished? ==> Within(old(buffer[..]), buffer[..], to, room)
    decreases |inner|, 4
  {
    hide *;
    FixedWellFormed(inner);
    FixedReach(inner);
    FixedFits(inner, data[from..], room);
    r := Pack(data, from, buffer, to, room, inner);
  }

  /** The elements of the nested struct `fields[0]`, packed one by one. */
  method PackElements(data: array<Byte>, from: nat, buffer: array<Byte>, to: nat, room: nat,
                      fields: seq<Field>, count: nat)
    returns (r: Status)
    requires data != buffer && to + room <= buffer.Length
    requires |fields| > 0 && fields[0].kind.NestedStruct? && AllFixed(fields[1..])
    requires from + Span(count, fields[0].size) + Elem(fields) <= data.Length
    modifies buffer
    ensures r.Finished? <==> Span(count, Elem(fields)) <= room
    ensures r.Finished? ==> r.used == Span(count, Elem(fields))
    ensures r.Finished? ==>
      buffer[..] == Put(old(buffer[..]), to, Gather(data[from..], 0, fields[0].size, Elem(fields), count))
    ensures !r.Aborted?
    ensures !r.Finished? ==> Within(old(buffer[..]), buffer[..], to, room)
    decreases |fields|, 0
  {
    hide *;
    var size, inner := fields[0].size, fields[1..];
    ghost var e, mem, was := FixedSize(inner), data[from..], buffer[..];
    NestedElem(fields);
    ghost var done := [];
    GatherStart(mem, size, e);
    PutNothing(was, to);
    var readed: nat, written: nat := 0, 0;
    for j := 0 to count
      invariant readed == Span(j, size) && written == Span(j, e) == |done| <= room
      invariant done == Gather(mem, 0, size, e, j)
      invariant buffer[..] == Put(was, to, done)
    {
      SpanSteps(j, size);
      SpanSteps(j, e);
      SpanMonotone(j + 1, count, size);
      SpanMonotone(j + 1, count, e);
      ghost var elem := Cut(data[from + readed..], 0, e);
      assert data[from + readed..] == Drop(mem, readed) by { DropSlice(data[..], from, readed); }
      CutTail(mem, readed, e);
      GatherLast(mem, 0, size, e, j);
      var tmp := PackElement(data, from + readed, buffer, to + written, room - written, inner);
      if !tmp.Finished? {
        PutWithin(was, to, done, room, buffer[..]);
        return tmp;
      }
      PutPut(was, to, done, elem);
      done := done + elem;
      written := written + tmp.used;
      readed := readed + size;
    }
    return Finished(written);
  }

  lemma NestedElem(fields: seq<Field>)
    requires fields != [] && fields[0].kind.NestedStruct?
    ensures Elem(fields) == FixedSize(fields[1..])
  {
  }

  lemma GatherStart(mem: seq<Byte>, s: nat, e: nat)
    ensures Gather(mem, 0, s, e, 0) == [] && Span(0, s) == 0 && Span(0, e) == 0
  {
  }

  lemma DropSlice(mem: seq<Byte>, from: nat, n: nat)
    requires from + n <= |mem|
    ensures Drop(mem[from..], n) == mem[from + n..]
  {
  }

  /** The elements of any field, after its count. */
  method PackItems(data: array<Byte>, from: nat, buffer: array<Byte>, to: nat, room: nat,
                   fields: seq<Field>, count: nat)
    returns (r: Status)
    requires data != buffer && to + room <= buffer.Length
    requires fields != [] && WellFormed(fields) && count <= Slots(fields[0])
    requires from <= data.Length && from + ReachHead(fields) <= data.Length + CountSize(fields[0])
    modifies buffer
    ensures var n := Span(count, Elem(fields)); r == if n <= room then Finished(n) else Short
    ensures r.Finished? ==>
      buffer[..] == Put(old(buffer[..]), to, Gather(data[from..], 0, Stride(fields), Elem(fields), count))
    ensures !r.Finished? ==> Within(old(buffer[..]), buffer[..], to, room)
    decreases |fields|, 1
  {
    hide *;
    var f := fields[0];
    ItemsIs(fields, count, data[from..]);
    if f.kind.NestedStruct? {
      r := PackElements(data, from, buffer, to, room, fields, count);
    } else {
      var n := ElementSize(f) * count;
      if room < n {
        WithinSame(buffer[..], to, room);
        return Short;
      }
      Copy(data, from, buffer, to, n);
      CutInside(data[from..], n);
      assert data[from..][..n] == data[from..from + n];
      r := Finished(n);
    }
  }

  lemma CutInside(mem: seq<Byte>, n: nat)
    requires n <= |mem|
    ensures Cut(mem, 0, n) == mem[..n]
  {
    forall i | 0 <= i < n
      ensures Cut(mem, 0, n)[i] == mem[..n][i]
    {
    }
  }

  lemma ItemsIs(fields: seq<Field>, count: nat, mem: seq<Byte>)
    requires fields != [] && WellFormed(fields) && count <= Slots(fields[0])
    ensures var f, e := fields[0], Elem(fields); f.kind.NestedStruct? ==>
      && AllFixed(fields[1..]) && Stride(fields) == f.size
      && Span(count, f.size) + e + CountSize(f) <= ReachHead(fields)
    ensures var f, e := fields[0], Elem(fields); !f.kind.NestedStruct? ==>
      && Span(count, e) == ElementSize(f) * count && CountSize(f) + Span(count, e) <= ReachHead(fields)
      && Gather(mem, 0, Stride(fields), e, count) == Cut(mem, 0, Span(count, e))
  {
    var f := fields[0];
    SpanMonotone(count, Slots(f), Elem(fields));
    SpanMonotone(count, Slots(f), f.size);
    if !f.kind.NestedStruct? {
      GatherAll(mem, 0, Stride(fields), Elem(fields), count);
    }
  }

  lemma WithinSame(b: seq<Byte>, at: nat, n: nat)
    requires at + n <= |b|
    ensures Within(b, b, at, n)
  {
  }

  /** One field, with the struct elements that follow it when it is nested. */
  method PackField(data: array<Byte>, from: nat, buffer: array<Byte>, to: nat, room: nat, fields: seq<Field>)
    returns (r: Status)
    requires data != buffer && to + room <= buffer.Length
    requires fields != [] && WellFormed(fields) && from + ReachHead(fields) <= data.Length
    modifies buffer
    ensures r.Finished? <==> HeadFits(fields, data[from..], room)
    ensures r.Finished? ==> r.used == |HeadWire(fields, HeadView(fields, data[from..]))|
    ensures r.Finished? ==> buffer[..] == Put(old(buffer[..]), to, HeadWire(fields, HeadView(fields, data[from..])))
    ensures r.Aborted? ==> !PartOk(fields, HeadView(fields, data[from..]))
    ensures !r.Finished? ==> Within(old(buffer[..]), buffer[..], to, room)
    decreases |fields|, 2
  {
    hide *;
    var f := fields[0];
    ghost var mem, was := data[from..], buffer[..];
    ReachCount(fields);
    var count, c := PackCount(data, from, buffer, to, room, f);
    HeadFitsIs(fields, mem, room);
    if !c.Finished? { return c; }
    ghost var prefix := Prefix(f, count);
    DropSlice(data[..], from, CountSize(f));
    assert data[from..] == data[..][from..] && data[from + CountSize(f)..] == data[..][from + CountSize(f)..];
    var s := PackItems(data, from + CountSize(f), buffer, to + c.used, room - c.used, fields, count);
    if !s.Finished? {
      PutWithin(was, to, prefix, room, buffer[..]);
      return s;
    }
    ghost var bytes := Gather(Drop(mem, CountSize(f)), 0, Stride(fields), Elem(fields), count);
    PutPut(was, to, prefix, bytes);
    return Finished(c.used + s.used);
  }

  lemma ReachCount(fields: seq<Field>)
    requires fields != [] && WellFormed(fields)
    ensures CountSize(fields[0]) <= ReachHead(fields)
    ensures fields[0].kind.String16? ==> 2 * fields[0].param <= ReachHead(fields)
  {
  }

  lemma ReachHeadIs(fields: seq<Field>)
    requires fields != [] && WellFormed(fields)
    ensures ReachHead(fields) <= Reach(fields)
    ensures !fields[0].kind.NestedStruct? ==>
      && ReachHead(fields) == SlotSize(fields) && Reach(fields) == SlotSize(fields) + Reach(fields[1..])
      && Rest(fields) == fields[1..] && WellFormed(fields[1..])
    ensures var f := fields[0]; f.kind.NestedStruct? ==>
      AllFixed(fields[1..]) && Rest(fields) == [] && ReachHead(fields) == 4 + Span(f.param, f.size) + Elem(fields)
  {
  }

  /** What packing the first field comes down to, in the order the bytes are written. */
  lemma HeadFitsIs(fields: seq<Field>, mem: seq<Byte>, room: nat)
    requires fields != []
    ensures var f, e := fields[0], Elem(fields);
      var n := HeldCount(f, mem);
      var bytes := Gather(Drop(mem, CountSize(f)), 0, Stride(fields), e, n);
      && (CountOk(f, n) ==> n <= Slots(f))
      && (CountOk(f, n) ==> HeadWire(fields, HeadView(fields, mem)) == Prefix(f, n) + bytes)
      && (PartOk(fields, HeadView(fields, mem)) <==> CountOk(f, n))
      && (HeadFits(fields, mem, room) <==> CountOk(f, n) && PrefixSize(f.kind) + Span(n, e) <= room)
  {
    var f := fields[0];
    GatherShift(mem, CountSize(f), Stride(fields), Elem(fields), HeldCount(f, mem));
  }

  lemma {:induction false} GatherShift(mem: seq<Byte>, from: nat, s: nat, e: nat, n: nat)
    ensures Gather(mem, from, s, e, n) == Gather(Drop(mem, from), 0, s, e, n)
    decreases n
  {
    if n > 0 {
      GatherShift(mem, from + s, s, e, n - 1);
      GatherShift(Drop(mem, from), s, s, e, n - 1);
      CutTail(mem, from, e);
      assert Drop(mem, from + s) == Drop(Drop(mem, from), s);
    }
  }

  /** `pack`: succeeds exactly when the counts and the buffer allow it, and writes the wire form. */
  method Pack(data: array<Byte>, from: nat, buffer: array<Byte>, to: nat, room: nat, fields: seq<Field>)
    returns (r: Status)
    requires data != buffer && to + room <= buffer.Length
    requires WellFormed(fields) && from + Reach(fields) <= data.Length
    modifies buffer
    ensures r.Finished? <==> Fits(fields, data[from..], room)
    ensures r.Finished? ==> r.used == |Wire(fields, View(fields, data[from..]))|
    ensures r.Finished? ==> buffer[..] == Put(old(buffer[..]), to, Wire(fields, View(fields, data[from..])))
    ensures r.Aborted? ==> !Valid(fields, View(fields, data[from..]))
    ensures !r.Finished? ==> Within(old(buffer[..]), buffer[..], to, room)
    decreases |fields|, 3
  {
    hide Put, Within, WellFormed, Fits, HeadWire, HeadView, Wire, View, Valid, PartOk, Reach, ReachHead;
    ghost var mem, was := data[from..], buffer[..];
    var readed: nat, written: nat := 0, 0;
    ghost var done: seq<Byte> := [];
    PutNothing(was, to);
    PackStart(fields, mem, room);
    var i := 0;
    while i < |fields|
      invariant i <= |fields| && written == |done| <= room && buffer[..] == Put(was, to, done)
      invariant PackTodo(fields, fields[i..], mem, readed, room, done)
    {
      var todo := fields[i..];
      PackStep(fields, todo, mem, readed, room, done);
      assert data[from + readed..] == Drop(mem, readed);
      var s := PackField(data, from + readed, buffer, to + written, room - written, todo);
      if !s.Finished? {
        PutWithin(was, to, done, room, buffer[..]);
        return s;
      }
      ghost var more := HeadWire(todo, HeadView(todo, Drop(mem, readed)));
      PutPut(was, to, done, more);
      done := done + more;
      written := written + s.used;
      if fields[i].kind.NestedStruct? {
        return Finished(written);
      }
      readed := readed + CountSize(fields[i]) + Slots(fields[i]) * ElementSize(fields[i]);
      assert todo[1..] == fields[i + 1..];
      i := i + 1;
    }
    assert fields[i..] == [];
    PackEnd(fields, mem, readed, room, done);
    return Finished(written);
  }

  /** The fields `todo` remain, and `done` has been written for the others. */
  ghost predicate PackTodo(fields: seq<Field>, todo: seq<Field>, mem: seq<Byte>,
                           readed: nat, room: nat, done: seq<Byte>) {
    var left := Drop(mem, readed);
    && WellFormed(todo) && readed + Reach(todo) <= |mem| && |done| <= room
    && (Valid(fields, View(fields, mem)) ==> Valid(todo, View(todo, left)))
    && (Fits(fields, mem, room) <==> Fits(todo, left, room - |done|))
    && (Fits(fields, mem, room) ==> Wire(fields, View(fields, mem)) == done + Wire(todo, View(todo, left)))
  }

  lemma PackStart(fields: seq<Field>, mem: seq<Byte>, room: nat)
    requires WellFormed(fields) && Reach(fields) <= |mem|
    ensures PackTodo(fields, fields[0..], mem, 0, room, [])
  {
    assert fields[0..] == fields && Drop(mem, 0) == mem;
  }

  lemma PackEnd(fields: seq<Field>, mem: seq<Byte>, readed: nat, room: nat, done: seq<Byte>)
    requires PackTodo(fields, [], mem, readed, room, done)
    ensures Fits(fields, mem, room) && Wire(fields, View(fields, mem)) == done
  {
    assert View([], Drop(mem, readed)) == [];
  }

  /** One more field, and the end of the loop at a nested struct. */
  lemma PackStep(fields: seq<Field>, todo: seq<Field>, mem: seq<Byte>, readed: nat, room: nat, done: seq<Byte>)
    requires todo != [] && PackTodo(fields, todo, mem, readed, room, done)
    ensures readed + ReachHead(todo) <= |mem|
    ensures var left := Drop(mem, readed);
      && (!HeadFits(todo, left, room - |done|) ==> !Fits(fields, mem, room))
      && (!PartOk(todo, HeadView(todo, left)) ==> !Valid(fields, View(fields, mem)))
    ensures var left := Drop(mem, readed); HeadFits(todo, left, room - |done|) ==>
      var next := done + HeadWire(todo, HeadView(todo, left));
      && (todo[0].kind.NestedStruct? ==> Fits(fields, mem, room) && Wire(fields, View(fields, mem)) == next)
      && (!todo[0].kind.NestedStruct? ==>
        PackTodo(fields, todo[1..], mem, readed + SlotSize(todo), room, next))
  {
    hide HeadView, HeadWire, SlotSize, Fits, Valid, View, Wire, WellFormed, Reach, PartOk, ReachHead, Drop, Rest, Elem;
    var left := Drop(mem, readed);
    FitsSteps(todo, left, room - |done|);
    ReachHeadIs(todo);
    FitsNothing(Drop(left, SlotSize(todo)), room);
    DropDrop(mem, readed, SlotSize(todo));
    if HeadFits(todo, left, room - |done|) {
      var w := HeadWire(todo, HeadView(todo, left));
      var rest := Rest(todo);
      if Fits(fields, mem, room) {
        var t := Wire(rest, View(rest, Drop(left, SlotSize(todo))));
        assert done + (w + t) == (done + w) + t;
      }
    }
  }

  lemma DropDrop(mem: seq<Byte>, n: nat, m: nat)
    ensures Drop(Drop(mem, n), m) == Drop(mem, n + m)
  {
  }

  lemma FitsNothing(mem: seq<Byte>, room: nat)
    ensures forall n {:trigger Fits([], mem, n)} :: Fits([], mem, n)
    ensures Wire([], View([], mem)) == []
  {
  }
}
