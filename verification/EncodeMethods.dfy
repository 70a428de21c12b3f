/** The encoder as it runs, on a stream that writes or only counts (pb_encode.c). */
module EncodeMethods {
  import opened Wire
  import opened Varint
  import opened Schema
  import opened Encoder
  import opened OutputStream
  import Iterator
  import Scalars

  // ---- Structures as the C types allow them ----------------------------------------------

  /**
   Numbers are in the range of their C type; text is at most as long as its buffer (it need
   not leave room for the NUL) and stops at the first NUL.  The size of a submessage is
   one that size_t can count.
   */
  ghost predicate TypedValue(f: Field, v: Value)
    decreases f, 0
  {
    match f.ltype
    case SubMessage(t) => v.Msg? && Typed(t, v.slots) && |EncodeMessage(t, v.slots).out| < TWO_64
    case Extension => false
    case Bytes => v.Blob? && |v.bytes| <= 255
    case String => v.Blob? && |v.bytes| <= f.dataSize && 0 !in v.bytes
    case FixedLengthBytes => v.Blob? && |v.bytes| == f.dataSize
    case Fixed32 => v.Num? && 0 <= v.n < TWO_32
    case Fixed64 => v.Num? && 0 <= v.n < TWO_64
    case _ => v.Num? && (WordSize(f.dataSize) ==> Scalars.InRange(f.ltype, f.dataSize, v.n))
  }

  predicate Payloads32(emit: Emitter) {
    emit.Records? ==> forall j :: 0 <= j < |emit.payloads| ==> |emit.payloads[j]| < TWO_32
  }

  ghost predicate TypedSlot(f: Field, s: Slot)
    decreases f, 1
  {
    && f.tag <= 255 && f.dataSize <= 255 && Iterator.SizePrecedes(f)
    && match f.atype
       case Pointer => false
       case Callback => s.Hook? && !f.ltype.Extension? && Payloads32(s.emit)
       case Static =>
         match f.htype
         case Required => s.Single? && TypedValue(f, s.value)
         case Optional =>
           if Singular(f) then s.Single? && (ImplicitlyAbsent(f, s.value) || TypedValue(f, s.value))
           else s.Maybe? && (s.has ==> TypedValue(f, s.value))
         case Repeated => s.Many? && |s.items| <= 255 && forall j :: 0 <= j < |s.items| ==> TypedValue(f, s.items[j])
         case Oneof => false
  }

  ghost predicate Typed(t: seq<Field>, m: seq<Slot>)
    decreases t
  {
    |m| == |t| && forall i :: 0 <= i < |t| ==> !t[i].htype.Oneof? && TypedSlot(t[i], m[i])
  }

  lemma {:induction false} TypedHasLayout(t: seq<Field>, m: seq<Slot>)
    requires Typed(t, m)
    ensures Iterator.Describes(t, Iterator.Layout(t, |t|))
  {
    Iterator.LayoutIsDescribed(t, |t|);
    assert t[..|t|] == t;
  }

  // ---- Scalars, bytes, text ----------------------------------------------------------------

  /** pb_encode_tag_for_field */
  method EncodeTagForField(stream: OStream, f: Field) returns (ok: bool)
    requires stream.Valid() && f.tag <= 255
    modifies stream, stream.buf
    ensures stream.Valid()
    ensures Extends(old(stream.Now()), stream.Now(), TagForField(f), ok)
  {
    var wireType;
    match f.ltype {
      case Varint => wireType := 0;
      case UVarint => wireType := 0;
      case SVarint => wireType := 0;
      case Fixed32 => wireType := 5;
      case Fixed64 => wireType := 1;
      case Extension =>
        Unchanged(stream.Now(), false);
        return false;
      case _ => wireType := 2;
    }
    ok := stream.EncodeTag(wireType, f.tag);
  }

  /** What the scalar encoders write, in terms of the stream functions. */
  lemma {:induction false} NumberAsWritten(f: Field, v: Value)
    requires Packable(f.ltype) && TypedValue(f, v)
    ensures EncodeNumber(f, v) ==
            match f.ltype
            case Fixed32 => Encoder.Write(Scalars.LittleEndian(v.n, 4))
            case Fixed64 => Encoder.Write(Scalars.LittleEndian(v.n, 8))
            case SVarint => if WordSize(f.dataSize) then Encoder.Write(EncodeVarint(Scalars.ZigZag(v.n) % TWO_64)) else FAILED
            case _ => if WordSize(f.dataSize) then Encoder.Write(EncodeVarint(v.n % TWO_64)) else FAILED
    ensures f.ltype.SVarint? && WordSize(f.dataSize) ==> -(TWO_64 / 2) <= v.n < TWO_64 / 2
  {
    if f.ltype.Fixed32? { ModSmall(v.n, TWO_32); }
    if f.ltype.Fixed64? { ModSmall(v.n, TWO_64); }
  }

  /** The scalar entries of PB_ENCODERS. */
  method EncNumber(stream: OStream, f: Field, v: Value) returns (ok: bool)
    requires stream.Valid() && Packable(f.ltype) && TypedValue(f, v)
    modifies stream, stream.buf
    ensures stream.Valid()
    ensures Extends(old(stream.Now()), stream.Now(), EncodeNumber(f, v), ok)
  {
    NumberAsWritten(f, v);
    if f.ltype.Fixed32? {
      ok := stream.EncodeFixed32(v.n);
    } else if f.ltype.Fixed64? {
      ok := stream.EncodeFixed64(v.n);
    } else if !WordSize(f.dataSize) {
      Unchanged(stream.Now(), false);
      ok := false;
    } else if f.ltype.SVarint? {
      ok := stream.EncodeSvarint(v.n);
    } else {
      ok := stream.EncodeVarint(v.n % TWO_64);
    }
  }

  /** pb_enc_bytes */
  method EncBytes(stream: OStream, f: Field, v: Value) returns (ok: bool)
    requires stream.Valid() && (f.ltype.Bytes? || f.ltype.FixedLengthBytes?) && TypedValue(f, v) && f.dataSize <= 255
    modifies stream, stream.buf
    ensures stream.Valid()
    ensures Extends(old(stream.Now()), stream.Now(), EncodeValue(f, v), ok)
  {
    if f.ltype.Bytes? && |v.bytes| + 1 > f.dataSize {
      Unchanged(stream.Now(), false);
      return false;
    }
    ok := stream.EncodeString(v.bytes);
  }

  /** pb_enc_string: the length is found by looking for the NUL. */
  method EncString(stream: OStream, f: Field, v: Value) returns (ok: bool)
    requires stream.Valid() && f.ltype.String? && TypedValue(f, v) && f.dataSize <= 255
    modifies stream, stream.buf
    ensures stream.Valid()
    ensures Extends(old(stream.Now()), stream.Now(), EncodeValue(f, v), ok)
  {
    var memory := v.bytes + seq(f.dataSize - |v.bytes|, _ => 0);
    var size := 0;
    while size < f.dataSize && memory[size] != 0
      invariant 0 <= size <= |v.bytes|
    {
      size := size + 1;
    }
    assert memory[..size] == v.bytes;
    ok := stream.EncodeString(memory[..size]);
  }

  // ---- Submessages -------------------------------------------------------------------------

  /** The body of a submessage behind its length, in a substream of exactly that length. */
  method WriteSubmessage(stream: OStream, t: seq<Field>, m: seq<Slot>, size: nat) returns (ok: bool)
    requires stream.Valid() && !stream.sizing && Typed(t, m)
    requires EncodeMessage(t, m).ok && size == |EncodeMessage(t, m).out|
    modifies stream, stream.buf
    ensures stream.Valid()
    ensures Extends(old(stream.Now()), stream.Now(), Encoder.Write(EncodeMessage(t, m).out), ok)
    decreases t, 2
  {
    if stream.bytesWritten + size > stream.maxSize {
      Unchanged(stream.Now(), false);
      return false;
    }
    var sub := new OStream(stream.buf, stream.state, size);
    ok := Encode(sub, t, m);
    stream.bytesWritten := stream.bytesWritten + sub.bytesWritten;
    stream.state := sub.state;
    assert sub.bytesWritten == size;   // "submsg size changed" does not happen
    ok := ok && sub.bytesWritten == size;
  }

  /** pb_encode_submessage: a sizing pass, and then a writing pass. */
  method EncodeSubmessage(stream: OStream, t: seq<Field>, m: seq<Slot>) returns (ok: bool)
    requires stream.Valid() && Typed(t, m) && |EncodeMessage(t, m).out| < TWO_64
    modifies stream, stream.buf
    ensures stream.Valid()
    ensures var body := EncodeMessage(t, m);
            Extends(old(stream.Now()), stream.Now(),
                    if body.ok then Encoder.Write(EncodeString(body.out)) else FAILED, ok)
    decreases t, 3
  {
    ghost var s0 := stream.Now();
    var substream := new OStream.Sizing();
    ok := Encode(substream, t, m);
    if !ok {
      Unchanged(s0, false);
      return;
    }
    var size := substream.bytesWritten;
    ghost var body := EncodeMessage(t, m).out;
    ghost var length, rest := Encoder.Write(EncodeVarint(|body|)), Encoder.Write(body);
    ok := stream.EncodeVarint(size);
    ghost var s1 := stream.Now();
    if !ok {
      Stop(s0, s1, length, rest);
    } else {
      if stream.sizing {
        stream.Count(size, body);
      } else {
        ok := WriteSubmessage(stream, t, m, size);
      }
      Continue(s0, s1, stream.Now(), length, rest, ok);
    }
  }

  /** PB_ENCODERS[...] */
  method EncValue(stream: OStream, f: Field, v: Value) returns (ok: bool)
    requires stream.Valid() && TypedValue(f, v) && f.dataSize <= 255
    modifies stream, stream.buf
    ensures stream.Valid()
    ensures Extends(old(stream.Now()), stream.Now(), EncodeValue(f, v), ok)
    decreases f, 0
  {
    if f.ltype.SubMessage? {
      ok := EncodeSubmessage(stream, f.ltype.table, v.slots);
    } else if f.ltype.String? {
      ok := EncString(stream, f, v);
    } else if f.ltype.Bytes? || f.ltype.FixedLengthBytes? {
      ok := EncBytes(stream, f, v);
    } else {
      ok := EncNumber(stream, f, v);
    }
  }

  /** The key of a field and its value. */
  method EncodeKeyed(stream: OStream, f: Field, v: Value) returns (ok: bool)
    requires stream.Valid() && TypedValue(f, v) && f.tag <= 255 && f.dataSize <= 255
    modifies stream, stream.buf
    ensures stream.Valid()
    ensures Extends(old(stream.Now()), stream.Now(), Then(TagForField(f), EncodeValue(f, v)), ok)
    decreases f, 1
  {
    ghost var s0 := stream.Now();
    ok := EncodeTagForField(stream, f);
    ghost var s1 := stream.Now();
    if !ok {
      Stop(s0, s1, TagForField(f), EncodeValue(f, v));
      return;
    }
    ok := EncValue(stream, f, v);
    Continue(s0, s1, stream.Now(), TagForField(f), EncodeValue(f, v), ok);
  }

  // ---- Arrays --------------------------------------------------------------------------------

  /** The loop over the elements of a packed array, for both passes. */
  method EncodeItems(stream: OStream, f: Field, items: seq<Value>) returns (ok: bool)
    requires stream.Valid() && Packable(f.ltype) && forall j :: 0 <= j < |items| ==> TypedValue(f, items[j])
    modifies stream, stream.buf
    ensures stream.Valid()
    ensures Extends(old(stream.Now()), stream.Now(), EncodePacked(f, items, 0), ok)
  {
    ghost var s0, whole, done := stream.Now(), EncodePacked(f, items, 0), NOTHING;
    Unchanged(s0, true);
    ThenAssociates(whole, NOTHING, NOTHING);
    var i := 0;
    while i < |items|
      invariant 0 <= i <= |items| && stream.Valid()
      invariant Extends(s0, stream.Now(), done, true)
      invariant Then(done, EncodePacked(f, items, i)) == whole
    {
      ghost var s1, item, rest := stream.Now(), EncodeNumber(f, items[i]), EncodePacked(f, items, i + 1);
      ok := EncNumber(stream, f, items[i]);
      Advance(s0, s1, stream.Now(), done, item, rest, ok);
      done := Then(done, item);
      if !ok {
        return;
      }
      i := i + 1;
    }
    ThenAssociates(done, NOTHING, NOTHING);
    ok := true;
  }

  /** The size of a packed array: computed for the fixed widths, counted for the others. */
  method PackedSize(f: Field, items: seq<Value>) returns (ok: bool, size: nat)
    requires Packable(f.ltype) && |items| <= 255 && forall j :: 0 <= j < |items| ==> TypedValue(f, items[j])
    ensures ok == EncodePacked(f, items, 0).ok
    ensures ok ==> size == |EncodePacked(f, items, 0).out| < TWO_64
  {
    PackedIsSmall(f, items, 0);
    if f.ltype.Fixed32? {
      FixedPacked(f, items, 0);
      return true, 4 * |items|;
    } else if f.ltype.Fixed64? {
      FixedPacked(f, items, 0);
      return true, 8 * |items|;
    }
    var sizestream := new OStream.Sizing();
    ok := EncodeItems(sizestream, f, items);
    size := sizestream.bytesWritten;
  }

  lemma {:induction false} FixedPacked(f: Field, items: seq<Value>, i: nat)
    requires i <= |items| && (f.ltype.Fixed32? || f.ltype.Fixed64?)
    requires forall j :: 0 <= j < |items| ==> TypedValue(f, items[j])
    ensures EncodePacked(f, items, i).ok
    ensures |EncodePacked(f, items, i).out| == (if f.ltype.Fixed32? then 4 else 8) * (|items| - i)
    decreases |items| - i
  {
    if i < |items| {
      assert TypedValue(f, items[i]);
      FixedPacked(f, items, i + 1);
    }
  }

  /** A number takes at most ten bytes. */
  lemma {:induction false} PackedIsSmall(f: Field, items: seq<Value>, i: nat)
    requires i <= |items|
    ensures |EncodePacked(f, items, i).out| <= 10 * (|items| - i)
    decreases |items| - i
  {
    if i < |items| {
      PackedIsSmall(f, items, i + 1);
      if items[i].Num? {
        WidthLengths(items[i].n % TWO_64);
        WidthLengths(Scalars.ZigZag(items[i].n) % TWO_64);
      }
    }
  }

  /** The packed half of encode_array. */
  method EncodePackedArray(stream: OStream, f: Field, items: seq<Value>) returns (ok: bool)
    requires stream.Valid() && Packable(f.ltype) && f.tag <= 255
    requires 0 < |items| <= 255 && |items| <= f.arraySize && forall j :: 0 <= j < |items| ==> TypedValue(f, items[j])
    modifies stream, stream.buf
    ensures stream.Valid()
    ensures Extends(old(stream.Now()), stream.Now(), EncodeArray(f, items), ok)
  {
    ghost var body := EncodePacked(f, items, 0);
    ghost var tag := Encoder.Write(Encoder.EncodeTag(2, f.tag));
    ghost var rest := if body.ok then Encoder.Write(EncodeString(body.out)) else FAILED;
    ghost var s0 := stream.Now();
    ok := stream.EncodeTag(2, f.tag);
    ghost var s1 := stream.Now();
    if !ok {
      Stop(s0, s1, tag, rest);
      return;
    }
    var size;
    ok, size := PackedSize(f, items);
    if !ok {
      Unchanged(s1, false);
      Continue(s0, s1, s1, tag, rest, false);
      return;
    }
    ok := EncodePackedBody(stream, f, items, size);
    Continue(s0, s1, stream.Now(), tag, rest, ok);
  }

  /** The length of a packed array and its elements. */
  method EncodePackedBody(stream: OStream, f: Field, items: seq<Value>, size: nat) returns (ok: bool)
    requires stream.Valid() && Packable(f.ltype) && forall j :: 0 <= j < |items| ==> TypedValue(f, items[j])
    requires EncodePacked(f, items, 0).ok && size == |EncodePacked(f, items, 0).out| < TWO_64
    modifies stream, stream.buf
    ensures stream.Valid()
    ensures Extends(old(stream.Now()), stream.Now(), Encoder.Write(EncodeString(EncodePacked(f, items, 0).out)), ok)
  {
    ghost var body := EncodePacked(f, items, 0);
    ghost var length := Encoder.Write(EncodeVarint(size));
    ghost var s0 := stream.Now();
    ok := stream.EncodeVarint(size);
    ghost var s1 := stream.Now();
    if !ok {
      Stop(s0, s1, length, body);
      return;
    }
    if stream.sizing {
      stream.Count(size, body.out);
    } else {
      ok := EncodeItems(stream, f, items);
    }
    Continue(s0, s1, stream.Now(), length, body, ok);
  }

  /** encode_array */
  method EncArray(stream: OStream, f: Field, items: seq<Value>) returns (ok: bool)
    requires stream.Valid() && f.tag <= 255 && f.dataSize <= 255
    requires |items| <= 255 && forall j :: 0 <= j < |items| ==> TypedValue(f, items[j])
    modifies stream, stream.buf
    ensures stream.Valid()
    ensures Extends(old(stream.Now()), stream.Now(), EncodeArray(f, items), ok)
    decreases f, 2
  {
    ghost var s0, whole, done := stream.Now(), EncodeElements(f, items, 0), NOTHING;
    Unchanged(s0, |items| == 0);
    if |items| == 0 {
      return true;
    }
    if |items| > f.arraySize {
      return false;
    }
    if Packable(f.ltype) {
      ok := EncodePackedArray(stream, f, items);
      return;
    }
    Unchanged(s0, true);
    ThenAssociates(whole, NOTHING, NOTHING);
    var i := 0;
    while i < |items|
      invariant 0 <= i <= |items| && stream.Valid()
      invariant Extends(s0, stream.Now(), done, true)
      invariant Then(done, EncodeElements(f, items, i)) == whole
    {
      ghost var s1, rest := stream.Now(), EncodeElements(f, items, i + 1);
      ghost var item := Then(TagForField(f), EncodeValue(f, items[i]));
      ok := EncodeKeyed(stream, f, items[i]);
      Advance(s0, s1, stream.Now(), done, item, rest, ok);
      done := Then(done, item);
      if !ok {
        return;
      }
      i := i + 1;
    }
    ThenAssociates(done, NOTHING, NOTHING);
    ok := true;
  }

  // ---- Fields and messages ---------------------------------------------------------------------

  /** encode_basic_field */
  method EncodeBasicField(stream: OStream, f: Field, slot: Slot) returns (ok: bool)
    requires stream.Valid() && TypedSlot(f, slot) && f.atype.Static?
    modifies stream, stream.buf
    ensures stream.Valid()
    ensures Extends(old(stream.Now()), stream.Now(), EncodeField(f, slot), ok)
    decreases f, 3
  {
    Unchanged(stream.Now(), true);
    match slot {
      case Many(items, _) => ok := EncArray(stream, f, items);
      case Maybe(has, v) =>
        if has {
          ok := EncodeKeyed(stream, f, v);
        } else {
          ok := true;
        }
      case Single(v) =>
        if f.htype.Optional? && ImplicitlyAbsent(f, v) {
          ok := true;
        } else {
          ok := EncodeKeyed(stream, f, v);
        }
    }
  }

  /** encode_callback_field, with the three kinds of callbacks. */
  method EncCallback(stream: OStream, f: Field, emit: Emitter) returns (ok: bool)
    requires stream.Valid() && f.tag <= 255 && Payloads32(emit)
    modifies stream, stream.buf
    ensures stream.Valid()
    ensures Extends(old(stream.Now()), stream.Now(), EncodeCallback(f, emit), ok)
  {
    match emit {
      case NoEncoder =>
        Unchanged(stream.Now(), true);
        ok := true;
      case Records(payloads) =>
        ok := WriteRecords(stream, f, payloads);
      case Writes(chunks, status) =>
        ok := WriteChunks(stream, chunks, status);
    }
  }

  /** pb_encode_tag_for_field and pb_encode_string: one record of a callback. */
  method WriteRecord(stream: OStream, f: Field, payload: seq<byte>) returns (ok: bool)
    requires stream.Valid() && f.tag <= 255 && |payload| < TWO_32
    modifies stream, stream.buf
    ensures stream.Valid()
    ensures Extends(old(stream.Now()), stream.Now(), Then(TagForField(f), Encoder.Write(EncodeString(payload))), ok)
  {
    ghost var s0 := stream.Now();
    ok := EncodeTagForField(stream, f);
    ghost var s1 := stream.Now();
    if !ok {
      Stop(s0, s1, TagForField(f), Encoder.Write(EncodeString(payload)));
    } else {
      ok := stream.EncodeString(payload);
      Continue(s0, s1, stream.Now(), TagForField(f), Encoder.Write(EncodeString(payload)), ok);
    }
  }

  /** A callback that writes its payloads, each under the key of the field. */
  method WriteRecords(stream: OStream, f: Field, payloads: seq<seq<byte>>) returns (ok: bool)
    requires stream.Valid() && f.tag <= 255 && Payloads32(Records(payloads))
    modifies stream, stream.buf
    ensures stream.Valid()
    ensures Extends(old(stream.Now()), stream.Now(), EncodeRecords(f, payloads, 0), ok)
  {
    ghost var s0, whole, done := stream.Now(), EncodeRecords(f, payloads, 0), NOTHING;
    Unchanged(s0, true);
    ThenAssociates(whole, NOTHING, NOTHING);
    var i := 0;
    while i < |payloads|
      invariant 0 <= i <= |payloads| && stream.Valid()
      invariant Extends(s0, stream.Now(), done, true)
      invariant Then(done, EncodeRecords(f, payloads, i)) == whole
    {
      ghost var s1, rest := stream.Now(), EncodeRecords(f, payloads, i + 1);
      ghost var record := Then(TagForField(f), Encoder.Write(EncodeString(payloads[i])));
      ok := WriteRecord(stream, f, payloads[i]);
      Advance(s0, s1, stream.Now(), done, record, rest, ok);
      done := Then(done, record);
      if !ok {
        return;
      }
      i := i + 1;
    }
    ThenAssociates(done, NOTHING, NOTHING);
    ok := true;
  }

  /** A callback that writes some chunks, and then succeeds or fails. */
  method WriteChunks(stream: OStream, chunks: seq<seq<byte>>, status: bool) returns (ok: bool)
    requires stream.Valid()
    modifies stream, stream.buf
    ensures stream.Valid()
    ensures Extends(old(stream.Now()), stream.Now(), Emit(status, Flatten(chunks)), ok)
  {
    ghost var s0, whole, done := stream.Now(), Emit(status, Flatten(chunks)), NOTHING;
    Unchanged(s0, true);
    ThenAssociates(whole, NOTHING, NOTHING);
    assert chunks[0..] == chunks;
    var i := 0;
    while i < |chunks|
      invariant 0 <= i <= |chunks| && stream.Valid()
      invariant Extends(s0, stream.Now(), done, true)
      invariant Then(done, Emit(status, Flatten(chunks[i..]))) == whole
    {
      ghost var s1, chunk, rest := stream.Now(), Encoder.Write(chunks[i]), Emit(status, Flatten(chunks[i + 1..]));
      assert chunks[i..][1..] == chunks[i + 1..];
      ok := stream.Write(chunks[i]);
      Advance(s0, s1, stream.Now(), done, chunk, rest, ok);
      done := Then(done, chunk);
      if !ok {
        return;
      }
      i := i + 1;
    }
    ghost var s1 := stream.Now();
    Unchanged(s1, status);
    Continue(s0, s1, s1, done, Emit(status, []), status);
    ok := status;
  }

  /** encode_field */
  method EncField(stream: OStream, f: Field, slot: Slot) returns (ok: bool)
    requires stream.Valid() && TypedSlot(f, slot)
    modifies stream, stream.buf
    ensures stream.Valid()
    ensures Extends(old(stream.Now()), stream.Now(), EncodeField(f, slot), ok)
    decreases f, 4
  {
    if f.atype.Static? {
      ok := EncodeBasicField(stream, f, slot);
    } else {
      ok := EncCallback(stream, f, slot.emit);
    }
  }

  lemma {:induction false} TypedHasSlot(t: seq<Field>, m: seq<Slot>, i: nat)
    requires Typed(t, m) && i < |t|
    ensures TypedSlot(t[i], m[i])
    ensures EncodeFrom(t, m, i) == Then(EncodeField(t[i], m[i]), EncodeFrom(t, m, i + 1))
  {
  }

  /** The field loop of pb_encode. */
  method EncodeFields(stream: OStream, iter: Iterator.FieldIter, t: seq<Field>, m: seq<Slot>) returns (ok: bool)
    requires stream.Valid() && iter.Valid() && iter.table == t && iter.pos == 0 && t != [] && Typed(t, m)
    modifies stream, stream.buf, iter
    ensures stream.Valid()
    ensures Extends(old(stream.Now()), stream.Now(), EncodeMessage(t, m), ok)
    decreases t, 0
  {
    ghost var s0, whole, done := stream.Now(), EncodeMessage(t, m), NOTHING;
    Unchanged(s0, true);
    ThenAssociates(whole, NOTHING, NOTHING);
    var more := true;
    ghost var n := 0;
    while more
      invariant stream.Valid() && iter.Valid() && 0 <= n <= |t|
      invariant more <==> n < |t|
      invariant more ==> iter.pos == n
      invariant Extends(s0, stream.Now(), done, true)
      invariant Then(done, EncodeFrom(t, m, n)) == whole
      decreases |t| - n
    {
      TypedHasSlot(t, m, n);
      ghost var s1, field, rest := stream.Now(), EncodeField(t[n], m[n]), EncodeFrom(t, m, n + 1);
      ok := EncField(stream, t[iter.pos], m[iter.pos]);
      Advance(s0, s1, stream.Now(), done, field, rest, ok);
      done := Then(done, field);
      if !ok {
        return;
      }
      more := iter.Next();
      n := n + 1;
    }
    ThenAssociates(done, NOTHING, NOTHING);
    ok := true;
  }

  /** pb_encode */
  method Encode(stream: OStream, t: seq<Field>, m: seq<Slot>) returns (ok: bool)
    requires stream.Valid() && Typed(t, m)
    modifies stream, stream.buf
    ensures stream.Valid()
    ensures Extends(old(stream.Now()), stream.Now(), EncodeMessage(t, m), ok)
    decreases t, 1
  {
    TypedHasLayout(t, m);
    var iter := new Iterator.FieldIter(t, 0, Iterator.Layout(t, |t|));
    if t == [] {
      Unchanged(stream.Now(), true);
      return true;
    }
    ok := EncodeFields(stream, iter, t, m);
  }

  /** pb_get_encoded_size */
  method GetEncodedSize(t: seq<Field>, m: seq<Slot>) returns (ok: bool, size: nat)
    requires Typed(t, m)
    ensures ok == EncodeMessage(t, m).ok
    ensures ok ==> size == |EncodeMessage(t, m).out|
  {
    var stream := new OStream.Sizing();
    ok := Encode(stream, t, m);
    size := stream.bytesWritten;
  }
}
