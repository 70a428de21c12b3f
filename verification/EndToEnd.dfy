/** The encoder and the decoder at work on one buffer. */
module EndToEnd {
  import opened Wire
  import opened Schema
  import opened Decoder
  import opened Encoder
  import opened RoundTrip
  import opened Disturbance
  import opened ExactRoundTrip
  import opened EncodeMethods
  import RequiredFields
  import InputStream
  import OutputStream
  import DecodeMethods

  lemma {:induction false} WellFormedIsRunnable(t: seq<Field>)
    requires WfTable(t)
    ensures RequiredFields.Runnable(t)
    decreases t
  {
    forall i | 0 <= i < |t| ensures RequiredFields.RunnableField(t[i]) {
      assert WfField(t[i]);
      FieldIsRunnable(t[i]);
    }
  }

  lemma {:induction false} FieldIsRunnable(f: Field)
    requires WfField(f)
    ensures RequiredFields.RunnableField(f)
    decreases f
  {
    if f.ltype.SubMessage? { WellFormedIsRunnable(f.ltype.table); }
  }

  /** What one field writes is part of what the message writes. */
  lemma {:induction false} FieldIsPart(t: seq<Field>, m: seq<Slot>, from: nat, i: nat)
    requires WfTable(t) && ValidMessage(t, m) && from <= i < |t|
    ensures |EncodeField(t[i], m[i]).out| <= |EncodeFrom(t, m, from).out|
    decreases i - from
  {
    assert WfField(t[from]) && ValidSlot(t[from], m[from]);
    ValidSlotEncodes(t[from], m[from]);
    if from < i { FieldIsPart(t, m, from + 1, i); }
  }

  lemma {:induction false} ElementIsPart(f: Field, items: seq<Value>, from: nat, j: nat)
    requires WfField(f) && from <= j < |items| && forall i :: 0 <= i < |items| ==> ValidValue(f, items[i])
    ensures |EncodeValue(f, items[j]).out| <= |EncodeElements(f, items, from).out|
    decreases j - from
  {
    ValidValueEncodes(f, items[from]);
    if from < j { ElementIsPart(f, items, from + 1, j); }
  }

  /** A submessage is shorter than the message it is in. */
  lemma {:induction false} ValidValueIsTyped(f: Field, v: Value)
    requires WfField(f) && ValidValue(f, v) && |EncodeValue(f, v).out| < TWO_32
    ensures TypedValue(f, v)
    decreases f, 0
  {
    if f.ltype.SubMessage? {
      ValidMessageEncodes(f.ltype.table, v.slots, 0);
      ValidIsTyped(f.ltype.table, v.slots);
    }
  }

  lemma {:induction false} ValidSlotIsTyped(f: Field, s: Slot)
    requires WfField(f) && ValidSlot(f, s) && |EncodeField(f, s).out| < TWO_32
    ensures TypedSlot(f, s)
    decreases f, 1
  {
    if f.atype.Static? {
      match s
      case Single(v) => if f.htype.Required? || !ImplicitlyAbsent(f, v) { ValidValueIsTyped(f, v); }
      case Maybe(has, v) => if has { ValidValueIsTyped(f, v); }
      case Many(items, _) =>
        forall j | 0 <= j < |items| ensures TypedValue(f, items[j]) {
          if !Packable(f.ltype) {
            ElementIsPart(f, items, 0, j);
            ValidValueIsTyped(f, items[j]);
          }
        }
    }
  }

  lemma {:induction false} ValidIsTyped(t: seq<Field>, m: seq<Slot>)
    requires WfTable(t) && ValidMessage(t, m) && |EncodeMessage(t, m).out| < TWO_32
    ensures Typed(t, m)
    decreases t
  {
    forall i | 0 <= i < |t| ensures !t[i].htype.Oneof? && TypedSlot(t[i], m[i]) {
      assert WfField(t[i]) && ValidSlot(t[i], m[i]);
      FieldIsPart(t, m, 0, i);
      ValidSlotIsTyped(t[i], m[i]);
    }
  }

  /** pb_ostream_from_buffer and pb_encode: how the buffer looks afterwards. */
  method EncodeToBuffer(buffer: array<byte>, t: seq<Field>, m: seq<Slot>) returns (ok: bool, size: nat)
    requires Typed(t, m)
    modifies buffer
    ensures ok <==> EncodeMessage(t, m).ok && |EncodeMessage(t, m).out| <= buffer.Length
    ensures size <= buffer.Length && size <= |EncodeMessage(t, m).out|
    ensures ok ==> size == |EncodeMessage(t, m).out|
    ensures buffer[..size] == EncodeMessage(t, m).out[..size]
    ensures buffer[size..] == old(buffer[size..])
  {
    var stream := new OutputStream.OStream(buffer, 0, buffer.Length);
    ghost var before := buffer[..];
    ok := Encode(stream, t, m);
    size := stream.bytesWritten;
    assert buffer[..] == OutputStream.Spliced(before, 0, EncodeMessage(t, m).out[..size]);
  }

  /** pb_get_encoded_size, and pb_encode to a buffer of just that size. */
  method EncodeExactly(t: seq<Field>, m: seq<Slot>) returns (ok: bool, out: seq<byte>)
    requires Typed(t, m)
    ensures ok == EncodeMessage(t, m).ok
    ensures ok ==> out == EncodeMessage(t, m).out
  {
    out := [];
    var size;
    ok, size := GetEncodedSize(t, m);
    if !ok {
      return;
    }
    var buffer := new byte[size](_ => 0);
    ok, size := EncodeToBuffer(buffer, t, m);
    out := buffer[..size];
  }

  /** pb_istream_from_buffer and pb_decode on what pb_encode wrote. */
  method Transfer(t: seq<Field>, m: seq<Slot>, dest: DecodeMethods.Struct) returns (ok: bool)
    requires WfTable(t) && ValidMessage(t, m) && Listens(t, m, dest.slots)
    requires |EncodeMessage(t, m).out| < TWO_32
    modifies dest
    ensures ok <==> Undisturbed(t, m, old(dest.slots), false)
    ensures ok ==> (Agrees(t, m, dest.slots) <==> Kept(t, m))
  {
    assert RequiredFields.Runnable(t) by { WellFormedIsRunnable(t); }
    assert Typed(t, m) by { ValidIsTyped(t, m); }
    ghost var result := Decode(t, dest.slots, All(EncodeMessage(t, m).out));
    assert EncodeMessage(t, m).ok by { DecodeUndoesEncode(t, m, dest.slots); }
    assert result.Ok? <==> Undisturbed(t, m, dest.slots, false) by { DecodeUndoesEncode(t, m, dest.slots); }
    assert result.Ok? ==> (Agrees(t, m, result.value) <==> Kept(t, m)) by { DecodeUndoesEncode(t, m, dest.slots); }
    assert |dest.slots| == |t|;
    var out;
    ok, out := EncodeExactly(t, m);
    var stream := new InputStream.IStream(out, 0, |out|);
    ok := DecodeMethods.Decode(stream, t, dest);
  }
}
