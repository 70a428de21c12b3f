/** What pb_encode writes, as functions on the message (pb_encode.c). */
module Encoder {
  import opened Wire
  import opened Varint
  import opened Schema
  import Scalars

  /** The bytes written to a stream without limit, and whether the encoder then reports success. */
  datatype Emit = Emit(ok: bool, out: seq<byte>)

  const NOTHING: Emit := Emit(true, [])
  const FAILED: Emit := Emit(false, [])

  function Write(s: seq<byte>): Emit { Emit(true, s) }

  /** Run a, and b if a succeeds. */
  function Then(a: Emit, b: Emit): Emit {
    if a.ok then Emit(b.ok, a.out + b.out) else a
  }

  /** pb_encode_tag */
  function EncodeTag(wireType: nat, number: nat): seq<byte> {
    EncodeVarint(number * 8 + wireType)
  }

  function WireType(l: LType): nat {
    match l
    case Fixed32 => 5
    case Fixed64 => 1
    case Bytes => 2
    case String => 2
    case SubMessage(_) => 2
    case FixedLengthBytes => 2
    case _ => 0
  }

  /** pb_encode_tag_for_field */
  function TagForField(f: Field): Emit {
    if f.ltype.Extension? then FAILED else Write(EncodeTag(WireType(f.ltype), f.tag))
  }

  /** pb_encode_string */
  function EncodeString(b: seq<byte>): seq<byte> { EncodeVarint(|b|) + b }

  /** The scalar PB_ENCODERS. */
  function EncodeNumber(f: Field, v: Value): Emit {
    if !Packable(f.ltype) || !v.Num? then FAILED
    else match Scalars.Encode(f.ltype, f.dataSize, v.n)
         case None => FAILED
         case Some(s) => Write(s)
  }

  /** PB_ENCODERS[...] */
  function EncodeValue(f: Field, v: Value): Emit
    decreases f, 0
  {
    match f.ltype
    case SubMessage(t) =>
      if v.Msg? && |v.slots| == |t| then
        var body := EncodeFrom(t, v.slots, 0);
        if body.ok then Write(EncodeString(body.out)) else FAILED
      else FAILED
    case Extension => FAILED
    case Bytes => if v.Blob? && |v.bytes| + 1 <= f.dataSize then Write(EncodeString(v.bytes)) else FAILED
    case String => if v.Blob? then Write(EncodeString(v.bytes)) else FAILED
    case FixedLengthBytes => if v.Blob? then Write(EncodeString(v.bytes)) else FAILED
    case _ => EncodeNumber(f, v)
  }

  /** The elements of a packed array, without the key and the length. */
  function EncodePacked(f: Field, items: seq<Value>, i: nat): Emit
    requires i <= |items|
    decreases |items| - i
  {
    if i == |items| then NOTHING
    else Then(EncodeNumber(f, items[i]), EncodePacked(f, items, i + 1))
  }

  /** The elements of an array that cannot be packed, each under its own key. */
  function EncodeElements(f: Field, items: seq<Value>, i: nat): Emit
    requires i <= |items|
    decreases f, 1, |items| - i
  {
    if i == |items| then NOTHING
    else Then(Then(TagForField(f), EncodeValue(f, items[i])), EncodeElements(f, items, i + 1))
  }

  /** A singular field is left out when its memory looks empty (implicit_has). */
  predicate ImplicitlyAbsent(f: Field, v: Value) {
    if f.ltype.Bytes? then v.Blob? && |v.bytes| == 0
    else (f.ltype.String? && v.Blob? && |v.bytes| == 0) || (WordSize(f.dataSize) && IsZeroValue(f, v))
  }

  function Flatten(chunks: seq<seq<byte>>): seq<byte> {
    if chunks == [] then [] else chunks[0] + Flatten(chunks[1..])
  }

  /** encode_array */
  function EncodeArray(f: Field, items: seq<Value>): Emit
    decreases f, 2
  {
    if |items| == 0 then NOTHING
    else if |items| > f.arraySize then FAILED
    else if Packable(f.ltype) then
      var body := EncodePacked(f, items, 0);
      Then(Write(EncodeTag(2, f.tag)), if body.ok then Write(EncodeString(body.out)) else FAILED)
    else EncodeElements(f, items, 0)
  }

  /** A callback that writes its payloads, each under the key of the field. */
  function EncodeRecords(f: Field, payloads: seq<seq<byte>>, i: nat): Emit
    requires i <= |payloads|
    decreases |payloads| - i
  {
    if i == |payloads| then NOTHING
    else Then(Then(TagForField(f), Write(EncodeString(payloads[i]))), EncodeRecords(f, payloads, i + 1))
  }

  /** encode_callback_field */
  function EncodeCallback(f: Field, emit: Emitter): Emit {
    match emit
    case NoEncoder => NOTHING
    case Records(payloads) => EncodeRecords(f, payloads, 0)
    case Writes(chunks, ok) => Emit(ok, Flatten(chunks))
  }

  /** encode_field */
  function EncodeField(f: Field, slot: Slot): Emit
    decreases f, 3
  {
    match f.atype
    case Pointer => FAILED
    case Callback => if slot.Hook? then EncodeCallback(f, slot.emit) else FAILED
    case Static =>
      match (f.htype, slot)
      case (Required, Single(v)) => Then(TagForField(f), EncodeValue(f, v))
      case (Optional, Single(v)) =>
        if ImplicitlyAbsent(f, v) then NOTHING else Then(TagForField(f), EncodeValue(f, v))
      case (Optional, Maybe(has, v)) => if has then Then(TagForField(f), EncodeValue(f, v)) else NOTHING
      case (Repeated, Many(items, _)) => EncodeArray(f, items)
      case _ => FAILED
  }

  /** The field loop of pb_encode from entry i on. */
  function EncodeFrom(t: seq<Field>, m: seq<Slot>, i: nat): Emit
    requires |m| == |t| && i <= |t|
    decreases t, |t| - i
  {
    if i == |t| then NOTHING else Then(EncodeField(t[i], m[i]), EncodeFrom(t, m, i + 1))
  }

  /** pb_encode */
  function EncodeMessage(t: seq<Field>, m: seq<Slot>): Emit
    requires |m| == |t|
  {
    EncodeFrom(t, m, 0)
  }
}
