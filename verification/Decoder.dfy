/**
 What pb_decode computes, as functions on the stream (pb_decode.c).

 Recursion is measured by the bytes left, never by the table.
 */
module Decoder {
  import opened Wire
  import opened Varint
  import opened Schema
  import Scalars

  datatype TagResult = Eof(rest: Input) | BadTag | Tag(wireType: nat, number: nat, rest: Input)

  /** pb_decode_tag: a zero key ends the message, and so does a key cut off by the end of the stream. */
  function DecodeTag(i: Input): (r: TagResult)
    ensures r.Tag? ==> r.rest.left < i.left && Lag(r.rest) == Lag(i)
    ensures r.Eof? ==> r.rest.left <= i.left && Lag(r.rest) == Lag(i)
  {
    match DecodeVarint32(i)
    case Fail => if i.left <= 5 then Eof(Skip(i, i.left)) else BadTag
    case Ok(key, rest) => if key == 0 then Eof(rest) else Tag(key % 8, key / 8, rest)
  }

  /** pb_skip_varint: any number of groups. */
  function SkipVarint(i: Input): (r: Result<()>)
    ensures r.Ok? ==> r.rest.left < i.left && Lag(r.rest) == Lag(i)
    decreases i.left
  {
    if i.left == 0 then Fail
    else if i.data[0] < 128 then Ok((), Skip(i, 1))
    else SkipVarint(Skip(i, 1))
  }

  function SkipBytes(i: Input, n: nat): (r: Result<()>)
    ensures r.Ok? ==> r.rest.left <= i.left && Lag(r.rest) == Lag(i)
  {
    if i.left < n then Fail else Ok((), Skip(i, n))
  }

  /** pb_skip_field */
  function SkipField(i: Input, wireType: nat): (r: Result<()>)
    ensures r.Ok? ==> r.rest.left <= i.left && Lag(r.rest) == Lag(i)
  {
    match wireType
    case 0 => SkipVarint(i)
    case 1 => SkipBytes(i, 8)
    case 2 => (match DecodeVarint32(i) case Fail => Fail case Ok(n, rest) => SkipBytes(rest, n))
    case 5 => SkipBytes(i, 4)
    case _ => Fail
  }

  /** A length prefix and that many bytes. */
  function ReadDelimited(i: Input): (r: Result<seq<byte>>)
    ensures r.Ok? ==> r.rest.left < i.left && Lag(r.rest) == Lag(i)
  {
    match DecodeVarint32(i)
    case Fail => Fail
    case Ok(n, rest) => Read(rest, n)
  }

  /** read_raw_value on a varint: its bytes, at most `max`. */
  function RawVarint(i: Input, max: nat): (r: Result<seq<byte>>)
    ensures r.Ok? ==> r.rest.left < i.left && Lag(r.rest) == Lag(i) && |r.value| <= max
    decreases max
  {
    if max == 0 || i.left == 0 then Fail
    else if i.data[0] < 128 then Ok([i.data[0]], Skip(i, 1))
    else match RawVarint(Skip(i, 1), max - 1)
         case Fail => Fail
         case Ok(more, rest) => Ok([i.data[0]] + more, rest)
  }

  /** The bytes a decode callback is offered for one occurrence of its field. */
  function Offered(i: Input, wireType: nat): (r: Result<seq<byte>>)
    ensures r.Ok? ==> r.rest.left <= i.left && Lag(r.rest) == Lag(i)
  {
    match wireType
    case 0 => RawVarint(i, 10)
    case 1 => Read(i, 8)
    case 2 => ReadDelimited(i)
    case 5 => Read(i, 4)
    case _ => Fail
  }

  /** decode_callback_field */
  function DecodeCallback(slot: Slot, wireType: nat, i: Input): (r: Result<Slot>)
    requires slot.Hook?
    ensures r.Ok? ==> r.rest.left <= i.left && Lag(r.rest) == Lag(i)
  {
    match slot.sink
    case NoDecoder =>
      (match SkipField(i, wireType) case Fail => Fail case Ok(_, rest) => Ok(slot, rest))
    case Stray => Fail
    case Reader(accepts, got) =>
      match Offered(i, wireType)
      case Fail => Fail
      case Ok(payload, rest) =>
        if accepts(got, payload) then Ok(Hook(slot.emit, Reader(accepts, got + [payload])), rest) else Fail
  }

  /** The packed branch of decode_static_field, inside its substream. */
  function DecodePacked(f: Field, slot: Slot, i: Input): (r: Result<Slot>)
    requires slot.Many?
    ensures r.Ok? ==> r.value.Many? && r.rest.left == 0 && Lag(r.rest) == Lag(i)
    decreases i.left
  {
    if i.left == 0 then Ok(slot, i)
    else if |slot.items| >= f.arraySize then Fail
    else match Scalars.Decode(f.ltype, f.dataSize, i)
         case Fail => Fail
         case Ok(n, rest) => DecodePacked(f, Append(slot, Num(n)), rest)
  }

  /** The bytes of a C string: up to the first NUL. */
  function CString(s: seq<byte>): (r: seq<byte>)
    ensures 0 !in r && r <= s
  {
    if s == [] || s[0] == 0 then [] else [s[0]] + CString(s[1..])
  }

  /** pb_dec_bytes, pb_dec_string and the inline form. */
  function DecodeBlob(f: Field, i: Input): (r: Result<Value>)
    ensures r.Ok? ==> r.rest.left < i.left && Lag(r.rest) == Lag(i)
  {
    match DecodeVarint32(i)
    case Fail => Fail
    case Ok(size, rest) =>
      if f.ltype.String? then
        if size + 1 > f.dataSize then Fail
        else match Read(rest, size) case Fail => Fail case Ok(b, rest') => Ok(Blob(CString(b)), rest')
      else if size > 255 then Fail
      else if f.ltype.FixedLengthBytes? then
        if size != f.dataSize then Fail
        else match Read(rest, size) case Fail => Fail case Ok(b, rest') => Ok(Blob(b), rest')
      else
        if size + 1 > f.dataSize then Fail
        else match Read(rest, size) case Fail => Fail case Ok(b, rest') => Ok(Blob(b), rest')
  }

  /** The slots of a message and the entries that have occurred so far. */
  datatype Progress = Progress(slots: seq<Slot>, seen: set<nat>)

  /** PB_DECODERS[...]: decode one value into a place that holds `cur`. */
  function DecodeValue(f: Field, cur: Value, i: Input): (r: Result<Value>)
    ensures r.Ok? ==> r.rest.left <= i.left && Lag(r.rest) >= Lag(i)
    decreases i.left, 0
  {
    match f.ltype
    case SubMessage(t) =>
      (match DecodeVarint32(i)
       case Fail => Fail
       case Ok(size, rest) =>
         if rest.left < size || !cur.Msg? || |cur.slots| != |t| then Fail
         else
           var start := if f.htype.Repeated? then SetDefaults(t, cur.slots) else cur.slots;
           match DecodeMessage(t, start, Cursor(rest.data, size))
           case Fail => Fail
           case Ok(slots, sub) => Ok(Msg(slots), Cursor(sub.data, rest.left - size)))
    case Extension => Fail
    case Bytes => DecodeBlob(f, i)
    case String => DecodeBlob(f, i)
    case FixedLengthBytes => DecodeBlob(f, i)
    case _ =>
      match Scalars.Decode(f.ltype, f.dataSize, i)
      case Fail => Fail
      case Ok(n, rest) => Ok(Num(n), rest)
  }

  /** decode_field: decode_static_field or decode_callback_field. */
  function DecodeField(f: Field, slot: Slot, wireType: nat, i: Input): (r: Result<Slot>)
    ensures r.Ok? ==> r.rest.left <= i.left && Lag(r.rest) >= Lag(i)
    decreases i.left, 1
  {
    match f.atype
    case Pointer => Fail
    case Callback => if slot.Hook? then DecodeCallback(slot, wireType, i) else Fail
    case Static =>
      match (f.htype, slot)
      case (Required, Single(cur)) =>
        (match DecodeValue(f, cur, i) case Fail => Fail case Ok(v, rest) => Ok(Single(v), rest))
      case (Optional, Single(cur)) =>
        (match DecodeValue(f, cur, i) case Fail => Fail case Ok(v, rest) => Ok(Single(v), rest))
      case (Optional, Maybe(_, cur)) =>
        (match DecodeValue(f, cur, i) case Fail => Fail case Ok(v, rest) => Ok(Maybe(true, v), rest))
      case (Repeated, Many(items, spare)) =>
        if wireType == 2 && Packable(f.ltype) then
          match DecodeVarint32(i)
          case Fail => Fail
          case Ok(size, rest) =>
            if rest.left < size then Fail
            else match DecodePacked(f, slot, Cursor(rest.data, size))
                 case Fail => Fail
                 case Ok(more, sub) => Ok(more, Cursor(sub.data, rest.left - size))
        else if |items| >= f.arraySize then Fail
        else (match DecodeValue(f, Place(f, spare, 0), i)
              case Fail => Fail
              case Ok(v, rest) => Ok(Append(slot, v), rest))
      case _ => Fail
  }

  /** The part of the field loop behind the key. */
  function DecodeRecord(t: seq<Field>, st: Progress, wireType: nat, number: nat, i: Input): (r: Result<Progress>)
    ensures r.Ok? ==> r.rest.left <= i.left && Lag(r.rest) >= Lag(i)
    decreases i.left, 2
  {
    match Find(t, number)
    case None =>
      if t == [] && number == 0 then Fail
      else (match SkipField(i, wireType) case Fail => Fail case Ok(_, rest) => Ok(st, rest))
    case Some(k) =>
      if k >= |st.slots| then Fail
      else match DecodeField(t[k], st.slots[k], wireType, i)
           case Fail => Fail
           case Ok(slot, rest) => Ok(Progress(st.slots[k := slot], st.seen + {k}), rest)
  }

  datatype StepResult = Stop(rest: Input) | Error | Next(state: Progress, rest: Input)

  /** One round of the field loop. */
  function Step(t: seq<Field>, st: Progress, i: Input): (r: StepResult)
    requires i.left > 0
    ensures r.Next? ==> r.rest.left < i.left && Lag(r.rest) >= Lag(i)
    ensures r.Stop? ==> r.rest.left <= i.left && Lag(r.rest) == Lag(i)
    decreases i.left, 3
  {
    match DecodeTag(i)
    case Eof(rest) => Stop(rest)
    case BadTag => Error
    case Tag(wireType, number, rest) =>
      match DecodeRecord(t, st, wireType, number, rest)
      case Fail => Error
      case Ok(st', rest') => Next(st', rest')
  }

  /** The field loop of pb_decode_noinit. */
  function DecodeFields(t: seq<Field>, st: Progress, i: Input): (r: Result<Progress>)
    ensures r.Ok? ==> r.rest.left <= i.left && Lag(r.rest) >= Lag(i)
    decreases i.left, 4
  {
    if i.left == 0 then Ok(st, i)
    else match Step(t, st, i)
         case Stop(rest) => Ok(st, rest)
         case Error => Fail
         case Next(st', rest) => DecodeFields(t, st', rest)
  }

  predicate AllRequired(t: seq<Field>, seen: set<nat>) {
    forall k :: 0 <= k < |t| && t[k].htype.Required? ==> k in seen
  }

  /** pb_decode_noinit */
  function DecodeMessage(t: seq<Field>, slots: seq<Slot>, i: Input): (r: Result<seq<Slot>>)
    ensures r.Ok? ==> r.rest.left <= i.left && Lag(r.rest) >= Lag(i)
    decreases i.left, 5
  {
    match DecodeFields(t, Progress(slots, {}), i)
    case Fail => Fail
    case Ok(st, rest) => if AllRequired(t, st.seen) then Ok(st.slots, rest) else Fail
  }

  /** pb_decode */
  function Decode(t: seq<Field>, dest: seq<Slot>, i: Input): Result<seq<Slot>> {
    DecodeMessage(t, SetDefaults(t, dest), i)
  }
}
