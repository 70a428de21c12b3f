/** The decoder as it runs: streams, iterator and structure are updated in place (pb_decode.c). */
module DecodeMethods {
  import opened Wire
  import Varint
  import opened Schema
  import opened Decoder
  import opened InputStream
  import Iterator
  import Scalars
  import opened RequiredFields
  import NumberLaws

  /** A message structure in memory. */
  class Struct {
    var slots: seq<Slot>

    constructor (m: seq<Slot>)
      ensures slots == m
    {
      slots := m;
    }
  }

  // ---- Scalars ---------------------------------------------------------------------------

  /** pb_dec_varint */
  method DecVarint(stream: IStream, size: nat) returns (ok: bool, n: int)
    requires stream.Valid()
    modifies stream
    ensures stream.Valid()
    ensures ok == Scalars.Decode(Varint, size, old(stream.View())).Ok?
    ensures ok ==> Ok(n, stream.View()) == Scalars.Decode(Varint, size, old(stream.View()))
  {
    var value;
    n := 0;
    ok, value := stream.DecodeVarint();
    if !ok {
      return;
    }
    var svalue := if size == 8 then Scalars.Signed(value, TWO_64) else Scalars.Signed(value, TWO_32);
    if !WordSize(size) {
      return false, 0;
    }
    n := Scalars.Signed(svalue, Scalars.Modulus(size));
    ok := n == svalue;
  }

  /** pb_dec_uvarint */
  method DecUvarint(stream: IStream, size: nat) returns (ok: bool, n: int)
    requires stream.Valid()
    modifies stream
    ensures stream.Valid()
    ensures ok == Scalars.Decode(UVarint, size, old(stream.View())).Ok?
    ensures ok ==> Ok(n, stream.View()) == Scalars.Decode(UVarint, size, old(stream.View()))
  {
    var value;
    n := 0;
    ok, value := stream.DecodeVarint();
    if !ok {
      return;
    }
    if !WordSize(size) {
      return false, 0;
    }
    n := value % Scalars.Modulus(size);
    ok := n == value;
  }

  /** pb_dec_svarint and pb_decode_svarint */
  method DecSvarint(stream: IStream, size: nat) returns (ok: bool, n: int)
    requires stream.Valid()
    modifies stream
    ensures stream.Valid()
    ensures ok == Scalars.Decode(SVarint, size, old(stream.View())).Ok?
    ensures ok ==> Ok(n, stream.View()) == Scalars.Decode(SVarint, size, old(stream.View()))
  {
    var zigzagged;
    n := 0;
    ok, zigzagged := stream.DecodeVarint();
    if !ok {
      return;
    }
    var unsigned: int := zigzagged;
    var value: int := if zigzagged % 2 == 1 then -1 - unsigned / 2 else unsigned / 2;
    if !WordSize(size) {
      return false, 0;
    }
    n := Scalars.Signed(value, Scalars.Modulus(size));
    ok := n == value;
  }

  /** pb_decode_fixed32 */
  method DecFixed32(stream: IStream) returns (ok: bool, n: int)
    requires stream.Valid()
    modifies stream
    ensures stream.Valid()
    ensures ok == Scalars.Decode(Fixed32, 4, old(stream.View())).Ok?
    ensures ok ==> Ok(n, stream.View()) == Scalars.Decode(Fixed32, 4, old(stream.View()))
  {
    var b;
    n := 0;
    ok, b := stream.Read(4);
    if ok {
      n := b[0] + TWO_8 * b[1] + TWO_16 * b[2] + TWO_8 * TWO_16 * b[3];
      NumberLaws.FourBytes(b);
    }
  }

  /** pb_decode_fixed64 */
  method DecFixed64(stream: IStream) returns (ok: bool, n: int)
    requires stream.Valid()
    modifies stream
    ensures stream.Valid()
    ensures ok == Scalars.Decode(Fixed64, 8, old(stream.View())).Ok?
    ensures ok ==> Ok(n, stream.View()) == Scalars.Decode(Fixed64, 8, old(stream.View()))
  {
    var b;
    n := 0;
    ok, b := stream.Read(8);
    if ok {
      var low := b[0] + TWO_8 * b[1] + TWO_16 * b[2] + TWO_8 * TWO_16 * b[3];
      var high := b[4] + TWO_8 * b[5] + TWO_16 * b[6] + TWO_8 * TWO_16 * b[7];
      n := low + TWO_32 * high;
      NumberLaws.EightBytes(b);
    }
  }

  /** The scalar entries of PB_DECODERS. */
  method DecNumber(stream: IStream, f: Field) returns (ok: bool, n: int)
    requires stream.Valid() && Packable(f.ltype)
    modifies stream
    ensures stream.Valid()
    ensures ok == Scalars.Decode(f.ltype, f.dataSize, old(stream.View())).Ok?
    ensures ok ==> Ok(n, stream.View()) == Scalars.Decode(f.ltype, f.dataSize, old(stream.View()))
  {
    match f.ltype {
      case Varint => ok, n := DecVarint(stream, f.dataSize);
      case UVarint => ok, n := DecUvarint(stream, f.dataSize);
      case SVarint => ok, n := DecSvarint(stream, f.dataSize);
      case Fixed32 => ok, n := DecFixed32(stream);
      case Fixed64 => ok, n := DecFixed64(stream);
    }
  }

  // ---- Bytes and strings -------------------------------------------------------------------

  /** pb_dec_bytes, with the inline form */
  method DecBytes(stream: IStream, f: Field) returns (ok: bool, v: Value)
    requires stream.Valid() && (f.ltype.Bytes? || f.ltype.FixedLengthBytes?)
    modifies stream
    ensures stream.Valid()
    ensures ok == DecodeBlob(f, old(stream.View())).Ok?
    ensures ok ==> Ok(v, stream.View()) == DecodeBlob(f, old(stream.View()))
  {
    v := Blob([]);
    var size, b;
    ok, size := stream.DecodeVarint32();
    if !ok {
      return;
    }
    if size > 255 {
      return false, v;
    }
    if f.ltype.FixedLengthBytes? {
      if size != f.dataSize {
        return false, v;
      }
      ok, b := stream.Read(f.dataSize);
      return ok, Blob(b);
    }
    if size + 1 > f.dataSize {
      return false, v;
    }
    ok, b := stream.Read(size);
    v := Blob(b);
  }

  /** pb_dec_string */
  method DecString(stream: IStream, f: Field) returns (ok: bool, v: Value)
    requires stream.Valid() && f.ltype.String?
    modifies stream
    ensures stream.Valid()
    ensures ok == DecodeBlob(f, old(stream.View())).Ok?
    ensures ok ==> Ok(v, stream.View()) == DecodeBlob(f, old(stream.View()))
  {
    v := Blob([]);
    var size, b;
    ok, size := stream.DecodeVarint32();
    if !ok {
      return;
    }
    if size + 1 > f.dataSize {
      return false, v;
    }
    ok, b := stream.Read(size);
    v := Blob(CString(b));
  }

  // ---- Defaults ------------------------------------------------------------------------------

  /** pb_message_set_to_defaults */
  method SetMessageToDefaults(t: seq<Field>, dest: Struct)
    requires Runnable(t) && |dest.slots| == |t|
    modifies dest
    ensures dest.slots == SetDefaults(t, old(dest.slots))
    decreases t, 1
  {
    RunnableHasLayout(t);
    var iter := new Iterator.FieldIter(t, 0, Iterator.Layout(t, |t|));
    if |t| == 0 {
      return;
    }
    ghost var before := dest.slots;
    var more := true;
    ghost var n := 0;
    while more
      invariant iter.Valid() && iter.table == t && |dest.slots| == |t| && 0 <= n <= |t|
      invariant iter.pos == if more then n else 0
      invariant more <==> n < |t|
      invariant forall j :: 0 <= j < n ==> dest.slots[j] == SetDefault(t[j], before[j])
      invariant forall j :: n <= j < |t| ==> dest.slots[j] == before[j]
      decreases |t| - n
    {
      assert RunnableField(t[iter.pos]);
      var slot := SetFieldToDefault(t[iter.pos], dest.slots[iter.pos]);
      dest.slots := dest.slots[iter.pos := slot];
      more := iter.Next();
      n := n + 1;
    }
    assert dest.slots == SetDefaults(t, before);
  }

  /** pb_field_set_to_default */
  method SetFieldToDefault(f: Field, slot: Slot) returns (r: Slot)
    requires RunnableField(f)
    ensures r == SetDefault(f, slot)
    decreases f, 1
  {
    if f.atype.Callback? {
      return slot;
    }
    match slot {
      case Single(v) =>
        // *(bool*)iter->pSize = false, where pSize is pData
        var w := if Singular(f) then ClearValue(f, v) else v;
        var d := SetValueToDefault(f, w);
        r := Single(d);
      case Maybe(_, v) =>
        var d := SetValueToDefault(f, v);
        r := Maybe(false, d);
      case Many(items, spare) => r := Many([], items + spare);
      case Hook(_, _) => r := slot;
    }
  }

  method SetValueToDefault(f: Field, v: Value) returns (r: Value)
    requires RunnableField(f)
    ensures r == DefaultValue(f, v)
    decreases f, 0
  {
    if f.ltype.SubMessage? {
      var t := f.ltype.table;
      if !v.Msg? || |v.slots| != |t| {
        return v;
      }
      var inner := new Struct(v.slots);
      SetMessageToDefaults(t, inner);
      r := Msg(inner.slots);
    } else if f.default.Some? {
      r := f.default.value;
    } else {
      r := ZeroValue(f);
    }
  }

  // ---- Fields ----------------------------------------------------------------------------------

  /** pb_dec_submessage */
  method DecSubmessage(stream: IStream, f: Field, cur: Value) returns (ok: bool, v: Value)
    requires stream.Valid() && f.ltype.SubMessage? && RunnableField(f)
    modifies stream
    ensures stream.Valid()
    ensures ok == DecodeValue(f, cur, old(stream.View())).Ok?
    ensures ok ==> Ok(v, stream.View()) == DecodeValue(f, cur, old(stream.View()))
    decreases stream.bytesLeft, 0
  {
    v := cur;
    var sub;
    ok, sub := stream.MakeSubstream();
    if !ok {
      return;
    }
    var t := f.ltype.table;
    if !cur.Msg? || |cur.slots| != |t| {
      return false, v;
    }
    var dest := new Struct(cur.slots);
    if f.htype.Repeated? {
      SetMessageToDefaults(t, dest);
    }
    ok := DecodeNoInit(sub, t, dest);
    if ok {
      stream.CloseSubstream(sub);
      v := Msg(dest.slots);
    }
  }

  /** PB_DECODERS[...] */
  method DecValue(stream: IStream, f: Field, cur: Value) returns (ok: bool, v: Value)
    requires stream.Valid() && RunnableField(f)
    modifies stream
    ensures stream.Valid()
    ensures ok == DecodeValue(f, cur, old(stream.View())).Ok?
    ensures ok ==> Ok(v, stream.View()) == DecodeValue(f, cur, old(stream.View()))
    decreases stream.bytesLeft, 1
  {
    v := cur;
    match f.ltype {
      case SubMessage(_) => ok, v := DecSubmessage(stream, f, cur);
      case Extension => ok := false;
      case Bytes => ok, v := DecBytes(stream, f);
      case FixedLengthBytes => ok, v := DecBytes(stream, f);
      case String => ok, v := DecString(stream, f);
      case _ =>
        var n;
        ok, n := DecNumber(stream, f);
        v := Num(n);
    }
  }

  /** The packed array of decode_static_field: elements are appended in place. */
  method DecodePackedArray(stream: IStream, f: Field, dest: Struct, k: nat) returns (ok: bool)
    requires stream.Valid() && k < |dest.slots| && dest.slots[k].Many?
    requires f.atype.Static? && f.htype.Repeated? && Packable(f.ltype)
    modifies stream, dest
    ensures stream.Valid()
    ensures var r := DecodeField(f, old(dest.slots[k]), 2, old(stream.View()));
            ok == r.Ok? && (ok ==> dest.slots == old(dest.slots)[k := r.value] && stream.View() == r.rest)
  {
    var sub;
    ok, sub := stream.MakeSubstream();
    if !ok {
      return;
    }
    var status := true;
    ghost var first, start := dest.slots, DecodePacked(f, dest.slots[k], sub.View());
    while sub.bytesLeft > 0 && |dest.slots[k].items| < f.arraySize
      invariant sub.Valid() && sub.buf == stream.buf && k < |dest.slots| && dest.slots[k].Many?
      invariant status && start == DecodePacked(f, dest.slots[k], sub.View())
      invariant dest.slots == first[k := dest.slots[k]]
      decreases sub.bytesLeft
      modifies sub, dest
    {
      var n;
      status, n := DecNumber(sub, f);
      if !status {
        break;
      }
      dest.slots := dest.slots[k := Append(dest.slots[k], Num(n))];
    }
    if !status || sub.bytesLeft != 0 {
      return false;
    }
    stream.CloseSubstream(sub);
  }

  /** A decode callback that reads its whole stream, and then decides. */
  method RunDecoder(sub: IStream, sink: Sink) returns (ok: bool, after: Sink)
    requires sub.Valid() && sink.Reader?
    modifies sub
    ensures sub.Valid() && sub.bytesLeft == 0 && sub.Limit() == old(sub.Limit())
    ensures var Cursor(data, left) := old(sub.View());
            && ok == sink.accepts(sink.got, data[..left])
            && after == Reader(sink.accepts, sink.got + [data[..left]])
            && sub.View() == Cursor(data[left..], 0)
  {
    var read, payload := sub.Read(sub.bytesLeft);
    ok := sink.accepts(sink.got, payload);
    after := Reader(sink.accepts, sink.got + [payload]);
  }

  /** decode_callback_field: the callback sees a substream of its own. */
  method DecCallback(stream: IStream, wireType: nat, slot: Slot) returns (ok: bool, after: Slot)
    requires stream.Valid() && slot.Hook?
    modifies stream
    ensures stream.Valid()
    ensures ok == DecodeCallback(slot, wireType, old(stream.View())).Ok?
    ensures ok ==> Ok(after, stream.View()) == DecodeCallback(slot, wireType, old(stream.View()))
  {
    after := slot;
    if slot.sink.NoDecoder? {
      ok := stream.SkipField(wireType);
      return;
    }
    if slot.sink.Stray? {
      return false, after;
    }
    var sink;
    if wireType == 2 {
      var sub;
      ok, sub := stream.MakeSubstream();
      if !ok {
        return;
      }
      ok, sink := RunDecoder(sub, slot.sink);
      if !ok {
        return;
      }
      stream.CloseSubstream(sub);
    } else {
      var buffer;
      ok, buffer := stream.ReadRawValue(wireType);
      if !ok {
        return;
      }
      var sub := new IStream(buffer, 0, |buffer|);
      assert buffer[..|buffer|] == buffer;
      ok, sink := RunDecoder(sub, slot.sink);
    }
    after := Hook(slot.emit, sink);
  }

  /** decode_static_field */
  method DecodeStaticField(stream: IStream, wireType: nat, f: Field, dest: Struct, k: nat) returns (ok: bool)
    requires stream.Valid() && RunnableField(f) && f.atype.Static? && k < |dest.slots|
    modifies stream, dest
    ensures stream.Valid()
    ensures ok == DecodeField(f, old(dest.slots[k]), wireType, old(stream.View())).Ok?
    ensures ok ==> var r := DecodeField(f, old(dest.slots[k]), wireType, old(stream.View()));
                   dest.slots == old(dest.slots)[k := r.value] && stream.View() == r.rest
    decreases stream.bytesLeft, 2
  {
    var v;
    match (f.htype, dest.slots[k]) {
      case (Required, Single(cur)) =>
        ok, v := DecValue(stream, f, cur);
        dest.slots := dest.slots[k := Single(v)];
      case (Optional, Single(cur)) =>
        ok, v := DecValue(stream, f, cur);
        dest.slots := dest.slots[k := Single(v)];
      case (Optional, Maybe(_, cur)) =>
        dest.slots := dest.slots[k := Maybe(true, cur)];
        ok, v := DecValue(stream, f, cur);
        dest.slots := dest.slots[k := Maybe(true, v)];
      case (Repeated, Many(items, spare)) =>
        if wireType == 2 && Packable(f.ltype) {
          ok := DecodePackedArray(stream, f, dest, k);
        } else if |items| >= f.arraySize {
          ok := false;
        } else {
          ok, v := DecValue(stream, f, Place(f, spare, 0));
          dest.slots := dest.slots[k := Append(dest.slots[k], v)];
        }
      case _ => ok := false;
    }
  }

  /** decode_field */
  method DecField(stream: IStream, wireType: nat, f: Field, dest: Struct, k: nat) returns (ok: bool)
    requires stream.Valid() && RunnableField(f) && k < |dest.slots|
    modifies stream, dest
    ensures stream.Valid()
    ensures ok == DecodeField(f, old(dest.slots[k]), wireType, old(stream.View())).Ok?
    ensures ok ==> var r := DecodeField(f, old(dest.slots[k]), wireType, old(stream.View()));
                   dest.slots == old(dest.slots)[k := r.value] && stream.View() == r.rest
    decreases stream.bytesLeft, 3
  {
    match f.atype {
      case Static => ok := DecodeStaticField(stream, wireType, f, dest, k);
      case Pointer => ok := false;
      case Callback =>
        if !dest.slots[k].Hook? {
          return false;
        }
        var slot;
        ok, slot := DecCallback(stream, wireType, dest.slots[k]);
        dest.slots := dest.slots[k := slot];
    }
  }

  // ---- Messages --------------------------------------------------------------------------------

  /** The count of required fields, from one lap of the iterator. */
  method CountRequired(iter: Iterator.FieldIter) returns (count: nat)
    requires iter.Valid() && iter.table != []
    modifies iter
    ensures count == RequiredCount(iter.table)
  {
    var t := iter.table;
    var last := t[iter.pos];
    count := iter.requiredFieldIndex;
    ghost var at := iter.pos;
    var more := iter.Next();
    while more
      invariant iter.Valid() && at < |t| && last == t[at] && count == RequiredBefore(t, at)
      invariant if more then iter.pos == at + 1 else at + 1 == |t|
      decreases |t| - at, more
    {
      last := t[iter.pos];
      count := iter.requiredFieldIndex;
      at := iter.pos;
      more := iter.Next();
    }
    assert RequiredCount(t) == RequiredBefore(t, at) + if last.htype.Required? then 1 else 0;
    if last.htype.Required? {
      count := count + 1;
    }
  }

  /** fields_seen[index >> 5] |= 1 << (index & 31) */
  method Mark(fieldsSeen: array<nat>, index: nat, ghost bits: set<nat>)
    requires fieldsSeen.Length == 2 && index < 64 && Bitmap(fieldsSeen[..], bits)
    modifies fieldsSeen
    ensures Bitmap(fieldsSeen[..], bits + {index})
  {
    ghost var words := fieldsSeen[..];
    MarkBit(words, bits, index);
    fieldsSeen[index / 32] := OrBit(fieldsSeen[index / 32], index % 32);
    assert fieldsSeen[..] == words[index / 32 := OrBit(words[index / 32], index % 32)];
  }

  /** The loop body behind a successful pb_field_iter_find. */
  method DecodeFound(stream: IStream, wireType: nat, iter: Iterator.FieldIter, dest: Struct,
                     fieldsSeen: array<nat>, ghost seen: set<nat>, ghost bits: set<nat>)
    returns (ok: bool, ghost bits': set<nat>)
    requires stream.Valid() && iter.Valid() && iter.table != [] && Runnable(iter.table)
    requires |dest.slots| == |iter.table|
    requires Tracks(iter.table, seen, bits) && fieldsSeen.Length == 2 && Bitmap(fieldsSeen[..], bits)
    modifies stream, dest, fieldsSeen
    ensures stream.Valid()
    ensures Tracks(iter.table, seen + {iter.pos}, bits') && Bitmap(fieldsSeen[..], bits')
    ensures var r := DecodeField(iter.table[iter.pos], old(dest.slots[iter.pos]), wireType, old(stream.View()));
            && ok == r.Ok?
            && (ok ==> dest.slots == old(dest.slots)[iter.pos := r.value] && stream.View() == r.rest)
    decreases stream.bytesLeft, 4
  {
    var f := iter.table[iter.pos];
    TrackOne(iter.table, seen, bits, iter.pos);
    bits' := bits;
    assert RunnableField(f);
    if f.htype.Required? {
      RequiredIndexIsBounded(iter.table, iter.pos);
    }
    if f.htype.Required? && iter.requiredFieldIndex < 64 {
      Mark(fieldsSeen, iter.requiredFieldIndex, bits);
      bits' := bits + {iter.requiredFieldIndex};
    }
    ok := DecField(stream, wireType, f, dest, iter.pos);
  }

  lemma {:induction false} RoundWithoutField(t: seq<Field>, st: Progress, i: Input)
    requires i.left > 0 && Decoder.DecodeTag(i).Tag?
    requires Find(t, Decoder.DecodeTag(i).number).None?
    ensures var Tag(w, n, rest) := Decoder.DecodeTag(i);
            Step(t, st, i) == if t == [] && n == 0 then Error
                              else match SkipField(rest, w) case Fail => Error case Ok(_, rest') => Next(st, rest')
  {
    var Tag(w, n, rest) := Decoder.DecodeTag(i);
    var record := DecodeRecord(t, st, w, n, rest);
  }

  lemma {:induction false} RoundWithField(t: seq<Field>, st: Progress, i: Input, k: nat)
    requires i.left > 0 && Decoder.DecodeTag(i).Tag? && |st.slots| == |t|
    requires Find(t, Decoder.DecodeTag(i).number) == Some(k)
    ensures var Tag(w, n, rest) := Decoder.DecodeTag(i);
            Step(t, st, i) == match DecodeField(t[k], st.slots[k], w, rest)
                              case Fail => Error
                              case Ok(slot, rest') => Next(Progress(st.slots[k := slot], st.seen + {k}), rest')
  {
    var Tag(w, n, rest) := Decoder.DecodeTag(i);
    var record := DecodeRecord(t, st, w, n, rest);
  }

  /** The body of the field loop. */
  method DecodeRound(stream: IStream, iter: Iterator.FieldIter, dest: Struct,
                     fieldsSeen: array<nat>, ghost seen: set<nat>, ghost bits: set<nat>)
    returns (ok: bool, eof: bool, ghost seen': set<nat>, ghost bits': set<nat>)
    requires stream.Valid() && stream.bytesLeft > 0 && iter.Valid() && Runnable(iter.table)
    requires |dest.slots| == |iter.table|
    requires Tracks(iter.table, seen, bits) && Bitmap(fieldsSeen[..], bits)
    modifies stream, dest, fieldsSeen, iter
    ensures stream.Valid() && iter.Valid()
    ensures Tracks(iter.table, seen', bits') && Bitmap(fieldsSeen[..], bits')
    ensures ok || eof ==> |dest.slots| == |iter.table|
    ensures match Step(iter.table, Progress(old(dest.slots), seen), old(stream.View()))
            case Stop(rest) => !ok && eof && dest.slots == old(dest.slots) && seen' == seen && stream.View() == rest
            case Error => !ok && !eof
            case Next(st, rest) => ok && !eof && st == Progress(dest.slots, seen') && stream.View() == rest
    decreases stream.bytesLeft, 5
  {
    var wireType, tag;
    ghost var t, st, i := iter.table, Progress(dest.slots, seen), stream.View();
    seen', bits' := seen, bits;
    ok, wireType, tag, eof := stream.DecodeTag();
    if !ok {
      return;
    }
    var found := iter.Find(tag);
    if !found {
      RoundWithoutField(t, st, i);
      ok := stream.SkipField(wireType);
    } else if iter.table == [] {
      RoundWithoutField(t, st, i);
      ok := false;
    } else {
      Iterator.FoundIsUnique(t, tag, iter.pos);
      RoundWithField(t, st, i, iter.pos);
      ok, bits' := DecodeFound(stream, wireType, iter, dest, fieldsSeen, seen, bits);
      seen' := seen + {iter.pos};
    }
  }

  /** "Check that all required fields were present" */
  method CheckRequired(iter: Iterator.FieldIter, fieldsSeen: array<nat>, ghost seen: set<nat>, ghost bits: set<nat>)
    returns (ok: bool)
    requires iter.Valid() && Runnable(iter.table)
    requires Tracks(iter.table, seen, bits) && Bitmap(fieldsSeen[..], bits)
    modifies iter
    ensures ok <==> AllRequired(iter.table, seen)
  {
    AllBitsAreAllRequired(iter.table, seen, bits);
    var count := 0;
    if iter.table != [] {
      count := CountRequired(iter);
    }
    ok := AllSeen(fieldsSeen, bits, count);
  }

  /** pb_decode_noinit */
  method DecodeNoInit(stream: IStream, t: seq<Field>, dest: Struct) returns (ok: bool)
    requires stream.Valid() && Runnable(t) && |dest.slots| == |t|
    modifies stream, dest
    ensures stream.Valid()
    ensures ok == DecodeMessage(t, old(dest.slots), old(stream.View())).Ok?
    ensures ok ==> Ok(dest.slots, stream.View()) == DecodeMessage(t, old(dest.slots), old(stream.View()))
    decreases stream.bytesLeft, 6
  {
    RunnableHasLayout(t);
    var fieldsSeen := new nat[2](_ => 0);
    assert fieldsSeen[..] == [0, 0];
    EmptyBitmap();
    var iter := new Iterator.FieldIter(t, 0, Iterator.Layout(t, |t|));
    ghost var whole, seen, bits := DecodeFields(t, Progress(dest.slots, {}), stream.View()), {}, {};
    var eof := false;
    while stream.bytesLeft > 0 && !eof
      invariant stream.Valid() && iter.Valid() && |dest.slots| == |t|
      invariant Tracks(t, seen, bits) && Bitmap(fieldsSeen[..], bits)
      invariant whole == if eof then Ok(Progress(dest.slots, seen), stream.View())
                         else DecodeFields(t, Progress(dest.slots, seen), stream.View())
      decreases stream.bytesLeft, !eof
    {
      var more;
      more, eof, seen, bits := DecodeRound(stream, iter, dest, fieldsSeen, seen, bits);
      if !more && !eof {
        return false;
      }
    }
    ok := CheckRequired(iter, fieldsSeen, seen, bits);
  }

  /** pb_decode */
  method Decode(stream: IStream, t: seq<Field>, dest: Struct) returns (ok: bool)
    requires stream.Valid() && Runnable(t) && |dest.slots| == |t|
    modifies stream, dest
    ensures stream.Valid()
    ensures ok == Decoder.Decode(t, old(dest.slots), old(stream.View())).Ok?
    ensures ok ==> Ok(dest.slots, stream.View()) == Decoder.Decode(t, old(dest.slots), old(stream.View()))
  {
    SetMessageToDefaults(t, dest);
    ok := DecodeNoInit(stream, t, dest);
  }

  /** pb_decode_delimited */
  method DecodeDelimited(stream: IStream, t: seq<Field>, dest: Struct) returns (ok: bool)
    requires stream.Valid() && Runnable(t) && |dest.slots| == |t|
    modifies stream, dest
    ensures ok ==> stream.Valid()
    ensures ok <==> match Varint.DecodeVarint32(old(stream.View()))
                    case Fail => false
                    case Ok(size, rest) =>
                      size <= rest.left && Decoder.Decode(t, old(dest.slots), Cursor(rest.data, size)).Ok?
    ensures ok ==> var Ok(size, rest) := Varint.DecodeVarint32(old(stream.View()));
                   var Ok(m, sub) := Decoder.Decode(t, old(dest.slots), Cursor(rest.data, size));
                   dest.slots == m && stream.View() == Cursor(sub.data, rest.left - size)
  {
    var sub;
    ok, sub := stream.MakeSubstream();
    if !ok {
      return;
    }
    ok := Decode(sub, t, dest);
    if ok {
      stream.CloseSubstream(sub);
    }
  }
}
