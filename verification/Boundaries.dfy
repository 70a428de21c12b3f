/** Where the round trip stops: single fields on which it fails, and exactly when. */
module Boundaries {
  import opened Wire
  import opened Schema
  import opened Decoder
  import opened Encoder
  import opened RoundTrip
  import opened Disturbance
  import ExactRoundTrip
  import Iterator
  import Merge

  /**
   A singular number with a default cannot carry zero, in any place of any table: it is
   not sent, and the default comes back instead.  Every other value comes back.
   */
  lemma {:induction false} SingularDefaultLosesZero(
    t: seq<Field>, m: seq<Slot>, d: seq<Slot>, k: nat, n: int, default: int)
    requires WfTable(t) && ValidMessage(t, m) && Listens(t, m, d) && Undisturbed(t, m, d, false)
    requires |EncodeMessage(t, m).out| < TWO_32
    requires k < |t| && t[k].atype.Static? && Singular(t[k]) && Packable(t[k].ltype) && WordSize(t[k].dataSize)
    requires t[k].default == Some(Num(default)) && m[k] == Single(Num(n))
    ensures var r := Decode(t, d, All(EncodeMessage(t, m).out));
            r.Ok? && |r.value| == |t| && r.value[k] == Single(Num(if n == 0 then default else n))
  {
    assert ValidSlot(t[k], m[k]) && ListensSlot(t[k], m[k], d[k]);
    ExactRoundTrip.DecodeUndoesEncode(t, m, d);
    NumberReceived(t[k], n, default, d[k]);
    var start := SetDefaults(t, d);
    assert ReceivedMessage(t, m, start)[k] == ReceivedSlot(t[k], m[k], start[k]);
  }

  lemma {:induction false} NumberReceived(f: Field, n: int, default: int, d: Slot)
    requires f.atype.Static? && Singular(f) && Packable(f.ltype) && WordSize(f.dataSize)
    requires f.default == Some(Num(default)) && d.Single?
    ensures ReceivedSlot(f, Single(Num(n)), SetDefault(f, d)) == Single(Num(if n == 0 then default else n))
  {
    assert Absent(f, Num(n)) <==> n == 0;
  }

  /** Text that fills its array to the last byte can be sent, but not received: there is no room for the NUL. */
  lemma {:induction false} FullTextIsRefused(f: Field, b: seq<byte>)
    requires f.ltype.String? && |b| <= f.dataSize <= 255 && 0 !in b
    ensures EncodeValue(f, Blob(b)) == Encoder.Write(EncodeString(b))
    ensures DecodeBlob(f, All(EncodeString(b))) == Ok(Blob(b), All([])) <==> |b| < f.dataSize
    ensures DecodeBlob(f, All(EncodeString(b))).Fail? <==> |b| == f.dataSize
  {
    DelimitedWindow(b);
    if |b| < f.dataSize { BlobRoundTrip(f, b); }
  }

  /** Bytes are sent and come back exactly when they leave room for the count in front of them. */
  lemma {:induction false} BytesFitOrAreRefused(f: Field, b: seq<byte>)
    requires f.ltype.Bytes? && f.dataSize <= 255 && |b| < TWO_32
    ensures EncodeValue(f, Blob(b)).ok <==> |b| + 1 <= f.dataSize
    ensures DecodeBlob(f, All(EncodeString(b))) == Ok(Blob(b), All([])) <==> |b| + 1 <= f.dataSize
    ensures DecodeBlob(f, All(EncodeString(b))).Fail? <==> |b| + 1 > f.dataSize
  {
    DelimitedWindow(b);
    if |b| + 1 <= f.dataSize { BlobRoundTrip(f, b); }
  }

  /** Inline bytes come back exactly when there are as many as the field has. */
  lemma {:induction false} InlineBytesMatchOrAreRefused(f: Field, b: seq<byte>)
    requires f.ltype.FixedLengthBytes? && f.dataSize <= 255 && |b| < TWO_32
    ensures DecodeBlob(f, All(EncodeString(b))) == Ok(Blob(b), All([])) <==> |b| == f.dataSize
    ensures DecodeBlob(f, All(EncodeString(b))).Fail? <==> |b| != f.dataSize
  {
    DelimitedWindow(b);
    if |b| == f.dataSize { BlobRoundTrip(f, b); }
  }

  /** Text and bytes are delimited by a 32-bit length, and refused when they exceed the field. */
  lemma {:induction false} BlobIsDelimited(f: Field, i: Input)
    requires f.ltype.String? || f.ltype.Bytes? || f.ltype.FixedLengthBytes?
    ensures match ReadDelimited(i)
            case Fail => DecodeBlob(f, i).Fail?
            case Ok(b, rest) =>
              if f.ltype.String? then
                DecodeBlob(f, i) == if |b| < f.dataSize then Ok(Blob(CString(b)), rest) else Fail
              else
                DecodeBlob(f, i) ==
                if |b| <= 255 && (if f.ltype.Bytes? then |b| < f.dataSize else |b| == f.dataSize) then Ok(Blob(b), rest)
                else Fail
  {
  }

  // ---- Singular fields that are not sent ------------------------------------------------------

  predicate IsWord(n: nat) { n == 1 || n == 2 || n == 4 || n == 8 }

  /**
   A singular field is left out exactly when it is empty text or bytes, or zero in a member
   of 1, 2, 4 or 8 bytes; other members are sent even when they are zero.
   */
  lemma {:induction false} SingularIsLeftOut(f: Field, v: Value)
    requires WfField(f) && f.atype.Static? && Singular(f) && ValidValue(f, v)
    ensures EncodeField(f, Single(v)) == NOTHING <==>
            match f.ltype
            case String => v.bytes == []
            case Bytes => v.bytes == []
            case FixedLengthBytes => IsWord(f.dataSize) && forall k :: 0 <= k < |v.bytes| ==> v.bytes[k] == 0
            case SubMessage(t) => IsWord(f.dataSize) && IsZeroMessage(t, v.slots)
            case Extension => false
            case _ => IsWord(f.dataSize) && v.n == 0
  {
    ValidValueEncodes(f, v);
    assert |EncodeTag(WireType(f.ltype), f.tag)| >= 1;
  }

  /** Memory cleared with memset is zero. */
  lemma {:induction false} ClearedIsZero(t: seq<Field>)
    ensures IsZeroMessage(t, ZeroSlots(t))
    decreases t
  {
    forall i | 0 <= i < |t| ensures IsZeroSlot(t[i], ZeroSlots(t)[i]) { ClearedSlotIsZero(t[i]); }
  }

  lemma {:induction false} ClearedSlotIsZero(f: Field)
    ensures IsZeroSlot(f, ZeroSlot(f)) && IsZeroValue(f, ZeroValue(f))
    decreases f
  {
    if f.ltype.SubMessage? { ClearedIsZero(f.ltype.table); }
  }

  /** In zero memory there is no flag, count, number, text or callback that is not zero. */
  lemma {:induction false} ZeroMeansZero(t: seq<Field>, m: seq<Slot>, i: nat)
    requires IsZeroMessage(t, m) && i < |t|
    ensures match m[i]
            case Single(v) => (v.Num? ==> v.n == 0) && (v.Blob? ==> forall k :: 0 <= k < |v.bytes| ==> v.bytes[k] == 0)
            case Maybe(has, v) =>
              !has && (v.Num? ==> v.n == 0) && (v.Blob? ==> forall k :: 0 <= k < |v.bytes| ==> v.bytes[k] == 0)
            case Many(items, spare) =>
              items == [] && forall j :: 0 <= j < |spare| && spare[j].Num? ==> spare[j].n == 0
            case Hook(emit, sink) => emit.NoEncoder? && sink.NoDecoder?
  {
    assert IsZeroSlot(t[i], m[i]);
  }

  // ---- A callback at the beginning of a singular submessage ---------------------------------

  /** struct { pb_callback_t text; int32_t number; } */
  const INNER: seq<Field> := [
    Field(1, String, Optional, Callback, 0, 0, 8, 0, None),
    Field(2, Varint, Optional, Static, 0, 0, 4, 0, None)]

  const OUTER: seq<Field> := [Field(1, SubMessage(INNER), Optional, Static, 0, 0, 12, 0, None)]

  /** The structure with this callback and this number. */
  function Structure(emit: Emitter, sink: Sink, n: int): seq<Slot> {
    [Single(Msg([Hook(emit, sink), Single(Num(n))]))]
  }

  lemma {:induction false} OuterIsWellFormed()
    ensures WfTable(OUTER) && !Sheltered(OUTER) && Iterator.Describes(OUTER, [0]) && Iterator.Describes(INNER, [0, 8])
  {
    assert RequiredBefore(INNER, 1) == 0 && RequiredBefore(INNER, 2) == 0;
    assert RequiredBefore(OUTER, 1) == 0;
    assert forall i :: 0 <= i < |INNER| ==> WfField(INNER[i]);
    assert WfTable(INNER);
    assert AtStart(INNER, 0) && IsCallbackFirst(INNER[0]);
    assert CallbackFirst(INNER);
    assert !ShelteredField(OUTER[0]);
  }

  lemma {:induction false} StructureIsValid(text: seq<byte>, n: int)
    requires -(TWO_32 / 2) <= n < TWO_32 / 2 && |text| < TWO_32
    ensures ValidMessage(OUTER, Structure(Records([text]), NoDecoder, n))
  {
    var m := Structure(Records([text]), NoDecoder, n);
    var inner := m[0].value.slots;
    assert ValidSlot(INNER[0], inner[0]) && ValidSlot(INNER[1], inner[1]);
    assert ValidMessage(INNER, inner) && ValidSlot(OUTER[0], m[0]);
  }

  lemma {:induction false} OnlyCallbackIsDisturbed(text: seq<byte>, n: int, sink: Sink)
    requires !sink.Stray? && (sink.Reader? ==> sink.accepts(sink.got, text))
    ensures var m, d := Structure(Records([text]), NoDecoder, n), Structure(NoEncoder, sink, 0);
            Listens(OUTER, m, d) && (Undisturbed(OUTER, m, d, false) <==> sink.NoDecoder?)
  {
    var m, d := Structure(Records([text]), NoDecoder, n), Structure(NoEncoder, sink, 0);
    var inner, place := m[0].value.slots, d[0].value.slots;
    assert sink.Reader? ==> sink.got + [text][..0] == sink.got;
    assert ListensSlot(INNER[0], inner[0], place[0]) && ListensSlot(INNER[1], inner[1], place[1]);
    assert Listens(INNER, inner, place) && ListensSlot(OUTER[0], m[0], d[0]);
    assert AtStart(INNER, 0) && AtStart(OUTER, 0);
    assert UndisturbedSlot(INNER[0], inner[0], place[0], true) <==> sink.NoDecoder?;
    assert UndisturbedSlot(INNER[1], inner[1], place[1], false);
    assert Undisturbed(INNER, inner, place, true) <==> sink.NoDecoder?;
    assert UndisturbedSlot(OUTER[0], m[0], d[0], false) <==> sink.NoDecoder?;
  }

  /**
   pb_field_set_to_default writes `false` through pSize, which is the first byte of the
   submessage and of the callback in it.  The text that is sent makes the decoder call the
   damaged pointer.  Without a callback there the message is received.
   */
  lemma {:induction false} SingularSubmessageLosesCallback(text: seq<byte>, n: int, sink: Sink)
    requires -(TWO_32 / 2) <= n < TWO_32 / 2 && |text| < TWO_32
    requires !sink.Stray? && (sink.Reader? ==> sink.accepts(sink.got, text))
    requires |EncodeMessage(OUTER, Structure(Records([text]), NoDecoder, n)).out| < TWO_32
    ensures var m, d := Structure(Records([text]), NoDecoder, n), Structure(NoEncoder, sink, 0);
            && ValidMessage(OUTER, m) && Listens(OUTER, m, d)
            && (Decode(OUTER, d, All(EncodeMessage(OUTER, m).out)).Ok? <==> sink.NoDecoder?)
  {
    OuterIsWellFormed();
    StructureIsValid(text, n);
    OnlyCallbackIsDisturbed(text, n, sink);
    ExactRoundTrip.DecodeUndoesEncode(
      OUTER, Structure(Records([text]), NoDecoder, n), Structure(NoEncoder, sink, 0));
  }

  // ---- The table of Merge ---------------------------------------------------------------------

  /** struct { bool has_inner; struct { uint32_t number; } inner; uint32_t number; } */
  lemma {:induction false} MergeTableIsWellFormed()
    ensures WfTable(Merge.OUTER) && Iterator.SizesPrecede(Merge.OUTER)
    ensures Iterator.Describes(Merge.OUTER, [4, 8])
  {
    var inner := [Merge.NUMBER];
    assert RequiredBefore(inner, 1) == 0;
    assert RequiredBefore(Merge.OUTER, 1) == 0 && RequiredBefore(Merge.OUTER, 2) == 0;
    assert forall i :: 0 <= i < |inner| ==> WfField(inner[i]);
    assert WfTable(inner);
    assert WfField(Merge.OUTER[0]) && WfField(Merge.OUTER[1]);
  }
}
