/**
 A reader looks at nothing behind the end of its stream, and a reader that succeeds
 would have done the same had more bytes been allowed.
 */
module Framing {
  import opened Wire
  import opened Varint
  import opened Schema
  import opened Decoder
  import Scalars

  /** Bytes behind the end of the stream change nothing, not even a failure. */
  lemma {:induction false} Varint32Blind(i: Input, b: seq<byte>)
    ensures DecodeVarint32(i).Fail? ==> DecodeVarint32(Extend(i, b, 0)).Fail?
    ensures DecodeVarint32(i).Ok? ==>
              DecodeVarint32(Extend(i, b, 0)) == Ok(DecodeVarint32(i).value, Extend(DecodeVarint32(i).rest, b, 0))
  {
    if ReadVarint(i, 5).Ok? {
      ReadVarintFrame(i, 5, b, 0);
    } else {
      FailureIsAllContinuation(i, 5);
      FailureIsAllContinuation(Extend(i, b, 0), 5);
    }
  }

  lemma {:induction false} Varint32Frame(i: Input, b: seq<byte>, k: nat)
    requires i.left + k <= |i.data| + |b|
    requires DecodeVarint32(i).Ok?
    ensures DecodeVarint32(Extend(i, b, k)) == Ok(DecodeVarint32(i).value, Extend(DecodeVarint32(i).rest, b, k))
  {
    ReadVarintFrame(i, 5, b, k);
  }

  lemma {:induction false} SkipExtend(i: Input, n: nat, b: seq<byte>, k: nat)
    requires n <= i.left && i.left + k <= |i.data| + |b|
    ensures Skip(Extend(i, b, k), n) == Extend(Skip(i, n), b, k)
  {
    assert (i.data + b)[n..] == i.data[n..] + b;
  }

  lemma {:induction false} TagBlind(i: Input, b: seq<byte>)
    ensures var r := DecodeTag(i);
            DecodeTag(Extend(i, b, 0)) ==
            match r
            case Eof(rest) => Eof(Extend(rest, b, 0))
            case BadTag => BadTag
            case Tag(wireType, number, rest) => Tag(wireType, number, Extend(rest, b, 0))
  {
    Varint32Blind(i, b);
    SkipExtend(i, i.left, b, 0);
  }

  lemma {:induction false} TagFrame(i: Input, b: seq<byte>, k: nat)
    requires i.left + k <= |i.data| + |b|
    requires DecodeTag(i).Tag?
    ensures var r := DecodeTag(i);
            DecodeTag(Extend(i, b, k)) == Tag(r.wireType, r.number, Extend(r.rest, b, k))
  {
    Varint32Frame(i, b, k);
  }

  /** A result, when the buffer goes on with `b` and k more bytes may be read. */
  ghost predicate SameResult<T(!new)>(x: Result<T>, y: Result<T>, b: seq<byte>, k: nat) {
    match x
    case Fail => k == 0 ==> y.Fail?
    case Ok(v, rest) => rest.left + k <= |rest.data| + |b| && y == Ok(v, Extend(rest, b, k))
  }

  lemma {:induction false} ReadSame(i: Input, n: nat, b: seq<byte>, k: nat)
    requires i.left + k <= |i.data| + |b|
    ensures SameResult(Read(i, n), Read(Extend(i, b, k), n), b, k)
  {
    if n <= i.left { ReadFrame(i, n, b, k); }
  }

  lemma {:induction false} SkipBytesSame(i: Input, n: nat, b: seq<byte>, k: nat)
    requires i.left + k <= |i.data| + |b|
    ensures SameResult(SkipBytes(i, n), SkipBytes(Extend(i, b, k), n), b, k)
  {
    if n <= i.left { SkipExtend(i, n, b, k); }
  }

  lemma {:induction false} Varint32Same(i: Input, b: seq<byte>, k: nat)
    requires i.left + k <= |i.data| + |b|
    ensures SameResult(DecodeVarint32(i), DecodeVarint32(Extend(i, b, k)), b, k)
  {
    if DecodeVarint32(i).Ok? { Varint32Frame(i, b, k); }
    if k == 0 { Varint32Blind(i, b); }
  }

  lemma {:induction false} VarintSame(i: Input, b: seq<byte>, k: nat)
    requires i.left + k <= |i.data| + |b|
    ensures SameResult(DecodeVarint(i), DecodeVarint(Extend(i, b, k)), b, k)
  {
    if ReadVarint(i, 10).Ok? {
      ReadVarintFrame(i, 10, b, k);
    } else if k == 0 {
      FailureIsAllContinuation(i, 10);
      FailureIsAllContinuation(Extend(i, b, 0), 10);
    }
  }

  lemma {:induction false} SkipVarintSame(i: Input, b: seq<byte>, k: nat)
    requires i.left + k <= |i.data| + |b|
    ensures SameResult(SkipVarint(i), SkipVarint(Extend(i, b, k)), b, k)
    decreases i.left
  {
    if i.left > 0 {
      SkipExtend(i, 1, b, k);
      if i.data[0] >= 128 { SkipVarintSame(Skip(i, 1), b, k); }
    }
  }

  lemma {:induction false} SkipFieldSame(i: Input, wireType: nat, b: seq<byte>, k: nat)
    requires i.left + k <= |i.data| + |b|
    ensures SameResult(SkipField(i, wireType), SkipField(Extend(i, b, k), wireType), b, k)
  {
    match wireType
    case 0 => SkipVarintSame(i, b, k);
    case 1 => SkipBytesSame(i, 8, b, k);
    case 2 =>
      Varint32Same(i, b, k);
      if DecodeVarint32(i).Ok? { SkipBytesSame(DecodeVarint32(i).rest, DecodeVarint32(i).value, b, k); }
    case 5 => SkipBytesSame(i, 4, b, k);
    case _ =>
  }

  lemma {:induction false} RawVarintSame(i: Input, max: nat, b: seq<byte>, k: nat)
    requires i.left + k <= |i.data| + |b|
    ensures SameResult(RawVarint(i, max), RawVarint(Extend(i, b, k), max), b, k)
    decreases max
  {
    if max > 0 && i.left > 0 {
      SkipExtend(i, 1, b, k);
      if i.data[0] >= 128 { RawVarintSame(Skip(i, 1), max - 1, b, k); }
    }
  }

  lemma {:induction false} OfferedSame(i: Input, wireType: nat, b: seq<byte>, k: nat)
    requires i.left + k <= |i.data| + |b|
    ensures SameResult(Offered(i, wireType), Offered(Extend(i, b, k), wireType), b, k)
  {
    match wireType
    case 0 => RawVarintSame(i, 10, b, k);
    case 1 => ReadSame(i, 8, b, k);
    case 2 =>
      Varint32Same(i, b, k);
      if DecodeVarint32(i).Ok? { ReadSame(DecodeVarint32(i).rest, DecodeVarint32(i).value, b, k); }
    case 5 => ReadSame(i, 4, b, k);
    case _ =>
  }

  lemma {:induction false} CallbackSame(slot: Slot, wireType: nat, i: Input, b: seq<byte>, k: nat)
    requires slot.Hook? && i.left + k <= |i.data| + |b|
    ensures SameResult(DecodeCallback(slot, wireType, i), DecodeCallback(slot, wireType, Extend(i, b, k)), b, k)
  {
    match slot.sink
    case NoDecoder => SkipFieldSame(i, wireType, b, k);
    case Reader(_, _) => OfferedSame(i, wireType, b, k);
    case Stray =>
  }

  lemma {:induction false} NumberSame(l: LType, size: nat, i: Input, b: seq<byte>, k: nat)
    requires i.left + k <= |i.data| + |b|
    ensures SameResult(Scalars.Decode(l, size, i), Scalars.Decode(l, size, Extend(i, b, k)), b, k)
  {
    match l
    case Fixed32 => ReadSame(i, 4, b, k);
    case Fixed64 => ReadSame(i, 8, b, k);
    case _ => VarintSame(i, b, k);
  }

  lemma {:induction false} PackedSame(f: Field, slot: Slot, i: Input, b: seq<byte>)
    requires slot.Many?
    ensures SameResult(DecodePacked(f, slot, i), DecodePacked(f, slot, Extend(i, b, 0)), b, 0)
    decreases i.left
  {
    if i.left > 0 {
      NumberSame(f.ltype, f.dataSize, i, b, 0);
      var r := Scalars.Decode(f.ltype, f.dataSize, i);
      if r.Ok? { PackedSame(f, Append(slot, Num(r.value)), r.rest, b); }
    }
  }

  lemma {:induction false} BlobSame(f: Field, i: Input, b: seq<byte>, k: nat)
    requires i.left + k <= |i.data| + |b|
    ensures SameResult(DecodeBlob(f, i), DecodeBlob(f, Extend(i, b, k)), b, k)
  {
    Varint32Same(i, b, k);
    if DecodeVarint32(i).Ok? { ReadSame(DecodeVarint32(i).rest, DecodeVarint32(i).value, b, k); }
  }

  lemma {:induction false} ValueSame(f: Field, cur: Value, i: Input, b: seq<byte>, k: nat)
    requires i.left + k <= |i.data| + |b|
    ensures SameResult(DecodeValue(f, cur, i), DecodeValue(f, cur, Extend(i, b, k)), b, k)
    decreases i.left, 0, 1
  {
    if f.ltype.SubMessage? {
      SubmessageSame(f, cur, i, b, k);
    } else if Packable(f.ltype) {
      NumberSame(f.ltype, f.dataSize, i, b, k);
    } else if !f.ltype.Extension? {
      BlobSame(f, i, b, k);
    }
  }

  lemma {:induction false} SubmessageSame(f: Field, cur: Value, i: Input, b: seq<byte>, k: nat)
    requires f.ltype.SubMessage? && i.left + k <= |i.data| + |b|
    ensures SameResult(DecodeValue(f, cur, i), DecodeValue(f, cur, Extend(i, b, k)), b, k)
    decreases i.left, 0, 0
  {
    Varint32Same(i, b, k);
    if DecodeVarint32(i).Ok? && cur.Msg? {
      var t := f.ltype.table;
      var Ok(size, rest) := DecodeVarint32(i);
      var start := if f.htype.Repeated? then SetDefaults(t, cur.slots) else cur.slots;
      if size <= rest.left { MessageBlind(t, start, Cursor(rest.data, size), b); }
    }
  }

  lemma {:induction false} PackedFieldSame(f: Field, slot: Slot, i: Input, b: seq<byte>, k: nat)
    requires f.atype.Static? && f.htype.Repeated? && Packable(f.ltype) && slot.Many? && i.left + k <= |i.data| + |b|
    ensures SameResult(DecodeField(f, slot, 2, i), DecodeField(f, slot, 2, Extend(i, b, k)), b, k)
  {
    Varint32Same(i, b, k);
    if DecodeVarint32(i).Ok? {
      var Ok(size, rest) := DecodeVarint32(i);
      if size <= rest.left { PackedSame(f, slot, Cursor(rest.data, size), b); }
    }
  }

  lemma {:induction false} ElementSame(f: Field, slot: Slot, wireType: nat, i: Input, b: seq<byte>, k: nat)
    requires f.atype.Static? && slot.Many? && i.left + k <= |i.data| + |b|
    ensures SameResult(DecodeField(f, slot, wireType, i), DecodeField(f, slot, wireType, Extend(i, b, k)), b, k)
    decreases i.left, 1
  {
    if f.htype.Repeated? {
      if wireType == 2 && Packable(f.ltype) {
        PackedFieldSame(f, slot, i, b, k);
      } else {
        ValueSame(f, Place(f, slot.spare, 0), i, b, k);
      }
    }
  }

  lemma {:induction false} SingleSame(f: Field, slot: Slot, wireType: nat, i: Input, b: seq<byte>, k: nat)
    requires f.atype.Static? && (slot.Single? || slot.Maybe?) && i.left + k <= |i.data| + |b|
    ensures SameResult(DecodeField(f, slot, wireType, i), DecodeField(f, slot, wireType, Extend(i, b, k)), b, k)
    decreases i.left, 1
  {
    ValueSame(f, slot.value, i, b, k);
  }

  lemma {:induction false} FieldSame(f: Field, slot: Slot, wireType: nat, i: Input, b: seq<byte>, k: nat)
    requires i.left + k <= |i.data| + |b|
    ensures SameResult(DecodeField(f, slot, wireType, i), DecodeField(f, slot, wireType, Extend(i, b, k)), b, k)
    decreases i.left, 2
  {
    match f.atype
    case Callback => if slot.Hook? { CallbackSame(slot, wireType, i, b, k); }
    case Static =>
      if slot.Many? {
        ElementSame(f, slot, wireType, i, b, k);
      } else if !slot.Hook? {
        SingleSame(f, slot, wireType, i, b, k);
      }
    case Pointer =>
  }

  lemma {:induction false} RecordSame(t: seq<Field>, st: Progress, wireType: nat, number: nat, i: Input, b: seq<byte>, k: nat)
    requires i.left + k <= |i.data| + |b|
    ensures SameResult(DecodeRecord(t, st, wireType, number, i), DecodeRecord(t, st, wireType, number, Extend(i, b, k)), b, k)
    decreases i.left, 3
  {
    match Find(t, number)
    case None => SkipFieldSame(i, wireType, b, k);
    case Some(n) => if n < |st.slots| { FieldSame(t[n], st.slots[n], wireType, i, b, k); }
  }

  /** A record that is accepted is accepted with the same effect when more input is allowed. */
  lemma {:induction false} StepFrame(t: seq<Field>, st: Progress, i: Input, b: seq<byte>, k: nat)
    requires i.left > 0 && i.left + k <= |i.data| + |b|
    requires Step(t, st, i).Next?
    ensures var r := Step(t, st, i);
            Step(t, st, Extend(i, b, k)) == Next(r.state, Extend(r.rest, b, k))
    decreases i.left, 4
  {
    TagFrame(i, b, k);
    var tag := DecodeTag(i);
    RecordSame(t, st, tag.wireType, tag.number, tag.rest, b, k);
  }

  /** A round of the field loop, whether it succeeds or not, does not look behind the stream. */
  lemma {:induction false} StepBlind(t: seq<Field>, st: Progress, i: Input, b: seq<byte>)
    requires i.left > 0
    ensures Step(t, st, Extend(i, b, 0)) ==
            match Step(t, st, i)
            case Stop(rest) => Stop(Extend(rest, b, 0))
            case Error => Error
            case Next(st', rest) => Next(st', Extend(rest, b, 0))
    decreases i.left, 4
  {
    TagBlind(i, b);
    var tag := DecodeTag(i);
    if tag.Tag? { RecordSame(t, st, tag.wireType, tag.number, tag.rest, b, 0); }
  }

  lemma {:induction false} FieldsBlind(t: seq<Field>, st: Progress, i: Input, b: seq<byte>)
    ensures SameResult(DecodeFields(t, st, i), DecodeFields(t, st, Extend(i, b, 0)), b, 0)
    decreases i.left, 5
  {
    if i.left > 0 {
      StepBlind(t, st, i, b);
      var step := Step(t, st, i);
      if step.Next? { FieldsBlind(t, step.state, step.rest, b); }
    }
  }

  /** What a message decodes to, or that it is refused, does not depend on the bytes behind its stream. */
  lemma {:induction false} MessageBlind(t: seq<Field>, slots: seq<Slot>, i: Input, b: seq<byte>)
    ensures SameResult(DecodeMessage(t, slots, i), DecodeMessage(t, slots, Extend(i, b, 0)), b, 0)
    decreases i.left, 6
  {
    FieldsBlind(t, Progress(slots, {}), i, b);
  }
}
