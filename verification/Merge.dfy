/**
 Decoding one message after another into the same structure, and the one thing that can
 go wrong: a submessage that stops before the end of its length leaves the read pointer
 behind (pb_close_string_substream does not drain it).
 */
module Merge {
  import opened Wire
  import opened Varint
  import opened Schema
  import opened Decoder
  import opened Records
  import Scalars

  predicate NoRequired(t: seq<Field>) { forall k :: 0 <= k < |t| ==> !t[k].htype.Required? }

  /** The same required fields have been seen. */
  ghost predicate SameRequired(t: seq<Field>, a: set<nat>, b: set<nat>) {
    forall k :: 0 <= k < |t| && t[k].htype.Required? ==> (k in a <==> k in b)
  }

  lemma {:induction false} RecordIsPassive(t: seq<Field>, slots: seq<Slot>, a: set<nat>, b: set<nat>, wireType: nat, number: nat, i: Input)
    ensures var x := DecodeRecord(t, Progress(slots, a), wireType, number, i);
            var y := DecodeRecord(t, Progress(slots, b), wireType, number, i);
            && (x.Ok? <==> y.Ok?)
            && (x.Ok? ==> x.value.slots == y.value.slots && x.rest == y.rest)
            && (x.Ok? && SameRequired(t, a, b) ==> SameRequired(t, x.value.seen, y.value.seen))
            && (x.Ok? && a <= b ==> x.value.seen <= y.value.seen)
  {
  }

  /** Which fields have occurred does not influence the field loop. */
  lemma {:induction false} SeenIsPassive(t: seq<Field>, slots: seq<Slot>, a: set<nat>, b: set<nat>, i: Input)
    ensures var x := DecodeFields(t, Progress(slots, a), i);
            var y := DecodeFields(t, Progress(slots, b), i);
            && (x.Ok? <==> y.Ok?)
            && (x.Ok? ==> x.value.slots == y.value.slots && x.rest == y.rest)
            && (x.Ok? && SameRequired(t, a, b) ==> SameRequired(t, x.value.seen, y.value.seen))
            && (x.Ok? && a <= b ==> x.value.seen <= y.value.seen)
    decreases i.left
  {
    if i.left > 0 {
      var tag := DecodeTag(i);
      if tag.Tag? {
        RecordIsPassive(t, slots, a, b, tag.wireType, tag.number, tag.rest);
        var x := DecodeRecord(t, Progress(slots, a), tag.wireType, tag.number, tag.rest);
        if x.Ok? {
          var y := DecodeRecord(t, Progress(slots, b), tag.wireType, tag.number, tag.rest);
          SeenIsPassive(t, x.value.slots, x.value.seen, y.value.seen, x.rest);
        }
      }
    }
  }

  /** A message is decoded up to the end of the stream, record by record. */
  predicate CompleteMessage(t: seq<Field>, slots: seq<Slot>, a: seq<byte>) {
    Complete(t, Progress(slots, {}), a)
  }

  /**
   Concatenation is merge: decoding a ++ b is decoding a, and then b into the result,
   when a is consumed to its last byte and leaves the pointer at its end.
   */
  lemma {:induction false} ConcatenationIsMerge(t: seq<Field>, slots: seq<Slot>, a: seq<byte>, b: seq<byte>)
    requires NoRequired(t) && CompleteMessage(t, slots, a)
    ensures DecodeMessage(t, slots, All(a)).Ok?
    ensures DecodeMessage(t, slots, All(a + b)) == DecodeMessage(t, DecodeMessage(t, slots, All(a)).value, All(b))
  {
    var st := Progress(slots, {});
    var st' := After(t, st, a);
    ConsumeIsDecode(t, st, All(a));
    CompleteThen(t, st, a, b);
    SeenIsPassive(t, st'.slots, st'.seen, {}, All(b));
  }

  /**
   The law without that condition: b is read from Lag bytes before its start.
   */
  lemma {:induction false} ConcatenationWithLag(t: seq<Field>, slots: seq<Slot>, a: seq<byte>, b: seq<byte>)
    requires NoRequired(t) && Consume(t, Progress(slots, {}), All(a)).Ok?
    ensures var r := Consume(t, Progress(slots, {}), All(a));
            && DecodeMessage(t, slots, All(a)) == Ok(r.value.slots, r.rest)
            && DecodeMessage(t, slots, All(a + b)) ==
               DecodeMessage(t, r.value.slots, Cursor(r.rest.data + b, |b|))
  {
    var st := Progress(slots, {});
    var r := Consume(t, st, All(a));
    assert DecodeFields(t, st, All(a)) == r by { ConsumeIsDecode(t, st, All(a)); }
    var next := Extend(r.rest, b, |b|);
    assert Extend(All(a), b, |b|) == All(a + b);
    assert DecodeFields(t, st, All(a + b)) == DecodeFields(t, r.value, next) by {
      ResumeAfterRecords(t, st, All(a), b, |b|);
    }
    SeenIsPassive(t, r.value.slots, r.value.seen, {}, next);
  }

  // ---- Where the lag comes from --------------------------------------------------------

  /**
   The bytes that submessages, at every depth, leave undrained: they stop at a zero key with
   bytes of their own left, where pb_close_string_substream would have to drain them.
   `nested` says that this is itself the field loop of a submessage.
   */
  function UndrainedFields(t: seq<Field>, st: Progress, i: Input, nested: bool): nat
    decreases i.left, 4
  {
    if i.left == 0 then 0
    else match DecodeTag(i)
         case BadTag => 0
         case Eof(rest) => if nested then rest.left else 0
         case Tag(wireType, number, rest) =>
           UndrainedRecord(t, st, wireType, number, rest) +
           match DecodeRecord(t, st, wireType, number, rest)
           case Fail => 0
           case Ok(st', rest') => UndrainedFields(t, st', rest', nested)
  }

  function UndrainedRecord(t: seq<Field>, st: Progress, wireType: nat, number: nat, i: Input): nat
    decreases i.left, 2
  {
    match Find(t, number)
    case None => 0
    case Some(k) => if k < |st.slots| then UndrainedField(t[k], st.slots[k], wireType, i) else 0
  }

  function UndrainedField(f: Field, slot: Slot, wireType: nat, i: Input): nat
    decreases i.left, 1
  {
    if !f.atype.Static? then 0
    else match slot
         case Single(cur) => UndrainedValue(f, cur, i)
         case Maybe(_, cur) => UndrainedValue(f, cur, i)
         case Many(_, spare) => UndrainedValue(f, Place(f, spare, 0), i)
         case Hook(_, _) => 0
  }

  function UndrainedValue(f: Field, cur: Value, i: Input): nat
    decreases i.left, 0
  {
    match f.ltype
    case SubMessage(t) =>
      (match DecodeVarint32(i)
       case Fail => 0
       case Ok(size, rest) =>
         if size <= rest.left && cur.Msg? then
           var start := if f.htype.Repeated? then SetDefaults(t, cur.slots) else cur.slots;
           UndrainedFields(t, Progress(start, {}), Cursor(rest.data, size), true)
         else 0)
    case _ => 0
  }

  /** No submessage in the record stops early. */
  predicate DrainedRecord(t: seq<Field>, st: Progress, wireType: nat, number: nat, i: Input) {
    UndrainedRecord(t, st, wireType, number, i) == 0
  }

  /** No submessage in the message stops early. */
  predicate Drained(t: seq<Field>, slots: seq<Slot>, i: Input) {
    UndrainedFields(t, Progress(slots, {}), i, false) == 0
  }

  /** The read pointer falls behind by exactly the bytes left undrained, at whatever depth. */
  lemma {:induction false} LagIsUndrained(t: seq<Field>, st: Progress, i: Input, nested: bool)
    requires DecodeFields(t, st, i).Ok?
    ensures var rest := DecodeFields(t, st, i).rest;
            Lag(rest) + (if nested then rest.left else 0) == Lag(i) + UndrainedFields(t, st, i, nested)
    decreases i.left, 4
  {
    if i.left > 0 {
      var step := Step(t, st, i);
      if DecodeTag(i).Tag? {
        var Tag(wireType, number, rest) := DecodeTag(i);
        RecordLag(t, st, wireType, number, rest);
        LagIsUndrained(t, step.state, step.rest, nested);
      }
    }
  }

  lemma {:induction false} RecordLag(t: seq<Field>, st: Progress, wireType: nat, number: nat, i: Input)
    requires DecodeRecord(t, st, wireType, number, i).Ok?
    ensures Lag(DecodeRecord(t, st, wireType, number, i).rest) == Lag(i) + UndrainedRecord(t, st, wireType, number, i)
    decreases i.left, 2
  {
    if Find(t, number).Some? {
      var k := Find(t, number).value;
      FieldLag(t[k], st.slots[k], wireType, i);
    }
  }

  lemma {:induction false} FieldLag(f: Field, slot: Slot, wireType: nat, i: Input)
    requires DecodeField(f, slot, wireType, i).Ok?
    ensures Lag(DecodeField(f, slot, wireType, i).rest) == Lag(i) + UndrainedField(f, slot, wireType, i)
    decreases i.left, 1
  {
    if f.atype.Static? {
      match slot
      case Single(cur) => ValueLag(f, cur, i);
      case Maybe(_, cur) => ValueLag(f, cur, i);
      case Many(_, spare) =>
        if !(wireType == 2 && Packable(f.ltype)) { ValueLag(f, Place(f, spare, 0), i); }
      case Hook(_, _) =>
    }
  }

  lemma {:induction false} ValueLag(f: Field, cur: Value, i: Input)
    requires DecodeValue(f, cur, i).Ok?
    ensures Lag(DecodeValue(f, cur, i).rest) == Lag(i) + UndrainedValue(f, cur, i)
    decreases i.left, 0
  {
    if f.ltype.SubMessage? {
      var t := f.ltype.table;
      var Ok(size, body) := DecodeVarint32(i);
      var start := if f.htype.Repeated? then SetDefaults(t, cur.slots) else cur.slots;
      SubmessageLag(f, cur, i);
      LagIsUndrained(t, Progress(start, {}), Cursor(body.data, size), true);
    }
  }

  /**
   A submessage moves the pointer back by what it left unread, plus whatever lag arose
   inside it; the byte count of the parent is always reduced by the full length.
   */
  lemma {:induction false} SubmessageLag(f: Field, cur: Value, i: Input)
    requires f.ltype.SubMessage? && DecodeValue(f, cur, i).Ok?
    ensures var r := DecodeValue(f, cur, i).rest;
            var Ok(size, body) := DecodeVarint32(i);
            var start := if f.htype.Repeated? then SetDefaults(f.ltype.table, cur.slots) else cur.slots;
            var sub := DecodeMessage(f.ltype.table, start, Cursor(body.data, size));
            && size <= body.left && sub.Ok?
            && r.left == body.left - size
            && Lag(r) - Lag(i) == sub.rest.left + (Lag(sub.rest) - Lag(Cursor(body.data, size)))
  {
  }

  /** Decoding a ++ b is decoding a, and then b into the result. */
  ghost predicate Merges(t: seq<Field>, slots: seq<Slot>, a: seq<byte>, b: seq<byte>)
    requires Consume(t, Progress(slots, {}), All(a)).Ok?
  {
    DecodeMessage(t, slots, All(a + b)) ==
    DecodeMessage(t, Consume(t, Progress(slots, {}), All(a)).value.slots, All(b))
  }

  /**
   For records a up to their end, merging works with every b exactly when no submessage in
   a stops early.  When one does, some single byte b is accepted behind a and not on its
   own, or the other way round.
   */
  lemma {:induction false} MergesExactlyWhenDrained(t: seq<Field>, slots: seq<Slot>, a: seq<byte>)
    requires NoRequired(t) && Consume(t, Progress(slots, {}), All(a)).Ok?
    ensures (forall b :: Merges(t, slots, a, b)) <==> Drained(t, slots, All(a))
  {
    var st := Progress(slots, {});
    var r := Consume(t, st, All(a));
    ConsumeIsDecode(t, st, All(a));
    LagIsUndrained(t, st, All(a), false);
    if Lag(r.rest) == 0 {
      forall b ensures Merges(t, slots, a, b) {
        ConcatenationIsMerge(t, slots, a, b);
        ConcatenationWithLag(t, slots, a, []);
      }
    } else {
      var b: seq<byte> := if 0 < r.rest.data[0] < 128 then [0] else [8];
      ConcatenationWithLag(t, slots, a, b);
      OneByte(t, r.value.slots, Cursor(r.rest.data + b, 1));
      OneByte(t, r.value.slots, All(b));
      assert !Merges(t, slots, a, b);
    }
  }

  /** One byte can end a message, but it cannot hold a record. */
  lemma {:induction false} OneByte(t: seq<Field>, slots: seq<Slot>, i: Input)
    requires NoRequired(t) && i.left == 1
    ensures DecodeMessage(t, slots, i).Ok? <==> i.data[0] == 0 || i.data[0] >= 128
  {
    var st := Progress(slots, {});
    var step := Step(t, st, i);
    if i.data[0] < 128 {
      ShortVarint(i);
      if i.data[0] > 0 { NothingLeft(t, st, i.data[0] % 8, i.data[0] / 8, Skip(i, 1)); }
    }
  }

  lemma {:induction false} NothingLeft(t: seq<Field>, st: Progress, wireType: nat, number: nat, i: Input)
    requires i.left == 0
    ensures DecodeRecord(t, st, wireType, number, i).Fail?
  {
    if Find(t, number).Some? && Find(t, number).value < |st.slots| {
      var k := Find(t, number).value;
      NoField(t[k], st.slots[k], wireType, i);
    }
  }

  lemma {:induction false} NoField(f: Field, slot: Slot, wireType: nat, i: Input)
    requires i.left == 0
    ensures DecodeField(f, slot, wireType, i).Fail?
  {
    assert forall cur :: DecodeValue(f, cur, i).Fail?;
  }

  predicate Flat(t: seq<Field>) { forall k :: 0 <= k < |t| ==> !t[k].ltype.SubMessage? }

  /** Without submessages the pointer and the count never come apart. */
  lemma {:induction false} FlatTablesNeverLag(t: seq<Field>, st: Progress, i: Input)
    requires Flat(t) && DecodeFields(t, st, i).Ok?
    ensures Lag(DecodeFields(t, st, i).rest) == Lag(i)
    decreases i.left
  {
    if i.left > 0 {
      match Step(t, st, i)
      case Stop(_) =>
      case Error =>
      case Next(st', rest) =>
        FlatStep(t, st, i);
        FlatTablesNeverLag(t, st', rest);
    }
  }

  lemma {:induction false} FlatValue(f: Field, cur: Value, i: Input)
    requires !f.ltype.SubMessage? && DecodeValue(f, cur, i).Ok?
    ensures Lag(DecodeValue(f, cur, i).rest) == Lag(i)
  {
  }

  lemma {:induction false} FlatField(f: Field, slot: Slot, wireType: nat, i: Input)
    requires !f.ltype.SubMessage? && DecodeField(f, slot, wireType, i).Ok?
    ensures Lag(DecodeField(f, slot, wireType, i).rest) == Lag(i)
  {
    if f.atype.Static? {
      if slot.Many? {
        if !(wireType == 2 && Packable(f.ltype)) { FlatValue(f, Place(f, slot.spare, 0), i); }
      } else {
        FlatValue(f, slot.value, i);
      }
    }
  }

  lemma {:induction false} FlatStep(t: seq<Field>, st: Progress, i: Input)
    requires Flat(t) && i.left > 0 && Step(t, st, i).Next?
    ensures Lag(Step(t, st, i).rest) == Lag(i)
  {
    var tag := DecodeTag(i);
    match Find(t, tag.number)
    case None =>
    case Some(k) => FlatField(t[k], st.slots[k], tag.wireType, tag.rest);
  }

  // ---- The condition is needed -----------------------------------------------------------

  const NUMBER: Field := Field(2, UVarint, Optional, Static, 0, 0, 4, 0, None)
  const INNER: Field := Field(1, SubMessage([NUMBER]), Optional, Static, 4, -4, 4, 0, None)
  const OUTER: seq<Field> := [INNER, NUMBER]
  const EMPTY: seq<Slot> := [Maybe(false, Msg([Single(Num(0))])), Single(Num(0))]

  /** A submessage of two bytes whose first byte is a zero key. */
  const EARLY: seq<byte> := [0x0A, 2, 0, 0x10]

  /** Field 2 with the value 5. */
  const FIVE: seq<byte> := [0x10, 5]

  lemma {:induction false} ShortVarint(i: Input)
    requires i.left > 0 && i.data[0] < 128
    ensures DecodeVarint32(i) == Ok(i.data[0], Skip(i, 1))
    ensures DecodeVarint(i) == Ok(i.data[0], Skip(i, 1))
  {
  }

  /** A one-byte key of field 2 and a one-byte number, with k bytes to follow. */
  lemma {:induction false} NumberRecord(inner: Slot, n: Slot, seen: set<nat>, x: byte, b: seq<byte>)
    requires x < 128 && n.Single?
    ensures DecodeFields(OUTER, Progress([inner, n], seen), Cursor([0x10, x] + b, 2)) ==
            Ok(Progress([inner, Single(Num(x))], seen + {1}), Cursor(b, 0))
    ensures Consume(OUTER, Progress([inner, n], seen), Cursor([0x10, x] + b, 2)) ==
            Ok(Progress([inner, Single(Num(x))], seen + {1}), Cursor(b, 0))
  {
    var i: Input := Cursor([0x10, x] + b, 2);
    ShortVarint(i);
    var j := Skip(i, 1);
    assert j == Cursor([x] + b, 1);
    ShortVarint(j);
    assert Skip(j, 1) == Cursor(b, 0);
    assert Find(OUTER, 2) == Some(1) by { assert OUTER[0].tag == 1 && OUTER[1].tag == 2; }
    assert Scalars.Decode(UVarint, 4, j) == Ok(x, Cursor(b, 0));
    assert DecodeField(NUMBER, n, 0, j) == Ok(Single(Num(x)), Cursor(b, 0));
    assert [inner, n][1 := Single(Num(x))] == [inner, Single(Num(x))];
    assert Step(OUTER, Progress([inner, n], seen), i) ==
           Next(Progress([inner, Single(Num(x))], seen + {1}), Cursor(b, 0));
  }

  /** EARLY leaves the pointer one byte short of its end. */
  lemma {:induction false} EarlyLags(n: Slot)
    ensures Consume(OUTER, Progress([EMPTY[0], n], {}), All(EARLY)) ==
            Ok(Progress([Maybe(true, EMPTY[0].value), n], {0}), Cursor([0x10], 0))
  {
    var i := All(EARLY);
    ShortVarint(i);
    var j := Skip(i, 1);
    assert j == Cursor([2, 0, 0x10], 3);
    ShortVarint(j);
    var k: Input := Cursor([0, 0x10], 2);
    assert Skip(j, 1) == k;
    ShortVarint(k);
    assert Skip(k, 1) == Cursor([0x10], 1);
    var slots := [Single(Num(0))];
    assert DecodeTag(k) == Eof(Cursor([0x10], 1));
    assert DecodeFields([NUMBER], Progress(slots, {}), k) == Ok(Progress(slots, {}), Cursor([0x10], 1));
    assert DecodeMessage([NUMBER], slots, k) == Ok(slots, Cursor([0x10], 1));
    assert Find(OUTER, 1) == Some(0);
    assert DecodeValue(INNER, Msg(slots), j) == Ok(Msg(slots), Cursor([0x10], 0));
    var before, st := [EMPTY[0], n], Progress([Maybe(true, EMPTY[0].value), n], {0});
    assert before[0 := Maybe(true, Msg(slots))] == st.slots;
    assert {} + {0} == {0};
    assert Step(OUTER, Progress(before, {}), i) == Next(st, Cursor([0x10], 0));
  }

  /**
   EARLY is accepted to its end and FIVE is accepted after it, but EARLY ++ FIVE decodes
   to another message than EARLY and then FIVE.
   */
  lemma {:induction false} LagBreaksConcatenation()
    ensures NoRequired(OUTER)
    ensures var inner := Maybe(true, Msg([Single(Num(0))]));
            var first := [inner, Single(Num(0))];
            && DecodeMessage(OUTER, EMPTY, All(EARLY)) == Ok(first, Cursor([0x10], 0))
            && DecodeMessage(OUTER, first, All(FIVE)) == Ok([inner, Single(Num(5))], All([]))
            && DecodeMessage(OUTER, EMPTY, All(EARLY + FIVE)) == Ok([inner, Single(Num(16))], Cursor([5], 0))
  {
    EarlyLags(EMPTY[1]);
    assert EMPTY == [EMPTY[0], EMPTY[1]];
    ConcatenationWithLag(OUTER, EMPTY, EARLY, FIVE);
    var inner := Maybe(true, Msg([Single(Num(0))]));
    assert EMPTY[0].value == inner.value;
    NumberRecord(inner, EMPTY[1], {}, 5, []);
    assert [0x10, 5] + [] == FIVE;
    NumberRecord(inner, EMPTY[1], {}, 0x10, [5]);
    assert [0x10] + FIVE == [0x10, 0x10] + [5];
  }

  /**
   The order of two records of different fields matters when the first one lags: field 2
   ends up as 16 or as 5.
   */
  lemma {:induction false} LagBreaksOrder()
    ensures var inner := Maybe(true, Msg([Single(Num(0))]));
            && DecodeMessage(OUTER, EMPTY, All(EARLY + FIVE)) == Ok([inner, Single(Num(16))], Cursor([5], 0))
            && DecodeMessage(OUTER, EMPTY, All(FIVE + EARLY)) == Ok([inner, Single(Num(5))], Cursor([0x10], 0))
  {
    LagBreaksConcatenation();
    var five := Single(Num(5));
    NumberRecord(EMPTY[0], EMPTY[1], {}, 5, []);
    assert [0x10, 5] + [] == FIVE;
    assert EMPTY == [EMPTY[0], EMPTY[1]];
    ConcatenationWithLag(OUTER, EMPTY, FIVE, EARLY);
    assert [] + EARLY == EARLY;
    EarlyLags(five);
    ConsumeIsDecode(OUTER, Progress([EMPTY[0], five], {}), All(EARLY));
  }

  /** A record of field 3, which the table does not have. */
  const UNKNOWN: seq<byte> := [0x18, 1]

  /** An unknown record behind a lagging one is not transparent: its key becomes the value of field 2. */
  lemma {:induction false} LagBreaksTransparency()
    ensures Find(OUTER, 3).None? && SkipField(All(UNKNOWN[1..]), 0) == Ok((), All([]))
    ensures var inner := Maybe(true, Msg([Single(Num(0))]));
            && DecodeMessage(OUTER, EMPTY, All(EARLY)) == Ok([inner, Single(Num(0))], Cursor([0x10], 0))
            && DecodeMessage(OUTER, EMPTY, All(EARLY + UNKNOWN)) == Ok([inner, Single(Num(0x18))], Cursor([1], 0))
  {
    assert UNKNOWN[1..] == [1];
    assert Skip(All([1]), 1) == All([]);
    EarlyLags(EMPTY[1]);
    assert EMPTY == [EMPTY[0], EMPTY[1]];
    ConcatenationWithLag(OUTER, EMPTY, EARLY, UNKNOWN);
    var inner := Maybe(true, Msg([Single(Num(0))]));
    assert EMPTY[0].value == inner.value;
    NumberRecord(inner, EMPTY[1], {}, 0x18, [1]);
    assert [0x10] + UNKNOWN == [0x10, 0x18] + [1];
  }
}
