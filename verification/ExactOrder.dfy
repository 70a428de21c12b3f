/**
 The order of records matters exactly when one of them is not drained.

 A record that leaves a lag makes the decoder read its last bytes again, and drop as many
 bytes at the end of the stream.
 */
module ExactOrder {
  import opened Wire
  import opened Schema
  import opened Decoder
  import opened Records
  import opened FieldOrder
  import Merge
  import Framing
  import RoundTrip
  import Scalars
  import Encoder

  function Bytes(x: Rec): seq<byte> { x.key + x.body }

  /** No entry has tag 0, which would end the table. */
  predicate NoZeroTag(t: seq<Field>) { forall k :: 0 <= k < |t| ==> t[k].tag != 0 }

  /** The record is accepted, and its count of bytes is used up; its submessages may leave a lag. */
  predicate AcceptedToEnd(t: seq<Field>, st: Progress, x: Rec) {
    && WellKeyed(x)
    && var r := DecodeRecord(t, st, x.wireType, x.number, All(x.body));
       r.Ok? && r.rest.left == 0
  }

  /** The bytes a record leaves behind the read pointer. */
  function LagBytes(t: seq<Field>, st: Progress, x: Rec): seq<byte>
    requires AcceptedToEnd(t, st, x)
  {
    DecodeRecord(t, st, x.wireType, x.number, All(x.body)).rest.data
  }

  lemma {:induction false} LagBytesAreUndrained(t: seq<Field>, st: Progress, x: Rec)
    requires AcceptedToEnd(t, st, x)
    ensures |LagBytes(t, st, x)| == Merge.UndrainedRecord(t, st, x.wireType, x.number, All(x.body))
  {
    Merge.RecordLag(t, st, x.wireType, x.number, All(x.body));
  }

  /** Behind a record the decoder goes on with the bytes it left. */
  lemma {:induction false} ReadsBehind(t: seq<Field>, st: Progress, x: Rec, b: seq<byte>)
    requires AcceptedToEnd(t, st, x)
    ensures var st' := DecodeRecord(t, st, x.wireType, x.number, All(x.body)).value;
            DecodeFields(t, st, All(Bytes(x) + b)) == DecodeFields(t, st', Cursor(LagBytes(t, st, x) + b, |b|))
  {
    var i := All(Bytes(x));
    var r := DecodeRecord(t, st, x.wireType, x.number, All(x.body));
    assert Step(t, st, i) == Next(r.value, r.rest);
    Framing.StepFrame(t, st, i, b, |b|);
    assert Extend(i, b, |b|) == All(Bytes(x) + b);
  }

  lemma {:induction false} TwoOnWire(x: Rec, y: Rec)
    ensures OnWire([x, y]) == Bytes(x) + Bytes(y) && OnWire([x]) == Bytes(x)
  {
    assert [x, y][1..] == [y] && [y][1..] == [] && [x][1..] == [];
    assert OnWire([y]) == Bytes(y) + OnWire([]) == Bytes(y);
    assert OnWire([x]) == Bytes(x) + OnWire([]) == Bytes(x);
  }

  /** A record has the same effect on its field behind a record of another field. */
  lemma {:induction false} OtherFieldIsPassive(t: seq<Field>, st: Progress, x: Rec, y: Rec)
    requires Plain(t) && |st.slots| == |t| && AcceptedToEnd(t, st, x)
    requires y.number != x.number && RunOne(t, st, y).Some?
    ensures var sy := RunOne(t, st, y).value;
            && AcceptedToEnd(t, sy, x) && LagBytes(t, sy, x) == LagBytes(t, st, x)
            && var a := DecodeRecord(t, st, x.wireType, x.number, All(x.body)).value;
               var b := DecodeRecord(t, sy, x.wireType, x.number, All(x.body)).value;
               && |a.slots| == |b.slots| == |sy.slots| == |t|
               && forall k :: 0 <= k < |t| ==> b.slots[k] == if t[k].tag == x.number then a.slots[k] else sy.slots[k]
  {
    StepFacts(t, st, y);
    FindIsDeclared(t, x.number);
  }

  /** First y, and then x, which keeps its lag to the end. */
  lemma {:induction false} LaggingRecordLast(t: seq<Field>, st: Progress, x: Rec, y: Rec)
    requires Plain(t) && |st.slots| == |t| && AcceptedToEnd(t, st, x)
    requires WellKeyed(y) && y.number != x.number && RunOne(t, st, y).Some?
    ensures var sy := RunOne(t, st, y).value;
            var last := DecodeRecord(t, sy, x.wireType, x.number, All(x.body));
            && last.Ok?
            && DecodeFields(t, st, All(OnWire([y, x]))) == Ok(last.value, Cursor(LagBytes(t, st, x), 0))
  {
    var sy := RunOne(t, st, y).value;
    OtherFieldIsPassive(t, st, x, y);
    TwoOnWire(y, x);
    assert LagBytes(t, st, y) == [];
    ReadsBehind(t, st, y, Bytes(x));
    assert [] + Bytes(x) == Bytes(x);
    OnlyRecord(t, sy, x);
  }

  lemma {:induction false} OnlyRecord(t: seq<Field>, st: Progress, x: Rec)
    requires AcceptedToEnd(t, st, x)
    ensures DecodeFields(t, st, All(Bytes(x))) ==
            Ok(DecodeRecord(t, st, x.wireType, x.number, All(x.body)).value, Cursor(LagBytes(t, st, x), 0))
  {
    ReadsBehind(t, st, x, []);
    assert Bytes(x) + [] == Bytes(x) && LagBytes(t, st, x) + [] == LagBytes(t, st, x);
  }

  /** A stream whose pointer lags sees only the beginning of what it is offered. */
  lemma {:induction false} LaggingStream(t: seq<Field>, st: Progress, d: seq<byte>, b: seq<byte>)
    ensures Framing.SameResult(
              DecodeFields(t, st, All((d + b)[..|b|])), DecodeFields(t, st, Cursor(d + b, |b|)), (d + b)[|b|..], 0)
  {
    var p, q := (d + b)[..|b|], (d + b)[|b|..];
    Framing.FieldsBlind(t, st, All(p), q);
    assert Extend(All(p), q, 0) == Cursor(d + b, |b|) by { assert p + q == d + b; }
  }

  /** It can end where it began only if both end with the same byte. */
  lemma {:induction false} LagMovesOn(t: seq<Field>, st: Progress, d: seq<byte>, b: seq<byte>)
    requires d != [] && b != [] && d[|d| - 1] != b[|b| - 1]
    ensures var r := DecodeFields(t, st, Cursor(d + b, |b|));
            r.Ok? ==> r.rest.data != d && r.rest.data != []
  {
    LaggingStream(t, st, d, b);
    var q, r := (d + b)[|b|..], DecodeFields(t, st, Cursor(d + b, |b|));
    if r.Ok? {
      var first := DecodeFields(t, st, All((d + b)[..|b|]));
      assert r.rest.data == first.rest.data + q;
      assert r.rest.data[|r.rest.data| - 1] == q[|q| - 1] == b[|b| - 1];
    }
  }

  /** A record of no field, four bytes of wire type 5, that ends with this byte. */
  function Unknown(last: byte): Rec { Rec([5], 0, 5, [0, 0, 0, last]) }

  lemma {:induction false} UnknownIsSkipped(t: seq<Field>, st: Progress, last: byte)
    requires Plain(t) && NoZeroTag(t) && |st.slots| == |t|
    ensures WellKeyed(Unknown(last)) && !Declared(t, 0) && Skippable(Unknown(last))
    ensures RunOne(t, st, Unknown(last)) == Some(st)
  {
    var u := Unknown(last);
    var i := All(u.key + u.body);
    assert i.data == [5, 0, 0, 0, last];
    Merge.ShortVarint(i);
    assert Skip(i, 1) == All(u.body);
    StepOnRecord(t, st, u);
  }

  /** x is a record of a declared field as soon as it leaves a lag. */
  lemma {:induction false} LaggingIsDeclared(t: seq<Field>, st: Progress, x: Rec)
    requires Plain(t) && AcceptedToEnd(t, st, x) && LagBytes(t, st, x) != []
    ensures Declared(t, x.number)
  {
    LagBytesAreUndrained(t, st, x);
    FindIsDeclared(t, x.number);
  }

  // ---- Order ---------------------------------------------------------------------------------

  /** The order of x and y makes no difference to the decoder. */
  ghost predicate Swaps(t: seq<Field>, st: Progress, x: Rec, y: Rec) {
    WellKeyed(y) && y.number != x.number && RunOne(t, st, y).Some? ==>
      DecodeFields(t, st, All(OnWire([x, y]))) == DecodeFields(t, st, All(OnWire([y, x])))
  }

  lemma {:induction false} DrainedSwaps(t: seq<Field>, st: Progress, x: Rec, y: Rec)
    requires Plain(t) && |st.slots| == |t| && AcceptedToEnd(t, st, x) && LagBytes(t, st, x) == []
    ensures Swaps(t, st, x, y)
  {
    if WellKeyed(y) && y.number != x.number && RunOne(t, st, y).Some? {
      TwoOnWire(x, y);
      ReadsBehind(t, st, x, Bytes(y));
      assert [] + Bytes(y) == Bytes(y);
      assert RunOne(t, st, x).Some?;
      OtherFieldIsPassive(t, st, y, x);
      OnlyRecord(t, RunOne(t, st, x).value, y);
      LaggingRecordLast(t, st, x, y);
      StepFacts(t, st, x);
      StepFacts(t, st, y);
      BothOrders(t, st, x, y);
    }
  }

  lemma {:induction false} BothOrders(t: seq<Field>, st: Progress, x: Rec, y: Rec)
    requires Plain(t) && |st.slots| == |t| && x.number != y.number
    requires RunOne(t, st, x).Some? && RunOne(t, st, y).Some?
    ensures RunOne(t, RunOne(t, st, x).value, y).Some?
    ensures RunOne(t, RunOne(t, st, x).value, y) == RunOne(t, RunOne(t, st, y).value, x)
  {
    var sx, sy := RunOne(t, st, x).value, RunOne(t, st, y).value;
    StepFacts(t, st, x);
    StepFacts(t, st, y);
    StepOnRecord(t, sx, y);
    StepOnRecord(t, sy, x);
    StepFacts(t, sx, y);
    StepFacts(t, sy, x);
    var a, b := RunOne(t, sx, y).value, RunOne(t, sy, x).value;
    forall k | 0 <= k < |t| ensures a.slots[k] == b.slots[k] { assert Some(a.slots[k]) == Some(b.slots[k]); }
    assert a.slots == b.slots && a.seen == b.seen;
  }

  /**
   The order law with its exact condition: x can change places with every record of another
   field if and only if no submessage in x stops early.
   */
  lemma {:induction false} OrderExactlyWhenDrained(t: seq<Field>, st: Progress, x: Rec)
    requires Plain(t) && NoZeroTag(t) && |st.slots| == |t| && AcceptedToEnd(t, st, x)
    ensures (forall y :: Swaps(t, st, x, y)) <==> Merge.DrainedRecord(t, st, x.wireType, x.number, All(x.body))
  {
    var d := LagBytes(t, st, x);
    LagBytesAreUndrained(t, st, x);
    if d == [] {
      forall y ensures Swaps(t, st, x, y) { DrainedSwaps(t, st, x, y); }
    } else {
      var y := Unknown(if d[|d| - 1] == 0 then 1 else 0);
      UnknownIsSkipped(t, st, y.body[3]);
      LaggingIsDeclared(t, st, x);
      LaggingRecordLast(t, st, x, y);
      TwoOnWire(x, y);
      ReadsBehind(t, st, x, Bytes(y));
      LagMovesOn(t, DecodeRecord(t, st, x.wireType, x.number, All(x.body)).value, d, Bytes(y));
      assert !Swaps(t, st, x, y);
    }
  }

  // ---- Unknown records ------------------------------------------------------------------------

  /** Putting u behind x makes no difference to the decoder. */
  ghost predicate Ignores(t: seq<Field>, st: Progress, x: Rec, u: Rec) {
    WellKeyed(u) && !Declared(t, u.number) && Skippable(u) ==>
      DecodeFields(t, st, All(OnWire([x, u]))) == DecodeFields(t, st, All(OnWire([x])))
  }

  lemma {:induction false} DrainedIgnores(t: seq<Field>, st: Progress, x: Rec, u: Rec)
    requires Plain(t) && |st.slots| == |t| && AcceptedToEnd(t, st, x) && LagBytes(t, st, x) == []
    ensures Ignores(t, st, x, u)
  {
    if WellKeyed(u) && !Declared(t, u.number) && Skippable(u) {
      var st' := DecodeRecord(t, st, x.wireType, x.number, All(x.body)).value;
      OnlyRecord(t, st, x);
      TwoOnWire(x, u);
      ReadsBehind(t, st, x, Bytes(u));
      assert [] + Bytes(u) == Bytes(u);
      FindIsDeclared(t, u.number);
      SkippableIsSkipped(u);
      OnlyRecord(t, st', u);
    }
  }

  /** Unknown records behind x are transparent if and only if no submessage in x stops early. */
  lemma {:induction false} UnknownsTransparentExactlyWhenDrained(t: seq<Field>, st: Progress, x: Rec)
    requires Plain(t) && NoZeroTag(t) && |st.slots| == |t| && AcceptedToEnd(t, st, x)
    ensures (forall u :: Ignores(t, st, x, u)) <==> Merge.DrainedRecord(t, st, x.wireType, x.number, All(x.body))
  {
    var d, st' := LagBytes(t, st, x), DecodeRecord(t, st, x.wireType, x.number, All(x.body)).value;
    LagBytesAreUndrained(t, st, x);
    OnlyRecord(t, st, x);
    if d == [] {
      forall u ensures Ignores(t, st, x, u) { DrainedIgnores(t, st, x, u); }
    } else {
      var u := Unknown(if d[|d| - 1] == 0 then 1 else 0);
      UnknownIsSkipped(t, st, u.body[3]);
      TwoOnWire(x, u);
      ReadsBehind(t, st, x, Bytes(u));
      LagMovesOn(t, st', d, Bytes(u));
      assert !Ignores(t, st, x, u);
    }
  }

  // ---- What the message shows ------------------------------------------------------------------

  /** Both are refused, or both give the same message. */
  ghost predicate SameMessage(a: Result<Progress>, b: Result<Progress>) {
    (a.Ok? <==> b.Ok?) && (a.Ok? ==> a.value.slots == b.value.slots)
  }

  ghost predicate SwapsInMessage(t: seq<Field>, st: Progress, x: Rec, y: Rec) {
    WellKeyed(y) && y.number != x.number && RunOne(t, st, y).Some? ==>
      SameMessage(DecodeFields(t, st, All(OnWire([x, y]))), DecodeFields(t, st, All(OnWire([y, x]))))
  }

  /** Two records of one field that set different values, and differ in their last byte only. */
  ghost predicate Twins(t: seq<Field>, st: Progress, y: Rec, z: Rec) {
    && WellKeyed(y) && WellKeyed(z) && y.number == z.number
    && RunOne(t, st, y).Some? && RunOne(t, st, z).Some?
    && RunOne(t, st, y).value.slots != RunOne(t, st, z).value.slots
    && |Bytes(y)| == |Bytes(z)| && Bytes(y)[..|Bytes(y)| - 1] == Bytes(z)[..|Bytes(z)| - 1]
  }

  /** Behind a lagging record the decoder does not see the last byte of the stream. */
  lemma {:induction false} LastByteUnseen(t: seq<Field>, st: Progress, d: seq<byte>, b: seq<byte>, c: seq<byte>)
    requires d != [] && b != [] && |b| == |c| && b[..|b| - 1] == c[..|c| - 1]
    ensures SameMessage(DecodeFields(t, st, Cursor(d + b, |b|)), DecodeFields(t, st, Cursor(d + c, |c|)))
  {
    var front := b[..|b| - 1];
    assert b == front + [b[|b| - 1]] && c == front + [c[|c| - 1]];
    assert (d + b)[..|b|] == (d + front)[..|b|] == (d + c)[..|c|];
    LaggingStream(t, st, d, b);
    LaggingStream(t, st, d, c);
  }

  /** A swap with each of the twins keeps the message if and only if no submessage in x stops early. */
  lemma {:induction false} TwinsShowLag(t: seq<Field>, st: Progress, x: Rec, y: Rec, z: Rec)
    requires Plain(t) && |st.slots| == |t| && AcceptedToEnd(t, st, x) && Twins(t, st, y, z) && y.number != x.number
    ensures SwapsInMessage(t, st, x, y) && SwapsInMessage(t, st, x, z) <==>
            Merge.DrainedRecord(t, st, x.wireType, x.number, All(x.body))
  {
    var d := LagBytes(t, st, x);
    LagBytesAreUndrained(t, st, x);
    if d == [] {
      DrainedSwaps(t, st, x, y);
      DrainedSwaps(t, st, x, z);
    } else {
      var st' := DecodeRecord(t, st, x.wireType, x.number, All(x.body)).value;
      TwoOnWire(x, y);
      TwoOnWire(x, z);
      ReadsBehind(t, st, x, Bytes(y));
      ReadsBehind(t, st, x, Bytes(z));
      LastByteUnseen(t, st', d, Bytes(y), Bytes(z));
      LaggingRecordLast(t, st, x, y);
      LaggingRecordLast(t, st, x, z);
      TwinsStayApart(t, st, x, y, z);
    }
  }

  /** Behind the twins x leaves their field alone. */
  lemma {:induction false} TwinsStayApart(t: seq<Field>, st: Progress, x: Rec, y: Rec, z: Rec)
    requires Plain(t) && |st.slots| == |t| && AcceptedToEnd(t, st, x) && Twins(t, st, y, z) && y.number != x.number
    ensures var sy, sz := RunOne(t, st, y).value, RunOne(t, st, z).value;
            AcceptedToEnd(t, sy, x) && AcceptedToEnd(t, sz, x) &&
            DecodeRecord(t, sy, x.wireType, x.number, All(x.body)).value.slots !=
            DecodeRecord(t, sz, x.wireType, x.number, All(x.body)).value.slots
  {
    var sy, sz := RunOne(t, st, y).value, RunOne(t, st, z).value;
    OtherFieldIsPassive(t, st, x, y);
    OtherFieldIsPassive(t, st, x, z);
    StepFacts(t, st, y);
    StepFacts(t, st, z);
    var k :| 0 <= k < |t| && sy.slots[k] != sz.slots[k];
    assert t[k].tag == y.number;
  }

  /** An entry that holds one small number. */
  predicate NumberEntry(f: Field, s: Slot) {
    && 1 <= f.tag <= 255 && f.atype.Static? && (f.ltype.Varint? || f.ltype.UVarint?) && WordSize(f.dataSize)
    && ((s.Single? && (f.htype.Required? || f.htype.Optional?)) || (s.Maybe? && f.htype.Optional?))
  }

  function NumberRec(f: Field, n: byte): Rec { Rec(Encoder.EncodeTag(0, f.tag), f.tag, 0, [n]) }

  lemma {:induction false} NumberIsSet(t: seq<Field>, st: Progress, k: nat, n: byte)
    requires Plain(t) && k < |t| == |st.slots| && NumberEntry(t[k], st.slots[k]) && n < 2
    ensures var y := NumberRec(t[k], n);
            && WellKeyed(y) && RunOne(t, st, y).Some?
            && RunOne(t, st, y).value.slots[k] ==
               if st.slots[k].Single? then Single(Num(n)) else Maybe(true, Num(n))
  {
    var f, y := t[k], NumberRec(t[k], n);
    RoundTrip.TagRoundTrip(0, f.tag, y.body, 1);
    Merge.ShortVarint(All(y.body));
    assert Skip(All(y.body), 1) == All([]);
    NumberFits(f.ltype, f.dataSize, n);
    assert Scalars.Decode(f.ltype, f.dataSize, All(y.body)) == Ok(n, All([]));
    var cur := st.slots[k].value;
    assert DecodeValue(f, cur, All(y.body)) == Ok(Num(n), All([]));
    assert Apply(f, st.slots[k], y) == Some(if st.slots[k].Single? then Single(Num(n)) else Maybe(true, Num(n)));
    StepOnRecord(t, st, y);
  }

  lemma {:induction false} NumberFits(l: LType, size: nat, n: byte)
    requires (l.Varint? || l.UVarint?) && WordSize(size) && n < 2
    ensures Scalars.Fit(l, size, n) == Some(n)
  {
  }

  /**
   The order law for the message: in a table with another number entry, x can change places
   with every record of another field, without the message showing it, if and only if no
   submessage in x stops early.
   */
  lemma {:induction false} MessageOrderExactlyWhenDrained(t: seq<Field>, st: Progress, x: Rec, k: nat)
    requires Plain(t) && k < |t| == |st.slots| && AcceptedToEnd(t, st, x)
    requires NumberEntry(t[k], st.slots[k]) && t[k].tag != x.number
    ensures (forall y :: SwapsInMessage(t, st, x, y)) <==>
            Merge.DrainedRecord(t, st, x.wireType, x.number, All(x.body))
  {
    var y, z := NumberRec(t[k], 0), NumberRec(t[k], 1);
    NumberIsSet(t, st, k, 0);
    NumberIsSet(t, st, k, 1);
    assert Bytes(y)[..|Bytes(y)| - 1] == y.key == Bytes(z)[..|Bytes(z)| - 1];
    assert RunOne(t, st, y).value.slots[k] != RunOne(t, st, z).value.slots[k];
    TwinsShowLag(t, st, x, y, z);
    if Merge.DrainedRecord(t, st, x.wireType, x.number, All(x.body)) {
      LagBytesAreUndrained(t, st, x);
      forall w ensures SwapsInMessage(t, st, x, w) { DrainedSwaps(t, st, x, w); }
    }
  }
}
