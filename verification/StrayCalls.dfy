/** Decoding fails when something that was sent meets a stray callback. */
module StrayCalls {
  import opened Wire
  import V = Varint
  import opened Schema
  import opened Decoder
  import opened Encoder
  import opened Records
  import opened RoundTrip

  /** A record whose body is refused. */
  lemma {:induction false} RefusedRecord(
    t: seq<Field>, st: Progress, k: nat, wireType: nat, body: seq<byte>, tail: seq<byte>, n: nat)
    requires WfTable(t) && k < |t| == |st.slots| && wireType < 8 && n <= |tail|
    requires DecodeField(t[k], st.slots[k], wireType, Before(body, tail, n)).Fail?
    ensures DecodeFields(t, st, Before(EncodeTag(wireType, t[k].tag) + body, tail, n)).Fail?
  {
    var key := EncodeTag(wireType, t[k].tag);
    var i := Before(key + body, tail, n);
    assert WfField(t[k]);
    assert i == Before(key, body + tail, |body| + n) by { assert key + body + tail == key + (body + tail); }
    TagRoundTrip(wireType, t[k].tag, body + tail, |body| + n);
    assert DecodeRecord(t, st, wireType, t[k].tag, Before(body, tail, n)).Fail? by { FindUnique(t, k); }
    assert Step(t, st, i).Error?;
  }

  /** Complete records do not change what fails behind them. */
  lemma {:induction false} FailsBehind(t: seq<Field>, st: Progress, a: seq<byte>, b: seq<byte>, tail: seq<byte>, n: nat)
    requires Complete(t, st, a) && n <= |tail|
    requires DecodeFields(t, After(t, st, a), Before(b, tail, n)).Fail?
    ensures DecodeFields(t, st, Before(a + b, tail, n)).Fail?
  {
    CompleteBefore(t, st, a, b + tail, |b| + n);
    assert Before(a, b + tail, |b| + n) == Before(a + b, tail, n) by { assert a + (b + tail) == a + b + tail; }
  }

  /** The first failure is final. */
  lemma {:induction false} FailsBefore(t: seq<Field>, st: Progress, a: seq<byte>, b: seq<byte>, tail: seq<byte>, n: nat)
    requires n <= |tail| && DecodeFields(t, st, Before(a, b + tail, |b| + n)).Fail?
    ensures DecodeFields(t, st, Before(a + b, tail, n)).Fail?
  {
    assert a + (b + tail) == a + b + tail;
  }

  lemma {:induction false} CallbackFails(t: seq<Field>, st: Progress, k: nat, s: Slot, tail: seq<byte>, n: nat)
    requires WfTable(t) && k < |t| == |st.slots| && n <= |tail| && t[k].atype.Callback?
    requires ValidSlot(t[k], s) && !QuietSlot(t[k], s, st.slots[k])
    ensures DecodeFields(t, st, Before(EncodeField(t[k], s).out, tail, n)).Fail?
  {
    var f, payloads := t[k], s.emit.payloads;
    RecordsEncode(f, payloads, 1);
    var body, more := EncodeString(payloads[0]), EncodeRecords(f, payloads, 1).out;
    RefusedRecord(t, st, k, 2, body, more + tail, |more| + n);
    FailsBefore(t, st, EncodeTag(2, f.tag) + body, more, tail, n);
  }

  lemma {:induction false} ValueFails(f: Field, v: Value, d: Value, tail: seq<byte>, n: nat)
    requires WfField(f) && ValidValue(f, v) && ReadyValue(f, v, d) && !QuietValue(f, v, d)
    requires n <= |tail| && |EncodeValue(f, v).out| < TWO_32
    ensures DecodeValue(f, d, Before(EncodeValue(f, v).out, tail, n)).Fail?
    decreases f, 0
  {
    var t := f.ltype.table;
    ValidMessageEncodes(t, v.slots, 0);
    var body := EncodeFrom(t, v.slots, 0).out;
    assert V.DecodeVarint32(Before(EncodeString(body), tail, n)) == Ok(|body|, Before(body, tail, n)) by {
      V.Varint32RoundTrip(|body|, body + tail, |body| + n);
      assert V.EncodeVarint(|body|) + (body + tail) == EncodeString(body) + tail;
    }
    assert DecodeMessage(t, Start(f, d.slots), Before(body, tail, 0)).Fail? by {
      MessageFails(t, v.slots, Start(f, d.slots), tail);
    }
  }

  lemma {:induction false} MessageFails(t: seq<Field>, m: seq<Slot>, d: seq<Slot>, tail: seq<byte>)
    requires WfTable(t) && ValidMessage(t, m) && ReadyMessage(t, m, d) && !QuietMessage(t, m, d)
    requires |EncodeFrom(t, m, 0).out| < TWO_32
    ensures DecodeMessage(t, d, Before(EncodeFrom(t, m, 0).out, tail, 0)).Fail?
    decreases t, 2
  {
    ValidMessageEncodes(t, m, 0);
    FieldsFail(t, m, d, Progress(d, {}), 0, tail, 0);
  }

  /** From entry i on there is a field that meets a stray callback. */
  lemma {:induction false} FieldsFail(t: seq<Field>, m: seq<Slot>, d: seq<Slot>, st: Progress, i: nat, tail: seq<byte>, n: nat)
    requires WfTable(t) && ValidMessage(t, m) && ReadyMessage(t, m, d) && n <= |tail|
    requires ReceivedUpTo(t, m, d, st, i) && EncodeFrom(t, m, i).ok && |EncodeFrom(t, m, i).out| < TWO_32
    requires exists j :: i <= j < |t| && !QuietSlot(t[j], m[j], d[j])
    ensures DecodeFields(t, st, Before(EncodeFrom(t, m, i).out, tail, n)).Fail?
    decreases t, 1, |t| - i
  {
    var out, more := EncodeField(t[i], m[i]).out, EncodeFrom(t, m, i + 1).out;
    if QuietSlot(t[i], m[i], d[i]) {
      NextFieldRoundTrip(t, m, d, st, i);
      FieldsFail(t, m, d, After(t, st, out), i + 1, tail, n);
      FailsBehind(t, st, out, more, tail, n);
    } else {
      assert ValidSlot(t[i], m[i]) && ReadySlot(t[i], m[i], d[i]);
      FieldFails(t, st, i, m[i], more + tail, |more| + n);
      FailsBefore(t, st, out, more, tail, n);
    }
  }

  lemma {:induction false} FieldFails(t: seq<Field>, st: Progress, k: nat, s: Slot, tail: seq<byte>, n: nat)
    requires WfTable(t) && k < |t| == |st.slots| && n <= |tail|
    requires ValidSlot(t[k], s) && ReadySlot(t[k], s, st.slots[k]) && !QuietSlot(t[k], s, st.slots[k])
    requires EncodeField(t[k], s).ok && |EncodeField(t[k], s).out| < TWO_32
    ensures DecodeFields(t, st, Before(EncodeField(t[k], s).out, tail, n)).Fail?
    decreases t[k], 2
  {
    var f, d := t[k], st.slots[k];
    assert WfField(f);
    if f.atype.Callback? {
      CallbackFails(t, st, k, s, tail, n);
    } else if s.Many? {
      assert Partly(f, s.items, d.spare, 0) == d by { DropMore(d.spare, 0); }
      ElementsFail(t, st, k, s.items, d.spare, 0, tail, n);
    } else {
      ValueFails(f, s.value, d.value, tail, n);
      RefusedRecord(t, st, k, WireType(f.ltype), EncodeValue(f, s.value).out, tail, n);
    }
  }

  lemma {:induction false} ElementsFail(
    t: seq<Field>, st: Progress, k: nat, items: seq<Value>, spare: seq<Value>, i: nat, tail: seq<byte>, n: nat)
    requires WfTable(t) && k < |t| == |st.slots| && ArrayReady(t[k], items, spare) && i < |items| && n <= |tail|
    requires exists j :: i <= j < |items| && !QuietValue(t[k], items[j], Place(t[k], spare, j))
    requires st.slots[k] == Partly(t[k], items, spare, i) && |EncodeElements(t[k], items, i).out| < TWO_32
    ensures DecodeFields(t, st, Before(EncodeElements(t[k], items, i).out, tail, n)).Fail?
    decreases t[k], 1, |items| - i
  {
    var f := t[k];
    assert WfField(f) && ValidValue(f, items[i]);
    ElementsCons(f, items, i);
    var body, more := EncodeValue(f, items[i]).out, EncodeElements(f, items, i + 1).out;
    var record := EncodeTag(WireType(f.ltype), f.tag) + body;
    if QuietValue(f, items[i], Place(f, spare, i)) {
      var st' := Progress(st.slots[k := Partly(f, items, spare, i + 1)], st.seen + {k});
      assert Complete(t, st, record) && After(t, st, record) == st' by {
        ElementRoundTrip(f, items, spare, i);
        RecordFor(t, st, k, WireType(f.ltype), body, Partly(f, items, spare, i + 1));
      }
      ElementsFail(t, st', k, items, spare, i + 1, tail, n);
      FailsBehind(t, st, record, more, tail, n);
    } else {
      ElementFails(t, st, k, items, spare, i, more + tail, |more| + n);
      FailsBefore(t, st, record, more, tail, n);
    }
  }

  lemma {:induction false} ElementFails(
    t: seq<Field>, st: Progress, k: nat, items: seq<Value>, spare: seq<Value>, i: nat, tail: seq<byte>, n: nat)
    requires WfTable(t) && k < |t| == |st.slots| && ArrayReady(t[k], items, spare) && i < |items| && n <= |tail|
    requires !QuietValue(t[k], items[i], Place(t[k], spare, i)) && st.slots[k] == Partly(t[k], items, spare, i)
    requires |EncodeValue(t[k], items[i]).out| < TWO_32
    ensures var f := t[k];
            DecodeFields(t, st, Before(EncodeTag(WireType(f.ltype), f.tag) + EncodeValue(f, items[i]).out, tail, n)).Fail?
    decreases t[k], 1, 0
  {
    var f := t[k];
    assert WfField(f) && ValidValue(f, items[i]);
    PlaceInRest(f, spare, i);
    ValueFails(f, items[i], Place(f, spare, i), tail, n);
    RefusedRecord(t, st, k, WireType(f.ltype), EncodeValue(f, items[i]).out, tail, n);
  }
}
