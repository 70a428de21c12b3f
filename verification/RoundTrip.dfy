/**
 pb_decode undoes pb_encode: what is received, and exactly when that is what was sent.

 Two things can come between.  Setting the defaults clears the first byte of a singular
 field, and with it a callback that stands there; and a singular field that looks empty is
 not sent, so that its default comes back.
 */
module RoundTrip {
  import opened Wire
  import V = Varint
  import opened Schema
  import opened Decoder
  import opened Encoder
  import opened Records
  import Scalars
  import NumberLaws
  import RequiredFields
  import Iterator

  /** Tables the generator makes for the features modelled here: flags and counts have a place of their own. */
  predicate WfTable(t: seq<Field>)
    decreases t
  {
    UniqueTags(t) && RequiredFields.Checkable(RequiredCount(t)) && forall i :: 0 <= i < |t| ==> WfField(t[i])
  }

  predicate WfField(f: Field)
    decreases f
  {
    && 1 <= f.tag <= 255 && f.dataSize <= 255 && f.arraySize <= 255
    && !f.ltype.Extension? && !f.htype.Oneof? && !f.atype.Pointer? && Iterator.SizePrecedes(f)
    && (f.ltype.SubMessage? ==> WfTable(f.ltype.table))
  }

  /** A value the C type of the field can hold and the encoder does not refuse. */
  predicate ValidValue(f: Field, v: Value)
    decreases f, 0
  {
    match f.ltype
    case SubMessage(t) => v.Msg? && ValidMessage(t, v.slots)
    case Extension => false
    case Bytes => v.Blob? && |v.bytes| + 1 <= f.dataSize
    case String => v.Blob? && |v.bytes| + 1 <= f.dataSize && 0 !in v.bytes
    case FixedLengthBytes => v.Blob? && |v.bytes| == f.dataSize
    case _ => v.Num? && Scalars.InRange(f.ltype, f.dataSize, v.n)
  }

  predicate ValidSlot(f: Field, s: Slot)
    decreases f, 1
  {
    if f.atype.Callback? then
      && s.Hook? && !s.emit.Writes?
      && (s.emit.Records? ==> WireType(f.ltype) == 2 && forall j :: 0 <= j < |s.emit.payloads| ==> |s.emit.payloads[j]| < TWO_32)
      && (f.htype.Required? ==> s.emit.Records? && s.emit.payloads != [])
    else
      match f.htype
      case Required => s.Single? && ValidValue(f, s.value)
      case Optional =>
        if Singular(f) then s.Single? && ValidValue(f, s.value) else s.Maybe? && (s.has ==> ValidValue(f, s.value))
      case Repeated =>
        s.Many? && |s.items| <= f.arraySize && forall j :: 0 <= j < |s.items| ==> ValidValue(f, s.items[j])
      case Oneof => false
  }

  /** Strings end with a NUL inside their buffer, counts are within array_size. */
  predicate ValidMessage(t: seq<Field>, m: seq<Slot>)
    decreases t
  {
    |m| == |t| && forall i :: 0 <= i < |t| ==> ValidSlot(t[i], m[i])
  }

  /** A singular field that looks empty is not sent. */
  predicate Absent(f: Field, v: Value) { Singular(f) && ImplicitlyAbsent(f, v) }

  // ---- What is received -------------------------------------------------------------------

  /** Where decoding into the initialised place `d` ends up when `v` was sent. */
  function ReceivedValue(f: Field, v: Value, d: Value): Value
    decreases f, 0
  {
    match f.ltype
    case SubMessage(t) => if v.Msg? && d.Msg? then Msg(ReceivedMessage(t, v.slots, Start(f, d.slots))) else v
    case _ => v
  }

  /** Elements of arrays are initialised when they are received, other submessages before. */
  function Start(f: Field, d: seq<Slot>): (r: seq<Slot>)
    requires f.ltype.SubMessage?
    ensures |r| == |d|
  {
    if f.htype.Repeated? then SetDefaults(f.ltype.table, d) else d
  }

  /** The first n elements of a repeated field, as received. */
  function ReceivedItems(f: Field, items: seq<Value>, spare: seq<Value>, n: nat): (r: seq<Value>)
    requires n <= |items|
    ensures |r| == n
    decreases f, 1
  {
    seq(n, j requires 0 <= j < n => ReceivedValue(f, items[j], Place(f, spare, j)))
  }

  /** A callback that has been offered the first n payloads. */
  function Fed(d: Slot, payloads: seq<seq<byte>>, n: nat): Slot
    requires d.Hook? && n <= |payloads|
  {
    match d.sink
    case Reader(accepts, got) => Hook(d.emit, Reader(accepts, got + payloads[..n]))
    case _ => d
  }

  function ReceivedSlot(f: Field, s: Slot, d: Slot): Slot
    decreases f, 2
  {
    match (s, d)
    case (Single(v), Single(dv)) => if Absent(f, v) then d else Single(ReceivedValue(f, v, dv))
    case (Maybe(has, v), Maybe(_, dv)) => if has then Maybe(true, ReceivedValue(f, v, dv)) else d
    case (Many(items, _), Many(_, spare)) => Many(ReceivedItems(f, items, spare, |items|), Drop(spare, |items|))
    case (Hook(Records(payloads), _), Hook(_, _)) => Fed(d, payloads, |payloads|)
    case _ => d
  }

  function ReceivedMessage(t: seq<Field>, m: seq<Slot>, d: seq<Slot>): (r: seq<Slot>)
    ensures |r| == |d|
    decreases t
  {
    if |m| == |t| == |d| then seq(|d|, i requires 0 <= i < |d| => ReceivedSlot(t[i], m[i], d[i])) else d
  }

  // ---- Destinations -----------------------------------------------------------------------

  predicate AcceptsAll(sink: Sink, payloads: seq<seq<byte>>) {
    sink.Reader? ==> forall j :: 0 <= j < |payloads| ==> sink.accepts(sink.got + payloads[..j], payloads[j])
  }

  /** A destination of the right shape whose callbacks accept what m sends. */
  predicate ListensValue(f: Field, v: Value, d: Value)
    decreases f, 0
  {
    f.ltype.SubMessage? ==> v.Msg? && d.Msg? && Listens(f.ltype.table, v.slots, d.slots)
  }

  predicate ListensSlot(f: Field, s: Slot, d: Slot)
    decreases f, 1
  {
    match s
    case Single(v) => d.Single? && ListensValue(f, v, d.value)
    case Maybe(has, v) => d.Maybe? && (has ==> ListensValue(f, v, d.value))
    case Many(items, _) =>
      d.Many? && forall j :: 0 <= j < |items| ==> ListensValue(f, items[j], Place(f, d.items + d.spare, j))
    case Hook(emit, _) => d.Hook? && (emit.Records? ==> AcceptsAll(d.sink, emit.payloads))
  }

  predicate Listens(t: seq<Field>, m: seq<Slot>, d: seq<Slot>)
    decreases t
  {
    |m| == |t| == |d| && forall i :: 0 <= i < |t| ==> ListensSlot(t[i], m[i], d[i])
  }

  /** The same for a place that has been initialised: its arrays are empty. */
  predicate ReadyValue(f: Field, v: Value, d: Value)
    decreases f, 0
  {
    f.ltype.SubMessage? ==> v.Msg? && d.Msg? && ReadyMessage(f.ltype.table, v.slots, Start(f, d.slots))
  }

  predicate ReadySlot(f: Field, s: Slot, d: Slot)
    decreases f, 1
  {
    match s
    case Single(v) => d.Single? && ReadyValue(f, v, d.value)
    case Maybe(has, v) => d.Maybe? && (has ==> ReadyValue(f, v, d.value))
    case Many(items, _) =>
      d.Many? && d.items == [] && forall j :: 0 <= j < |items| ==> ReadyValue(f, items[j], Place(f, d.spare, j))
    case Hook(emit, _) => d.Hook? && (emit.Records? ==> AcceptsAll(d.sink, emit.payloads))
  }

  predicate ReadyMessage(t: seq<Field>, m: seq<Slot>, d: seq<Slot>)
    decreases t
  {
    |m| == |t| == |d| && forall i :: 0 <= i < |t| ==> ReadySlot(t[i], m[i], d[i])
  }

  /** Nothing that is sent meets a stray callback. */
  predicate QuietValue(f: Field, v: Value, d: Value)
    decreases f, 0
  {
    f.ltype.SubMessage? && v.Msg? && d.Msg? ==> QuietMessage(f.ltype.table, v.slots, Start(f, d.slots))
  }

  predicate QuietSlot(f: Field, s: Slot, d: Slot)
    decreases f, 1
  {
    match s
    case Single(v) => d.Single? && !Absent(f, v) ==> QuietValue(f, v, d.value)
    case Maybe(has, v) => d.Maybe? && has ==> QuietValue(f, v, d.value)
    case Many(items, _) => d.Many? ==> forall j :: 0 <= j < |items| ==> QuietValue(f, items[j], Place(f, d.spare, j))
    case Hook(emit, _) => d.Hook? && d.sink.Stray? && emit.Records? ==> emit.payloads == []
  }

  predicate QuietMessage(t: seq<Field>, m: seq<Slot>, d: seq<Slot>)
    decreases t
  {
    |m| == |t| == |d| ==> forall i :: 0 <= i < |t| ==> QuietSlot(t[i], m[i], d[i])
  }

  lemma {:induction false} TagRoundTrip(wireType: nat, number: nat, tail: seq<byte>, k: nat)
    requires wireType < 8 && 1 <= number <= 255 && k <= |tail|
    ensures var key := EncodeTag(wireType, number);
            DecodeTag(Cursor(key + tail, |key| + k)) == Tag(wireType, number, Cursor(tail, k))
  {
    V.Varint32RoundTrip(number * 8 + wireType, tail, k);
    KeyParts(wireType, number);
  }

  lemma {:induction false} KeyParts(wireType: nat, number: nat)
    requires wireType < 8
    ensures (number * 8 + wireType) / 8 == number && (number * 8 + wireType) % 8 == wireType
  {
  }

  lemma {:induction false} FindUnique(t: seq<Field>, k: nat)
    requires k < |t| && UniqueTags(t) && !t[k].ltype.Extension?
    ensures Find(t, t[k].tag) == Some(k)
  {
  }

  lemma {:induction false} KeyedRecord(t: seq<Field>, st: Progress, key: seq<byte>, wireType: nat, number: nat, body: seq<byte>, st': Progress)
    requires key != []
    requires DecodeTag(All(key + body)) == Tag(wireType, number, All(body))
    requires DecodeRecord(t, st, wireType, number, All(body)) == Ok(st', All([]))
    ensures Complete(t, st, key + body) && After(t, st, key + body) == st'
  {
    OneRecord(t, st, key + body, st');
  }

  /** A record for entry k whose body takes slot k to s' makes one complete run. */
  lemma {:induction false} RecordFor(t: seq<Field>, st: Progress, k: nat, wireType: nat, body: seq<byte>, s': Slot)
    requires WfTable(t) && k < |t| == |st.slots| && wireType < 8
    requires DecodeField(t[k], st.slots[k], wireType, All(body)) == Ok(s', All([]))
    ensures var x := EncodeTag(wireType, t[k].tag) + body;
            Complete(t, st, x) && After(t, st, x) == Progress(st.slots[k := s'], st.seen + {k})
  {
    var key, st' := EncodeTag(wireType, t[k].tag), Progress(st.slots[k := s'], st.seen + {k});
    assert WfField(t[k]);
    assert DecodeRecord(t, st, wireType, t[k].tag, All(body)) == Ok(st', All([])) by { FindUnique(t, k); }
    TagRoundTrip(wireType, t[k].tag, body, |body|);
    KeyedRecord(t, st, key, wireType, t[k].tag, body, st');
  }

  lemma {:induction false} BlobRoundTrip(f: Field, b: seq<byte>)
    requires f.ltype.Bytes? || f.ltype.String? || f.ltype.FixedLengthBytes?
    requires ValidValue(f, Blob(b)) && f.dataSize <= 255
    ensures DecodeBlob(f, All(EncodeString(b))) == Ok(Blob(b), All([]))
  {
    assert V.DecodeVarint32(All(EncodeString(b))) == Ok(|b|, All(b)) by { V.Varint32RoundTrip(|b|, b, |b|); }
    assert Read(All(b), |b|) == Ok(b, All([])) by {
      assert b + [] == b;
      ReadAppend(b, [], 0);
    }
    if f.ltype.String? { CStringOfText(b); }
  }

  lemma {:induction false} CStringOfText(b: seq<byte>)
    requires 0 !in b
    ensures CString(b) == b
  {
    if b != [] { CStringOfText(b[1..]); }
  }

  lemma {:induction false} DelimitedWindow(body: seq<byte>)
    requires |body| < TWO_32
    ensures V.DecodeVarint32(All(EncodeString(body))) == Ok(|body|, All(body))
  {
    V.Varint32RoundTrip(|body|, body, |body|);
  }

  // ---- Valid messages are not refused -------------------------------------------------

  lemma {:induction false} ValidValueEncodes(f: Field, v: Value)
    requires WfField(f) && ValidValue(f, v)
    ensures EncodeValue(f, v).ok
    decreases f, 0
  {
    if f.ltype.SubMessage? {
      ValidMessageEncodes(f.ltype.table, v.slots, 0);
    } else if Packable(f.ltype) {
      NumberLaws.RoundTrip(f.ltype, f.dataSize, v.n, [], 0);
    }
  }

  lemma {:induction false} PackedEncodes(f: Field, items: seq<Value>, i: nat)
    requires Packable(f.ltype) && i <= |items| && forall j :: 0 <= j < |items| ==> ValidValue(f, items[j])
    ensures EncodePacked(f, items, i).ok
    decreases |items| - i
  {
    if i < |items| {
      assert ValidValue(f, items[i]);
      NumberLaws.RoundTrip(f.ltype, f.dataSize, items[i].n, [], 0);
      PackedEncodes(f, items, i + 1);
    }
  }

  lemma {:induction false} ElementsEncode(f: Field, items: seq<Value>, i: nat)
    requires WfField(f) && i <= |items| && forall j :: 0 <= j < |items| ==> ValidValue(f, items[j])
    ensures EncodeElements(f, items, i).ok
    decreases f, 1, |items| - i
  {
    if i < |items| {
      ValidValueEncodes(f, items[i]);
      ElementsEncode(f, items, i + 1);
    }
  }

  lemma {:induction false} RecordsEncode(f: Field, payloads: seq<seq<byte>>, i: nat)
    requires i <= |payloads| && !f.ltype.Extension?
    ensures EncodeRecords(f, payloads, i).ok
    decreases |payloads| - i
  {
    if i < |payloads| { RecordsEncode(f, payloads, i + 1); }
  }

  lemma {:induction false} ValidMessageEncodes(t: seq<Field>, m: seq<Slot>, i: nat)
    requires WfTable(t) && ValidMessage(t, m) && i <= |t|
    ensures EncodeFrom(t, m, i).ok
    decreases t, |t| - i
  {
    if i < |t| {
      ValidSlotEncodes(t[i], m[i]);
      ValidMessageEncodes(t, m, i + 1);
    }
  }

  lemma {:induction false} ValidSlotEncodes(f: Field, s: Slot)
    requires WfField(f) && ValidSlot(f, s)
    ensures EncodeField(f, s).ok
    decreases f, 2
  {
    if f.atype.Callback? {
      if s.emit.Records? { RecordsEncode(f, s.emit.payloads, 0); }
    } else {
      match s
      case Single(v) => ValidValueEncodes(f, v);
      case Maybe(has, v) => if has { ValidValueEncodes(f, v); }
      case Many(items, _) =>
        if Packable(f.ltype) { PackedEncodes(f, items, 0); } else { ElementsEncode(f, items, 0); }
    }
  }

  // ---- The round trip ------------------------------------------------------------------

  lemma {:induction false} SubmessageFromMessage(f: Field, d: Value, body: seq<byte>, slots: seq<Slot>)
    requires f.ltype.SubMessage? && d.Msg? && |d.slots| == |f.ltype.table| && |body| < TWO_32
    requires DecodeMessage(f.ltype.table, Start(f, d.slots), All(body)) == Ok(slots, All([]))
    ensures DecodeValue(f, d, All(EncodeString(body))) == Ok(Msg(slots), All([]))
  {
    DelimitedWindow(body);
  }

  lemma {:induction false} ValueRoundTrip(f: Field, v: Value, d: Value)
    requires WfField(f) && ValidValue(f, v) && ReadyValue(f, v, d) && QuietValue(f, v, d)
    requires |EncodeValue(f, v).out| < TWO_32
    ensures EncodeValue(f, v).ok
    ensures DecodeValue(f, d, All(EncodeValue(f, v).out)) == Ok(ReceivedValue(f, v, d), All([]))
    decreases f, 0, 1
  {
    if f.ltype.SubMessage? {
      var t := f.ltype.table;
      var start := Start(f, d.slots);
      ValidMessageEncodes(t, v.slots, 0);
      MessageRoundTrip(t, v.slots, start);
      SubmessageFromMessage(f, d, EncodeFrom(t, v.slots, 0).out, ReceivedMessage(t, v.slots, start));
    } else if Packable(f.ltype) {
      NumberLaws.RoundTrip(f.ltype, f.dataSize, v.n, [], 0);
      var s := EncodeNumber(f, v).out;
      assert s + [] == s;
    } else {
      BlobRoundTrip(f, v.bytes);
    }
  }

  lemma {:induction false} DropMore<T>(s: seq<T>, n: nat)
    ensures Drop(Drop(s, n), 1) == Drop(s, n + 1)
    ensures Drop(s, 0) == s
  {
  }

  lemma {:induction false} PlaceInRest(f: Field, spare: seq<Value>, i: nat)
    ensures Place(f, Drop(spare, i), 0) == Place(f, spare, i)
  {
  }

  lemma {:induction false} PackedElement(f: Field, items: seq<Value>, i: nat, tail: seq<byte>)
    requires Packable(f.ltype) && i < |items| && ValidValue(f, items[i])
    requires tail == EncodePacked(f, items, i + 1).out
    ensures EncodePacked(f, items, i).out != []
    ensures Scalars.Decode(f.ltype, f.dataSize, All(EncodePacked(f, items, i).out)) == Ok(items[i].n, All(tail))
  {
    NumberLaws.RoundTrip(f.ltype, f.dataSize, items[i].n, tail, |tail|);
  }

  lemma {:induction false} PackedRoundTrip(f: Field, items: seq<Value>, spare: seq<Value>, i: nat)
    requires Packable(f.ltype) && i <= |items| <= f.arraySize
    requires forall j :: 0 <= j < |items| ==> ValidValue(f, items[j])
    ensures DecodePacked(f, Many(items[..i], Drop(spare, i)), All(EncodePacked(f, items, i).out)) ==
            Ok(Many(items, Drop(spare, |items|)), All([]))
    decreases |items| - i
  {
    if i == |items| {
      assert items[..i] == items;
    } else {
      assert ValidValue(f, items[i]);
      var tail := EncodePacked(f, items, i + 1).out;
      assert items[..i] + [items[i]] == items[..i + 1];
      DropMore(spare, i);
      PackedRoundTrip(f, items, spare, i + 1);
      PackedElement(f, items, i, tail);
    }
  }

  lemma {:induction false} PackedFieldRoundTrip(f: Field, items: seq<Value>, spare: seq<Value>)
    requires f.atype.Static? && f.htype.Repeated? && Packable(f.ltype) && |items| <= f.arraySize
    requires forall j :: 0 <= j < |items| ==> ValidValue(f, items[j])
    requires |EncodePacked(f, items, 0).out| < TWO_32
    ensures DecodeField(f, Many([], spare), 2, All(EncodeString(EncodePacked(f, items, 0).out))) ==
            Ok(Many(items, Drop(spare, |items|)), All([]))
  {
    DelimitedWindow(EncodePacked(f, items, 0).out);
    PackedRoundTrip(f, items, spare, 0);
    DropMore(spare, 0);
    assert items[..0] == [];
  }

  lemma {:induction false} ElementsCons(f: Field, items: seq<Value>, i: nat)
    requires WfField(f) && i < |items| && forall j :: 0 <= j < |items| ==> ValidValue(f, items[j])
    ensures EncodeElements(f, items, i).out ==
            EncodeTag(WireType(f.ltype), f.tag) + EncodeValue(f, items[i]).out + EncodeElements(f, items, i + 1).out
    ensures EncodeValue(f, items[i]).ok
  {
    ValidValueEncodes(f, items[i]);
    ElementsEncode(f, items, i + 1);
  }

  /** An array that has received its first i elements. */
  function Partly(f: Field, items: seq<Value>, spare: seq<Value>, i: nat): (s: Slot)
    requires i <= |items|
    ensures s.Many? && |s.items| == i
  {
    Many(ReceivedItems(f, items, spare, i), Drop(spare, i))
  }

  /** Elements of an array that cannot be packed, ready to be received. */
  predicate ArrayReady(f: Field, items: seq<Value>, spare: seq<Value>) {
    && f.atype.Static? && f.htype.Repeated? && !Packable(f.ltype) && |items| <= f.arraySize
    && (forall j :: 0 <= j < |items| ==> ValidValue(f, items[j]))
    && (forall j :: 0 <= j < |items| ==> ReadyValue(f, items[j], Place(f, spare, j)))
  }

  /** One more element of an array that is not packed. */
  lemma {:induction false} ElementRoundTrip(f: Field, items: seq<Value>, spare: seq<Value>, i: nat)
    requires WfField(f) && ArrayReady(f, items, spare) && i < |items|
    requires QuietValue(f, items[i], Place(f, spare, i)) && |EncodeValue(f, items[i]).out| < TWO_32
    ensures DecodeField(f, Partly(f, items, spare, i), WireType(f.ltype), All(EncodeValue(f, items[i]).out)) ==
            Ok(Partly(f, items, spare, i + 1), All([]))
    decreases f, 1, 0
  {
    ValueRoundTrip(f, items[i], Place(f, spare, i));
    PlaceInRest(f, spare, i);
    DropMore(spare, i);
    assert ReceivedItems(f, items, spare, i) + [ReceivedValue(f, items[i], Place(f, spare, i))] ==
           ReceivedItems(f, items, spare, i + 1);
  }

  lemma {:induction false} ElementsRoundTrip(t: seq<Field>, st: Progress, k: nat, items: seq<Value>, spare: seq<Value>, i: nat)
    requires WfTable(t) && k < |t| == |st.slots| && ArrayReady(t[k], items, spare) && i <= |items|
    requires forall j :: 0 <= j < |items| ==> QuietValue(t[k], items[j], Place(t[k], spare, j))
    requires st.slots[k] == Partly(t[k], items, spare, i) && |EncodeElements(t[k], items, i).out| < TWO_32
    ensures var out := EncodeElements(t[k], items, i).out;
            && Complete(t, st, out)
            && After(t, st, out).slots == st.slots[k := Partly(t[k], items, spare, |items|)]
            && st.seen <= After(t, st, out).seen
    decreases t[k], 1, 1 + |items| - i
  {
    var f := t[k];
    if i < |items| {
      assert WfField(f) && ValidValue(f, items[i]);
      ElementsCons(f, items, i);
      var body := EncodeValue(f, items[i]).out;
      var record := EncodeTag(WireType(f.ltype), f.tag) + body;
      ElementRoundTrip(f, items, spare, i);
      RecordFor(t, st, k, WireType(f.ltype), body, Partly(f, items, spare, i + 1));
      ElementsRoundTrip(t, After(t, st, record), k, items, spare, i + 1);
      CompleteThen(t, st, record, EncodeElements(f, items, i + 1).out);
    }
  }

  lemma {:induction false} ArrayRoundTrip(t: seq<Field>, st: Progress, k: nat, s: Slot)
    requires WfTable(t) && k < |t| == |st.slots| && s.Many? && t[k].atype.Static? && t[k].htype.Repeated?
    requires ValidSlot(t[k], s) && ReadySlot(t[k], s, st.slots[k]) && QuietSlot(t[k], s, st.slots[k])
    requires EncodeArray(t[k], s.items).ok && |EncodeArray(t[k], s.items).out| < TWO_32
    ensures var out := EncodeArray(t[k], s.items).out;
            && Complete(t, st, out)
            && After(t, st, out).slots == st.slots[k := ReceivedSlot(t[k], s, st.slots[k])]
            && st.seen <= After(t, st, out).seen
    decreases t[k], 1, |s.items| + 2
  {
    var f, d, items, spare := t[k], st.slots[k], s.items, st.slots[k].spare;
    assert WfField(f);
    DropMore(spare, 0);
    assert Partly(f, items, spare, 0) == d;
    if |items| == 0 {
      assert st.slots[k := d] == st.slots;
    } else if Packable(f.ltype) {
      var body := EncodePacked(f, items, 0).out;
      PackedEncodes(f, items, 0);
      PackedFieldRoundTrip(f, items, spare);
      assert ReceivedItems(f, items, spare, |items|) == items;
      RecordFor(t, st, k, 2, EncodeString(body), Many(items, Drop(spare, |items|)));
    } else {
      ElementsRoundTrip(t, st, k, items, spare, 0);
    }
  }

  /** One record of a callback. */
  lemma {:induction false} PayloadRoundTrip(f: Field, d: Slot, payloads: seq<seq<byte>>, i: nat)
    requires f.atype.Callback? && d.Hook? && !d.sink.Stray? && i < |payloads| && |payloads[i]| < TWO_32
    requires AcceptsAll(d.sink, payloads)
    ensures DecodeField(f, Fed(d, payloads, i), 2, All(EncodeString(payloads[i]))) ==
            Ok(Fed(d, payloads, i + 1), All([]))
  {
    var p := payloads[i];
    DelimitedWindow(p);
    ReadAppend(p, [], 0);
    assert p + [] == p;
    if d.sink.Reader? {
      assert d.sink.got + payloads[..i] + [p] == d.sink.got + payloads[..i + 1];
    }
  }

  lemma {:induction false} PayloadsRoundTrip(t: seq<Field>, st: Progress, k: nat, d: Slot, payloads: seq<seq<byte>>, i: nat)
    requires WfTable(t) && k < |t| == |st.slots| && t[k].atype.Callback? && WireType(t[k].ltype) == 2
    requires d.Hook? && !d.sink.Stray? && AcceptsAll(d.sink, payloads) && i <= |payloads|
    requires (forall j :: 0 <= j < |payloads| ==> |payloads[j]| < TWO_32) && st.slots[k] == Fed(d, payloads, i)
    ensures var out := EncodeRecords(t[k], payloads, i).out;
            && Complete(t, st, out)
            && After(t, st, out).slots == st.slots[k := Fed(d, payloads, |payloads|)]
            && st.seen <= After(t, st, out).seen
            && (i < |payloads| ==> k in After(t, st, out).seen)
    decreases |payloads| - i
  {
    var f := t[k];
    if i < |payloads| {
      var body, more := EncodeString(payloads[i]), EncodeRecords(f, payloads, i + 1).out;
      var record := EncodeTag(2, f.tag) + body;
      assert EncodeRecords(f, payloads, i).out == record + more by {
        assert WfField(f);
        RecordsEncode(f, payloads, i + 1);
      }
      PayloadRoundTrip(f, d, payloads, i);
      RecordFor(t, st, k, 2, body, Fed(d, payloads, i + 1));
      PayloadsRoundTrip(t, After(t, st, record), k, d, payloads, i + 1);
      CompleteThen(t, st, record, more);
    }
  }

  lemma {:induction false} FedNothing(d: Slot, payloads: seq<seq<byte>>)
    requires d.Hook?
    ensures Fed(d, payloads, 0) == d
  {
    if d.sink.Reader? { assert d.sink.got + payloads[..0] == d.sink.got; }
  }

  lemma {:induction false} CallbackRoundTrip(t: seq<Field>, st: Progress, k: nat, s: Slot)
    requires WfTable(t) && k < |t| == |st.slots| && t[k].atype.Callback?
    requires ValidSlot(t[k], s) && ReadySlot(t[k], s, st.slots[k]) && QuietSlot(t[k], s, st.slots[k])
    ensures var out := EncodeField(t[k], s).out;
            && Complete(t, st, out)
            && After(t, st, out).slots == st.slots[k := ReceivedSlot(t[k], s, st.slots[k])]
            && st.seen <= After(t, st, out).seen
            && (t[k].htype.Required? ==> k in After(t, st, out).seen)
  {
    var f, d := t[k], st.slots[k];
    assert st.slots[k := d] == st.slots;
    if s.emit.Records? {
      FedNothing(d, s.emit.payloads);
      if s.emit.payloads != [] { PayloadsRoundTrip(t, st, k, d, s.emit.payloads, 0); }
    }
  }

  /** The bytes of one field take its slot to what is received. */
  lemma {:induction false} FieldRoundTrip(t: seq<Field>, st: Progress, k: nat, s: Slot)
    requires WfTable(t) && k < |t| == |st.slots|
    requires ValidSlot(t[k], s) && ReadySlot(t[k], s, st.slots[k]) && QuietSlot(t[k], s, st.slots[k])
    requires EncodeField(t[k], s).ok && |EncodeField(t[k], s).out| < TWO_32
    ensures var out := EncodeField(t[k], s).out;
            && Complete(t, st, out)
            && After(t, st, out).slots == st.slots[k := ReceivedSlot(t[k], s, st.slots[k])]
            && st.seen <= After(t, st, out).seen
            && (t[k].htype.Required? ==> k in After(t, st, out).seen)
    decreases t[k], 2
  {
    var f, d := t[k], st.slots[k];
    assert WfField(f);
    if f.atype.Callback? {
      CallbackRoundTrip(t, st, k, s);
    } else {
      assert st.slots[k := d] == st.slots;
      match s
      case Single(v) =>
        if !Absent(f, v) {
          ValueRoundTrip(f, v, d.value);
          RecordFor(t, st, k, WireType(f.ltype), EncodeValue(f, v).out, ReceivedSlot(f, s, d));
        }
      case Maybe(has, v) =>
        if has {
          ValueRoundTrip(f, v, d.value);
          RecordFor(t, st, k, WireType(f.ltype), EncodeValue(f, v).out, ReceivedSlot(f, s, d));
        }
      case Many(_, _) =>
        ArrayRoundTrip(t, st, k, s);
    }
  }

  /** The fields before entry i have been received, and the others not yet. */
  ghost predicate ReceivedUpTo(t: seq<Field>, m: seq<Slot>, d: seq<Slot>, st: Progress, i: nat) {
    && |m| == |t| == |d| == |st.slots| && i <= |t|
    && (forall j :: 0 <= j < i ==> st.slots[j] == ReceivedSlot(t[j], m[j], d[j]))
    && (forall j :: i <= j < |t| ==> st.slots[j] == d[j])
    && (forall j :: 0 <= j < i && t[j].htype.Required? ==> j in st.seen)
  }

  /** The bytes of entry i, when those before have been received. */
  lemma {:induction false} NextFieldRoundTrip(t: seq<Field>, m: seq<Slot>, d: seq<Slot>, st: Progress, i: nat)
    requires WfTable(t) && ValidMessage(t, m) && ReadyMessage(t, m, d) && i < |t| && QuietSlot(t[i], m[i], d[i])
    requires ReceivedUpTo(t, m, d, st, i) && EncodeField(t[i], m[i]).ok && |EncodeField(t[i], m[i]).out| < TWO_32
    ensures var out := EncodeField(t[i], m[i]).out;
            Complete(t, st, out) && ReceivedUpTo(t, m, d, After(t, st, out), i + 1)
    decreases t, 0
  {
    assert ValidSlot(t[i], m[i]) && ReadySlot(t[i], m[i], d[i]);
    FieldRoundTrip(t, st, i, m[i]);
  }

  lemma {:induction false} FieldsRoundTrip(t: seq<Field>, m: seq<Slot>, d: seq<Slot>, st: Progress, i: nat)
    requires WfTable(t) && ValidMessage(t, m) && ReadyMessage(t, m, d) && QuietMessage(t, m, d)
    requires ReceivedUpTo(t, m, d, st, i) && EncodeFrom(t, m, i).ok && |EncodeFrom(t, m, i).out| < TWO_32
    ensures var out := EncodeFrom(t, m, i).out;
            Complete(t, st, out) && ReceivedUpTo(t, m, d, After(t, st, out), |t|)
    decreases t, 1, |t| - i
  {
    if i < |t| {
      var out := EncodeField(t[i], m[i]).out;
      NextFieldRoundTrip(t, m, d, st, i);
      FieldsRoundTrip(t, m, d, After(t, st, out), i + 1);
      CompleteThen(t, st, out, EncodeFrom(t, m, i + 1).out);
    }
  }

  lemma {:induction false} MessageRoundTrip(t: seq<Field>, m: seq<Slot>, d: seq<Slot>)
    requires WfTable(t) && ValidMessage(t, m) && ReadyMessage(t, m, d) && QuietMessage(t, m, d)
    requires EncodeFrom(t, m, 0).ok && |EncodeFrom(t, m, 0).out| < TWO_32
    ensures DecodeMessage(t, d, All(EncodeFrom(t, m, 0).out)) == Ok(ReceivedMessage(t, m, d), All([]))
    decreases t, 2
  {
    var st, out := Progress(d, {}), EncodeFrom(t, m, 0).out;
    FieldsRoundTrip(t, m, d, st, 0);
    ConsumeIsDecode(t, st, All(out));
    assert After(t, st, out).slots == ReceivedMessage(t, m, d);
  }
}
