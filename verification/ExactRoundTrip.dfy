/** The round trip of pb_encode and pb_decode, with the exact conditions under which it is one. */
module ExactRoundTrip {
  import opened Wire
  import opened Schema
  import opened Decoder
  import opened Encoder
  import opened RoundTrip
  import opened Disturbance
  import StrayCalls

  // ---- What it means to have received m -------------------------------------------------

  /** Equal values; data under a cleared has_ flag does not count. */
  predicate AgreesValue(f: Field, v: Value, r: Value)
    decreases f, 0
  {
    if f.ltype.SubMessage? then v.Msg? && r.Msg? && Agrees(f.ltype.table, v.slots, r.slots) else r == v
  }

  /** Equal fields; an installed callback has been given the payloads that were sent, as its latest. */
  predicate AgreesSlot(f: Field, s: Slot, r: Slot)
    decreases f, 1
  {
    match s
    case Single(v) => r.Single? && AgreesValue(f, v, r.value)
    case Maybe(has, v) => r.Maybe? && r.has == has && (has ==> AgreesValue(f, v, r.value))
    case Many(items, _) =>
      r.Many? && |r.items| == |items| && forall j :: 0 <= j < |items| ==> AgreesValue(f, items[j], r.items[j])
    case Hook(emit, _) =>
      r.Hook? && (emit.Records? && r.sink.Reader? ==> EndsWith(r.sink.got, emit.payloads))
  }

  predicate EndsWith(got: seq<seq<byte>>, payloads: seq<seq<byte>>) {
    |payloads| <= |got| && got[|got| - |payloads|..] == payloads
  }

  predicate Agrees(t: seq<Field>, m: seq<Slot>, r: seq<Slot>)
    decreases t
  {
    |m| == |t| == |r| && forall i :: 0 <= i < |t| ==> AgreesSlot(t[i], m[i], r[i])
  }

  // ---- Fields that are not sent ------------------------------------------------------------

  /** The default of a field is what its memory holds when it looks empty. */
  predicate NullDefault(f: Field)
    decreases f, 0
  {
    if f.ltype.SubMessage? then NullDefaults(f.ltype.table)
    else f.default.None? || f.default.value == ZeroValue(f)
  }

  predicate NullDefaults(t: seq<Field>)
    decreases t
  {
    forall i :: 0 <= i < |t| ==> NullDefaultEntry(t[i])
  }

  /** Arrays and optional fields are empty by default, and callbacks hold nothing. */
  predicate NullDefaultEntry(f: Field)
    decreases f, 1
  {
    f.atype.Static? && (f.htype.Required? || Singular(f)) ==> NullDefault(f)
  }

  /** Every singular field of the message that is not sent has a null default. */
  predicate KeptValue(f: Field, v: Value)
    decreases f, 0
  {
    f.ltype.SubMessage? && v.Msg? ==> Kept(f.ltype.table, v.slots)
  }

  predicate KeptSlot(f: Field, s: Slot)
    decreases f, 1
  {
    match s
    case Single(v) => if Absent(f, v) then NullDefault(f) else KeptValue(f, v)
    case Maybe(has, v) => has ==> KeptValue(f, v)
    case Many(items, _) => forall j :: 0 <= j < |items| ==> KeptValue(f, items[j])
    case Hook(_, _) => true
  }

  predicate Kept(t: seq<Field>, m: seq<Slot>)
    decreases t
  {
    |m| == |t| ==> forall i :: 0 <= i < |t| ==> KeptSlot(t[i], m[i])
  }

  lemma {:induction false} AbsentIsZero(f: Field, v: Value)
    requires ValidValue(f, v) && Absent(f, v)
    ensures if f.ltype.SubMessage? then v.Msg? && IsZeroMessage(f.ltype.table, v.slots) else v == ZeroValue(f)
  {
    if f.ltype.FixedLengthBytes? { assert v.bytes == ZeroValue(f).bytes; }
  }

  lemma {:induction false} ZeroNumberOrBlob(f: Field, v: Value)
    requires ValidValue(f, v) && !f.ltype.SubMessage? && IsZeroValue(f, v)
    ensures v == ZeroValue(f)
  {
    if f.ltype.FixedLengthBytes? { assert v.bytes == ZeroValue(f).bytes; }
  }

  /** A message of zeros equals the defaults exactly when they are null. */
  lemma {:induction false} ZeroAgrees(t: seq<Field>, m: seq<Slot>, d: seq<Slot>)
    requires WfTable(t) && ValidMessage(t, m) && IsZeroMessage(t, m) && Listens(t, m, d)
    ensures Agrees(t, m, SetDefaults(t, d)) <==> NullDefaults(t)
    decreases t
  {
    forall i | 0 <= i < |t| ensures AgreesSlot(t[i], m[i], SetDefaults(t, d)[i]) <==> NullDefaultEntry(t[i]) {
      assert WfField(t[i]) && ValidSlot(t[i], m[i]) && IsZeroSlot(t[i], m[i]) && ListensSlot(t[i], m[i], d[i]);
      ZeroSlotAgrees(t[i], m[i], d[i]);
    }
  }

  lemma {:induction false} ZeroSlotAgrees(f: Field, s: Slot, d: Slot)
    requires WfField(f) && ValidSlot(f, s) && IsZeroSlot(f, s) && ListensSlot(f, s, d)
    ensures AgreesSlot(f, s, SetDefault(f, d)) <==> NullDefaultEntry(f)
    decreases f, 1
  {
    match s
    case Single(v) =>
      if f.ltype.SubMessage? {
        ClearValueListens(f, v, d.value);
        ZeroAgrees(f.ltype.table, v.slots, Cleared(f, d.value, Singular(f)).slots);
      } else {
        ZeroNumberOrBlob(f, v);
      }
    case Maybe(_, _) =>
    case Many(_, _) =>
    case Hook(_, _) =>
  }

  // ---- What is received agrees -----------------------------------------------------------

  lemma {:induction false} ReceivedAgrees(t: seq<Field>, m: seq<Slot>, d: seq<Slot>)
    requires WfTable(t) && ValidMessage(t, m) && Listens(t, m, d)
    ensures Agrees(t, m, ReceivedMessage(t, m, SetDefaults(t, d))) <==> Kept(t, m)
    decreases t
  {
    var r := ReceivedMessage(t, m, SetDefaults(t, d));
    forall i | 0 <= i < |t| ensures AgreesSlot(t[i], m[i], r[i]) <==> KeptSlot(t[i], m[i]) {
      assert WfField(t[i]) && ValidSlot(t[i], m[i]) && ListensSlot(t[i], m[i], d[i]);
      ReceivedSlotAgrees(t[i], m[i], d[i]);
    }
  }

  lemma {:induction false} ReceivedSlotAgrees(f: Field, s: Slot, d: Slot)
    requires WfField(f) && ValidSlot(f, s) && ListensSlot(f, s, d)
    ensures AgreesSlot(f, s, ReceivedSlot(f, s, SetDefault(f, d))) <==> KeptSlot(f, s)
    decreases f, 1
  {
    match s
    case Single(v) =>
      var w := Cleared(f, d.value, Singular(f));
      ClearValueListens(f, v, d.value);
      if Absent(f, v) {
        AbsentIsZero(f, v);
        if f.ltype.SubMessage? { ZeroAgrees(f.ltype.table, v.slots, w.slots); }
      } else if f.ltype.SubMessage? {
        ReceivedAgrees(f.ltype.table, v.slots, w.slots);
      }
    case Maybe(has, v) =>
      if has && f.ltype.SubMessage? { ReceivedAgrees(f.ltype.table, v.slots, d.value.slots); }
    case Many(items, _) =>
      var storage := d.items + d.spare;
      forall j | 0 <= j < |items|
        ensures AgreesValue(f, items[j], ReceivedItems(f, items, storage, |items|)[j]) <==> KeptValue(f, items[j])
      {
        assert ValidValue(f, items[j]) && ListensValue(f, items[j], Place(f, storage, j));
        if f.ltype.SubMessage? { ReceivedAgrees(f.ltype.table, items[j].slots, Place(f, storage, j).slots); }
      }
    case Hook(_, _) =>
  }

  // ---- The theorem -------------------------------------------------------------------------

  /**
   pb_decode of what pb_encode wrote succeeds exactly when nothing that was sent meets a
   callback disturbed by the defaults.  It then takes every byte, and leaves an equal
   message exactly when every field that was not sent has a null default.  The size is the
   one limit: a length prefix has 32 bits.
   */
  lemma {:induction false} DecodeUndoesEncode(t: seq<Field>, m: seq<Slot>, d: seq<Slot>)
    requires WfTable(t) && ValidMessage(t, m) && Listens(t, m, d)
    requires |EncodeMessage(t, m).out| < TWO_32
    ensures EncodeMessage(t, m).ok
    ensures var r := Decode(t, d, All(EncodeMessage(t, m).out));
            && (r.Ok? <==> Undisturbed(t, m, d, false))
            && (r.Ok? ==>
                  && r == Ok(ReceivedMessage(t, m, SetDefaults(t, d)), All([]))
                  && (Agrees(t, m, r.value) <==> Kept(t, m)))
  {
    var start, out := SetDefaults(t, d), EncodeMessage(t, m).out;
    ValidMessageEncodes(t, m, 0);
    DefaultsAreReady(t, m, d);
    QuietIsUndisturbed(t, m, d, false);
    if QuietMessage(t, m, start) {
      MessageRoundTrip(t, m, start);
      ReceivedAgrees(t, m, d);
    } else {
      StrayCalls.MessageFails(t, m, start, []);
      assert Before(out, [], 0) == All(out) by { assert out + [] == out; }
    }
  }

  // ---- Tables and destinations without such traps ------------------------------------------

  /** All singular fields, at any depth, have null defaults. */
  predicate PlainDefaults(t: seq<Field>)
    decreases t
  {
    forall i :: 0 <= i < |t| ==> PlainDefault(t[i])
  }

  predicate PlainDefault(f: Field)
    decreases f
  {
    && (f.atype.Static? && Singular(f) ==> NullDefault(f))
    && (f.ltype.SubMessage? ==> PlainDefaults(f.ltype.table))
  }

  lemma {:induction false} PlainIsKept(t: seq<Field>, m: seq<Slot>)
    requires WfTable(t) && ValidMessage(t, m) && PlainDefaults(t)
    ensures Kept(t, m)
    decreases t
  {
    forall i | 0 <= i < |t| ensures KeptSlot(t[i], m[i]) {
      assert WfField(t[i]) && ValidSlot(t[i], m[i]) && PlainDefault(t[i]);
      PlainSlotIsKept(t[i], m[i]);
    }
  }

  lemma {:induction false} PlainSlotIsKept(f: Field, s: Slot)
    requires WfField(f) && ValidSlot(f, s) && PlainDefault(f)
    ensures KeptSlot(f, s)
    decreases f, 1
  {
    if f.ltype.SubMessage? {
      var t := f.ltype.table;
      match s
      case Single(v) => if !Absent(f, v) { PlainIsKept(t, v.slots); }
      case Maybe(has, v) => if has { PlainIsKept(t, v.slots); }
      case Many(items, _) =>
        forall j | 0 <= j < |items| ensures KeptValue(f, items[j]) {
          assert ValidValue(f, items[j]);
          PlainIsKept(t, items[j].slots);
        }
      case Hook(_, _) =>
    }
  }

  /** Tables whose every valid message comes back, into every destination that listens. */
  predicate RoundTripTable(t: seq<Field>) { WfTable(t) && Sheltered(t) && PlainDefaults(t) }

  lemma {:induction false} EveryMessageComesBack(t: seq<Field>, m: seq<Slot>, d: seq<Slot>)
    requires RoundTripTable(t) && ValidMessage(t, m) && Listens(t, m, d) && Intact(d)
    requires |EncodeMessage(t, m).out| < TWO_32
    ensures EncodeMessage(t, m).ok
    ensures var r := Decode(t, d, All(EncodeMessage(t, m).out));
            r.Ok? && r.rest == All([]) && Agrees(t, m, r.value)
  {
    ShelteredIsUndisturbed(t, m, d, false);
    PlainIsKept(t, m);
    DecodeUndoesEncode(t, m, d);
  }

  /** A structure cleared with memset listens to every message. */
  lemma {:induction false} ZeroListens(t: seq<Field>, m: seq<Slot>)
    requires WfTable(t) && ValidMessage(t, m)
    ensures Listens(t, m, ZeroSlots(t))
    decreases t
  {
    forall i | 0 <= i < |t| ensures ListensSlot(t[i], m[i], ZeroSlots(t)[i]) {
      var f := t[i];
      assert WfField(f) && ValidSlot(f, m[i]);
      match m[i]
      case Single(v) => ZeroValueListens(f, v);
      case Maybe(has, v) => if has { ZeroValueListens(f, v); }
      case Many(items, _) =>
        forall j | 0 <= j < |items| ensures ListensValue(f, items[j], ZeroValue(f)) { ZeroValueListens(f, items[j]); }
      case Hook(_, _) =>
    }
  }

  lemma {:induction false} ZeroValueListens(f: Field, v: Value)
    requires WfField(f) && ValidValue(f, v)
    ensures ListensValue(f, v, ZeroValue(f))
    decreases f, 0
  {
    if f.ltype.SubMessage? { ZeroListens(f.ltype.table, v.slots); }
  }
}
