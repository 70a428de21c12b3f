/** What a structure holds after pb_decode where nothing was received. */
module Defaults {
  import opened Wire
  import opened Schema
  import opened Decoder
  import opened FieldOrder
  import Scalars
  import Varint

  /** The declared default, or memory cleared with memset; a submessage likewise in all its fields. */
  predicate InitialValue(f: Field, v: Value)
    decreases f, 0
  {
    if f.ltype.SubMessage? then v.Msg? && Initial(f.ltype.table, v.slots)
    else if f.default.Some? then v == f.default.value
    else match f.ltype
         case Bytes => v == Blob([])
         case String => v == Blob([])
         case FixedLengthBytes => IsCleared(v, f.dataSize)
         case _ => v == Num(0)
  }

  /** A cleared has_ flag, a count of zero, and initialised data. */
  predicate InitialSlot(f: Field, s: Slot)
    decreases f, 1
  {
    match s
    case Single(v) => InitialValue(f, v)
    case Maybe(has, v) => !has && InitialValue(f, v)
    case Many(items, _) => items == []
    case Hook(_, _) => true
  }

  predicate Initial(t: seq<Field>, m: seq<Slot>)
    decreases t
  {
    |m| == |t| && forall i :: 0 <= i < |t| ==> t[i].atype.Callback? || InitialSlot(t[i], m[i])
  }

  /** Submessages have the shape of their tables; this says nothing about what is in the structure. */
  predicate HasShape(t: seq<Field>, m: seq<Slot>)
    decreases t
  {
    |m| == |t| && forall i :: 0 <= i < |t| ==> SlotHasShape(t[i], m[i])
  }

  predicate SlotHasShape(f: Field, s: Slot)
    decreases f
  {
    f.ltype.SubMessage? && (s.Single? || s.Maybe?) ==> s.value.Msg? && HasShape(f.ltype.table, s.value.slots)
  }

  lemma {:induction false} ClearKeepsShape(t: seq<Field>, m: seq<Slot>)
    requires HasShape(t, m)
    ensures HasShape(t, ClearFirst(t, m))
    decreases t
  {
    forall i | 0 <= i < |t| ensures SlotHasShape(t[i], ClearSlot(t[i], m[i])) {
      assert SlotHasShape(t[i], m[i]);
      SlotClearKeepsShape(t[i], m[i]);
    }
  }

  lemma {:induction false} SlotClearKeepsShape(f: Field, s: Slot)
    requires SlotHasShape(f, s)
    ensures SlotHasShape(f, ClearSlot(f, s))
    decreases f
  {
    if f.ltype.SubMessage? && (s.Single? || s.Maybe?) { ClearKeepsShape(f.ltype.table, s.value.slots); }
  }

  /** Whatever the structure held, its defaults are in it, at every depth. */
  lemma {:induction false} DefaultsAreInitial(t: seq<Field>, d: seq<Slot>)
    requires HasShape(t, d)
    ensures Initial(t, SetDefaults(t, d))
    decreases t
  {
    forall i | 0 <= i < |t| && !t[i].atype.Callback? ensures InitialSlot(t[i], SetDefault(t[i], d[i])) {
      assert SlotHasShape(t[i], d[i]);
      SlotDefaultIsInitial(t[i], d[i]);
    }
  }

  lemma {:induction false} SlotDefaultIsInitial(f: Field, s: Slot)
    requires SlotHasShape(f, s) && !f.atype.Callback?
    ensures InitialSlot(f, SetDefault(f, s))
    decreases f
  {
    if f.ltype.SubMessage? && (s.Single? || s.Maybe?) {
      var t, slots := f.ltype.table, s.value.slots;
      ClearKeepsShape(t, slots);
      DefaultsAreInitial(t, slots);
      DefaultsAreInitial(t, ClearFirst(t, slots));
    }
  }

  /** Callbacks and the storage of arrays are left alone. */
  lemma {:induction false} DefaultsLeaveAlone(t: seq<Field>, d: seq<Slot>, k: nat)
    requires k < |t| == |d|
    ensures d[k].Hook? ==> SetDefaults(t, d)[k] == d[k]
    ensures d[k].Many? && !t[k].atype.Callback? ==> SetDefaults(t, d)[k] == Many([], d[k].items + d[k].spare)
  {
  }

  /** A field none of whose keys was read holds what it held before. */
  lemma {:induction false} UnreadStays(t: seq<Field>, st: Progress, i: Input, k: nat)
    requires Plain(t) && k < |t| == |st.slots| && DecodeFields(t, st, i).Ok?
    requires t[k].tag !in KeysRead(t, st, i)
    ensures var slots := DecodeFields(t, st, i).value.slots;
            |slots| == |t| && slots[k] == st.slots[k]
    decreases i.left
  {
    if i.left > 0 && DecodeTag(i).Tag? {
      var Tag(wireType, number, rest) := DecodeTag(i);
      var step := Step(t, st, i);
      FindIsDeclared(t, number);
      assert t[k].tag != number;
      UnreadStays(t, step.state, step.rest, k);
    }
  }

  /**
   After pb_decode a field that did not occur has its has_ flag cleared or its count zero,
   and holds its declared default or zero, whatever the destination held before.
   */
  lemma {:induction false} UnreadIsInitial(t: seq<Field>, d: seq<Slot>, i: Input, k: nat)
    requires Plain(t) && HasShape(t, d) && k < |t| && !t[k].atype.Callback? && Decode(t, d, i).Ok?
    requires t[k].tag !in KeysRead(t, Progress(SetDefaults(t, d), {}), i)
    ensures var r := Decode(t, d, i).value;
            |r| == |t| && InitialSlot(t[k], r[k])
  {
    DefaultsAreInitial(t, d);
    UnreadStays(t, Progress(SetDefaults(t, d), {}), i, k);
  }

  /** The same for an optional number, text or bytes field, spelled out. */
  lemma {:induction false} UnreadOptional(t: seq<Field>, d: seq<Slot>, i: Input, k: nat)
    requires Plain(t) && k < |t| == |d| && Decode(t, d, i).Ok?
    requires t[k].atype.Static? && t[k].htype.Optional? && d[k].Maybe? && !t[k].ltype.SubMessage?
    requires t[k].tag !in KeysRead(t, Progress(SetDefaults(t, d), {}), i)
    ensures var r := Decode(t, d, i).value;
            && |r| == |t|
            && (t[k].default.Some? ==> r[k] == Maybe(false, t[k].default.value))
            && (t[k].default.None? && Packable(t[k].ltype) ==> r[k] == Maybe(false, Num(0)))
            && (t[k].default.None? && (t[k].ltype.String? || t[k].ltype.Bytes?) ==> r[k] == Maybe(false, Blob([])))
            && (t[k].default.None? && t[k].ltype.FixedLengthBytes? ==>
                  r[k].Maybe? && !r[k].has && IsCleared(r[k].value, t[k].dataSize))
  {
    UnreadStays(t, Progress(SetDefaults(t, d), {}), i, k);
    assert SetDefaults(t, d)[k] == SetDefault(t[k], d[k]);
    OptionalDefault(t[k], d[k]);
  }

  lemma {:induction false} OptionalDefault(f: Field, s: Slot)
    requires f.atype.Static? && s.Maybe? && !f.ltype.SubMessage?
    ensures f.default.Some? ==> SetDefault(f, s) == Maybe(false, f.default.value)
    ensures f.default.None? && Packable(f.ltype) ==> SetDefault(f, s) == Maybe(false, Num(0))
    ensures f.default.None? && (f.ltype.String? || f.ltype.Bytes?) ==> SetDefault(f, s) == Maybe(false, Blob([]))
    ensures f.default.None? && f.ltype.FixedLengthBytes? ==>
              SetDefault(f, s).Maybe? && !SetDefault(f, s).has && IsCleared(SetDefault(f, s).value, f.dataSize)
  {
  }

  /** So many zero bytes. */
  predicate IsCleared(v: Value, n: nat) { v.Blob? && |v.bytes| == n && forall k :: 0 <= k < n ==> v.bytes[k] == 0 }

  // ---- Counts ------------------------------------------------------------------------------------

  /** No array counts more elements than it has room for. */
  predicate CountsInside(t: seq<Field>, m: seq<Slot>) {
    |m| == |t| && forall k :: 0 <= k < |t| && m[k].Many? ==> |m[k].items| <= t[k].arraySize
  }

  lemma {:induction false} PackedStaysInside(f: Field, s: Slot, i: Input)
    requires s.Many? && |s.items| <= f.arraySize && DecodePacked(f, s, i).Ok?
    ensures |DecodePacked(f, s, i).value.items| <= f.arraySize
    decreases i.left
  {
    if i.left > 0 {
      var Ok(n, rest) := Scalars.Decode(f.ltype, f.dataSize, i);
      PackedStaysInside(f, Append(s, Num(n)), rest);
    }
  }

  lemma {:induction false} FieldStaysInside(f: Field, s: Slot, wireType: nat, i: Input)
    requires (s.Many? ==> |s.items| <= f.arraySize) && DecodeField(f, s, wireType, i).Ok?
    ensures var r := DecodeField(f, s, wireType, i).value;
            r.Many? ==> |r.items| <= f.arraySize
  {
    if f.atype.Static? && s.Many? && f.htype.Repeated? && wireType == 2 && Packable(f.ltype) {
      var Ok(size, rest) := Varint.DecodeVarint32(i);
      PackedStaysInside(f, s, Cursor(rest.data, size));
    }
  }

  /** Whatever comes in, counts stay within array_size. */
  lemma {:induction false} CountsStayInside(t: seq<Field>, st: Progress, i: Input)
    requires CountsInside(t, st.slots) && DecodeFields(t, st, i).Ok?
    ensures CountsInside(t, DecodeFields(t, st, i).value.slots)
    decreases i.left
  {
    if i.left > 0 && DecodeTag(i).Tag? {
      var Tag(wireType, number, rest) := DecodeTag(i);
      var step, record := Step(t, st, i), DecodeRecord(t, st, wireType, number, rest);
      assert step == Next(record.value, record.rest);
      if Find(t, number).Some? {
        var k := Find(t, number).value;
        var field := DecodeField(t[k], st.slots[k], wireType, rest);
        FieldStaysInside(t[k], st.slots[k], wireType, rest);
      }
      CountsStayInside(t, step.state, step.rest);
    }
  }

  /** An element that is not packed is refused when the array is full, and counts one when it is not. */
  lemma {:induction false} OneElementAtATime(f: Field, s: Slot, wireType: nat, i: Input)
    requires f.atype.Static? && f.htype.Repeated? && s.Many? && !(wireType == 2 && Packable(f.ltype))
    ensures |s.items| >= f.arraySize ==> DecodeField(f, s, wireType, i).Fail?
    ensures var r := DecodeField(f, s, wireType, i);
            r.Ok? ==> r.value.Many? && |r.value.items| == |s.items| + 1 && r.value.items[..|s.items|] == s.items
  {
    var v := DecodeValue(f, Place(f, s.spare, 0), i);
    assert DecodeField(f, s, wireType, i) ==
           if |s.items| >= f.arraySize || v.Fail? then Fail else Ok(Append(s, v.value), v.rest);
  }

  /** On an empty table the terminator answers to tag 0, and refuses every value. */
  lemma {:induction false} EmptyTableRefusesZero(st: Progress, wireType: nat, i: Input)
    ensures DecodeRecord([], st, wireType, 0, i).Fail?
  {
  }
}
