/** What decoding into the result means: numbers and text are replaced, submessages are merged. */
module LastOneWins {
  import opened Wire
  import opened Schema
  import opened Decoder
  import opened Records
  import opened FieldOrder
  import opened Encoder
  import opened Merge
  import RoundTrip

  // ---- Fields that are replaced ---------------------------------------------------------------

  /** A required, optional or singular field other than a submessage. */
  predicate Replaced(f: Field, slot: Slot) {
    && f.atype.Static? && !f.ltype.SubMessage?
    && ((f.htype.Required? && slot.Single?) || (f.htype.Optional? && (slot.Single? || slot.Maybe?)))
  }

  /** The effect of a record does not depend on what the slot holds. */
  lemma {:induction false} Overwrites(f: Field, slot: Slot, other: Slot, x: Rec)
    requires Replaced(f, slot) && Replaced(f, other) && (slot.Single? <==> other.Single?)
    ensures Apply(f, slot, x) == Apply(f, other, x)
    ensures Apply(f, slot, x).Some? ==>
              Replaced(f, Apply(f, slot, x).value) && (slot.Single? <==> Apply(f, slot, x).value.Single?)
  {
    assert DecodeValue(f, slot.value, All(x.body)) == DecodeValue(f, other.value, All(x.body));
  }

  /** Static fields do not look at the wire type, except to tell packed arrays from single numbers. */
  lemma {:induction false} WireTypeIsIgnored(f: Field, slot: Slot, w: nat, w': nat, i: Input)
    requires f.atype.Static? && (f.htype.Repeated? && Packable(f.ltype) ==> (w == 2 <==> w' == 2))
    ensures DecodeField(f, slot, w, i) == DecodeField(f, slot, w', i)
  {
  }

  /** Every record has to be acceptable, and the last one stays. */
  lemma {:induction false} LastStays(f: Field, slot: Slot, rs: seq<Rec>)
    requires Replaced(f, slot) && rs != []
    ensures Fold(f, slot, rs).Some? <==> forall j :: 0 <= j < |rs| ==> Apply(f, slot, rs[j]).Some?
    ensures Fold(f, slot, rs).Some? ==> Fold(f, slot, rs) == Apply(f, slot, rs[|rs| - 1])
    decreases |rs|
  {
    var first, more := Apply(f, slot, rs[0]), rs[1..];
    Overwrites(f, slot, slot, rs[0]);
    if first.Some? && more != [] {
      var s := first.value;
      LastStays(f, s, more);
      forall j | 0 <= j < |more| ensures Apply(f, s, more[j]) == Apply(f, slot, rs[j + 1]) {
        Overwrites(f, s, slot, more[j]);
      }
      if forall j :: 0 <= j < |more| ==> Apply(f, s, more[j]).Some? {
        forall j | 0 <= j < |rs| ensures Apply(f, slot, rs[j]).Some? {
          if j > 0 { assert Apply(f, s, more[j - 1]).Some?; }
        }
      }
    }
  }

  /** In a message the slot of such a field is what its last record makes of it. */
  lemma {:induction false} LastRecordStays(t: seq<Field>, st: Progress, rs: seq<Rec>, k: nat)
    requires Plain(t) && k < |t| == |st.slots| && Replaced(t[k], st.slots[k])
    requires RunAll(t, st, rs).Some? && Pick(rs, t[k].tag) != []
    ensures var own := Pick(rs, t[k].tag);
            |RunAll(t, st, rs).value.slots| == |t| &&
            Some(RunAll(t, st, rs).value.slots[k]) == Apply(t[k], st.slots[k], own[|own| - 1])
  {
    var own, last := Pick(rs, t[k].tag), RunAll(t, st, rs).value;
    assert |last.slots| == |t| && Some(last.slots[k]) == Fold(t[k], st.slots[k], own) by { DecodesFieldByField(t, st, rs); }
    assert Fold(t[k], st.slots[k], own) == Apply(t[k], st.slots[k], own[|own| - 1]) by {
      LastStays(t[k], st.slots[k], own);
    }
  }

  // ---- Submessages are merged -----------------------------------------------------------------

  /** A required, optional or singular submessage, and the structure it is decoded into. */
  predicate Merged(f: Field, slot: Slot) {
    && f.atype.Static? && f.ltype.SubMessage?
    && ((f.htype.Required? && slot.Single?) || (f.htype.Optional? && (slot.Single? || slot.Maybe?)))
    && slot.value.Msg? && |slot.value.slots| == |f.ltype.table|
  }

  /** A record that carries this payload. */
  function Payload(f: Field, p: seq<byte>): Rec { Rec([], f.tag, 2, EncodeString(p)) }

  function Filled(slot: Slot, m: seq<Slot>): Slot {
    if slot.Maybe? then Maybe(true, Msg(m)) else Single(Msg(m))
  }

  /** The record is used up exactly when the message in it is, and then the slot holds that message. */
  lemma {:induction false} PayloadIsMessage(f: Field, slot: Slot, p: seq<byte>)
    requires Merged(f, slot) && |p| < TWO_32
    ensures Apply(f, slot, Payload(f, p)) ==
            match DecodeMessage(f.ltype.table, slot.value.slots, All(p))
            case Fail => None
            case Ok(m, rest) => if rest == All([]) then Some(Filled(slot, m)) else None
  {
    RoundTrip.DelimitedWindow(p);
    var r := DecodeValue(f, slot.value, All(EncodeString(p)));
  }

  /** The effect of two payloads, one after the other. */
  function Both(f: Field, slot: Slot, a: seq<byte>, b: seq<byte>): Option<Slot> {
    match Apply(f, slot, Payload(f, a))
    case None => None
    case Some(s) => Apply(f, s, Payload(f, b))
  }

  /**
   Two records of a submessage leave what one record with both payloads leaves, when the
   first one holds complete records only.  Without required fields in it that is so even if
   they are refused.
   */
  lemma {:induction false} SubmessagesMerge(f: Field, slot: Slot, a: seq<byte>, b: seq<byte>)
    requires Merged(f, slot) && |a| + |b| < TWO_32
    requires CompleteMessage(f.ltype.table, slot.value.slots, a)
    ensures Both(f, slot, a, b).Some? ==> Apply(f, slot, Payload(f, a + b)) == Both(f, slot, a, b)
    ensures NoRequired(f.ltype.table) ==> Apply(f, slot, Payload(f, a + b)) == Both(f, slot, a, b)
  {
    var t, slots := f.ltype.table, slot.value.slots;
    var st := Progress(slots, {});
    var first := After(t, st, a);
    ConsumeIsDecode(t, st, All(a));
    PayloadIsMessage(f, slot, a);
    PayloadIsMessage(f, slot, a + b);
    SlotCountStays(t, st, All(a));
    PayloadIsMessage(f, Filled(slot, first.slots), b);
    CompleteThen(t, st, a, b);
    SeenIsPassive(t, first.slots, {}, first.seen, All(b));
  }

  lemma {:induction false} SlotCountStays(t: seq<Field>, st: Progress, i: Input)
    requires DecodeFields(t, st, i).Ok?
    ensures |DecodeFields(t, st, i).value.slots| == |st.slots|
    decreases i.left
  {
    if i.left > 0 {
      var step := Step(t, st, i);
      if step.Next? {
        var Tag(wireType, number, rest) := DecodeTag(i);
        var record := DecodeRecord(t, st, wireType, number, rest);
        SlotCountStays(t, step.state, step.rest);
      }
    }
  }
}
