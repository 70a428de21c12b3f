/** Packed and unpacked records of a repeated number field are interchangeable. */
module Packed {
  import opened Wire
  import opened Varint
  import opened Schema
  import opened Decoder
  import opened FieldOrder
  import opened Merge
  import opened Records
  import Scalars

  /** The numbers in a packed payload, with no limit on their count. */
  function Numbers(f: Field, i: Input): Option<seq<int>>
    decreases i.left
  {
    if i.left == 0 then Some([])
    else match Scalars.Decode(f.ltype, f.dataSize, i)
         case Fail => None
         case Ok(n, rest) =>
           match Numbers(f, rest)
           case None => None
           case Some(more) => Some([n] + more)
  }

  /** The numbers one record carries: a packed list, or a single one. */
  function Carried(f: Field, x: Rec): Option<seq<int>> {
    if x.wireType == 2 then
      match DecodeVarint32(All(x.body))
      case Fail => None
      case Ok(size, rest) => if rest.left == size then Numbers(f, rest) else None
    else
      match Scalars.Decode(f.ltype, f.dataSize, All(x.body))
      case Fail => None
      case Ok(n, rest) => if Whole(rest) then Some([n]) else None
  }

  function AsValues(ns: seq<int>): (vs: seq<Value>)
    ensures |vs| == |ns|
  {
    seq(|ns|, j requires 0 <= j < |ns| => Num(ns[j]))
  }

  /** An array that has taken on these numbers. */
  function Extended(slot: Slot, ns: seq<int>): (r: Slot)
    requires slot.Many?
    ensures r.Many? && |r.items| == |slot.items| + |ns|
  {
    Many(slot.items + AsValues(ns), Drop(slot.spare, |ns|))
  }

  lemma {:induction false} ExtendedTwice(slot: Slot, a: seq<int>, b: seq<int>)
    requires slot.Many?
    ensures Extended(Extended(slot, a), b) == Extended(slot, a + b)
    ensures Extended(slot, []) == slot
  {
    assert AsValues(a + b) == AsValues(a) + AsValues(b);
    assert slot.items + AsValues(a) + AsValues(b) == slot.items + (AsValues(a) + AsValues(b));
    assert slot.items + AsValues([]) == slot.items;
  }

  lemma {:induction false} AppendIsExtended(slot: Slot, n: int)
    requires slot.Many?
    ensures Append(slot, Num(n)) == Extended(slot, [n])
  {
    assert AsValues([n]) == [Num(n)];
  }

  /** The packed loop takes exactly the numbers in the payload, if there is room for them. */
  lemma {:induction false} PackedTakesNumbers(f: Field, slot: Slot, i: Input)
    requires slot.Many? && |slot.items| <= f.arraySize
    ensures var r := DecodePacked(f, slot, i);
            r.Ok? <==> Numbers(f, i).Some? && |slot.items| + |Numbers(f, i).value| <= f.arraySize
    ensures DecodePacked(f, slot, i).Ok? ==>
              DecodePacked(f, slot, i).value == Extended(slot, Numbers(f, i).value)
    decreases i.left
  {
    if i.left == 0 {
      ExtendedTwice(slot, [], []);
    } else {
      var d := Scalars.Decode(f.ltype, f.dataSize, i);
      if d.Ok? && |slot.items| < f.arraySize {
        AppendIsExtended(slot, d.value);
        PackedTakesNumbers(f, Append(slot, Num(d.value)), d.rest);
        if Numbers(f, d.rest).Some? { ExtendedTwice(slot, [d.value], Numbers(f, d.rest).value); }
      }
    }
  }

  predicate PackableArray(f: Field) {
    f.atype.Static? && f.htype.Repeated? && Packable(f.ltype)
  }

  /** A record appends what it carries; it is refused when there is no room. */
  lemma {:induction false} RecordAppends(f: Field, slot: Slot, x: Rec)
    requires PackableArray(f) && slot.Many? && |slot.items| <= f.arraySize && Carried(f, x).Some?
    ensures var ns := Carried(f, x).value;
            Apply(f, slot, x) ==
            if |slot.items| + |ns| <= f.arraySize then Some(Extended(slot, ns)) else None
  {
    var ns := Carried(f, x).value;
    if x.wireType == 2 {
      var Ok(size, rest) := DecodeVarint32(All(x.body));
      PackedTakesNumbers(f, slot, rest);
      assert Cursor(rest.data, size) == rest;
      if DecodePacked(f, slot, rest).Ok? { PackedIsWhole(f, slot, rest); }
    } else {
      var Ok(n, rest) := Scalars.Decode(f.ltype, f.dataSize, All(x.body));
      assert ns == [n];
      AppendIsExtended(slot, n);
      assert DecodeValue(f, Place(f, slot.spare, 0), All(x.body)) == Ok(Num(n), rest);
    }
  }

  lemma {:induction false} PackedIsWhole(f: Field, slot: Slot, i: Input)
    requires slot.Many? && DecodePacked(f, slot, i).Ok? && Lag(i) == 0
    ensures Whole(Cursor(DecodePacked(f, slot, i).rest.data, 0))
  {
  }

  predicate AllCarry(f: Field, rs: seq<Rec>) { forall j :: 0 <= j < |rs| ==> Carried(f, rs[j]).Some? }

  /** Everything the records carry, in order. */
  function Total(f: Field, rs: seq<Rec>): seq<int>
    requires AllCarry(f, rs)
  {
    if rs == [] then [] else Carried(f, rs[0]).value + Total(f, rs[1..])
  }

  /** The array after a list of records depends only on the numbers they carry, however they are packed. */
  lemma {:induction false} ArrayIsTotal(f: Field, slot: Slot, rs: seq<Rec>)
    requires PackableArray(f) && slot.Many? && |slot.items| <= f.arraySize && AllCarry(f, rs)
    ensures Fold(f, slot, rs) ==
            if |slot.items| + |Total(f, rs)| <= f.arraySize then Some(Extended(slot, Total(f, rs))) else None
    decreases |rs|
  {
    if rs == [] {
      ExtendedTwice(slot, [], []);
    } else {
      assert Carried(f, rs[0]).Some?;
      var ns := Carried(f, rs[0]).value;
      RecordAppends(f, slot, rs[0]);
      if |slot.items| + |ns| <= f.arraySize {
        ArrayIsTotal(f, Extended(slot, ns), rs[1..]);
        ExtendedTwice(slot, ns, Total(f, rs[1..]));
      }
    }
  }

  /** Any two mixes of packed and single records with the same numbers decode alike, or fail alike. */
  lemma {:induction false} PackedAndUnpackedAgree(f: Field, slot: Slot, rs: seq<Rec>, rs': seq<Rec>)
    requires PackableArray(f) && slot.Many? && |slot.items| <= f.arraySize
    requires AllCarry(f, rs) && AllCarry(f, rs') && Total(f, rs) == Total(f, rs')
    ensures Fold(f, slot, rs) == Fold(f, slot, rs')
  {
    ArrayIsTotal(f, slot, rs);
    ArrayIsTotal(f, slot, rs');
  }

  /** Two streams of records that differ in how the numbers of array k are packed, and in unknown records. */
  ghost predicate SameButPacking(t: seq<Field>, k: nat, rs: seq<Rec>, rs': seq<Rec>)
    requires k < |t|
  {
    && WellKeyedAll(rs) && WellKeyedAll(rs') && UnknownsSkippable(t, rs')
    && (forall j :: 0 <= j < |t| && j != k ==> Pick(rs, t[j].tag) == Pick(rs', t[j].tag))
    && AllCarry(t[k], Pick(rs, t[k].tag)) && AllCarry(t[k], Pick(rs', t[k].tag))
    && Total(t[k], Pick(rs, t[k].tag)) == Total(t[k], Pick(rs', t[k].tag))
  }

  lemma {:induction false} MixesRunAlike(t: seq<Field>, slots: seq<Slot>, k: nat, rs: seq<Rec>, rs': seq<Rec>)
    requires Plain(t) && |slots| == |t| && k < |t| && SameButPacking(t, k, rs, rs')
    requires PackableArray(t[k]) && slots[k].Many? && |slots[k].items| <= t[k].arraySize
    requires RunAll(t, Progress(slots, {}), rs).Some?
    ensures var r, r' := RunAll(t, Progress(slots, {}), rs), RunAll(t, Progress(slots, {}), rs');
            r'.Some? && r'.value.slots == r.value.slots && SameRequired(t, r.value.seen, r'.value.seen)
  {
    var st := Progress(slots, {});
    DecodesFieldByField(t, st, rs);
    DecodesFieldByField(t, st, rs');
    PackedAndUnpackedAgree(t[k], slots[k], Pick(rs, t[k].tag), Pick(rs', t[k].tag));
    forall j | 0 <= j < |t|
      ensures Fold(t[j], slots[j], Pick(rs', t[j].tag)) == Fold(t[j], slots[j], Pick(rs, t[j].tag)) {}
    assert Acceptable(t, slots, rs');
    var a, b := RunAll(t, st, rs).value, RunAll(t, st, rs').value;
    forall j | 0 <= j < |t| ensures a.slots[j] == b.slots[j] { assert Some(a.slots[j]) == Some(b.slots[j]); }
    assert a.slots == b.slots;
    OccurringIsPicked(t, rs);
    OccurringIsPicked(t, rs');
  }

  /** Messages that differ only in packing decode to the same message, whatever follows. */
  lemma {:induction false} MixesDecodeAlike(
    t: seq<Field>, slots: seq<Slot>, k: nat, rs: seq<Rec>, rs': seq<Rec>, tail: seq<byte>, n: nat)
    requires Plain(t) && |slots| == |t| && k < |t| && SameButPacking(t, k, rs, rs') && n <= |tail|
    requires PackableArray(t[k]) && slots[k].Many? && |slots[k].items| <= t[k].arraySize
    requires RunAll(t, Progress(slots, {}), rs).Some?
    ensures DecodeMessage(t, slots, Before(OnWire(rs'), tail, n)) == DecodeMessage(t, slots, Before(OnWire(rs), tail, n))
  {
    var st := Progress(slots, {});
    MixesRunAlike(t, slots, k, rs, rs');
    var a, b := RunAll(t, st, rs).value, RunAll(t, st, rs').value;
    RunAllIsDecode(t, st, rs);
    RunAllIsDecode(t, st, rs');
    CompleteBefore(t, st, OnWire(rs), tail, n);
    CompleteBefore(t, st, OnWire(rs'), tail, n);
    SeenIsPassive(t, a.slots, a.seen, b.seen, Cursor(tail, n));
  }
}
