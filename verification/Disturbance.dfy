/**
 What setting the defaults does to callbacks: the first byte of every singular field is
 cleared, because pSize is pData there, and with it a callback that stands at the start.
 */
module Disturbance {
  import opened Schema
  import opened RoundTrip

  function Cleared(f: Field, v: Value, hit: bool): Value { if hit then ClearValue(f, v) else v }

  function ClearedSlots(t: seq<Field>, d: seq<Slot>, hit: bool): (r: seq<Slot>)
    ensures |r| == |d|
  {
    if hit then ClearFirst(t, d) else d
  }

  /**
   No callback of the destination that is installed, and that something is sent to, stands
   in the first byte of a singular field, or is stray from the beginning.  `hit` says that
   the first byte of this very structure is cleared.
   */
  predicate UndisturbedValue(f: Field, v: Value, d: Value, hit: bool)
    decreases f, 0
  {
    f.ltype.SubMessage? && v.Msg? && d.Msg? ==> Undisturbed(f.ltype.table, v.slots, d.slots, hit)
  }

  predicate UndisturbedSlot(f: Field, s: Slot, d: Slot, hit: bool)
    decreases f, 1
  {
    match s
    case Single(v) => d.Single? && !Absent(f, v) ==> UndisturbedValue(f, v, d.value, hit || Singular(f))
    case Maybe(has, v) => d.Maybe? && has ==> UndisturbedValue(f, v, d.value, hit)
    case Many(items, _) =>
      d.Many? ==>
        var storage := d.items + d.spare;
        forall j :: 0 <= j < |items| ==>
          UndisturbedValue(f, items[j], Place(f, storage, j), hit && j == 0 && j < |storage|)
    case Hook(emit, _) =>
      d.Hook? && (d.sink.Stray? || (hit && d.sink.Reader?)) && emit.Records? ==> emit.payloads == []
  }

  predicate Undisturbed(t: seq<Field>, m: seq<Slot>, d: seq<Slot>, hit: bool)
    decreases t
  {
    |m| == |t| == |d| ==> forall i :: 0 <= i < |t| ==> UndisturbedSlot(t[i], m[i], d[i], hit && AtStart(t, i))
  }

  // ---- Clearing -------------------------------------------------------------------------------

  lemma {:induction false} ClearTwice(t: seq<Field>, m: seq<Slot>)
    ensures ClearFirst(t, ClearFirst(t, m)) == ClearFirst(t, m)
    decreases t
  {
    if |t| == |m| {
      forall i | 0 <= i < |t| ensures ClearSlot(t[i], ClearSlot(t[i], m[i])) == ClearSlot(t[i], m[i]) {
        ClearSlotTwice(t[i], m[i]);
      }
    }
  }

  lemma {:induction false} ClearSlotTwice(f: Field, s: Slot)
    ensures ClearSlot(f, ClearSlot(f, s)) == ClearSlot(f, s)
    decreases f, 1
  {
    match s
    case Single(v) => ClearValueTwice(f, v);
    case Maybe(_, v) => ClearValueTwice(f, v);
    case Many(items, spare) =>
      if items != [] { ClearValueTwice(f, items[0]); }
      if spare != [] { ClearValueTwice(f, spare[0]); }
    case Hook(_, _) =>
  }

  lemma {:induction false} ClearValueTwice(f: Field, v: Value)
    ensures ClearValue(f, ClearValue(f, v)) == ClearValue(f, v)
    decreases f, 0
  {
    if f.ltype.SubMessage? && v.Msg? { ClearTwice(f.ltype.table, v.slots); }
  }

  /** Clearing an array clears its first element, whether it counts or not. */
  lemma {:induction false} ClearStorage(f: Field, s: Slot)
    requires s.Many?
    ensures var c := ClearSlot(f, s);
            && c.Many? && |c.items + c.spare| == |s.items + s.spare|
            && forall j :: Place(f, c.items + c.spare, j) ==
                           Cleared(f, Place(f, s.items + s.spare, j), j == 0 < |s.items + s.spare|)
  {
  }

  /** A cleared destination has the same shape, and no callback that rejects more. */
  lemma {:induction false} ClearListens(t: seq<Field>, m: seq<Slot>, d: seq<Slot>)
    requires Listens(t, m, d)
    ensures Listens(t, m, ClearFirst(t, d))
    decreases t
  {
    forall i | 0 <= i < |t| ensures ListensSlot(t[i], m[i], ClearSlot(t[i], d[i])) {
      ClearSlotListens(t[i], m[i], d[i]);
    }
  }

  lemma {:induction false} ClearSlotListens(f: Field, s: Slot, d: Slot)
    requires ListensSlot(f, s, d)
    ensures ListensSlot(f, s, ClearSlot(f, d))
    decreases f, 1
  {
    match s
    case Single(v) => ClearValueListens(f, v, d.value);
    case Maybe(has, v) => if has { ClearValueListens(f, v, d.value); }
    case Many(items, _) =>
      ClearStorage(f, d);
      var c := ClearSlot(f, d);
      forall j | 0 <= j < |items| ensures ListensValue(f, items[j], Place(f, c.items + c.spare, j)) {
        ClearValueListens(f, items[j], Place(f, d.items + d.spare, j));
      }
    case Hook(_, _) =>
  }

  lemma {:induction false} ClearValueListens(f: Field, v: Value, d: Value)
    requires ListensValue(f, v, d)
    ensures ListensValue(f, v, ClearValue(f, d))
    decreases f, 0
  {
    if f.ltype.SubMessage? { ClearListens(f.ltype.table, v.slots, d.slots); }
  }

  // ---- Defaults make a destination ready ----------------------------------------------------

  lemma {:induction false} DefaultsAreReady(t: seq<Field>, m: seq<Slot>, d: seq<Slot>)
    requires WfTable(t) && ValidMessage(t, m) && Listens(t, m, d)
    ensures ReadyMessage(t, m, SetDefaults(t, d))
    decreases t
  {
    forall i | 0 <= i < |t| ensures ReadySlot(t[i], m[i], SetDefaults(t, d)[i]) {
      assert WfField(t[i]) && ValidSlot(t[i], m[i]) && ListensSlot(t[i], m[i], d[i]);
      DefaultIsReady(t[i], m[i], d[i]);
    }
  }

  lemma {:induction false} DefaultIsReady(f: Field, s: Slot, d: Slot)
    requires WfField(f) && ValidSlot(f, s) && ListensSlot(f, s, d)
    ensures ReadySlot(f, s, SetDefault(f, d))
    decreases f, 1
  {
    match s
    case Single(v) =>
      ClearValueListens(f, v, d.value);
      ValueIsReady(f, v, Cleared(f, d.value, Singular(f)));
    case Maybe(has, v) => if has { ValueIsReady(f, v, d.value); }
    case Many(items, _) =>
      forall j | 0 <= j < |items| ensures ReadyValue(f, items[j], Place(f, d.items + d.spare, j)) {
        ElementIsReady(f, items[j], Place(f, d.items + d.spare, j));
      }
    case Hook(_, _) =>
  }

  lemma {:induction false} ValueIsReady(f: Field, v: Value, d: Value)
    requires WfField(f) && !f.htype.Repeated? && ValidValue(f, v) && ListensValue(f, v, d)
    ensures ReadyValue(f, v, DefaultValue(f, d))
    decreases f, 0
  {
    if f.ltype.SubMessage? { DefaultsAreReady(f.ltype.table, v.slots, d.slots); }
  }

  lemma {:induction false} ElementIsReady(f: Field, v: Value, d: Value)
    requires WfField(f) && f.htype.Repeated? && ValidValue(f, v) && ListensValue(f, v, d)
    ensures ReadyValue(f, v, d)
    decreases f, 0
  {
    if f.ltype.SubMessage? { DefaultsAreReady(f.ltype.table, v.slots, d.slots); }
  }

  // ---- Which callbacks survive ---------------------------------------------------------------

  /** After setting the defaults nothing sent meets a stray callback, exactly when nothing was disturbed. */
  lemma {:induction false} QuietIsUndisturbed(t: seq<Field>, m: seq<Slot>, d: seq<Slot>, hit: bool)
    requires WfTable(t) && ValidMessage(t, m) && Listens(t, m, d)
    ensures QuietMessage(t, m, SetDefaults(t, ClearedSlots(t, d, hit))) <==> Undisturbed(t, m, d, hit)
    decreases t
  {
    var after := SetDefaults(t, ClearedSlots(t, d, hit));
    forall i | 0 <= i < |t|
      ensures QuietSlot(t[i], m[i], after[i]) <==> UndisturbedSlot(t[i], m[i], d[i], hit && AtStart(t, i))
    {
      assert WfField(t[i]) && ValidSlot(t[i], m[i]) && ListensSlot(t[i], m[i], d[i]);
      QuietSlotIsUndisturbed(t[i], m[i], d[i], hit && AtStart(t, i));
    }
  }

  lemma {:induction false} QuietSlotIsUndisturbed(f: Field, s: Slot, d: Slot, hit: bool)
    requires WfField(f) && ValidSlot(f, s) && ListensSlot(f, s, d)
    ensures QuietSlot(f, s, SetDefault(f, if hit then ClearSlot(f, d) else d)) <==> UndisturbedSlot(f, s, d, hit)
    decreases f, 1
  {
    match s
    case Single(v) =>
      ClearValueTwice(f, d.value);
      QuietValueIsUndisturbed(f, v, d.value, hit || Singular(f));
    case Maybe(has, v) => if has { QuietValueIsUndisturbed(f, v, d.value, hit); }
    case Many(items, _) =>
      var storage := d.items + d.spare;
      if hit { ClearStorage(f, d); }
      var c := if hit then ClearSlot(f, d) else d;
      forall j | 0 <= j < |items|
        ensures QuietValue(f, items[j], Place(f, c.items + c.spare, j)) <==>
                UndisturbedValue(f, items[j], Place(f, storage, j), hit && j == 0 && j < |storage|)
      {
        QuietElementIsUndisturbed(f, items[j], Place(f, storage, j), hit && j == 0 && j < |storage|);
      }
    case Hook(_, _) =>
  }

  lemma {:induction false} QuietValueIsUndisturbed(f: Field, v: Value, d: Value, hit: bool)
    requires WfField(f) && !f.htype.Repeated? && ValidValue(f, v) && ListensValue(f, v, d)
    ensures QuietValue(f, v, DefaultValue(f, Cleared(f, d, hit))) <==> UndisturbedValue(f, v, d, hit)
    decreases f, 0
  {
    if f.ltype.SubMessage? { QuietIsUndisturbed(f.ltype.table, v.slots, d.slots, hit); }
  }

  lemma {:induction false} QuietElementIsUndisturbed(f: Field, v: Value, d: Value, hit: bool)
    requires WfField(f) && f.htype.Repeated? && ValidValue(f, v) && ListensValue(f, v, d)
    ensures QuietValue(f, v, Cleared(f, d, hit)) <==> UndisturbedValue(f, v, d, hit)
    decreases f, 0
  {
    if f.ltype.SubMessage? { QuietIsUndisturbed(f.ltype.table, v.slots, d.slots, hit); }
  }

  // ---- Tables in which no callback can be disturbed -----------------------------------------

  /** A callback stands in the first byte of the structure. */
  predicate CallbackFirst(t: seq<Field>)
    decreases t
  {
    exists i :: 0 <= i < |t| && AtStart(t, i) && IsCallbackFirst(t[i])
  }

  predicate IsCallbackFirst(f: Field)
    decreases f
  {
    f.atype.Callback? || (f.ltype.SubMessage? && CallbackFirst(f.ltype.table))
  }

  /** No singular submessage, at any depth, begins with a callback. */
  predicate Sheltered(t: seq<Field>)
    decreases t
  {
    forall i :: 0 <= i < |t| ==> ShelteredField(t[i])
  }

  predicate ShelteredField(f: Field)
    decreases f
  {
    && (f.atype.Static? && Singular(f) && f.ltype.SubMessage? ==> !CallbackFirst(f.ltype.table))
    && (f.ltype.SubMessage? ==> Sheltered(f.ltype.table))
  }

  /** Nothing in a structure is stray. */
  predicate Intact(m: seq<Slot>)
    decreases m
  {
    forall i :: 0 <= i < |m| ==> IntactSlot(m[i])
  }

  predicate IntactSlot(s: Slot)
    decreases s
  {
    match s
    case Single(v) => IntactValue(v)
    case Maybe(_, v) => IntactValue(v)
    case Many(items, spare) =>
      (forall j :: 0 <= j < |items| ==> IntactValue(items[j])) && (forall j :: 0 <= j < |spare| ==> IntactValue(spare[j]))
    case Hook(_, sink) => !sink.Stray?
  }

  predicate IntactValue(v: Value)
    decreases v
  {
    v.Msg? ==> Intact(v.slots)
  }

  lemma {:induction false} ZeroIsIntact(f: Field)
    ensures IntactValue(ZeroValue(f))
    decreases f
  {
    if f.ltype.SubMessage? {
      var t := f.ltype.table;
      forall i | 0 <= i < |t| ensures IntactSlot(ZeroSlots(t)[i]) { ZeroIsIntact(t[i]); }
    }
  }

  /** In a sheltered table nothing is disturbed, whatever is sent and received. */
  lemma {:induction false} ShelteredIsUndisturbed(t: seq<Field>, m: seq<Slot>, d: seq<Slot>, hit: bool)
    requires WfTable(t) && ValidMessage(t, m) && Sheltered(t) && Intact(d) && (hit ==> !CallbackFirst(t))
    ensures Undisturbed(t, m, d, hit)
    decreases t
  {
    if |m| == |t| == |d| {
      forall i | 0 <= i < |t| ensures UndisturbedSlot(t[i], m[i], d[i], hit && AtStart(t, i)) {
        assert WfField(t[i]) && ValidSlot(t[i], m[i]) && ShelteredField(t[i]) && IntactSlot(d[i]);
        ShelteredSlotIsUndisturbed(t[i], m[i], d[i], hit && AtStart(t, i));
      }
    }
  }

  lemma {:induction false} ShelteredSlotIsUndisturbed(f: Field, s: Slot, d: Slot, hit: bool)
    requires WfField(f) && ValidSlot(f, s) && ShelteredField(f) && IntactSlot(d) && (hit ==> !IsCallbackFirst(f))
    ensures UndisturbedSlot(f, s, d, hit)
    decreases f, 1
  {
    match s
    case Single(v) => if d.Single? && !Absent(f, v) { ShelteredValueIsUndisturbed(f, v, d.value, hit || Singular(f)); }
    case Maybe(has, v) => if d.Maybe? && has { ShelteredValueIsUndisturbed(f, v, d.value, hit); }
    case Many(items, _) =>
      if d.Many? {
        var storage := d.items + d.spare;
        forall j | 0 <= j < |items|
          ensures UndisturbedValue(f, items[j], Place(f, storage, j), hit && j == 0 && j < |storage|)
        {
          ZeroIsIntact(f);
          ShelteredValueIsUndisturbed(f, items[j], Place(f, storage, j), hit && j == 0 && j < |storage|);
        }
      }
    case Hook(_, _) =>
  }

  lemma {:induction false} ShelteredValueIsUndisturbed(f: Field, v: Value, d: Value, hit: bool)
    requires WfField(f) && ValidValue(f, v) && ShelteredField(f) && IntactValue(d)
    requires hit && f.ltype.SubMessage? ==> !CallbackFirst(f.ltype.table)
    ensures UndisturbedValue(f, v, d, hit)
    decreases f, 0
  {
    if f.ltype.SubMessage? && v.Msg? && d.Msg? {
      ShelteredIsUndisturbed(f.ltype.table, v.slots, d.slots, hit);
    }
  }
}
