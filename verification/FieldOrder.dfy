/**
 A message as a list of records.  Decoding treats every field on its own: the slot of a
 field depends on the records of that field, in their order, and on nothing else.
 */
module FieldOrder {
  import opened Wire
  import opened Schema
  import opened Decoder
  import opened Records
  import Merge
  import opened Bodies

  /** A record: the bytes of its key, what the key says, and the bytes behind it. */
  datatype Rec = Rec(key: seq<byte>, number: nat, wireType: nat, body: seq<byte>)

  /** The key decodes to the number and the wire type; it need not be minimal. */
  predicate WellKeyed(x: Rec) {
    DecodeTag(All(x.key + x.body)) == Tag(x.wireType, x.number, All(x.body))
  }

  predicate WellKeyedAll(rs: seq<Rec>) { forall j :: 0 <= j < |rs| ==> WellKeyed(rs[j]) }

  /** The bytes of a list of records. */
  function OnWire(rs: seq<Rec>): seq<byte> {
    if rs == [] then [] else (rs[0].key + rs[0].body) + OnWire(rs[1..])
  }

  predicate Whole(r: Input) { r.left == 0 && |r.data| == 0 }

  /** The effect of a record on the slot of its field; the record must be used up. */
  function Apply(f: Field, slot: Slot, x: Rec): Option<Slot> {
    match DecodeField(f, slot, x.wireType, All(x.body))
    case Fail => None
    case Ok(slot', rest) => if Whole(rest) then Some(slot') else None
  }

  /** A complete record of any field: its body is one of its wire type. */
  predicate Skippable(x: Rec) { Body(x.wireType, x.body) }

  lemma {:induction false} SkippableIsSkipped(x: Rec)
    ensures Skippable(x) <==> SkipField(All(x.body), x.wireType) == Ok((), All([]))
    ensures var r := SkipField(All(x.body), x.wireType);
            r.Ok? && Whole(r.rest) <==> r == Ok((), All([]))
  {
    SkipIsBody(All(x.body), x.wireType, |x.body|);
    assert x.body[..|x.body|] == x.body;
    assert Skip(All(x.body), |x.body|) == All([]);
    var r := SkipField(All(x.body), x.wireType);
    if r.Ok? { SkipsForward(All(x.body), x.wireType); }
  }

  /** The records with this field number, in order. */
  function Pick(rs: seq<Rec>, number: nat): seq<Rec> {
    if rs == [] then []
    else (if rs[0].number == number then [rs[0]] else []) + Pick(rs[1..], number)
  }

  /** The records of one field, applied one after the other. */
  function Fold(f: Field, slot: Slot, rs: seq<Rec>): Option<Slot>
    decreases |rs|
  {
    if rs == [] then Some(slot)
    else match Apply(f, slot, rs[0])
         case None => None
         case Some(slot') => Fold(f, slot', rs[1..])
  }

  /** One round of the field loop on a record that is used up exactly. */
  function RunOne(t: seq<Field>, st: Progress, x: Rec): Option<Progress> {
    match DecodeRecord(t, st, x.wireType, x.number, All(x.body))
    case Fail => None
    case Ok(st', rest) => if Whole(rest) then Some(st') else None
  }

  /** A record is used up exactly when it is accepted to its end and no submessage in it stops early. */
  lemma {:induction false} UsedUpIsDrained(t: seq<Field>, st: Progress, x: Rec)
    ensures RunOne(t, st, x).Some? <==>
            && DecodeRecord(t, st, x.wireType, x.number, All(x.body)).Ok?
            && DecodeRecord(t, st, x.wireType, x.number, All(x.body)).rest.left == 0
            && Merge.DrainedRecord(t, st, x.wireType, x.number, All(x.body))
  {
    if DecodeRecord(t, st, x.wireType, x.number, All(x.body)).Ok? {
      Merge.RecordLag(t, st, x.wireType, x.number, All(x.body));
    }
  }

  /** The field loop on a list of records. */
  function RunAll(t: seq<Field>, st: Progress, rs: seq<Rec>): Option<Progress>
    decreases |rs|
  {
    if rs == [] then Some(st)
    else match RunOne(t, st, rs[0])
         case None => None
         case Some(st') => RunAll(t, st', rs[1..])
  }

  /** Records accepted one by one are accepted in a row. */
  lemma {:induction false} RunAllIsDecode(t: seq<Field>, st: Progress, rs: seq<Rec>)
    requires WellKeyedAll(rs) && RunAll(t, st, rs).Some?
    ensures Complete(t, st, OnWire(rs)) && After(t, st, OnWire(rs)) == RunAll(t, st, rs).value
    ensures DecodeFields(t, st, All(OnWire(rs))) == Ok(RunAll(t, st, rs).value, All([]))
    decreases |rs|
  {
    if rs != [] {
      var x := rs[0];
      assert WellKeyed(x);
      var st' := RunOne(t, st, x).value;
      assert DecodeRecord(t, st, x.wireType, x.number, All(x.body)).rest == All([]);
      assert x.key + x.body != [];
      OneRecord(t, st, x.key + x.body, st');
      RunAllIsDecode(t, st', rs[1..]);
      CompleteThen(t, st, x.key + x.body, OnWire(rs[1..]));
    }
    ConsumeIsDecode(t, st, All(OnWire(rs)));
  }

  predicate Declared(t: seq<Field>, number: nat) {
    exists k :: 0 <= k < |t| && t[k].tag == number
  }

  /** Tables on which pb_field_iter_find is decided by the tag alone. */
  predicate Plain(t: seq<Field>) {
    t != [] && UniqueTags(t) && forall k :: 0 <= k < |t| ==> !t[k].ltype.Extension?
  }

  predicate UnknownsSkippable(t: seq<Field>, rs: seq<Rec>) {
    forall j :: 0 <= j < |rs| && !Declared(t, rs[j].number) ==> Skippable(rs[j])
  }

  /** Every record is acceptable: unknown ones can be skipped, each field's own ones can be applied. */
  predicate Acceptable(t: seq<Field>, slots: seq<Slot>, rs: seq<Rec>)
    requires |slots| == |t|
  {
    && UnknownsSkippable(t, rs)
    && (forall k :: 0 <= k < |t| ==> Fold(t[k], slots[k], Pick(rs, t[k].tag)).Some?)
  }

  lemma {:induction false} FindIsDeclared(t: seq<Field>, number: nat)
    requires Plain(t)
    ensures Find(t, number).Some? <==> Declared(t, number)
    ensures forall k :: 0 <= k < |t| && t[k].tag == number ==> Find(t, number) == Some(k)
  {
  }

  /** One record changes at most the slot of its own field. */
  lemma {:induction false} StepOnRecord(t: seq<Field>, st: Progress, x: Rec)
    requires Plain(t) && |st.slots| == |t|
    ensures var r := RunOne(t, st, x);
            && (!Declared(t, x.number) ==> r == if Skippable(x) then Some(st) else None)
            && (forall k :: 0 <= k < |t| && t[k].tag == x.number ==>
                  r == match Apply(t[k], st.slots[k], x)
                       case None => None
                       case Some(slot) => Some(Progress(st.slots[k := slot], st.seen + {k})))
  {
    FindIsDeclared(t, x.number);
    SkippableIsSkipped(x);
  }

  /** Which entries have a record in the list. */
  function Occurring(t: seq<Field>, rs: seq<Rec>): set<nat>
  {
    set k: nat | k < |t| && exists j :: 0 <= j < |rs| && rs[j].number == t[k].tag
  }

  /**
   The records are accepted exactly when every field accepts its own ones, and then every
   slot is what its own records make of it.
   */
  lemma {:induction false} DecodesFieldByField(t: seq<Field>, st: Progress, rs: seq<Rec>)
    requires Plain(t) && |st.slots| == |t|
    ensures RunAll(t, st, rs).Some? <==> Acceptable(t, st.slots, rs)
    ensures RunAll(t, st, rs).Some? ==>
              var st' := RunAll(t, st, rs).value;
              && |st'.slots| == |t|
              && (forall k :: 0 <= k < |t| ==> Some(st'.slots[k]) == Fold(t[k], st.slots[k], Pick(rs, t[k].tag)))
              && st'.seen == st.seen + Occurring(t, rs)
    decreases |rs|
  {
    if rs != [] {
      var x, tail := rs[0], rs[1..];
      StepOnRecord(t, st, x);
      OccurringCons(t, rs);
      var r := RunOne(t, st, x);
      if r.Some? {
        var st' := r.value;
        StepFacts(t, st, x);
        DecodesFieldByField(t, st', tail);
        FoldCons(t, st.slots, st'.slots, rs);
        AcceptableCons(t, st.slots, st'.slots, rs);
      } else if Declared(t, x.number) {
        var k :| 0 <= k < |t| && t[k].tag == x.number;
        assert Pick(rs, t[k].tag)[0] == x;
        assert Fold(t[k], st.slots[k], Pick(rs, t[k].tag)).None?;
      }
    }
  }

  lemma {:induction false} StepFacts(t: seq<Field>, st: Progress, x: Rec)
    requires Plain(t) && |st.slots| == |t| && RunOne(t, st, x).Some?
    ensures var st' := RunOne(t, st, x).value;
            && |st'.slots| == |t|
            && (!Declared(t, x.number) ==> Skippable(x))
            && (forall k :: 0 <= k < |t| ==>
                  Some(st'.slots[k]) == if t[k].tag == x.number then Apply(t[k], st.slots[k], x) else Some(st.slots[k]))
            && st'.seen == st.seen + (set k: nat | k < |t| && t[k].tag == x.number)
  {
    StepOnRecord(t, st, x);
    if Declared(t, x.number) {
      var k :| 0 <= k < |t| && t[k].tag == x.number;
      assert (set j: nat | j < |t| && t[j].tag == x.number) == {k};
    } else {
      assert (set j: nat | j < |t| && t[j].tag == x.number) == {};
    }
  }

  lemma {:induction false} OccurringCons(t: seq<Field>, rs: seq<Rec>)
    requires rs != []
    ensures Occurring(t, rs) == (set k: nat | k < |t| && t[k].tag == rs[0].number) + Occurring(t, rs[1..])
  {
    forall k: nat | k < |t| && k in Occurring(t, rs)
      ensures t[k].tag == rs[0].number || k in Occurring(t, rs[1..])
    {
      var j :| 0 <= j < |rs| && rs[j].number == t[k].tag;
      if j > 0 { assert rs[1..][j - 1] == rs[j]; }
    }
    forall k: nat | k in Occurring(t, rs[1..]) ensures k in Occurring(t, rs) {
      var j :| 0 <= j < |rs[1..]| && rs[1..][j].number == t[k].tag;
      assert rs[j + 1] == rs[1..][j];
    }
  }

  lemma {:induction false} FoldCons(t: seq<Field>, slots: seq<Slot>, slots': seq<Slot>, rs: seq<Rec>)
    requires Plain(t) && |slots| == |slots'| == |t| && rs != []
    requires forall k :: 0 <= k < |t| ==>
      Some(slots'[k]) == if t[k].tag == rs[0].number then Apply(t[k], slots[k], rs[0]) else Some(slots[k])
    ensures forall k :: 0 <= k < |t| ==>
      Fold(t[k], slots[k], Pick(rs, t[k].tag)) == Fold(t[k], slots'[k], Pick(rs[1..], t[k].tag))
  {
    forall k | 0 <= k < |t|
      ensures Fold(t[k], slots[k], Pick(rs, t[k].tag)) == Fold(t[k], slots'[k], Pick(rs[1..], t[k].tag))
    {
      var tail := Pick(rs[1..], t[k].tag);
      if t[k].tag == rs[0].number {
        assert Pick(rs, t[k].tag)[1..] == tail;
      } else {
        assert Pick(rs, t[k].tag) == tail;
      }
    }
  }

  lemma {:induction false} AcceptableCons(t: seq<Field>, slots: seq<Slot>, slots': seq<Slot>, rs: seq<Rec>)
    requires Plain(t) && |slots| == |slots'| == |t| && rs != []
    requires !Declared(t, rs[0].number) ==> Skippable(rs[0])
    requires forall k :: 0 <= k < |t| ==>
      Fold(t[k], slots[k], Pick(rs, t[k].tag)) == Fold(t[k], slots'[k], Pick(rs[1..], t[k].tag))
    ensures Acceptable(t, slots, rs) <==> Acceptable(t, slots', rs[1..])
  {
    UnknownsCons(t, rs);
  }

  lemma {:induction false} UnknownsCons(t: seq<Field>, rs: seq<Rec>)
    requires rs != []
    ensures UnknownsSkippable(t, rs) <==>
            (Declared(t, rs[0].number) || Skippable(rs[0])) && UnknownsSkippable(t, rs[1..])
  {
    var tail := rs[1..];
    forall j | 0 <= j < |tail| ensures rs[j + 1] == tail[j] {
    }
    if UnknownsSkippable(t, tail) && (Declared(t, rs[0].number) || Skippable(rs[0])) {
      forall j | 0 <= j < |rs| && !Declared(t, rs[j].number) ensures Skippable(rs[j]) {
        if j > 0 { assert tail[j - 1] == rs[j]; }
      }
    }
  }

  /**
   Two lists with the same records for every declared field are worth the same to the
   decoder, however the records are interleaved and whatever unknown records are mixed in:
   whatever the stream goes on with, and wherever it ends.
   */
  lemma {:induction false} InterleavingDoesNotMatter(
    t: seq<Field>, st: Progress, rs: seq<Rec>, rs': seq<Rec>, tail: seq<byte>, n: nat)
    requires Plain(t) && |st.slots| == |t| && WellKeyedAll(rs) && WellKeyedAll(rs')
    requires forall k :: 0 <= k < |t| ==> Pick(rs, t[k].tag) == Pick(rs', t[k].tag)
    requires UnknownsSkippable(t, rs') && n <= |tail|
    requires RunAll(t, st, rs).Some?
    ensures Complete(t, st, OnWire(rs'))
    ensures DecodeFields(t, st, Before(OnWire(rs'), tail, n)) == DecodeFields(t, st, Before(OnWire(rs), tail, n))
  {
    DecodesFieldByField(t, st, rs);
    DecodesFieldByField(t, st, rs');
    var a, b := RunAll(t, st, rs).value, RunAll(t, st, rs').value;
    assert a.slots == b.slots by {
      forall k | 0 <= k < |t| ensures a.slots[k] == b.slots[k] {
        assert Some(a.slots[k]) == Some(b.slots[k]);
      }
    }
    OccurringIsPicked(t, rs);
    OccurringIsPicked(t, rs');
    assert Occurring(t, rs) == Occurring(t, rs');
    RunAllIsDecode(t, st, rs);
    RunAllIsDecode(t, st, rs');
    CompleteBefore(t, st, OnWire(rs), tail, n);
    CompleteBefore(t, st, OnWire(rs'), tail, n);
  }

  lemma {:induction false} OccurringIsPicked(t: seq<Field>, rs: seq<Rec>)
    ensures forall k: nat :: k in Occurring(t, rs) <==> k < |t| && Pick(rs, t[k].tag) != []
    decreases |rs|
  {
    if rs != [] {
      OccurringCons(t, rs);
      OccurringIsPicked(t, rs[1..]);
    }
  }

  lemma {:induction false} PickAppend(a: seq<Rec>, b: seq<Rec>, number: nat)
    ensures Pick(a + b, number) == Pick(a, number) + Pick(b, number)
    decreases |a|
  {
    if a == [] {
      assert a + b == b;
    } else {
      var first := if a[0].number == number then [a[0]] else [];
      PickAppend(a[1..], b, number);
      assert Pick(a + b, number) == first + Pick(a[1..] + b, number) by { assert (a + b)[1..] == a[1..] + b; }
      assert first + (Pick(a[1..], number) + Pick(b, number)) == first + Pick(a[1..], number) + Pick(b, number);
    }
  }

  lemma {:induction false} ListAppend(t: seq<Field>, a: seq<Rec>, b: seq<Rec>)
    ensures WellKeyedAll(a + b) <==> WellKeyedAll(a) && WellKeyedAll(b)
    ensures UnknownsSkippable(t, a + b) <==> UnknownsSkippable(t, a) && UnknownsSkippable(t, b)
  {
    forall j | 0 <= j < |a| ensures (a + b)[j] == a[j] {
    }
    forall j | 0 <= j < |b| ensures (a + b)[|a| + j] == b[j] {
    }
  }

  /** Two neighbouring records of different fields can change places. */
  lemma {:induction false} SwapRecords(
    t: seq<Field>, st: Progress, p: seq<Rec>, x: Rec, y: Rec, q: seq<Rec>, tail: seq<byte>, n: nat)
    requires Plain(t) && |st.slots| == |t|
    requires WellKeyedAll(p) && WellKeyed(x) && WellKeyed(y) && WellKeyedAll(q)
    requires x.number != y.number && n <= |tail|
    requires RunAll(t, st, p + [x, y] + q).Some?
    ensures DecodeFields(t, st, Before(OnWire(p + [y, x] + q), tail, n)) ==
            DecodeFields(t, st, Before(OnWire(p + [x, y] + q), tail, n))
    ensures Complete(t, st, OnWire(p + [y, x] + q))
  {
    forall k | 0 <= k < |t| ensures Pick([x, y], t[k].tag) == Pick([y, x], t[k].tag) {
      PickPair(x, y, t[k].tag);
    }
    assert UnknownsSkippable(t, [x, y]) by {
      DecodesFieldByField(t, st, p + [x, y] + q);
      ListAppend(t, p, [x, y]);
      ListAppend(t, p + [x, y], q);
    }
    PairFacts(t, x, y);
    PairFacts(t, y, x);
    ReplaceMiddle(t, st, p, [x, y], [y, x], q, tail, n);
  }

  /** A stretch of records can be replaced by one with the same records for every declared field. */
  lemma {:induction false} ReplaceMiddle(
    t: seq<Field>, st: Progress, p: seq<Rec>, a: seq<Rec>, b: seq<Rec>, q: seq<Rec>, tail: seq<byte>, n: nat)
    requires Plain(t) && |st.slots| == |t|
    requires WellKeyedAll(p) && WellKeyedAll(a) && WellKeyedAll(b) && WellKeyedAll(q)
    requires forall k :: 0 <= k < |t| ==> Pick(a, t[k].tag) == Pick(b, t[k].tag)
    requires UnknownsSkippable(t, b) && n <= |tail|
    requires RunAll(t, st, p + a + q).Some?
    ensures DecodeFields(t, st, Before(OnWire(p + b + q), tail, n)) ==
            DecodeFields(t, st, Before(OnWire(p + a + q), tail, n))
    ensures Complete(t, st, OnWire(p + b + q))
  {
    DecodesFieldByField(t, st, p + a + q);
    ListAppend(t, p, a);
    ListAppend(t, p + a, q);
    ListAppend(t, p, b);
    ListAppend(t, p + b, q);
    forall k | 0 <= k < |t| ensures Pick(p + a + q, t[k].tag) == Pick(p + b + q, t[k].tag) {
      PickAppend(p, a, t[k].tag);
      PickAppend(p + a, q, t[k].tag);
      PickAppend(p, b, t[k].tag);
      PickAppend(p + b, q, t[k].tag);
    }
    InterleavingDoesNotMatter(t, st, p + a + q, p + b + q, tail, n);
  }

  lemma {:induction false} PairFacts(t: seq<Field>, x: Rec, y: Rec)
    ensures WellKeyedAll([x, y]) <==> WellKeyed(x) && WellKeyed(y)
    ensures UnknownsSkippable(t, [x, y]) <==>
            (Declared(t, x.number) || Skippable(x)) && (Declared(t, y.number) || Skippable(y))
  {
    var p := [x, y];
    assert p[0] == x && p[1] == y;
  }

  lemma {:induction false} NothingBetween(p: seq<Rec>, q: seq<Rec>)
    ensures p + [] + q == p + q
  {
    assert p + [] == p;
  }

  lemma {:induction false} PickPair(x: Rec, y: Rec, n: nat)
    requires x.number != y.number
    ensures Pick([x, y], n) == Pick([y, x], n)
  {
    assert [x, y][1..] == [y] && [y, x][1..] == [x];
    assert [x][1..] == [] && [y][1..] == [];
  }

  /** A complete record of an undeclared field, put anywhere between records, changes nothing. */
  lemma {:induction false} UnknownRecordIsTransparent(
    t: seq<Field>, st: Progress, p: seq<Rec>, u: Rec, q: seq<Rec>, tail: seq<byte>, n: nat)
    requires Plain(t) && |st.slots| == |t|
    requires WellKeyedAll(p) && WellKeyed(u) && WellKeyedAll(q)
    requires !Declared(t, u.number) && Skippable(u) && n <= |tail|
    requires RunAll(t, st, p + q).Some?
    ensures DecodeFields(t, st, Before(OnWire(p + [u] + q), tail, n)) ==
            DecodeFields(t, st, Before(OnWire(p + q), tail, n))
    ensures Complete(t, st, OnWire(p + [u] + q))
  {
    forall k | 0 <= k < |t| ensures Pick([u], t[k].tag) == Pick([], t[k].tag) {
      assert t[k].tag != u.number;
      assert [u][1..] == [];
    }
    NothingBetween(p, q);
    ReplaceMiddle(t, st, p, [], [u], q, tail, n);
  }

  // ---- Required fields -------------------------------------------------------------------------

  /** The numbers of the keys the field loop reads, in whatever way the stream goes on and ends. */
  function KeysRead(t: seq<Field>, st: Progress, i: Input): seq<nat>
    decreases i.left
  {
    if i.left == 0 then []
    else match DecodeTag(i)
         case Tag(wireType, number, rest) =>
           (match DecodeRecord(t, st, wireType, number, rest)
            case Fail => [number]
            case Ok(st', rest') => [number] + KeysRead(t, st', rest'))
         case _ => []
  }

  lemma {:induction false} SeenIsRead(t: seq<Field>, st: Progress, i: Input)
    requires Plain(t) && DecodeFields(t, st, i).Ok?
    ensures forall k :: 0 <= k < |t| ==>
              (k in DecodeFields(t, st, i).value.seen <==> k in st.seen || t[k].tag in KeysRead(t, st, i))
    decreases i.left
  {
    if i.left > 0 && DecodeTag(i).Tag? {
      var Tag(wireType, number, rest) := DecodeTag(i);
      var step := Step(t, st, i);
      FindIsDeclared(t, number);
      SeenIsRead(t, step.state, step.rest);
    }
  }

  /**
   A message that the field loop has read to its end, wherever that is, is accepted exactly
   when every required field occurred in it.
   */
  lemma {:induction false} RequiredFieldsMustOccur(t: seq<Field>, slots: seq<Slot>, i: Input)
    requires Plain(t)
    ensures DecodeMessage(t, slots, i).Ok? <==>
            && DecodeFields(t, Progress(slots, {}), i).Ok?
            && forall k :: 0 <= k < |t| && t[k].htype.Required? ==> t[k].tag in KeysRead(t, Progress(slots, {}), i)
  {
    if DecodeFields(t, Progress(slots, {}), i).Ok? { SeenIsRead(t, Progress(slots, {}), i); }
  }

  /** A list of acceptable records is a complete message exactly when every required field is among them. */
  lemma {:induction false} RequiredRecordsMustOccur(t: seq<Field>, slots: seq<Slot>, rs: seq<Rec>)
    requires Plain(t) && |slots| == |t| && WellKeyedAll(rs)
    requires RunAll(t, Progress(slots, {}), rs).Some?
    ensures DecodeMessage(t, slots, All(OnWire(rs))).Ok? <==>
            forall k :: 0 <= k < |t| && t[k].htype.Required? ==>
              exists j :: 0 <= j < |rs| && rs[j].number == t[k].tag
  {
    var st := Progress(slots, {});
    var st' := RunAll(t, st, rs).value;
    assert st'.seen == Occurring(t, rs) by {
      DecodesFieldByField(t, st, rs);
    }
    RunAllIsDecode(t, st, rs);
    RequiredCheck(t, slots, All(OnWire(rs)), st');
    AllRequiredOccur(t, rs);
  }

  lemma {:induction false} RequiredCheck(t: seq<Field>, slots: seq<Slot>, i: Input, st: Progress)
    requires DecodeFields(t, Progress(slots, {}), i).Ok? && DecodeFields(t, Progress(slots, {}), i).value == st
    ensures DecodeMessage(t, slots, i).Ok? <==> AllRequired(t, st.seen)
  {
  }

  lemma {:induction false} AllRequiredOccur(t: seq<Field>, rs: seq<Rec>)
    ensures AllRequired(t, Occurring(t, rs)) <==>
            forall k :: 0 <= k < |t| && t[k].htype.Required? ==>
              exists j :: 0 <= j < |rs| && rs[j].number == t[k].tag
  {
  }
}
