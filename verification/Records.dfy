/** Runs of complete records, and what happens when one run follows another. */
module Records {
  import opened Wire
  import opened Schema
  import opened Decoder
  import opened Framing

  /** Records up to the very end of the stream: no zero key and no cut-off key. */
  function Consume(t: seq<Field>, st: Progress, i: Input): (r: Result<Progress>)
    ensures r.Ok? ==> r.rest.left == 0 && Lag(r.rest) >= Lag(i)
    decreases i.left
  {
    if i.left == 0 then Ok(st, i)
    else match Step(t, st, i)
         case Next(st', rest) => Consume(t, st', rest)
         case _ => Fail
  }

  lemma {:induction false} ConsumeIsDecode(t: seq<Field>, st: Progress, i: Input)
    requires Consume(t, st, i).Ok?
    ensures DecodeFields(t, st, i) == Consume(t, st, i)
    decreases i.left
  {
    if i.left > 0 {
      var r := Step(t, st, i);
      ConsumeIsDecode(t, r.state, r.rest);
    }
  }

  /**
   After a run of records the decoder goes on from where that run left the read pointer.
   The pointer may lag behind the end of the run: then the next records are read from
   the lagging place.
   */
  lemma {:induction false} ResumeAfterRecords(t: seq<Field>, st: Progress, i: Input, b: seq<byte>, k: nat)
    requires i.left + k <= |i.data| + |b|
    requires Consume(t, st, i).Ok?
    ensures var r := Consume(t, st, i);
            && DecodeFields(t, st, Extend(i, b, k)) == DecodeFields(t, r.value, Extend(r.rest, b, k))
            && Consume(t, st, Extend(i, b, k)) == Consume(t, r.value, Extend(r.rest, b, k))
    decreases i.left
  {
    if i.left > 0 {
      var r := Step(t, st, i);
      StepFrame(t, st, i, b, k);
      ResumeAfterRecords(t, r.state, r.rest, b, k);
    }
  }

  /** `a` is consumed to its last byte as complete records, with no lag. */
  predicate Complete(t: seq<Field>, st: Progress, a: seq<byte>) {
    Consume(t, st, All(a)).Ok? && Consume(t, st, All(a)).rest == All([])
  }

  function After(t: seq<Field>, st: Progress, a: seq<byte>): Progress
    requires Complete(t, st, a)
  {
    Consume(t, st, All(a)).value
  }

  lemma {:induction false} CompleteThen(t: seq<Field>, st: Progress, a: seq<byte>, b: seq<byte>)
    requires Complete(t, st, a)
    ensures DecodeFields(t, st, All(a + b)) == DecodeFields(t, After(t, st, a), All(b))
    ensures Consume(t, st, All(a + b)) == Consume(t, After(t, st, a), All(b))
  {
    var i, r := All(a), Consume(t, st, All(a));
    ResumeAfterRecords(t, st, i, b, |b|);
    assert Extend(i, b, |b|) == All(a + b);
    assert Extend(r.rest, b, |b|) == All(b) by { assert [] + b == b; }
  }

  /** Complete records, and then whatever the stream goes on with. */
  lemma {:induction false} CompleteBefore(t: seq<Field>, st: Progress, a: seq<byte>, tail: seq<byte>, n: nat)
    requires Complete(t, st, a) && n <= |tail|
    ensures DecodeFields(t, st, Before(a, tail, n)) == DecodeFields(t, After(t, st, a), Cursor(tail, n))
  {
    ResumeAfterRecords(t, st, All(a), tail, n);
    assert Extend(All(a), tail, n) == Before(a, tail, n);
    assert Extend(All([]), tail, n) == Cursor(tail, n) by { assert [] + tail == tail; }
  }

  /** One record that takes all of x. */
  lemma {:induction false} OneRecord(t: seq<Field>, st: Progress, x: seq<byte>, st': Progress)
    requires x != []
    requires Step(t, st, All(x)) == Next(st', All([]))
    ensures Complete(t, st, x) && After(t, st, x) == st'
  {
    assert Consume(t, st', All([])) == Ok(st', All([]));
  }
}
