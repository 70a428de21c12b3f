/** Exactly which inputs pb_decode_noinit accepts. */
module Acceptance {
  import opened Wire
  import opened Varint
  import opened Schema
  import opened Decoder
  import opened Merge
  import opened Bodies

  /** The stream goes on with a key whose low 32 bits are zero, whatever comes behind. */
  predicate ZeroKey(i: Input) {
    exists n :: 1 <= n <= 5 && n <= i.left && IsVarint(i.data[..n]) && Groups(i.data[..n]) % TWO_32 == 0
  }

  /** The stream ends in one to five bytes that all announce another one. */
  predicate CutKey(i: Input) {
    1 <= i.left <= 5 && forall j :: 0 <= j < i.left ==> i.data[j] >= 128
  }

  /** The places where a message may end. */
  predicate MayEnd(i: Input) { i.left == 0 || ZeroKey(i) || CutKey(i) }

  lemma {:induction false} EofKeys(i: Input)
    requires i.left > 0
    ensures DecodeTag(i).Eof? <==> ZeroKey(i) || CutKey(i)
  {
    FailureIsAllContinuation(i, 5);
    var r := ReadVarint(i, 5);
    if r.Ok? {
      var n := i.left - r.rest.left;
      ReadIsVarint(i, 5, n);
      if ZeroKey(i) {
        var k :| 1 <= k <= 5 && k <= i.left && IsVarint(i.data[..k]) && Groups(i.data[..k]) % TWO_32 == 0;
        ReadIsVarint(i, 5, k);
      }
    } else if ZeroKey(i) {
      var k :| 1 <= k <= 5 && k <= i.left && IsVarint(i.data[..k]) && Groups(i.data[..k]) % TWO_32 == 0;
      ReadIsVarint(i, 5, k);
    }
  }

  /** The state of the field loop between two records. */
  datatype Point = Point(state: Progress, input: Input)

  /** A key followed by a body that the field, or the skipping of unknown fields, accepts. */
  ghost predicate IsRecord(t: seq<Field>, p: Point, q: Point) {
    && p.input.left > 0
    && DecodeTag(p.input).Tag?
    && var tag := DecodeTag(p.input);
       var body := DecodeRecord(t, p.state, tag.wireType, tag.number, tag.rest);
       body.Ok? && q == Point(body.value, body.rest)
  }

  ghost predicate IsRun(t: seq<Field>, run: seq<Point>) {
    run != [] && forall j :: 0 <= j < |run| - 1 ==> IsRecord(t, run[j], run[j + 1])
  }

  /** A run of records from p to a place where the message may end. */
  ghost predicate AcceptedBy(t: seq<Field>, p: Point, run: seq<Point>) {
    IsRun(t, run) && run[0] == p && MayEnd(run[|run| - 1].input)
  }

  lemma {:induction false} LoopHasRun(t: seq<Field>, p: Point) returns (run: seq<Point>)
    requires DecodeFields(t, p.state, p.input).Ok?
    ensures AcceptedBy(t, p, run) && run[|run| - 1].state == DecodeFields(t, p.state, p.input).value
    decreases p.input.left
  {
    if p.input.left == 0 {
      run := [p];
    } else {
      EofKeys(p.input);
      match Step(t, p.state, p.input)
      case Stop(_) => run := [p];
      case Next(st', rest) =>
        var q := Point(st', rest);
        var more := LoopHasRun(t, q);
        run := [p] + more;
        forall j | 0 <= j < |run| - 1 ensures IsRecord(t, run[j], run[j + 1]) {
          if j > 0 { assert IsRecord(t, more[j - 1], more[j]); }
        }
    }
  }

  lemma {:induction false} RunIsAccepted(t: seq<Field>, p: Point, run: seq<Point>)
    requires AcceptedBy(t, p, run)
    ensures DecodeFields(t, p.state, p.input).Ok?
    ensures DecodeFields(t, p.state, p.input).value == run[|run| - 1].state
    decreases |run|
  {
    var i := p.input;
    if |run| == 1 {
      if i.left > 0 { EofKeys(i); }
    } else {
      assert IsRecord(t, run[0], run[1]);
      var more := run[1..];
      forall j | 0 <= j < |more| - 1 ensures IsRecord(t, more[j], more[j + 1]) {
        assert IsRecord(t, run[j + 1], run[j + 2]);
      }
      RunIsAccepted(t, run[1], more);
    }
  }

  /**
   Without required fields a message is accepted exactly when it is a run of acceptable
   records and then ends: with the stream, at a zero key, or in a cut-off key.
   */
  lemma {:induction false} ExactAcceptance(t: seq<Field>, slots: seq<Slot>, i: Input)
    requires NoRequired(t)
    ensures DecodeMessage(t, slots, i).Ok? <==>
            exists run :: AcceptedBy(t, Point(Progress(slots, {}), i), run)
  {
    var p := Point(Progress(slots, {}), i);
    if DecodeMessage(t, slots, i).Ok? {
      var run := LoopHasRun(t, p);
    }
    if exists run :: AcceptedBy(t, p, run) {
      var run :| AcceptedBy(t, p, run);
      RunIsAccepted(t, p, run);
    }
  }
}
