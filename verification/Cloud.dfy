/** The message wrappers (qs_protobuf.c) over the generated tables (keesoncloud.pb.c). */
module Cloud {
  import opened Wire
  import Varint
  import opened Schema
  import opened Decoder
  import opened Encoder
  import opened InputStream
  import opened OutputStream
  import Scalars
  import NumberLaws
  import RoundTrip
  import Disturbance
  import ExactRoundTrip
  import EncodeMethods
  import DecodeMethods
  import EndToEnd

  // ---- The tables ---------------------------------------------------------------------------

  /** The three kinds of entries: string and bytes callbacks, and int32 numbers. */
  datatype Kind = Text | Raw | Int32

  /** In every generated table the tags count from 1 in the order of the members, without padding. */
  function Entry(kind: Kind, tag: nat): Field {
    match kind
    case Text => Field(tag, String, Optional, Callback, 0, 0, 8, 0, None)
    case Raw => Field(tag, Bytes, Optional, Callback, 0, 0, 8, 0, None)
    case Int32 => Field(tag, Varint, Optional, Static, 0, 0, 4, 0, None)
  }

  function Table(shape: seq<Kind>): (t: seq<Field>)
    ensures |t| == |shape|
    ensures forall i :: 0 <= i < |shape| ==> t[i] == Entry(shape[i], i + 1)
  {
    seq(|shape|, i requires 0 <= i < |shape| => Entry(shape[i], i + 1))
  }

  datatype Message =
    | VersionPost | TokenPost | DownloadRangePost | CliCommand
    | Sensor5sec | Sensor1min | SleepCycleRepo
    | StateRawData | HeartbeatRawData | BreathRawData | MovementRawData | SnoreRawData | SbpRawData | DbpRawData
    | BedCommand | BedStatus

  function Shape(message: Message): (shape: seq<Kind>)
    ensures 2 <= |shape| <= 255 && shape[0] == Text && shape[1] == Int32
  {
    match message
    case VersionPost => [Text, Int32, Int32, Int32, Int32]
    case TokenPost => [Text, Int32, Int32, Int32, Int32, Int32]
    case DownloadRangePost => [Text, Int32, Int32, Int32, Int32]
    case CliCommand => [Text, Int32, Text]
    case Sensor5sec => [Text, Int32, Int32, Raw, Int32, Int32]
    case Sensor1min => [Text] + seq(11, _ => Int32)
    case SleepCycleRepo => [Text] + seq(13, _ => Int32)
    case BedCommand => [Text, Int32, Raw]
    case _ => [Text, Int32, Raw, Int32]
  }

  /** The sizes with which the tables are declared, terminator included. */
  function DeclaredSize(message: Message): nat {
    match message
    case VersionPost => 6
    case TokenPost => 7
    case DownloadRangePost => 6
    case CliCommand => 4
    case Sensor5sec => 7
    case Sensor1min => 13
    case SleepCycleRepo => 15
    case StateRawData => 5
    case HeartbeatRawData => 5
    case BreathRawData => 5
    case MovementRawData => 5
    case SnoreRawData => 5
    case SbpRawData => 5
    case DbpRawData => 5
    case BedCommand => 4
    case BedStatus => 5
  }

  lemma {:induction false} ShapesAreDeclared(message: Message)
    ensures |Shape(message)| + 1 == DeclaredSize(message)
    ensures var t := Table(Shape(message));
            forall i :: 0 <= i < |t| ==> t[i].tag == i + 1 && Singular(t[i]) && t[i].default.None?
  {
  }

  lemma {:induction false} TableIsWellFormed(shape: seq<Kind>)
    requires |shape| <= 255
    ensures ExactRoundTrip.RoundTripTable(Table(shape)) && RequiredCount(Table(shape)) == 0
  {
    var t := Table(shape);
    NothingRequired(shape, |shape|);
    forall i | 0 <= i < |shape|
      ensures RoundTrip.WfField(t[i]) && Disturbance.ShelteredField(t[i]) && ExactRoundTrip.PlainDefault(t[i]) {}
    assert RoundTrip.WfTable(t) && Disturbance.Sheltered(t) && ExactRoundTrip.PlainDefaults(t);
  }

  lemma {:induction false} NothingRequired(shape: seq<Kind>, n: nat)
    requires n <= |shape|
    ensures RequiredBefore(Table(shape), n) == 0
    decreases n
  {
    if n > 0 { NothingRequired(shape, n - 1); }
  }

  // ---- The application's structure ---------------------------------------------------------

  /** A char or uint8_t array, or an int32_t. */
  datatype Member = Memory(bytes: seq<byte>) | Number(n: int)

  class Object {
    var members: seq<Member>

    constructor (m: seq<Member>)
      ensures members == m
    {
      members := m;
    }

    /** *(p_val + i) = b */
    method Poke(k: nat, i: nat, b: byte)
      requires k < |members| && members[k].Memory? && i < |members[k].bytes|
      modifies this
      ensures members == old(members)[k := Memory(old(members[k].bytes)[i := b])]
    {
      members := members[k := Memory(members[k].bytes[i := b])];
    }
  }

  /** The length prefix that bytes_write expects in front of the data. */
  function Length(memory: seq<byte>): nat
    requires |memory| >= 4
  {
    Scalars.FromLittleEndian(memory[..4])
  }

  /** What can be sent: text ends inside its array, and so does the data behind its length. */
  predicate Sendable(kind: Kind, m: Member) {
    match kind
    case Int32 => m.Number? && -(TWO_32 / 2) <= m.n < TWO_32 / 2
    case Text => m.Memory? && |m.bytes| < TWO_32 && 0 in m.bytes
    case Raw => m.Memory? && 4 <= |m.bytes| < TWO_32 && 4 + Length(m.bytes) <= |m.bytes|
  }

  predicate AllSendable(shape: seq<Kind>, members: seq<Member>) {
    |members| == |shape| && forall k :: 0 <= k < |shape| ==> Sendable(shape[k], members[k])
  }

  /** The bytes string_write and bytes_write send. */
  function Payload(kind: Kind, m: Member): seq<byte>
    requires Sendable(kind, m)
  {
    match kind
    case Int32 => []
    case Text => CString(m.bytes)
    case Raw => m.bytes[4..4 + Length(m.bytes)]
  }

  /** The nanopb structure an encode wrapper fills in. */
  function Outgoing(shape: seq<Kind>, members: seq<Member>): (m: seq<Slot>)
    requires AllSendable(shape, members)
    ensures |m| == |shape|
  {
    seq(|shape|, k requires 0 <= k < |shape| =>
      if shape[k] == Int32 then Single(Num(members[k].n))
      else Hook(Records([Payload(shape[k], members[k])]), NoDecoder))
  }

  // ---- Write callbacks ------------------------------------------------------------------------

  /** string_write */
  method StringWrite(stream: OStream, f: Field, memory: seq<byte>) returns (ok: bool)
    requires stream.Valid() && f.tag <= 255 && 0 in memory && |memory| < TWO_32
    modifies stream, stream.buf
    ensures stream.Valid()
    ensures Extends(old(stream.Now()), stream.Now(), EncodeCallback(f, Records([CString(memory)])), ok)
  {
    var n := 0;
    while memory[n] != 0
      invariant 0 <= n < |memory| && 0 !in memory[..n]
      invariant 0 in memory[n..]
      decreases |memory| - n
    {
      assert memory[n..] == [memory[n]] + memory[n + 1..];
      n := n + 1;
    }
    FirstNul(memory, n);
    ok := EncodeMethods.EncCallback(stream, f, Records([memory[..n]]));
  }

  lemma {:induction false} FirstNul(memory: seq<byte>, n: nat)
    requires n < |memory| && memory[n] == 0 && 0 !in memory[..n]
    ensures CString(memory) == memory[..n]
  {
    if n > 0 {
      assert memory[..n][0] == memory[0];
      assert memory[1..][..n - 1] == memory[..n][1..];
      FirstNul(memory[1..], n - 1);
    }
  }

  /** bytes_write */
  method BytesWrite(stream: OStream, f: Field, memory: seq<byte>) returns (ok: bool)
    requires stream.Valid() && f.tag <= 255 && Sendable(Raw, Memory(memory))
    modifies stream, stream.buf
    ensures stream.Valid()
    ensures Extends(old(stream.Now()), stream.Now(), EncodeCallback(f, Records([Payload(Raw, Memory(memory))])), ok)
  {
    var size := Scalars.FromLittleEndian(memory[..4]);
    ok := EncodeMethods.EncCallback(stream, f, Records([memory[4..][..size]]));
    assert memory[4..][..size] == memory[4..4 + size];
  }

  // ---- Read callbacks -------------------------------------------------------------------------

  /** What a read callback writes to its destination, and whether it then reports success. */
  datatype Taken = Taken(ok: bool, text: seq<byte>)

  /** string_read: every character is a varint, cut to a byte. */
  function TakeText(i: Input): (r: Taken)
    ensures |r.text| <= i.left
    decreases i.left
  {
    if i.left == 0 then Taken(true, [])
    else match Varint.DecodeVarint(i)
         case Fail => Taken(false, [])
         case Ok(value, rest) =>
           var more := TakeText(rest);
           Taken(more.ok, [value % 256] + more.text)
  }

  /** bytes_read: every byte is itself. */
  function Take(kind: Kind, i: Input): Taken {
    if kind == Text then TakeText(i) else Taken(true, i.data[..i.left])
  }

  /** The destination starts over with every call, and gets no terminator. */
  function Overlay(memory: seq<byte>, text: seq<byte>): (r: seq<byte>)
    requires |text| <= |memory|
    ensures |r| == |memory|
  {
    text + memory[|text|..]
  }

  /**
   string_read.  Nothing keeps it from writing behind the end of its destination: `inside`
   says that it does not, and only then the rest is defined.
   */
  method StringRead(stream: IStream, dest: Object, k: nat) returns (ok: bool, count: nat, inside: bool)
    requires stream.Valid() && k < |dest.members| && dest.members[k].Memory?
    modifies stream, dest
    ensures inside <==> |TakeText(old(stream.View())).text| <= |old(dest.members[k].bytes)|
    ensures inside ==>
              var taken := TakeText(old(stream.View()));
              && ok == taken.ok && count == |taken.text|
              && dest.members == old(dest.members)[k := Memory(Overlay(old(dest.members[k].bytes), taken.text))]
  {
    ghost var taken, memory, done: seq<byte> := TakeText(stream.View()), dest.members[k].bytes, [];
    OverlayNothing(memory);
    assert [] + taken.text == taken.text;
    var i := 0;
    while stream.bytesLeft > 0
      invariant stream.Valid() && i == |done| <= |memory| && Toward(done, stream.View(), taken)
      invariant dest.members == old(dest.members)[k := Memory(Overlay(memory, done))]
      decreases stream.bytesLeft
    {
      TakeNext(done, stream.View(), taken);
      var more, value := stream.DecodeVarint();
      if !more {
        return false, i, true;
      }
      if i >= |dest.members[k].bytes| {
        return false, i, false;
      }
      dest.Poke(k, i, value % 256);
      OverlayNext(memory, done, value % 256);
      done := done + [value % 256];
      i := i + 1;
    }
    assert done + [] == done;
    ok, count, inside := true, i, true;
  }

  /** `taken` is what has been written, and what the rest of the stream will give. */
  ghost predicate Toward(done: seq<byte>, i: Input, taken: Taken) {
    done + TakeText(i).text == taken.text && TakeText(i).ok == taken.ok
  }

  lemma {:induction false} TakeNext(done: seq<byte>, i: Input, taken: Taken)
    requires i.left > 0 && Toward(done, i, taken)
    ensures match Varint.DecodeVarint(i)
            case Fail => taken == Taken(false, done)
            case Ok(value, rest) => |done| < |taken.text| && Toward(done + [value % 256], rest, taken)
  {
    match Varint.DecodeVarint(i)
    case Fail => assert done + [] == done;
    case Ok(value, rest) =>
      assert TakeText(i).text == [value % 256] + TakeText(rest).text;
      assert done + ([value % 256] + TakeText(rest).text) == done + [value % 256] + TakeText(rest).text;
  }

  lemma {:induction false} OverlayNothing(memory: seq<byte>)
    ensures Overlay(memory, []) == memory
  {
  }

  lemma {:induction false} OverlayNext(memory: seq<byte>, done: seq<byte>, b: byte)
    requires |done| < |memory|
    ensures Overlay(memory, done)[|done| := b] == Overlay(memory, done + [b])
  {
  }

  /** bytes_read, which does not look for the end of its destination either. */
  method BytesRead(stream: IStream, dest: Object, k: nat) returns (ok: bool, count: nat, inside: bool)
    requires stream.Valid() && k < |dest.members| && dest.members[k].Memory?
    modifies stream, dest
    ensures inside <==> |Take(Raw, old(stream.View())).text| <= |old(dest.members[k].bytes)|
    ensures inside ==>
              var taken := Take(Raw, old(stream.View()));
              && ok == taken.ok && count == |taken.text|
              && dest.members == old(dest.members)[k := Memory(Overlay(old(dest.members[k].bytes), taken.text))]
  {
    ghost var start, memory := stream.View(), dest.members[k].bytes;
    OverlayNothing(memory);
    var i := 0;
    while stream.bytesLeft > 0
      invariant stream.Valid() && i + stream.bytesLeft == start.left && i <= |memory| && stream.View() == Skip(start, i)
      invariant dest.members == old(dest.members)[k := Memory(Overlay(memory, start.data[..i]))]
      decreases stream.bytesLeft
    {
      var more, b := stream.Read(1);
      if i >= |dest.members[k].bytes| {
        return false, i, false;
      }
      dest.Poke(k, i, b[0]);
      OverlayNext(memory, start.data[..i], b[0]);
      assert start.data[..i] + [b[0]] == start.data[..i + 1];
      i := i + 1;
    }
    ok, count, inside := true, i, true;
  }

  // ---- Wrappers -------------------------------------------------------------------------------

  /** A payload that the callback reads to its end and that fits in the destination. */
  predicate Readable(kind: Kind, capacity: nat, payload: seq<byte>) {
    var taken := Take(kind, All(payload));
    taken.ok && |taken.text| <= capacity
  }

  function Reads(kind: Kind, capacity: nat): (seq<seq<byte>>, seq<byte>) -> bool {
    (got, payload) => Readable(kind, capacity, payload)
  }

  /** The nanopb structure a decode wrapper starts from. */
  function Incoming(shape: seq<Kind>, members: seq<Member>): (m: seq<Slot>)
    requires |members| == |shape|
    ensures |m| == |shape|
  {
    seq(|shape|, k requires 0 <= k < |shape| =>
      if shape[k] == Int32 || !members[k].Memory? then Single(Num(0))
      else Hook(NoEncoder, Reader(Reads(shape[k], |members[k].bytes|), [])))
  }

  /** The destination of a callback that has been called with these payloads. */
  function OverlayAll(kind: Kind, memory: seq<byte>, got: seq<seq<byte>>): (r: seq<byte>)
    requires forall j :: 0 <= j < |got| ==> Readable(kind, |memory|, got[j])
    ensures |r| == |memory|
  {
    if got == [] then memory
    else
      assert Readable(kind, |memory|, got[|got| - 1]);
      Overlay(OverlayAll(kind, memory, got[..|got| - 1]), Take(kind, All(got[|got| - 1])).text)
  }

  predicate Shaped(shape: seq<Kind>, members: seq<Member>) {
    |members| == |shape| && forall k :: 0 <= k < |shape| ==> (members[k].Number? <==> shape[k] == Int32)
  }

  /** While decoding, numbers stay numbers and callbacks hold only what they could read. */
  ghost predicate Receiving(shape: seq<Kind>, members: seq<Member>, slots: seq<Slot>) {
    && Shaped(shape, members) && |slots| == |shape|
    && forall k :: 0 <= k < |shape| ==> ReceivingSlot(shape[k], members[k], slots[k])
  }

  ghost predicate ReceivingSlot(kind: Kind, m: Member, s: Slot) {
    if kind == Int32 then s.Single? && s.value.Num?
    else
      && m.Memory? && s.Hook? && s.sink.Reader? && s.sink.accepts == Reads(kind, |m.bytes|)
      && forall j :: 0 <= j < |s.sink.got| ==> Readable(kind, |m.bytes|, s.sink.got[j])
  }

  lemma {:induction false} FieldKeepsReceiving(kind: Kind, tag: nat, m: Member, s: Slot, wireType: nat, i: Input)
    requires ReceivingSlot(kind, m, s) && (m.Number? <==> kind == Int32)
    requires DecodeField(Entry(kind, tag), s, wireType, i).Ok?
    ensures ReceivingSlot(kind, m, DecodeField(Entry(kind, tag), s, wireType, i).value)
  {
  }

  lemma {:induction false} DecodingKeepsReceiving(shape: seq<Kind>, members: seq<Member>, st: Progress, i: Input)
    requires Receiving(shape, members, st.slots) && DecodeFields(Table(shape), st, i).Ok?
    ensures Receiving(shape, members, DecodeFields(Table(shape), st, i).value.slots)
    decreases i.left
  {
    var t := Table(shape);
    if i.left > 0 && Step(t, st, i).Next? {
      var r := Step(t, st, i);
      var Tag(wireType, number, rest) := DecodeTag(i);
      var record := DecodeRecord(t, st, wireType, number, rest);
      if Find(t, number).Some? {
        var k := Find(t, number).value;
        FieldKeepsReceiving(shape[k], k + 1, members[k], st.slots[k], wireType, rest);
      }
      DecodingKeepsReceiving(shape, members, r.state, r.rest);
    }
  }

  // ---- Which messages a wrapper accepts --------------------------------------------------------

  /** A payload that the callback of entry k is offered. */
  datatype Offer = Offer(k: nat, payload: seq<byte>)

  /** Whether bytes are what the callbacks can read, what they are offered in them, and where they end. */
  datatype Scanned = Scanned(ok: bool, offers: seq<Offer>, rest: Input)

  predicate OffersOf(shape: seq<Kind>, offers: seq<Offer>) {
    forall j :: 0 <= j < |offers| ==> offers[j].k < |shape| && shape[offers[j].k] != Int32
  }

  function ScanRecord(shape: seq<Kind>, wireType: nat, number: nat, i: Input): (r: Scanned)
    ensures OffersOf(shape, r.offers) && |r.offers| <= 1 && r.rest.left <= i.left
  {
    match Find(Table(shape), number)
    case None =>
      (match SkipField(i, wireType)
       case Fail => Scanned(false, [], i)
       case Ok(_, rest) => Scanned(shape != [] || number != 0, [], rest))
    case Some(k) =>
      if shape[k] == Int32 then
        match Scalars.Decode(Varint, 4, i)
        case Fail => Scanned(false, [], i)
        case Ok(_, rest) => Scanned(true, [], rest)
      else
        match Offered(i, wireType)
        case Fail => Scanned(false, [], i)
        case Ok(payload, rest) => Scanned(Take(shape[k], All(payload)).ok, [Offer(k, payload)], rest)
  }

  /** This looks at the bytes only, not at the destination. */
  function Scan(shape: seq<Kind>, i: Input): (r: Scanned)
    ensures OffersOf(shape, r.offers)
    decreases i.left
  {
    if i.left == 0 then Scanned(true, [], i)
    else match DecodeTag(i)
         case Eof(rest) => Scanned(true, [], rest)
         case BadTag => Scanned(false, [], i)
         case Tag(wireType, number, rest) =>
           var first := ScanRecord(shape, wireType, number, rest);
           if !first.ok then first
           else
             var more := Scan(shape, first.rest);
             Scanned(more.ok, first.offers + more.offers, more.rest)
  }

  /** Every write of a read callback stays inside its member. */
  predicate WritesInside(shape: seq<Kind>, members: seq<Member>, offers: seq<Offer>)
    requires Shaped(shape, members) && OffersOf(shape, offers)
  {
    forall j :: 0 <= j < |offers| ==> OfferInside(shape, members, offers[j])
  }

  predicate OfferInside(shape: seq<Kind>, members: seq<Member>, o: Offer)
    requires Shaped(shape, members) && o.k < |shape| && shape[o.k] != Int32
  {
    |Take(shape[o.k], All(o.payload)).text| <= |members[o.k].bytes|
  }

  lemma {:induction false} BothInside(shape: seq<Kind>, members: seq<Member>, a: seq<Offer>, b: seq<Offer>)
    requires Shaped(shape, members) && OffersOf(shape, a) && OffersOf(shape, b)
    ensures OffersOf(shape, a + b)
    ensures WritesInside(shape, members, a + b) <==> WritesInside(shape, members, a) && WritesInside(shape, members, b)
  {
    forall j | 0 <= j < |a| ensures (a + b)[j] == a[j] {}
    forall j | 0 <= j < |b| ensures (a + b)[|a| + j] == b[j] {}
  }

  lemma {:induction false} OneInside(shape: seq<Kind>, members: seq<Member>, o: Offer)
    requires Shaped(shape, members) && o.k < |shape| && shape[o.k] != Int32
    ensures WritesInside(shape, members, [o]) <==> OfferInside(shape, members, o)
  {
    assert [o][0] == o;
  }

  /** The field loop succeeds exactly on readable messages whose payloads stay inside their members. */
  lemma {:induction false} ScanDecides(shape: seq<Kind>, members: seq<Member>, st: Progress, i: Input)
    requires Receiving(shape, members, st.slots)
    ensures DecodeFields(Table(shape), st, i).Ok? <==>
            Scan(shape, i).ok && WritesInside(shape, members, Scan(shape, i).offers)
    decreases i.left
  {
    var t := Table(shape);
    if i.left > 0 && DecodeTag(i).Tag? {
      var Tag(wireType, number, rest) := DecodeTag(i);
      var step, first := Step(t, st, i), ScanRecord(shape, wireType, number, rest);
      RecordDecides(shape, members, st, wireType, number, rest);
      if first.ok { BothInside(shape, members, first.offers, Scan(shape, first.rest).offers); }
      if step.Next? { ScanDecides(shape, members, step.state, step.rest); }
    }
  }

  lemma {:induction false} RecordDecides(
    shape: seq<Kind>, members: seq<Member>, st: Progress, wireType: nat, number: nat, i: Input)
    requires Receiving(shape, members, st.slots)
    ensures var r, first := DecodeRecord(Table(shape), st, wireType, number, i), ScanRecord(shape, wireType, number, i);
            && (r.Ok? <==> first.ok && WritesInside(shape, members, first.offers))
            && (r.Ok? ==> r.rest == first.rest && Receiving(shape, members, r.value.slots))
  {
    if Find(Table(shape), number).Some? {
      var k := Find(Table(shape), number).value;
      FieldDecides(shape[k], k + 1, members[k], st.slots[k], wireType, i);
      if shape[k] != Int32 && Offered(i, wireType).Ok? {
        OneInside(shape, members, Offer(k, Offered(i, wireType).value));
      }
      if DecodeField(Entry(shape[k], k + 1), st.slots[k], wireType, i).Ok? {
        FieldKeepsReceiving(shape[k], k + 1, members[k], st.slots[k], wireType, i);
      }
    }
  }

  lemma {:induction false} FieldDecides(kind: Kind, tag: nat, m: Member, s: Slot, wireType: nat, i: Input)
    requires ReceivingSlot(kind, m, s) && (m.Number? <==> kind == Int32)
    ensures var r := DecodeField(Entry(kind, tag), s, wireType, i);
            if kind == Int32 then
              && (r.Ok? <==> Scalars.Decode(Varint, 4, i).Ok?)
              && (r.Ok? ==> r.rest == Scalars.Decode(Varint, 4, i).rest)
            else
              && (r.Ok? <==> Offered(i, wireType).Ok? && Readable(kind, |m.bytes|, Offered(i, wireType).value))
              && (r.Ok? ==> r.rest == Offered(i, wireType).rest)
  {
  }

  /** What a decode wrapper leaves in the application's structure. */
  ghost function Restored(shape: seq<Kind>, members: seq<Member>, slots: seq<Slot>): (r: seq<Member>)
    requires Receiving(shape, members, slots)
    ensures |r| == |shape|
  {
    seq(|shape|, k requires 0 <= k < |shape| => RestoredMember(shape[k], members[k], slots[k]))
  }

  ghost function RestoredMember(kind: Kind, m: Member, s: Slot): Member
    requires ReceivingSlot(kind, m, s)
  {
    if kind == Int32 then Number(s.value.n) else Memory(OverlayAll(kind, m.bytes, s.sink.got))
  }

  lemma {:induction false} OutgoingIsTyped(shape: seq<Kind>, members: seq<Member>)
    requires |shape| <= 255 && AllSendable(shape, members)
    ensures EncodeMethods.Typed(Table(shape), Outgoing(shape, members))
    ensures RoundTrip.ValidMessage(Table(shape), Outgoing(shape, members))
  {
    var t, m := Table(shape), Outgoing(shape, members);
    forall k | 0 <= k < |shape|
      ensures !t[k].htype.Oneof? && EncodeMethods.TypedSlot(t[k], m[k]) && RoundTrip.ValidSlot(t[k], m[k])
    {
      assert Sendable(shape[k], members[k]);
    }
  }

  /** The encode wrappers; the length goes back to the caller. */
  method EncodeObject(shape: seq<Kind>, obj: Object, buffer: array<byte>) returns (ok: bool, length: nat)
    requires |shape| <= 255 && AllSendable(shape, obj.members)
    modifies buffer
    ensures var e := EncodeMessage(Table(shape), Outgoing(shape, obj.members));
            && e.ok && (ok <==> |e.out| <= buffer.Length)
            && length <= |e.out| && (ok ==> length == |e.out|) && length <= buffer.Length
            && buffer[..length] == e.out[..length] && buffer[length..] == old(buffer[length..])
  {
    OutgoingIsTyped(shape, obj.members);
    TableIsWellFormed(shape);
    var msg := Outgoing(shape, obj.members);
    RoundTrip.ValidMessageEncodes(Table(shape), msg, 0);
    ok, length := EndToEnd.EncodeToBuffer(buffer, Table(shape), msg);
  }

  lemma {:induction false} IncomingIsDefault(shape: seq<Kind>, members: seq<Member>)
    requires Shaped(shape, members)
    ensures SetDefaults(Table(shape), Incoming(shape, members)) == Incoming(shape, members)
    ensures Receiving(shape, members, Incoming(shape, members))
  {
    var t, start := Table(shape), Incoming(shape, members);
    forall k | 0 <= k < |shape|
      ensures ReceivingSlot(shape[k], members[k], start[k]) && SetDefault(t[k], start[k]) == start[k]
    {
      assert members[k].Number? <==> shape[k] == Int32;
      assert DefaultValue(Entry(Int32, k + 1), Num(0)) == Num(0);
    }
    assert SetDefaults(t, start) == start;
  }

  lemma {:induction false} DecodeReceives(shape: seq<Kind>, members: seq<Member>, i: Input)
    requires Shaped(shape, members)
    ensures var r := Decode(Table(shape), Incoming(shape, members), i);
            r.Ok? ==> Receiving(shape, members, r.value)
  {
    IncomingIsDefault(shape, members);
    var t, st := Table(shape), Progress(Incoming(shape, members), {});
    if DecodeFields(t, st, i).Ok? { DecodingKeepsReceiving(shape, members, st, i); }
  }

  /** A wrapper accepts exactly the readable messages that stay inside their destination. */
  lemma {:induction false} WrapperAccepts(shape: seq<Kind>, members: seq<Member>, i: Input)
    requires |shape| <= 255 && Shaped(shape, members)
    ensures Decode(Table(shape), Incoming(shape, members), i).Ok? <==>
            Scan(shape, i).ok && WritesInside(shape, members, Scan(shape, i).offers)
  {
    var t, st := Table(shape), Progress(Incoming(shape, members), {});
    IncomingIsDefault(shape, members);
    ScanDecides(shape, members, st, i);
    if DecodeFields(t, st, i).Ok? {
      assert forall k :: 0 <= k < |t| ==> !t[k].htype.Required?;
    }
  }

  /** The calls of one read callback, in the order of the payloads. */
  method RunCallbacks(kind: Kind, got: seq<seq<byte>>, dest: Object, k: nat)
    requires k < |dest.members| && dest.members[k].Memory? && kind != Int32
    requires forall j :: 0 <= j < |got| ==> Readable(kind, |dest.members[k].bytes|, got[j])
    modifies dest
    ensures dest.members == old(dest.members)[k := Memory(OverlayAll(kind, old(dest.members[k].bytes), got))]
  {
    ghost var before, memory := dest.members, dest.members[k].bytes;
    var j := 0;
    while j < |got|
      invariant 0 <= j <= |got|
      invariant dest.members == before[k := Memory(OverlayAll(kind, memory, got[..j]))]
    {
      var stream := new IStream(got[j], 0, |got[j]|);
      assert stream.View() == All(got[j]);
      assert Readable(kind, |memory|, got[j]);
      assert got[..j + 1][..j] == got[..j];
      var ok, count, inside;
      if kind == Text {
        ok, count, inside := StringRead(stream, dest, k);
      } else {
        ok, count, inside := BytesRead(stream, dest, k);
      }
      j := j + 1;
    }
    assert got[..j] == got;
  }

  /**
   The decode wrappers.  The callbacks write to members that the decoder does not look at,
   so it makes no difference that here they are called after it.
   */
  method DecodeObject(shape: seq<Kind>, source: seq<byte>, length: nat, dest: Object) returns (ok: bool)
    requires |shape| <= 255 && Shaped(shape, dest.members) && length <= |source|
    modifies dest
    ensures var r := Decode(Table(shape), Incoming(shape, old(dest.members)), Cursor(source, length));
            && ok == r.Ok?
            && (ok ==> Receiving(shape, old(dest.members), r.value) &&
                       dest.members == Restored(shape, old(dest.members), r.value))
    ensures var scanned := Scan(shape, Cursor(source, length));
            ok <==> scanned.ok && WritesInside(shape, old(dest.members), scanned.offers)
  {
    var t := Table(shape);
    ghost var before := dest.members;
    TableIsWellFormed(shape);
    EndToEnd.WellFormedIsRunnable(t);
    WrapperAccepts(shape, before, Cursor(source, length));
    DecodeReceives(shape, before, Cursor(source, length));
    var msg := new DecodeMethods.Struct(Incoming(shape, dest.members));
    var stream := new IStream(source, 0, length);
    ok := DecodeMethods.Decode(stream, t, msg);
    if !ok {
      return;
    }
    CopyBack(shape, msg.slots, dest);
  }

  /** The assignments behind pb_decode. */
  method CopyBack(shape: seq<Kind>, slots: seq<Slot>, dest: Object)
    requires Receiving(shape, dest.members, slots)
    modifies dest
    ensures dest.members == Restored(shape, old(dest.members), slots)
  {
    ghost var before := dest.members;
    var k := 0;
    while k < |shape|
      invariant 0 <= k <= |shape| == |dest.members|
      invariant forall j :: 0 <= j < k ==> dest.members[j] == RestoredMember(shape[j], before[j], slots[j])
      invariant forall j :: k <= j < |shape| ==> dest.members[j] == before[j]
    {
      assert ReceivingSlot(shape[k], before[k], slots[k]);
      if shape[k] == Int32 {
        dest.members := dest.members[k := Number(slots[k].value.n)];
      } else {
        RunCallbacks(shape[k], slots[k].sink.got, dest, k);
      }
      k := k + 1;
    }
    assert dest.members == Restored(shape, before, slots);
  }

  // ---- Round trip -------------------------------------------------------------------------------

  /** string_read gives back exactly the text that string_write sent if, and only if, it is ASCII. */
  lemma {:induction false} OnlyAsciiComesBack(text: seq<byte>)
    ensures TakeText(All(text)) == Taken(true, text) <==> forall j :: 0 <= j < |text| ==> text[j] < 128
    decreases |text|
  {
    if text != [] {
      var i := All(text);
      assert Skip(i, 1) == All(text[1..]);
      if text[0] < 128 {
        OnlyAsciiComesBack(text[1..]);
        assert Varint.DecodeVarint(i) == Ok(text[0], All(text[1..])) by { Varint.ModSmall(text[0], TWO_64); }
        assert text == [text[0]] + text[1..];
      } else {
        assert |TakeText(i).text| < |text|;
      }
    }
  }

  /** What a member is when it has been sent from `m` and received in `d`. */
  ghost function Delivered(kind: Kind, m: Member, d: Member): Member
    requires Sendable(kind, m) && (d.Number? <==> kind == Int32)
    requires kind != Int32 ==> Readable(kind, |d.bytes|, Payload(kind, m))
  {
    if kind == Int32 then m else Memory(Overlay(d.bytes, Take(kind, All(Payload(kind, m))).text))
  }

  /**
   Every int32 comes back, negative or not; a callback's destination is overwritten with
   what its reader makes of the payload.
   */
  lemma {:induction false} WrappersRoundTrip(shape: seq<Kind>, members: seq<Member>, dest: seq<Member>)
    requires |shape| <= 255 && AllSendable(shape, members) && Shaped(shape, dest)
    requires forall k :: 0 <= k < |shape| && shape[k] != Int32 ==>
               Readable(shape[k], |dest[k].bytes|, Payload(shape[k], members[k]))
    requires |EncodeMessage(Table(shape), Outgoing(shape, members)).out| < TWO_32
    ensures var e := EncodeMessage(Table(shape), Outgoing(shape, members));
            var r := Decode(Table(shape), Incoming(shape, dest), All(e.out));
            && e.ok && r.Ok? && r.rest == All([])
            && Receiving(shape, dest, r.value)
            && forall k :: 0 <= k < |shape| ==>
                 Restored(shape, dest, r.value)[k] == Delivered(shape[k], members[k], dest[k])
  {
    var t, m, d := Table(shape), Outgoing(shape, members), Incoming(shape, dest);
    DecodeReceives(shape, dest, All(EncodeMessage(t, m).out));
    WrappersDecode(shape, members, dest);
    var slots := RoundTrip.ReceivedMessage(t, m, d);
    forall k | 0 <= k < |shape|
      ensures Restored(shape, dest, slots)[k] == Delivered(shape[k], members[k], dest[k])
    {
      assert Sendable(shape[k], members[k]) && ReceivingSlot(shape[k], dest[k], slots[k]);
      assert slots[k] == RoundTrip.ReceivedSlot(t[k], m[k], d[k]);
      MemberRoundTrip(shape[k], k + 1, members[k], dest[k], m[k], d[k]);
    }
  }

  lemma {:induction false} WrappersDecode(shape: seq<Kind>, members: seq<Member>, dest: seq<Member>)
    requires |shape| <= 255 && AllSendable(shape, members) && Shaped(shape, dest)
    requires forall k :: 0 <= k < |shape| && shape[k] != Int32 ==>
               Readable(shape[k], |dest[k].bytes|, Payload(shape[k], members[k]))
    requires |EncodeMessage(Table(shape), Outgoing(shape, members)).out| < TWO_32
    ensures var t, m, d := Table(shape), Outgoing(shape, members), Incoming(shape, dest);
            EncodeMessage(t, m).ok && Decode(t, d, All(EncodeMessage(t, m).out)) == Ok(RoundTrip.ReceivedMessage(t, m, d), All([]))
  {
    var t, m, d := Table(shape), Outgoing(shape, members), Incoming(shape, dest);
    TableIsWellFormed(shape);
    OutgoingIsTyped(shape, members);
    IncomingIsDefault(shape, dest);
    IncomingListens(shape, members, dest);
    Disturbance.ShelteredIsUndisturbed(t, m, d, false);
    ExactRoundTrip.DecodeUndoesEncode(t, m, d);
  }

  lemma {:induction false} IncomingListens(shape: seq<Kind>, members: seq<Member>, dest: seq<Member>)
    requires AllSendable(shape, members) && Shaped(shape, dest)
    requires forall k :: 0 <= k < |shape| && shape[k] != Int32 ==>
               Readable(shape[k], |dest[k].bytes|, Payload(shape[k], members[k]))
    ensures var t, m, d := Table(shape), Outgoing(shape, members), Incoming(shape, dest);
            RoundTrip.Listens(t, m, d) && Disturbance.Sheltered(t) && Disturbance.Intact(d)
  {
    var t, m, d := Table(shape), Outgoing(shape, members), Incoming(shape, dest);
    forall k | 0 <= k < |shape|
      ensures RoundTrip.ListensSlot(t[k], m[k], d[k]) && Disturbance.ShelteredField(t[k]) && Disturbance.IntactSlot(d[k])
    {
      assert Sendable(shape[k], members[k]);
    }
  }

  lemma {:induction false} MemberRoundTrip(kind: Kind, tag: nat, m: Member, d: Member, sent: Slot, start: Slot)
    requires Sendable(kind, m) && (d.Number? <==> kind == Int32)
    requires kind != Int32 ==> Readable(kind, |d.bytes|, Payload(kind, m))
    requires kind == Int32 ==> sent == Single(Num(m.n)) && start == Single(Num(0))
    requires kind != Int32 ==> sent == Hook(Records([Payload(kind, m)]), NoDecoder)
    requires kind != Int32 ==> start == Hook(NoEncoder, Reader(Reads(kind, |d.bytes|), []))
    requires ReceivingSlot(kind, d, RoundTrip.ReceivedSlot(Entry(kind, tag), sent, start))
    ensures RestoredMember(kind, d, RoundTrip.ReceivedSlot(Entry(kind, tag), sent, start)) == Delivered(kind, m, d)
  {
    if kind != Int32 {
      var p := Payload(kind, m);
      assert RoundTrip.ReceivedSlot(Entry(kind, tag), sent, start).sink.got == [p];
      OverlayOnce(kind, d.bytes, p);
    }
  }

  lemma {:induction false} OverlayOnce(kind: Kind, memory: seq<byte>, p: seq<byte>)
    requires Readable(kind, |memory|, p)
    ensures OverlayAll(kind, memory, [p]) == Overlay(memory, Take(kind, All(p)).text)
  {
    assert OverlayAll(kind, memory, [p][..0]) == memory;
  }

  /** Text of bytes 1 to 127 arrives whole; that it also ends there depends on what the destination held before. */
  lemma {:induction false} TextIsDelivered(m: Member, d: Member)
    requires Sendable(Text, m) && d.Memory? && |Payload(Text, m)| <= |d.bytes|
    requires forall j :: 0 <= j < |Payload(Text, m)| ==> Payload(Text, m)[j] < 128
    ensures Readable(Text, |d.bytes|, Payload(Text, m))
    ensures Delivered(Text, m, d) == Memory(Overlay(d.bytes, Payload(Text, m)))
    ensures var n := |Payload(Text, m)|;
            CString(Delivered(Text, m, d).bytes) == Payload(Text, m) <==> n == |d.bytes| || d.bytes[n] == 0
    ensures forall n :: 0 <= n < |m.bytes| && m.bytes[n] == 0 && 0 !in m.bytes[..n] ==> Payload(Text, m) == m.bytes[..n]
  {
    var text := Payload(Text, m);
    OnlyAsciiComesBack(text);
    forall n | 0 <= n < |m.bytes| && m.bytes[n] == 0 && 0 !in m.bytes[..n] ensures text == m.bytes[..n] {
      FirstNul(m.bytes, n);
    }
    CStringOfOverlay(text, d.bytes[|text|..]);
  }

  lemma {:induction false} CStringOfOverlay(text: seq<byte>, tail: seq<byte>)
    requires 0 !in text
    ensures CString(text + tail) == text + CString(tail)
  {
    if text == [] {
      assert text + tail == tail;
    } else {
      assert (text + tail)[1..] == text[1..] + tail;
      CStringOfOverlay(text[1..], tail);
    }
  }

  /** bytes_read stores the data where bytes_write expects the length: what comes back is four bytes shorter. */
  lemma {:induction false} BytesAreDelivered(m: Member, d: Member)
    requires Sendable(Raw, m) && d.Memory? && Length(m.bytes) <= |d.bytes|
    ensures Readable(Raw, |d.bytes|, Payload(Raw, m))
    ensures Length(m.bytes) ==
            m.bytes[0] + TWO_8 * m.bytes[1] + TWO_16 * m.bytes[2] + TWO_8 * TWO_16 * m.bytes[3]
    ensures var n := Length(m.bytes);
            Delivered(Raw, m, d).bytes[..n] == m.bytes[4..4 + n] && Delivered(Raw, m, d).bytes[n..] == d.bytes[n..]
  {
    NumberLaws.FourBytes(m.bytes[..4]);
  }

  /** Text is ASCII, and what is sent fits into the member it arrives in. */
  predicate Deliverable(kind: Kind, m: Member, d: Member)
    requires Sendable(kind, m)
  {
    match kind
    case Int32 => d.Number?
    case Text =>
      d.Memory? && |Payload(Text, m)| <= |d.bytes| && forall j :: 0 <= j < |Payload(Text, m)| ==> Payload(Text, m)[j] < 128
    case Raw => d.Memory? && Length(m.bytes) <= |d.bytes|
  }

  /** The member that was sent, at the start of the member it arrives in. */
  function Arrived(kind: Kind, m: Member, d: Member): Member
    requires Sendable(kind, m) && Deliverable(kind, m, d)
  {
    if kind == Int32 then m else Memory(Overlay(d.bytes, Payload(kind, m)))
  }

  /** All sixteen messages: numbers come back, and text and data arrive at the start of their members. */
  lemma {:induction false} MessagesComeBack(message: Message, members: seq<Member>, dest: seq<Member>)
    requires AllSendable(Shape(message), members) && |dest| == |members|
    requires forall k :: 0 <= k < |members| ==> Deliverable(Shape(message)[k], members[k], dest[k])
    requires |EncodeMessage(Table(Shape(message)), Outgoing(Shape(message), members)).out| < TWO_32
    ensures var shape := Shape(message);
            var e := EncodeMessage(Table(shape), Outgoing(shape, members));
            && e.ok && Shaped(shape, dest)
            && var r := Decode(Table(shape), Incoming(shape, dest), All(e.out));
               && r.Ok? && r.rest == All([]) && Receiving(shape, dest, r.value)
               && forall k :: 0 <= k < |shape| ==>
                    Deliverable(shape[k], members[k], dest[k]) &&
                    Restored(shape, dest, r.value)[k] == Arrived(shape[k], members[k], dest[k])
  {
    var shape := Shape(message);
    forall k | 0 <= k < |shape|
      ensures dest[k].Number? <==> shape[k] == Int32
      ensures shape[k] != Int32 ==> Readable(shape[k], |dest[k].bytes|, Payload(shape[k], members[k]))
      ensures Sendable(shape[k], members[k]) && Deliverable(shape[k], members[k], dest[k])
      ensures Delivered(shape[k], members[k], dest[k]) == Arrived(shape[k], members[k], dest[k])
    {
      assert Sendable(shape[k], members[k]) && Deliverable(shape[k], members[k], dest[k]);
      match shape[k]
      case Int32 =>
      case Text => TextIsDelivered(members[k], dest[k]);
      case Raw => BytesAreDelivered(members[k], dest[k]);
    }
    WrappersRoundTrip(shape, members, dest);
  }
}
