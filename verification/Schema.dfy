/**
 Message descriptions (`pb_field_t` tables) and the message structures they describe.

 A table is the sequence of its entries without the terminator.  A structure in memory
 is a sequence of slots, one for each entry; text is the characters before the NUL.
 */
module Schema {
  import opened Wire

  /** PB_LTYPE_*: a submessage entry points to the table of the submessage. */
  datatype LType =
    | Varint | UVarint | SVarint | Fixed32 | Fixed64
    | Bytes | String | SubMessage(table: seq<Field>) | Extension | FixedLengthBytes

  /** PB_HTYPE_* */
  datatype HType = Required | Optional | Repeated | Oneof

  /** PB_ATYPE_* */
  datatype AType = Static | Callback | Pointer

  /** pb_field_t */
  datatype Field = Field(
    tag: nat, ltype: LType, htype: HType, atype: AType,
    dataOffset: nat, sizeOffset: int, dataSize: nat, arraySize: nat,
    default: Option<Value>)

  datatype Value =
    | Num(n: int)
    | Blob(bytes: seq<byte>)
    | Msg(slots: seq<Slot>)

  datatype Slot =
    | Single(value: Value)               // required and singular fields
    | Maybe(has: bool, value: Value)     // optional fields with a has_ flag
    | Many(items: seq<Value>, spare: seq<Value>) // repeated fields: the first _count elements, and the others
    | Hook(emit: Emitter, sink: Sink)    // pb_callback_t

  /** An encode callback: it writes length-delimited records under its own key, or some chunks. */
  datatype Emitter =
    | NoEncoder
    | Records(payloads: seq<seq<byte>>)
    | Writes(chunks: seq<seq<byte>>, ok: bool)

  /**
   A decode callback that reads all it is offered.  It may reject a payload, depending on
   what it has been offered before; its effect is a function of what it has been given.
   A stray callback is a function pointer whose lowest byte has been overwritten; a call
   through it counts as failed.
   */
  datatype Sink =
    | NoDecoder
    | Reader(accepts: (seq<seq<byte>>, seq<byte>) -> bool, got: seq<seq<byte>>)
    | Stray

  predicate Packable(l: LType) {
    l.Varint? || l.UVarint? || l.SVarint? || l.Fixed32? || l.Fixed64?
  }

  /** PB_HTYPE_OPTIONAL without a has_ flag, as proto3 fields are. */
  predicate Singular(f: Field) {
    f.htype.Optional? && f.sizeOffset == 0
  }

  /** sizeof(void*) on the 32-bit target. */
  const ADDRESS_SIZE: nat := 4

  /** The bytes the member of this field takes in its structure. */
  function MemberSize(f: Field): nat {
    if f.atype.Static? && f.htype.Repeated? then f.dataSize * f.arraySize
    else if f.atype.Pointer? then ADDRESS_SIZE
    else f.dataSize
  }

  /** Member k stands at the very beginning of its structure. */
  predicate AtStart(t: seq<Field>, k: nat)
    requires k < |t|
  {
    t[k].dataOffset == 0 && forall j :: 0 <= j < k ==> t[j].dataOffset == 0 && MemberSize(t[j]) == 0
  }

  predicate WordSize(n: nat) { n == 1 || n == 2 || n == 4 || n == 8 }

  /** What a value is in memory that has been cleared with memset. */
  function ZeroValue(f: Field): Value
    decreases f, 0
  {
    match f.ltype
    case Bytes => Blob([])
    case String => Blob([])
    case FixedLengthBytes => Blob(seq(f.dataSize, _ => 0))
    case SubMessage(t) => Msg(ZeroSlots(t))
    case _ => Num(0)
  }

  function ZeroSlot(f: Field): Slot
    decreases f, 1
  {
    if f.atype.Callback? then Hook(NoEncoder, NoDecoder)
    else if f.htype.Repeated? then Many([], seq(f.arraySize, _ => ZeroValue(f)))
    else if f.htype.Optional? && !Singular(f) then Maybe(false, ZeroValue(f))
    else Single(ZeroValue(f))
  }

  function ZeroSlots(t: seq<Field>): (m: seq<Slot>)
    ensures |m| == |t|
    decreases t
  {
    seq(|t|, i requires 0 <= i < |t| => ZeroSlot(t[i]))
  }

  /**
   Clearing the first byte of a value, as far as it can be seen after the value has been
   initialised: only callbacks are not initialised.
   */
  function ClearValue(f: Field, v: Value): Value
    decreases f, 0
  {
    if f.ltype.SubMessage? && v.Msg? then Msg(ClearFirst(f.ltype.table, v.slots)) else v
  }

  function ClearSlot(f: Field, s: Slot): Slot
    decreases f, 1
  {
    match s
    case Single(v) => Single(ClearValue(f, v))
    case Maybe(has, v) => Maybe(has, ClearValue(f, v))
    case Many(items, spare) =>
      if items != [] then Many(items[0 := ClearValue(f, items[0])], spare)
      else if spare != [] then Many(items, spare[0 := ClearValue(f, spare[0])])
      else s
    case Hook(emit, sink) => if sink.Reader? then Hook(emit, Stray) else s
  }

  function ClearFirst(t: seq<Field>, m: seq<Slot>): (r: seq<Slot>)
    ensures |r| == |m|
    decreases t
  {
    if |t| != |m| then m
    else seq(|m|, i requires 0 <= i < |m| => if AtStart(t, i) then ClearSlot(t[i], m[i]) else m[i])
  }

  /** pb_field_set_to_default on the data of one field. */
  function DefaultValue(f: Field, cur: Value): Value
    decreases f, 0
  {
    match f.ltype
    case SubMessage(t) => if cur.Msg? then Msg(SetDefaults(t, cur.slots)) else cur
    case _ => if f.default.Some? then f.default.value else ZeroValue(f)
  }

  /**
   pb_field_set_to_default: callbacks and array contents are left alone.  The has_ flag of
   an optional field is cleared through pSize; a singular field has none, and there pSize
   is the first byte of its data.
   */
  function SetDefault(f: Field, cur: Slot): Slot
    decreases f, 1
  {
    if f.atype.Callback? then cur
    else
      match cur
      case Single(v) => Single(DefaultValue(f, if Singular(f) then ClearValue(f, v) else v))
      case Maybe(_, v) => Maybe(false, DefaultValue(f, v))
      case Many(items, spare) => Many([], items + spare)
      case Hook(_, _) => cur
  }

  /** pb_message_set_to_defaults */
  function SetDefaults(t: seq<Field>, d: seq<Slot>): (m: seq<Slot>)
    ensures |m| == |d|
    decreases t
  {
    if |t| != |d| then d
    else seq(|d|, i requires 0 <= i < |d| => SetDefault(t[i], d[i]))
  }

  /** The storage of element j of an array; a structure given without it is taken to be zero there. */
  function Place(f: Field, storage: seq<Value>, j: nat): Value {
    if j < |storage| then storage[j] else ZeroValue(f)
  }

  function Drop<T>(s: seq<T>, n: nat): seq<T> { if n <= |s| then s[n..] else [] }

  /** One more element counts. */
  function Append(s: Slot, v: Value): Slot
    requires s.Many?
  {
    Many(s.items + [v], Drop(s.spare, 1))
  }

  /** The memory of this value holds only zero bytes. */
  predicate IsZeroValue(f: Field, v: Value)
    decreases f, 0
  {
    match v
    case Num(n) => n == 0
    case Blob(b) => if f.ltype.FixedLengthBytes? then forall k :: 0 <= k < |b| ==> b[k] == 0 else |b| == 0
    case Msg(m) => f.ltype.SubMessage? && IsZeroMessage(f.ltype.table, m)
  }

  predicate IsZeroSlot(f: Field, s: Slot)
    decreases f, 1
  {
    match s
    case Single(v) => IsZeroValue(f, v)
    case Maybe(has, v) => !has && IsZeroValue(f, v)
    case Many(items, spare) => |items| == 0 && forall j :: 0 <= j < |spare| ==> IsZeroValue(f, spare[j])
    case Hook(emit, sink) => emit.NoEncoder? && sink.NoDecoder?
  }

  predicate IsZeroMessage(t: seq<Field>, m: seq<Slot>)
    decreases t
  {
    |m| == |t| && forall i :: 0 <= i < |t| ==> IsZeroSlot(t[i], m[i])
  }

  /** The place of the entry with this tag. */
  function Find(t: seq<Field>, tag: nat): (k: Option<nat>)
    ensures k.Some? ==> k.value < |t| && t[k.value].tag == tag && !t[k.value].ltype.Extension?
    ensures k.None? ==> forall j :: 0 <= j < |t| ==> t[j].tag != tag || t[j].ltype.Extension?
  {
    FindFrom(t, tag, 0)
  }

  function FindFrom(t: seq<Field>, tag: nat, from: nat): (k: Option<nat>)
    requires from <= |t|
    ensures k.Some? ==> from <= k.value < |t| && t[k.value].tag == tag && !t[k.value].ltype.Extension?
    ensures k.None? ==> forall j :: from <= j < |t| ==> t[j].tag != tag || t[j].ltype.Extension?
    decreases |t| - from
  {
    if from == |t| then None
    else if t[from].tag == tag && !t[from].ltype.Extension? then Some(from)
    else FindFrom(t, tag, from + 1)
  }

  predicate UniqueTags(t: seq<Field>) {
    forall j, k :: 0 <= j < k < |t| ==> t[j].tag != t[k].tag
  }

  /** How many of the first n entries are required. */
  function RequiredBefore(t: seq<Field>, n: nat): (c: nat)
    requires n <= |t|
    ensures c <= n
  {
    if n == 0 then 0 else RequiredBefore(t, n - 1) + if t[n - 1].htype.Required? then 1 else 0
  }

  function RequiredCount(t: seq<Field>): nat { RequiredBefore(t, |t|) }
}
