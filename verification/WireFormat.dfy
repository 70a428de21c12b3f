/**
 What the encoder puts on the wire, said without its own tables of wire types: a reader that
 knows none of the fields finds its way through an encoded message.
 */
module WireFormat {
  import opened Wire
  import opened Varint
  import opened Schema
  import opened Decoder
  import opened Encoder
  import opened Records
  import opened RoundTrip
  import opened Bodies
  import opened FieldOrder
  import Scalars
  import NumberLaws

  // ---- Bodies of encoded values -----------------------------------------------------------

  lemma {:induction false} VarintIsVarint(v: nat)
    ensures IsVarint(EncodeVarint(v))
    ensures Groups(EncodeVarint(v)) == v
    decreases v
  {
    if v >= 128 {
      VarintIsVarint(v / 128);
      OneMoreGroup(v % 128, EncodeVarint(v / 128));
    } else {
      LastGroup(v);
    }
  }

  lemma {:induction false} LastGroup(v: byte)
    requires v < 128
    ensures IsVarint([v]) && Groups([v]) == v
  {
    assert [v][1..] == [];
  }

  lemma {:induction false} OneMoreGroup(g: byte, more: seq<byte>)
    requires g < 128 && IsVarint(more)
    ensures IsVarint([g + 128] + more) && Groups([g + 128] + more) == g + 128 * Groups(more)
  {
    var s := [g + 128] + more;
    assert s[1..] == more && s[0] % 128 == g;
    forall j | 0 <= j < |s| - 1 ensures s[j] >= 128 { if j > 0 { assert s[j] == more[j - 1]; } }
  }

  /**
   The numbers on the wire: two's complement of 64 bits, so that negative ones take ten
   bytes in any width; zigzag; and little-endian bytes.
   */
  lemma {:induction false} NumbersOnWire(l: LType, size: nat, n: int)
    requires Packable(l) && Scalars.InRange(l, size, n)
    ensures Scalars.Encode(l, size, n).Some?
    ensures var s := Scalars.Encode(l, size, n).value;
            match l
            case Fixed32 => |s| == 4 && n == s[0] + TWO_8 * s[1] + TWO_16 * s[2] + TWO_8 * TWO_16 * s[3]
            case Fixed64 =>
              && |s| == 8
              && n == s[0] + TWO_8 * s[1] + TWO_16 * s[2] + TWO_8 * TWO_16 * s[3] +
                      TWO_32 * (s[4] + TWO_8 * s[5] + TWO_16 * s[6] + TWO_8 * TWO_16 * s[7])
            case SVarint => IsVarint(s) && Groups(s) == if n < 0 then -2 * n - 1 else 2 * n
            case _ => IsVarint(s) && Groups(s) == (if n < 0 then n + TWO_64 else n) && (n < 0 ==> |s| == 10)
  {
    if l.Fixed32? || l.Fixed64? {
      FixedOnWire(l, size, n);
    } else if l.SVarint? {
      ModSmall(Scalars.ZigZag(n), TWO_64);
      VarintIsVarint(Scalars.ZigZag(n));
    } else {
      NumberLaws.ModUnique(n, if n < 0 then -1 else 0, if n < 0 then n + TWO_64 else n, TWO_64);
      VarintIsVarint(n % TWO_64);
      if n < 0 { NegativesAreLong(n + TWO_64); }
    }
  }

  lemma {:induction false} FixedOnWire(l: LType, size: nat, n: int)
    requires (l.Fixed32? || l.Fixed64?) && Scalars.InRange(l, size, n)
    ensures Scalars.Encode(l, size, n).Some?
    ensures var s := Scalars.Encode(l, size, n).value;
            |s| == (if l.Fixed32? then 4 else 8) && Scalars.FromLittleEndian(s) == n
    ensures var s := Scalars.Encode(l, size, n).value;
            if l.Fixed32? then n == s[0] + TWO_8 * s[1] + TWO_16 * s[2] + TWO_8 * TWO_16 * s[3]
            else n == s[0] + TWO_8 * s[1] + TWO_16 * s[2] + TWO_8 * TWO_16 * s[3] +
                      TWO_32 * (s[4] + TWO_8 * s[5] + TWO_16 * s[6] + TWO_8 * TWO_16 * s[7])
  {
    NumberLaws.FixedWidths();
    ModSmall(n, if l.Fixed32? then TWO_32 else TWO_64);
    NumberLaws.LittleEndianRoundTrip(n, if l.Fixed32? then 4 else 8);
    var s := Scalars.Encode(l, size, n).value;
    if l.Fixed32? { NumberLaws.FourBytes(s); } else { NumberLaws.EightBytes(s); }
  }

  lemma {:induction false} NegativesAreLong(v: u64)
    requires v >= TWO_64 / 2
    ensures |EncodeVarint(v)| == 10
  {
    WidthLengths(v);
    EncodedLength(v, 9);
    assert Pow128(3) == 2097152;
    assert Pow128(6) == 128 * 128 * 128 * Pow128(3);
    assert Pow128(9) == 128 * 128 * 128 * Pow128(6);
  }

  lemma {:induction false} StringIsDelimited(b: seq<byte>)
    requires |b| < TWO_32
    ensures Body(2, EncodeString(b))
  {
    var k := |EncodeVarint(|b|)|;
    WidthLengths(|b|);
    VarintIsVarint(|b|);
    ModSmall(|b|, TWO_32);
    assert EncodeString(b)[..k] == EncodeVarint(|b|);
    assert IsDelimited(EncodeString(b), k);
  }

  lemma {:induction false} ValueIsBody(f: Field, v: Value)
    requires WfField(f) && ValidValue(f, v) && |EncodeValue(f, v).out| < TWO_32
    ensures EncodeValue(f, v).ok && Body(WireType(f.ltype), EncodeValue(f, v).out)
  {
    ValidValueEncodes(f, v);
    if f.ltype.SubMessage? {
      StringIsDelimited(EncodeFrom(f.ltype.table, v.slots, 0).out);
    } else if !Packable(f.ltype) {
      StringIsDelimited(v.bytes);
    } else if f.ltype.SVarint? {
      VarintIsVarint(Scalars.ZigZag(v.n) % TWO_64);
    } else if !f.ltype.Fixed32? && !f.ltype.Fixed64? {
      VarintIsVarint(v.n % TWO_64);
    }
  }

  // ---- A reader that knows none of the fields ------------------------------------------------

  /** A reader's table that has no field of this number. */
  predicate Stranger(u: seq<Field>, number: nat) { Plain(u) && !Declared(u, number) }

  lemma {:induction false} StrangerSkipsRecord(u: seq<Field>, st: Progress, wireType: nat, number: nat, body: seq<byte>)
    requires Stranger(u, number) && wireType < 8 && 1 <= number <= 255 && Body(wireType, body)
    ensures var x := EncodeTag(wireType, number) + body;
            Complete(u, st, x) && After(u, st, x) == st
  {
    var key := EncodeTag(wireType, number);
    TagRoundTrip(wireType, number, body, |body|);
    FindIsDeclared(u, number);
    SkippableIsSkipped(Rec(key, number, wireType, body));
    assert DecodeRecord(u, st, wireType, number, All(body)) == Ok(st, All([]));
    KeyedRecord(u, st, key, wireType, number, body, st);
  }

  lemma {:induction false} StrangerSkipsTwo(u: seq<Field>, st: Progress, a: seq<byte>, b: seq<byte>)
    requires Complete(u, st, a) && After(u, st, a) == st && Complete(u, st, b) && After(u, st, b) == st
    ensures Complete(u, st, a + b) && After(u, st, a + b) == st
  {
    CompleteThen(u, st, a, b);
  }

  lemma {:induction false} StrangerSkipsElements(u: seq<Field>, st: Progress, f: Field, items: seq<Value>, i: nat)
    requires WfField(f) && Stranger(u, f.tag) && i <= |items| && forall j :: 0 <= j < |items| ==> ValidValue(f, items[j])
    requires |EncodeElements(f, items, i).out| < TWO_32
    ensures var out := EncodeElements(f, items, i).out;
            Complete(u, st, out) && After(u, st, out) == st
    decreases |items| - i
  {
    if i < |items| {
      ElementsCons(f, items, i);
      var body, more := EncodeValue(f, items[i]).out, EncodeElements(f, items, i + 1).out;
      ValueIsBody(f, items[i]);
      StrangerSkipsRecord(u, st, WireType(f.ltype), f.tag, body);
      StrangerSkipsElements(u, st, f, items, i + 1);
      StrangerSkipsTwo(u, st, EncodeTag(WireType(f.ltype), f.tag) + body, more);
    }
  }

  lemma {:induction false} StrangerSkipsPayloads(u: seq<Field>, st: Progress, f: Field, payloads: seq<seq<byte>>, i: nat)
    requires WfField(f) && Stranger(u, f.tag) && WireType(f.ltype) == 2 && i <= |payloads|
    requires forall j :: 0 <= j < |payloads| ==> |payloads[j]| < TWO_32
    ensures var out := EncodeRecords(f, payloads, i).out;
            Complete(u, st, out) && After(u, st, out) == st
    decreases |payloads| - i
  {
    if i < |payloads| {
      var body, more := EncodeString(payloads[i]), EncodeRecords(f, payloads, i + 1).out;
      assert EncodeRecords(f, payloads, i).out == EncodeTag(2, f.tag) + body + more by {
        RecordsEncode(f, payloads, i + 1);
      }
      StringIsDelimited(payloads[i]);
      StrangerSkipsRecord(u, st, 2, f.tag, body);
      StrangerSkipsPayloads(u, st, f, payloads, i + 1);
      StrangerSkipsTwo(u, st, EncodeTag(2, f.tag) + body, more);
    }
  }

  lemma {:induction false} StrangerSkipsField(u: seq<Field>, st: Progress, f: Field, s: Slot)
    requires WfField(f) && Stranger(u, f.tag) && ValidSlot(f, s) && |EncodeField(f, s).out| < TWO_32
    ensures var out := EncodeField(f, s).out;
            EncodeField(f, s).ok && Complete(u, st, out) && After(u, st, out) == st
  {
    ValidSlotEncodes(f, s);
    match s
    case Single(v) =>
      if !Absent(f, v) {
        ValueIsBody(f, v);
        StrangerSkipsRecord(u, st, WireType(f.ltype), f.tag, EncodeValue(f, v).out);
      }
    case Maybe(has, v) =>
      if has {
        ValueIsBody(f, v);
        StrangerSkipsRecord(u, st, WireType(f.ltype), f.tag, EncodeValue(f, v).out);
      }
    case Many(items, _) =>
      if |items| > 0 {
        if Packable(f.ltype) {
          PackedEncodes(f, items, 0);
          StringIsDelimited(EncodePacked(f, items, 0).out);
          StrangerSkipsRecord(u, st, 2, f.tag, EncodeString(EncodePacked(f, items, 0).out));
        } else {
          StrangerSkipsElements(u, st, f, items, 0);
        }
      }
    case Hook(emit, _) =>
      if emit.Records? { StrangerSkipsPayloads(u, st, f, emit.payloads, 0); }
  }

  lemma {:induction false} StrangerSkipsFields(u: seq<Field>, st: Progress, t: seq<Field>, m: seq<Slot>, i: nat)
    requires WfTable(t) && ValidMessage(t, m) && i <= |t| && |EncodeFrom(t, m, i).out| < TWO_32
    requires Plain(u) && forall k :: 0 <= k < |t| ==> !Declared(u, t[k].tag)
    ensures var out := EncodeFrom(t, m, i).out;
            EncodeFrom(t, m, i).ok && Complete(u, st, out) && After(u, st, out) == st
    decreases |t| - i
  {
    if i < |t| {
      assert WfField(t[i]) && ValidSlot(t[i], m[i]);
      ValidMessageEncodes(t, m, i);
      ValidSlotEncodes(t[i], m[i]);
      StrangerSkipsField(u, st, t[i], m[i]);
      StrangerSkipsFields(u, st, t, m, i + 1);
      StrangerSkipsTwo(u, st, EncodeField(t[i], m[i]).out, EncodeFrom(t, m, i + 1).out);
    }
  }

  /** An encoded message is a run of complete records, for readers too that know none of its fields. */
  lemma {:induction false} StrangersSkipMessages(u: seq<Field>, st: Progress, t: seq<Field>, m: seq<Slot>)
    requires WfTable(t) && ValidMessage(t, m) && |EncodeMessage(t, m).out| < TWO_32
    requires Plain(u) && forall k :: 0 <= k < |t| ==> !Declared(u, t[k].tag)
    ensures DecodeFields(u, st, All(EncodeMessage(t, m).out)) == Ok(st, All([]))
  {
    StrangerSkipsFields(u, st, t, m, 0);
    ConsumeIsDecode(u, st, All(EncodeMessage(t, m).out));
  }

  /** The keys the encoder writes, by the type of the field. */
  lemma {:induction false} KeysByType(f: Field)
    ensures f.ltype.Varint? || f.ltype.UVarint? || f.ltype.SVarint? ==>
              TagForField(f) == Encoder.Write(EncodeVarint(8 * f.tag))
    ensures f.ltype.Fixed64? ==> TagForField(f) == Encoder.Write(EncodeVarint(8 * f.tag + 1))
    ensures f.ltype.Fixed32? ==> TagForField(f) == Encoder.Write(EncodeVarint(8 * f.tag + 5))
    ensures f.ltype.Bytes? || f.ltype.String? || f.ltype.SubMessage? || f.ltype.FixedLengthBytes? ==>
              TagForField(f) == Encoder.Write(EncodeVarint(8 * f.tag + 2))
  {
  }

  // ---- Which records are there, and in which order --------------------------------------------

  /** Fields are written in the order of the table. */
  lemma {:induction false} FieldsInOrder(t: seq<Field>, m: seq<Slot>, t': seq<Field>, m': seq<Slot>)
    requires |m| == |t| && |m'| == |t'|
    ensures EncodeMessage(t + t', m + m') == Then(EncodeMessage(t, m), EncodeMessage(t', m'))
    ensures |t| == 1 ==> EncodeMessage(t, m) == EncodeField(t[0], m[0])
  {
    FieldsInOrderFrom(t, m, t', m', 0);
    if |t| == 1 {
      var e := EncodeField(t[0], m[0]);
      assert EncodeFrom(t, m, 1) == NOTHING;
      assert e.out + [] == e.out;
    }
  }

  lemma {:induction false} FieldsInOrderFrom(t: seq<Field>, m: seq<Slot>, t': seq<Field>, m': seq<Slot>, i: nat)
    requires |m| == |t| && |m'| == |t'| && i <= |t|
    ensures EncodeFrom(t + t', m + m', i) == Then(EncodeFrom(t, m, i), EncodeMessage(t', m'))
    decreases |t| - i
  {
    if i < |t| {
      FieldsInOrderFrom(t, m, t', m', i + 1);
      ThenTwice(EncodeField(t[i], m[i]), EncodeFrom(t, m, i + 1), EncodeMessage(t', m'));
    } else {
      SecondTable(t, m, t', m', 0);
      ThenTwice(NOTHING, NOTHING, EncodeMessage(t', m'));
    }
  }

  lemma {:induction false} SecondTable(t: seq<Field>, m: seq<Slot>, t': seq<Field>, m': seq<Slot>, i: nat)
    requires |m| == |t| && |m'| == |t'| && i <= |t'|
    ensures EncodeFrom(t + t', m + m', |t| + i) == EncodeFrom(t', m', i)
    decreases |t'| - i
  {
    if i < |t'| {
      assert (t + t')[|t| + i] == t'[i] && (m + m')[|t| + i] == m'[i];
      SecondTable(t, m, t', m', i + 1);
    }
  }

  lemma {:induction false} ThenTwice(a: Emit, b: Emit, c: Emit)
    ensures Then(Then(a, b), c) == Then(a, Then(b, c)) && Then(NOTHING, c) == c
  {
    assert [] + c.out == c.out;
    if a.ok && b.ok { assert a.out + b.out + c.out == a.out + (b.out + c.out); }
  }

  /** The types whose arrays are packed. */
  predicate IsNumber(l: LType) { l in [Varint, UVarint, SVarint, Fixed32, Fixed64] }

  /** The bytes of these numbers, one after the other. */
  function Numbers(f: Field, items: seq<Value>): seq<byte>
    requires Packable(f.ltype) && forall j :: 0 <= j < |items| ==> ValidValue(f, items[j])
  {
    if items == [] then []
    else
      assert ValidValue(f, items[|items| - 1]);
      Numbers(f, items[..|items| - 1]) +
      match Scalars.Encode(f.ltype, f.dataSize, items[|items| - 1].n) case None => [] case Some(s) => s
  }

  lemma {:induction false} PackedIsNumbers(f: Field, items: seq<Value>, i: nat)
    requires Packable(f.ltype) && i <= |items| && forall j :: 0 <= j < |items| ==> ValidValue(f, items[j])
    ensures EncodePacked(f, items, i).ok && Numbers(f, items[..i]) + EncodePacked(f, items, i).out == Numbers(f, items)
    decreases |items| - i
  {
    if i == |items| {
      assert items[..i] == items;
    } else {
      var before, s, more := Numbers(f, items[..i]), EncodeNumber(f, items[i]).out, EncodePacked(f, items, i + 1);
      assert EncodeNumber(f, items[i]).ok && Numbers(f, items[..i + 1]) == before + s by { NextNumber(f, items, i); }
      assert more.ok && before + s + more.out == Numbers(f, items) by { PackedIsNumbers(f, items, i + 1); }
      assert EncodePacked(f, items, i) == Emit(true, s + more.out);
      assert before + (s + more.out) == before + s + more.out;
    }
  }

  lemma {:induction false} NextNumber(f: Field, items: seq<Value>, i: nat)
    requires Packable(f.ltype) && i < |items| && forall j :: 0 <= j < |items| ==> ValidValue(f, items[j])
    ensures EncodeNumber(f, items[i]).ok && Numbers(f, items[..i + 1]) == Numbers(f, items[..i]) + EncodeNumber(f, items[i]).out
  {
    assert ValidValue(f, items[i]);
    NumberLaws.RoundTrip(f.ltype, f.dataSize, items[i].n, [], 0);
    assert items[..i + 1][..i] == items[..i];
  }

  /**
   An array is written unless it is empty, and refused when it is longer than the field
   allows.  Numbers are packed into one delimited record.
   */
  lemma {:induction false} ArrayIsPacked(f: Field, items: seq<Value>)
    requires WfField(f) && IsNumber(f.ltype) && forall j :: 0 <= j < |items| ==> ValidValue(f, items[j])
    ensures EncodeArray(f, items) ==
            if items == [] then NOTHING
            else if |items| > f.arraySize then FAILED
            else Encoder.Write(EncodeVarint(f.tag * 8 + 2) + (EncodeVarint(|Numbers(f, items)|) + Numbers(f, items)))
  {
    assert EncodePacked(f, items, 0) == Encoder.Write(Numbers(f, items)) by {
      PackedIsNumbers(f, items, 0);
      assert items[..0] == [] && [] + EncodePacked(f, items, 0).out == EncodePacked(f, items, 0).out;
    }
  }

  /** Other elements have a record each, like required fields. */
  lemma {:induction false} ArrayIsSingleRecords(f: Field, items: seq<Value>)
    requires WfField(f) && !IsNumber(f.ltype) && forall j :: 0 <= j < |items| ==> ValidValue(f, items[j])
    ensures items == [] ==> EncodeArray(f, items) == NOTHING
    ensures items != [] ==> (EncodeArray(f, items).ok <==> |items| <= f.arraySize)
    ensures 0 < |items| <= f.arraySize ==>
              EncodeArray(f, items).out == EncodeField(f.(htype := Required, atype := Static), Single(items[0])).out +
                                           EncodeArray(f, items[1..]).out
  {
    if 0 < |items| <= f.arraySize {
      ElementsEncode(f, items, 0);
      ElementsCons(f, items, 0);
      ElementsOfTail(f, items, 1);
      RequiredElement(f, items[0]);
      var key, body, more := EncodeTag(WireType(f.ltype), f.tag), EncodeValue(f, items[0]).out, EncodeArray(f, items[1..]).out;
      assert more == EncodeElements(f, items, 1).out;
    }
  }

  lemma {:induction false} RequiredElement(f: Field, v: Value)
    requires !f.ltype.Extension?
    ensures EncodeField(f.(htype := Required, atype := Static), Single(v)) == Then(TagForField(f), EncodeValue(f, v))
  {
  }

  lemma {:induction false} ElementsOfTail(f: Field, items: seq<Value>, i: nat)
    requires 1 <= i <= |items|
    ensures EncodeElements(f, items, i) == EncodeElements(f, items[1..], i - 1)
    decreases |items| - i
  {
    if i < |items| { ElementsOfTail(f, items, i + 1); }
  }

  /** A callback that writes chunks decides about success itself. */
  lemma {:induction false} CallbackDecides(f: Field, chunks: seq<seq<byte>>, ok: bool, sink: Sink)
    requires f.atype.Callback?
    ensures EncodeField(f, Hook(Writes(chunks, ok), sink)) == Emit(ok, Flatten(chunks))
    ensures EncodeField(f, Hook(NoEncoder, sink)) == Emit(true, [])
  {
  }

  /** Chunks of a callback are written one after the other. */
  lemma {:induction false} ChunksInOrder(a: seq<seq<byte>>, b: seq<seq<byte>>)
    ensures Flatten(a + b) == Flatten(a) + Flatten(b) && (|a| == 1 ==> Flatten(a) == a[0])
    decreases |a|
  {
    if a == [] {
      assert a + b == b && [] + Flatten(b) == Flatten(b);
    } else {
      assert (a + b)[1..] == a[1..] + b;
      ChunksInOrder(a[1..], b);
      assert a[0] + (Flatten(a[1..]) + Flatten(b)) == a[0] + Flatten(a[1..]) + Flatten(b);
      if |a| == 1 { assert a[0] + [] == a[0]; }
    }
  }
}
