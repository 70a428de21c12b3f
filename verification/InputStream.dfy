/** pb_istream_t on a memory buffer, and the readers that work on it in place (pb_decode.c). */
module InputStream {
  import opened Wire
  import opened Varint
  import opened Decoder
  import NumberLaws
  import opened Bits

  class IStream {
    /** The caller's buffer, never written. */
    const buf: seq<byte>
    var state: nat
    var bytesLeft: nat

    ghost predicate Valid()
      reads this
    {
      state + bytesLeft <= |buf|
    }

    /** The stream as a value. */
    ghost function View(): (i: Input)
      reads this
      requires Valid()
      ensures i.left == bytesLeft && |i.data| == |buf| - state
    {
      Cursor(buf[state..], bytesLeft)
    }

    /** pb_istream_from_buffer, and the copy `*substream = *stream`. */
    constructor (source: seq<byte>, at: nat, size: nat)
      requires at + size <= |source|
      ensures Valid() && buf == source && state == at && bytesLeft == size
    {
      buf, state, bytesLeft := source, at, size;
    }

    /** Position plus count is the limit of the stream, and reading does not move it. */
    ghost function Limit(): nat
      reads this
    {
      state + bytesLeft
    }

    /** pb_read with a destination: buf_read copies byte by byte. */
    method Read(count: nat) returns (ok: bool, out: seq<byte>)
      requires Valid()
      modifies this
      ensures Valid()
      ensures ok == Wire.Read(old(View()), count).Ok?
      ensures ok ==> Ok(out, View()) == Wire.Read(old(View()), count)
      ensures !ok ==> View() == old(View())
      ensures Limit() == old(Limit())
    {
      out := [];
      if bytesLeft < count {
        return false, out;
      }
      var source := state;
      state := state + count;
      var dest := new byte[count];
      var n := 0;
      while n < count
        invariant 0 <= n <= count && state == old(state) + count && bytesLeft == old(bytesLeft)
        invariant dest[..n] == buf[source..source + n]
      {
        dest[n] := buf[source + n];
        n := n + 1;
      }
      bytesLeft := bytesLeft - count;
      out := dest[..];
      assert out == dest[..count] == buf[source..source + count];
      assert out == buf[old(state)..][..count];
      assert buf[state..] == buf[old(state)..][count..];
      ok := true;
    }

    /** pb_read without a destination. */
    method ReadNothing(count: nat) returns (ok: bool)
      requires Valid()
      modifies this
      ensures Valid()
      ensures ok == SkipBytes(old(View()), count).Ok?
      ensures ok ==> Ok((), View()) == SkipBytes(old(View()), count)
      ensures Limit() == old(Limit())
    {
      if bytesLeft < count {
        return false;
      }
      state := state + count;
      assert buf[state..] == buf[old(state)..][count..];
      bytesLeft := bytesLeft - count;
      ok := true;
    }

    /** pb_readbyte */
    method ReadByte() returns (ok: bool, b: byte)
      requires Valid()
      modifies this
      ensures Valid()
      ensures ok <==> old(bytesLeft) > 0
      ensures ok ==> b == old(View()).data[0] && View() == Skip(old(View()), 1)
      ensures ok ==> bytesLeft == old(bytesLeft) - 1
      ensures !ok ==> View() == old(View())
      ensures Limit() == old(Limit())
    {
      if bytesLeft == 0 {
        return false, 0;
      }
      b := buf[state];
      state := state + 1;
      bytesLeft := bytesLeft - 1;
      assert buf[state..] == buf[old(state)..][1..];
      ok := true;
    }

    /**
     pb_decode_varint32.  Groups are shifted into place and or-ed; bits from 32 on are lost.
     */
    method DecodeVarint32() returns (ok: bool, value: u32)
      requires Valid()
      modifies this
      ensures Valid()
      ensures ok == Varint.DecodeVarint32(old(View())).Ok?
      ensures ok ==> Ok(value, View()) == Varint.DecodeVarint32(old(View()))
      ensures !ok ==> (bytesLeft == 0 <==> old(bytesLeft) <= 5)
      ensures Limit() == old(Limit())
    {
      ghost var start := View();
      NarrowByGroups(start);
      FirstGroup(start, 5, TWO_32);
      var b;
      ok, b := ReadByte();
      if !ok {
        return false, 0;
      }
      if b < 128 {
        value := b;
      } else {
        ok, value := DecodeLongVarint32(b);
      }
    }

    /** The loop of pb_decode_varint32, behind a first byte with the continuation bit. */
    method DecodeLongVarint32(first: byte) returns (ok: bool, value: u32)
      requires Valid() && first >= 128
      modifies this
      ensures Valid()
      ensures ok == Gather(old(View()), 4, first % 128, 7, TWO_32).Ok?
      ensures ok ==> Ok(value, View()) == Gather(old(View()), 4, first % 128, 7, TWO_32)
      ensures !ok ==> (bytesLeft == 0 <==> old(bytesLeft) <= 4)
      ensures Limit() == old(Limit())
    {
      ghost var whole := Gather(View(), 4, first % 128, 7, TWO_32);
      var more: bool, b := true, first;
      var bitpos := 7;
      value := b % 128;
      ghost var n := 0;
      while b >= 128
        invariant Valid() && 0 <= n <= 4 && Limit() == old(Limit()) && bytesLeft == old(bytesLeft) - n
        invariant whole == if b >= 128 then Gather(View(), 4 - n, value, bitpos, TWO_32) else Ok(value, View())
        invariant bitpos == 7 * n + 7 && value < Shl(1, bitpos)
        decreases 4 - n, b
      {
        if bitpos >= 32 {
          return false, 0;
        }
        more, b := ReadByte();
        if !more {
          return false, 0;
        }
        value := OrGroup(value, b % 128, bitpos, 32, TWO_32);
        bitpos := bitpos + 7;
        n := n + 1;
      }
      ok := true;
    }

    /** pb_decode_varint */
    method DecodeVarint() returns (ok: bool, value: u64)
      requires Valid()
      modifies this
      ensures Valid()
      ensures ok == Varint.DecodeVarint(old(View())).Ok?
      ensures ok ==> Ok(value, View()) == Varint.DecodeVarint(old(View()))
      ensures Limit() == old(Limit())
    {
      ghost var start := View();
      ghost var whole := Varint.DecodeVarint(start);
      WideByGroups(start);
      var more: bool, b: byte := false, 128;
      var bitpos := 0;
      value := 0;
      ghost var n := 0;
      while b >= 128
        invariant Valid() && 0 <= n <= 10 && Limit() == old(Limit()) && bytesLeft == old(bytesLeft) - n
        invariant whole ==
                  if b >= 128 then Gather(View(), 10 - n, value, bitpos, TWO_64) else Ok(value, View())
        invariant bitpos == 7 * n && value < Shl(1, bitpos)
        decreases 10 - n, b
      {
        if bitpos >= 64 {
          return false, 0;
        }
        more, b := ReadByte();
        if !more {
          return false, 0;
        }
        value := OrGroup(value, b % 128, bitpos, 64, TWO_64);
        bitpos := bitpos + 7;
        n := n + 1;
      }
      ok := true;
    }

    /** pb_decode_tag */
    method DecodeTag() returns (ok: bool, wireType: nat, tag: nat, eof: bool)
      requires Valid()
      modifies this
      ensures Valid() && Limit() == old(Limit())
      ensures match Decoder.DecodeTag(old(View()))
              case Eof(rest) => !ok && eof && View() == rest
              case BadTag => !ok && !eof
              case Tag(w, n, rest) => ok && !eof && wireType == w && tag == n && View() == rest
    {
      var key;
      eof, wireType, tag := false, 0, 0;
      ok, key := DecodeVarint32();
      if !ok {
        if bytesLeft == 0 {
          eof := true;
          assert buf[state..] == buf[old(state)..][old(bytesLeft)..];
        }
        return;
      }
      if key == 0 {
        eof := true;
        ok := false;
        return;
      }
      tag, wireType := key / 8, key % 8;
    }

    /** pb_skip_varint */
    method SkipVarint() returns (ok: bool)
      requires Valid()
      modifies this
      ensures Valid() && Limit() == old(Limit())
      ensures ok == Decoder.SkipVarint(old(View())).Ok?
      ensures ok ==> Ok((), View()) == Decoder.SkipVarint(old(View()))
    {
      ghost var whole := Decoder.SkipVarint(View());
      var b: byte := 128;
      while b >= 128
        invariant Valid() && Limit() == old(Limit())
        invariant whole == if b >= 128 then Decoder.SkipVarint(View()) else Ok((), View())
        decreases bytesLeft, b
      {
        ok, b := ReadByte();
        if !ok {
          return;
        }
      }
      ok := true;
    }

    /** pb_skip_string */
    method SkipString() returns (ok: bool)
      requires Valid()
      modifies this
      ensures Valid() && Limit() == old(Limit())
      ensures ok == Decoder.SkipField(old(View()), 2).Ok?
      ensures ok ==> Ok((), View()) == Decoder.SkipField(old(View()), 2)
    {
      var length;
      ok, length := DecodeVarint32();
      if !ok {
        return;
      }
      ok := ReadNothing(length);
    }

    /** pb_skip_field */
    method SkipField(wireType: nat) returns (ok: bool)
      requires Valid()
      modifies this
      ensures Valid() && Limit() == old(Limit())
      ensures ok == Decoder.SkipField(old(View()), wireType).Ok?
      ensures ok ==> Ok((), View()) == Decoder.SkipField(old(View()), wireType)
    {
      match wireType {
        case 0 => ok := SkipVarint();
        case 1 => ok := ReadNothing(8);
        case 2 => ok := SkipString();
        case 5 => ok := ReadNothing(4);
        case _ => ok := false;
      }
    }

    /** read_raw_value into a buffer of ten bytes: the varint case. */
    method ReadRawVarint() returns (ok: bool, out: seq<byte>)
      requires Valid()
      modifies this
      ensures Valid() && Limit() == old(Limit())
      ensures ok == RawVarint(old(View()), 10).Ok?
      ensures ok ==> Ok(out, View()) == RawVarint(old(View()), 10)
    {
      ghost var whole := RawVarint(View(), 10);
      var buffer := new byte[10];
      var size, b: byte := 0, 128;
      ghost var done: seq<byte> := [];
      PrependNothing(whole);
      while b >= 128
        invariant Valid() && Limit() == old(Limit()) && size == |done| <= 10 && done == buffer[..size]
        invariant whole == RawSoFar(done, View(), b)
        decreases 10 - size, b
      {
        RawStep(done, View());
        if size + 1 > 10 {
          return false, [];
        }
        ok, b := ReadByte();
        if !ok {
          return false, [];
        }
        buffer[size] := b;
        size := size + 1;
        done := done + [b];
      }
      ok, out := true, buffer[..size];
    }

    /** read_raw_value: scalars only, a string has its own substream. */
    method ReadRawValue(wireType: nat) returns (ok: bool, out: seq<byte>)
      requires Valid() && wireType != 2
      modifies this
      ensures Valid() && Limit() == old(Limit())
      ensures ok == Offered(old(View()), wireType).Ok?
      ensures ok ==> Ok(out, View()) == Offered(old(View()), wireType)
    {
      match wireType {
        case 0 => ok, out := ReadRawVarint();
        case 1 => ok, out := Read(8);
        case 5 => ok, out := Read(4);
        case _ => ok, out := false, [];
      }
    }

    /**
     pb_make_string_substream: the substream takes over the read pointer, and the parent
     gives up the bytes at once.
     */
    method MakeSubstream() returns (ok: bool, sub: IStream)
      requires Valid()
      modifies this
      ensures Valid() && sub.Valid() && sub.buf == buf && fresh(sub)
      ensures ok <==> Varint.DecodeVarint32(old(View())).Ok? &&
                      Varint.DecodeVarint32(old(View())).value <= Varint.DecodeVarint32(old(View())).rest.left
      ensures ok ==> var Ok(size, rest) := Varint.DecodeVarint32(old(View()));
                     sub.View() == Cursor(rest.data, size) && View() == Cursor(rest.data, rest.left - size)
    {
      var size;
      sub := new IStream(buf, state, bytesLeft);
      ok, size := DecodeVarint32();
      if !ok {
        return;
      }
      if bytesLeft < size {
        return false, sub;
      }
      sub := new IStream(buf, state, size);
      bytesLeft := bytesLeft - size;
    }

    /** pb_close_string_substream: only the read pointer comes back. */
    method CloseSubstream(sub: IStream)
      requires sub.Valid() && sub.buf == buf && sub.state + bytesLeft <= |buf|
      modifies this
      ensures Valid() && View() == Cursor(sub.View().data, old(bytesLeft))
    {
      state := sub.state;
    }
  }

  function Prepend(a: seq<byte>, r: Result<seq<byte>>): Result<seq<byte>> {
    match r
    case Fail => Fail
    case Ok(b, rest) => Ok(a + b, rest)
  }

  lemma {:induction false} PrependNothing(r: Result<seq<byte>>)
    ensures Prepend([], r) == r
  {
    if r.Ok? { assert [] + r.value == r.value; }
  }

  /** The result of read_raw_value when `done` has been read and `b` was the last byte. */
  ghost function RawSoFar(done: seq<byte>, i: Input, b: byte): Result<seq<byte>> {
    if |done| > 10 then Fail
    else if b >= 128 then Prepend(done, RawVarint(i, 10 - |done|)) else Ok(done, i)
  }

  lemma {:induction false} RawStep(done: seq<byte>, i: Input)
    requires |done| <= 10
    ensures RawSoFar(done, i, 128) ==
            if |done| == 10 || i.left == 0 then Fail else RawSoFar(done + [i.data[0]], Skip(i, 1), i.data[0])
    ensures forall b: byte :: b >= 128 ==> RawSoFar(done, i, b) == RawSoFar(done, i, 128)
  {
    if |done| < 10 && i.left > 0 && i.data[0] >= 128 {
      var r := RawVarint(Skip(i, 1), 10 - |done| - 1);
      if r.Ok? { assert done + ([i.data[0]] + r.value) == done + [i.data[0]] + r.value; }
    }
  }

  /** result + (g << bitpos) in an unsigned type of this modulus. */
  function AddGroup(value: nat, g: nat, bitpos: nat, modulus: nat): (r: nat)
    requires modulus > 0
    ensures r < modulus
  {
    (value + Shl(g, bitpos)) % modulus
  }

  /** result |= g << bitpos, which is an addition, because `value` has no bit from bitpos on. */
  method OrGroup(value: nat, g: nat, bitpos: nat, ghost width: nat, modulus: nat) returns (r: nat)
    requires modulus > 0 && modulus == Modulus(width)
    requires bitpos <= width && value < Shl(1, bitpos) && g < 128
    ensures r == AddGroup(value, g, bitpos, modulus) && r < Shl(1, bitpos + 7)
  {
    r := Or(value, Shl(g, bitpos) % modulus);
    assert r == AddGroup(value, g, bitpos, modulus) by {
      Widths(width);
      OrIsAdd(value, g, bitpos, width, modulus);
    }
    SevenMore(value, g, bitpos);
    AtMost(value + Shl(g, bitpos), modulus);
  }

  ghost function Modulus(width: nat): nat {
    if width == 32 then TWO_32 else if width == 64 then TWO_64 else 0
  }

  lemma {:induction false} AtMost(x: nat, m: nat)
    requires m > 0
    ensures x % m <= x
  {
  }

  /** The decoding loops: groups are added from the lowest up. */
  function Gather(i: Input, groups: nat, value: nat, bitpos: nat, modulus: nat): Result<nat>
    requires modulus > 0
    decreases i.left
  {
    if groups == 0 || i.left == 0 then Fail
    else
      var b := i.data[0];
      var value' := AddGroup(value, b % 128, bitpos, modulus);
      if b < 128 then Ok(value', Skip(i, 1))
      else Gather(Skip(i, 1), groups - 1, value', bitpos + 7, modulus)
  }

  lemma {:induction false} FirstGroup(i: Input, groups: nat, modulus: nat)
    requires groups > 0 && modulus >= 128
    ensures i.left > 0 ==>
            var b := i.data[0];
            Gather(i, groups, 0, 0, modulus) ==
            if b < 128 then Ok(b % 128, Skip(i, 1)) else Gather(Skip(i, 1), groups - 1, b % 128, 7, modulus)
  {
    if i.left > 0 { ModSmall(i.data[0] % 128, modulus); }
  }

  /** The same loop in unbounded numbers. */
  function GatherAll(i: Input, groups: nat, sum: nat, bitpos: nat): Result<nat>
    decreases i.left
  {
    if groups == 0 || i.left == 0 then Fail
    else
      var b := i.data[0];
      var sum' := sum + Shl(b % 128, bitpos);
      if b < 128 then Ok(sum', Skip(i, 1)) else GatherAll(Skip(i, 1), groups - 1, sum', bitpos + 7)
  }

  /** Adding from the lowest up gives the number that the groups make from the top down. */
  lemma {:induction false} GatherIsRead(i: Input, groups: nat, sum: nat, bitpos: nat)
    ensures GatherAll(i, groups, sum, bitpos) ==
            match ReadVarint(i, groups)
            case Fail => Fail
            case Ok(v, rest) => Ok(sum + Shl(v, bitpos), rest)
    decreases i.left
  {
    if groups > 0 && i.left > 0 && i.data[0] >= 128 {
      var g := i.data[0] % 128;
      GatherIsRead(Skip(i, 1), groups - 1, sum + Shl(g, bitpos), bitpos + 7);
      var r := ReadVarint(Skip(i, 1), groups - 1);
      if r.Ok? { ShlJoin(g, r.value, bitpos); }
    }
  }

  /** Losing the high bits on the way is losing them at the end. */
  lemma {:induction false} GatherIsCut(i: Input, groups: nat, sum: nat, value: nat, bitpos: nat, modulus: nat)
    requires modulus > 0 && value == sum % modulus
    ensures Gather(i, groups, value, bitpos, modulus) ==
            match GatherAll(i, groups, sum, bitpos)
            case Fail => Fail
            case Ok(v, rest) => Ok(v % modulus, rest)
    decreases i.left
  {
    if groups > 0 && i.left > 0 {
      var g := i.data[0] % 128;
      AddIsCut(sum, g, bitpos, modulus);
      if i.data[0] >= 128 {
        GatherIsCut(Skip(i, 1), groups - 1, sum + Shl(g, bitpos), AddGroup(value, g, bitpos, modulus), bitpos + 7, modulus);
      }
    }
  }

  lemma {:induction false} AddIsCut(sum: nat, g: nat, bitpos: nat, modulus: nat)
    requires modulus > 0
    ensures AddGroup(sum % modulus, g, bitpos, modulus) == (sum + Shl(g, bitpos)) % modulus
  {
    NumberLaws.AddModulo(sum, Shl(g, bitpos), modulus);
  }

  lemma {:induction false} NarrowByGroups(i: Input)
    ensures Varint.DecodeVarint32(i) == Gather(i, 5, 0, 0, TWO_32)
  {
    GatherIsRead(i, 5, 0, 0);
    GatherIsCut(i, 5, 0, 0, 0, TWO_32);
  }

  lemma {:induction false} WideByGroups(i: Input)
    ensures Varint.DecodeVarint(i) == Gather(i, 10, 0, 0, TWO_64)
  {
    GatherIsRead(i, 10, 0, 0);
    GatherIsCut(i, 10, 0, 0, 0, TWO_64);
  }
}
