/** pb_ostream_t: a memory buffer of limited size, or a stream that only counts (pb_encode.c). */
module OutputStream {
  import opened Wire
  import opened Varint
  import opened Encoder
  import Scalars

  /** An output stream and the buffer it shares with its parent and its substreams. */
  datatype OState = OState(data: seq<byte>, state: nat, max: nat, written: nat, sizing: bool)

  /** What `data` becomes when `s` is written at `at`. */
  function Spliced(data: seq<byte>, at: nat, s: seq<byte>): (r: seq<byte>)
    requires at + |s| <= |data|
    ensures |r| == |data|
  {
    data[..at] + s + data[at + |s|..]
  }

  predicate Fits(s: OState, out: seq<byte>) {
    s.sizing || s.written + |out| <= s.max
  }

  /**
   From s0 to s1 an encoder has written what it would write to a stream without limit, as
   far as there is room: all of it if it fits, and otherwise some prefix that does.  It
   reports success exactly when everything fits and nothing else is wrong.  A sizing stream
   counts and writes nothing; nothing in the buffer outside the bytes written changes.
   */
  ghost predicate Extends(s0: OState, s1: OState, e: Emit, ok: bool) {
    var n := s1.written - s0.written;
    && 0 <= n <= |e.out|
    && (Fits(s0, e.out) ==> n == |e.out|)
    && (ok <==> e.ok && Fits(s0, e.out))
    && s1.sizing == s0.sizing && s1.max == s0.max
    && (if s0.sizing then s1.data == s0.data && s1.state == s0.state
        else
          && s1.written <= s1.max && s1.state == s0.state + n && s1.state <= |s0.data|
          && s1.data == Spliced(s0.data, s0.state, e.out[..n]))
  }

  lemma {:induction false} Unchanged(s: OState, ok: bool)
    requires !s.sizing ==> s.written <= s.max && s.state <= |s.data|
    ensures Extends(s, s, Emit(ok, []), ok)
  {
    if !s.sizing { assert s.data == Spliced(s.data, s.state, []); }
  }

  lemma {:induction false} SpliceTwice(data: seq<byte>, at: nat, a: seq<byte>, b: seq<byte>)
    requires at + |a| + |b| <= |data|
    ensures Spliced(Spliced(data, at, a), at + |a|, b) == Spliced(data, at, a + b)
  {
  }

  /** Encoders that run one after the other. */
  lemma {:induction false} Continue(s0: OState, s1: OState, s2: OState, a: Emit, b: Emit, ok: bool)
    requires Extends(s0, s1, a, true) && Extends(s1, s2, b, ok)
    ensures Extends(s0, s2, Then(a, b), ok)
  {
    if !s0.sizing {
      var n := s2.written - s1.written;
      ContinueData(s0, s1, s2, a.out, b.out[..n]);
      assert (a.out + b.out)[..|a.out| + n] == a.out + b.out[..n];
    }
  }

  lemma {:induction false} ContinueData(s0: OState, s1: OState, s2: OState, a: seq<byte>, b: seq<byte>)
    requires s0.state + |a| + |b| <= |s0.data| == |s1.data| && s1.state == s0.state + |a|
    requires s1.data == Spliced(s0.data, s0.state, a[..|a|]) && s2.data == Spliced(s1.data, s1.state, b)
    ensures s2.data == Spliced(s0.data, s0.state, a + b)
  {
    assert a[..|a|] == a;
    SpliceTwice(s0.data, s0.state, a, b);
  }

  lemma {:induction false} ThreeParts(s: seq<byte>, a: nat, b: nat)
    requires a <= b <= |s|
    ensures s == s[..a] + s[a..b] + s[b..]
  {
  }

  /** The first failure is the last thing that happens. */
  lemma {:induction false} Stop(s0: OState, s1: OState, a: Emit, b: Emit)
    requires Extends(s0, s1, a, false)
    ensures Extends(s0, s1, Then(a, b), false)
  {
    var n := s1.written - s0.written;
    if a.ok { assert (a.out + b.out)[..n] == a.out[..n]; }
  }

  lemma {:induction false} ThenAssociates(a: Emit, b: Emit, c: Emit)
    ensures Then(Then(a, b), c) == Then(a, Then(b, c))
    ensures Then(a, NOTHING) == a && Then(NOTHING, a) == a
  {
    assert a.out + [] == a.out && [] + a.out == a.out;
    if a.ok && b.ok { assert (a.out + b.out) + c.out == a.out + (b.out + c.out); }
  }

  /** One round of a loop of encoders: `done` before it, `item` in it, `rest` behind it. */
  lemma {:induction false} Advance(s0: OState, s1: OState, s2: OState, done: Emit, item: Emit, rest: Emit, ok: bool)
    requires Extends(s0, s1, done, true) && Extends(s1, s2, item, ok)
    ensures Extends(s0, s2, Then(done, item), ok)
    ensures Then(Then(done, item), rest) == Then(done, Then(item, rest))
    ensures !ok ==> Extends(s0, s2, Then(done, Then(item, rest)), false)
  {
    Continue(s0, s1, s2, done, item, ok);
    ThenAssociates(done, item, rest);
    if !ok { Stop(s0, s2, Then(done, item), rest); }
  }

  /**
   A sizing run tells how a writing run of the same encoder ends: it succeeds exactly when
   the size counted is within the room left, and then it writes that many bytes.  In any
   case what it writes is a beginning of the ideal encoding, and nothing else changes.
   */
  lemma {:induction false} SizingPredictsWriting(
    z0: OState, z1: OState, s0: OState, s1: OState, e: Emit, sized: bool, ok: bool)
    requires z0.sizing && Extends(z0, z1, e, sized)
    requires !s0.sizing && s0.written <= s0.max && s0.state + (s0.max - s0.written) <= |s0.data|
    requires Extends(s0, s1, e, ok)
    ensures var size := z1.written - z0.written;
            && (ok <==> sized && size <= s0.max - s0.written)
            && (ok ==> s1.written - s0.written == size)
    ensures s1.written <= s1.max
    ensures s0.state <= s1.state <= |s1.data| == |s0.data| && s1.data[s0.state..s1.state] <= e.out
    ensures s1.data[..s0.state] == s0.data[..s0.state] && s1.data[s1.state..] == s0.data[s1.state..]
  {
    var out := e.out[..s1.written - s0.written];
    assert s1.data[s0.state..s1.state] == out;
  }

  class OStream {
    const buf: array<byte>
    /** callback == NULL */
    const sizing: bool
    var state: nat
    var maxSize: nat
    var bytesWritten: nat

    ghost predicate Valid()
      reads this
    {
      sizing || (bytesWritten <= maxSize && state + (maxSize - bytesWritten) <= buf.Length)
    }

    ghost function Now(): OState
      reads this, buf
    {
      OState(buf[..], state, maxSize, bytesWritten, sizing)
    }

    /** pb_ostream_from_buffer, and the substream of pb_encode_submessage. */
    constructor (buffer: array<byte>, at: nat, size: nat)
      requires at + size <= buffer.Length
      ensures Valid() && buf == buffer && !sizing && state == at && maxSize == size && bytesWritten == 0
    {
      buf, sizing, state, maxSize, bytesWritten := buffer, false, at, size, 0;
    }

    /** PB_OSTREAM_SIZING */
    constructor Sizing()
      ensures Valid() && sizing && bytesWritten == 0 && fresh(buf)
    {
      buf, sizing, state, maxSize, bytesWritten := new byte[0], true, 0, 0, 0;
    }

    /** buf_write */
    method BufWrite(source: seq<byte>)
      requires state + |source| <= buf.Length
      modifies this`state, buf
      ensures state == old(state) + |source|
      ensures buf[..] == Spliced(old(buf[..]), old(state), source)
    {
      var dest := state;
      state := dest + |source|;
      var n := 0;
      while n < |source|
        invariant 0 <= n <= |source|
        invariant state == dest + |source| && dest == old(state)
        invariant buf[..dest] == old(buf[..dest])
        invariant buf[dest..dest + n] == source[..n]
        invariant buf[dest + n..] == old(buf[dest + n..])
      {
        ghost var rest := old(buf[dest + n..]);
        assert old(buf[dest + n + 1..]) == rest[1..];
        buf[dest + n] := source[n];
        n := n + 1;
      }
      ThreeParts(buf[..], dest, dest + n);
      assert buf[..][..dest] == buf[..dest] && buf[..][dest..dest + n] == buf[dest..dest + n];
      assert buf[..][dest + n..] == buf[dest + n..] && source[..n] == source;
    }

    /** pb_write */
    method Write(source: seq<byte>) returns (ok: bool)
      requires Valid()
      modifies this, buf
      ensures Valid()
      ensures Extends(old(Now()), Now(), Encoder.Write(source), ok)
    {
      if !sizing {
        if bytesWritten + |source| > maxSize {
          Unchanged(Now(), false);
          assert source[..0] == [];
          return false;
        }
        BufWrite(source);
      }
      bytesWritten := bytesWritten + |source|;
      assert source[..|source|] == source;
      ok := true;
    }

    /** pb_write of bytes that need not be there, because the stream only counts. */
    method Count(size: nat, ghost source: seq<byte>)
      requires Valid() && sizing && |source| == size
      modifies this
      ensures Valid()
      ensures Extends(old(Now()), Now(), Encoder.Write(source), true)
    {
      bytesWritten := bytesWritten + size;
    }

    /** pb_encode_varint */
    method EncodeVarint(value: u64) returns (ok: bool)
      requires Valid()
      modifies this, buf
      ensures Valid()
      ensures Extends(old(Now()), Now(), Encoder.Write(Varint.EncodeVarint(value)), ok)
    {
      if value <= 0x7F {
        ok := Write([value]);
      } else {
        var bytes := CollectGroups(value);
        ok := Write(bytes);
      }
    }

    /** pb_encode_svarint */
    method EncodeSvarint(value: int) returns (ok: bool)
      requires Valid() && -(TWO_64 / 2) <= value < TWO_64 / 2
      modifies this, buf
      ensures Valid()
      ensures Extends(old(Now()), Now(), Encoder.Write(Varint.EncodeVarint(Scalars.ZigZag(value) % TWO_64)), ok)
    {
      ZigZagBits(value);
      var shifted := 2 * value % TWO_64;
      var zigzagged := if value < 0 then TWO_64 - 1 - shifted else shifted;
      ok := EncodeVarint(zigzagged);
    }

    /** pb_encode_fixed32 */
    method EncodeFixed32(value: u32) returns (ok: bool)
      requires Valid()
      modifies this, buf
      ensures Valid()
      ensures Extends(old(Now()), Now(), Encoder.Write(Scalars.LittleEndian(value, 4)), ok)
    {
      var bytes := [value % 256, value / TWO_8 % 256, value / TWO_16 % 256, value / (TWO_8 * TWO_16) % 256];
      FourGroups(value);
      ok := Write(bytes);
    }

    /** pb_encode_fixed64 */
    method EncodeFixed64(value: u64) returns (ok: bool)
      requires Valid()
      modifies this, buf
      ensures Valid()
      ensures Extends(old(Now()), Now(), Encoder.Write(Scalars.LittleEndian(value, 8)), ok)
    {
      var high := value / TWO_32;
      var bytes := [value % 256, value / TWO_8 % 256, value / TWO_16 % 256, value / (TWO_8 * TWO_16) % 256] +
                   [high % 256, high / TWO_8 % 256, high / TWO_16 % 256, high / (TWO_8 * TWO_16) % 256];
      assert bytes == Scalars.LittleEndian(value, 8) by {
        EightGroups(value, 8);
        FourGroups(high);
      }
      ok := Write(bytes);
    }

    /** pb_encode_tag */
    method EncodeTag(wireType: nat, number: nat) returns (ok: bool)
      requires Valid() && wireType < 8 && number < TWO_32
      modifies this, buf
      ensures Valid()
      ensures Extends(old(Now()), Now(), Encoder.Write(Encoder.EncodeTag(wireType, number)), ok)
    {
      ok := EncodeVarint(number * 8 + wireType);
    }

    /** pb_encode_string */
    method EncodeString(bytes: seq<byte>) returns (ok: bool)
      requires Valid() && |bytes| < TWO_64
      modifies this, buf
      ensures Valid()
      ensures Extends(old(Now()), Now(), Encoder.Write(Encoder.EncodeString(bytes)), ok)
    {
      ghost var s0, length := Now(), Encoder.Write(Varint.EncodeVarint(|bytes|));
      ok := EncodeVarint(|bytes|);
      ghost var s1 := Now();
      if !ok {
        Stop(s0, s1, length, Encoder.Write(bytes));
        return;
      }
      ok := Write(bytes);
      Continue(s0, s1, Now(), length, Encoder.Write(bytes), ok);
    }
  }

  /** The groups of a number, all with the continuation bit. */
  ghost function Groups(v: nat): seq<byte> {
    if v == 0 then [] else [v % 128 + 128] + Groups(v / 128)
  }

  /** The loop of pb_encode_varint: groups are collected in a buffer of ten bytes. */
  method CollectGroups(value: u64) returns (s: seq<byte>)
    requires value > 0
    ensures s == Varint.EncodeVarint(value)
  {
    ghost var groups, done: seq<byte> := Groups(value), [];
    assert |groups| <= 10 && Varint.EncodeVarint(value) == Closed(groups) by {
      GroupsAreVarint(value);
      WidthLengths(value);
    }
    var bytes := new byte[10];
    var i, v: int := 0, value;
    while v > 0
      invariant v >= 0 && i == |done| && done + Groups(v) == groups && bytes[..i] == done
      decreases v
    {
      NextGroup(done, v);
      bytes[i] := v % 128 + 128;
      done := done + [bytes[i]];
      v := v / 128;
      i := i + 1;
    }
    bytes[i - 1] := bytes[i - 1] % 128;
    s := bytes[..i];
    assert s == Closed(done);
  }

  lemma {:induction false} NextGroup(done: seq<byte>, v: nat)
    requires v > 0
    ensures done + Groups(v) == done + [v % 128 + 128] + Groups(v / 128)
  {
  }

  /** The varint is these groups, with the top bit of the last one taken away. */
  lemma {:induction false} GroupsAreVarint(v: nat)
    requires v > 0
    ensures |Groups(v)| == |Varint.EncodeVarint(v)|
    ensures Varint.EncodeVarint(v) == Closed(Groups(v))
  {
    if v >= 128 { GroupsAreVarint(v / 128); } else { assert Groups(v / 128) == []; }
  }

  /** buffer[i - 1] &= 0x7F */
  ghost function Closed(g: seq<byte>): seq<byte>
    requires g != []
  {
    g[|g| - 1 := g[|g| - 1] % 128]
  }

  lemma {:induction false} FourGroups(v: nat)
    ensures Scalars.LittleEndian(v, 4) ==
            [v % 256, v / TWO_8 % 256, v / TWO_16 % 256, v / (TWO_8 * TWO_16) % 256]
  {
    assert Scalars.LittleEndian(v / 65536, 2) == [v / 65536 % 256, v / 16777216 % 256];
    assert Scalars.LittleEndian(v / 256, 3) == [v / 256 % 256] + Scalars.LittleEndian(v / 65536, 2);
  }

  lemma {:induction false} EightGroups(v: nat, n: nat)
    requires n >= 4
    ensures Scalars.LittleEndian(v, n) ==
            [v % 256, v / TWO_8 % 256, v / TWO_16 % 256, v / (TWO_8 * TWO_16) % 256] +
            Scalars.LittleEndian(v / TWO_32, n - 4)
  {
    ThreeDivisions(v);
    NextByte(v, n);
    NextByte(v / 256, n - 1);
    NextByte(v / 65536, n - 2);
    NextByte(v / 16777216, n - 3);
  }

  lemma {:induction false} NextByte(v: nat, n: nat)
    requires n > 0
    ensures Scalars.LittleEndian(v, n) == [v % 256] + Scalars.LittleEndian(v / 256, n - 1)
  {
  }

  lemma {:induction false} ThreeDivisions(v: nat)
    ensures v / 256 / 256 == v / 65536
    ensures v / 65536 / 256 == v / 16777216
    ensures v / 16777216 / 256 == v / TWO_32
  {
  }

  /** Shifting left and inverting is the zigzag of a negative number. */
  lemma {:induction false} ZigZagBits(value: int)
    requires -(TWO_64 / 2) <= value < TWO_64 / 2
    ensures var shifted := 2 * value % TWO_64;
            Scalars.ZigZag(value) % TWO_64 == if value < 0 then TWO_64 - 1 - shifted else shifted
  {
  }
}
