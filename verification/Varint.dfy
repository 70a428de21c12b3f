/** Base 128 varints: pb_encode_varint, pb_decode_varint and pb_decode_varint32. */
module Varint {
  import opened Wire

  /** The bytes pb_encode_varint writes: seven bits at a time, lowest first. */
  function EncodeVarint(v: nat): (s: seq<byte>)
    ensures |s| >= 1
  {
    if v < 128 then [v] else [v % 128 + 128] + EncodeVarint(v / 128)
  }

  /** Reads at most `groups` bytes of a varint; the value is not yet cut to a width. */
  function ReadVarint(i: Input, groups: nat): (r: Result<nat>)
    ensures r.Ok? ==> r.rest.left < i.left && Lag(r.rest) == Lag(i)
    decreases i.left
  {
    if groups == 0 || i.left == 0 then Fail
    else
      var b := i.data[0];
      if b < 128 then Ok(b, Skip(i, 1))
      else
        match ReadVarint(Skip(i, 1), groups - 1)
        case Fail => Fail
        case Ok(v, rest) => Ok(b - 128 + 128 * v, rest)
  }

  /** pb_decode_varint: ten groups, bits above the 64th are shifted out. */
  function DecodeVarint(i: Input): (r: Result<u64>)
    ensures r.Ok? ==> r.rest.left < i.left && Lag(r.rest) == Lag(i)
  {
    match ReadVarint(i, 10)
    case Fail => Fail
    case Ok(v, rest) => Ok(v % TWO_64, rest)
  }

  /** pb_decode_varint32: five groups, bits above the 32nd are shifted out. */
  function DecodeVarint32(i: Input): (r: Result<u32>)
    ensures r.Ok? ==> r.rest.left < i.left && Lag(r.rest) == Lag(i)
  {
    match ReadVarint(i, 5)
    case Fail => Fail
    case Ok(v, rest) => Ok(v % TWO_32, rest)
  }

  function Pow128(n: nat): (p: nat)
    ensures p >= 1
  {
    if n == 0 then 1 else 128 * Pow128(n - 1)
  }

  /** g << k, without a width */
  function Shl(g: nat, k: nat): nat { if k == 0 then g else 2 * Shl(g, k - 1) }

  /** Seven bits and the rest above them. */
  lemma {:induction false} ShlJoin(g: nat, v: nat, k: nat)
    ensures Shl(g, k) + Shl(v, k + 7) == Shl(g + 128 * v, k)
  {
    if k == 0 {
      assert Shl(v, 7) == 2 * Shl(v, 6);
      assert Shl(v, 6) == 2 * Shl(v, 5);
      assert Shl(v, 5) == 2 * Shl(v, 4);
      assert Shl(v, 4) == 2 * Shl(v, 3);
      assert Shl(v, 3) == 2 * Shl(v, 2);
      assert Shl(v, 2) == 2 * Shl(v, 1);
    } else {
      ShlJoin(g, v, k - 1);
    }
  }

  /** A varint takes at most n bytes exactly when its value has at most 7n bits. */
  lemma {:induction false} EncodedLength(v: nat, n: nat)
    requires n >= 1
    ensures |EncodeVarint(v)| <= n <==> v < Pow128(n)
    decreases n
  {
    if n == 1 {
      assert Pow128(1) == 128 * Pow128(0);
    } else if v >= 128 {
      EncodedLength(v / 128, n - 1);
    }
  }

  lemma {:induction false} WidthLengths(v: nat)
    ensures v < TWO_32 ==> |EncodeVarint(v)| <= 5
    ensures v < TWO_64 ==> |EncodeVarint(v)| <= 10
  {
    EncodedLength(v, 5);
    EncodedLength(v, 10);
    Powers();
  }

  lemma {:induction false} Powers()
    ensures Pow128(5) >= TWO_32 && Pow128(10) >= TWO_64
  {
    assert Pow128(5) == 34359738368;
    assert Pow128(10) == 128 * 128 * 128 * 128 * 128 * Pow128(5);
  }

  /** Reading undoes writing, whatever follows. */
  lemma {:induction false} ReadWritten(v: nat, tail: seq<byte>, k: nat, groups: nat)
    requires k <= |tail|
    requires |EncodeVarint(v)| <= groups
    ensures ReadVarint(Cursor(EncodeVarint(v) + tail, |EncodeVarint(v)| + k), groups) == Ok(v, Cursor(tail, k))
    decreases v
  {
    var i := Cursor(EncodeVarint(v) + tail, |EncodeVarint(v)| + k);
    if v < 128 {
      assert i.data[1..] == tail;
    } else {
      assert i.data[1..] == EncodeVarint(v / 128) + tail;
      ReadWritten(v / 128, tail, k, groups - 1);
    }
  }

  lemma {:induction false} VarintRoundTrip(v: u64, tail: seq<byte>, k: nat)
    requires k <= |tail|
    ensures DecodeVarint(Cursor(EncodeVarint(v) + tail, |EncodeVarint(v)| + k)) == Ok(v, Cursor(tail, k))
  {
    assert |EncodeVarint(v)| <= 10 by { WidthLengths(v); }
    ReadWritten(v, tail, k, 10);
    ModSmall(v, TWO_64);
  }

  lemma {:induction false} ModSmall(v: nat, m: nat)
    requires v < m
    ensures v % m == v
  {
  }

  lemma {:induction false} Varint32RoundTrip(v: u32, tail: seq<byte>, k: nat)
    requires k <= |tail|
    ensures DecodeVarint32(Cursor(EncodeVarint(v) + tail, |EncodeVarint(v)| + k)) == Ok(v, Cursor(tail, k))
  {
    assert |EncodeVarint(v)| <= 5 by { WidthLengths(v); }
    ReadWritten(v, tail, k, 5);
    ModSmall(v, TWO_32);
  }

  /** No byte string that reads as v is shorter than the one the encoder writes. */
  lemma {:induction false} EncodingIsMinimal(i: Input, groups: nat)
    requires ReadVarint(i, groups).Ok?
    ensures var r := ReadVarint(i, groups);
            |EncodeVarint(r.value)| <= i.left - r.rest.left <= groups
    decreases groups
  {
    if i.data[0] >= 128 {
      EncodingIsMinimal(Skip(i, 1), groups - 1);
    }
  }

  lemma {:induction false} MoreGroups(i: Input, groups: nat, more: nat)
    requires groups <= more && ReadVarint(i, groups).Ok?
    ensures ReadVarint(i, more) == ReadVarint(i, groups)
    decreases groups
  {
    if i.data[0] >= 128 {
      MoreGroups(Skip(i, 1), groups - 1, more - 1);
    }
  }

  /** Whatever the 32-bit decoder accepts, the 64-bit decoder accepts with the same low half. */
  lemma {:induction false} NarrowAgreesWithWide(i: Input)
    requires DecodeVarint32(i).Ok?
    ensures DecodeVarint(i).Ok?
    ensures DecodeVarint(i).rest == DecodeVarint32(i).rest
    ensures DecodeVarint(i).value % TWO_32 == DecodeVarint32(i).value
  {
    MoreGroups(i, 5, 10);
    var v := ReadVarint(i, 5).value;
    ModMod(v);
  }

  lemma {:induction false} ModMod(v: nat)
    ensures (v % TWO_64) % TWO_32 == v % TWO_32
  {
    assert v == v / TWO_64 * TWO_64 + v % TWO_64;
    assert TWO_64 == TWO_32 * TWO_32;
    var q := v / TWO_64 * TWO_32;
    assert v == q * TWO_32 + v % TWO_64;
    AddMultiple(v % TWO_64, q);
  }

  lemma {:induction false} AddMultiple(x: nat, q: nat)
    ensures (q * TWO_32 + x) % TWO_32 == x % TWO_32
    decreases q
  {
    if q > 0 {
      AddMultiple(x, q - 1);
      assert q * TWO_32 + x == (q - 1) * TWO_32 + x + TWO_32;
    }
  }

  /** Reading fails only on a run of continuation bytes that is too long or hits the end. */
  lemma {:induction false} FailureIsAllContinuation(i: Input, groups: nat)
    ensures ReadVarint(i, groups).Fail? <==>
            (forall j :: 0 <= j < groups && j < i.left ==> i.data[j] >= 128)
    decreases groups
  {
    if groups > 0 && i.left > 0 && i.data[0] >= 128 {
      var r := Skip(i, 1);
      FailureIsAllContinuation(r, groups - 1);
      if ReadVarint(i, groups).Fail? {
        forall j | 0 <= j < groups && j < i.left ensures i.data[j] >= 128 {
          if j > 0 { assert r.data[j - 1] == i.data[j]; }
        }
      } else {
        var j :| 0 <= j < groups - 1 && j < r.left && r.data[j] < 128;
        assert i.data[j + 1] < 128;
      }
    }
  }

  /** A varint may have ten bytes, and five where 32 bits are wanted. */
  lemma {:induction false} TenBytesOrFive(i: Input)
    ensures DecodeVarint(i).Fail? <==> forall j :: 0 <= j < 10 && j < i.left ==> i.data[j] >= 128
    ensures DecodeVarint32(i).Fail? <==> forall j :: 0 <= j < 5 && j < i.left ==> i.data[j] >= 128
  {
    FailureIsAllContinuation(i, 10);
    FailureIsAllContinuation(i, 5);
  }

  lemma {:induction false} ReadVarintFrame(i: Input, groups: nat, b: seq<byte>, k: nat)
    requires i.left + k <= |i.data| + |b|
    requires ReadVarint(i, groups).Ok?
    ensures ReadVarint(Extend(i, b, k), groups) ==
            Ok(ReadVarint(i, groups).value, Extend(ReadVarint(i, groups).rest, b, k))
    decreases groups
  {
    assert Skip(Extend(i, b, k), 1) == Extend(Skip(i, 1), b, k) by {
      assert (i.data + b)[1..] == i.data[1..] + b;
    }
    if i.data[0] >= 128 {
      ReadVarintFrame(Skip(i, 1), groups - 1, b, k);
    }
  }
}
