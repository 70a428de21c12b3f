/**
 Bytes, and the two faces of an input stream.

 A `pb_istream_t` over a buffer is a pointer into the buffer (`state`) and a count of
 bytes that may still be read (`bytes_left`).  `Cursor` is exactly that pair: `data`
 is everything from the pointer to the end of the underlying buffer, `left` the count.
 The two need not end together: see `Lag`.
 */
module Wire {
  type byte = b: int | 0 <= b < 256

  const TWO_7: int := 0x80
  const TWO_8: int := 0x100
  const TWO_16: int := 0x1_0000
  const TWO_32: int := 0x1_0000_0000
  const TWO_64: int := 0x1_0000_0000_0000_0000

  type u32 = n: int | 0 <= n < TWO_32
  type u64 = n: int | 0 <= n < TWO_64

  datatype Option<+T> = None | Some(value: T)

  datatype Cursor = Cursor(data: seq<byte>, left: nat)

  type Input = c: Cursor | c.left <= |c.data| witness Cursor([], 0)

  /** Bytes of the buffer that lie behind the end of this stream. */
  function Lag(i: Input): nat { |i.data| - i.left }

  /** A stream over exactly the bytes of `s`. */
  function All(s: seq<byte>): (i: Input) { Cursor(s, |s|) }

  function Skip(i: Input, n: nat): (r: Input)
    requires n <= i.left
  {
    Cursor(i.data[n..], i.left - n)
  }

  /** The same stream when the buffer goes on with `b` and `k` more bytes may be read. */
  function Extend(i: Input, b: seq<byte>, k: nat): (r: Input)
    requires i.left + k <= |i.data| + |b|
  {
    Cursor(i.data + b, i.left + k)
  }

  /** A stream that starts with `out`; of the `tail` behind it n bytes may be read. */
  function Before(out: seq<byte>, tail: seq<byte>, n: nat): (i: Input)
    requires n <= |tail|
  {
    Cursor(out + tail, |out| + n)
  }

  /** What a reader returns: failure, or a value and the stream behind it. */
  datatype Result<+T> = Fail | Ok(value: T, rest: Input)

  /** pb_read on a buffer stream. */
  function Read(i: Input, n: nat): (r: Result<seq<byte>>)
    ensures r.Ok? ==> |r.value| == n && r.rest.left + n == i.left && Lag(r.rest) == Lag(i)
  {
    if i.left < n then Fail else Ok(i.data[..n], Skip(i, n))
  }

  lemma {:induction false} ReadFrame(i: Input, n: nat, b: seq<byte>, k: nat)
    requires i.left + k <= |i.data| + |b|
    requires Read(i, n).Ok?
    ensures Read(Extend(i, b, k), n) ==
            Ok(Read(i, n).value, Extend(Read(i, n).rest, b, k))
  {
    assert (i.data + b)[..n] == i.data[..n];
    assert (i.data + b)[n..] == i.data[n..] + b;
  }

  lemma {:induction false} ReadAppend(s: seq<byte>, tail: seq<byte>, k: nat)
    requires k <= |tail|
    ensures Read(Cursor(s + tail, |s| + k), |s|) == Ok(s, Cursor(tail, k))
  {
    assert (s + tail)[..|s|] == s;
    assert (s + tail)[|s|..] == tail;
  }
}
