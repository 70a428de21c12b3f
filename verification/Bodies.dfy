/**
 The body of a record by its wire type, as the "Message Structure" section of the Protocol
 Buffers encoding guide describes it, and the readers that go by it.
 */
module Bodies {
  import opened Wire
  import opened Varint
  import opened Decoder

  /** A complete varint: continuation bytes and one last byte. */
  predicate IsVarint(s: seq<byte>) {
    s != [] && s[|s| - 1] < 128 && forall j :: 0 <= j < |s| - 1 ==> s[j] >= 128
  }

  /** The number a varint stands for: seven bits a byte, lowest first. */
  function Groups(s: seq<byte>): nat {
    if s == [] then 0 else s[0] % 128 + 128 * Groups(s[1..])
  }

  /** ReadVarint takes the first n bytes exactly when they are a varint of at most `groups` bytes. */
  lemma {:induction false} ReadIsVarint(i: Input, groups: nat, n: nat)
    requires 1 <= n <= i.left
    ensures ReadVarint(i, groups).Ok? && ReadVarint(i, groups).rest.left == i.left - n <==>
            n <= groups && IsVarint(i.data[..n])
    ensures n <= groups && IsVarint(i.data[..n]) ==>
            ReadVarint(i, groups) == Ok(Groups(i.data[..n]), Skip(i, n))
    decreases n
  {
    var s := i.data[..n];
    if groups > 0 && i.data[0] >= 128 {
      var r := Skip(i, 1);
      if n > 1 {
        assert r.data[..n - 1] == s[1..];
        assert Skip(r, n - 1) == Skip(i, n);
        assert IsVarint(s) <==> IsVarint(s[1..]) by {
          if IsVarint(s[1..]) {
            forall j | 0 <= j < |s| - 1 ensures s[j] >= 128 { if j > 0 { assert s[1..][j - 1] == s[j]; } }
          }
        }
        ReadIsVarint(r, groups - 1, n - 1);
      }
    } else if groups > 0 {
      assert n > 1 ==> s[0] < 128;
      assert n == 1 ==> Groups(s) == s[0] % 128 + 128 * Groups(s[1..]);
    }
  }

  /**
   What stands behind a key of this wire type: a varint of any length, eight bytes, a length
   and that many bytes, or four bytes.
   */
  predicate Body(wireType: nat, b: seq<byte>) {
    match wireType
    case 0 => IsVarint(b)
    case 1 => |b| == 8
    case 2 => exists k :: 1 <= k <= 5 && IsDelimited(b, k)
    case 5 => |b| == 4
    case _ => false
  }

  /** A length of k bytes, and that many bytes behind it. */
  predicate IsDelimited(b: seq<byte>, k: nat) {
    1 <= k <= 5 && k <= |b| && IsVarint(b[..k]) && Groups(b[..k]) % TWO_32 == |b| - k
  }

  lemma {:induction false} SkipVarintIsVarint(i: Input, n: nat)
    requires n <= i.left
    ensures SkipVarint(i) == Ok((), Skip(i, n)) <==> IsVarint(i.data[..n])
    decreases n
  {
    var s := i.data[..n];
    if n > 0 && i.data[0] >= 128 {
      var r := Skip(i, 1);
      assert r.data[..n - 1] == s[1..];
      assert Skip(r, n - 1) == Skip(i, n);
      assert n > 1 ==> (IsVarint(s) <==> IsVarint(s[1..])) by {
        if n > 1 && IsVarint(s[1..]) {
          forall j | 0 <= j < |s| - 1 ensures s[j] >= 128 { if j > 0 { assert s[1..][j - 1] == s[j]; } }
        }
      }
      SkipVarintIsVarint(r, n - 1);
    } else if n > 1 {
      assert s[0] < 128;
    }
  }

  /** DecodeVarint32 takes k bytes exactly when they are a varint of at most five bytes. */
  lemma {:induction false} Varint32IsVarint(i: Input, k: nat)
    requires 1 <= k <= i.left
    ensures DecodeVarint32(i).Ok? && DecodeVarint32(i).rest.left == i.left - k <==> k <= 5 && IsVarint(i.data[..k])
    ensures k <= 5 && IsVarint(i.data[..k]) ==> DecodeVarint32(i) == Ok(Groups(i.data[..k]) % TWO_32, Skip(i, k))
  {
    ReadIsVarint(i, 5, k);
  }

  lemma {:induction false} ReadsDelimited(i: Input, n: nat, k: nat)
    requires n <= i.left && IsDelimited(i.data[..n], k)
    ensures SkipField(i, 2) == Ok((), Skip(i, n)) && ReadDelimited(i) == Ok(i.data[k..n], Skip(i, n))
  {
    assert i.data[..n][..k] == i.data[..k];
    Varint32IsVarint(i, k);
    assert Skip(Skip(i, k), n - k) == Skip(i, n);
    assert Skip(i, k).data[..n - k] == i.data[k..n];
  }

  lemma {:induction false} DelimitedWasRead(i: Input, n: nat)
    requires n <= i.left && DecodeVarint32(i).Ok?
    requires var Ok(size, rest) := DecodeVarint32(i); size <= rest.left && rest.left - size == i.left - n
    ensures Body(2, i.data[..n])
  {
    var Ok(size, rest) := DecodeVarint32(i);
    var k := i.left - rest.left;
    Varint32IsVarint(i, k);
    assert i.data[..n][..k] == i.data[..k];
    assert IsDelimited(i.data[..n], k);
  }

  lemma {:induction false} DelimitedIsBody(i: Input, n: nat)
    requires n <= i.left
    ensures SkipField(i, 2) == Ok((), Skip(i, n)) <==> Body(2, i.data[..n])
    ensures ReadDelimited(i).Ok? && ReadDelimited(i).rest == Skip(i, n) <==> Body(2, i.data[..n])
    ensures forall k: nat :: IsDelimited(i.data[..n], k) ==> ReadDelimited(i) == Ok(i.data[k..n], Skip(i, n))
  {
    forall k: nat | IsDelimited(i.data[..n], k)
      ensures SkipField(i, 2) == Ok((), Skip(i, n)) && ReadDelimited(i) == Ok(i.data[k..n], Skip(i, n))
    {
      ReadsDelimited(i, n, k);
    }
    if DecodeVarint32(i).Ok? {
      var Ok(size, rest) := DecodeVarint32(i);
      if size <= rest.left && rest.left - size == i.left - n { DelimitedWasRead(i, n); }
    }
  }

  /** Skipping takes n bytes exactly when those are a body of this wire type. */
  lemma {:induction false} SkipIsBody(i: Input, wireType: nat, n: nat)
    requires n <= i.left
    ensures SkipField(i, wireType) == Ok((), Skip(i, n)) <==> Body(wireType, i.data[..n])
  {
    match wireType
    case 0 => SkipVarintIsVarint(i, n);
    case 1 => if 8 <= i.left { SameSkip(i, 8, n); }
    case 2 => DelimitedIsBody(i, n);
    case 5 => if 4 <= i.left { SameSkip(i, 4, n); }
    case _ =>
  }

  lemma {:induction false} SameSkip(i: Input, a: nat, n: nat)
    requires a <= i.left && n <= i.left
    ensures Skip(i, a) == Skip(i, n) <==> a == n
  {
    if Skip(i, a) == Skip(i, n) { assert i.left - a == i.left - n; }
  }

  /** It fails exactly when no beginning of the stream is one. */
  lemma {:induction false} SkipFailsWithoutBody(i: Input, wireType: nat)
    ensures SkipField(i, wireType).Ok? <==> exists n :: 0 <= n <= i.left && Body(wireType, i.data[..n])
  {
    if SkipField(i, wireType).Ok? {
      var n := i.left - SkipField(i, wireType).rest.left;
      SkipsForward(i, wireType);
      SkipIsBody(i, wireType, n);
    }
    if n :| 0 <= n <= i.left && Body(wireType, i.data[..n]) { SkipIsBody(i, wireType, n); }
  }

  lemma {:induction false} SkipsForward(i: Input, wireType: nat)
    requires SkipField(i, wireType).Ok?
    ensures SkipField(i, wireType) == Ok((), Skip(i, i.left - SkipField(i, wireType).rest.left))
  {
    match wireType
    case 0 => VarintSkipsForward(i);
    case 2 =>
      var Ok(size, rest) := DecodeVarint32(i);
      var k := i.left - rest.left;
      Varint32IsVarint(i, k);
      assert Skip(Skip(i, k), size) == Skip(i, k + size);
    case _ =>
  }

  lemma {:induction false} VarintSkipsForward(i: Input)
    requires SkipVarint(i).Ok?
    ensures SkipVarint(i) == Ok((), Skip(i, i.left - SkipVarint(i).rest.left))
    decreases i.left
  {
    if i.data[0] >= 128 {
      VarintSkipsForward(Skip(i, 1));
      var m := i.left - SkipVarint(i).rest.left;
      assert Skip(Skip(i, 1), m - 1) == Skip(i, m);
    }
  }

  /**
   A decode callback is offered the bytes of a scalar as they are, at most ten of a varint,
   and of a delimited record the bytes behind the length.
   */
  lemma {:induction false} OfferedIsBody(i: Input, wireType: nat, n: nat)
    requires n <= i.left
    ensures Offered(i, wireType).Ok? && Offered(i, wireType).rest == Skip(i, n) <==>
            Body(wireType, i.data[..n]) && (wireType == 0 ==> n <= 10)
    ensures wireType != 2 && Body(wireType, i.data[..n]) && (wireType == 0 ==> n <= 10) ==>
              Offered(i, wireType) == Ok(i.data[..n], Skip(i, n))
    ensures wireType == 2 ==> forall k: nat :: IsDelimited(i.data[..n], k) ==> Offered(i, 2) == Ok(i.data[k..n], Skip(i, n))
  {
    match wireType
    case 0 => RawVarintIsVarint(i, 10, n);
    case 1 => if 8 <= i.left { SameSkip(i, 8, n); }
    case 2 => DelimitedIsBody(i, n);
    case 5 => if 4 <= i.left { SameSkip(i, 4, n); }
    case _ =>
  }

  lemma {:induction false} RawVarintIsVarint(i: Input, max: nat, n: nat)
    requires n <= i.left
    ensures RawVarint(i, max).Ok? && RawVarint(i, max).rest == Skip(i, n) <==> IsVarint(i.data[..n]) && n <= max
    ensures IsVarint(i.data[..n]) && n <= max ==> RawVarint(i, max) == Ok(i.data[..n], Skip(i, n))
    decreases n
  {
    var s := i.data[..n];
    if n > 0 && max > 0 && i.data[0] >= 128 {
      var r := Skip(i, 1);
      assert r.data[..n - 1] == s[1..];
      assert Skip(r, n - 1) == Skip(i, n);
      assert [i.data[0]] + s[1..] == s;
      assert n > 1 ==> (IsVarint(s) <==> IsVarint(s[1..])) by {
        if n > 1 && IsVarint(s[1..]) {
          forall j | 0 <= j < |s| - 1 ensures s[j] >= 128 { if j > 0 { assert s[1..][j - 1] == s[j]; } }
        }
      }
      RawVarintIsVarint(r, max - 1, n - 1);
    } else if n > 1 && max > 0 {
      assert s[0] < 128;
    } else if n == 1 {
      assert s == [i.data[0]];
    }
  }
}
