/** Integer widths: which varints a field accepts, and that every value comes back. */
module NumberLaws {
  import opened Wire
  import V = Varint
  import opened Schema
  import opened Scalars

  lemma {:induction false} ModShift(x: int, q: int, m: int)
    requires m > 0
    ensures (x + q * m) % m == x % m
    decreases if q < 0 then -q else q
  {
    if q > 0 {
      ModShift(x, q - 1, m);
      assert x + q * m == x + (q - 1) * m + m;
      ModStep(x + (q - 1) * m, m);
    } else if q < 0 {
      ModShift(x, q + 1, m);
      assert x + (q + 1) * m == x + q * m + m;
      ModStep(x + q * m, m);
    }
  }

  lemma {:induction false} ModStep(x: int, m: int)
    requires m > 0
    ensures (x + m) % m == x % m
  {
    var q, r := x / m, x % m;
    assert x + m == (q + 1) * m + r;
    ModUnique(x + m, q + 1, r, m);
  }

  lemma {:induction false} ModUnique(x: int, q: int, r: int, m: int)
    requires m > 0 && 0 <= r < m && x == q * m + r
    ensures x % m == r
  {
    var q', r' := x / m, x % m;
    assert (q - q') * m == r' - r;
    if q > q' { AtLeastOnce(q - q', m); }
    if q < q' { AtLeastOnce(q' - q, m); }
  }

  lemma {:induction false} AtLeastOnce(a: int, m: int)
    requires a >= 1 && m >= 0
    ensures a * m >= m
  {
  }

  /** Adding to a remainder is adding to the number. */
  lemma {:induction false} AddModulo(x: int, y: int, m: int)
    requires m > 0
    ensures (x % m + y) % m == (x + y) % m
  {
    var q := x / m;
    assert x + y == (x % m + y) + q * m;
    ModShift(x % m + y, q, m);
  }

  /** A number survives the cast to its own type and back. */
  lemma {:induction false} SignedOfCast(n: int, m: int)
    requires m > 0 && m % 2 == 0 && -(m / 2) <= n < m / 2
    ensures Signed(n % m, m) == n && Signed(n, m) == n
  {
    if n >= 0 {
      ModUnique(n, 0, n, m);
      ModUnique(n % m, 0, n % m, m);
    } else {
      ModUnique(n, -1, n + m, m);
      ModUnique(n % m, 0, n % m, m);
    }
  }

  lemma {:induction false} SignedStable(x: int, m: int)
    requires m > 0 && m % 2 == 0
    ensures Signed(x, m) == x <==> -(m / 2) <= x < m / 2
  {
    if -(m / 2) <= x < m / 2 { SignedOfCast(x, m); }
  }

  lemma {:induction false} Mod64To32(n: int)
    ensures (n % TWO_64) % TWO_32 == n % TWO_32
  {
    var q := n / TWO_64;
    assert n == n % TWO_64 + (q * TWO_32) * TWO_32;
    ModShift(n % TWO_64, q * TWO_32, TWO_32);
  }

  /** Exactly which varints a signed field accepts, and as what. */
  lemma {:induction false} SignedAcceptance(size: nat, u: u64)
    requires WordSize(size)
    ensures size == 8 ==> FitSigned(size, u) == Some(Signed(u, TWO_64))
    ensures size == 4 ==> FitSigned(size, u) == Some(Signed(u, TWO_32))
    ensures size < 4 ==>
      FitSigned(size, u) == if -(Modulus(size) / 2) <= Signed(u, TWO_32) < Modulus(size) / 2
                            then Some(Signed(u, TWO_32)) else None
  {
    if size == 8 { SignedStable(Signed(u, TWO_64), TWO_64); }
    else { SignedStable(Signed(u, TWO_32), Modulus(size)); }
  }

  /** Unsigned fields accept exactly the values that fit. */
  lemma {:induction false} UnsignedAcceptance(size: nat, u: u64)
    requires WordSize(size)
    ensures FitUnsigned(size, u) == if u < Modulus(size) then Some(u) else None
  {
    if u < Modulus(size) { ModUnique(u, 0, u, Modulus(size)); }
  }

  /** Zigzag fields accept exactly the values that fit. */
  lemma {:induction false} ZigZagAcceptance(size: nat, u: u64)
    requires WordSize(size)
    ensures FitZigZag(size, u) ==
            if -(Modulus(size) / 2) <= UnZigZag(u) < Modulus(size) / 2 then Some(UnZigZag(u)) else None
  {
    SignedStable(UnZigZag(u), Modulus(size));
  }

  /** Zigzag is a bijection between the integers and the naturals. */
  lemma {:induction false} ZigZagBijection(n: int, u: nat)
    ensures UnZigZag(ZigZag(n)) == n && ZigZag(UnZigZag(u)) == u
  {
  }

  lemma {:induction false} LittleEndianRoundTrip(v: nat, n: nat)
    requires v < Pow256(n)
    ensures FromLittleEndian(LittleEndian(v, n)) == v
  {
    if n > 0 {
      LittleEndianRoundTrip(v / 256, n - 1);
      assert LittleEndian(v, n)[1..] == LittleEndian(v / 256, n - 1);
    }
  }

  lemma {:induction false} FourBytes(b: seq<byte>)
    requires |b| == 4
    ensures FromLittleEndian(b) == b[0] + TWO_8 * b[1] + TWO_16 * b[2] + TWO_8 * TWO_16 * b[3]
  {
    var c := b[1..];
    var d := c[1..];
    var e := d[1..];
    assert FromLittleEndian(e) == e[0] + 256 * FromLittleEndian(e[1..]);
    assert FromLittleEndian(d) == d[0] + 256 * FromLittleEndian(e);
    assert FromLittleEndian(c) == c[0] + 256 * FromLittleEndian(d);
  }

  lemma {:induction false} SplitBytes(b: seq<byte>, n: nat)
    requires n <= |b|
    ensures FromLittleEndian(b) == FromLittleEndian(b[..n]) + Pow256(n) * FromLittleEndian(b[n..])
  {
    if n > 0 {
      SplitBytes(b[1..], n - 1);
      assert b[1..][..n - 1] == b[..n][1..] && b[1..][n - 1..] == b[n..];
      TimesByte(Pow256(n - 1), FromLittleEndian(b[n..]));
    }
  }

  lemma {:induction false} TimesByte(p: nat, h: nat)
    ensures 256 * (p * h) == 256 * p * h
  {
  }

  lemma {:induction false} EightBytes(b: seq<byte>)
    requires |b| == 8
    ensures FromLittleEndian(b) ==
            b[0] + TWO_8 * b[1] + TWO_16 * b[2] + TWO_8 * TWO_16 * b[3] +
            TWO_32 * (b[4] + TWO_8 * b[5] + TWO_16 * b[6] + TWO_8 * TWO_16 * b[7])
  {
    SplitBytes(b, 4);
    FourBytes(b[..4]);
    FourBytes(b[4..]);
    FixedWidths();
  }

  function Pow256(n: nat): nat { if n == 0 then 1 else 256 * Pow256(n - 1) }

  lemma {:induction false} SignedComesBack(size: nat, n: int)
    requires InRange(Varint, size, n)
    ensures FitSigned(size, n % TWO_64) == Some(n)
  {
    SignedAcceptance(size, n % TWO_64);
    if size == 8 {
      SignedOfCast(n, TWO_64);
    } else {
      Mod64To32(n);
      SignedOfCast(n, TWO_32);
      assert Signed(n % TWO_64, TWO_32) == Signed(n, TWO_32);
    }
  }

  lemma {:induction false} FixedComesBack(v: nat, n: nat, tail: seq<byte>, k: nat)
    requires v < Pow256(n) && k <= |tail|
    ensures var r := Read(Cursor(LittleEndian(v, n) + tail, n + k), n);
            r.Ok? && FromLittleEndian(r.value) == v && r.rest == Cursor(tail, k)
  {
    LittleEndianRoundTrip(v, n);
    ReadAppend(LittleEndian(v, n), tail, k);
  }

  lemma {:induction false} FixedWidths()
    ensures Pow256(4) == TWO_32 && Pow256(8) == TWO_64
  {
    assert Pow256(4) == TWO_32;
    assert Pow256(8) == 256 * 256 * 256 * 256 * Pow256(4);
  }

  /** The varint a number is sent as, before it is cut into groups. */
  function OnWire(l: LType, n: int): u64 {
    if l.SVarint? then ZigZag(n) % TWO_64 else n % TWO_64
  }

  /** The number that goes out as a varint is accepted and comes back. */
  lemma {:induction false} VarintFieldComesBack(l: LType, size: nat, n: int)
    requires (l.Varint? || l.UVarint? || l.SVarint?) && InRange(l, size, n)
    ensures Fit(l, size, OnWire(l, n)) == Some(n)
  {
    match l
    case UVarint =>
      ModUnique(n, 0, n, TWO_64);
      UnsignedAcceptance(size, n);
    case SVarint =>
      ModUnique(ZigZag(n), 0, ZigZag(n), TWO_64);
      ZigZagAcceptance(size, ZigZag(n));
    case Varint =>
      SignedComesBack(size, n);
  }

  /** Every number of the field's type comes back, whatever follows. */
  lemma {:induction false} RoundTrip(l: LType, size: nat, n: int, tail: seq<byte>, k: nat)
    requires Packable(l) && InRange(l, size, n) && k <= |tail|
    ensures Encode(l, size, n).Some?
    ensures var s := Encode(l, size, n).value;
            Decode(l, size, Cursor(s + tail, |s| + k)) == Ok(n, Cursor(tail, k))
  {
    if l.Fixed32? || l.Fixed64? {
      FixedWidths();
      ModUnique(n, 0, n, if l.Fixed32? then TWO_32 else TWO_64);
      FixedComesBack(n, if l.Fixed32? then 4 else 8, tail, k);
    } else {
      V.VarintRoundTrip(OnWire(l, n), tail, k);
      VarintFieldComesBack(l, size, n);
    }
  }

  /**
   Which varints a number field accepts, and as what: the varint has up to 64 bits in every
   case, and is then cut to 32 bits for signed fields of less than 8 bytes only.
   */
  lemma {:induction false} VarintFieldAccepts(l: LType, size: nat, i: Input)
    requires (l.Varint? || l.UVarint? || l.SVarint?) && WordSize(size)
    ensures match V.DecodeVarint(i)
            case Fail => Decode(l, size, i).Fail?
            case Ok(u, rest) =>
              var v: int := u;
              var n: int :=
                if l.UVarint? then v
                else if l.SVarint? then (if v % 2 == 0 then v / 2 else -1 - v / 2)
                else if size == 8 then Signed(v, TWO_64)
                else Signed(v, TWO_32);
              var half := if size == 1 then 128 else if size == 2 then 32768 else if size == 4 then TWO_32 / 2 else TWO_64 / 2;
              Decode(l, size, i) ==
              if (if l.UVarint? then n < 2 * half else -half <= n < half) then Ok(n, rest) else Fail
  {
    match V.DecodeVarint(i)
    case Fail =>
    case Ok(u, _) =>
      match l
      case UVarint => UnsignedAcceptance(size, u);
      case SVarint => ZigZagAcceptance(size, u);
      case Varint =>
        var n := if size == 8 then Signed(u, TWO_64) else Signed(u, TWO_32);
        SignedStable(n, Modulus(size));
  }
}
