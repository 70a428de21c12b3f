/** The scalar field encoders and decoders: integer widths, zigzag and fixed-size numbers. */
module Scalars {
  import opened Wire
  import V = Varint
  import opened Schema

  /** 2^bits for a C integer of this many bytes. */
  function Modulus(size: nat): int
    requires WordSize(size)
  {
    if size == 1 then TWO_8 else if size == 2 then TWO_16 else if size == 4 then TWO_32 else TWO_64
  }

  /** Conversion to a signed C integer type: two's complement. */
  function Signed(x: int, modulus: int): (r: int)
    requires modulus > 0 && modulus % 2 == 0
    ensures -(modulus / 2) <= r < modulus / 2
  {
    if x % modulus < modulus / 2 then x % modulus else x % modulus - modulus
  }

  function ZigZag(n: int): nat { if n < 0 then -2 * n - 1 else 2 * n }

  function UnZigZag(u: nat): int { if u % 2 == 1 then -1 - u / 2 else u / 2 }

  /** pb_dec_varint behind the varint: a cast through int32_t unless the field has 64 bits. */
  function FitSigned(size: nat, u: u64): Option<int> {
    if !WordSize(size) then None
    else
      var svalue := if size == 8 then Signed(u, TWO_64) else Signed(u, TWO_32);
      var clamped := Signed(svalue, Modulus(size));
      if clamped != svalue then None else Some(clamped)
  }

  /** pb_dec_uvarint behind the varint. */
  function FitUnsigned(size: nat, u: u64): Option<int> {
    if !WordSize(size) then None
    else
      var clamped := u % Modulus(size);
      if clamped != u then None else Some(clamped)
  }

  /** pb_dec_svarint behind the varint. */
  function FitZigZag(size: nat, u: u64): Option<int> {
    if !WordSize(size) then None
    else
      var value := UnZigZag(u);
      var clamped := Signed(value, Modulus(size));
      if clamped != value then None else Some(clamped)
  }

  function LittleEndian(v: nat, n: nat): (s: seq<byte>)
    ensures |s| == n
  {
    if n == 0 then [] else [v % 256] + LittleEndian(v / 256, n - 1)
  }

  function FromLittleEndian(s: seq<byte>): nat {
    if s == [] then 0 else s[0] + 256 * FromLittleEndian(s[1..])
  }

  /** The scalar entries of PB_ENCODERS; None is "invalid data_size". */
  function Encode(l: LType, size: nat, n: int): Option<seq<byte>>
    requires Packable(l)
  {
    match l
    case Fixed32 => Some(LittleEndian(n % TWO_32, 4))
    case Fixed64 => Some(LittleEndian(n % TWO_64, 8))
    case SVarint => if WordSize(size) then Some(V.EncodeVarint(ZigZag(n) % TWO_64)) else None
    case _ => if WordSize(size) then Some(V.EncodeVarint(n % TWO_64)) else None
  }

  function Fit(l: LType, size: nat, u: u64): Option<int> {
    match l
    case UVarint => FitUnsigned(size, u)
    case SVarint => FitZigZag(size, u)
    case _ => FitSigned(size, u)
  }

  /** The scalar entries of PB_DECODERS. */
  function Decode(l: LType, size: nat, i: Input): (r: Result<int>)
    ensures r.Ok? ==> r.rest.left < i.left && Lag(r.rest) == Lag(i)
  {
    match l
    case Fixed32 => (match Read(i, 4) case Fail => Fail case Ok(b, rest) => Ok(FromLittleEndian(b), rest))
    case Fixed64 => (match Read(i, 8) case Fail => Fail case Ok(b, rest) => Ok(FromLittleEndian(b), rest))
    case _ =>
      match V.DecodeVarint(i)
      case Fail => Fail
      case Ok(u, rest) =>
        match Fit(l, size, u)
        case None => Fail
        case Some(n) => Ok(n, rest)
  }

  /** The numbers the C type of the field can hold. */
  predicate InRange(l: LType, size: nat, n: int) {
    match l
    case Fixed32 => 0 <= n < TWO_32
    case Fixed64 => 0 <= n < TWO_64
    case UVarint => WordSize(size) && 0 <= n < Modulus(size)
    case _ => WordSize(size) && -(Modulus(size) / 2) <= n < Modulus(size) / 2
  }
}
