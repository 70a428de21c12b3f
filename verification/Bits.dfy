/** Bitwise or, and when it is an addition. */
module Bits {
  import opened Varint
  import NumberLaws

  function Or(a: nat, b: nat): nat
    decreases a + b
  {
    if a == 0 then b
    else if b == 0 then a
    else (if a % 2 == 1 || b % 2 == 1 then 1 else 0) + 2 * Or(a / 2, b / 2)
  }

  /** Numbers without a bit in common: all bits of `a` lie below bit k, and those of the other number do not. */
  lemma {:induction false} OrDisjoint(a: nat, c: nat, k: nat)
    requires a < Shl(1, k)
    ensures Or(a, Shl(c, k)) == a + Shl(c, k)
    decreases k
  {
    if k > 0 && a > 0 && c > 0 {
      OrDisjoint(a / 2, c, k - 1);
    }
    if c == 0 { ShlZero(k); }
  }

  lemma {:induction false} ShlZero(k: nat)
    ensures Shl(0, k) == 0
    decreases k
  {
    if k > 0 { ShlZero(k - 1); }
  }

  lemma {:induction false} ShlSum(a: nat, b: nat, k: nat)
    ensures Shl(a + b, k) == Shl(a, k) + Shl(b, k)
    decreases k
  {
    if k > 0 { ShlSum(a, b, k - 1); }
  }

  lemma {:induction false} ShlMore(a: nat, j: nat, k: nat)
    ensures Shl(Shl(a, j), k) == Shl(a, j + k)
    decreases k
  {
    if k > 0 { ShlMore(a, j, k - 1); }
  }

  lemma {:induction false} ShlPositive(k: nat)
    ensures Shl(1, k) >= 1
    decreases k
  {
    if k > 0 { ShlPositive(k - 1); }
  }

  /** In a type of w bits, shifting loses the upper bits first. */
  lemma {:induction false} ShlCut(g: nat, k: nat, w: nat)
    requires k <= w
    ensures Shl(1, w - k) > 0 && Shl(1, w) > 0
    ensures Shl(g, k) % Shl(1, w) == Shl(g % Shl(1, w - k), k)
    decreases k
  {
    ShlPositive(w - k);
    ShlPositive(w);
    if k > 0 {
      ShlCut(g, k - 1, w - 1);
      DoubleModulo(Shl(g, k - 1), Shl(1, w - 1));
    }
  }

  lemma {:induction false} DoubleModulo(x: nat, m: nat)
    requires m > 0
    ensures 2 * x % (2 * m) == 2 * (x % m)
  {
    var q := x / m;
    assert 2 * x == q * (2 * m) + 2 * (x % m);
    NumberLaws.ModUnique(2 * x, q, 2 * (x % m), 2 * m);
  }

  /** value |= g << k in w bits: the group is added, and bits from w on are lost. */
  lemma {:induction false} OrIsAdd(value: nat, g: nat, k: nat, w: nat, modulus: nat)
    requires k <= w && value < Shl(1, k) && modulus == Shl(1, w)
    ensures modulus > 0 && Or(value, Shl(g, k) % modulus) == (value + Shl(g, k)) % modulus
  {
    ShlCut(g, k, w);
    var top := Shl(1, w - k);
    var c := g % top;
    OrDisjoint(value, c, k);
    RoomAbove(c, k, w);
    NumberLaws.AddModulo(Shl(g, k), value, modulus);
    ModSmall(value + Shl(c, k), modulus);
  }

  lemma {:induction false} RoomAbove(c: nat, k: nat, w: nat)
    requires k <= w && c < Shl(1, w - k)
    ensures Shl(c, k) + Shl(1, k) <= Shl(1, w)
  {
    var rest := Shl(1, w - k) - 1 - c;
    ShlSum(c, 1, k);
    ShlSum(c + 1, rest, k);
    ShlMore(1, w - k, k);
  }

  /** A group of seven bits behind k bits makes k + 7 bits. */
  lemma {:induction false} SevenMore(value: nat, g: nat, k: nat)
    requires value < Shl(1, k) && g < 128
    ensures value + Shl(g, k) < Shl(1, k + 7)
  {
    ShlSum(g, 1, k);
    ShlSum(g + 1, 127 - g, k);
    ShlMore(1, 7, k);
    assert Shl(1, 4) == 16;
    assert Shl(1, 7) == 128;
  }

  lemma {:induction false} Widths(w: nat)
    ensures w == 32 ==> Shl(1, w) == 0x1_0000_0000
    ensures w == 64 ==> Shl(1, w) == 0x1_0000_0000_0000_0000
  {
    if w == 32 || w == 64 {
      EightMore(w - 8);
      EightMore(w - 16);
      EightMore(w - 24);
      EightMore(w - 32);
    }
    if w == 64 {
      EightMore(w - 40);
      EightMore(w - 48);
      EightMore(w - 56);
      EightMore(w - 64);
    }
  }

  lemma {:induction false} EightMore(k: nat)
    ensures Shl(1, k + 8) == 256 * Shl(1, k)
  {
    assert Shl(1, k + 2) == 4 * Shl(1, k);
    assert Shl(1, k + 4) == 4 * Shl(1, k + 2);
    assert Shl(1, k + 6) == 4 * Shl(1, k + 4);
  }
}
