/** Bookkeeping of required fields: the two-word bitmap of pb_decode_noinit. */
module RequiredFields {
  import opened Schema
  import opened Varint
  import opened Decoder
  import Iterator
  import opened Bits

  /** The bitmap has 64 bits, and a count of 32 would shift a word by its own width. */
  predicate Checkable(count: nat) { count < 64 && count != 32 }

  /** Tables on which the decoder is defined, with the features modelled here. */
  predicate Runnable(t: seq<Field>)
    decreases t
  {
    && UniqueTags(t) && Checkable(RequiredCount(t))
    && forall i :: 0 <= i < |t| ==> RunnableField(t[i])
  }

  predicate RunnableField(f: Field)
    decreases f
  {
    && f.tag > 0 && !f.ltype.Extension? && !f.htype.Oneof? && Iterator.SizePrecedes(f)
    && (f.ltype.SubMessage? ==> Runnable(f.ltype.table))
  }

  lemma {:induction false} RunnableHasLayout(t: seq<Field>)
    requires Runnable(t)
    ensures Iterator.Describes(t, Iterator.Layout(t, |t|))
  {
    forall i | 0 <= i < |t| ensures !t[i].htype.Oneof? { assert RunnableField(t[i]); }
    Iterator.LayoutIsDescribed(t, |t|);
    assert t[..|t|] == t;
  }

  // ---- Which required fields have been seen --------------------------------------------------

  lemma {:induction false} RequiredBeforeGrows(t: seq<Field>, j: nat, k: nat)
    requires j <= k <= |t|
    ensures RequiredBefore(t, j) <= RequiredBefore(t, k)
    decreases k - j
  {
    if j < k { RequiredBeforeGrows(t, j, k - 1); }
  }

  /** required_field_index tells required fields apart and stays below their count. */
  lemma {:induction false} RequiredIndexIsInjective(t: seq<Field>, j: nat, k: nat)
    requires j < k < |t| && t[j].htype.Required?
    ensures RequiredBefore(t, j) < RequiredBefore(t, k)
  {
    RequiredBeforeGrows(t, j + 1, k);
  }

  lemma {:induction false} RequiredIndexIsBounded(t: seq<Field>, k: nat)
    requires k < |t| && t[k].htype.Required?
    ensures RequiredBefore(t, k) < RequiredCount(t)
  {
    RequiredBeforeGrows(t, k + 1, |t|);
  }

  lemma {:induction false} RequiredIndexIsOnto(t: seq<Field>, n: nat, r: nat) returns (k: nat)
    requires n <= |t| && r < RequiredBefore(t, n)
    ensures k < n && t[k].htype.Required? && RequiredBefore(t, k) == r
    decreases n
  {
    if t[n - 1].htype.Required? && RequiredBefore(t, n - 1) == r {
      k := n - 1;
    } else {
      k := RequiredIndexIsOnto(t, n - 1, r);
    }
  }

  /** `bits` are the required_field_index values of the required entries in `seen`. */
  ghost predicate Tracks(t: seq<Field>, seen: set<nat>, bits: set<nat>) {
    && (forall r :: r in bits ==> r < RequiredCount(t))
    && (forall k :: 0 <= k < |t| && t[k].htype.Required? ==> (k in seen <==> RequiredBefore(t, k) in bits))
  }

  lemma {:induction false} TrackOne(t: seq<Field>, seen: set<nat>, bits: set<nat>, k: nat)
    requires k < |t| && Tracks(t, seen, bits)
    ensures Tracks(t, seen + {k}, if t[k].htype.Required? then bits + {RequiredBefore(t, k)} else bits)
  {
    if t[k].htype.Required? {
      RequiredIndexIsBounded(t, k);
      forall j | 0 <= j < |t| && t[j].htype.Required?
        ensures j in seen + {k} <==> RequiredBefore(t, j) in bits + {RequiredBefore(t, k)}
      {
        if j < k { RequiredIndexIsInjective(t, j, k); }
        if k < j { RequiredIndexIsInjective(t, k, j); }
      }
    }
  }

  lemma {:induction false} AllBitsAreAllRequired(t: seq<Field>, seen: set<nat>, bits: set<nat>)
    requires Tracks(t, seen, bits)
    ensures AllRequired(t, seen) <==> forall r :: 0 <= r < RequiredCount(t) ==> r in bits
  {
    if AllRequired(t, seen) {
      forall r | 0 <= r < RequiredCount(t) ensures r in bits {
        var k := RequiredIndexIsOnto(t, |t|, r);
        assert k in seen;
      }
    } else {
      var k :| 0 <= k < |t| && t[k].htype.Required? && k !in seen;
      RequiredIndexIsBounded(t, k);
      assert RequiredBefore(t, k) !in bits;
    }
  }

  // ---- The bitmap ------------------------------------------------------------------------------

  /** The word of n bits whose bit j says whether base + j is in the set. */
  ghost function Word(bits: set<nat>, base: nat, n: nat): nat
    decreases bits, n
  {
    if n == 0 then 0 else (if base in bits then 1 else 0) + 2 * Word(bits, base + 1, n - 1)
  }

  /** w | (1 << k) */
  function OrBit(w: nat, k: nat): nat { Or(w, Shl(1, k)) }

  lemma {:induction false} OrBitUnfolds(w: nat, k: nat)
    ensures OrBit(w, k) == if k == 0 then w / 2 * 2 + 1 else w % 2 + 2 * OrBit(w / 2, k - 1)
  {
    ShlPositive(k);
    if k == 0 {
      assert Or(w / 2, 0) == w / 2;
    } else {
      ShlPositive(k - 1);
    }
  }

  /** w >> k */
  function Shr(w: nat, k: nat): nat
    decreases k
  {
    if k == 0 then w else Shr(w / 2, k - 1)
  }

  /** n one bits */
  function Ones(n: nat): nat { if n == 0 then 0 else 1 + 2 * Ones(n - 1) }

  lemma {:induction false} WordWithout(bits: set<nat>, x: nat, base: nat, n: nat)
    requires x < base || base + n <= x
    ensures Word(bits + {x}, base, n) == Word(bits, base, n)
    decreases n
  {
    if n > 0 { WordWithout(bits, x, base + 1, n - 1); }
  }

  lemma {:induction false} BitAndRest(bit: nat, rest: nat)
    requires bit < 2
    ensures (bit + 2 * rest) % 2 == bit && (bit + 2 * rest) / 2 == rest
  {
  }

  lemma {:induction false} SetBitInWord(bits: set<nat>, base: nat, n: nat, k: nat)
    requires k < n
    ensures OrBit(Word(bits, base, n), k) == Word(bits + {base + k}, base, n)
    decreases n
  {
    var bit, rest := if base in bits then 1 else 0, Word(bits, base + 1, n - 1);
    BitAndRest(bit, rest);
    OrBitUnfolds(Word(bits, base, n), k);
    if k == 0 {
      WordWithout(bits, base, base + 1, n - 1);
    } else {
      SetBitInWord(bits, base + 1, n - 1, k - 1);
      assert base + 1 + (k - 1) == base + k;
    }
  }

  lemma {:induction false} ShiftOnes(m: nat, k: nat)
    requires k <= m
    ensures Shr(Ones(m), k) == Ones(m - k)
    decreases k
  {
    if k > 0 {
      assert Ones(m) / 2 == Ones(m - 1);
      ShiftOnes(m - 1, k - 1);
    }
  }

  /** A word equals n low ones exactly when the first n numbers, and no others, are in the set. */
  lemma {:induction false} WordIsOnes(bits: set<nat>, base: nat, m: nat, n: nat)
    requires n <= m
    ensures Word(bits, base, m) == Ones(n) <==>
            forall x :: base <= x < base + m ==> (x in bits <==> x < base + n)
    decreases m
  {
    if m > 0 {
      var n' := if n > 0 then n - 1 else 0;
      WordIsOnes(bits, base + 1, m - 1, n');
    }
  }

  /** ~(uint32_t)0 */
  function AllBits(): nat { 0xFFFF_FFFF }

  lemma {:induction false} FourMoreOnes(n: nat)
    ensures Ones(n + 4) == 15 + 16 * Ones(n)
  {
    assert Ones(n + 2) == 3 + 4 * Ones(n);
    assert Ones(n + 4) == 3 + 4 * Ones(n + 2);
  }

  lemma {:induction false} AllBitsIsOnes(width: nat)
    requires width == 32
    ensures AllBits() == Ones(width)
  {
    var n := width - 32;
    FourMoreOnes(n);
    FourMoreOnes(n + 4);
    FourMoreOnes(n + 8);
    FourMoreOnes(n + 12);
    FourMoreOnes(n + 16);
    FourMoreOnes(n + 20);
    FourMoreOnes(n + 24);
    FourMoreOnes(n + 28);
  }

  /** allbits >> (32 - n) */
  lemma {:induction false} LowBits(width: nat, n: nat)
    requires n <= width == 32
    ensures Shr(AllBits(), width - n) == Ones(n)
  {
    AllBitsIsOnes(width);
    ShiftOnes(width, width - n);
  }

  /** The two words of fields_seen, as sets of required_field_index values. */
  ghost predicate Bitmap(words: seq<nat>, bits: set<nat>) {
    |words| == 2 && words[0] == Word(bits, 0, 32) && words[1] == Word(bits, 32, 32)
  }

  lemma {:induction false} EmptyBitmap()
    ensures Bitmap([0, 0], {})
  {
    EmptyWord(0, 32);
    EmptyWord(32, 32);
  }

  lemma {:induction false} EmptyWord(base: nat, n: nat)
    ensures Word({}, base, n) == 0
    decreases n
  {
    if n > 0 { EmptyWord(base + 1, n - 1); }
  }

  lemma {:induction false} MarkBit(words: seq<nat>, bits: set<nat>, r: nat)
    requires Bitmap(words, bits) && r < 64
    ensures Bitmap(words[r / 32 := OrBit(words[r / 32], r % 32)], bits + {r})
  {
    if r < 32 {
      SetBitInWord(bits, 0, 32, r);
      WordWithout(bits, r, 32, 32);
    } else {
      SetBitInWord(bits, 32, 32, r - 32);
      WordWithout(bits, r, 0, 32);
    }
  }

  /** The comparison of whole words and of the remaining bits succeeds exactly when every index below `count` is there. */
  lemma {:induction false} BitmapComplete(words: seq<nat>, bits: set<nat>, count: nat)
    requires Bitmap(words, bits) && Checkable(count) && count > 0
    requires forall r :: r in bits ==> r < count
    ensures (count >= 32 ==> words[0] == AllBits()) &&
            words[count / 32] == Shr(AllBits(), 32 - count % 32) <==>
            forall r :: 0 <= r < count ==> r in bits
  {
    ghost var width := 32;
    LowBits(width, count % 32);
    if count < 32 {
      OneWordComplete(words[0], bits, width, count);
    } else {
      AllBitsIsOnes(width);
      TwoWordsComplete(words[0], words[1], bits, width, count);
    }
  }

  lemma {:induction false} OneWordComplete(w: nat, bits: set<nat>, width: nat, count: nat)
    requires count <= width && w == Word(bits, 0, width)
    requires forall r :: r in bits ==> r < count
    ensures w == Ones(count) <==> forall r :: 0 <= r < count ==> r in bits
  {
    WordIsOnes(bits, 0, width, count);
  }

  lemma {:induction false} TwoWordsComplete(w0: nat, w1: nat, bits: set<nat>, width: nat, count: nat)
    requires width < count <= 2 * width && w0 == Word(bits, 0, width) && w1 == Word(bits, width, width)
    requires forall r :: r in bits ==> r < count
    ensures w0 == Ones(width) && w1 == Ones(count - width) <==> forall r :: 0 <= r < count ==> r in bits
  {
    WordIsOnes(bits, 0, width, width);
    WordIsOnes(bits, width, width, count - width);
  }

  /** The check at the end of pb_decode_noinit. */
  method AllSeen(fieldsSeen: array<nat>, ghost bits: set<nat>, count: nat) returns (ok: bool)
    requires fieldsSeen.Length == 2 && Bitmap(fieldsSeen[..], bits) && Checkable(count)
    requires forall r :: r in bits ==> r < count
    ensures ok <==> forall r :: 0 <= r < count ==> r in bits
  {
    if count > 0 {
      BitmapComplete(fieldsSeen[..], bits, count);
      var i := 0;
      while i < count / 32
        invariant 0 <= i <= count / 32
        invariant forall j :: 0 <= j < i ==> fieldsSeen[j] == AllBits()
      {
        if fieldsSeen[i] != AllBits() {
          return false;
        }
        i := i + 1;
      }
      if fieldsSeen[count / 32] != Shr(AllBits(), 32 - count % 32) {
        return false;
      }
    }
    ok := true;
  }
}
