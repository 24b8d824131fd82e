/** 32-bit words as bit strings: the pattern of a C++ `int`. */
module Words {
  import opened Arith
  import opened Bits

  type Word = w: nat | w < 0x1_0000_0000

  lemma Pow2Of32()
    ensures Pow2(32) == 0x1_0000_0000
  {
    Pow2Add(8, 8);
    Pow2Add(16, 16);
    assert Pow2(8) == 256;
  }

  function WordShl(w: Word, n: nat): Word {
    Pow2Of32();
    LowBound(Shl(w, n), 32);
    Low(Shl(w, n), 32)
  }

  /** `>>` on an `int` repeats the sign bit. */
  function WordSar(w: Word, n: nat): Word
    requires n < 32
  {
    SarFits(w, n);
    if w < 0x8000_0000 then Shr(w, n) else Shr(w, n) + (0x1_0000_0000 - Pow2(32 - n))
  }

  function WordNot(w: Word): Word {
    0xFFFF_FFFF - w
  }

  function WordAnd(x: Word, y: Word): Word {
    AndAtMost(x, y);
    And(x, y)
  }

  function WordOr(x: Word, y: Word): Word {
    OrFits(x, y);
    Or(x, y)
  }

  function WordXor(x: Word, y: Word): Word {
    XorFits(x, y);
    Xor(x, y)
  }

  function WordSub(x: Word, y: Word): Word {
    if x >= y then x - y else x - y + 0x1_0000_0000
  }

  lemma {:induction false} AndAtMost(x: nat, y: nat)
    ensures And(x, y) <= x && And(x, y) <= y
  {
    if x != 0 {
      AndAtMost(x / 2, y / 2);
    }
  }

  lemma OrFits(x: Word, y: Word)
    ensures Or(x, y) < 0x1_0000_0000
  {
    Pow2Of32();
    forall i: nat | i >= 32 ensures !Bit(Or(x, y), i) {
      BitOr(x, y, i);
      BitTooHigh(x, 32, i);
      BitTooHigh(y, 32, i);
    }
    BitsBound(Or(x, y), 32);
  }

  lemma XorFits(x: Word, y: Word)
    ensures Xor(x, y) < 0x1_0000_0000
  {
    Pow2Of32();
    forall i: nat | i >= 32 ensures !Bit(Xor(x, y), i) {
      BitXor(x, y, i);
      BitTooHigh(x, 32, i);
      BitTooHigh(y, 32, i);
    }
    BitsBound(Xor(x, y), 32);
  }

  lemma SarFits(w: Word, n: nat)
    requires n < 32
    ensures Shr(w, n) < Pow2(32 - n) <= 0x1_0000_0000
  {
    Pow2Of32();
    Pow2Divides(n, 32);
    Pow2Monotone(32 - n, 32);
    ShrBound(w, n, Pow2(32 - n));
  }

  lemma ShrBound(w: nat, n: nat, e: nat)
    requires w < Pow2(n) * e
    ensures Shr(w, n) < e
  {
    DivModDefinition(w, Pow2(n));
    var q := Shr(w, n);
    if q >= e {
      MulMonotone(Pow2(n), e, q);
    }
  }

  lemma WordHasNoMoreBits(w: Word, i: nat)
    requires i >= 32
    ensures !Bit(w, i)
  {
    Pow2Of32();
    BitTooHigh(w, 32, i);
  }

  lemma BitWordShl(w: Word, n: nat, i: nat)
    ensures Bit(WordShl(w, n), i) <==> n <= i < 32 && Bit(w, i - n)
  {
    BitTruncate(Shl(w, n), 32, i);
    BitShl(w, n, i);
  }

  lemma BitWordNot(w: Word, i: nat)
    ensures Bit(WordNot(w), i) <==> i < 32 && !Bit(w, i)
  {
    Pow2Of32();
    if i < 32 {
      BitComplement(w, 32, i);
    } else {
      WordHasNoMoreBits(WordNot(w), i);
    }
  }

  /** The bits of two numbers written side by side. */
  lemma BitOfConcat(hi: nat, lo: nat, n: nat, i: nat)
    requires lo < Pow2(n)
    ensures hi * Pow2(n) >= 0
    ensures Bit(hi * Pow2(n) + lo, i) <==> if i < n then Bit(lo, i) else Bit(hi, i - n)
  {
    MulMonotone(Pow2(n), 0, hi);
    OrDisjoint(lo, hi, n);
    assert Shl(hi, n) == hi * Pow2(n);
    BitOr(lo, Shl(hi, n), i);
    BitShl(hi, n, i);
    if i >= n {
      BitTooHigh(lo, n, i);
    }
  }

  lemma BitWordSar(w: Word, n: nat, i: nat)
    requires n < 32
    ensures Bit(WordSar(w, n), i) <==> i < 32 && Bit(w, if i + n < 32 then i + n else 31)
  {
    if i >= 32 {
      WordHasNoMoreBits(WordSar(w, n), i);
    } else if w < 0x8000_0000 {
      BitPositiveSar(w, n, i);
    } else {
      BitNegativeSar(w, n, i);
    }
  }

  lemma BitPositiveSar(w: Word, n: nat, i: nat)
    requires n < 32 && i < 32 && w < 0x8000_0000
    ensures Bit(WordSar(w, n), i) <==> Bit(w, if i + n < 32 then i + n else 31)
  {
    SignBit(w);
    BitShr(w, n, i);
    if i + n >= 32 {
      WordHasNoMoreBits(w, i + n);
    }
  }

  lemma BitNegativeSar(w: Word, n: nat, i: nat)
    requires n < 32 && i < 32 && w >= 0x8000_0000
    ensures Bit(WordSar(w, n), i) <==> Bit(w, if i + n < 32 then i + n else 31)
  {
    SarFits(w, n);
    SignBit(w);
    BitShr(w, n, i);
    Pow2Of32();
    Pow2Divides(32 - n, 32);
    MulDistributes(Pow2(n), 1, Pow2(32 - n));
    BitOfConcat(Pow2(n) - 1, Shr(w, n), 32 - n, i);
    if i >= 32 - n {
      BitOfOnes(n, i - (32 - n));
    }
  }

  lemma SignBit(w: Word)
    ensures Bit(w, 31) <==> w >= 0x8000_0000
  {
    Pow2Of32();
    assert Pow2(31) == 0x8000_0000;
    if w < 0x8000_0000 {
      BitTooHigh(w, 31, 31);
    } else {
      DivModUnique(w, Pow2(31), 1, w - 0x8000_0000);
      BitShr(w, 31, 0);
    }
  }

  // ----- masks -----

  /** The mask `(2 << last) - (1 << first)` has exactly the bits from `first` to `last`, also when
      the first shift overflows to zero. */
  lemma RangeMask(first: nat, last: nat, i: nat)
    requires first <= last < 32
    ensures Bit(WordSub(WordShl(2, last), WordShl(1, first)), i) <==> first <= i <= last
  {
    hide *;
    RangeMaskIs(first, last);
    BitOfRange(first, last + 1 - first, i);
  }

  lemma RangeMaskIs(first: nat, last: nat)
    requires first <= last < 32
    ensures 0 <= (Pow2(last + 1 - first) - 1) * Pow2(first) == WordSub(WordShl(2, last), WordShl(1, first))
  {
    ShlOfOne(first);
    ShlOfTwo(last);
    Pow2Monotone(first, last + 1);
    Pow2Of32();
    Pow2Divides(first, last + 1);
    hide Pow2, WordShl;
    MulDistributes(Pow2(last + 1 - first), 1, Pow2(first));
  }

  lemma BitOfRange(first: nat, count: nat, i: nat)
    ensures 0 <= (Pow2(count) - 1) * Pow2(first)
    ensures Bit((Pow2(count) - 1) * Pow2(first), i) <==> first <= i < first + count
  {
    hide *;
    BitOfConcat(Pow2(count) - 1, 0, first, i);
    if i >= first {
      BitOfOnes(count, i - first);
    } else {
      BitZero(i);
    }
  }

  lemma ShlOfOne(n: nat)
    requires n < 32
    ensures WordShl(1, n) == Pow2(n)
  {
    Pow2Of32();
    Pow2Monotone(n, 31);
    Pow2Monotone(31, 32);
    LowBound(Shl(1, n), 32);
  }

  lemma ShlOfTwo(n: nat)
    requires n < 32
    ensures WordShl(2, n) == if n == 31 then 0 else Pow2(n + 1)
  {
    Pow2Of32();
    assert Shl(2, n) == Pow2(n + 1);
    if n == 31 {
      DivModUnique(Pow2(32), Pow2(32), 1, 0);
    } else {
      Pow2Monotone(n + 1, 31);
      Pow2Monotone(31, 32);
      LowBound(Shl(2, n), 32);
    }
  }

  /** Every bit of `mask` has the value `v` in `w`. */
  ghost predicate Uniform(w: Word, mask: Word, v: bool) {
    forall i: nat :: Bit(mask, i) ==> Bit(w, i) == v
  }

  /** The masked word tells whether all the masked bits are one, or all zero. */
  lemma MaskedBits(w: Word, mask: Word, v: bool)
    ensures WordAnd(w, mask) == (if v then mask else 0) <==> Uniform(w, mask, v)
  {
    var a := And(w, mask);
    if a == if v then mask else 0 {
      forall i: nat | Bit(mask, i) ensures Bit(w, i) == v {
        BitAnd(w, mask, i);
        BitZero(i);
      }
    }
    if Uniform(w, mask, v) {
      var target := if v then mask else 0;
      forall i: nat ensures Bit(a, i) <==> Bit(target, i) {
        BitAnd(w, mask, i);
        BitZero(i);
      }
      BitsDetermine(a, target);
    }
  }

  // ----- reversing a word -----

  /** Does bit `k` lie in the lower half of its group of `2 * s` bits? */
  predicate LowerHalf(k: nat, s: nat)
    requires s > 0
  {
    (k / s) % 2 == 0
  }

  /** The mask of the lower halves of `groups` groups. */
  function SwapMask(s: nat, groups: nat): nat {
    if groups == 0 then 0 else Pow2(2 * s) * SwapMask(s, groups - 1) + (Pow2(s) - 1)
  }

  lemma {:induction false} BitOfSwapMask(s: nat, groups: nat, k: nat)
    requires s > 0
    ensures Bit(SwapMask(s, groups), k) <==> k < 2 * s * groups && LowerHalf(k, s)
  {
    if groups == 0 {
      BitZero(k);
    } else {
      var rest := SwapMask(s, groups - 1);
      Pow2Monotone(s, 2 * s);
      BitOfConcat(rest, Pow2(s) - 1, 2 * s, k);
      MulDistributes(groups, 1, 2 * s);
      assert Pow2(2 * s) * rest == rest * Pow2(2 * s);
      if k < 2 * s {
        BitOfOnes(s, k);
        GroupStart(k, s);
        MulMonotone(2 * s, 1, groups);
      } else {
        BitOfSwapMask(s, groups - 1, k - 2 * s);
        NextGroup(k, s);
      }
    }
  }

  lemma GroupStart(k: nat, s: nat)
    requires s > 0 && k < 2 * s
    ensures LowerHalf(k, s) <==> k < s
  {
    if k < s {
      DivModUnique(k, s, 0, k);
    } else {
      DivModUnique(k, s, 1, k - s);
    }
  }

  lemma NextGroup(k: nat, s: nat)
    requires s > 0 && k >= 2 * s
    ensures LowerHalf(k, s) <==> LowerHalf(k - 2 * s, s)
  {
    DivModDefinition(k, s);
    var q, r := k / s, k % s;
    MulDistributes(q, 2, s);
    DivModUnique(k - 2 * s, s, q - 2, r);
  }

  lemma SwapMasks()
    ensures SwapMask(1, 16) == 0x5555_5555 && SwapMask(2, 8) == 0x3333_3333 && SwapMask(4, 4) == 0x0f0f_0f0f
    ensures SwapMask(8, 2) == 0x00ff_00ff && SwapMask(16, 1) == 0x0000_ffff
  {
    assert Pow2(2) == 4 && Pow2(4) == 16 && Pow2(8) == 256;
    Pow2Add(8, 8);
    Pow2Of32();
    assert SwapMask(2, 4) == 0x3333;
    assert SwapMask(1, 8) == 0x5555;
  }

  /** One stage of the reversal: neighbouring groups of `s` bits change places. */
  function SwapStage(x: Word, s: nat, mask: Word): Word
    requires s < 32
  {
    WordOr(WordAnd(WordSar(x, s), mask), WordShl(WordAnd(x, mask), s))
  }

  function Swapped(k: nat, s: nat): nat
    requires s > 0
  {
    if LowerHalf(k, s) then k + s else k - s
  }

  function ReverseWord(x: Word): Word {
    var x1 := SwapStage(x, 1, 0x5555_5555);
    var x2 := SwapStage(x1, 2, 0x3333_3333);
    var x3 := SwapStage(x2, 4, 0x0f0f_0f0f);
    var x4 := SwapStage(x3, 8, 0x00ff_00ff);
    SwapStage(x4, 16, 0x0000_ffff)
  }

  lemma NeighbourGroups(k: nat, s: nat, groups: nat)
    requires s > 0 && k < 2 * s * groups
    ensures LowerHalf(k, s) ==> k + s < 2 * s * groups && (k >= s ==> !LowerHalf(k - s, s))
    ensures !LowerHalf(k, s) ==> k >= s && LowerHalf(k - s, s)
  {
    hide *;
    if k >= s {
      HalfBefore(k, s);
    } else {
      FirstHalf(k, s);
    }
    if LowerHalf(k, s) {
      HalfAfter(k, s, groups);
    }
  }

  lemma FirstHalf(k: nat, s: nat)
    requires k < s
    ensures LowerHalf(k, s)
  {
    DivModUnique(k, s, 0, k);
  }

  lemma HalfBefore(k: nat, s: nat)
    requires 0 < s <= k
    ensures LowerHalf(k - s, s) <==> !LowerHalf(k, s)
  {
    DivModDefinition(k, s);
    MulDistributes(k / s, 1, s);
    DivModUnique(k - s, s, k / s - 1, k % s);
  }

  lemma HalfAfter(k: nat, s: nat, groups: nat)
    requires s > 0 && k < 2 * s * groups && LowerHalf(k, s)
    ensures k + s < 2 * s * groups
  {
    DivModDefinition(k, s);
    MulAssociative(2, s, groups);
    MulAssociative(2, groups, s);
    var q, r := k / s, k % s;
    assert q % 2 == 0;
    hide *;
    NextHalfFits(q, r, s, 2 * groups);
  }

  lemma NextHalfFits(q: int, r: nat, s: nat, n: nat)
    requires r < s && q * s + r < n * s && q % 2 == 0 && n % 2 == 0
    ensures q * s + r + s < n * s
  {
    if q >= n {
      MulMonotone(s, n, q);
    }
    MulMonotone(s, q + 2, n);
    MulDistributes(q, 2, s);
  }

  lemma BitOfSwapStage(x: Word, s: nat, groups: nat, mask: Word, k: nat)
    requires 0 < s < 32 && 2 * s * groups == 32 && mask == SwapMask(s, groups) && k < 32
    ensures Swapped(k, s) < 32 && (Bit(SwapStage(x, s, mask), k) <==> Bit(x, Swapped(k, s)))
  {
    NeighbourGroups(k, s, groups);
    BitOfSwapMask(s, groups, k);
    BitOr(WordAnd(WordSar(x, s), mask), WordShl(WordAnd(x, mask), s), k);
    BitAnd(WordSar(x, s), mask, k);
    BitWordSar(x, s, k);
    BitWordShl(WordAnd(x, mask), s, k);
    if k >= s {
      BitAnd(x, mask, k - s);
      BitOfSwapMask(s, groups, k - s);
    }
    hide Bit, SwapMask, WordSar, WordShl, And, Or;
  }

  /** The five stages send bit `31 - k` to bit `k`. */
  lemma BitOfReverseWord(x: Word, k: nat)
    requires k < 32
    ensures Bit(ReverseWord(x), k) <==> Bit(x, 31 - k)
  {
    SwapMasks();
    hide Bit, SwapMask, SwapStage, Swapped;
    var x1 := SwapStage(x, 1, 0x5555_5555);
    var x2 := SwapStage(x1, 2, 0x3333_3333);
    var x3 := SwapStage(x2, 4, 0x0f0f_0f0f);
    var x4 := SwapStage(x3, 8, 0x00ff_00ff);
    BitOfSwapStage(x4, 16, 1, 0x0000_ffff, k);
    var k4 := Swapped(k, 16);
    BitOfSwapStage(x3, 8, 2, 0x00ff_00ff, k4);
    var k3 := Swapped(k4, 8);
    BitOfSwapStage(x2, 4, 4, 0x0f0f_0f0f, k3);
    var k2 := Swapped(k3, 4);
    BitOfSwapStage(x1, 2, 8, 0x3333_3333, k2);
    var k1 := Swapped(k2, 2);
    BitOfSwapStage(x, 1, 16, 0x5555_5555, k1);
    var a, b, c, d, e := BinaryDigits(k);
    FiveSwaps(a, b, c, d, e);
  }

  /** A stage flips one binary digit of the index. */
  lemma SwapFlips(h: nat, b: nat, r: nat, s: nat)
    requires s > 0 && b < 2 && r < s
    ensures (2 * h + b) * s + r >= 0 && Swapped((2 * h + b) * s + r, s) == (2 * h + (1 - b)) * s + r
  {
    SwapsHalf(2 * h + b, r, s);
    hide *;
    assert (2 * h + b) % 2 == b && (if b == 0 then 2 * h + b + 1 else 2 * h + b - 1) == 2 * h + (1 - b);
  }

  lemma SwapsHalf(q: nat, r: nat, s: nat)
    requires r < s
    ensures q * s + r >= 0 && Swapped(q * s + r, s) == (if q % 2 == 0 then q + 1 else q - 1) * s + r
  {
    MulMonotone(s, 0, q);
    DivModUnique(q * s + r, s, q, r);
    MulDistributes(q, 1, s);
  }

  /** Five flips complement the index. */
  lemma FiveSwaps(a: nat, b: nat, c: nat, d: nat, e: nat)
    requires a < 2 && b < 2 && c < 2 && d < 2 && e < 2
    ensures var k := 16 * a + 8 * b + 4 * c + 2 * d + e;
            Swapped(Swapped(Swapped(Swapped(Swapped(k, 16), 8), 4), 2), 1) == 31 - k
  {
    hide *;
    SwapFlips(0, a, 8 * b + 4 * c + 2 * d + e, 16);
    SwapFlips(1 - a, b, 4 * c + 2 * d + e, 8);
    SwapFlips(2 * (1 - a) + (1 - b), c, 2 * d + e, 4);
    SwapFlips(4 * (1 - a) + 2 * (1 - b) + (1 - c), d, e, 2);
    SwapFlips(8 * (1 - a) + 4 * (1 - b) + 2 * (1 - c) + (1 - d), e, 0, 1);
  }

  lemma BinaryDigits(k: nat) returns (a: nat, b: nat, c: nat, d: nat, e: nat)
    requires k < 32
    ensures a < 2 && b < 2 && c < 2 && d < 2 && e < 2 && k == 16 * a + 8 * b + 4 * c + 2 * d + e
  {
    a, b, c, d, e := k / 16, k / 8 % 2, k / 4 % 2, k / 2 % 2, k % 2;
  }
}
