/** Little-endian sequences of machine words and the natural number they stand for. */
module Blocks {
  import opened Arith
  import opened Bits

  type BlockBits = n: nat | n >= 16 witness 64

  /** The number of bits in a block: any value from 16 up. */
  const N: BlockBits

  const BASE: nat := Pow2(N)

  lemma Pow2Of16()
    ensures Pow2(16) == 0x1_0000
  {
    Pow2Add(4, 4);
    Pow2Add(8, 8);
    assert Pow2(4) == 16;
  }

  lemma BaseIsLarge()
    ensures BASE >= 0x1_0000
  {
    Pow2Monotone(16, N);
    Pow2Of16();
  }

  type Blk = b: nat | b < BASE witness (assert Pow2(N) > 0; 0)

  const ZERO: Blk := (assert Pow2(N) > 0; 0)

  const ONE: Blk := (BaseIsLarge(); 1)

  /** The weight of block `k`. */
  function Weight(k: nat): (r: nat)
    ensures r > 0
  {
    Pow2(N * k)
  }

  /** What digit `d` contributes in block `k`. */
  function Place(d: nat, k: nat): nat {
    d * Weight(k)
  }

  /** The position in a number of bit `i2` of block `i`. */
  function BitAt(i: nat, i2: nat): nat {
    N * i + i2
  }

  lemma FirstBit()
    ensures BitAt(0, 0) == 0
  {
  }

  lemma NextBlock(i: nat)
    ensures BitAt(i, N) == BitAt(i + 1, 0)
  {
    MulDistributes(i, 1, N);
  }

  /** `v << (i blocks and i2 bits)`. */
  function Shifted(v: nat, i: nat, i2: nat): nat {
    v * Pow2(i2) * Weight(i)
  }

  lemma ShiftedIsPow2(v: nat, i: nat, i2: nat)
    ensures Shifted(v, i, i2) == v * Pow2(BitAt(i, i2))
  {
    Pow2Add(N * i, i2);
    MulAssociative(v, Pow2(i2), Weight(i));
  }

  ghost function Value(s: seq<Blk>): nat {
    if s == [] then 0
    else Value(s[..|s| - 1]) + Place(s[|s| - 1], |s| - 1)
  }

  ghost predicate Canonical(s: seq<Blk>) {
    s == [] || s[|s| - 1] != 0
  }

  /** Block `i`, as if the number had zeros infinitely to the left. */
  function BlockOf(d: seq<Blk>, i: nat): Blk {
    if i < |d| then d[i] else ZERO
  }

  lemma WeightAdd(i: nat, j: nat)
    ensures Weight(i + j) == Weight(i) * Weight(j)
  {
    MulDistributes(i, j, N);
    Pow2Add(N * i, N * j);
  }

  lemma WeightSuccessor(i: nat)
    ensures Weight(i + 1) == BASE * Weight(i)
    ensures Weight(i) < Weight(i + 1)
  {
    assert BASE >= 2 by { Pow2Monotone(1, N); }
    WeightAdd(1, i);
    assert Weight(1) == BASE;
    hide *;
    MulMonotone(Weight(i), 2, BASE);
  }

  lemma WeightMonotone(i: nat, j: nat)
    requires i <= j
    ensures Weight(i) <= Weight(j)
  {
    MulMonotone(N, i, j);
    Pow2Monotone(N * i, N * j);
  }

  lemma {:induction false} ValueBound(s: seq<Blk>)
    ensures Value(s) < Weight(|s|)
  {
    if s != [] {
      var k := |s| - 1;
      ValueBound(s[..k]);
      WeightSuccessor(k);
      MulMonotone(Weight(k), s[k], BASE - 1);
      MulDistributes(BASE, 1, Weight(k));
    }
  }

  lemma ValueOfPrefix(s: seq<Blk>, k: nat)
    requires k < |s|
    ensures Value(s[..k + 1]) == Value(s[..k]) + s[k] * Weight(k)
  {
    assert s[..k + 1][..k] == s[..k];
  }

  lemma ValueAppend(s: seq<Blk>, v: Blk)
    ensures Value(s + [v]) == Value(s) + v * Weight(|s|)
  {
    assert (s + [v])[..|s|] == s;
  }

  /** Writing one block changes the value by that block's weight. */
  lemma {:induction false} ValueUpdate(s: seq<Blk>, k: nat, v: Blk)
    requires k < |s|
    ensures Value(s[k := v]) == Value(s) + (v - s[k]) * Weight(k)
  {
    var n := |s| - 1;
    if k == n {
      assert s[k := v][..n] == s[..n];
      MulDistributes(v, s[k], Weight(k));
    } else {
      assert s[k := v][..n] == s[..n][k := v];
      ValueUpdate(s[..n], k, v);
    }
  }

  lemma {:induction false} ValueSplit(s: seq<Blk>, k: nat)
    requires k <= |s|
    ensures Value(s) == Value(s[k..]) * Weight(k) + Value(s[..k])
    decreases |s|
  {
    var n := |s| - 1;
    if k == |s| {
      assert s[..k] == s;
    } else {
      ValueSplit(s[..n], k);
      assert s[..n][..k] == s[..k] && s[..n][k..] == s[k..][..n - k];
      WeightAdd(k, n - k);
      SplitAlgebra(Value(s[..k]), Weight(k), Value(s[k..][..n - k]), s[n], Weight(n - k));
    }
  }

  lemma SplitAlgebra(v: int, w: int, u: int, d: int, e: int)
    ensures (u * w + v) + d * (w * e) == (u + d * e) * w + v
  {
    MulDistributes(u, d * e, w);
    MulAssociative(d, w, e);
    MulAssociative(d, e, w);
  }

  /** A nonzero top block bounds the value from below. */
  lemma ValueLowerBound(s: seq<Blk>)
    requires s != [] && s[|s| - 1] != 0
    ensures Weight(|s| - 1) <= Value(s)
  {
    MulMonotone(Weight(|s| - 1), 1, s[|s| - 1]);
  }

  lemma {:induction false} ValueOfZeros(s: seq<Blk>)
    requires forall k :: 0 <= k < |s| ==> s[k] == 0
    ensures Value(s) == 0
  {
    if s != [] {
      ValueOfZeros(s[..|s| - 1]);
    }
  }

  lemma CanonicalShorterIsLess(s: seq<Blk>, t: seq<Blk>)
    requires Canonical(t) && |s| < |t|
    ensures Value(s) < Value(t)
  {
    ValueBound(s);
    ValueLowerBound(t);
    WeightMonotone(|s|, |t| - 1);
  }

  lemma TopBlockDecides(s: seq<Blk>, t: seq<Blk>, k: nat)
    requires |s| == |t| && k < |s| && s[k + 1..] == t[k + 1..] && s[k] < t[k]
    ensures Value(s) < Value(t)
  {
    ValueSplit(s, k + 1);
    ValueSplit(t, k + 1);
    ValueOfPrefix(s, k);
    ValueOfPrefix(t, k);
    ValueBound(s[..k]);
    hide *;
    TopDigitDecides(Weight(k), s[k], Value(s[..k]), t[k], Value(t[..k]));
  }

  lemma TopDigitDecides(w: nat, a: nat, x: nat, b: nat, y: nat)
    requires a < b && x < w
    ensures a * w + x < b * w + y
  {
    MulMonotone(w, a + 1, b);
    MulDistributes(a, 1, w);
  }

  /** Canonical representations are unique. */
  lemma {:induction false} CanonicalUnique(s: seq<Blk>, t: seq<Blk>)
    requires Canonical(s) && Canonical(t) && Value(s) == Value(t)
    ensures s == t
  {
    if |s| < |t| {
      CanonicalShorterIsLess(s, t);
    } else if |t| < |s| {
      CanonicalShorterIsLess(t, s);
    } else {
      SameLengthUnique(s, t);
    }
  }

  lemma {:induction false} SameLengthUnique(s: seq<Blk>, t: seq<Blk>)
    requires |s| == |t| && Value(s) == Value(t)
    ensures s == t
  {
    var n := |s| - 1;
    if s == [] {
    } else if s[n] < t[n] {
      TopBlockDecides(s, t, n);
    } else if t[n] < s[n] {
      TopBlockDecides(t, s, n);
    } else {
      SameLengthUnique(s[..n], t[..n]);
      assert s == s[..n] + [s[n]] && t == t[..n] + [t[n]];
    }
  }

  lemma ValueOfSingle(x: Blk)
    ensures Value([x]) == x
  {
    assert [x][..0] == [];
  }

  /** A value too large for fewer blocks leaves the top block nonzero. */
  lemma KeepsLength(s: seq<Blk>, x: seq<Blk>)
    requires |s| == |x| > 0 && x[|x| - 1] != 0 && Value(s) >= Value(x)
    ensures Canonical(s)
  {
    ValueLowerBound(x);
    ValueBound(s[..|s| - 1]);
  }

  /** Bit `n` of block `k` is the bit of the number at that position. */
  lemma BitOfBlock(s: seq<Blk>, k: nat, n: nat)
    requires n < N
    ensures Bit(Value(s), BitAt(k, n)) <==> Bit(BlockOf(s, k), n)
  {
    if k >= |s| {
      ValueBound(s);
      MulMonotone(N, |s|, k);
      hide Value, Pow2, Bit;
      BitTooHigh(Value(s), N * |s|, BitAt(k, n));
      BitZero(n);
    } else {
      BlockOfValue(s, k);
      hide Value, Pow2, Bit, Shr, Low;
      BitShr(Value(s), N * k, n);
      BitTruncate(Value(s[k..]), N, n);
    }
  }

  /** The block that holds bit `bi`. */
  function BlockIndex(bi: nat): nat {
    bi / N
  }

  function BitIndex(bi: nat): (r: nat)
    ensures r < N
  {
    bi % N
  }

  lemma BitPosition(bi: nat)
    ensures BitAt(BlockIndex(bi), BitIndex(bi)) == bi
  {
    DivModDefinition(bi, N);
  }

  lemma BitOfValue(s: seq<Blk>, bi: nat)
    ensures Bit(Value(s), bi) <==> Bit(BlockOf(s, BlockIndex(bi)), BitIndex(bi))
  {
    BitPosition(bi);
    hide BlockIndex, BitIndex, BitAt;
    BitOfBlock(s, BlockIndex(bi), BitIndex(bi));
  }

  lemma BlockOfValue(s: seq<Blk>, k: nat)
    requires k < |s|
    ensures Value(s[k..]) == Shr(Value(s), N * k) && Low(Value(s[k..]), N) == s[k]
  {
    hide *;
    var t := s[k..];
    assert t[..1] == [s[k]];
    ValueOfSingle(s[k]);
    ValueBound(s[..k]);
    ValueSplit(s, k);
    ValueSplit(t, 1);
    WeightIs(1);
    WeightIs(k);
    OneBlock(s[k]);
    ShrIs(Value(s), N * k, Value(t), Value(s[..k]));
    ShrIs(Value(t), N, Value(t[1..]), s[k]);
  }

  lemma WeightIs(k: nat)
    ensures Weight(k) == Pow2(N * k)
  {
  }

  lemma OneBlock(x: Blk)
    ensures N * 1 == N && x < Pow2(N)
  {
  }

  lemma ShrIs(v: nat, n: nat, q: nat, r: nat)
    requires v == q * Pow2(n) + r && r < Pow2(n)
    ensures Shr(v, n) == q && Low(v, n) == r
  {
    DivModUnique(v, Pow2(n), q, r);
  }

  // ----- one step of each carry or borrow loop -----

  function Flag(b: bool): int {
    if b then 1 else 0
  }

  /** A pending carry or borrow into block `k`. */
  function Carried(b: bool, k: nat): nat {
    if b then Weight(k) else 0
  }

  function Overflow(b: bool): nat {
    if b then BASE else 0
  }

  lemma CarryPasses(k: nat, t: int, z: int, c: bool, c': bool)
    requires t + Overflow(c') == z + Flag(c)
    ensures t * Weight(k) + Carried(c', k + 1) == z * Weight(k) + Carried(c, k)
  {
    WeightSuccessor(k);
    hide Weight;
    MulDistributes(z, Flag(c), Weight(k));
    MulDistributes(z + Flag(c), Overflow(c'), Weight(k));
  }

  lemma BorrowPasses(k: nat, t: int, z: int, c: bool, c': bool)
    requires t - Overflow(c') == z - Flag(c)
    ensures t * Weight(k) - Carried(c', k + 1) == z * Weight(k) - Carried(c, k)
  {
    WeightSuccessor(k);
    hide Weight;
    MulDistributes(z, Flag(c), Weight(k));
    MulDistributes(z - Flag(c), Overflow(c'), Weight(k));
  }

  /** Unsigned wrap-around of a result that over- or underflowed one block. */
  function Wrap(z: int): Blk {
    z % BASE
  }

  lemma WrapRange(z: int)
    requires 0 <= z + BASE && z < 2 * BASE
    ensures Wrap(z) == if z < 0 then z + BASE else if z < BASE then z else z - BASE
  {
    DivModUnique(z, BASE, if z < 0 then -1 else if z < BASE then 0 else 1,
                 if z < 0 then z + BASE else if z < BASE then z else z - BASE);
  }

  /** Machine addition. */
  function WrapAdd(x: Blk, y: Blk): Blk {
    Wrap(x + y)
  }

  /** Machine subtraction. */
  function WrapSub(x: Blk, y: Blk): Blk {
    Wrap(x - y)
  }

  lemma WrapAddCases(x: Blk, y: Blk)
    ensures WrapAdd(x, y) == if x + y < BASE then x + y else x + y - BASE
  {
    WrapRange(x + y);
  }

  lemma WrapSubCases(x: Blk, y: Blk)
    ensures WrapSub(x, y) == if x < y then x - y + BASE else x - y
  {
    WrapRange(x - y);
  }

  /** What the wrap-around test of the addition loops leaves in `temp` and `carryOut`. */
  lemma AddWraps(x: Blk, y: Blk, carryIn: bool)
    ensures var t0 := WrapAdd(x, y);
            var t := if carryIn then WrapAdd(t0, ONE) else t0;
            var carryOut := t0 < x || (carryIn && t == 0);
            t + Overflow(carryOut) == x + y + Flag(carryIn)
  {
    WrapAddCases(x, y);
    WrapAddCases(WrapAdd(x, y), ONE);
    hide WrapAdd;
  }

  /** What the reverse wrap-around test leaves in `temp` and `borrowOut`. */
  lemma SubtractWraps(x: Blk, y: Blk, borrowIn: bool)
    ensures var t0 := WrapSub(x, y);
            var t := if borrowIn then WrapSub(t0, ONE) else t0;
            var borrowOut := t0 > x || (borrowIn && t0 == 0);
            t - Overflow(borrowOut) == x - y - Flag(borrowIn)
  {
    WrapSubCases(x, y);
    WrapSubCases(WrapSub(x, y), ONE);
    hide WrapSub;
  }

  // ----- a number shifted left by less than a block -----

  /** Block `x` of `b << y`. */
  function ShiftedBlock(b: seq<Blk>, x: nat, y: nat): Blk
    requires x <= |b| && y < N
  {
    var part1 := if x == 0 || y == 0 then 0 else Shr(b[x - 1], N - y);
    var part2 := if x == |b| then 0 else Wrap(Shl(b[x], y));
    ShiftedBlockIsSum(b, x, y);
    Or(part1, part2)
  }

  ghost function HighPart(b: seq<Blk>, x: nat, y: nat): nat
    requires x <= |b| && y < N
  {
    if x == 0 then 0 else Shr(b[x - 1], N - y)
  }

  lemma ShiftSplits(x: Blk, y: nat)
    requires y < N
    ensures x * Pow2(y) == Shr(x, N - y) * BASE + Wrap(Shl(x, y))
    ensures Shr(x, N - y) < Pow2(y)
    ensures Wrap(Shl(x, y)) == (x % Pow2(N - y)) * Pow2(y)
  {
    var d, e := Pow2(N - y), Pow2(y);
    Pow2Divides(y, N);
    DivModDefinition(x, d);
    var q, m := x / d, x % d;
    MulDistributes(q * d, m, e);
    MulAssociative(q, d, e);
    MulMonotone(e, m, d - 1);
    MulDistributes(d, 1, e);
    DivModUnique(x * e, BASE, q, m * e);
    if q >= e {
      MulMonotone(d, e, q);
    }
  }

  lemma ShiftedBlockIsSum(b: seq<Blk>, x: nat, y: nat)
    requires x <= |b| && y < N
    ensures var part1 := if x == 0 || y == 0 then 0 else Shr(b[x - 1], N - y);
            var part2 := if x == |b| then 0 else Wrap(Shl(b[x], y));
            part1 == HighPart(b, x, y) && Or(part1, part2) == part1 + part2 < BASE
  {
    var part1 := HighPart(b, x, y);
    if x > 0 {
      ShiftSplits(b[x - 1], y);
    }
    var m: nat := if x == |b| then 0 else b[x] % Pow2(N - y);
    if x < |b| {
      ShiftSplits(b[x], y);
    }
    OrDisjoint(part1, m, y);
    Pow2Divides(y, N);
    MulMonotone(Pow2(y), m, Pow2(N - y) - 1);
    MulDistributes(Pow2(N - y), 1, Pow2(y));
  }

  /** The value of the lowest `j` blocks of `b << y`. */
  ghost function ShiftedValue(b: seq<Blk>, j: nat, y: nat): nat
    requires j <= |b| + 1 && y < N
  {
    if j == 0 then 0
    else ShiftedValue(b, j - 1, y) + Place(ShiftedBlock(b, j - 1, y), j - 1)
  }

  lemma {:induction false} ShiftedPrefix(b: seq<Blk>, j: nat, y: nat)
    requires j <= |b| && y < N
    ensures ShiftedValue(b, j, y) + HighPart(b, j, y) * Weight(j) == Value(b[..j]) * Pow2(y)
  {
    if j != 0 {
      ShiftedPrefix(b, j - 1, y);
      ShiftedStep(b, j - 1, y);
    }
  }

  lemma ShiftedStep(b: seq<Blk>, i: nat, y: nat)
    requires i < |b| && y < N
    requires ShiftedValue(b, i, y) + HighPart(b, i, y) * Weight(i) == Value(b[..i]) * Pow2(y)
    ensures ShiftedValue(b, i + 1, y) + HighPart(b, i + 1, y) * Weight(i + 1) == Value(b[..i + 1]) * Pow2(y)
  {
    var h, h', low := HighPart(b, i, y), HighPart(b, i + 1, y), Wrap(Shl(b[i], y));
    assert ShiftedValue(b, i + 1, y) == ShiftedValue(b, i, y) + (h + low) * Weight(i) by {
      ShiftedBlockIsSum(b, i, y);
    }
    assert b[i] * Pow2(y) == h' * BASE + low by {
      ShiftSplits(b[i], y);
    }
    ValueOfPrefix(b, i);
    WeightSuccessor(i);
    hide *;
    ShiftedAlgebra(ShiftedValue(b, i, y), Value(b[..i]), b[i], h, h', low, Weight(i), Pow2(y));
  }

  lemma ShiftedAlgebra(s: int, v: int, d: int, h: int, h': int, low: int, w: int, e: int)
    requires s + h * w == v * e && d * e == h' * BASE + low
    ensures (s + (h + low) * w) + h' * (BASE * w) == (v + d * w) * e
  {
    MulDistributes(v, d * w, e);
    MulAssociative(d, w, e);
    MulAssociative(d, e, w);
    MulDistributes(h, low, w);
    MulDistributes(h' * BASE, low, w);
    MulAssociative(h', BASE, w);
  }

  lemma ShiftedTotal(b: seq<Blk>, y: nat)
    requires y < N
    ensures ShiftedValue(b, |b| + 1, y) == Value(b) * Pow2(y)
  {
    ShiftedPrefix(b, |b|, y);
    ShiftedBlockIsSum(b, |b|, y);
    assert b[..|b|] == b;
  }
}
