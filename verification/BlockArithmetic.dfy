/** The loops over arrays of blocks, each against the value it computes. */
module BlockArithmetic {
  import opened Arith
  import opened Bits
  import opened Blocks

  // ----- addition -----

  /** The loops of `Add`: writes `a[..alen] + b[..blen]`, the longer operand first, to `dst`. */
  method AddBlocks(dst: array<Blk>, a: array<Blk>, alen: nat, b: array<Blk>, blen: nat) returns (carryIn: bool)
    requires blen <= alen <= a.Length && blen <= b.Length && alen <= dst.Length && dst != a && dst != b
    modifies dst
    ensures AddedSoFar(dst[..alen], a[..alen], b[..blen], carryIn)
  {
    ghost var x, y := a[..alen], b[..blen];
    AddStart(x, y);
    hide *;
    var i := 0;
    carryIn := false;
    while i < blen
      invariant i <= blen
      invariant AddedSoFar(dst[..i], x, y, carryIn)
    {
      ghost var done := dst[..i];
      var temp := WrapAdd(a[i], b[i]);
      var carryOut := temp < a[i];
      if carryIn {
        temp := WrapAdd(temp, ONE);
        carryOut := carryOut || temp == 0;
      }
      dst[i] := temp;
      AddBlock(done, x, y, carryIn, temp, carryOut);
      assert dst[..i + 1] == done + [temp];
      carryIn := carryOut;
      i := i + 1;
    }
    carryIn := AddRest(dst, a, alen, b, blen, carryIn);
  }

  /** The part of the longer operand above the shorter one. */
  method AddRest(dst: array<Blk>, a: array<Blk>, alen: nat, b: array<Blk>, blen: nat, carry: bool)
    returns (carryIn: bool)
    requires blen <= alen <= a.Length && blen <= b.Length && alen <= dst.Length && dst != a && dst != b
    requires AddedSoFar(dst[..blen], a[..alen], b[..blen], carry)
    modifies dst
    ensures AddedSoFar(dst[..alen], a[..alen], b[..blen], carryIn)
  {
    hide *;
    ghost var x, y := a[..alen], b[..blen];
    var i := blen;
    carryIn := carry;
    while i < alen && carryIn
      invariant blen <= i <= alen
      invariant AddedSoFar(dst[..i], x, y, carryIn)
    {
      ghost var done := dst[..i];
      var temp := WrapAdd(a[i], ONE);
      carryIn := temp == 0;
      dst[i] := temp;
      AddCarry(done, x, y, true, temp, carryIn);
      assert dst[..i + 1] == done + [temp];
      i := i + 1;
    }
    while i < alen
      invariant blen <= i <= alen && (carryIn ==> i == alen)
      invariant AddedSoFar(dst[..i], x, y, carryIn)
    {
      ghost var done := dst[..i];
      dst[i] := a[i];
      AddCarry(done, x, y, false, x[i], false);
      assert dst[..i + 1] == done + [x[i]];
      i := i + 1;
    }
  }

  /** The blocks of `x + y` written so far, and the carry into the next one. */
  ghost predicate AddedSoFar(done: seq<Blk>, x: seq<Blk>, y: seq<Blk>, carry: bool)
    requires |done| <= |x| && |y| <= |x|
  {
    var i := |done|;
    Value(done) + Carried(carry, i) == Value(x[..i]) + Value(if i <= |y| then y[..i] else y)
  }

  lemma AddStart(x: seq<Blk>, y: seq<Blk>)
    requires |y| <= |x|
    ensures AddedSoFar([], x, y, false)
  {
  }

  lemma AddBlock(done: seq<Blk>, x: seq<Blk>, y: seq<Blk>, carryIn: bool, temp: Blk, carryOut: bool)
    requires |done| < |y| <= |x| && AddedSoFar(done, x, y, carryIn)
    requires var i := |done|;
             var t0 := WrapAdd(x[i], y[i]);
             && temp == (if carryIn then WrapAdd(t0, ONE) else t0)
             && carryOut == (t0 < x[i] || (carryIn && temp == 0))
    ensures AddedSoFar(done + [temp], x, y, carryOut)
  {
    var i := |done|;
    ghost var total := Value(x[..i]) + Value(y[..i]);
    AddWraps(x[i], y[i], carryIn);
    ValueOfPrefix(x, i);
    ValueOfPrefix(y, i);
    hide Value, Weight, Place, WrapAdd, Wrap, Flag, Carried, Overflow;
    MulDistributes(x[i], y[i], Weight(i));
    CarryInto(done, temp, total, x[i] as int + y[i] as int, carryIn, carryOut);
  }

  lemma AddCarry(done: seq<Blk>, x: seq<Blk>, y: seq<Blk>, carryIn: bool, temp: Blk, carryOut: bool)
    requires |y| <= |done| < |x| && AddedSoFar(done, x, y, carryIn)
    requires var i := |done|;
             if carryIn then temp == WrapAdd(x[i], ONE) && carryOut == (temp == 0) else temp == x[i] && !carryOut
    ensures AddedSoFar(done + [temp], x, y, carryOut)
  {
    var i := |done|;
    WrapAddCases(x[i], ONE);
    ValueOfPrefix(x, i);
    assert y[..|y|] == y;
    hide Value, Weight, Place, WrapAdd, Wrap;
    CarryInto(done, temp, Value(x[..i]) + Value(y), x[i], carryIn, carryOut);
  }

  lemma AddFinish(done: seq<Blk>, x: seq<Blk>, y: seq<Blk>, carry: bool)
    requires |done| == |x| >= |y| && Canonical(x) && x != [] && AddedSoFar(done, x, y, carry)
    ensures var s := if carry then done + [ONE] else done;
            Canonical(s) && Value(s) == Value(x) + Value(y)
  {
    assert x[..|x|] == x && y[..|y|] == y;
    if carry {
      assert (done + [ONE])[..|x|] == done;
    } else {
      KeepsLength(done, x);
    }
  }

  /** The partial sum extended by one block. */
  lemma CarryInto(done: seq<Blk>, t: Blk, total: int, z: int, c: bool, c': bool)
    requires Value(done) + Carried(c, |done|) == total && t + Overflow(c') == z + Flag(c)
    ensures Value(done + [t]) + Carried(c', |done| + 1) == total + z * Weight(|done|)
  {
    ValueAppend(done, t);
    CarryPasses(|done|, t, z, c, c');
    hide *;
  }

  // ----- subtraction -----

  /** The loops of `subtract`: writes `a[..alen] - b[..blen]` to `dst`, up to a borrow past the top. */
  method SubtractBlocks(dst: array<Blk>, a: array<Blk>, alen: nat, b: array<Blk>, blen: nat) returns (borrowIn: bool)
    requires blen <= alen <= a.Length && blen <= b.Length && alen <= dst.Length && dst != a && dst != b
    modifies dst
    ensures SubtractedSoFar(dst[..alen], a[..alen], b[..blen], borrowIn)
  {
    ghost var x, y := a[..alen], b[..blen];
    SubtractStart(x, y);
    hide *;
    var i := 0;
    borrowIn := false;
    while i < blen
      invariant i <= blen
      invariant SubtractedSoFar(dst[..i], x, y, borrowIn)
    {
      ghost var done := dst[..i];
      var temp := WrapSub(a[i], b[i]);
      var borrowOut := temp > a[i];
      if borrowIn {
        borrowOut := borrowOut || temp == 0;
        temp := WrapSub(temp, ONE);
      }
      dst[i] := temp;
      SubtractBlock(done, x, y, borrowIn, temp, borrowOut);
      assert dst[..i + 1] == done + [temp];
      borrowIn := borrowOut;
      i := i + 1;
    }
    borrowIn := SubtractRest(dst, a, alen, b, blen, borrowIn);
  }

  /** The part of the minuend above the subtrahend. */
  method SubtractRest(dst: array<Blk>, a: array<Blk>, alen: nat, b: array<Blk>, blen: nat, borrow: bool)
    returns (borrowIn: bool)
    requires blen <= alen <= a.Length && blen <= b.Length && alen <= dst.Length && dst != a && dst != b
    requires SubtractedSoFar(dst[..blen], a[..alen], b[..blen], borrow)
    modifies dst
    ensures SubtractedSoFar(dst[..alen], a[..alen], b[..blen], borrowIn)
  {
    hide *;
    ghost var x, y := a[..alen], b[..blen];
    var i := blen;
    borrowIn := borrow;
    while i < alen && borrowIn
      invariant blen <= i <= alen
      invariant SubtractedSoFar(dst[..i], x, y, borrowIn)
    {
      ghost var done := dst[..i];
      borrowIn := a[i] == 0;
      dst[i] := WrapSub(a[i], ONE);
      SubtractBorrow(done, x, y, true, dst[i], borrowIn);
      assert dst[..i + 1] == done + [dst[i]];
      i := i + 1;
    }
    if !borrowIn {
      while i < alen
        invariant blen <= i <= alen
        invariant SubtractedSoFar(dst[..i], x, y, false)
      {
        ghost var done := dst[..i];
        dst[i] := a[i];
        SubtractBorrow(done, x, y, false, x[i], false);
        assert dst[..i + 1] == done + [x[i]];
        i := i + 1;
      }
    }
  }

  /** The blocks of `x - y` written so far, and the borrow from the next one. */
  ghost predicate SubtractedSoFar(done: seq<Blk>, x: seq<Blk>, y: seq<Blk>, borrow: bool)
    requires |done| <= |x| && |y| <= |x|
  {
    var i := |done|;
    Value(done) - Carried(borrow, i) == Value(x[..i]) - Value(if i <= |y| then y[..i] else y)
  }

  lemma SubtractStart(x: seq<Blk>, y: seq<Blk>)
    requires |y| <= |x|
    ensures SubtractedSoFar([], x, y, false)
  {
  }

  lemma SubtractBlock(done: seq<Blk>, x: seq<Blk>, y: seq<Blk>, borrowIn: bool, temp: Blk, borrowOut: bool)
    requires |done| < |y| <= |x| && SubtractedSoFar(done, x, y, borrowIn)
    requires var i := |done|;
             var t0 := WrapSub(x[i], y[i]);
             && temp == (if borrowIn then WrapSub(t0, ONE) else t0)
             && borrowOut == (t0 > x[i] || (borrowIn && t0 == 0))
    ensures SubtractedSoFar(done + [temp], x, y, borrowOut)
  {
    var i := |done|;
    ghost var total := Value(x[..i]) - Value(y[..i]);
    SubtractWraps(x[i], y[i], borrowIn);
    ValueOfPrefix(x, i);
    ValueOfPrefix(y, i);
    hide Value, Weight, Place, WrapSub, Wrap, Flag, Carried, Overflow;
    MulDistributes(x[i], y[i], Weight(i));
    BorrowInto(done, temp, total, x[i] as int - y[i] as int, borrowIn, borrowOut);
  }

  lemma SubtractBorrow(done: seq<Blk>, x: seq<Blk>, y: seq<Blk>, borrowIn: bool, temp: Blk, borrowOut: bool)
    requires |y| <= |done| < |x| && SubtractedSoFar(done, x, y, borrowIn)
    requires var i := |done|;
             if borrowIn then temp == WrapSub(x[i], ONE) && borrowOut == (x[i] == 0) else temp == x[i] && !borrowOut
    ensures SubtractedSoFar(done + [temp], x, y, borrowOut)
  {
    var i := |done|;
    WrapSubCases(x[i], ONE);
    ValueOfPrefix(x, i);
    assert y[..|y|] == y;
    hide Value, Weight, Place, WrapSub, Wrap;
    BorrowInto(done, temp, Value(x[..i]) - Value(y), x[i], borrowIn, borrowOut);
  }

  lemma SubtractFinish(done: seq<Blk>, x: seq<Blk>, y: seq<Blk>, borrow: bool)
    requires |done| == |x| >= |y| && SubtractedSoFar(done, x, y, borrow)
    ensures borrow <==> Value(x) < Value(y)
    ensures !borrow ==> Value(done) == Value(x) - Value(y)
  {
    assert x[..|x|] == x && y[..|y|] == y;
    ValueBound(done);
  }

  /** The partial difference extended by one block. */
  lemma BorrowInto(done: seq<Blk>, t: Blk, total: int, z: int, c: bool, c': bool)
    requires Value(done) - Carried(c, |done|) == total && t - Overflow(c') == z - Flag(c)
    ensures Value(done + [t]) - Carried(c', |done| + 1) == total + z * Weight(|done|)
  {
    ValueAppend(done, t);
    BorrowPasses(|done|, t, z, c, c');
    hide *;
  }

  // ----- multiplication -----

  /** One set bit of `multiply`: adds `b << (i blocks and i2 bits)` to `dst[..n]`, which has the room. */
  method AddShifted(dst: array<Blk>, n: nat, b: array<Blk>, blen: nat, i: nat, i2: nat)
    requires n <= dst.Length && blen <= b.Length && dst != b && i + blen < n && i2 < N
    requires Value(dst[..n]) + Shifted(Value(b[..blen]), i, i2) < Weight(n)
    modifies dst
    ensures dst[n..] == old(dst[n..])
    ensures Value(dst[..n]) == old(Value(dst[..n])) + Shifted(Value(b[..blen]), i, i2)
  {
    ghost var y, total := b[..blen], Value(dst[..n]) + Shifted(Value(b[..blen]), i, i2);
    var j, k, carryIn := 0, i, false;
    AddedShiftStart(dst[..n], y, i, i2);
    hide *;
    while j <= blen
      invariant j <= blen + 1 && k == i + j && dst[n..] == old(dst[n..])
      invariant AddedShift(old(dst[..n]), dst[..n], y, i, i2, j, carryIn)
    {
      ghost var d := dst[..n];
      var s := ShiftedBlock(b[..blen], j, i2);
      var temp := WrapAdd(dst[k], s);
      var carryOut := temp < dst[k];
      if carryIn {
        temp := WrapAdd(temp, ONE);
        carryOut := carryOut || temp == 0;
      }
      dst[k] := temp;
      AddedShiftStep(old(dst[..n]), d, y, i, i2, j, carryIn, temp, carryOut);
      assert dst[..n] == d[k := temp];
      carryIn := carryOut;
      j, k := j + 1, k + 1;
    }
    AddedShiftEnd(old(dst[..n]), dst[..n], y, i, i2, carryIn);
    CarryUp(dst, n, k, carryIn, total);
  }

  /** Takes a carry on through the blocks above; it stops before the end because the total fits. */
  method CarryUp(dst: array<Blk>, n: nat, start: nat, carry: bool, ghost total: nat)
    requires start <= n <= dst.Length && total < Weight(n) && Value(dst[..n]) + Carried(carry, start) == total
    modifies dst
    ensures dst[n..] == old(dst[n..]) && Value(dst[..n]) == total
  {
    hide *;
    var k, carryIn := start, carry;
    while carryIn
      invariant k <= n && dst[n..] == old(dst[n..])
      invariant Value(dst[..n]) + Carried(carryIn, k) == total
      decreases n - k
    {
      CarryFits(dst[..n], k, total);
      ghost var d := dst[..n];
      dst[k] := WrapAdd(dst[k], ONE);
      carryIn := dst[k] == 0;
      RollOver(d, k);
      assert dst[..n] == d[k := dst[k]];
      k := k + 1;
    }
    NoCarry(k);
  }

  lemma NoCarry(k: nat)
    ensures Carried(false, k) == 0
  {
  }

  lemma CarryFits(d: seq<Blk>, k: nat, total: nat)
    requires k <= |d| && Value(d) + Carried(true, k) == total < Weight(|d|)
    ensures k < |d|
  {
  }

  lemma RollOver(d: seq<Blk>, k: nat)
    requires k < |d|
    ensures var t := WrapAdd(d[k], ONE);
            Value(d[k := t]) + Carried(t == 0, k + 1) == Value(d) + Carried(true, k)
  {
    WrapAddCases(d[k], ONE);
    CarryAt(d, k, WrapAdd(d[k], ONE), 0, true, WrapAdd(d[k], ONE) == 0);
  }

  /** `d` is `d0` plus the lowest `j` blocks of `y << i2`, from block `i` on. */
  ghost predicate AddedShift(d0: seq<Blk>, d: seq<Blk>, y: seq<Blk>, i: nat, i2: nat, j: nat, carry: bool)
    requires i2 < N && j <= |y| + 1
  {
    Value(d) + Carried(carry, i + j) == Value(d0) + ShiftedValue(y, j, i2) * Weight(i)
  }

  lemma AddedShiftStart(d: seq<Blk>, y: seq<Blk>, i: nat, i2: nat)
    requires i2 < N
    ensures AddedShift(d, d, y, i, i2, 0, false)
  {
  }

  lemma AddedShiftStep(d0: seq<Blk>, d: seq<Blk>, y: seq<Blk>, i: nat, i2: nat, j: nat, carryIn: bool,
                       temp: Blk, carryOut: bool)
    requires i2 < N && j <= |y| && i + j < |d| && AddedShift(d0, d, y, i, i2, j, carryIn)
    requires var k := i + j;
             var t0 := WrapAdd(d[k], ShiftedBlock(y, j, i2));
             && temp == (if carryIn then WrapAdd(t0, ONE) else t0)
             && carryOut == (t0 < d[k] || (carryIn && temp == 0))
    ensures AddedShift(d0, d[i + j := temp], y, i, i2, j + 1, carryOut)
  {
    var z := ShiftedBlock(y, j, i2);
    AddWraps(d[i + j], z, carryIn);
    CarryAt(d, i + j, temp, z, carryIn, carryOut);
    ShiftedValueStep(y, i, j, i2);
    hide Value, ShiftedValue, ShiftedBlock, Weight, Carried, WrapAdd;
  }

  lemma ShiftedValueStep(y: seq<Blk>, i: nat, j: nat, i2: nat)
    requires i2 < N && j <= |y|
    ensures ShiftedValue(y, j + 1, i2) * Weight(i)
         == ShiftedValue(y, j, i2) * Weight(i) + ShiftedBlock(y, j, i2) * Weight(i + j)
  {
    var z := ShiftedBlock(y, j, i2);
    assert ShiftedValue(y, j + 1, i2) == ShiftedValue(y, j, i2) + z * Weight(j);
    WeightAdd(i, j);
    hide *;
    MulDistributes(ShiftedValue(y, j, i2), z * Weight(j), Weight(i));
    MulAssociative(z, Weight(j), Weight(i));
  }

  lemma AddedShiftEnd(d0: seq<Blk>, d: seq<Blk>, y: seq<Blk>, i: nat, i2: nat, carry: bool)
    requires i2 < N && AddedShift(d0, d, y, i, i2, |y| + 1, carry)
    ensures Value(d) + Carried(carry, i + |y| + 1) == Value(d0) + Shifted(Value(y), i, i2)
  {
    ShiftedTotal(y, i2);
    hide Value, ShiftedValue, Weight, Carried;
  }

  /** Block `k` of `d` takes `z` and the incoming carry. */
  lemma CarryAt(d: seq<Blk>, k: nat, t: Blk, z: int, c: bool, c': bool)
    requires k < |d| && t + Overflow(c') == d[k] + z + Flag(c)
    ensures Value(d[k := t]) + Carried(c', k + 1) == Value(d) + Carried(c, k) + z * Weight(k)
  {
    ValueUpdate(d, k, t);
    CarryPasses(k, t - d[k], z, c, c');
    hide *;
  }

  /** The loops of `multiply`. */
  method MultiplyBlocks(dst: array<Blk>, a: array<Blk>, alen: nat, b: array<Blk>, blen: nat)
    requires 0 < alen <= a.Length && 0 < blen <= b.Length && alen + blen <= dst.Length && dst != a && dst != b
    modifies dst
    ensures Value(dst[..alen + blen]) == Value(a[..alen]) * Value(b[..blen])
  {
    var n := alen + blen;
    ghost var x, y := a[..alen], b[..blen];
    var i := 0;
    while i < n
      invariant i <= n && forall k :: 0 <= k < i ==> dst[k] == 0
    {
      dst[i] := ZERO;
      i := i + 1;
    }
    hide *;
    ProductStart(dst[..n], x, y);
    i := 0;
    while i < alen
      invariant i <= alen && PartialProduct(dst[..n], x, y, BitAt(i, 0))
    {
      var i2 := 0;
      while i2 < N
        invariant i2 <= N && PartialProduct(dst[..n], x, y, BitAt(i, i2))
      {
        ProductStep(dst[..n], x, y, i, i2);
        NextBitAt(i, i2);
        assert a[i] == x[i];
        if And(a[i], Shl(1, i2)) != 0 {
          AddShifted(dst, n, b, blen, i, i2);
        }
        i2 := i2 + 1;
      }
      NextBlock(i);
      i := i + 1;
    }
    ProductEnd(dst[..n], x, y);
  }

  /** `d` is the product of `y` and the lowest `bits` bits of `x`. */
  ghost predicate PartialProduct(d: seq<Blk>, x: seq<Blk>, y: seq<Blk>, bits: nat) {
    Value(d) == Low(Value(x), bits) * Value(y)
  }

  lemma ProductStart(d: seq<Blk>, x: seq<Blk>, y: seq<Blk>)
    requires forall k :: 0 <= k < |d| ==> d[k] == 0
    ensures PartialProduct(d, x, y, BitAt(0, 0))
  {
    ValueOfZeros(d);
    LowBound(Value(x), 0);
  }

  /** Bit `i2` of block `i` decides whether the partial product grows, and there is room if it does. */
  lemma ProductStep(d: seq<Blk>, x: seq<Blk>, y: seq<Blk>, i: nat, i2: nat)
    requires |d| == |x| + |y| && i < |x| && i2 < N && PartialProduct(d, x, y, BitAt(i, i2))
    ensures And(x[i], Shl(1, i2)) == 0 ==> PartialProduct(d, x, y, BitAt(i, i2) + 1)
    ensures And(x[i], Shl(1, i2)) != 0 ==>
              var s := Value(d) + Shifted(Value(y), i, i2);
              s < Weight(|d|) && forall d' :: Value(d') == s ==> PartialProduct(d', x, y, BitAt(i, i2) + 1)
  {
    var bi := BitAt(i, i2);
    TestBit(x, i, i2);
    ValueBound(x);
    ValueBound(y);
    hide Value, Pow2, Weight, Bit, And, Shl, Low, Shifted;
    ProductFits(Value(x), Value(y), |x|, |y|, bi + 1);
    ProductGrows(Value(x), Value(y), i, i2);
  }

  lemma TestBit(x: seq<Blk>, i: nat, i2: nat)
    requires i < |x| && i2 < N
    ensures And(x[i], Shl(1, i2)) != 0 <==> Bit(Value(x), BitAt(i, i2))
  {
    BitOfBlock(x, i, i2);
    AndPow2(x[i], i2);
    assert Shl(1, i2) == Pow2(i2);
  }

  lemma ProductGrows(x: nat, y: nat, i: nat, i2: nat)
    ensures var bi := BitAt(i, i2);
            Low(x, bi + 1) * y == Low(x, bi) * y + if Bit(x, bi) then Shifted(y, i, i2) else 0
  {
    var bi := BitAt(i, i2);
    TruncateSuccessor(x, bi);
    ShiftedIsPow2(y, i, i2);
    hide *;
    MulDistributes(Low(x, bi), if Bit(x, bi) then Pow2(bi) else 0, y);
  }

  lemma ProductFits(x: nat, y: nat, n: nat, m: nat, bits: nat)
    requires x < Weight(n) && y < Weight(m)
    ensures Low(x, bits) * y < Weight(n + m)
  {
    LowBound(x, bits);
    WeightAdd(n, m);
    hide *;
    ProductBound(Low(x, bits), y, Weight(n), Weight(m));
  }

  lemma ProductBound(x: nat, y: nat, v: nat, w: nat)
    requires x < v && y < w
    ensures x * y < v * w
  {
    MulMonotone(x, y, w);
    MulMonotone(w, x + 1, v);
    MulDistributes(x, 1, w);
  }

  lemma ProductEnd(d: seq<Blk>, x: seq<Blk>, y: seq<Blk>)
    requires PartialProduct(d, x, y, BitAt(|x|, 0))
    ensures Value(d) == Value(x) * Value(y)
  {
    ValueBound(x);
    LowBound(Value(x), N * |x|);
  }

  // ----- division -----

  /** One trial subtraction of `divideWithRemainder`: `blk` minus `b << (i blocks and i2 bits)`,
      its blocks from `i` up to `k` left in `buf`. The ghost `t` is the whole difference. */
  method SubtractShifted(blk: array<Blk>, buf: array<Blk>, origLen: nat, b: array<Blk>, blen: nat, i: nat, i2: nat)
    returns (k: nat, borrowIn: bool, ghost t: seq<Blk>)
    requires origLen < blk.Length && origLen < buf.Length && blen <= b.Length && buf != blk && buf != b
    requires i + blen <= origLen && i2 < N
    modifies buf
    ensures i <= k <= origLen + 1 && |t| == origLen + 1 && (borrowIn ==> k >= origLen)
    ensures forall x :: 0 <= x < |t| ==> t[x] == if i <= x < k then buf[x] else blk[x]
    ensures Value(t) - Carried(borrowIn, k) == Value(blk[..origLen + 1]) - Shifted(Value(b[..blen]), i, i2)
  {
    ghost var y, d0 := b[..blen], blk[..origLen + 1];
    t := d0;
    k, borrowIn := i, false;
    var j := 0;
    SubtractedShiftStart(d0, y, i, i2);
    hide *;
    while j <= blen
      invariant j <= blen + 1 && k == i + j && |t| == origLen + 1
      invariant forall x :: 0 <= x < |t| ==> t[x] == if i <= x < k then buf[x] else blk[x]
      invariant SubtractedShift(d0, t, y, i, i2, j, borrowIn)
    {
      var s := ShiftedBlock(b[..blen], j, i2);
      var temp := WrapSub(blk[k], s);
      var borrowOut := temp > blk[k];
      if borrowIn {
        borrowOut := borrowOut || temp == 0;
        temp := WrapSub(temp, ONE);
      }
      buf[k] := temp;
      SubtractedShiftStep(d0, t, y, i, i2, j, borrowIn, temp, borrowOut);
      t := t[k := temp];
      borrowIn := borrowOut;
      j, k := j + 1, k + 1;
    }
    SubtractedShiftEnd(d0, t, y, i, i2, borrowIn);
    k, borrowIn, t := RollBorrow(blk, buf, origLen, i, k, borrowIn, t);
  }

  /** Takes a borrow on through the blocks above. */
  method RollBorrow(blk: array<Blk>, buf: array<Blk>, origLen: nat, ghost i: nat, k0: nat, borrow: bool,
                    ghost t0: seq<Blk>)
    returns (k: nat, borrowIn: bool, ghost t: seq<Blk>)
    requires origLen < blk.Length && origLen < buf.Length && buf != blk && i <= k0 <= origLen + 1 && |t0| == origLen + 1
    requires forall x :: 0 <= x < |t0| ==> t0[x] == if i <= x < k0 then buf[x] else blk[x]
    modifies buf
    ensures k0 <= k <= origLen + 1 && |t| == origLen + 1 && (borrowIn ==> k >= origLen)
    ensures forall x :: 0 <= x < |t| ==> t[x] == if i <= x < k then buf[x] else blk[x]
    ensures Value(t) - Carried(borrowIn, k) == Value(t0) - Carried(borrow, k0)
  {
    hide *;
    k, borrowIn, t := k0, borrow, t0;
    while k < origLen && borrowIn
      invariant k0 <= k <= origLen + 1 && |t| == origLen + 1
      invariant forall x :: 0 <= x < |t| ==> t[x] == if i <= x < k then buf[x] else blk[x]
      invariant Value(t) - Carried(borrowIn, k) == Value(t0) - Carried(borrow, k0)
    {
      borrowIn := blk[k] == 0;
      buf[k] := WrapSub(blk[k], ONE);
      RollUnder(t, k);
      t := t[k := buf[k]];
      k := k + 1;
    }
  }

  lemma RollUnder(d: seq<Blk>, k: nat)
    requires k < |d|
    ensures Value(d[k := WrapSub(d[k], ONE)]) - Carried(d[k] == 0, k + 1) == Value(d) - Carried(true, k)
  {
    WrapSubCases(d[k], ONE);
    BorrowAt(d, k, WrapSub(d[k], ONE), 0, true, d[k] == 0);
  }

  /** `d` is `d0` minus the lowest `j` blocks of `y << i2`, from block `i` on. */
  ghost predicate SubtractedShift(d0: seq<Blk>, d: seq<Blk>, y: seq<Blk>, i: nat, i2: nat, j: nat, borrow: bool)
    requires i2 < N && j <= |y| + 1
  {
    Value(d) - Carried(borrow, i + j) == Value(d0) - ShiftedValue(y, j, i2) * Weight(i)
  }

  lemma SubtractedShiftStart(d: seq<Blk>, y: seq<Blk>, i: nat, i2: nat)
    requires i2 < N
    ensures SubtractedShift(d, d, y, i, i2, 0, false)
  {
  }

  lemma SubtractedShiftStep(d0: seq<Blk>, d: seq<Blk>, y: seq<Blk>, i: nat, i2: nat, j: nat, borrowIn: bool,
                            temp: Blk, borrowOut: bool)
    requires i2 < N && j <= |y| && i + j < |d| && SubtractedShift(d0, d, y, i, i2, j, borrowIn)
    requires var k := i + j;
             var t0 := WrapSub(d[k], ShiftedBlock(y, j, i2));
             && temp == (if borrowIn then WrapSub(t0, ONE) else t0)
             && borrowOut == (t0 > d[k] || (borrowIn && t0 == 0))
    ensures SubtractedShift(d0, d[i + j := temp], y, i, i2, j + 1, borrowOut)
  {
    var z := ShiftedBlock(y, j, i2);
    SubtractWraps(d[i + j], z, borrowIn);
    BorrowAt(d, i + j, temp, z, borrowIn, borrowOut);
    ShiftedValueStep(y, i, j, i2);
    hide Value, ShiftedValue, ShiftedBlock, Weight, Carried, WrapSub;
  }

  lemma SubtractedShiftEnd(d0: seq<Blk>, d: seq<Blk>, y: seq<Blk>, i: nat, i2: nat, borrow: bool)
    requires i2 < N && SubtractedShift(d0, d, y, i, i2, |y| + 1, borrow)
    ensures Value(d) - Carried(borrow, i + |y| + 1) == Value(d0) - Shifted(Value(y), i, i2)
  {
    ShiftedTotal(y, i2);
    hide Value, ShiftedValue, Weight, Carried;
  }

  /** Block `k` of `d` gives up `z` and the incoming borrow. */
  lemma BorrowAt(d: seq<Blk>, k: nat, t: Blk, z: int, c: bool, c': bool)
    requires k < |d| && t - Overflow(c') == d[k] - z - Flag(c)
    ensures Value(d[k := t]) - Carried(c', k + 1) == Value(d) - Carried(c, k) - z * Weight(k)
  {
    ValueUpdate(d, k, t);
    BorrowPasses(k, t - d[k], -z, c, c');
    hide *;
    MulDistributes(0, z, Weight(k));
  }

  /** The loops of `divideWithRemainder`: the quotient goes to `q[..qlen]`, the remainder stays in `blk`. */
  method DivideBlocks(blk: array<Blk>, origLen: nat, b: array<Blk>, blen: nat, q: array<Blk>, qlen: nat)
    requires 0 < blen <= b.Length && b[blen - 1] != 0 && origLen < blk.Length && blk[origLen] == 0
    requires blen <= origLen && qlen == origLen - blen + 1 <= q.Length && blk != b && blk != q && q != b
    modifies blk, q
    ensures blk[origLen + 1..] == old(blk[origLen + 1..])
    ensures Quotient(old(Value(blk[..origLen + 1])), Value(b[..blen]), Value(q[..qlen]), Value(blk[..origLen + 1]), 0)
  {
    var subtractBuf := new Blk[origLen + 1];
    ghost var y, a := b[..blen], Value(blk[..origLen + 1]);
    ZeroBlocks(q, qlen);
    QuotientStart(blk[..origLen + 1], y, q[..qlen]);
    FirstBit();
    assert ZERO == 0;
    hide *;
    var i := qlen;
    while i > 0
      invariant 0 <= i <= qlen && forall x :: 0 <= x < i ==> q[x] == 0
      invariant blk[origLen + 1..] == old(blk[origLen + 1..])
      invariant Quotient(a, Value(y), Value(q[..qlen]), Value(blk[..origLen + 1]), BitAt(i, 0))
    {
      i := i - 1;
      ghost var p := q[..qlen];
      q[i] := ZERO;
      assert q[..qlen] == p;
      var i2: nat := N;
      ZeroIsMultiple(i2);
      NextBlock(i);
      while i2 > 0
        invariant i2 <= N && Low(q[i], i2) == 0 && forall x :: 0 <= x < i ==> q[x] == 0
        invariant blk[origLen + 1..] == old(blk[origLen + 1..])
        invariant Quotient(a, Value(y), Value(q[..qlen]), Value(blk[..origLen + 1]), BitAt(i, i2))
      {
        i2 := i2 - 1;
        DivideBit(blk, origLen, b, blen, q, qlen, subtractBuf, i, i2, a);
      }
    }
  }

  /** The body of the division loops: tries to take `b << (i blocks and i2 bits)` out of `blk`. */
  method DivideBit(blk: array<Blk>, origLen: nat, b: array<Blk>, blen: nat, q: array<Blk>, qlen: nat,
                   buf: array<Blk>, i: nat, i2: nat, ghost a: nat)
    requires blen <= b.Length && origLen < blk.Length && origLen < buf.Length && i < qlen <= q.Length
    requires i + blen <= origLen && i2 < N && a < Weight(origLen)
    requires blk != b && blk != q && q != b && buf != blk && buf != b && buf != q
    requires Low(q[i], i2 + 1) == 0
    requires Quotient(a, Value(b[..blen]), Value(q[..qlen]), Value(blk[..origLen + 1]), BitAt(i, i2 + 1))
    modifies blk, q, buf
    ensures blk[origLen + 1..] == old(blk[origLen + 1..]) && Low(q[i], i2) == 0
    ensures q[..] == old(q[..])[i := q[i]]
    ensures Quotient(a, Value(b[..blen]), Value(q[..qlen]), Value(blk[..origLen + 1]), BitAt(i, i2))
  {
    hide *;
    ghost var y, d, p := b[..blen], blk[..origLen + 1], q[..qlen];
    var k, borrowIn, t := SubtractShifted(blk, buf, origLen, b, blen, i, i2);
    if borrowIn {
      TrialFails(a, y, p, d, t, k, i, i2);
    } else {
      TrialFits(a, y, p, d, t, k, i, i2);
      q[i] := Or(q[i], Shl(1, i2));
      assert q[..qlen] == p[i := q[i]];
      while k > i
        modifies blk
        invariant i <= k <= origLen + 1 && blk[origLen + 1..] == old(blk[origLen + 1..])
        invariant forall x :: 0 <= x < |t| ==> t[x] == if i <= x < k then buf[x] else blk[x]
      {
        k := k - 1;
        blk[k] := buf[k];
      }
      assert blk[..origLen + 1] == t;
    }
  }

  /** Division in progress: `q` counts the multiples of `b << bits` already taken out of `a`, leaving `r`. */
  ghost predicate Quotient(a: nat, b: nat, q: nat, r: nat, bits: nat) {
    a == q * b + r && r < b * Pow2(bits)
  }

  lemma QuotientStart(d: seq<Blk>, y: seq<Blk>, q: seq<Blk>)
    requires y != [] && y[|y| - 1] != 0 && |d| == |q| + |y| && d[|d| - 1] == 0
    requires forall k :: 0 <= k < |q| ==> q[k] == 0
    ensures Quotient(Value(d), Value(y), Value(q), Value(d), BitAt(|q|, 0)) && Value(d) < Weight(|d| - 1)
  {
    ValueOfZeros(q);
    var n := |d| - 1;
    ValueBound(d[..n]);
    ValueLowerBound(y);
    WeightAdd(|y| - 1, |q|);
    TopBlockIsZero(d);
    WeightOfBits(|q|);
    hide *;
    assert n == |y| - 1 + |q|;
    NothingCounted(Value(d), Value(y), Weight(|y| - 1), Weight(|q|), BitAt(|q|, 0));
  }

  lemma TopBlockIsZero(d: seq<Blk>)
    requires d != [] && d[|d| - 1] == 0
    ensures Value(d) == Value(d[..|d| - 1])
  {
  }

  lemma WeightOfBits(k: nat)
    ensures Weight(k) == Pow2(BitAt(k, 0))
  {
  }

  lemma NothingCounted(v: nat, b: nat, w: nat, e: nat, bits: nat)
    requires v < w * e && w <= b && e == Pow2(bits)
    ensures Quotient(v, b, 0, v, bits)
  {
    MulMonotone(e, w, b);
  }

  /** A trial that succeeds sets the quotient bit, one that fails proves the remainder smaller. */
  lemma TrialFails(a: nat, y: seq<Blk>, p: seq<Blk>, d: seq<Blk>, t: seq<Blk>, k: nat, i: nat, i2: nat)
    requires i < |p| && i2 < N && Low(p[i], i2 + 1) == 0 && |d| == |t| > 0 && k <= |d|
    requires a < Weight(|d| - 1) && Quotient(a, Value(y), Value(p), Value(d), BitAt(i, i2 + 1))
    requires Value(t) - Carried(true, k) == Value(d) - Shifted(Value(y), i, i2)
    requires |d| - 1 <= k && (k < |d| ==> t[k] == d[k])
    ensures Low(p[i], i2) == 0 && Quotient(a, Value(y), Value(p), Value(d), BitAt(i, i2))
  {
    hide *;
    OrSetsBit(p[i], i2);
    NextBitAt(i, i2);
    QuotientBound(a, Value(y), Value(p), Value(d), BitAt(i, i2 + 1));
    BorrowMeansLess(d, t, k, Shifted(Value(y), i, i2));
    ShiftedIsPow2(Value(y), i, i2);
    QuotientNarrows(a, Value(y), Value(p), Value(d), BitAt(i, i2), Shifted(Value(y), i, i2));
  }

  lemma NextBitAt(i: nat, i2: nat)
    ensures BitAt(i, i2 + 1) == BitAt(i, i2) + 1
  {
  }

  lemma QuotientNarrows(a: nat, b: nat, q: nat, r: nat, bits: nat, trial: nat)
    requires Quotient(a, b, q, r, bits + 1) && r < trial == b * Pow2(bits)
    ensures Quotient(a, b, q, r, bits)
  {
  }

  lemma TrialFits(a: nat, y: seq<Blk>, p: seq<Blk>, d: seq<Blk>, t: seq<Blk>, k: nat, i: nat, i2: nat)
    requires i < |p| && i2 < N && Low(p[i], i2 + 1) == 0
    requires Quotient(a, Value(y), Value(p), Value(d), BitAt(i, i2 + 1))
    requires Value(t) - Carried(false, k) == Value(d) - Shifted(Value(y), i, i2)
    ensures var x := Or(p[i], Shl(1, i2));
            x < BASE && Low(x, i2) == 0 && Quotient(a, Value(y), Value(p[i := x]), Value(t), BitAt(i, i2))
  {
    OrSetsBit(p[i], i2);
    ShiftedIsPow2(Value(y), i, i2);
    ValueUpdate(p, i, p[i] + Pow2(i2));
    ShiftedIsPow2(1, i, i2);
    QuotientGrows(a, Value(y), Value(p), Value(d), BitAt(i, i2));
  }

  lemma QuotientBound(a: nat, b: nat, q: nat, r: nat, bits: nat)
    requires Quotient(a, b, q, r, bits)
    ensures r <= a
  {
    MulMonotone(q, 0, b);
  }

  lemma QuotientGrows(a: nat, b: nat, q: nat, r: nat, s: nat)
    requires Quotient(a, b, q, r, s + 1) && r >= b * Pow2(s)
    ensures Quotient(a, b, q + Pow2(s), r - b * Pow2(s), s)
  {
    MulDistributes(q, Pow2(s), b);
    MulAssociative(b, 2, Pow2(s));
  }

  lemma BorrowMeansLess(d: seq<Blk>, t: seq<Blk>, k: nat, x: nat)
    requires |d| == |t| > 0 && |d| - 1 <= k <= |d| && Value(d) < Weight(|d| - 1)
    requires k < |d| ==> t[k] == d[k]
    requires Value(t) - Carried(true, k) == Value(d) - x
    ensures Value(d) < x
  {
    ValueBound(t);
    if k < |d| {
      assert d[k] == 0 by {
        if d[k] != 0 {
          ValueLowerBound(d);
        }
      }
      ValueBound(t[..k]);
    }
  }

  lemma OrSetsBit(x: Blk, n: nat)
    requires n < N && Low(x, n + 1) == 0
    ensures Low(x, n) == 0
    ensures Or(x, Shl(1, n)) == x + Pow2(n) < BASE && Low(x + Pow2(n), n) == 0
  {
    var m: nat := Div(x, Pow2(n + 1));
    LowZeroIsMultiple(x, n + 1);
    MulAssociative(m, 2, Pow2(n));
    MultipleIsLowZero(2 * m, n);
    MulDistributes(2 * m, 1, Pow2(n));
    MultipleIsLowZero(2 * m + 1, n);
    Pow2Divides(n + 1, N);
    OrCommutes(x, Pow2(n));
    OrDisjoint(Pow2(n), m, n + 1);
    assert Shl(1, n) == Pow2(n);
    RoomAbove(m, Pow2(n + 1), Pow2(N - n - 1));
    MulDistributes(m, 1, Pow2(n + 1));
    assert Pow2(n + 1) == 2 * Pow2(n) && x == m * Pow2(n + 1) == 2 * m * Pow2(n);
    assert x + Pow2(n) == (2 * m + 1) * Pow2(n);
    assert Or(x, Shl(1, n)) == x + Pow2(n);
    assert x + Pow2(n) < BASE;
    hide *;
  }

  lemma LowZeroIsMultiple(x: nat, n: nat)
    requires Low(x, n) == 0
    ensures x == Div(x, Pow2(n)) * Pow2(n)
  {
    DivModDefinition(x, Pow2(n));
  }

  lemma MultipleIsLowZero(m: nat, n: nat)
    ensures m * Pow2(n) >= 0 && Low(m * Pow2(n), n) == 0
  {
    MulMonotone(Pow2(n), 0, m);
    DivModUnique(m * Pow2(n), Pow2(n), m, 0);
  }

  lemma RoomAbove(m: nat, e: nat, f: nat)
    requires m * e < e * f
    ensures (m + 1) * e <= e * f
  {
    MulMonotone(e, m + 1, f);
  }

  lemma ZeroIsMultiple(n: nat)
    ensures Low(0, n) == 0
  {
    LowBound(0, n);
  }

  // ----- shifts -----

  /** The loops of `bitShiftLeft`, for a shift by `shiftBlocks` blocks and `shiftBits` bits. */
  method ShiftLeftBlocks(dst: array<Blk>, a: array<Blk>, alen: nat, shiftBlocks: nat, shiftBits: nat)
    requires alen <= a.Length && alen + shiftBlocks < dst.Length && dst != a && shiftBits < N
    modifies dst
    ensures Value(dst[..alen + shiftBlocks + 1]) == Shifted(Value(a[..alen]), shiftBlocks, shiftBits)
    ensures alen == 0 ==> forall x :: 0 <= x <= shiftBlocks ==> dst[x] == 0
  {
    ghost var y := a[..alen];
    ZeroBlocks(dst, shiftBlocks);
    ValueOfZeros(dst[..shiftBlocks]);
    ShiftOfEmpty(y, shiftBits);
    assert LeftShifted(dst[..shiftBlocks], y, shiftBlocks, 0, shiftBits);
    hide *;
    var j, i := 0, shiftBlocks;
    while j <= alen
      invariant j <= alen + 1 && i == shiftBlocks + j && LeftShifted(dst[..i], y, shiftBlocks, j, shiftBits)
      invariant alen == 0 ==> forall x :: 0 <= x < i ==> dst[x] == 0
    {
      ghost var done := dst[..i];
      dst[i] := ShiftedBlock(a[..alen], j, shiftBits);
      assert dst[..i + 1] == done + [dst[i]];
      LeftShiftGrows(done, y, shiftBlocks, j, shiftBits);
      j, i := j + 1, i + 1;
    }
    LeftShiftEnds(dst[..i], y, shiftBlocks, shiftBits);
  }

  /** `done` holds the first `j` blocks of `y << i2`, above `i` zero blocks. */
  ghost predicate LeftShifted(done: seq<Blk>, y: seq<Blk>, i: nat, j: nat, i2: nat)
    requires i2 < N && j <= |y| + 1
  {
    |done| == i + j && Value(done) == ShiftedValue(y, j, i2) * Weight(i)
  }

  lemma LeftShiftGrows(done: seq<Blk>, y: seq<Blk>, i: nat, j: nat, i2: nat)
    requires i2 < N && j <= |y| && LeftShifted(done, y, i, j, i2)
    ensures LeftShifted(done + [ShiftedBlock(y, j, i2)], y, i, j + 1, i2)
  {
    ValueAppend(done, ShiftedBlock(y, j, i2));
    ShiftedValueStep(y, i, j, i2);
    hide Value, ShiftedValue, ShiftedBlock, Weight;
  }

  lemma LeftShiftEnds(done: seq<Blk>, y: seq<Blk>, i: nat, i2: nat)
    requires i2 < N && LeftShifted(done, y, i, |y| + 1, i2)
    ensures Value(done) == Shifted(Value(y), i, i2)
  {
    ShiftedTotal(y, i2);
    ShiftedDefinition(Value(y), i, i2);
    hide Value, ShiftedValue, Weight, Shifted;
  }

  method ZeroBlocks(dst: array<Blk>, n: nat)
    requires n <= dst.Length
    modifies dst
    ensures forall x :: 0 <= x < n ==> dst[x] == 0
  {
    var i := 0;
    while i < n
      invariant i <= n && forall x :: 0 <= x < i ==> dst[x] == 0
    {
      dst[i] := ZERO;
      i := i + 1;
    }
  }

  lemma ShiftedDefinition(v: nat, i: nat, i2: nat)
    ensures Shifted(v, i, i2) == v * Pow2(i2) * Weight(i)
  {
  }

  lemma ShiftOfEmpty(y: seq<Blk>, i2: nat)
    requires i2 < N
    ensures y == [] ==> ShiftedBlock(y, 0, i2) == 0
  {
    ShiftedBlockIsSum(y, 0, i2);
  }

  /** The loop of `bitShiftRight`: the blocks of `a << leftShiftBits` from block `r` on. */
  method ShiftRightBlocks(dst: array<Blk>, a: array<Blk>, alen: nat, r: nat, leftShiftBits: nat)
    requires r <= alen <= a.Length && alen + 1 - r <= dst.Length && dst != a && leftShiftBits < N
    modifies dst
    ensures Value(dst[..alen + 1 - r]) == Div(Value(a[..alen]) * Pow2(leftShiftBits), Weight(r))
  {
    ghost var y := a[..alen];
    var j, i := r, 0;
    EmptyTail(dst[..0], y, r, leftShiftBits);
    hide *;
    while j <= alen
      invariant j <= alen + 1 && j == r + i && RightShifted(dst[..i], y, r, j, leftShiftBits)
    {
      ghost var done := dst[..i];
      dst[i] := ShiftedBlock(a[..alen], j, leftShiftBits);
      assert dst[..i + 1] == done + [dst[i]];
      TailGrows(done, y, r, leftShiftBits);
      j, i := j + 1, i + 1;
    }
    TailIsQuotient(dst[..i], y, r, leftShiftBits);
  }

  /** `done` holds the blocks of `y << y2` from block `r` up to block `j`. */
  ghost predicate RightShifted(done: seq<Blk>, y: seq<Blk>, r: nat, j: nat, y2: nat)
    requires y2 < N && r <= j <= |y| + 1
  {
    Value(done) * Weight(r) + ShiftedValue(y, r, y2) == ShiftedValue(y, j, y2)
  }

  lemma EmptyTail(done: seq<Blk>, y: seq<Blk>, r: nat, y2: nat)
    requires done == [] && r <= |y| && y2 < N
    ensures RightShifted(done, y, r, r, y2)
  {
  }

  lemma TailGrows(done: seq<Blk>, y: seq<Blk>, r: nat, y2: nat)
    requires y2 < N && r + |done| <= |y|
    requires RightShifted(done, y, r, r + |done|, y2)
    ensures RightShifted(done + [ShiftedBlock(y, r + |done|, y2)], y, r, r + |done| + 1, y2)
  {
    var z, i := ShiftedBlock(y, r + |done|, y2), |done|;
    ValueAppend(done, z);
    WeightAdd(i, r);
    assert ShiftedValue(y, r + i + 1, y2) == ShiftedValue(y, r + i, y2) + z * Weight(i + r);
    hide Value, ShiftedValue, ShiftedBlock, Weight;
    MulDistributes(Value(done), z * Weight(i), Weight(r));
    MulAssociative(z, Weight(i), Weight(r));
  }

  lemma {:induction false} ShiftedValueBound(y: seq<Blk>, j: nat, y2: nat)
    requires y2 < N && j <= |y| + 1
    ensures ShiftedValue(y, j, y2) < Weight(j)
  {
    if j != 0 {
      ShiftedValueBound(y, j - 1, y2);
      var z := ShiftedBlock(y, j - 1, y2);
      WeightSuccessor(j - 1);
      hide ShiftedBlock, Weight;
      MulMonotone(Weight(j - 1), z, BASE - 1);
      MulDistributes(BASE, 1, Weight(j - 1));
    }
  }

  lemma TailIsQuotient(s: seq<Blk>, y: seq<Blk>, r: nat, y2: nat)
    requires y2 < N && r <= |y| && RightShifted(s, y, r, |y| + 1, y2)
    ensures Value(s) == Div(Value(y) * Pow2(y2), Weight(r))
  {
    ShiftedTotal(y, y2);
    ShiftedValueBound(y, r, y2);
    hide Value, ShiftedValue, Weight;
    DivModUnique(Value(y) * Pow2(y2), Weight(r), Value(s), ShiftedValue(y, r, y2));
  }

  // ----- increment and decrement -----

  method IncrementBlocks(blk: array<Blk>, len: nat) returns (carry: bool)
    requires len <= blk.Length
    modifies blk
    ensures Value(blk[..len]) + Carried(carry, len) == old(Value(blk[..len])) + 1
  {
    hide Value, Weight, WrapAdd, Place;
    ghost var v := Value(blk[..len]);
    var i := 0;
    carry := true;
    CarryAtBottom();
    while i < len && carry
      invariant i <= len && (carry || i <= len)
      invariant Value(blk[..len]) + Carried(carry, i) == v + 1
    {
      ghost var d := blk[..len];
      RollOver(d, i);
      blk[i] := WrapAdd(blk[i], ONE);
      assert blk[..len] == d[i := blk[i]];
      carry := blk[i] == 0;
      i := i + 1;
    }
  }

  lemma CarryAtBottom()
    ensures Carried(true, 0) == 1
  {
  }

  /** The loop of `--`, which a nonzero number always stops. */
  method DecrementBlocks(blk: array<Blk>, len: nat)
    requires len <= blk.Length && Value(blk[..len]) > 0
    modifies blk
    ensures Value(blk[..len]) == old(Value(blk[..len])) - 1
  {
    ghost var v := Value(blk[..len]);
    var i, borrow := 0, true;
    CarryAtBottom();
    while borrow
      invariant i <= len && Value(blk[..len]) - Carried(borrow, i) == v - 1
      decreases len - i
    {
      ghost var d := blk[..len];
      BorrowFits(d, i, v);
      hide Value, Weight, WrapSub, Place;
      RollUnder(d, i);
      borrow := blk[i] == 0;
      blk[i] := WrapSub(blk[i], ONE);
      assert blk[..len] == d[i := blk[i]];
      i := i + 1;
    }
  }

  lemma BorrowFits(d: seq<Blk>, i: nat, v: nat)
    requires i <= |d| && v > 0 && Value(d) - Carried(true, i) == v - 1
    ensures i < |d|
  {
    ValueBound(d);
  }
}
