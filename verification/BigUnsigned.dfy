/** Arbitrary-size naturals stored in a growable array of blocks. */
module UnsignedNumbers {
  import opened Arith
  import opened Bits
  import opened BlockArithmetic
  import opened Blocks
  import opened Errors

  datatype CmpRes = Less | Equal | Greater

  class BigUnsigned {
    // blk[..len] holds the number, least significant block first; what lies above is leftover.
    var cap: nat
    var len: nat
    var blk: array<Blk>

    /** The storage is consistent; the number need not be canonical. */
    ghost predicate Sound()
      reads this
    {
      blk.Length == cap && len <= cap
    }

    ghost function Digits(): seq<Blk>
      requires Sound()
      reads this, blk
    {
      blk[..len]
    }

    /** The class invariant: no leading zero blocks. */
    ghost predicate Valid()
      reads this, blk
      ensures Valid() ==> Sound()
    {
      Sound() && Canonical(Digits())
    }

    ghost function Val(): nat
      requires Sound()
      reads this, blk
    {
      Value(Digits())
    }

    // ----- storage -----

    constructor ()
      ensures Valid() && Val() == 0 && fresh(blk)
    {
      cap, len := 0, 0;
      blk := new Blk[0];
    }

    constructor Copy(x: BigUnsigned)
      requires x.Valid()
      ensures Valid() && Val() == x.Val() && fresh(blk)
    {
      len := x.len;
      cap := x.len;
      blk := new Blk[x.len];
      new;
      var i := 0;
      while i < len
        invariant i <= len == cap == blk.Length == x.len && fresh(blk) && x.Sound()
        invariant x.Digits() == old(x.Digits()) && blk[..i] == x.blk[..i]
      {
        blk[i] := x.blk[i];
        i := i + 1;
      }
      assert Digits() == old(x.Digits());
    }

    constructor FromPrimitive(x: Blk)
      ensures Valid() && Val() == x && fresh(blk)
    {
      if x == 0 {
        cap, len := 0, 0;
        blk := new Blk[0];
      } else {
        cap, len := 1, 1;
        blk := new Blk[1];
      }
      new;
      if x != 0 {
        blk[0] := x;
        assert Digits() == [x];
        ValueOfSingle(x);
      }
    }

    constructor FromBlocks(b: array<Blk>, blen: nat)
      requires blen <= b.Length
      ensures Valid() && Val() == Value(b[..blen]) && fresh(blk)
    {
      cap, len := blen, blen;
      blk := new Blk[blen];
      new;
      var i := 0;
      while i < len
        invariant i <= len == cap == blk.Length == blen && fresh(blk)
        invariant b[..] == old(b[..]) && blk[..i] == b[..i]
      {
        blk[i] := b[i];
        i := i + 1;
      }
      assert Digits() == b[..blen];
      ZapLeadingZeros();
    }

    /** Makes room for `c` blocks, possibly losing the contents. */
    method Allocate(c: nat)
      requires blk.Length == cap
      modifies this`cap, this`blk
      ensures blk.Length == cap == if c > old(cap) then c else old(cap)
      ensures if c > old(cap) then fresh(blk) else blk == old(blk)
    {
      if c > cap {
        cap := c;
        blk := new Blk[cap];
      }
    }

    /** Sets a preliminary length and makes room for it. */
    method SetLength(c: nat)
      requires blk.Length == cap
      modifies this
      ensures Sound() && len == c
      ensures blk == old(blk) || fresh(blk)
    {
      len := c;
      Allocate(len);
    }

    /** Adds a zero block just past the value. */
    method PushZero()
      requires Sound()
      modifies this, blk
      ensures Sound() && Digits() == old(Digits()) + [ZERO]
      ensures blk == old(blk) || fresh(blk)
    {
      ghost var a := Digits();
      AllocateAndCopy(len + 1);
      len := len + 1;
      blk[len - 1] := ZERO;
      assert Digits() == a + [ZERO];
    }

    /** Makes room for `c` blocks and keeps the number. */
    method AllocateAndCopy(c: nat)
      requires Sound()
      modifies this`cap, this`blk
      ensures Sound() && c <= cap && len == old(len) && Digits() == old(Digits())
      ensures blk == old(blk) || fresh(blk)
    {
      if c > cap {
        var oldBlk := blk;
        cap := c;
        blk := new Blk[cap];
        var i := 0;
        while i < len
          invariant i <= len == old(len) <= oldBlk.Length && cap == blk.Length == c
          invariant fresh(blk) && oldBlk[..] == old(blk[..]) && blk[..i] == oldBlk[..i]
        {
          blk[i] := oldBlk[i];
          i := i + 1;
        }
        assert Digits() == oldBlk[..len];
      }
    }

    /** `*this = x`. */
    method Assign(x: BigUnsigned)
      requires blk.Length == cap && x.Sound() && Separate(this, x)
      modifies this, blk
      ensures Sound() && (blk == old(blk) || fresh(blk))
      ensures Digits() == old(x.Digits())
    {
      if this == x {
        return;
      }
      SetLength(x.len);
      var i := 0;
      while i < len
        invariant i <= len == x.len <= cap == blk.Length && x.Sound() && blk != x.blk
        invariant blk == old(blk) || fresh(blk)
        invariant x.Digits() == old(x.Digits()) && blk[..i] == x.blk[..i]
      {
        blk[i] := x.blk[i];
        i := i + 1;
      }
      assert Digits() == old(x.Digits());
    }

    method ZapLeadingZeros()
      requires Sound()
      modifies this`len
      ensures Valid() && Val() == old(Val())
      ensures OnlyZerosDropped(old(Digits()), Digits())
    {
      while len > 0 && blk[len - 1] == 0
        invariant Sound() && Val() == old(Val()) && OnlyZerosDropped(old(Digits()), Digits())
      {
        assert blk[..len][..len - 1] == blk[..len - 1];
        len := len - 1;
      }
    }

    // ----- accessors -----

    function IsZero(): (r: bool)
      requires Valid()
      reads this, blk
      ensures r <==> Val() == 0
    {
      if len > 0 then ValueLowerBound(blk[..len]); false else true
    }

    function GetBlock(i: nat): (r: Blk)
      requires Sound()
      reads this, blk
      ensures r == BlockOf(Digits(), i)
    {
      if i >= len then ZERO else blk[i]
    }

    /** Bit `bi` of the number. */
    method GetBit(bi: nat) returns (r: bool)
      requires Sound()
      ensures r <==> Bit(Val(), bi)
    {
      var block := GetBlock(BlockIndex(bi));
      r := And(block, Shl(1, BitIndex(bi))) != 0;
      AndPow2(block, BitIndex(bi));
      BitOfValue(Digits(), bi);
    }

    /** Writes block `i`; the number grows or shrinks as necessary. */
    method SetBlock(i: nat, newBlock: Blk)
      requires Valid()
      modifies this, blk
      ensures Valid() && (blk == old(blk) || fresh(blk))
      ensures forall k: nat :: BlockOf(Digits(), k) == if k == i then newBlock else BlockOf(old(Digits()), k)
    {
      if newBlock == 0 {
        if i < len {
          ghost var d := Digits();
          blk[i] := ZERO;
          ghost var e := Digits();
          assert e == d[i := ZERO];
          ZapLeadingZeros();
          BlockCleared(d, e, Digits(), i);
        }
      } else {
        ghost var d := Digits();
        if i >= len {
          Extend(i);
        }
        blk[i] := newBlock;
        assert forall k :: 0 <= k < |d| && k != i ==> blk[k] == d[k];
      }
    }

    /** Makes `i` the top block, the blocks below it zero where they are new. */
    method Extend(i: nat)
      requires Valid() && len <= i
      modifies this, blk
      ensures Sound() && len == i + 1 && (blk == old(blk) || fresh(blk))
      ensures old(Digits()) <= Digits() && forall k :: old(len) <= k < i ==> blk[k] == 0
    {
      AllocateAndCopy(i + 1);
      ghost var d := Digits();
      var j := len;
      while j < i
        modifies blk
        invariant len <= j <= i && blk[..len] == d && forall k :: len <= k < j ==> blk[k] == 0
      {
        blk[j] := ZERO;
        j := j + 1;
      }
      len := i + 1;
    }

    /** Sets bit `bi` and leaves every other bit alone. */
    method SetBit(bi: nat, newBit: bool)
      requires Valid()
      modifies this, blk
      ensures Valid() && (blk == old(blk) || fresh(blk))
      ensures forall k: nat :: Bit(Val(), k) <==> if k == bi then newBit else Bit(old(Val()), k)
    {
      hide Value, BlockOf, OneBit, Bit, Or, And, Shl, Canonical, BlockIndex, BitIndex;
      ghost var d := Digits();
      var blockI := BlockIndex(bi);
      var block, mask := GetBlock(blockI), Shl(1, BitIndex(bi));
      BitOfBlocks(d, bi, block, newBit);
      var newBlock := if newBit then Or(block, mask) else And(block, BASE - 1 - mask);
      SetBlock(blockI, newBlock);
      ghost var e := Digits();
      assert Val() == Value(e) && old(Val()) == Value(d);
      hide *;
      forall k: nat ensures Bit(Value(e), k) <==> if k == bi then newBit else Bit(Value(d), k) {
        OneBitChanged(d, e, bi, newBit, newBlock, k);
      }
    }

    /** The position of the highest one bit, plus one. */
    method BitLength() returns (r: nat)
      requires Valid()
      ensures Val() < Pow2(r) && (if Val() == 0 then r == 0 else r > 0 && Pow2(r - 1) <= Val())
    {
      if len == 0 {
        return 0;
      }
      var leftmostBlock := GetBlock(len - 1);
      var leftmostBlockLen := BitLen(leftmostBlock);
      TopBlockLength(Digits(), leftmostBlockLen);
      return leftmostBlockLen + (len - 1) * N;
    }

    method ToUnsignedShort() returns (r: Outcome, x: nat)
      requires Valid()
      ensures r == if Val() < 0x1_0000 then Ok else Threw(DoesNotFit)
      ensures r.Ok? ==> x == Val()
    {
      BaseIsLarge();
      if len == 0 {
        return Ok, 0;
      } else if len == 1 {
        assert Digits() == [blk[0]];
        ValueOfSingle(blk[0]);
        x := blk[0] % 0x1_0000;
        if x == blk[0] {
          return Ok, x;
        }
        return Threw(DoesNotFit), x;
      }
      ValueLowerBound(Digits());
      WeightMonotone(1, len - 1);
      assert Weight(1) == BASE;
      return Threw(DoesNotFit), 0;
    }

    method CompareTo(x: BigUnsigned) returns (r: CmpRes)
      requires Valid() && x.Valid()
      ensures r == if Val() < x.Val() then Less else if Val() > x.Val() then Greater else Equal
    {
      if len < x.len {
        CanonicalShorterIsLess(Digits(), x.Digits());
        return Less;
      } else if len > x.len {
        CanonicalShorterIsLess(x.Digits(), Digits());
        return Greater;
      } else {
        var i := len;
        while i > 0
          invariant 0 <= i <= len && blk[i..len] == x.blk[i..len]
        {
          i := i - 1;
          if blk[i] == x.blk[i] {
            assert blk[i..len] == [blk[i]] + blk[i + 1..len];
            assert x.blk[i..len] == [x.blk[i]] + x.blk[i + 1..len];
          } else {
            assert Digits()[i + 1..] == blk[i + 1..len] && x.Digits()[i + 1..] == x.blk[i + 1..len];
            if blk[i] > x.blk[i] {
              TopBlockDecides(x.Digits(), Digits(), i);
              return Greater;
            } else {
              TopBlockDecides(Digits(), x.Digits(), i);
              return Less;
            }
          }
        }
        assert Digits() == blk[0..len];
        assert x.Digits() == x.blk[0..len];
        return Equal;
      }
    }

    method Equals(x: BigUnsigned) returns (r: bool)
      requires Valid() && x.Valid()
      ensures r <==> Val() == x.Val()
    {
      if len != x.len {
        if Val() == x.Val() {
          CanonicalUnique(Digits(), x.Digits());
        }
        return false;
      }
      var i := 0;
      while i < len
        invariant i <= len && blk[..i] == x.blk[..i]
      {
        if blk[i] != x.blk[i] {
          assert Digits()[i] != x.Digits()[i];
          if Val() == x.Val() {
            CanonicalUnique(Digits(), x.Digits());
          }
          return false;
        }
        i := i + 1;
      }
      return true;
    }

    // ----- addition and subtraction -----

    method Add(a: BigUnsigned, b: BigUnsigned)
      requires Valid() && a.Valid() && b.Valid() && Separate(this, a) && Separate(this, b)
      modifies this, blk
      ensures Valid() && (blk == old(blk) || fresh(blk))
      ensures Val() == old(a.Val() + b.Val())
      decreases if this == a || this == b then 1 else 0
    {
      if this == a || this == b {
        var tmpThis := new BigUnsigned();
        tmpThis.Add(a, b);
        Assign(tmpThis);
        return;
      }
      if a.len == 0 {
        Assign(b);
        return;
      } else if b.len == 0 {
        Assign(a);
        return;
      }
      if a.len >= b.len {
        AddLonger(a, b);
      } else {
        AddLonger(b, a);
      }
    }

    /** The general case of `Add`, with the longer operand first. */
    method AddLonger(a2: BigUnsigned, b2: BigUnsigned)
      requires blk.Length == cap && a2.Valid() && b2.Valid() && 0 < b2.len <= a2.len
      requires this != a2 && this != b2 && blk != a2.blk && blk != b2.blk
      modifies this, blk
      ensures Valid() && (blk == old(blk) || fresh(blk))
      ensures Val() == old(a2.Val() + b2.Val())
    {
      hide Value, Weight, AddedSoFar, Carried;
      ghost var x, y := a2.Digits(), b2.Digits();
      SetLength(a2.len + 1);
      var carry := AddBlocks(blk, a2.blk, a2.len, b2.blk, b2.len);
      ghost var done := blk[..a2.len];
      AddFinish(done, x, y, carry);
      if carry {
        blk[a2.len] := ONE;
        assert Digits() == done + [ONE];
      } else {
        len := len - 1;
        assert Digits() == done;
      }
    }

    method Subtract(a: BigUnsigned, b: BigUnsigned) returns (r: Outcome)
      requires Valid() && a.Valid() && b.Valid() && Separate(this, a) && Separate(this, b)
      modifies this, blk
      ensures Valid() && (blk == old(blk) || fresh(blk))
      ensures r == if old(a.Val() >= b.Val()) then Ok else Threw(NegativeResult)
      ensures r.Ok? ==> Val() == old(a.Val() - b.Val())
      ensures r.Threw? ==> Val() == if this == a || this == b || old(a.len < b.len) then old(Val()) else 0
      decreases if this == a || this == b then 1 else 0
    {
      if this == a || this == b {
        var tmpThis := new BigUnsigned();
        r := tmpThis.Subtract(a, b);
        if r.Ok? {
          Assign(tmpThis);
        }
        return;
      }
      if b.len == 0 {
        Assign(a);
        return Ok;
      } else if a.len < b.len {
        CanonicalShorterIsLess(a.Digits(), b.Digits());
        return Threw(NegativeResult);
      }
      r := SubtractShorter(a, b);
    }

    /** The general case of `Subtract`, where `b` has no more blocks than `a`. */
    method SubtractShorter(a: BigUnsigned, b: BigUnsigned) returns (r: Outcome)
      requires blk.Length == cap && a.Valid() && b.Valid() && b.len <= a.len
      requires this != a && this != b && blk != a.blk && blk != b.blk
      modifies this, blk
      ensures Valid() && (blk == old(blk) || fresh(blk))
      ensures r == if old(a.Val() >= b.Val()) then Ok else Threw(NegativeResult)
      ensures Val() == if r.Ok? then old(a.Val() - b.Val()) else 0
    {
      hide Value, Weight, SubtractedSoFar, Carried;
      ghost var x, y := a.Digits(), b.Digits();
      SetLength(a.len);
      var borrow := SubtractBlocks(blk, a.blk, a.len, b.blk, b.len);
      SubtractFinish(Digits(), x, y, borrow);
      if borrow {
        len := 0;
        ValueOfEmpty(Digits());
        return Threw(NegativeResult);
      }
      ZapLeadingZeros();
      return Ok;
    }

    // ----- multiplication and division -----

    method Multiply(a: BigUnsigned, b: BigUnsigned)
      requires Valid() && a.Valid() && b.Valid() && Separate(this, a) && Separate(this, b)
      modifies this, blk
      ensures Valid() && (blk == old(blk) || fresh(blk))
      ensures Val() == old(a.Val() * b.Val())
      decreases if this == a || this == b then 1 else 0
    {
      if this == a || this == b {
        var tmpThis := new BigUnsigned();
        tmpThis.Multiply(a, b);
        Assign(tmpThis);
        return;
      }
      if a.len == 0 || b.len == 0 {
        len := 0;
        return;
      }
      MultiplyNonzero(a, b);
    }

    method MultiplyNonzero(a: BigUnsigned, b: BigUnsigned)
      requires blk.Length == cap && a.Valid() && b.Valid() && a.len > 0 && b.len > 0
      requires this != a && this != b && blk != a.blk && blk != b.blk
      modifies this, blk
      ensures Valid() && (blk == old(blk) || fresh(blk))
      ensures Val() == old(a.Val() * b.Val())
    {
      hide Value, Weight;
      ghost var x, y := a.Digits(), b.Digits();
      SetLength(a.len + b.len);
      MultiplyBlocks(blk, a.blk, a.len, b.blk, b.len);
      ProductLength(Digits(), x, y);
      ZapOne();
    }

    /** Drops the top block if it is zero, where at most one can be. */
    method ZapOne()
      requires Sound() && len > 0 && (len > 1 ==> blk[len - 1] != 0 || blk[len - 2] != 0)
      modifies this`len
      ensures Valid() && Val() == old(Val())
    {
      assert blk[..len][..len - 1] == blk[..len - 1];
      if blk[len - 1] == 0 {
        len := len - 1;
      }
    }

    /** `*this` becomes the remainder, `q` the quotient. */
    method DivideWithRemainder(b: BigUnsigned, q: BigUnsigned) returns (r: Outcome)
      requires Valid() && b.Valid() && q.Valid()
      requires Separate(this, b) && Separate(this, q) && Separate(q, b)
      modifies this, blk, q, q.blk
      ensures Valid() && q.Valid() && Separate(this, q)
      ensures (blk == old(blk) || fresh(blk)) && (q.blk == old(q.blk) || fresh(q.blk))
      ensures r == if this == q then Threw(SharedOutput) else Ok
      ensures if r.Ok? then FloorDivision(old(Val()), old(b.Val()), q.Val(), Val()) else Val() == old(Val())
      decreases if this == b || q == b then 1 else 0
    {
      if this == q {
        return Threw(SharedOutput);
      }
      if this == b || q == b {
        var tmpB := new BigUnsigned.Copy(b);
        r := DivideWithRemainder(tmpB, q);
        return;
      }
      if b.len == 0 {
        q.len := 0;
        return Ok;
      }
      ValueLowerBound(b.Digits());
      if len < b.len {
        CanonicalShorterIsLess(Digits(), b.Digits());
        q.len := 0;
        return Ok;
      }
      DivideLonger(b, q);
      return Ok;
    }

    /** The general case of `DivideWithRemainder`. */
    method DivideLonger(b: BigUnsigned, q: BigUnsigned)
      requires Valid() && b.Valid() && q.Valid() && 0 < b.len <= len
      requires this != b && this != q && q != b && blk != b.blk && blk != q.blk && q.blk != b.blk
      modifies this, blk, q, q.blk
      ensures Valid() && q.Valid() && blk != q.blk
      ensures (blk == old(blk) || fresh(blk)) && (q.blk == old(q.blk) || fresh(q.blk))
      ensures old(Val()) == q.Val() * old(b.Val()) + Val() && Val() < old(b.Val())
    {
      hide Value, Weight, Quotient;
      ghost var a, y := Digits(), b.Digits();
      var origLen := len;
      PushZero();
      LeadingZero(a);
      q.SetLength(origLen - b.len + 1);
      DivideBlocks(blk, origLen, b.blk, b.len, q.blk, q.len);
      QuotientLength(a, y, q.Digits(), Value(Digits()));
      q.ZapOne();
      ZapLeadingZeros();
    }

    /** `*this %= x`. */
    method ModAssign(x: BigUnsigned) returns (r: Outcome)
      requires Valid() && x.Valid() && Separate(this, x)
      modifies this, blk
      ensures Valid() && (blk == old(blk) || fresh(blk))
      ensures r == if old(x.Val()) == 0 then Threw(DivisionByZero) else Ok
      ensures Val() == if r.Ok? then Residue(old(Val()), old(x.Val())) else old(Val())
    {
      if x.IsZero() {
        return Threw(DivisionByZero);
      }
      ghost var a, b := Val(), x.Val();
      var q := new BigUnsigned();
      r := DivideWithRemainder(x, q);
      DivModUnique(a, b, q.Val(), Val());
    }

    // ----- shifts -----

    /** `a << b`; a negative amount shifts right. Shifting zero by whole blocks leaves zero blocks behind. */
    method BitShiftLeft(a: BigUnsigned, b: ShiftAmount) returns (r: Outcome)
      requires Valid() && a.Valid() && Separate(this, a)
      modifies this, blk
      ensures Sound() && (blk == old(blk) || fresh(blk))
      ensures r == if b == MIN_SHIFT then Threw(PathologicalShift) else Ok
      ensures r.Threw? ==> Digits() == old(Digits())
      ensures r.Ok? ==> Val() == ShiftBy(old(a.Val()), b)
      ensures r.Ok? ==> (Valid() <==> old(a.Val()) != 0 || b < N)
      decreases if this == a then 1 else 0, if b < 0 then 1 else 0
    {
      if this == a {
        var tmpThis := new BigUnsigned();
        r := tmpThis.BitShiftLeft(a, b);
        if r.Ok? {
          Assign(tmpThis);
        }
        return;
      }
      if b < 0 {
        if b == MIN_SHIFT {
          return Threw(PathologicalShift);
        }
        r := BitShiftRight(a, -b);
        return;
      }
      ShiftLeftAway(a, b);
      return Ok;
    }

    /** `a >> b`; a negative amount shifts left. */
    method BitShiftRight(a: BigUnsigned, b: ShiftAmount) returns (r: Outcome)
      requires Valid() && a.Valid() && Separate(this, a)
      modifies this, blk
      ensures Sound() && (blk == old(blk) || fresh(blk))
      ensures r == if b == MIN_SHIFT then Threw(PathologicalShift) else Ok
      ensures r.Threw? ==> Digits() == old(Digits())
      ensures r.Ok? ==> Val() == ShiftBy(old(a.Val()), -b)
      ensures r.Ok? ==> (Valid() <==> old(a.Val()) != 0 || -b < N)
      decreases if this == a then 1 else 0, if b < 0 then 1 else 0
    {
      if this == a {
        var tmpThis := new BigUnsigned();
        r := tmpThis.BitShiftRight(a, b);
        if r.Ok? {
          Assign(tmpThis);
        }
        return;
      }
      if b < 0 {
        if b == MIN_SHIFT {
          return Threw(PathologicalShift);
        }
        r := BitShiftLeft(a, -b);
        return;
      }
      ShiftRightAway(a, b);
      return Ok;
    }

    method ShiftLeftAway(a: BigUnsigned, b: nat)
      requires blk.Length == cap && a.Valid() && this != a && blk != a.blk
      modifies this, blk
      ensures Sound() && (blk == old(blk) || fresh(blk))
      ensures Val() == Shl(old(a.Val()), b)
      ensures Valid() <==> old(a.Val()) != 0 || b < N
    {
      ghost var x := a.Digits();
      var shiftBlocks, shiftBits := BlockIndex(b), BitIndex(b);
      SetLength(a.len + shiftBlocks + 1);
      ShiftLeftBlocks(blk, a.blk, a.len, shiftBlocks, shiftBits);
      ShiftLeftLength(x, Digits(), shiftBlocks, shiftBits, b);
      hide Value, Weight, Pow2, Shifted, Shl;
      ghost var s := Digits();
      if blk[len - 1] == 0 {
        len := len - 1;
        assert Digits() == s[..len];
      }
    }

    method ShiftRightAway(a: BigUnsigned, b: nat)
      requires blk.Length == cap && a.Valid() && this != a && blk != a.blk
      modifies this, blk
      ensures Valid() && (blk == old(blk) || fresh(blk))
      ensures Val() == Shr(old(a.Val()), b)
    {
      ghost var x := a.Digits();
      var rightShiftBlocks := BlockIndex(b + N - 1);
      CeilingBlocks(b);
      var leftShiftBits: nat := N * rightShiftBlocks - b;
      if rightShiftBlocks >= a.len + 1 {
        ShiftedOff(x, rightShiftBlocks, leftShiftBits, b);
        len := 0;
        return;
      }
      SetLength(a.len + 1 - rightShiftBlocks);
      ShiftRightBlocks(blk, a.blk, a.len, rightShiftBlocks, leftShiftBits);
      ShiftRightLength(x, Digits(), rightShiftBlocks, leftShiftBits, b);
      hide Value, Weight, Pow2, Shr;
      ZapOne();
    }

    // ----- increment and decrement -----

    method Increment()
      requires Valid()
      modifies this, blk
      ensures Valid() && (blk == old(blk) || fresh(blk))
      ensures Val() == old(Val()) + 1
    {
      hide Value, Weight, Carried;
      ghost var x := Digits();
      var carry := IncrementBlocks(blk, len);
      ghost var done := Digits();
      IncrementLength(x, done, carry);
      if carry {
        AllocateAndCopy(len + 1);
        len := len + 1;
        blk[len - 1] := ONE;
        assert Digits() == done + [ONE];
      }
    }

    method Decrement() returns (r: Outcome)
      requires Valid()
      modifies this, blk
      ensures Valid() && (blk == old(blk) || fresh(blk))
      ensures r == if old(Val()) == 0 then Threw(DecrementOfZero) else Ok
      ensures Val() == if old(Val()) == 0 then 0 else old(Val()) - 1
    {
      if len == 0 {
        return Threw(DecrementOfZero);
      }
      ghost var x := Digits();
      ValueLowerBound(x);
      hide Value, Weight;
      DecrementBlocks(blk, len);
      DecrementLength(x, Digits());
      ZapOne();
      return Ok;
    }
  }

  /** A number from a signed primitive integer, refused if it is negative. */
  method FromSignedPrimitive(x: int) returns (r: Outcome, n: BigUnsigned)
    requires -(BASE as int) <= 2 * x < BASE
    ensures fresh(n) && fresh(n.blk) && n.Valid()
    ensures r == if x < 0 then Threw(NegativeArgument) else Ok
    ensures r.Ok? ==> n.Val() == x
  {
    if x < 0 {
      n := new BigUnsigned();
      return Threw(NegativeArgument), n;
    }
    n := new BigUnsigned.FromPrimitive(x);
    return Ok, n;
  }

  ghost predicate OnlyZerosDropped(s: seq<Blk>, t: seq<Blk>) {
    t <= s && forall k :: |t| <= k < |s| ==> s[k] == 0
  }

  const MIN_SHIFT: int := -0x8000_0000

  /** The shift amount is a 32-bit `int`. */
  type ShiftAmount = b: int | MIN_SHIFT <= b < 0x8000_0000

  /** `v` shifted left by `b` bits, or right by `-b`. */
  function ShiftBy(v: nat, b: int): nat {
    if b >= 0 then Shl(v, b) else Shr(v, -b)
  }

  /** Shifting left multiplies by a power of two, shifting right divides by it and drops the rest. */
  lemma ShiftByMeans(v: nat, b: int)
    ensures b >= 0 ==> ShiftBy(v, b) == v * Pow2(b)
    ensures b < 0 ==> ShiftBy(v, b) * Pow2(-b) <= v < (ShiftBy(v, b) + 1) * Pow2(-b)
    ensures MIN_SHIFT == 0 - Pow2(31)
  {
    assert Pow2(31) == 0x8000_0000 by {
      Pow2Of16();
      Pow2Add(16, 15);
      assert 2 * Pow2(15) == Pow2(16);
    }
    if b < 0 {
      DivModDefinition(v, Pow2(-b));
      MulDistributes(v / Pow2(-b), 1, Pow2(-b));
    }
  }

  ghost predicate Separate(x: BigUnsigned, y: BigUnsigned)
    reads x, y
  {
    x == y || x.blk != y.blk
  }

  lemma ValueOfEmpty(s: seq<Blk>)
    requires s == []
    ensures Value(s) == 0
  {
  }

  lemma LeadingZero(s: seq<Blk>)
    ensures Value(s + [ZERO]) == Value(s)
  {
    ValueAppend(s, ZERO);
  }

  /** If the top two blocks were both zero the value would be below `Weight(|s| - 2)`. */
  lemma AtMostOneLeadingZero(s: seq<Blk>)
    requires |s| >= 2 && Value(s) >= Weight(|s| - 2)
    ensures s[|s| - 1] != 0 || s[|s| - 2] != 0
  {
    var n := |s| - 2;
    assert s[..n + 1][..n] == s[..n];
    ValueBound(s[..n]);
  }

  lemma ProductLength(s: seq<Blk>, x: seq<Blk>, y: seq<Blk>)
    requires Canonical(x) && Canonical(y) && x != [] && y != []
    requires |s| == |x| + |y| && Value(s) == Value(x) * Value(y)
    ensures s[|s| - 1] != 0 || s[|s| - 2] != 0
  {
    ValueLowerBound(x);
    ValueLowerBound(y);
    WeightAdd(|x| - 1, |y| - 1);
    hide Value, Weight;
    MulMonotone(Weight(|x| - 1), Weight(|y| - 1), Value(y));
    MulMonotone(Value(y), Weight(|x| - 1), Value(x));
    AtMostOneLeadingZero(s);
  }

  lemma QuotientLength(a: seq<Blk>, b: seq<Blk>, q: seq<Blk>, r: nat)
    requires Canonical(a) && b != [] && |a| >= |b| && |q| == |a| - |b| + 1
    requires Quotient(Value(a), Value(b), Value(q), r, 0)
    ensures |q| >= 2 ==> q[|q| - 1] != 0 || q[|q| - 2] != 0
    ensures Value(a) == Value(q) * Value(b) + r && r < Value(b)
  {
    assert Value(b) * Pow2(0) == Value(b);
    if |q| >= 2 {
      ValueLowerBound(a);
      ValueBound(b);
      WeightAdd(|q| - 2, |b|);
      assert Value(a) == Value(q) * Value(b) + r && r < Value(b);
      assert |q| - 2 + |b| == |a| - 1;
      hide Value, Weight, Quotient;
      if Value(q) < Weight(|q| - 2) {
        SmallQuotient(Value(q), Value(b), r, Weight(|q| - 2), Weight(|b|));
      }
      AtMostOneLeadingZero(q);
    }
  }

  lemma SmallQuotient(q: nat, d: nat, r: nat, v: nat, w: nat)
    requires q < v && r < d < w
    ensures q * d + r < v * w
  {
    MulMonotone(d, q + 1, v);
    MulMonotone(v, d, w);
    MulDistributes(q, 1, d);
  }

  lemma IncrementLength(x: seq<Blk>, done: seq<Blk>, carry: bool)
    requires Canonical(x) && |done| == |x| && Value(done) + Carried(carry, |x|) == Value(x) + 1
    ensures var s := if carry then done + [ONE] else done;
            Canonical(s) && Value(s) == Value(x) + 1
  {
    ValueAppend(done, ONE);
    if x != [] && !carry {
      KeepsLength(done, x);
    }
  }

  lemma DecrementLength(x: seq<Blk>, s: seq<Blk>)
    requires Canonical(x) && x != [] && |s| == |x| && Value(s) == Value(x) - 1
    ensures |s| >= 2 ==> s[|s| - 1] != 0 || s[|s| - 2] != 0
  {
    if |s| >= 2 {
      ValueLowerBound(x);
      WeightSuccessor(|s| - 2);
      hide Value, Weight;
      AtMostOneLeadingZero(s);
    }
  }

  lemma ShiftLeftLength(x: seq<Blk>, s: seq<Blk>, shiftBlocks: nat, shiftBits: nat, b: nat)
    requires Canonical(x) && |s| == |x| + shiftBlocks + 1
    requires shiftBlocks == BlockIndex(b) && shiftBits == BitIndex(b)
    requires Value(s) == Shifted(Value(x), shiftBlocks, shiftBits)
    requires x == [] ==> forall k :: 0 <= k < |s| ==> s[k] == 0
    ensures Value(s) == Shl(Value(x), b)
    ensures var t := if s[|s| - 1] == 0 then s[..|s| - 1] else s;
            Value(t) == Value(s) && (Canonical(t) <==> Value(x) != 0 || b < N)
  {
    BitPosition(b);
    ShiftedIsPow2(Value(x), shiftBlocks, shiftBits);
    if x == [] {
      ValueOfZeros(s);
      DivBySmaller(b, N);
    } else {
      ValueLowerBound(x);
      WeightAdd(|x| - 1, shiftBlocks);
      MulMonotone(Weight(|x| - 1), 1, Pow2(shiftBits));
      hide Value, Weight, Pow2;
      ShiftedDefinition(Value(x), shiftBlocks, shiftBits);
      GrowsByShift(Value(x), Pow2(shiftBits), Weight(shiftBlocks), Weight(|x| - 1));
      if |s| >= 2 {
        AtMostOneLeadingZero(s);
      }
    }
  }

  lemma GrowsByShift(v: nat, e: nat, w: nat, u: nat)
    requires u <= v && e >= 1
    ensures u * w <= v * e * w
  {
    MulMonotone(v, 1, e);
    MulMonotone(w, u, v * e);
  }

  lemma DivBySmaller(b: nat, n: nat)
    requires n > 0
    ensures b / n == 0 <==> b < n
  {
    DivModDefinition(b, n);
  }

  lemma CeilingBlocks(b: nat)
    ensures 0 <= N * BlockIndex(b + N - 1) - b < N
  {
    BitPosition(b + N - 1);
  }

  /** Shifting by more than all the bits leaves nothing. */
  lemma ShiftedOff(x: seq<Blk>, r: nat, y: nat, b: nat)
    requires r > |x| && y < N && b == N * r - y
    ensures Shr(Value(x), b) == 0
  {
    ValueBound(x);
    MulMonotone(N, |x|, r - 1);
    MulDistributes(r, 1, N);
    Pow2Monotone(N * |x|, b);
    ShrIsZero(Value(x), b);
  }

  lemma ShiftRightLength(x: seq<Blk>, s: seq<Blk>, r: nat, y: nat, b: nat)
    requires Canonical(x) && r <= |x| && |s| == |x| + 1 - r && y < N && b == N * r - y
    requires Value(s) == Div(Value(x) * Pow2(y), Weight(r))
    ensures Value(s) == Shr(Value(x), b)
    ensures |s| >= 2 ==> s[|s| - 1] != 0 || s[|s| - 2] != 0
  {
    Pow2Add(b, y);
    DivCancels(Value(x), Pow2(b), Pow2(y));
    assert Weight(r) == Pow2(b) * Pow2(y);
    if |s| >= 2 {
      ValueLowerBound(x);
      WeightAdd(|s| - 2, r);
      hide Value, Weight, Pow2;
      MulMonotone(Value(x), 1, Pow2(y));
      DivAtLeast(Value(x) * Pow2(y), Weight(r), Weight(|s| - 2));
      AtMostOneLeadingZero(s);
    }
  }

  lemma DivCancels(v: nat, d: nat, e: nat)
    requires d > 0 && e > 0
    ensures d * e > 0 && Div(v * e, d * e) == Div(v, d)
  {
    DivModDefinition(v, d);
    var q, m := v / d, v % d;
    MulDistributes(q * d, m, e);
    MulAssociative(q, d, e);
    MulMonotone(e, m, d - 1);
    MulDistributes(d, 1, e);
    MulMonotone(e, 0, m);
    DivModUnique(v * e, d * e, q, m * e);
  }

  lemma DivAtLeast(a: nat, d: nat, q: nat)
    requires d > 0 && q * d <= a
    ensures Div(a, d) >= q
  {
    DivModDefinition(a, d);
    var q' := a / d;
    if q' < q {
      MulMonotone(d, q' + 1, q);
      MulDistributes(q', 1, d);
    }
  }

  lemma TopBlockLength(s: seq<Blk>, n: nat)
    requires s != [] && n > 0 && Pow2(n - 1) <= s[|s| - 1] < Pow2(n)
    ensures (|s| - 1) * N >= 0
    ensures var r := n + (|s| - 1) * N; Pow2(r - 1) <= Value(s) < Pow2(r)
  {
    var k := |s| - 1;
    MulMonotone(N, 0, k);
    Pow2Add(n, N * k);
    Pow2Add(n - 1, N * k);
    ValueOfPrefix(s, k);
    assert s[..k + 1] == s;
    ValueBound(s[..k]);
    hide Value, Pow2;
    MulMonotone(Weight(k), Pow2(n - 1), s[k]);
    MulMonotone(Weight(k), s[k] as int + 1, Pow2(n));
    MulDistributes(s[k], 1, Weight(k));
  }

  /** In block `x`, bit `n` is `b` and every other bit is that of `block`. */
  ghost predicate OneBit(x: nat, block: nat, n: nat, b: bool) {
    forall i: nat :: i < N ==> (Bit(x, i) <==> if i == n then b else Bit(block, i))
  }

  /** The mask operations of `setBit` on the block that holds the bit. */
  lemma BitOfBlocks(d: seq<Blk>, bi: nat, block: Blk, newBit: bool)
    ensures var n := BitIndex(bi);
            var mask := Shl(1, n);
            mask < BASE &&
            var x := if newBit then Or(block, mask) else And(block, BASE - 1 - mask);
            x < BASE && OneBit(x, block, n, newBit)
  {
    var n := BitIndex(bi);
    var mask := Shl(1, n);
    assert mask == Pow2(n);
    Pow2Monotone(n, N);
    var x := if newBit then Or(block, mask) else And(block, BASE - 1 - mask);
    forall i: nat ensures Bit(x, i) <==> if i == n then newBit else Bit(block, i) {
      BitPow2(n, i);
      BitOr(block, mask, i);
      BitAnd(block, BASE - 1 - mask, i);
      if i < N {
        BitComplement(mask, N, i);
      } else {
        BitTooHigh(block, N, i);
      }
    }
    forall i: nat | i >= N ensures !Bit(x, i) {
      BitTooHigh(block, N, i);
    }
    BitsBound(x, N);
  }

  lemma BlockCleared(d: seq<Blk>, e: seq<Blk>, t: seq<Blk>, i: nat)
    requires i < |d| && e == d[i := ZERO] && OnlyZerosDropped(e, t)
    ensures forall k: nat :: BlockOf(t, k) == if k == i then ZERO else BlockOf(d, k)
  {
    forall k: nat ensures BlockOf(t, k) == BlockOf(e, k) {
      if |t| <= k < |e| {
        assert e[k] == 0;
      }
    }
  }

  lemma OneBitChanged(d: seq<Blk>, d': seq<Blk>, bi: nat, newBit: bool, newBlock: Blk, k: nat)
    requires forall i: nat :: BlockOf(d', i) == if i == BlockIndex(bi) then newBlock else BlockOf(d, i)
    requires OneBit(newBlock, BlockOf(d, BlockIndex(bi)), BitIndex(bi), newBit)
    ensures Bit(Value(d'), k) <==> if k == bi then newBit else Bit(Value(d), k)
  {
    BitOfValue(d, k);
    BitOfValue(d', k);
    BitPosition(k);
    BitPosition(bi);
    var i, n, i', n' := BlockIndex(k), BitIndex(k), BlockIndex(bi), BitIndex(bi);
    assert BlockOf(d', i) == if i == i' then newBlock else BlockOf(d, i);
    assert Bit(newBlock, n) <==> if n == n' then newBit else Bit(BlockOf(d, i'), n);
    hide *;
    if i == i' && k != bi {
      assert n != n';
    }
  }
}
