/** Numbers held as digits in an arbitrary base. */
module RadixNumbers {
  import opened Arith
  import opened Bits
  import opened Blocks
  import opened Errors
  import opened Numerals
  import opened UnsignedNumbers

  /** A digit, and a base, is an `unsigned short`. */
  type Digit = d: nat | d < 0x1_0000

  class BigUnsignedInABase {
    var base: Digit
    var cap: nat
    var len: nat
    var blk: array<Digit>

    ghost predicate Sound()
      reads this
    {
      blk.Length == cap && len <= cap
    }

    ghost function Digits(): seq<nat>
      requires Sound()
      reads this, blk
    {
      blk[..len]
    }

    /** Every digit is below the base and the top digit is not zero. */
    ghost predicate Valid()
      reads this, blk
      ensures Valid() ==> Sound()
    {
      Sound() && AllBelow(Digits(), base) && NoLeadingZero(Digits())
    }

    ghost function Val(): nat
      requires Sound()
      reads this, blk
    {
      DigitValue(Digits(), base)
    }

    /** A number with room for `c` digits. */
    constructor WithCapacity(base: Digit, c: nat)
      ensures Sound() && this.base == base && cap == c && len == 0 && fresh(blk)
    {
      this.base := base;
      cap, len := c, 0;
      blk := new Digit[c];
    }

    method ZapLeadingZeros()
      requires Sound() && AllBelow(Digits(), base)
      modifies this`len
      ensures Valid() && Val() == old(Val())
    {
      while len > 0 && blk[len - 1] == 0
        invariant Sound() && AllBelow(Digits(), base) && Val() == old(Val())
      {
        DropLeadingZero(Digits(), base);
        assert blk[..len][..len - 1] == blk[..len - 1];
        len := len - 1;
      }
    }

    /** Copies given digits, checking the base and every digit. */
    static method FromDigits(d: array<Digit>, l: nat, base: Digit) returns (r: Outcome, n: BigUnsignedInABase)
      requires l <= d.Length
      ensures r == if base < 2 then Threw(BadBase)
                   else if AllBelow(d[..l], base) then Ok else Threw(DigitTooLarge)
      ensures r.Ok? ==> n.Valid() && n.base == base && n.Val() == DigitValue(d[..l], base)
    {
      n := new BigUnsignedInABase.WithCapacity(base, l);
      ghost var s: seq<nat> := d[..l];
      var i := 0;
      while i < l
        modifies n.blk
        invariant i <= l && n.blk[..i] == s[..i] && s == d[..l]
      {
        n.blk[i] := d[i];
        i := i + 1;
      }
      n.len := l;
      assert n.Digits() == s;
      if base < 2 {
        return Threw(BadBase), n;
      }
      i := 0;
      while i < l
        invariant i <= l && AllBelow(s[..i], base)
      {
        if n.blk[i] >= base {
          assert !(s[i] < base);
          return Threw(DigitTooLarge), n;
        }
        i := i + 1;
      }
      assert s[..l] == s;
      n.ZapLeadingZeros();
      return Ok, n;
    }

    /** Converts a number to digits; the buffer is sized beforehand and never runs out. */
    static method FromNumber(x: BigUnsigned, base: Digit) returns (r: Outcome, n: BigUnsignedInABase)
      requires x.Valid()
      ensures r == if base < 2 then Threw(BadBase) else Ok
      ensures r.Ok? ==> n.Valid() && n.base == base && n.Digits() == DigitsOf(old(x.Val()), base)
    {
      if base < 2 {
        n := new BigUnsignedInABase.WithCapacity(base, 0);
        return Threw(BadBase), n;
      }
      var maxBitLenOfX := BitAt(x.len, 0);
      var bitLenOfBase := BitLen(base);
      var minBitsPerDigit := bitLenOfBase - 1;
      BaseHasTwoBits(base, bitLenOfBase);
      var maxDigitLenOfX := CeilingDiv(maxBitLenOfX, minBitsPerDigit);
      n := new BigUnsignedInABase.WithCapacity(base, maxDigitLenOfX);
      BitsOfLength(x.Digits());
      hide BitAt, Pow2, CeilingDiv;
      var digitNum := n.FillDigits(x, maxBitLenOfX, minBitsPerDigit);
      n.len := digitNum;
      ValueOfDigits(n.Digits(), base);
      return Ok, n;
    }

    /** The loop of `FromNumber`: divides `x` down, one digit at a time. */
    method FillDigits(x: BigUnsigned, ghost bits: nat, ghost m: nat) returns (digitNum: nat)
      requires Sound() && base >= 2 && m > 0 && Pow2(m) <= base && cap == CeilingDiv(bits, m)
      requires x.Valid() && x.Val() < Pow2(bits)
      modifies blk
      ensures digitNum <= cap && Filled(old(x.Val()), 0, blk[..digitNum], base)
    {
      hide BigUnsigned.Valid, BigUnsigned.Val, Filled, CeilingDiv, Pow2;
      ghost var v := x.Val();
      var x2 := new BigUnsigned.Copy(x);
      digitNum := 0;
      FilledStart(v, base);
      assert blk[..0] == [];
      while !x2.IsZero()
        invariant x2.Valid() && fresh(x2) && fresh(x2.blk)
        invariant digitNum <= cap && Filled(v, x2.Val(), blk[..digitNum], base)
        decreases x2.Val()
      {
        ghost var done, before := blk[..digitNum], x2.Val();
        FilledLeavesRoom(v, before, done, base, bits, m);
        var lastDigit := NextDigit(x2, base);
        blk[digitNum] := lastDigit;
        assert blk[..digitNum + 1] == done + [lastDigit];
        FilledStep(v, before, x2.Val(), lastDigit, done, base);
        digitNum := digitNum + 1;
      }
    }

    /** Back to a number, from the most significant digit down. */
    method ToNumber() returns (ans: BigUnsigned)
      requires Valid()
      ensures ans.Valid() && fresh(ans) && fresh(ans.blk)
      ensures ans.Val() == old(Val())
    {
      hide BigUnsigned.Valid, BigUnsigned.Val;
      BaseIsLarge();
      ghost var s := Digits();
      ans := new BigUnsigned.FromPrimitive(ZERO);
      var buBase := new BigUnsigned.FromPrimitive(base);
      var digitNum := len;
      assert s[len..] == [];
      while digitNum > 0
        invariant 0 <= digitNum <= len
        invariant ans.Valid() && fresh(ans) && fresh(ans.blk) && ans != buBase && ans.blk != buBase.blk
        invariant buBase.Valid() && buBase.Val() == base
        invariant ans.Val() == DigitValue(s[digitNum..], base)
      {
        digitNum := digitNum - 1;
        TimesPlus(ans, buBase, blk[digitNum]);
        assert s[digitNum..] == [s[digitNum]] + s[digitNum + 1..];
        DigitValueCons(s[digitNum], s[digitNum + 1..], base);
      }
      assert s[0..] == s;
    }

    /** Reads a string, most significant digit first. */
    static method FromString(s: string, base: Digit) returns (r: Outcome, n: BigUnsignedInABase)
      ensures r == if base > 36 then Threw(BadBase) else ReadOutcome(s, base)
      ensures r.Ok? ==> n.Valid() && n.base == base && fresh(n) && fresh(n.blk) && n.Val() == ReadValue(s, base)
    {
      n := new BigUnsignedInABase.WithCapacity(base, |s|);
      if base > 36 {
        return Threw(BadBase), n;
      }
      n.len := |s|;
      var digitNum := 0;
      assert s[..|s|] == s;
      while digitNum < n.len
        invariant digitNum <= n.len == |s| && n.Sound() && n.base == base && fresh(n) && fresh(n.blk)
        invariant ReadOutcome(s, base) == ReadOutcome(s[..|s| - digitNum], base)
        invariant ReadSoFar(s, base, n.blk[..digitNum])
      {
        var symbolNumInString := n.len - 1 - digitNum;
        ReadNext(s, base, digitNum, n.blk[..digitNum]);
        ghost var done := n.blk[..digitNum];
        var digit := SymbolValue(s[symbolNumInString]);
        if digit < 0 {
          return Threw(BadSymbol), n;
        }
        n.blk[digitNum] := digit;
        if n.blk[digitNum] >= base {
          return Threw(DigitTooLarge), n;
        }
        assert n.blk[..digitNum + 1] == done + [digit];
        digitNum := digitNum + 1;
      }
      ReadAll(s, base, n.Digits());
      n.ZapLeadingZeros();
      return Ok, n;
    }

    /** Shows the number, most significant digit first. */
    method ToString() returns (r: Outcome, t: string)
      requires Valid()
      ensures r == if base > 36 then Threw(BadBase) else Ok
      ensures r.Ok? ==> AllBelow(Digits(), 36) && t == if len == 0 then "0" else ShowDigits(Digits())
    {
      if base > 36 {
        return Threw(BadBase), "";
      }
      if len == 0 {
        return Ok, "0";
      }
      ghost var ds := Digits();
      var s := new char[len];
      var symbolNumInString := 0;
      assert ds[len..] == [];
      while symbolNumInString < len
        invariant symbolNumInString <= len && s[..symbolNumInString] == ShowDigits(ds[len - symbolNumInString..])
      {
        var digitNum := len - 1 - symbolNumInString;
        ghost var done := s[..symbolNumInString];
        s[symbolNumInString] := Symbol(blk[digitNum]);
        assert s[..symbolNumInString + 1] == done + [Symbol(ds[digitNum])];
        assert ds[digitNum..][1..] == ds[digitNum + 1..];
        symbolNumInString := symbolNumInString + 1;
      }
      assert ds[0..] == ds;
      return Ok, s[..];
    }
  }

  /** `x2 % base`, leaving `x2 / base` behind. */
  method NextDigit(x2: BigUnsigned, base: Digit) returns (digit: Digit)
    requires x2.Valid() && base >= 2
    modifies x2, x2.blk
    ensures x2.Valid() && (x2.blk == old(x2.blk) || fresh(x2.blk))
    ensures old(x2.Val()) == x2.Val() * base + digit && digit < base
  {
    hide BigUnsigned.Valid, BigUnsigned.Val;
    BaseIsLarge();
    var buBase := new BigUnsigned.FromPrimitive(base);
    var lastDigit := new BigUnsigned.Copy(x2);
    var _ := lastDigit.DivideWithRemainder(buBase, x2);
    var _, short := lastDigit.ToUnsignedShort();
    digit := short;
  }

  /** `ans = ans * buBase + digit`. */
  method TimesPlus(ans: BigUnsigned, buBase: BigUnsigned, digit: Digit)
    requires ans.Valid() && buBase.Valid() && ans != buBase && ans.blk != buBase.blk
    modifies ans, ans.blk
    ensures ans.Valid() && (ans.blk == old(ans.blk) || fresh(ans.blk))
    ensures ans.Val() == digit + old(buBase.Val()) * old(ans.Val())
  {
    hide BigUnsigned.Valid, BigUnsigned.Val;
    BaseIsLarge();
    var temp := new BigUnsigned();
    temp.Multiply(ans, buBase);
    var d := new BigUnsigned.FromPrimitive(digit);
    ans.Add(temp, d);
  }

  /** `s` holds the lowest digits of `v`, and `x` is what remains above them. */
  ghost predicate Filled(v: nat, x: nat, s: seq<nat>, base: nat) {
    v == x * Pow(base, |s|) + DigitValue(s, base) && AllBelow(s, base) && (x == 0 ==> NoLeadingZero(s))
  }

  lemma FilledStart(v: nat, base: nat)
    ensures Filled(v, v, [], base)
  {
  }

  lemma FilledStep(v: nat, x: nat, x': nat, d: nat, s: seq<nat>, base: nat)
    requires base > 1 && Filled(v, x, s, base) && x > 0 && x == x' * base + d && d < base
    ensures Filled(v, x', s + [d], base) && x' < x
  {
    DigitValueAppend(s, d, base);
    assert Pow(base, |s + [d]|) == base * Pow(base, |s|);
    hide DigitValue, Pow;
    NextRemainder(x, x', d, base, Pow(base, |s|));
  }

  lemma NextRemainder(x: nat, x': nat, d: nat, base: nat, w: nat)
    requires base > d && x > 0 && x == x' * base + d
    ensures x * w == x' * (base * w) + d * w
    ensures x' < x || base == 1
    ensures x' == 0 ==> d > 0
  {
    MulDistributes(x' * base, d, w);
    MulAssociative(x', base, w);
    if x' >= x && base > 1 {
      MulMonotone(x', 2, base);
    }
  }

  lemma FilledLeavesRoom(v: nat, x: nat, s: seq<nat>, base: nat, bits: nat, m: nat)
    requires Filled(v, x, s, base) && x > 0 && m > 0 && Pow2(m) <= base && v < Pow2(bits)
    ensures |s| < CeilingDiv(bits, m)
  {
    MulMonotone(Pow(base, |s|), 1, x);
    RoomForDigit(v, base, |s|, bits, m);
  }

  /** `done` holds the digits of the last characters of `s`, provided the rest is legal. */
  ghost predicate ReadSoFar(s: string, base: nat, done: seq<nat>)
    requires |done| <= |s|
  {
    ReadOutcome(s, base) == Ok ==>
      var rest := s[..|s| - |done|];
      ReadOutcome(rest, base) == Ok && ReadDigits(s, base) == done + ReadDigits(rest, base)
  }

  lemma ReadNext(s: string, base: nat, n: nat, done: seq<nat>)
    requires n == |done| < |s| && ReadSoFar(s, base, done) && ReadOutcome(s, base) == ReadOutcome(s[..|s| - n], base)
    ensures var d := SymbolValue(s[|s| - 1 - n]);
            if d < 0 then ReadOutcome(s, base) == Threw(BadSymbol)
            else if d >= base then ReadOutcome(s, base) == Threw(DigitTooLarge)
            else ReadOutcome(s, base) == ReadOutcome(s[..|s| - n - 1], base) && ReadSoFar(s, base, done + [d])
  {
    var rest := s[..|s| - n];
    assert rest[..|rest| - 1] == s[..|s| - n - 1];
  }

  lemma ReadAll(s: string, base: nat, ds: seq<nat>)
    requires |ds| == |s| && ReadSoFar(s, base, ds) && ReadOutcome(s, base) == ReadOutcome([], base)
    ensures ReadOutcome(s, base) == Ok && AllBelow(ds, base) && DigitValue(ds, base) == ReadValue(s, base)
  {
    assert s[..0] == [];
    ReadDigitsBelow(s, base);
    assert ds + ReadDigits("", base) == ds;
    hide ReadDigits, ReadOutcome;
  }

  lemma BitsOfLength(s: seq<Blk>)
    ensures Value(s) < Pow2(BitAt(|s|, 0))
  {
    ValueBound(s);
  }

  lemma BaseHasTwoBits(base: nat, bits: nat)
    requires base >= 2 && base < Pow2(bits) && bits > 0 && Pow2(bits - 1) <= base
    ensures bits > 1
  {
  }
}
