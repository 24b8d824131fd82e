/** Arbitrary-size integers: a sign and a magnitude. */
module SignedNumbers {
  import opened Arith
  import opened Blocks
  import opened Errors
  import opened UnsignedNumbers

  datatype Sign = Negative | Zero | Positive {
    function Ordinal(): int {
      match this
      case Negative => -1
      case Zero => 0
      case Positive => 1
    }

    function Opposite(): Sign {
      match this
      case Negative => Positive
      case Zero => Zero
      case Positive => Negative
    }
  }

  function Signed(sign: Sign, mag: nat): int {
    if sign == Negative then 0 - mag else mag
  }

  function Compare(x: int, y: int): CmpRes {
    if x < y then Less else if x > y then Greater else Equal
  }

  class BigInteger {
    var sign: Sign
    const mag: BigUnsigned

    /** The class invariant: the sign is zero exactly when the magnitude is. */
    ghost predicate Valid()
      reads this, mag, mag.blk
      ensures Valid() ==> mag.Sound()
    {
      mag.Valid() && (sign == Zero <==> mag.Val() == 0)
    }

    ghost function Val(): int
      requires mag.Sound()
      reads this, mag, mag.blk
    {
      Signed(sign, mag.Val())
    }

    constructor ()
      ensures Valid() && Val() == 0 && fresh(mag) && fresh(mag.blk)
    {
      sign := Zero;
      mag := new BigUnsigned();
    }

    constructor Copy(x: BigInteger)
      requires x.Valid()
      ensures Valid() && Val() == x.Val() && fresh(mag) && fresh(mag.blk)
    {
      sign := x.sign;
      mag := new BigUnsigned.Copy(x.mag);
    }

    /** A nonnegative number from its magnitude. */
    constructor FromMagnitude(x: BigUnsigned)
      requires x.Valid()
      ensures Valid() && Val() == x.Val() && fresh(mag) && fresh(mag.blk)
    {
      var m := new BigUnsigned.Copy(x);
      sign := if m.IsZero() then Zero else Positive;
      mag := m;
    }

    constructor FromPrimitive(x: Blk)
      ensures Valid() && Val() == x && fresh(mag) && fresh(mag.blk)
    {
      var m := new BigUnsigned.FromPrimitive(x);
      sign := if m.IsZero() then Zero else Positive;
      mag := m;
    }

    /** A number from a magnitude and a sign; a zero magnitude forces the sign to zero. */
    static method FromSigned(x: BigUnsigned, s: Sign) returns (r: Outcome, n: BigInteger)
      requires x.Valid()
      ensures n.Valid() && fresh(n) && fresh(n.mag) && fresh(n.mag.blk)
      ensures r == if s == Zero && x.Val() != 0 then Threw(ZeroSignOfNonzero) else Ok
      ensures r.Ok? ==> n.Val() == Signed(s, x.Val())
    {
      n := new BigInteger.FromMagnitude(x);
      if s == Zero {
        r := if x.IsZero() then Ok else Threw(ZeroSignOfNonzero);
      } else {
        n.sign := if x.IsZero() then Zero else s;
        r := Ok;
      }
    }

    /** `*this = x`. */
    method Assign(x: BigInteger)
      requires Valid() && x.Valid() && Apart(this, x)
      modifies this, mag, mag.blk
      ensures Valid() && (mag.blk == old(mag.blk) || fresh(mag.blk))
      ensures Val() == old(x.Val())
    {
      if this == x {
        return;
      }
      sign := x.sign;
      mag.Assign(x.mag);
    }

    method AssignZero()
      requires mag.Valid()
      modifies this, mag, mag.blk
      ensures Valid() && (mag.blk == old(mag.blk) || fresh(mag.blk)) && Val() == 0
    {
      var zero := new BigUnsigned();
      mag.Assign(zero);
      sign := Zero;
    }

    function IsZero(): (r: bool)
      requires Valid()
      reads this, mag, mag.blk
      ensures r <==> Val() == 0
    {
      sign == Zero
    }

    method CompareTo(x: BigInteger) returns (r: CmpRes)
      requires Valid() && x.Valid()
      ensures r == Compare(Val(), x.Val())
      ensures (r == Less <==> Val() < x.Val()) && (r == Equal <==> Val() == x.Val())
    {
      if sign.Ordinal() < x.sign.Ordinal() {
        return Less;
      } else if sign.Ordinal() > x.sign.Ordinal() {
        return Greater;
      }
      match sign
      case Zero => return Equal;
      case Positive => r := mag.CompareTo(x.mag);
      case Negative =>
        r := mag.CompareTo(x.mag);
        r := match r case Less => Greater case Equal => Equal case Greater => Less;
    }

    method Equals(x: BigInteger) returns (r: bool)
      requires Valid() && x.Valid()
      ensures r <==> Val() == x.Val()
    {
      if sign != x.sign {
        return false;
      }
      r := mag.Equals(x.mag);
    }

    // ----- addition, subtraction, multiplication -----

    method Add(a: BigInteger, b: BigInteger)
      requires Valid() && a.Valid() && b.Valid() && Apart(this, a) && Apart(this, b)
      modifies this, mag, mag.blk
      ensures Valid() && (mag.blk == old(mag.blk) || fresh(mag.blk))
      ensures Val() == old(a.Val() + b.Val())
      decreases if this == a || this == b then 1 else 0
    {
      if this == a || this == b {
        var tmpThis := new BigInteger();
        tmpThis.Add(a, b);
        Assign(tmpThis);
        return;
      }
      if a.sign == Zero {
        Assign(b);
      } else if b.sign == Zero {
        Assign(a);
      } else {
        Combine(a.mag, a.sign, b.mag, b.sign);
      }
    }

    /** The sum of two nonzero numbers; `Subtract` comes here with the second sign reversed. */
    method Combine(a: BigUnsigned, s: Sign, b: BigUnsigned, t: Sign)
      requires mag.Valid() && a.Valid() && b.Valid() && a.Val() > 0 && b.Val() > 0 && s != Zero && t != Zero
      requires mag != a && mag != b && mag.blk != a.blk && mag.blk != b.blk
      modifies this, mag, mag.blk
      ensures Valid() && (mag.blk == old(mag.blk) || fresh(mag.blk))
      ensures Val() == Signed(s, old(a.Val())) + Signed(t, old(b.Val()))
    {
      hide BigUnsigned.Valid, BigUnsigned.Val;
      if s == t {
        sign := s;
        mag.Add(a, b);
      } else {
        var order := a.CompareTo(b);
        match order
        case Equal => AssignZero();
        case Greater =>
          sign := s;
          var _ := mag.Subtract(a, b);
        case Less =>
          sign := t;
          var _ := mag.Subtract(b, a);
      }
    }

    method Subtract(a: BigInteger, b: BigInteger)
      requires Valid() && a.Valid() && b.Valid() && Apart(this, a) && Apart(this, b)
      modifies this, mag, mag.blk
      ensures Valid() && (mag.blk == old(mag.blk) || fresh(mag.blk))
      ensures Val() == old(a.Val() - b.Val())
      decreases if this == a || this == b then 1 else 0
    {
      if this == a || this == b {
        var tmpThis := new BigInteger();
        tmpThis.Subtract(a, b);
        Assign(tmpThis);
        return;
      }
      if a.sign == Zero {
        mag.Assign(b.mag);
        sign := b.sign.Opposite();
      } else if b.sign == Zero {
        Assign(a);
      } else {
        Combine(a.mag, a.sign, b.mag, b.sign.Opposite());
      }
    }

    method Multiply(a: BigInteger, b: BigInteger)
      requires Valid() && a.Valid() && b.Valid() && Apart(this, a) && Apart(this, b)
      modifies this, mag, mag.blk
      ensures Valid() && (mag.blk == old(mag.blk) || fresh(mag.blk))
      ensures Val() == old(a.Val()) * old(b.Val())
      decreases if this == a || this == b then 1 else 0
    {
      if this == a || this == b {
        var tmpThis := new BigInteger();
        tmpThis.Multiply(a, b);
        Assign(tmpThis);
        return;
      }
      if a.sign == Zero || b.sign == Zero {
        AssignZero();
        return;
      }
      sign := if a.sign == b.sign then Positive else Negative;
      SignedProduct(a.sign, a.mag.Val(), b.sign, b.mag.Val());
      mag.Multiply(a.mag, b.mag);
    }

    // ----- division -----

    /** `*this` becomes the remainder, `q` the quotient, rounded towards minus infinity. */
    method DivideWithRemainder(b: BigInteger, q: BigInteger) returns (r: Outcome)
      requires Valid() && b.Valid() && q.Valid() && Apart(this, b) && Apart(this, q) && Apart(q, b)
      modifies this, mag, mag.blk, q, q.mag, q.mag.blk
      ensures Valid() && q.Valid() && Apart(this, q)
      ensures (mag.blk == old(mag.blk) || fresh(mag.blk)) && (q.mag.blk == old(q.mag.blk) || fresh(q.mag.blk))
      ensures r == if this == q then Threw(SharedOutput) else Ok
      ensures if r.Ok? then FloorDivision(old(Val()), old(b.Val()), q.Val(), Val()) else Val() == old(Val())
      decreases if this == b || q == b then 1 else 0
    {
      if this == q {
        return Threw(SharedOutput);
      }
      if this == b || q == b {
        var tmpB := new BigInteger.Copy(b);
        r := DivideWithRemainder(tmpB, q);
        return;
      }
      if b.sign == Zero {
        q.AssignZero();
        return Ok;
      }
      if sign == Zero {
        q.AssignZero();
        return Ok;
      }
      DivideNonzero(b, q);
      return Ok;
    }

    method DivideNonzero(b: BigInteger, q: BigInteger)
      requires Valid() && b.Valid() && q.Valid() && sign != Zero && b.sign != Zero
      requires this != b && this != q && q != b && Apart(this, b) && Apart(this, q) && Apart(q, b)
      modifies this, mag, mag.blk, q, q.mag, q.mag.blk
      ensures Valid() && q.Valid() && Apart(this, q)
      ensures (mag.blk == old(mag.blk) || fresh(mag.blk)) && (q.mag.blk == old(q.mag.blk) || fresh(q.mag.blk))
      ensures FloorDivision(old(Val()), old(b.Val()), q.Val(), Val())
    {
      hide BigUnsigned.Valid, BigUnsigned.Val, FloorDivision;
      ghost var a, s, d := mag.Val(), sign, b.mag.Val();
      if sign == b.sign {
        q.sign := Positive;
        var _ := mag.DivideWithRemainder(b.mag, q.mag);
        FloorOfSameSigns(s, a, d, q.mag.Val(), mag.Val());
      } else {
        q.sign := Negative;
        DivideCorrected(b.mag, q.mag);
        FloorOfOppositeSigns(s, a, b.sign, d, q.mag.Val(), mag.Val());
      }
      ghost var bigQ, bigR := Signed(q.sign, q.mag.Val()), Signed(b.sign, mag.Val());
      assert FloorDivision(Signed(s, a), Signed(b.sign, d), bigQ, bigR);
      SetSign(b.sign);
      q.SetSign(q.sign);
      assert q.Val() == bigQ && Val() == bigR;
    }

    /** Gives the number a sign, zero where the magnitude demands it. */
    method SetSign(s: Sign)
      requires mag.Valid() && s != Zero
      modifies this`sign
      ensures Valid() && Val() == Signed(s, mag.Val())
    {
      sign := s;
      if mag.IsZero() {
        sign := Zero;
      }
    }

    /** The magnitudes when the signs differ: the dividend is decreased by one before the division,
        the quotient increased and the remainder complemented after it. */
    method DivideCorrected(b: BigUnsigned, q: BigUnsigned)
      requires mag.Valid() && b.Valid() && q.Valid() && mag.Val() > 0 && b.Val() > 0
      requires mag != b && mag != q && q != b && mag.blk != b.blk && mag.blk != q.blk && q.blk != b.blk
      modifies mag, mag.blk, q, q.blk
      ensures mag.Valid() && q.Valid() && mag.blk != q.blk
      ensures (mag.blk == old(mag.blk) || fresh(mag.blk)) && (q.blk == old(q.blk) || fresh(q.blk))
      ensures q.Val() > 0 && mag.Val() < old(b.Val())
      ensures FloorDivision(old(mag.Val()) - 1, old(b.Val()), q.Val() - 1, old(b.Val()) - 1 - mag.Val())
    {
      hide BigUnsigned.Valid, BigUnsigned.Val;
      var _ := mag.Decrement();
      var _ := mag.DivideWithRemainder(b, q);
      q.Increment();
      Complement(b);
    }

    /** Replaces a remainder by what is missing to the divisor, less one. */
    method Complement(b: BigUnsigned)
      requires mag.Valid() && b.Valid() && mag != b && mag.blk != b.blk && mag.Val() < b.Val()
      modifies mag, mag.blk
      ensures mag.Valid() && (mag.blk == old(mag.blk) || fresh(mag.blk))
      ensures mag.Val() == old(b.Val()) - 1 - old(mag.Val())
    {
      hide BigUnsigned.Valid, BigUnsigned.Val;
      var _ := mag.Subtract(b, mag);
      var _ := mag.Decrement();
    }

    method Negate(a: BigInteger)
      requires Valid() && a.Valid() && Apart(this, a)
      modifies this, mag, mag.blk
      ensures Valid() && (mag.blk == old(mag.blk) || fresh(mag.blk))
      ensures Val() == -old(a.Val())
      decreases if this == a then 1 else 0
    {
      if this == a {
        var tmpThis := new BigInteger();
        tmpThis.Negate(a);
        Assign(tmpThis);
        return;
      }
      mag.Assign(a.mag);
      sign := a.sign.Opposite();
    }

    method Increment()
      requires Valid()
      modifies this, mag, mag.blk
      ensures Valid() && (mag.blk == old(mag.blk) || fresh(mag.blk))
      ensures Val() == old(Val()) + 1
    {
      if sign == Negative {
        var _ := mag.Decrement();
        if mag.IsZero() {
          sign := Zero;
        }
      } else {
        mag.Increment();
        sign := Positive;
      }
    }

    method Decrement()
      requires Valid()
      modifies this, mag, mag.blk
      ensures Valid() && (mag.blk == old(mag.blk) || fresh(mag.blk))
      ensures Val() == old(Val()) - 1
    {
      if sign == Positive {
        var _ := mag.Decrement();
        if mag.IsZero() {
          sign := Zero;
        }
      } else {
        mag.Increment();
        sign := Negative;
      }
    }

    /** `*this % x`. */
    method Mod(x: BigInteger) returns (r: Outcome, ans: BigInteger)
      requires Valid() && x.Valid()
      ensures ans.Valid() && fresh(ans) && fresh(ans.mag) && fresh(ans.mag.blk)
      ensures r == if x.Val() == 0 then Threw(DivisionByZero) else Ok
      ensures r.Ok? ==> exists q :: FloorDivision(Val(), x.Val(), q, ans.Val())
    {
      hide BigUnsigned.Valid, BigUnsigned.Val, FloorDivision;
      ans := new BigInteger.Copy(this);
      if x.IsZero() {
        return Threw(DivisionByZero), ans;
      }
      var q := new BigInteger();
      r := ans.DivideWithRemainder(x, q);
      assert FloorDivision(Val(), x.Val(), q.Val(), ans.Val());
    }
  }

  ghost predicate Apart(x: BigInteger, y: BigInteger)
    reads x, x.mag, y, y.mag
  {
    x == y || (x.mag != y.mag && x.mag.blk != y.mag.blk)
  }

  lemma SignedProduct(s: Sign, a: nat, t: Sign, b: nat)
    requires s != Zero && t != Zero && a > 0 && b > 0
    ensures a * b > 0 && Signed(s, a) * Signed(t, b) == Signed(if s == t then Positive else Negative, a * b)
  {
    MulMonotone(a, 1, b);
  }

  lemma MulNegative(x: int, y: int)
    ensures (0 - x) * y == 0 - x * y && x * (0 - y) == 0 - x * y && (0 - x) * (0 - y) == x * y
  {
    MulDistributes(0, x, y);
    MulDistributes(0, y, x);
    MulDistributes(0, x, 0 - y);
  }

  lemma FloorOfSameSigns(s: Sign, a: nat, b: nat, q: nat, r: nat)
    requires s != Zero && b > 0 && FloorDivision(a, b, q, r)
    ensures FloorDivision(Signed(s, a), Signed(s, b), q, Signed(s, r))
  {
    MulNegative(q, b);
  }

  /** Knuth's corrections turn division of magnitudes into floor division. */
  lemma FloorOfOppositeSigns(s: Sign, a: nat, t: Sign, b: nat, q: nat, r: nat)
    requires s != Zero && t != Zero && s != t && a > 0 && b > 0 && q > 0
    requires FloorDivision(a - 1, b, q - 1, b - 1 - r)
    ensures FloorDivision(Signed(s, a), Signed(t, b), 0 - q, Signed(t, r))
  {
    MulDistributes(q, 1, b);
    MulNegative(q, b);
  }
}
