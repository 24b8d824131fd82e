/** Greatest common divisors, modular inverses and modular powers. */
module Algorithms {
  import opened Arith
  import opened Bits
  import opened Blocks
  import opened Errors
  import opened NumberTheory
  import opened SignedNumbers
  import opened UnsignedNumbers

  method GcdOf(a0: BigUnsigned, b0: BigUnsigned) returns (g: BigUnsigned)
    requires a0.Valid() && b0.Valid()
    ensures g.Valid() && fresh(g) && fresh(g.blk)
    ensures IsGcd(g.Val(), a0.Val(), b0.Val())
  {
    hide Divides, BigUnsigned.Valid, BigUnsigned.Val;
    ghost var x, y := a0.Val(), b0.Val();
    var a := new BigUnsigned.Copy(a0);
    var b := new BigUnsigned.Copy(b0);
    var trash := new BigUnsigned();
    SameDivisors(x, y);
    while true
      invariant a.Valid() && b.Valid() && trash.Valid() && a != b && a != trash && b != trash
      invariant fresh(a) && fresh(a.blk) && fresh(b) && fresh(b.blk) && fresh(trash) && fresh(trash.blk)
      invariant a.blk != b.blk && a.blk != trash.blk && b.blk != trash.blk
      invariant CommonDivisors(a.Val(), b.Val(), x, y)
      decreases b.Val()
    {
      if b.IsZero() {
        GcdFound(a.Val(), x, y);
        return a;
      }
      EuclidStep(a, b, trash, x, y);
      if a.IsZero() {
        DivisorsCommute(a.Val(), b.Val(), x, y);
        GcdFound(b.Val(), x, y);
        return b;
      }
      DivisorsCommute(a.Val(), b.Val(), x, y);
      EuclidStep(b, a, trash, x, y);
      DivisorsCommute(b.Val(), a.Val(), x, y);
    }
  }

  /** `a %= b`, seen from the common divisors. */
  method EuclidStep(a: BigUnsigned, b: BigUnsigned, trash: BigUnsigned, ghost x: int, ghost y: int)
    requires a.Valid() && b.Valid() && trash.Valid() && a != b && a != trash && b != trash && b.Val() > 0
    requires a.blk != b.blk && a.blk != trash.blk && b.blk != trash.blk
    requires CommonDivisors(a.Val(), b.Val(), x, y)
    modifies a, a.blk, trash, trash.blk
    ensures a.Valid() && b.Valid() && trash.Valid() && a.blk != b.blk && a.blk != trash.blk && b.blk != trash.blk
    ensures (a.blk == old(a.blk) || fresh(a.blk)) && (trash.blk == old(trash.blk) || fresh(trash.blk))
    ensures CommonDivisors(a.Val(), b.Val(), x, y) && a.Val() < b.Val()
  {
    hide Divides, BigUnsigned.Valid, BigUnsigned.Val;
    ghost var u, v := a.Val(), b.Val();
    var _ := a.DivideWithRemainder(b, trash);
    DivisionKeepsDivisors(u, v, trash.Val(), a.Val());
  }

  lemma SameDivisors(x: int, y: int)
    ensures CommonDivisors(x, y, x, y)
  {
  }

  lemma DivisorsCommute(a: int, b: int, x: int, y: int)
    requires CommonDivisors(a, b, x, y)
    ensures CommonDivisors(b, a, x, y)
  {
  }

  // ----- the extended algorithm -----

  /** Distinct numbers with nothing in common. */
  ghost predicate Distinct(x: BigInteger, y: BigInteger)
    reads x, x.mag, y, y.mag
  {
    x != y && x.mag != y.mag && x.mag.blk != y.mag.blk
  }

  /** One line of the algorithm: the coefficients of `m` in the original numbers. */
  ghost predicate Row(m: int, r: int, s: int, x: int, y: int) {
    r * x + s * y == m
  }

  lemma RowStep(m: int, r1: int, s1: int, n: int, r2: int, s2: int, q: int, x: int, y: int)
    requires Row(m, r1, s1, x, y) && Row(n, r2, s2, x, y)
    ensures Row(m - q * n, r1 - q * r2, s1 - q * s2, x, y)
  {
    MulDistributes(r1, q * r2, x);
    MulDistributes(s1, q * s2, y);
    MulAssociative(q, r2, x);
    MulAssociative(q, s2, y);
    MulDistributes(r2 * x, s2 * y, q);
  }

  /** `a -= q * b`. */
  method MinusProduct(a: BigInteger, q: BigInteger, b: BigInteger)
    requires a.Valid() && q.Valid() && b.Valid() && Distinct(a, q) && Distinct(a, b)
    modifies a, a.mag, a.mag.blk
    ensures a.Valid() && a.Val() == old(a.Val()) - old(q.Val()) * old(b.Val()) && Kept(a)
  {
    hide BigInteger.Valid, BigInteger.Val;
    var product := new BigInteger();
    product.Multiply(q, b);
    a.Subtract(a, product);
  }

  /** Seven numbers, all valid and all distinct. */
  ghost predicate Seven(m: BigInteger, r1: BigInteger, s1: BigInteger, n: BigInteger, r2: BigInteger, s2: BigInteger,
                        q: BigInteger)
    reads m, m.mag, m.mag.blk, r1, r1.mag, r1.mag.blk, s1, s1.mag, s1.mag.blk
    reads n, n.mag, n.mag.blk, r2, r2.mag, r2.mag.blk, s2, s2.mag, s2.mag.blk, q, q.mag, q.mag.blk
    ensures Seven(m, r1, s1, n, r2, s2, q) ==> m.Valid() && r1.Valid() && s1.Valid()
    ensures Seven(m, r1, s1, n, r2, s2, q) ==> n.Valid() && r2.Valid() && s2.Valid() && q.Valid()
  {
    && m.Valid() && r1.Valid() && s1.Valid() && n.Valid() && r2.Valid() && s2.Valid() && q.Valid()
    && Distinct(m, r1) && Distinct(m, s1) && Distinct(m, n) && Distinct(m, r2) && Distinct(m, s2) && Distinct(m, q)
    && Distinct(r1, s1) && Distinct(r1, n) && Distinct(r1, r2) && Distinct(r1, s2) && Distinct(r1, q)
    && Distinct(s1, n) && Distinct(s1, r2) && Distinct(s1, s2) && Distinct(s1, q)
    && Distinct(n, r2) && Distinct(n, s2) && Distinct(n, q)
    && Distinct(r2, s2) && Distinct(r2, q) && Distinct(s2, q)
  }

  lemma SevenSwap(m: BigInteger, r1: BigInteger, s1: BigInteger, n: BigInteger, r2: BigInteger, s2: BigInteger,
                  q: BigInteger)
    requires Seven(m, r1, s1, n, r2, s2, q)
    ensures Seven(n, r2, s2, m, r1, s1, q)
  {
    hide BigInteger.Valid;
  }

  /** Takes a multiple of the second row out of the first, in place; `q` becomes the multiplier. */
  method RowReduce(m: BigInteger, r1: BigInteger, s1: BigInteger, n: BigInteger, r2: BigInteger, s2: BigInteger,
                   q: BigInteger,
                   ghost x: int, ghost y: int)
    requires Seven(m, r1, s1, n, r2, s2, q)
    requires Row(m.Val(), r1.Val(), s1.Val(), x, y) && Row(n.Val(), r2.Val(), s2.Val(), x, y) && n.Val() != 0
    modifies m, m.mag, m.mag.blk, r1, r1.mag, r1.mag.blk, s1, s1.mag, s1.mag.blk, q, q.mag, q.mag.blk
    ensures Seven(m, r1, s1, n, r2, s2, q) && Kept(m) && Kept(r1) && Kept(s1) && Kept(q)
    ensures Kept(n) && Kept(r2) && Kept(s2)
    ensures Row(m.Val(), r1.Val(), s1.Val(), x, y)
    ensures n.Val() == old(n.Val()) && r2.Val() == old(r2.Val()) && s2.Val() == old(s2.Val())
    ensures FloorDivision(old(m.Val()), old(n.Val()), q.Val(), m.Val())
  {
    hide BigInteger.Valid, BigInteger.Val, Row, FloorDivision, Seven, Distinct;
    ghost var m0, r0, s0, n0, u, v := m.Val(), r1.Val(), s1.Val(), n.Val(), r2.Val(), s2.Val();
    DivideFirst(m, r1, s1, n, r2, s2, q);
    ReduceCoefficients(m, r1, s1, n, r2, s2, q);
    RowStep(m0, r0, s0, n0, u, v, q.Val(), x, y);
    FloorRemainder(m0, n0, q.Val(), m.Val());
  }

  method DivideFirst(m: BigInteger, r1: BigInteger, s1: BigInteger, n: BigInteger, r2: BigInteger, s2: BigInteger,
                     q: BigInteger)
    requires Seven(m, r1, s1, n, r2, s2, q)
    modifies m, m.mag, m.mag.blk, q, q.mag, q.mag.blk
    ensures Seven(m, r1, s1, n, r2, s2, q) && Kept(m) && Kept(q)
    ensures Kept(r1) && Kept(s1) && Kept(n) && Kept(r2) && Kept(s2)
    ensures r1.Val() == old(r1.Val()) && s1.Val() == old(s1.Val())
    ensures n.Val() == old(n.Val()) && r2.Val() == old(r2.Val()) && s2.Val() == old(s2.Val())
    ensures FloorDivision(old(m.Val()), old(n.Val()), q.Val(), m.Val())
  {
    hide BigInteger.Valid, BigInteger.Val, FloorDivision;
    var _ := m.DivideWithRemainder(n, q);
  }

  method ReduceCoefficients(m: BigInteger, r1: BigInteger, s1: BigInteger, n: BigInteger, r2: BigInteger,
                            s2: BigInteger,
                            q: BigInteger)
    requires Seven(m, r1, s1, n, r2, s2, q)
    modifies r1, r1.mag, r1.mag.blk, s1, s1.mag, s1.mag.blk
    ensures Seven(m, r1, s1, n, r2, s2, q) && Kept(r1) && Kept(s1)
    ensures Kept(m) && Kept(q) && Kept(n) && Kept(r2) && Kept(s2)
    ensures r1.Val() == old(r1.Val()) - q.Val() * r2.Val() && s1.Val() == old(s1.Val()) - q.Val() * s2.Val()
    ensures m.Val() == old(m.Val()) && n.Val() == old(n.Val()) && q.Val() == old(q.Val())
    ensures r2.Val() == old(r2.Val()) && s2.Val() == old(s2.Val())
  {
    hide BigInteger.Valid, BigInteger.Val;
    MinusProduct(r1, q, r2);
    MinusProduct(s1, q, s2);
  }

  /** `g == r*x + s*y` is, up to its sign, the greatest common divisor; it is positive when `y` is,
      and `x` itself when `y` is zero. */
  ghost predicate Bezout(g: int, r: int, s: int, x: int, y: int) {
    Row(g, r, s, x, y) && IsGcd(Abs(g), x, y) && (y > 0 ==> g > 0) && (y == 0 ==> g == x)
  }

  /** Three numbers that are the same object or share nothing. */
  ghost predicate ThreeApart(g: BigInteger, r: BigInteger, s: BigInteger)
    reads g, g.mag, g.mag.blk, r, r.mag, r.mag.blk, s, s.mag, s.mag.blk
    ensures ThreeApart(g, r, s) ==> g.Valid() && r.Valid() && s.Valid()
  {
    g.Valid() && r.Valid() && s.Valid() && Apart(g, r) && Apart(g, s) && Apart(r, s)
  }

  method ExtendedEuclidean(m: BigInteger, n: BigInteger, g: BigInteger, r: BigInteger, s: BigInteger)
    returns (o: Outcome)
    requires m.Valid() && n.Valid() && ThreeApart(g, r, s)
    modifies g, g.mag, g.mag.blk, r, r.mag, r.mag.blk, s, s.mag, s.mag.blk
    ensures ThreeApart(g, r, s)
    ensures o == if g == r || g == s || r == s then Threw(SharedOutput) else Ok
    ensures o.Ok? ==> Kept(g) && Kept(r) && Kept(s)
    ensures o.Ok? ==> Bezout(g.Val(), r.Val(), s.Val(), old(m.Val()), old(n.Val()))
  {
    hide BigInteger.Valid, BigInteger.Val, Bezout;
    if g == r || g == s || r == s {
      return Threw(SharedOutput);
    }
    var g', r', s' := EuclidRun(m, n);
    StoreResults(g, r, s, g', r', s');
    return Ok;
  }

  method StoreResults(g: BigInteger, r: BigInteger, s: BigInteger, g0: BigInteger, r0: BigInteger, s0: BigInteger)
    requires ThreeApart(g, r, s) && g0.Valid() && r0.Valid() && s0.Valid() && g != r && g != s && r != s
    requires Distinct(r, r0) && Distinct(r, s0) && Distinct(r, g0)
    requires Distinct(s, s0) && Distinct(s, g0) && Distinct(g, g0)
    modifies g, g.mag, g.mag.blk, r, r.mag, r.mag.blk, s, s.mag, s.mag.blk
    ensures ThreeApart(g, r, s)
    ensures Kept(g) && Kept(r) && Kept(s)
    ensures g.Val() == old(g0.Val()) && r.Val() == old(r0.Val()) && s.Val() == old(s0.Val())
  {
    hide BigInteger.Valid, BigInteger.Val;
    r.Assign(r0);
    s.Assign(s0);
    g.Assign(g0);
  }

  /** The storage of `x` is still its own. */
  twostate predicate Kept(x: BigInteger)
    reads x, x.mag
  {
    x.mag.blk == old(x.mag.blk) || fresh(x.mag.blk)
  }

  lemma InitialRows(x: int, y: int)
    ensures Row(x, ONE, ZERO, x, y) && Row(y, ZERO, ONE, x, y) && CommonDivisors(x, y, x, y)
  {
  }

  /** Storage that did not exist before. */
  twostate predicate New(new x: BigInteger)
    reads x, x.mag
  {
    fresh(x) && fresh(x.mag) && fresh(x.mag.blk)
  }

  /** The two rows at the start, in storage of their own. */
  method StartRows(m0: BigInteger, n0: BigInteger)
    returns (m: BigInteger, r1: BigInteger, s1: BigInteger, n: BigInteger, r2: BigInteger, s2: BigInteger,
             q: BigInteger)
    requires m0.Valid() && n0.Valid()
    ensures Seven(m, r1, s1, n, r2, s2, q)
    ensures New(m) && New(r1) && New(s1) && New(n) && New(r2) && New(s2) && New(q)
    ensures m.Val() == m0.Val() && n.Val() == n0.Val()
    ensures r1.Val() == ONE && s1.Val() == ZERO && r2.Val() == ZERO && s2.Val() == ONE
  {
    hide BigInteger.Valid, BigInteger.Val;
    m, r1, s1 := StartRow(m0, ONE, ZERO);
    n, r2, s2, q := SecondRow(m, r1, s1, n0);
  }

  /** The second row and the quotient, away from the first row. */
  method SecondRow(m: BigInteger, r1: BigInteger, s1: BigInteger, n0: BigInteger)
    returns (n: BigInteger, r2: BigInteger, s2: BigInteger, q: BigInteger)
    requires m.Valid() && r1.Valid() && s1.Valid() && Distinct(m, r1) && Distinct(m, s1) && Distinct(r1, s1)
    requires n0.Valid()
    ensures Seven(m, r1, s1, n, r2, s2, q)
    ensures New(n) && New(r2) && New(s2) && New(q)
    ensures n.Val() == n0.Val() && r2.Val() == ZERO && s2.Val() == ONE
  {
    hide BigInteger.Valid, BigInteger.Val;
    n, r2, s2 := StartRow(n0, ZERO, ONE);
    q := new BigInteger();
  }

  method StartRow(m0: BigInteger, r0: Blk, s0: Blk) returns (m: BigInteger, r: BigInteger, s: BigInteger)
    requires m0.Valid()
    ensures m.Valid() && r.Valid() && s.Valid() && Distinct(m, r) && Distinct(m, s) && Distinct(r, s)
    ensures New(m) && New(r) && New(s)
    ensures m.Val() == m0.Val() && r.Val() == r0 && s.Val() == s0
  {
    hide BigInteger.Valid, BigInteger.Val;
    m := new BigInteger.Copy(m0);
    r := new BigInteger.FromPrimitive(r0);
    s := new BigInteger.FromPrimitive(s0);
  }

  /** Sets up the two rows and reduces them; the row left over is the result. */
  method EuclidRun(m0: BigInteger, n0: BigInteger) returns (g: BigInteger, r: BigInteger, s: BigInteger)
    requires m0.Valid() && n0.Valid()
    ensures ThreeApart(g, r, s) && New(g) && New(r) && New(s)
    ensures Bezout(g.Val(), r.Val(), s.Val(), old(m0.Val()), old(n0.Val()))
  {
    hide BigInteger.Valid, BigInteger.Val, Row, CommonDivisors, IsGcd, Bezout;
    ghost var x, y := m0.Val(), n0.Val();
    InitialRows(x, y);
    var m, r1, s1, n, r2, s2, q := StartRows(m0, n0);
    var first := EuclidLoop(m, r1, s1, n, r2, s2, q, x, y);
    if first {
      return m, r1, s1;
    }
    return n, r2, s2;
  }

  /** The loop of `extendedEuclidean`: reduces the rows in turn until one of the numbers is zero. */
  method EuclidLoop(m: BigInteger, r1: BigInteger, s1: BigInteger, n: BigInteger, r2: BigInteger, s2: BigInteger,
                    q: BigInteger,
                    ghost x: int, ghost y: int) returns (first: bool)
    requires Seven(m, r1, s1, n, r2, s2, q)
    requires Row(m.Val(), r1.Val(), s1.Val(), x, y) && Row(n.Val(), r2.Val(), s2.Val(), x, y)
    requires CommonDivisors(m.Val(), n.Val(), x, y) && m.Val() == x && n.Val() == y
    modifies m, m.mag, m.mag.blk, r1, r1.mag, r1.mag.blk, s1, s1.mag, s1.mag.blk
    modifies n, n.mag, n.mag.blk, r2, r2.mag, r2.mag.blk, s2, s2.mag, s2.mag.blk, q, q.mag, q.mag.blk
    ensures Seven(m, r1, s1, n, r2, s2, q)
    ensures Kept(m) && Kept(r1) && Kept(s1) && Kept(n) && Kept(r2) && Kept(s2) && Kept(q)
    ensures if first then Bezout(m.Val(), r1.Val(), s1.Val(), x, y) else Bezout(n.Val(), r2.Val(), s2.Val(), x, y)
  {
    hide BigInteger.Valid, BigInteger.Val, Row, FloorDivision, CommonDivisors, IsGcd, Distinct, Seven;
    while true
      invariant Seven(m, r1, s1, n, r2, s2, q)
      invariant Kept(m) && Kept(r1) && Kept(s1) && Kept(n) && Kept(r2) && Kept(s2) && Kept(q)
      invariant Row(m.Val(), r1.Val(), s1.Val(), x, y) && Row(n.Val(), r2.Val(), s2.Val(), x, y)
      invariant CommonDivisors(m.Val(), n.Val(), x, y)
      invariant SignsOf(m.Val(), n.Val(), x, y)
      decreases Abs(n.Val())
    {
      if n.IsZero() {
        EuclidEnds(m.Val(), n.Val(), x, y);
        return true;
      }
      ghost var a, b := m.Val(), n.Val();
      RowReduce(m, r1, s1, n, r2, s2, q, x, y);
      EuclidContinues(a, b, q.Val(), m.Val(), x, y);
      if m.IsZero() {
        EuclidEnds(n.Val(), m.Val(), x, y);
        return false;
      }
      SevenSwap(m, r1, s1, n, r2, s2, q);
      RowReduce(n, r2, s2, m, r1, s1, q, x, y);
      SevenSwap(n, r2, s2, m, r1, s1, q);
      EuclidContinues(b, m.Val(), q.Val(), n.Val(), x, y);
    }
  }

  /** What the loop keeps about the signs of the two numbers. */
  ghost predicate SignsOf(m: int, n: int, x: int, y: int) {
    (y > 0 ==> n > 0 || (n == 0 && m > 0)) && (y == 0 ==> m == x && n == 0)
  }

  lemma EuclidEnds(g: int, z: int, x: int, y: int)
    requires CommonDivisors(g, z, x, y) && z == 0
    ensures IsGcd(Abs(g), x, y)
  {
    GcdFound(g, x, y);
  }

  /** A division step keeps the common divisors, shrinks the number and takes the sign of the divisor. */
  lemma EuclidContinues(a: int, b: int, q: int, r: int, x: int, y: int)
    requires CommonDivisors(a, b, x, y) && FloorDivision(a, b, q, r) && b != 0
    ensures CommonDivisors(b, r, x, y) && Abs(r) < Abs(b) && (b > 0 ==> r >= 0)
  {
    DivisionKeepsDivisors(a, b, q, r);
    hide Divides;
  }

  lemma FloorRemainder(a: int, b: int, q: int, r: int)
    requires FloorDivision(a, b, q, r) && b != 0
    ensures r == a - q * b
  {
  }

  // ----- modular inverse and power -----

  /** `(r % n).getMagnitude()`. */
  method ModMagnitude(r: BigInteger, n: BigUnsigned) returns (o: Outcome, v: BigUnsigned)
    requires r.Valid() && n.Valid()
    ensures v.Valid() && fresh(v) && fresh(v.blk)
    ensures o == if old(n.Val()) == 0 then Threw(DivisionByZero) else Ok
    ensures o.Ok? ==> v.Val() == Residue(old(r.Val()), old(n.Val()))
  {
    ghost var a, m := r.Val(), n.Val();
    var modulus := new BigInteger.FromMagnitude(n);
    hide FloorDivision;
    var rest;
    o, rest := r.Mod(modulus);
    v := new BigUnsigned.Copy(rest.mag);
    if o.Ok? {
      FloorRemainderIs(a, m, rest.Val());
    }
  }

  lemma FloorRemainderIs(a: int, m: int, r: int)
    requires m > 0 && exists q :: FloorDivision(a, m, q, r)
    ensures r == Residue(a, m)
  {
    var q :| FloorDivision(a, m, q, r);
    FloorRemainderIsResidue(a, m, q, r);
  }

  /** Succeeds exactly when `n` is positive and has no factor in common with `x`. */
  method ModInv(x: BigInteger, n: BigUnsigned) returns (o: Outcome, v: BigUnsigned)
    requires x.Valid() && n.Valid()
    ensures v.Valid()
    ensures o == if old(n.Val()) > 0 && IsGcd(1, old(x.Val()), old(n.Val())) then Ok
                 else if old(n.Val()) == 0 && old(x.Val()) == 1 then Threw(DivisionByZero)
                 else Threw(CommonFactor)
    ensures o.Ok? ==> v.Val() < old(n.Val()) && Residue(old(x.Val()) * v.Val() - 1, old(n.Val())) == 0
  {
    hide BigInteger.Valid, BigInteger.Val, Bezout, IsGcd;
    ghost var a, b := x.Val(), n.Val();
    var g, r, s, isOne := CoefficientsOf(x, n);
    DecidesCoprime(g, r.Val(), s, a, b);
    if !isOne {
      v := new BigUnsigned();
      return Threw(CommonFactor), v;
    }
    ghost var t := r.Val();
    o, v := ModMagnitude(r, n);
    if o.Ok? {
      InverseFound(t, s, a, b);
    }
  }

  /** Runs `extendedEuclidean` and compares the divisor with one. */
  method CoefficientsOf(x: BigInteger, n: BigUnsigned) returns (ghost d: int, r: BigInteger, ghost t: int, isOne: bool)
    requires x.Valid() && n.Valid()
    ensures r.Valid() && Bezout(d, r.Val(), t, old(x.Val()), old(n.Val()))
    ensures isOne <==> d == 1
  {
    hide BigInteger.Valid, BigInteger.Val, Bezout;
    var signedN := new BigInteger.FromMagnitude(n);
    var g := new BigInteger();
    r := new BigInteger();
    var s := new BigInteger();
    var _ := ExtendedEuclidean(x, signedN, g, r, s);
    d, t := g.Val(), s.Val();
    var one := new BigInteger.FromPrimitive(ONE);
    isOne := g.Equals(one);
  }

  lemma DecidesCoprime(g: int, r: int, s: int, a: int, b: nat)
    requires Bezout(g, r, s, a, b)
    ensures b > 0 ==> (g == 1 <==> IsGcd(1, a, b))
    ensures b == 0 ==> g == a
  {
    hide CommonDivisors;
    if b > 0 && IsGcd(1, a, b) {
      GcdUnique(g, 1, a, b);
    }
  }

  lemma InverseFound(r: int, s: int, a: int, b: nat)
    requires b > 0 && Bezout(1, r, s, a, b)
    ensures Residue(a * Residue(r, b) - 1, b) == 0
  {
    DivModDefinition(r, b);
    assert FloorDivision(r, b, r / b, r % b);
    InverseFromBezout(a, b, r, s, Residue(r, b), r / b);
  }

  method ModExp(base: BigInteger, exponent: BigUnsigned, modulus: BigUnsigned) returns (o: Outcome, ans: BigUnsigned)
    requires base.Valid() && exponent.Valid() && modulus.Valid()
    ensures ans.Valid()
    ensures o == if old(modulus.Val()) == 0 then Threw(DivisionByZero) else Ok
    ensures o.Ok? ==> ans.Val() == ModularPower(old(base.Val()), old(exponent.Val()), old(modulus.Val()))
  {
    hide BigUnsigned.Valid, BigUnsigned.Val, Residue, Pow, Shr, PowerSoFar;
    ghost var b, e, m := base.Val(), exponent.Val(), modulus.Val();
    ans := new BigUnsigned.FromPrimitive(ONE);
    var base2;
    o, base2 := ModMagnitude(base, modulus);
    if o.Threw? {
      return;
    }
    var i := exponent.BitLength();
    ghost var bits := i;
    PowerStart(b, e, m, bits);
    while i > 0
      invariant ans.Valid() && fresh(ans) && fresh(ans.blk)
      invariant base2.Valid() && base2.Val() == Residue(b, m) && fresh(base2) && fresh(base2.blk)
      invariant exponent.Valid() && exponent.Val() == e && modulus.Valid() && modulus.Val() == m
      invariant ans != base2 && ans.blk != base2.blk && i <= bits
      invariant PowerSoFar(ans.Val(), b, e, m, i, bits)
    {
      i := i - 1;
      PowerTurn(ans, base2, exponent, modulus, i, b, bits);
    }
    PowerEnd(ans.Val(), b, e, m, bits);
  }

  /** One turn of the loop: squares and, for a one bit of the exponent, multiplies. */
  method PowerTurn(ans: BigUnsigned, base2: BigUnsigned, exponent: BigUnsigned, modulus: BigUnsigned, i: nat,
                   ghost b: int, ghost bits: nat)
    requires ans.Valid() && base2.Valid() && exponent.Valid() && modulus.Valid() && modulus.Val() > 0 && i < bits
    requires Separate(ans, base2) && ans != base2
    requires Separate(ans, exponent) && ans != exponent && Separate(ans, modulus) && ans != modulus
    requires base2.Val() == Residue(b, modulus.Val())
    requires PowerSoFar(ans.Val(), b, exponent.Val(), modulus.Val(), i + 1, bits)
    modifies ans, ans.blk
    ensures ans.Valid() && (ans.blk == old(ans.blk) || fresh(ans.blk))
    ensures PowerSoFar(ans.Val(), b, exponent.Val(), modulus.Val(), i, bits)
  {
    hide BigUnsigned.Valid, BigUnsigned.Val, Residue, Pow, Shr, PowerSoFar;
    ghost var before := ans.Val();
    TimesMod(ans, ans, modulus);
    var bit := exponent.GetBit(i);
    if bit {
      TimesMod(ans, base2, modulus);
    }
    PowerStep(before, b, exponent.Val(), modulus.Val(), i, bits);
  }

  /** `ans *= x; ans %= modulus`. */
  method TimesMod(ans: BigUnsigned, x: BigUnsigned, modulus: BigUnsigned)
    requires ans.Valid() && x.Valid() && modulus.Valid() && modulus.Val() > 0
    requires Separate(ans, x) && ans != modulus && ans.blk != modulus.blk
    modifies ans, ans.blk
    ensures ans.Valid() && (ans.blk == old(ans.blk) || fresh(ans.blk))
    ensures ans.Val() == Residue(old(ans.Val()) * old(x.Val()), old(modulus.Val()))
  {
    hide BigUnsigned.Valid, BigUnsigned.Val, Residue;
    ans.Multiply(ans, x);
    var _ := ans.ModAssign(modulus);
  }

  /** What `modexp` returns: the power is reduced in every case but an exponent of zero. */
  ghost function ModularPower(b: int, e: nat, m: nat): nat
    requires m > 0
  {
    if e == 0 then 1 else Residue(Pow(b, e), m)
  }

  /** The result is the reduced power except for `e == 0` and `m == 1`. */
  lemma ModularPowerIsPower(b: int, e: nat, m: nat)
    requires m > 0
    ensures ModularPower(b, e, m) == Residue(Pow(b, e), m) <==> !(e == 0 && m == 1)
  {
    ResidueBound(1, m);
    ResidueBound(ModularPower(b, e, m), m);
  }

  /** `a` is the power for the bits of `e` from `i` up, reduced once at least one bit is done. */
  ghost predicate PowerSoFar(a: nat, b: int, e: nat, m: nat, i: nat, bits: nat)
    requires m > 0
  {
    if i == bits then a == 1 && Shr(e, i) == 0 && (e == 0 <==> bits == 0)
    else (e == 0 <==> bits == 0) && a == Residue(Pow(b, Shr(e, i)), m)
  }

  lemma PowerStart(b: int, e: nat, m: nat, bits: nat)
    requires m > 0 && e < Pow2(bits) && (e == 0 <==> bits == 0)
    ensures PowerSoFar(1, b, e, m, bits, bits)
  {
    ShrIsZero(e, bits);
  }

  lemma PowerEnd(a: nat, b: int, e: nat, m: nat, bits: nat)
    requires m > 0 && PowerSoFar(a, b, e, m, 0, bits)
    ensures a == ModularPower(b, e, m)
  {
    ShrSteps(e, 0);
  }

  /** Squaring and, for a one bit, multiplying moves on by one bit. */
  lemma PowerStep(a: nat, b: int, e: nat, m: nat, i: nat, bits: nat)
    requires m > 0 && i < bits && PowerSoFar(a, b, e, m, i + 1, bits)
    ensures var square := Residue(a * a, m);
            PowerSoFar(if Bit(e, i) then Residue(square * Residue(b, m), m) else square, b, e, m, i, bits)
  {
    var k := Shr(e, i + 1);
    var p := Pow(b, k);
    ShrBit(e, i);
    PowAdd(b, k, k);
    assert Pow(b, 2 * k + 1) == b * (p * p);
    assert k == 0 ==> p == 1;
    hide Pow, Residue, Shr, Bit;
    SquareStep(a, p, m);
    ResidueOfProduct(p * p, b, m);
  }

  lemma SquareStep(a: nat, p: int, m: nat)
    requires m > 0 && (a == Residue(p, m) || (a == 1 && p == 1))
    ensures Residue(a * a, m) == Residue(p * p, m)
  {
    ResidueOfProduct(p, p, m);
    hide Residue;
  }

  lemma ShrBit(e: nat, i: nat)
    ensures Shr(e, i) == 2 * Shr(e, i + 1) + if Bit(e, i) then 1 else 0
  {
    BitShr(e, i, 0);
    ShrSteps(e, i);
  }
}
