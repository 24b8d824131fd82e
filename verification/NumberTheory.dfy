/** Divisors, greatest common divisors and residues. */
module NumberTheory {
  import opened Arith

  ghost predicate Divides(d: int, a: int) {
    exists k: int :: Multiple(k, d, a)
  }

  predicate Multiple(k: int, d: int, a: int) {
    a == k * d
  }

  /** `g` is the greatest common divisor: its divisors are the common divisors of `a` and `b`. */
  ghost predicate IsGcd(g: int, a: int, b: int) {
    g >= 0 && CommonDivisors(g, 0, a, b)
  }

  ghost predicate CommonDivisors(a: int, b: int, a': int, b': int) {
    forall d :: Divides(d, a) && Divides(d, b) <==> Divides(d, a') && Divides(d, b')
  }

  lemma DividesZero(d: int)
    ensures Divides(d, 0)
  {
    assert Multiple(0, d, 0);
  }

  lemma DividesItself(d: int)
    ensures Divides(d, d)
  {
    assert Multiple(1, d, d);
  }

  lemma DividesNegation(d: int, a: int)
    requires Divides(d, a)
    ensures Divides(d, 0 - a)
  {
    var k :| Multiple(k, d, a);
    MulDistributes(0, k, d);
    assert Multiple(0 - k, d, 0 - a);
  }

  lemma DividesCombination(d: int, b: int, r: int, q: int)
    requires Divides(d, b) && Divides(d, r)
    ensures Divides(d, q * b + r)
  {
    var i :| Multiple(i, d, b);
    var j :| Multiple(j, d, r);
    MulAssociative(q, i, d);
    MulDistributes(q * i, j, d);
    assert Multiple(q * i + j, d, q * b + r);
  }

  /** One division step keeps the common divisors. */
  lemma DivisionKeepsDivisors(a: int, b: int, q: int, r: int)
    requires a == q * b + r
    ensures CommonDivisors(a, b, r, b)
  {
    hide Divides;
    forall d ensures Divides(d, a) && Divides(d, b) <==> Divides(d, r) && Divides(d, b) {
      if Divides(d, b) && Divides(d, r) {
        DividesCombination(d, b, r, q);
      }
      if Divides(d, b) && Divides(d, a) {
        MulDistributes(0, q, b);
        DividesCombination(d, b, a, 0 - q);
      }
    }
  }

  /** When one of the numbers has become zero, the other is the divisor sought, up to its sign. */
  lemma GcdFound(g: int, a: int, b: int)
    requires CommonDivisors(g, 0, a, b)
    ensures IsGcd(Abs(g), a, b)
  {
    hide Divides;
    forall d ensures Divides(d, Abs(g)) <==> Divides(d, g) {
      if Divides(d, g) {
        DividesNegation(d, g);
      }
      if Divides(d, 0 - g) {
        DividesNegation(d, 0 - g);
      }
    }
  }

  function Abs(x: int): nat {
    if x < 0 then 0 - x else x
  }

  /** There is only one greatest common divisor, and it is the largest common divisor. */
  lemma GcdUnique(g: int, g': int, a: int, b: int)
    requires IsGcd(g, a, b) && IsGcd(g', a, b)
    ensures g == g'
  {
    DividesItself(g);
    DividesItself(g');
    DividesZero(g);
    DividesZero(g');
    DivisorAtMost(g, g');
    DivisorAtMost(g', g);
  }

  lemma GcdIsGreatest(g: int, a: int, b: int, d: int)
    requires IsGcd(g, a, b) && Divides(d, a) && Divides(d, b) && (a != 0 || b != 0)
    ensures Divides(g, a) && Divides(g, b) && d <= g
  {
    DividesItself(g);
    DividesZero(g);
    if g == 0 {
      ZeroDividesZero(a);
      ZeroDividesZero(b);
    }
    DivisorAtMost(d, g);
  }

  lemma ZeroDividesZero(a: int)
    requires Divides(0, a)
    ensures a == 0
  {
  }

  lemma DivisorAtMost(d: int, a: int)
    requires Divides(d, a) && a >= 0
    ensures a > 0 ==> d <= a
    ensures d == 0 ==> a == 0
  {
    var k :| Multiple(k, d, a);
    if d > a > 0 {
      if k <= 0 {
        MulMonotone(d, k, 0);
      } else {
        MulMonotone(d, 1, k);
      }
    }
  }

  // ----- residues -----

  lemma ResidueBound(a: int, m: int)
    requires m > 0
    ensures Residue(a, m) < m && Residue(Residue(a, m), m) == Residue(a, m)
    ensures 0 <= a < m ==> Residue(a, m) == a
  {
    DivModDefinition(a, m);
    DivModUnique(a % m, m, 0, a % m);
    if 0 <= a < m {
      DivModUnique(a, m, 0, a);
    }
  }

  /** Products may be reduced factor by factor. */
  lemma ResidueOfProduct(a: int, b: int, m: int)
    requires m > 0
    ensures Residue(Residue(a, m) * Residue(b, m), m) == Residue(a * b, m)
  {
    var x, y := a % m, b % m;
    var p, q := a / m, b / m;
    DivModDefinition(a, m);
    DivModDefinition(b, m);
    DivModDefinition(x * y, m);
    var k := (x * y) / m;
    ProductExpands(p, q, x, y, m);
    MulDistributes(p * q * m + p * y + q * x, k, m);
    DivModUnique(a * b, m, p * q * m + p * y + q * x + k, (x * y) % m);
  }

  lemma ProductExpands(p: int, q: int, x: int, y: int, m: int)
    ensures (p * m + x) * (q * m + y) == (p * q * m + p * y + q * x) * m + x * y
  {
    MulDistributes(p * m, x, q * m + y);
    MulDistributes(q * m, y, p * m);
    MulDistributes(q * m, y, x);
    MulDistributes(p * q * m + p * y, q * x, m);
    MulDistributes(p * q * m, p * y, m);
    MulAssociative(p, m, q * m);
    MulAssociative(p, q, m);
    assert m * (q * m) == q * m * m;
    MulAssociative(p, q * m, m);
    MulAssociative(p, m, y);
    MulAssociative(p, y, m);
    MulAssociative(x, q, m);
  }

  /** A remainder of floor division by a positive number is the residue. */
  lemma FloorRemainderIsResidue(a: int, m: int, q: int, r: int)
    requires m > 0 && FloorDivision(a, m, q, r)
    ensures r == Residue(a, m)
  {
    DivModUnique(a, m, q, r);
  }

  /** The first Bezout coefficient, reduced, is the inverse. */
  lemma InverseFromBezout(x: int, n: int, r: int, s: int, v: int, q: int)
    requires n > 0 && r * x + s * n == 1 && FloorDivision(r, n, q, v)
    ensures 0 <= v < n && Residue(x * v - 1, n) == 0
  {
    MulDistributes(q * n, v, x);
    MulAssociative(q, n, x);
    MulAssociative(q, x, n);
    MulDistributes(0 - s, q * x, n);
    DivModUnique(x * v - 1, n, 0 - s - q * x, 0);
  }
}
