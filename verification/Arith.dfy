/** Powers and Euclidean division, used by every numeric module. */
module Arith {

  function Pow2(n: nat): (r: nat)
    ensures r > 0
  {
    if n == 0 then 1 else 2 * Pow2(n - 1)
  }

  function Pow(base: int, e: nat): (r: int)
    ensures base >= 0 ==> r >= 0
  {
    if e == 0 then 1 else base * Pow(base, e - 1)
  }

  function Div(a: nat, d: nat): nat
    requires d > 0
  {
    a / d
  }

  function Residue(a: int, m: int): nat
    requires m > 0
  {
    a % m
  }

  /** Knuth's division: `q` is the floor of `a / b`, the remainder has the sign of the divisor,
      and dividing by zero leaves everything in the remainder. */
  ghost predicate FloorDivision(a: int, b: int, q: int, r: int) {
    if b == 0 then q == 0 && r == a
    else a == q * b + r && if b > 0 then 0 <= r < b else b < r <= 0
  }

  /** The quotient is the floor of the exact one, whatever the signs. */
  lemma FloorIsUnique(a: int, b: int, q: int, r: int)
    requires b != 0
    ensures FloorDivision(a, b, q, r) <==> if b > 0 then q == a / b && r == a % b
                                           else q == (-a) / (-b) && r == -((-a) % (-b))
  {
    if b > 0 {
      DivModDefinition(a, b);
      if FloorDivision(a, b, q, r) {
        DivModUnique(a, b, q, r);
      }
    } else {
      DivModDefinition(-a, -b);
      MulSigns((-a) / (-b), b);
      MulSigns(q, b);
      if FloorDivision(a, b, q, r) {
        DivModUnique(-a, -b, q, -r);
      }
    }
  }

  lemma MulSigns(x: int, y: int)
    ensures x * (-y) == -(x * y)
  {
  }

  lemma {:induction false} Pow2Add(a: nat, b: nat)
    ensures Pow2(a + b) == Pow2(a) * Pow2(b)
  {
    if b != 0 {
      Pow2Add(a, b - 1);
    }
  }

  lemma Pow2Monotone(a: nat, b: nat)
    requires a <= b
    ensures Pow2(a) <= Pow2(b)
    ensures a < b ==> 2 * Pow2(a) <= Pow2(b)
  {
    if a < b {
      Pow2Add(a + 1, b - a - 1);
      MulMonotone(2 * Pow2(a), 1, Pow2(b - a - 1));
    }
  }

  lemma Pow2Divides(a: nat, b: nat)
    requires a <= b
    ensures Pow2(b) == Pow2(a) * Pow2(b - a)
  {
    Pow2Add(a, b - a);
  }

  lemma {:induction false} PowAdd(base: int, a: nat, b: nat)
    ensures Pow(base, a + b) == Pow(base, a) * Pow(base, b)
  {
    if a == 0 {
    } else {
      PowAdd(base, a - 1, b);
      MulAssociative(base, Pow(base, a - 1), Pow(base, b));
    }
  }

  lemma MulMonotone(a: int, x: int, y: int)
    requires 0 <= a && x <= y
    ensures a * x <= a * y && x * a <= y * a
  {
  }

  lemma MulAssociative(a: int, b: int, c: int)
    ensures a * b * c == a * (b * c)
  {
  }

  lemma MulDistributes(a: int, b: int, c: int)
    ensures (a + b) * c == a * c + b * c
    ensures (a - b) * c == a * c - b * c
    ensures c * (a + b) == c * a + c * b
    ensures c * (a - b) == c * a - c * b
  {
  }

  /** A quotient and a remainder in range are the Euclidean ones. */
  lemma DivModUnique(a: int, d: int, q: int, r: int)
    requires 0 <= r < d && a == q * d + r
    ensures a / d == q && a % d == r
  {
    var q', r' := a / d, a % d;
    MulDistributes(q, q', d);
    if q < q' {
      MulMonotone(d, 1, q' - q);
    } else if q' < q {
      MulMonotone(d, 1, q - q');
    }
  }

  lemma DivModDefinition(a: int, d: int)
    requires d > 0
    ensures a == (a / d) * d + a % d && 0 <= a % d < d
  {
  }

  lemma ModAtMost(a: nat, d: nat)
    requires d > 0
    ensures a % d <= a && (a < d ==> a % d == a)
  {
    var q, r := a / d, a % d;
    DivModDefinition(a, d);
    if q < 0 {
      MulMonotone(d, q, -1);
    } else {
      MulMonotone(d, 0, q);
    }
    if a < d {
      DivModUnique(a, d, 0, a);
    }
  }

  lemma DivDiv(a: nat, d: nat, e: nat)
    requires d > 0 && e > 0
    ensures d * e > 0 && a / d / e == a / (d * e)
  {
    var q := a / d;
    DivModDefinition(a, d);
    DivModDefinition(q, e);
    MulDistributes((q / e) * e, q % e, d);
    MulAssociative(q / e, e, d);
    MulMonotone(d, q % e, e - 1);
    assert d * e == e * d;
    DivModUnique(a, d * e, q / e, (q % e) * d + a % d);
  }
}
