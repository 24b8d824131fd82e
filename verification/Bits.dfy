/** Naturals seen as bit strings: the machine operators `&`, `|`, `^`, `<<`
    and `>>` by their effect on each bit. */
module Bits {
  import opened Arith

  predicate Bit(x: nat, i: nat) {
    if i == 0 then x % 2 == 1 else Bit(x / 2, i - 1)
  }

  function And(x: nat, y: nat): nat {
    if x == 0 then 0 else 2 * And(x / 2, y / 2) + (x % 2) * (y % 2)
  }

  function Or(x: nat, y: nat): nat
    decreases x + y
  {
    if x == 0 && y == 0 then 0
    else 2 * Or(x / 2, y / 2) + (if x % 2 == 1 || y % 2 == 1 then 1 else 0)
  }

  function Xor(x: nat, y: nat): nat
    decreases x + y
  {
    if x == 0 && y == 0 then 0
    else 2 * Xor(x / 2, y / 2) + (if x % 2 != y % 2 then 1 else 0)
  }

  function Shl(x: nat, n: nat): nat {
    x * Pow2(n)
  }

  function Shr(x: nat, n: nat): nat {
    Div(x, Pow2(n))
  }

  /** The lowest `n` bits. */
  function Low(x: nat, n: nat): nat {
    x % Pow2(n)
  }

  /** A bit is the parity of the quotient by its place value. */
  lemma {:induction false} BitMeans(x: nat, i: nat)
    ensures Bit(x, i) <==> x / Pow2(i) % 2 == 1
    decreases i
  {
    if i == 0 {
      DivModUnique(x, 1, x, 0);
    } else {
      BitMeans(x / 2, i - 1);
      DivDiv(x, 2, Pow2(i - 1));
    }
  }

  lemma LowBound(x: nat, n: nat)
    ensures Low(x, n) <= x && Low(x, n) < Pow2(n)
    ensures x < Pow2(n) ==> Low(x, n) == x
  {
    ModAtMost(x, Pow2(n));
  }

  lemma ShlStep(x: nat, n: nat)
    ensures Shl(x, 0) == x && Shl(x, n + 1) == 2 * Shl(x, n)
  {
    MulAssociative(x, 2, Pow2(n));
  }

  lemma {:induction false} BitZero(i: nat)
    ensures !Bit(0, i)
  {
    if i != 0 {
      BitZero(i - 1);
    }
  }

  lemma AndStep(x: nat, y: nat)
    requires x != 0
    ensures And(x, y) / 2 == And(x / 2, y / 2)
    ensures And(x, y) % 2 == 1 <==> x % 2 == 1 && y % 2 == 1
  {
    var h, b := And(x / 2, y / 2), (x % 2) * (y % 2);
    assert And(x, y) == 2 * h + b && 0 <= b < 2;
    hide And;
  }

  lemma {:induction false} BitAnd(x: nat, y: nat, i: nat)
    ensures Bit(And(x, y), i) <==> Bit(x, i) && Bit(y, i)
    decreases i
  {
    if x == 0 {
      BitZero(i);
    } else {
      AndStep(x, y);
      hide And;
      if i != 0 {
        BitAnd(x / 2, y / 2, i - 1);
      }
    }
  }

  lemma OrStep(x: nat, y: nat)
    requires x != 0 || y != 0
    ensures Or(x, y) / 2 == Or(x / 2, y / 2)
    ensures Or(x, y) % 2 == 1 <==> x % 2 == 1 || y % 2 == 1
  {
    var h, b := Or(x / 2, y / 2), if x % 2 == 1 || y % 2 == 1 then 1 else 0;
    assert Or(x, y) == 2 * h + b && 0 <= b < 2;
    hide Or;
  }

  lemma {:induction false} BitOr(x: nat, y: nat, i: nat)
    ensures Bit(Or(x, y), i) <==> Bit(x, i) || Bit(y, i)
    decreases i
  {
    if x == 0 && y == 0 {
      BitZero(i);
    } else {
      OrStep(x, y);
      hide Or;
      if i != 0 {
        BitOr(x / 2, y / 2, i - 1);
      }
    }
  }

  lemma XorStep(x: nat, y: nat)
    requires x != 0 || y != 0
    ensures Xor(x, y) / 2 == Xor(x / 2, y / 2)
    ensures Xor(x, y) % 2 == 1 <==> x % 2 != y % 2
  {
    var h, b := Xor(x / 2, y / 2), if x % 2 != y % 2 then 1 else 0;
    assert Xor(x, y) == 2 * h + b && 0 <= b < 2;
    hide Xor;
  }

  lemma {:induction false} BitXor(x: nat, y: nat, i: nat)
    ensures Bit(Xor(x, y), i) <==> Bit(x, i) != Bit(y, i)
    decreases i
  {
    if x == 0 && y == 0 {
      BitZero(i);
    } else {
      XorStep(x, y);
      hide Xor;
      if i != 0 {
        BitXor(x / 2, y / 2, i - 1);
      }
    }
  }

  lemma {:induction false} BitShr(x: nat, n: nat, i: nat)
    ensures Bit(Shr(x, n), i) <==> Bit(x, i + n)
    decreases n
  {
    if n != 0 {
      DivDiv(x, 2, Pow2(n - 1));
      BitShr(x / 2, n - 1, i);
    }
  }

  lemma {:induction false} BitShl(x: nat, n: nat, i: nat)
    ensures Bit(Shl(x, n), i) <==> i >= n && Bit(x, i - n)
    decreases n
  {
    if n != 0 {
      assert Shl(x, n) == 2 * Shl(x, n - 1) by { MulAssociative(x, 2, Pow2(n - 1)); }
      if i != 0 {
        BitShl(x, n - 1, i - 1);
      }
    }
  }

  /** Truncation to `w` bits keeps exactly the bits below `w`. */
  lemma {:induction false} BitTruncate(x: nat, w: nat, i: nat)
    ensures Bit(Low(x, w), i) <==> i < w && Bit(x, i)
    decreases w
  {
    if w == 0 {
      BitZero(i);
    } else {
      TruncateStep(x, w);
      var y := Low(x, w);
      assert y / 2 == Low(x / 2, w - 1) && y % 2 == x % 2;
      if i != 0 {
        BitTruncate(x / 2, w - 1, i - 1);
      }
    }
  }

  lemma TruncateStep(x: nat, w: nat)
    requires w > 0
    ensures Low(x, w) == 2 * Low(x / 2, w - 1) + x % 2
  {
    var m := Pow2(w - 1);
    DivModDefinition(x / 2, m);
    var q := x / 2 / m;
    assert q * Pow2(w) == 2 * (q * m) by { MulAssociative(q, 2, m); }
    DivModUnique(x, Pow2(w), q, 2 * (x / 2 % m) + x % 2);
  }

  lemma BitTooHigh(x: nat, w: nat, i: nat)
    requires x < Pow2(w) && i >= w
    ensures !Bit(x, i)
  {
    DivModUnique(x, Pow2(w), 0, x);
    BitTruncate(x, w, i);
  }

  /** A number is its bits. */
  lemma {:induction false} BitsDetermine(x: nat, y: nat)
    requires forall i: nat :: Bit(x, i) <==> Bit(y, i)
    ensures x == y
  {
    assert Bit(x, 0) <==> Bit(y, 0);
    if x != 0 || y != 0 {
      forall i: nat ensures Bit(x / 2, i) <==> Bit(y / 2, i) {
        assert Bit(x, i + 1) <==> Bit(y, i + 1);
      }
      BitsDetermine(x / 2, y / 2);
    }
  }

  lemma {:induction false} OrDisjoint(x: nat, y: nat, n: nat)
    requires x < Pow2(n)
    ensures Or(x, y * Pow2(n)) == x + y * Pow2(n)
    decreases n
  {
    var z := y * Pow2(n);
    if n == 0 {
      OrZero(z);
    } else {
      var z' := y * Pow2(n - 1);
      assert z == 2 * z' by { MulAssociative(y, 2, Pow2(n - 1)); }
      OrDisjoint(x / 2, y, n - 1);
      assert z / 2 == z' && z % 2 == 0;
    }
  }

  lemma {:induction false} OrCommutes(x: nat, y: nat)
    ensures Or(x, y) == Or(y, x)
    decreases x + y
  {
    if x != 0 || y != 0 {
      OrCommutes(x / 2, y / 2);
    }
  }

  lemma {:induction false} OrZero(y: nat)
    ensures Or(0, y) == y
  {
    if y != 0 {
      OrZero(y / 2);
    }
  }

  lemma {:induction false} BitPow2(n: nat, i: nat)
    ensures Bit(Pow2(n), i) <==> i == n
  {
    BitShl(1, n, i);
    if i > n {
      BitZero(i - n - 1);
    }
  }

  /** The test `x & (1 << n)` looks at bit `n`. */
  lemma AndPow2(x: nat, n: nat)
    ensures And(x, Pow2(n)) != 0 <==> Bit(x, n)
  {
    if Bit(x, n) {
      BitAnd(x, Pow2(n), n);
      BitPow2(n, n);
      BitZero(n);
    } else {
      forall i: nat ensures Bit(And(x, Pow2(n)), i) <==> Bit(0, i) {
        BitAnd(x, Pow2(n), i);
        BitPow2(n, i);
        BitZero(i);
      }
      BitsDetermine(And(x, Pow2(n)), 0);
    }
  }

  /** Splitting off the top bit of an `n + 1` bit prefix. */
  lemma {:induction false} TruncateSuccessor(x: nat, n: nat)
    ensures Low(x, n + 1) == Low(x, n) + if Bit(x, n) then Pow2(n) else 0
    decreases n
  {
    if n == 0 {
    } else {
      TruncateStep(x, n + 1);
      TruncateStep(x, n);
      TruncateSuccessor(x / 2, n - 1);
    }
  }

  /** The number of bits needed to write `x`. */
  method BitLen(x: nat) returns (len: nat)
    ensures x < Pow2(len) && (x != 0 ==> len > 0 && Pow2(len - 1) <= x) && (x == 0 ==> len == 0)
  {
    var y := x;
    len := 0;
    ShrSteps(x, 0);
    while y > 0
      invariant y == Shr(x, len) && (len > 0 ==> Shr(x, len - 1) > 0)
    {
      ShrSteps(x, len);
      y := y / 2;
      len := len + 1;
    }
    ShrIsZero(x, len);
    if len > 0 {
      ShrIsZero(x, len - 1);
    }
  }

  lemma ShrSteps(x: nat, n: nat)
    ensures Shr(x, 0) == x && Shr(x, n) / 2 == Shr(x, n + 1)
  {
    DivDiv(x, Pow2(n), 2);
  }

  lemma ShrIsZero(x: nat, n: nat)
    ensures Shr(x, n) == 0 <==> x < Pow2(n)
  {
    DivModDefinition(x, Pow2(n));
    if x < Pow2(n) {
      DivModUnique(x, Pow2(n), 0, x);
    }
  }

  /** Complementing all of `n` bits. */
  lemma {:induction false} BitComplement(x: nat, n: nat, i: nat)
    requires x < Pow2(n) && i < n
    ensures Bit(Pow2(n) - 1 - x, i) <==> !Bit(x, i)
    decreases n
  {
    var y := Pow2(n) - 1 - x;
    assert y / 2 == Pow2(n - 1) - 1 - x / 2 && y % 2 == 1 - x % 2;
    if i != 0 {
      BitComplement(x / 2, n - 1, i - 1);
    }
  }

  /** A number without bits from `n` up is below `Pow2(n)`. */
  lemma BitsBound(x: nat, n: nat)
    requires forall i: nat :: i >= n ==> !Bit(x, i)
    ensures x < Pow2(n)
  {
    forall i: nat ensures Bit(Low(x, n), i) <==> Bit(x, i) {
      BitTruncate(x, n, i);
    }
    BitsDetermine(Low(x, n), x);
    LowBound(x, n);
  }

  lemma BitOfOnes(n: nat, i: nat)
    ensures Bit(Pow2(n) - 1, i) <==> i < n
  {
    if i < n {
      BitComplement(0, n, i);
      BitZero(i);
    } else {
      BitTooHigh(Pow2(n) - 1, n, i);
    }
  }

  /** A field of `n` bits taken out with a mask. */
  lemma MaskedField(x: nat, n: nat, k: nat)
    ensures Shr(And(x, Shl(Pow2(n) - 1, k)), k) == Low(Shr(x, k), n)
  {
    var mask := Shl(Pow2(n) - 1, k);
    var r, t := Shr(And(x, mask), k), Low(Shr(x, k), n);
    forall i: nat ensures Bit(r, i) <==> Bit(t, i) {
      BitShr(And(x, mask), k, i);
      BitAnd(x, mask, i + k);
      BitShl(Pow2(n) - 1, k, i + k);
      BitOfOnes(n, i);
      BitTruncate(Shr(x, k), n, i);
      BitShr(x, k, i);
    }
    BitsDetermine(r, t);
  }

  lemma AndOnes(x: nat, n: nat)
    ensures And(x, Pow2(n) - 1) == Low(x, n)
  {
    forall i: nat ensures Bit(And(x, Pow2(n) - 1), i) <==> Bit(Low(x, n), i) {
      BitAnd(x, Pow2(n) - 1, i);
      BitOfOnes(n, i);
      BitTruncate(x, n, i);
    }
    BitsDetermine(And(x, Pow2(n) - 1), Low(x, n));
  }

  /** Putting `lo` below a number shifted out of its way. */
  lemma OrBelow(hi: nat, lo: nat, n: nat)
    requires lo < Pow2(n)
    ensures Or(Shl(hi, n), lo) == Shl(hi, n) + lo
  {
    OrCommutes(Shl(hi, n), lo);
    OrDisjoint(lo, hi, n);
  }
}
