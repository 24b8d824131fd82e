/** Decimal strings of both kinds of number. */
module DecimalStrings {
  import opened Errors
  import opened Numerals
  import opened RadixNumbers
  import opened SignedNumbers
  import opened UnsignedNumbers

  method BigUnsignedToString(x: BigUnsigned) returns (t: string)
    requires x.Valid()
    ensures t == Show(old(x.Val()), 10)
  {
    ghost var v := x.Val();
    var _, n := BigUnsignedInABase.FromNumber(x, 10);
    var _, u := n.ToString();
    t := u;
    DigitsOfValue(v, 10);
    DigitsOfZero(v, n.Digits());
  }

  lemma DigitsOfZero(v: nat, s: seq<nat>)
    requires s == DigitsOf(v, 10)
    ensures |s| == 0 <==> v == 0
  {
  }

  method BigIntegerToString(x: BigInteger) returns (t: string)
    requires x.Valid()
    ensures t == ShowInteger(old(x.Val()))
  {
    hide BigUnsigned.Valid, BigUnsigned.Val, Show;
    t := BigUnsignedToString(x.mag);
    if x.sign == Negative {
      t := "-" + t;
    }
  }

  method StringToBigUnsigned(s: string) returns (o: Outcome, n: BigUnsigned)
    ensures n.Valid() && fresh(n) && fresh(n.blk)
    ensures o == ReadOutcome(s, 10)
    ensures o.Ok? ==> n.Val() == ReadValue(s, 10)
  {
    var d;
    o, d := BigUnsignedInABase.FromString(s, 10);
    if o.Ok? {
      n := d.ToNumber();
    } else {
      n := new BigUnsigned();
    }
  }

  method StringToBigInteger(s: string) returns (o: Outcome, n: BigInteger)
    ensures n.Valid()
    ensures match ReadInteger(s)
            case Number(v) => o == Ok && n.Val() == v
            case Failed(reason) => o == Threw(reason)
  {
    var negative := s != [] && s[0] == '-';
    var signed := negative || (s != [] && s[0] == '+');
    var mag;
    o, mag := StringToBigUnsigned(if signed then s[1..] else s);
    n := new BigInteger.FromMagnitude(mag);
    if o.Ok? && negative {
      var _, m := BigInteger.FromSigned(mag, Negative);
      n := m;
    }
  }
}
