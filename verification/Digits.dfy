/** Numerals: digit sequences in a base, least significant first, and the strings that show them. */
module Numerals {
  import opened Arith
  import opened Bits
  import opened Errors

  function DigitValue(s: seq<nat>, base: nat): nat {
    if s == [] then 0 else s[0] + base * DigitValue(s[1..], base)
  }

  ghost predicate AllBelow(s: seq<nat>, base: nat) {
    forall k :: 0 <= k < |s| ==> s[k] < base
  }

  /** No zero at the significant end. */
  ghost predicate NoLeadingZero(s: seq<nat>) {
    s == [] || s[|s| - 1] != 0
  }

  /** The digits of `v`. */
  function DigitsOf(v: nat, base: nat): seq<nat>
    requires base >= 2
  {
    if v == 0 then [] else (DivShrinks(v, base); [Residue(v, base)] + DigitsOf(Div(v, base), base))
  }

  lemma DivShrinks(v: nat, base: nat)
    requires base >= 2 && v > 0
    ensures Div(v, base) < v && Residue(v, base) < base
    ensures v == Residue(v, base) + base * Div(v, base)
  {
    DivModDefinition(v, base);
    var q := Div(v, base);
    if q >= v {
      MulMonotone(q, 2, base);
    }
  }

  lemma {:induction false} DigitsOfValue(v: nat, base: nat)
    requires base >= 2
    ensures DigitValue(DigitsOf(v, base), base) == v
    ensures AllBelow(DigitsOf(v, base), base) && NoLeadingZero(DigitsOf(v, base))
  {
    if v != 0 {
      DivShrinks(v, base);
      hide Div, Residue;
      var q, r := Div(v, base), Residue(v, base);
      DigitsOfValue(q, base);
      DigitValueCons(r, DigitsOf(q, base), base);
    }
  }

  lemma DigitValueCons(d: nat, t: seq<nat>, base: nat)
    ensures DigitValue([d] + t, base) == d + base * DigitValue(t, base)
  {
    assert ([d] + t)[1..] == t;
  }

  /** Canonical digits are the digits of their value: numerals are unique. */
  lemma {:induction false} ValueOfDigits(s: seq<nat>, base: nat)
    requires base >= 2 && AllBelow(s, base) && NoLeadingZero(s)
    ensures DigitsOf(DigitValue(s, base), base) == s
  {
    if s != [] {
      var t := s[1..];
      var v := DigitValue(t, base);
      assert base * v == v * base;
      ValueOfDigits(t, base);
      DivModUnique(DigitValue(s, base), base, v, s[0]);
      CanonicalIsPositive(s, base);
      assert s == [s[0]] + t;
    }
  }

  lemma {:induction false} CanonicalIsPositive(s: seq<nat>, base: nat)
    requires base > 0 && s != [] && NoLeadingZero(s)
    ensures DigitValue(s, base) > 0
  {
    if |s| > 1 {
      CanonicalIsPositive(s[1..], base);
      MulMonotone(base, 1, DigitValue(s[1..], base));
    }
  }

  lemma {:induction false} DigitValueAppend(s: seq<nat>, d: nat, base: nat)
    ensures Pow(base, |s|) >= 0
    ensures DigitValue(s + [d], base) == DigitValue(s, base) + d * Pow(base, |s|)
  {
    if s == [] {
      assert ([d])[1..] == [];
    } else {
      assert (s + [d])[1..] == s[1..] + [d];
      DigitValueAppend(s[1..], d, base);
      MulDistributes(DigitValue(s[1..], base), d * Pow(base, |s| - 1), base);
      MulAssociative(d, base, Pow(base, |s| - 1));
      MulAssociative(base, d, Pow(base, |s| - 1));
    }
  }

  /** Zeros at the significant end do not count. */
  lemma {:induction false} DropLeadingZero(s: seq<nat>, base: nat)
    requires s != [] && s[|s| - 1] == 0
    ensures DigitValue(s[..|s| - 1], base) == DigitValue(s, base)
  {
    var t := s[..|s| - 1];
    assert s == t + [0];
    DigitValueAppend(t, 0, base);
  }

  // ----- the buffer bound -----

  lemma {:induction false} PowerBound(base: nat, m: nat, k: nat)
    requires Pow2(m) <= base
    ensures Pow2(m * k) <= Pow(base, k)
  {
    if k != 0 {
      PowerBound(base, m, k - 1);
      MulDistributes(k - 1, 1, m);
      Pow2Add(m, m * (k - 1));
      MulMonotone(Pow2(m), Pow2(m * (k - 1)), Pow(base, k - 1));
      MulMonotone(Pow(base, k - 1), Pow2(m), base);
    }
  }

  function CeilingDiv(a: nat, b: nat): nat
    requires b > 0
  {
    Div(a + b - 1, b)
  }

  /** A number of at most `bits` bits that still has a digit left after `k` of them needs `k` below the bound. */
  lemma RoomForDigit(x: nat, base: nat, k: nat, bits: nat, m: nat)
    requires m > 0 && Pow2(m) <= base && x < Pow2(bits) && Pow(base, k) <= x
    ensures k < CeilingDiv(bits, m)
  {
    PowerBound(base, m, k);
    if m * k >= bits {
      Pow2Monotone(bits, m * k);
    }
    CeilingAbove(bits, m, k);
  }

  lemma CeilingAbove(a: nat, b: nat, k: nat)
    requires b > 0 && b * k < a
    ensures k < CeilingDiv(a, b)
  {
    DivModDefinition(a + b - 1, b);
    var q := (a + b - 1) / b;
    if q <= k {
      MulMonotone(b, q, k);
    }
  }

  // ----- strings -----

  function Symbol(d: nat): char
    requires d < 36
  {
    if d < 10 then '0' + d as char else 'A' + (d - 10) as char
  }

  /** The value of a symbol, if it is a digit or a letter. */
  function SymbolValue(c: char): (r: int)
    ensures -1 <= r < 36
  {
    if '0' <= c <= '9' then c as int - '0' as int
    else if 'A' <= c <= 'Z' then c as int - 'A' as int + 10
    else if 'a' <= c <= 'z' then c as int - 'a' as int + 10
    else -1
  }

  function UpperCase(c: char): char {
    if 'a' <= c <= 'z' then c - 'a' + 'A' else c
  }

  lemma SymbolRoundTrip(d: nat, c: char)
    ensures d < 36 ==> SymbolValue(Symbol(d)) == d
    ensures SymbolValue(c) >= 0 ==> Symbol(SymbolValue(c)) == UpperCase(c)
  {
  }

  /** The most significant digit comes first in a string. */
  function ShowDigits(s: seq<nat>): string
    requires AllBelow(s, 36)
  {
    if s == [] then "" else ShowDigits(s[1..]) + [Symbol(s[0])]
  }

  function Show(v: nat, base: nat): string
    requires 2 <= base <= 36
  {
    DigitsOfValue(v, base);
    if v == 0 then "0" else ShowDigits(DigitsOf(v, base))
  }

  /** The outcome of reading a string from its end: the first bad character met decides. */
  function ReadOutcome(s: string, base: nat): Outcome {
    if s == [] then Ok
    else
      var d := SymbolValue(s[|s| - 1]);
      if d < 0 then Threw(BadSymbol)
      else if d >= base then Threw(DigitTooLarge)
      else ReadOutcome(s[..|s| - 1], base)
  }

  /** The digits of a legal string, leading zeros included. */
  function ReadDigits(s: string, base: nat): (r: seq<nat>)
    requires ReadOutcome(s, base) == Ok
    ensures |r| == |s|
  {
    if s == [] then [] else [SymbolValue(s[|s| - 1])] + ReadDigits(s[..|s| - 1], base)
  }

  function ReadValue(s: string, base: nat): nat
    requires ReadOutcome(s, base) == Ok
  {
    DigitValue(ReadDigits(s, base), base)
  }

  lemma {:induction false} ReadShownDigits(s: seq<nat>, base: nat)
    requires base <= 36 && AllBelow(s, base)
    ensures AllBelow(s, 36)
    ensures ReadOutcome(ShowDigits(s), base) == Ok && ReadDigits(ShowDigits(s), base) == s
  {
    if s != [] {
      ReadShownDigits(s[1..], base);
      SymbolRoundTrip(s[0], ' ');
      var t := ShowDigits(s);
      assert t[..|t| - 1] == ShowDigits(s[1..]);
    }
  }

  /** Reading what was printed gives the number back. */
  lemma ReadShown(v: nat, base: nat)
    requires 2 <= base <= 36
    ensures ReadOutcome(Show(v, base), base) == Ok && ReadValue(Show(v, base), base) == v
  {
    DigitsOfValue(v, base);
    if v == 0 {
      assert "0"[..0] == "";
      assert ReadDigits("0", base) == [0];
    } else {
      ReadShownDigits(DigitsOf(v, base), base);
    }
  }

  /** Upper case, without leading zeros, but at least one digit. */
  function Normalized(s: string): string
  {
    if s == [] then "0" else if s[0] == '0' then Normalized(s[1..]) else UpperCased(s)
  }

  function UpperCased(s: string): string {
    if s == [] then "" else UpperCased(s[..|s| - 1]) + [UpperCase(s[|s| - 1])]
  }

  lemma {:induction false} ReadDigitsBelow(s: string, base: nat)
    requires ReadOutcome(s, base) == Ok
    ensures AllBelow(ReadDigits(s, base), base)
    ensures s != [] ==> ReadDigits(s, base)[|s| - 1] == SymbolValue(s[0])
  {
    if s != [] {
      ReadDigitsBelow(s[..|s| - 1], base);
    }
  }

  /** Dropping the first character drops the most significant digit. */
  lemma {:induction false} ReadRest(s: string, base: nat)
    requires s != [] && ReadOutcome(s, base) == Ok
    ensures ReadOutcome(s[1..], base) == Ok && ReadDigits(s[1..], base) == ReadDigits(s, base)[..|s| - 1]
  {
    ReadDigitsBelow(s, base);
    if |s| > 1 {
      var n := |s| - 1;
      ReadRest(s[..n], base);
      ReadDigitsBelow(s[..n], base);
      assert s[1..][..n - 1] == s[..n][1..];
    }
  }

  lemma {:induction false} ShowReadDigits(s: string, base: nat)
    requires base <= 36 && ReadOutcome(s, base) == Ok
    ensures AllBelow(ReadDigits(s, base), 36) && ShowDigits(ReadDigits(s, base)) == UpperCased(s)
  {
    ReadDigitsBelow(s, base);
    if s != [] {
      var n := |s| - 1;
      ShowReadDigits(s[..n], base);
      SymbolRoundTrip(0, s[n]);
      assert ReadDigits(s, base)[1..] == ReadDigits(s[..n], base);
    }
  }

  /** Printing what was read gives the string in normal form. */
  lemma {:induction false} ShowRead(s: string, base: nat)
    requires 2 <= base <= 36 && ReadOutcome(s, base) == Ok
    ensures Show(ReadValue(s, base), base) == Normalized(s)
  {
    ReadDigitsBelow(s, base);
    var ds := ReadDigits(s, base);
    if s != [] && s[0] == '0' {
      ReadRest(s, base);
      DropLeadingZero(ds, base);
      ShowRead(s[1..], base);
    } else if s != [] {
      SymbolRoundTrip(0, s[0]);
      ZeroSymbol(s[0]);
      ValueOfDigits(ds, base);
      CanonicalIsPositive(ds, base);
      ShowReadDigits(s, base);
    }
  }

  lemma ZeroSymbol(c: char)
    ensures SymbolValue(c) == 0 <==> c == '0'
  {
  }

  // ----- what the characters say -----

  lemma {:induction false} DigitAt(v: nat, base: nat, k: nat)
    requires base >= 2 && k < |DigitsOf(v, base)|
    ensures Pow(base, k) > 0 && DigitsOf(v, base)[k] == Residue(Div(v, Pow(base, k)), base)
    decreases k
  {
    hide *;
    PowPositive(base, k);
    DigitsNext(v, base);
    PowNext(base, k);
    if k == 0 {
      WholeQuotient(v);
    } else {
      DigitAt(Div(v, base), base, k - 1);
      QuotientOfQuotient(v, base, Pow(base, k - 1));
    }
  }

  lemma DigitsNext(v: nat, base: nat)
    requires base >= 2
    ensures DigitsOf(v, base) == if v == 0 then [] else [Residue(v, base)] + DigitsOf(Div(v, base), base)
  {
    if v > 0 {
      DivShrinks(v, base);
    }
  }

  lemma WholeQuotient(v: nat)
    ensures Div(v, 1) == v
  {
    DivModUnique(v, 1, v, 0);
  }

  lemma QuotientOfQuotient(v: nat, base: nat, p: nat)
    requires base > 0 && p > 0
    ensures base * p > 0 && Div(Div(v, base), p) == Div(v, base * p)
  {
    DivDiv(v, base, p);
  }

  lemma {:induction false} PowPositive(base: nat, k: nat)
    requires base >= 1
    ensures Pow(base, k) > 0
  {
    if k > 0 {
      PowPositive(base, k - 1);
      MulMonotone(Pow(base, k - 1), 1, base);
    }
  }

  lemma PowNext(base: nat, k: nat)
    ensures Pow(base, k) == if k == 0 then 1 else base * Pow(base, k - 1)
  {
  }

  lemma {:induction false} ShownAt(s: seq<nat>, k: nat)
    requires AllBelow(s, 36) && k < |s|
    ensures |ShowDigits(s)| == |s| && ShowDigits(s)[|s| - 1 - k] == Symbol(s[k])
  {
    if |s| > 1 {
      ShownAt(s[1..], if k > 0 then k - 1 else 0);
    } else {
      assert s[1..] == [];
    }
  }

  /** The character at the place of `base^k`, by its code: digits and then capital letters. */
  lemma ShownCharacter(v: nat, base: nat, k: nat)
    requires 2 <= base <= 36 && k < |Show(v, base)|
    ensures Pow(base, k) > 0
    ensures var d := v / Pow(base, k) % base;
            Show(v, base)[|Show(v, base)| - 1 - k] as int == if d < 10 then '0' as int + d else 'A' as int + d - 10
  {
    hide *;
    PowPositive(base, k);
    QuotientAndRest(v, base, k);
    if v == 0 {
      ZeroShown(base, k);
    } else {
      DigitsLength(v, base);
      DigitAt(v, base, k);
      ShownAt(DigitsOf(v, base), k);
      SymbolCode(DigitsOf(v, base)[k]);
    }
  }

  lemma QuotientAndRest(v: nat, base: nat, k: nat)
    requires base > 0 && Pow(base, k) > 0
    ensures v / Pow(base, k) % base == Residue(Div(v, Pow(base, k)), base)
    ensures v == 0 ==> v / Pow(base, k) % base == 0
  {
    if v == 0 {
      DivModUnique(0, Pow(base, k), 0, 0);
      DivModUnique(0, base, 0, 0);
    }
  }

  lemma ZeroShown(base: nat, k: nat)
    requires 2 <= base <= 36 && k < |Show(0, base)|
    ensures k == 0 && |Show(0, base)| == 1 && Show(0, base)[0] == '0'
  {
  }

  lemma SymbolCode(d: nat)
    requires d < 36
    ensures Symbol(d) as int == if d < 10 then '0' as int + d else 'A' as int + d - 10
  {
  }

  lemma DigitsLength(v: nat, base: nat)
    requires 2 <= base <= 36 && v > 0
    ensures AllBelow(DigitsOf(v, base), 36) && Show(v, base) == ShowDigits(DigitsOf(v, base))
    ensures |Show(v, base)| == |DigitsOf(v, base)| > 0
  {
    DigitsOfValue(v, base);
    ShownAt(DigitsOf(v, base), 0);
  }

  /** A number is shown in as many characters as it needs. */
  lemma {:induction false} ShownLength(v: nat, base: nat)
    requires 2 <= base <= 36
    ensures var n := |Show(v, base)|;
            n > 0 && v < Pow(base, n) && (if v == 0 then n == 1 else Pow(base, n - 1) <= v)
  {
    if v == 0 {
      assert Pow(base, 1) == base * Pow(base, 0);
    } else {
      DigitsLength(v, base);
      DigitsBound(v, base);
    }
  }

  lemma {:induction false} DigitsBound(v: nat, base: nat)
    requires base >= 2 && v > 0
    ensures var n := |DigitsOf(v, base)|; n > 0 && Pow(base, n - 1) <= v < Pow(base, n)
  {
    DivShrinks(v, base);
    var q, n := Div(v, base), |DigitsOf(v, base)|;
    if q == 0 {
      assert DigitsOf(q, base) == [];
      assert Pow(base, 1) == base * Pow(base, 0);
    } else {
      DigitsBound(q, base);
      assert |DigitsOf(q, base)| == n - 1;
      PowNext(base, n - 1);
      PowNext(base, n);
      hide *;
      MulMonotone(base, Pow(base, n - 2), q);
      MulMonotone(base, q + 1, Pow(base, n - 1));
      MulDistributes(q, 1, base);
    }
  }

  /** Reading goes by the codes of the characters, in either case; the last one is judged first and counts least. */
  lemma ReadCharacter(s: string, c: char, base: nat)
    ensures var k := c as int;
            var d := if '0' <= c <= '9' then k - '0' as int
                     else if 'A' <= c <= 'Z' then k - 'A' as int + 10
                     else if 'a' <= c <= 'z' then k - 'a' as int + 10
                     else -1;
            && ReadOutcome(s + [c], base) ==
               (if d < 0 then Threw(BadSymbol) else if d >= base then Threw(DigitTooLarge) else ReadOutcome(s, base))
            && (ReadOutcome(s + [c], base) == Ok ==> ReadValue(s + [c], base) == d + base * ReadValue(s, base))
    ensures ReadOutcome("", base) == Ok && ReadValue("", base) == 0
  {
    assert (s + [c])[..|s|] == s;
    if ReadOutcome(s + [c], base) == Ok {
      var ds := ReadDigits(s, base);
      assert ReadDigits(s + [c], base) == [SymbolValue(c)] + ds;
      DigitValueCons(SymbolValue(c), ds, base);
    }
  }

  // ----- signed decimal strings -----

  function ShowInteger(x: int): string {
    if x < 0 then "-" + Show(0 - x, 10) else Show(x, 10)
  }

  datatype Reading = Number(value: int) | Failed(reason: Reason)

  function ReadNatural(s: string): Reading {
    match ReadOutcome(s, 10)
    case Ok => Number(ReadValue(s, 10))
    case Threw(reason) => Failed(reason)
  }

  /** An optional sign followed by decimal digits. */
  function ReadInteger(s: string): Reading {
    if s != [] && s[0] == '-' then
      match ReadNatural(s[1..])
      case Number(v) => Number(0 - v)
      case Failed(reason) => Failed(reason)
    else if s != [] && s[0] == '+' then ReadNatural(s[1..])
    else ReadNatural(s)
  }

  /** Every signed number survives printing and parsing. */
  lemma ReadShownInteger(x: int)
    ensures ReadInteger(ShowInteger(x)) == Number(x)
  {
    var v: nat := if x < 0 then 0 - x else x;
    ReadShown(v, 10);
    FirstIsDigit(v);
    assert x < 0 ==> ShowInteger(x)[1..] == Show(v, 10);
  }

  /** A number below zero is shown with a minus sign. */
  lemma ShownInteger(x: int)
    ensures ShowInteger(x) == if x < 0 then ['-'] + Show(-x, 10) else Show(x, 10)
  {
  }

  /** Either sign may come before the digits. */
  lemma ReadSigned(t: string)
    ensures ReadOutcome(t, 10) == Ok ==>
              && ReadInteger(['-'] + t) == Number(0 - ReadValue(t, 10))
              && ReadInteger(['+'] + t) == Number(ReadValue(t, 10))
              && ReadInteger(t) == Number(ReadValue(t, 10))
    ensures forall reason :: ReadOutcome(t, 10) == Threw(reason) ==>
              ReadInteger(['-'] + t) == Failed(reason) && ReadInteger(['+'] + t) == Failed(reason)
  {
    assert (['-'] + t)[1..] == t && (['+'] + t)[1..] == t;
    if t != "" && ReadOutcome(t, 10) == Ok {
      ReadOutcomeFirst(t);
    }
  }

  lemma {:induction false} ReadOutcomeFirst(t: string)
    requires t != "" && ReadOutcome(t, 10) == Ok
    ensures '0' <= t[0] <= '9'
  {
    if |t| > 1 {
      ReadOutcomeFirst(t[..|t| - 1]);
    }
  }

  lemma FirstIsDigit(v: nat)
    ensures Show(v, 10) != [] && '0' <= Show(v, 10)[0] <= '9'
  {
    DigitsOfValue(v, 10);
    if v != 0 {
      ShownDigitsAreDigits(DigitsOf(v, 10));
    }
  }

  lemma {:induction false} ShownDigitsAreDigits(s: seq<nat>)
    requires s != [] && AllBelow(s, 10)
    ensures AllBelow(s, 36) && ShowDigits(s) != [] && '0' <= ShowDigits(s)[0] <= '9'
  {
    if |s| > 1 {
      ShownDigitsAreDigits(s[1..]);
    }
  }
}
