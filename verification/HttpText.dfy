/** Byte strings as the HTTP classes handle them; a `char` is a byte. */
module HttpText {
  import Arith
  import Numerals
  import Errors

  predicate IsSpace(c: char) {
    c == ' ' || '\t' <= c <= '\r'
  }

  /** Without the white space at both ends. */
  function Trimmed(s: string): (r: string)
    decreases |s|
  {
    if s == [] then []
    else if IsSpace(s[0]) then Trimmed(s[1..])
    else if IsSpace(s[|s| - 1]) then Trimmed(s[..|s| - 1])
    else s
  }

  /** The least position of `c`, or -1. */
  function IndexOf(s: string, c: char): (r: int)
    ensures -1 <= r < |s|
  {
    if s == [] then -1
    else if s[0] == c then 0
    else
      var r := IndexOf(s[1..], c);
      if r == -1 then -1 else r + 1
  }

  lemma {:induction false} IndexOfIsFirst(s: string, c: char)
    ensures var r := IndexOf(s, c); if r == -1 then c !in s else s[r] == c && c !in s[..r]
  {
    if s != [] && s[0] != c {
      IndexOfIsFirst(s[1..], c);
      var r := IndexOf(s[1..], c);
      if r != -1 {
        assert s[..r + 1] == [s[0]] + s[1..][..r];
      }
    }
  }

  predicate StartsWith(s: string, t: string) {
    |t| <= |s| && s[..|t|] == t
  }

  /** The least position where `t` begins in `s`, or -1. */
  function Find(s: string, t: string): (r: int)
    ensures r == -1 || 0 <= r <= |s| - |t|
  {
    if StartsWith(s, t) then 0
    else if s == [] then -1
    else
      var r := Find(s[1..], t);
      if r == -1 then -1 else r + 1
  }

  lemma {:induction false} FindIsFirst(s: string, t: string, i: nat)
    requires i <= |s|
    ensures i == Find(s, t) ==> StartsWith(s[i..], t)
    ensures i < Find(s, t) || Find(s, t) == -1 ==> !StartsWith(s[i..], t)
  {
    if i == 0 {
      assert s[0..] == s;
    } else if !StartsWith(s, t) {
      FindIsFirst(s[1..], t, i - 1);
      assert s[1..][i - 1..] == s[i..];
    }
  }

  function LowerChar(c: char): char {
    if 'A' <= c <= 'Z' then c - 'A' + 'a' else c
  }

  function Lower(s: string): string {
    seq(|s|, i requires 0 <= i < |s| => LowerChar(s[i]))
  }

  /** The parts between the occurrences of `c`. */
  function Split(s: string, c: char): (r: seq<string>)
    ensures |r| >= 1
    decreases |s|
  {
    var k := IndexOf(s, c);
    if k == -1 then [s] else [s[..k]] + Split(s[k + 1..], c)
  }

  function Joined(parts: seq<string>, c: char): string
    requires |parts| >= 1
  {
    if |parts| == 1 then parts[0] else parts[0] + [c] + Joined(parts[1..], c)
  }

  /** The parts make up the whole again, and none of them holds a separator. */
  lemma {:induction false} SplitAndJoin(s: string, c: char)
    ensures Joined(Split(s, c), c) == s && forall part :: part in Split(s, c) ==> c !in part
    decreases |s|
  {
    hide Joined, IndexOf;
    var k := IndexOf(s, c);
    IndexOfIsFirst(s, c);
    if k == -1 {
      JoinedOne(s, c);
    } else {
      SplitAndJoin(s[k + 1..], c);
      JoinedMore(s[..k], Split(s[k + 1..], c), c);
      CutAt(s, k);
    }
  }

  lemma SplitWhole(s: string, c: char)
    requires c !in s
    ensures Split(s, c) == [s]
  {
    IndexOfIsFirst(s, c);
  }

  lemma JoinedOne(s: string, c: char)
    ensures Joined([s], c) == s
  {
  }

  lemma JoinedMore(s: string, rest: seq<string>, c: char)
    requires rest != []
    ensures Joined([s] + rest, c) == s + [c] + Joined(rest, c)
  {
    assert ([s] + rest)[1..] == rest;
  }

  lemma CutAt(s: string, k: nat)
    requires k < |s|
    ensures s == s[..k] + [s[k]] + s[k + 1..]
  {
  }

  /** `s[a..b]` has white space around it in `s` and none at its ends. */
  predicate TrimmedBetween(s: string, a: nat, b: nat)
    ensures TrimmedBetween(s, a, b) ==> a <= b <= |s|
  {
    && a <= b <= |s| && (forall i :: 0 <= i < |s| && !(a <= i < b) ==> IsSpace(s[i]))
    && (a < b ==> !IsSpace(s[a]) && !IsSpace(s[b - 1]))
  }

  /** Trimming leaves no white space at either end, and only white space is taken away. */
  lemma {:induction false} TrimmedMeans(s: string)
    ensures exists a: nat, b: nat :: TrimmedBetween(s, a, b) && Trimmed(s) == s[a..b]
    decreases |s|
  {
    hide TrimmedBetween;
    if s == [] {
      WholeIsBetween(s);
    } else if IsSpace(s[0]) {
      TrimmedMeans(s[1..]);
      var a: nat, b: nat :| TrimmedBetween(s[1..], a, b) && Trimmed(s[1..]) == s[1..][a..b];
      SpaceBefore(s, a, b);
    } else if IsSpace(s[|s| - 1]) {
      var t := s[..|s| - 1];
      TrimmedMeans(t);
      var a: nat, b: nat :| TrimmedBetween(t, a, b) && Trimmed(t) == t[a..b];
      SpaceAfter(s, a, b);
    } else {
      WholeIsBetween(s);
    }
  }

  lemma WholeIsBetween(s: string)
    requires s != [] ==> !IsSpace(s[0]) && !IsSpace(s[|s| - 1])
    ensures TrimmedBetween(s, 0, |s|) && s[0..|s|] == s
  {
  }

  lemma SpaceBefore(s: string, a: nat, b: nat)
    requires s != [] && IsSpace(s[0]) && TrimmedBetween(s[1..], a, b)
    ensures TrimmedBetween(s, a + 1, b + 1) && s[a + 1..b + 1] == s[1..][a..b]
  {
    assert forall i :: 0 < i < |s| ==> s[i] == s[1..][i - 1];
  }

  lemma SpaceAfter(s: string, a: nat, b: nat)
    requires s != [] && IsSpace(s[|s| - 1]) && TrimmedBetween(s[..|s| - 1], a, b)
    ensures TrimmedBetween(s, a, b) && s[a..b] == s[..|s| - 1][a..b]
  {
  }

  /** Nothing else is the trimmed text. */
  lemma {:induction false} TrimmedIs(s: string, a: nat, b: nat)
    requires TrimmedBetween(s, a, b)
    ensures Trimmed(s) == s[a..b]
    decreases |s|
  {
    if s != [] {
      if IsSpace(s[0]) {
        var a', b' := if a == 0 then 0 else a - 1, if a == 0 then 0 else b - 1;
        assert forall i :: 0 <= i < |s| - 1 ==> s[1..][i] == s[i + 1];
        TrimmedIs(s[1..], a', b');
        if a == 0 {
          assert b == 0;
        } else {
          SliceOfTail(s, a, b);
        }
      } else if IsSpace(s[|s| - 1]) {
        TrimmedIs(s[..|s| - 1], a, b);
        assert s[..|s| - 1][a..b] == s[a..b];
      }
    }
  }

  lemma SliceOfTail(s: string, a: nat, b: nat)
    requires 0 < a <= b <= |s|
    ensures s[1..][a - 1..b - 1] == s[a..b]
  {
  }

  /** The bases in use. */
  predicate Base(b: nat) {
    b == 10 || b == 16
  }

  /** A natural number as text, with lower case letters. */
  function Number(n: nat, base: nat): string
    requires Base(base)
  {
    Lower(Numerals.Show(n, base))
  }

  /** The value of a text of digits, or -1 where there is none. */
  function NumberIn(s: string, base: nat): (r: int)
    requires Base(base)
    ensures r >= -1
  {
    if s == "" || Numerals.ReadOutcome(s, base) != Errors.Ok then -1 else Numerals.ReadValue(s, base)
  }

  /** The case of letters does not matter in a numeral. */
  lemma {:induction false} ReadLower(s: string, base: nat)
    ensures Numerals.ReadOutcome(Lower(s), base) == Numerals.ReadOutcome(s, base)
    ensures Numerals.ReadOutcome(s, base) == Errors.Ok ==>
              Numerals.ReadDigits(Lower(s), base) == Numerals.ReadDigits(s, base)
  {
    if s != "" {
      assert Lower(s)[..|s| - 1] == Lower(s[..|s| - 1]);
      ReadLower(s[..|s| - 1], base);
    }
  }

  lemma {:induction false} NumeralsAreSymbols(s: string, base: nat)
    requires Numerals.ReadOutcome(s, base) == Errors.Ok
    ensures forall i :: 0 <= i < |s| ==> Numerals.SymbolValue(s[i]) >= 0
  {
    if s != "" {
      NumeralsAreSymbols(s[..|s| - 1], base);
    }
  }

  /** A number written is read back, and is written in digits and letters only. */
  lemma NumberReadBack(n: nat, base: nat)
    requires Base(base)
    ensures NumberIn(Number(n, base), base) == n && Number(n, base) != ""
    ensures '\r' !in Number(n, base) && ' ' !in Number(n, base)
  {
    hide Numerals.Show, Numerals.ReadValue, Numerals.ReadDigits;
    Numerals.ReadShown(n, base);
    ReadLower(Numerals.Show(n, base), base);
    NumeralsAreSymbols(Number(n, base), base);
    SomethingShown(n, base);
    SameValue(Numerals.Show(n, base), base);
  }

  lemma NumberIsSymbols(n: nat, base: nat)
    requires Base(base)
    ensures forall i :: 0 <= i < |Number(n, base)| ==> !IsSpace(Number(n, base)[i])
  {
    hide Numerals.Show;
    Numerals.ReadShown(n, base);
    ReadLower(Numerals.Show(n, base), base);
    NumeralsAreSymbols(Number(n, base), base);
  }

  lemma SomethingShown(n: nat, base: nat)
    requires Base(base)
    ensures Numerals.Show(n, base) != ""
  {
    hide Numerals.DigitValue;
    Numerals.DigitsOfValue(n, base);
    if n > 0 {
      assert Numerals.DigitsOf(n, base) != [];
    }
  }

  lemma SameValue(s: string, base: nat)
    requires Numerals.ReadOutcome(s, base) == Errors.Ok == Numerals.ReadOutcome(Lower(s), base)
    requires Numerals.ReadDigits(Lower(s), base) == Numerals.ReadDigits(s, base)
    ensures Numerals.ReadValue(Lower(s), base) == Numerals.ReadValue(s, base)
  {
  }

  /** A signed number that fits an `int`, perhaps with white space around it; anything else counts as zero. */
  function ToInt(s: string): (r: int)
    ensures -0x8000_0000 <= r < 0x8000_0000
  {
    var t := Trimmed(s);
    var signed := t != [] && (t[0] == '-' || t[0] == '+');
    var magnitude := NumberIn(if signed then t[1..] else t, 10);
    var value := if signed && t[0] == '-' then 0 - magnitude else magnitude;
    if magnitude == -1 || value < -0x8000_0000 || value >= 0x8000_0000 then 0 else value
  }

  /** At least one decimal digit and nothing else. */
  predicate IsDecimal(s: string) {
    s != "" && forall i :: 0 <= i < |s| ==> '0' <= s[i] <= '9'
  }

  /** The number that decimal digits spell. */
  function DecimalValue(s: string): nat
    requires forall i :: 0 <= i < |s| ==> '0' <= s[i] <= '9'
  {
    if s == "" then 0 else 10 * DecimalValue(s[..|s| - 1]) + (s[|s| - 1] as int - '0' as int)
  }

  lemma {:induction false} DigitsRead(s: string)
    ensures Numerals.ReadOutcome(s, 10) == Errors.Ok <==> forall i :: 0 <= i < |s| ==> '0' <= s[i] <= '9'
    ensures Numerals.ReadOutcome(s, 10) == Errors.Ok ==> Numerals.ReadValue(s, 10) == DecimalValue(s)
  {
    if s == "" {
      Numerals.ReadCharacter("", '0', 10);
    } else {
      var n := |s| - 1;
      DigitsRead(s[..n]);
      hide Numerals.ReadOutcome, Numerals.ReadValue;
      assert s == s[..n] + [s[n]];
      Numerals.ReadCharacter(s[..n], s[n], 10);
    }
  }

  /** Texts stand for numbers by their decimal digits, after an optional sign. */
  lemma ToIntMeans(s: string)
    ensures var t := Trimmed(s);
            var negative := t != "" && t[0] == '-';
            var digits := if t != "" && (t[0] == '-' || t[0] == '+') then t[1..] else t;
            ToInt(s) ==
            if !IsDecimal(digits) then 0
            else
              var value := if negative then 0 - DecimalValue(digits) else DecimalValue(digits);
              if -0x8000_0000 <= value < 0x8000_0000 then value else 0
  {
    hide Trimmed, Numerals.ReadOutcome, Numerals.ReadValue, DecimalValue;
    var t := Trimmed(s);
    DigitsRead(if t != "" && (t[0] == '-' || t[0] == '+') then t[1..] else t);
  }

  /** A number that fits is read as it is shown, and one that does not counts as zero. */
  lemma ToIntShown(x: int)
    ensures ToInt(Numerals.ShowInteger(x)) == if -0x8000_0000 <= x < 0x8000_0000 then x else 0
  {
    var v: nat := if x < 0 then 0 - x else x;
    Numerals.ReadShown(v, 10);
    Numerals.ShownInteger(x);
    Numerals.FirstIsDigit(v);
    DigitsRead(Numerals.Show(v, 10));
    hide Numerals.ReadOutcome, Numerals.ReadValue, Numerals.Show, Numerals.ShowInteger, Trimmed, DecimalValue;
    var s := Numerals.ShowInteger(x);
    assert x < 0 ==> s[1..] == Numerals.Show(v, 10);
    NothingToTrim(s);
  }

  lemma NothingToTrim(s: string)
    requires s != "" && !IsSpace(s[0]) && !IsSpace(s[|s| - 1])
    ensures Trimmed(s) == s
  {
  }

  /** The character of a number at the place of `base^k`, by its code: digits and then small letters. */
  lemma NumberCharacter(n: nat, base: nat, k: nat)
    requires Base(base) && k < |Number(n, base)|
    ensures Arith.Pow(base, k) > 0
    ensures var d := n / Arith.Pow(base, k) % base;
            Number(n, base)[|Number(n, base)| - 1 - k] as int ==
            if d < 10 then '0' as int + d else 'a' as int + d - 10
  {
    hide Numerals.Show;
    Numerals.ShownCharacter(n, base, k);
  }

  /** The characters that count as white space, by their codes. */
  lemma WhiteSpace(c: char)
    ensures IsSpace(c) <==> c as int in {9, 10, 11, 12, 13, 32}
  {
  }

  /** Capital letters become small ones, by their codes, and nothing else changes. */
  lemma LowerLetters(s: string)
    ensures |Lower(s)| == |s|
    ensures forall i :: 0 <= i < |s| ==>
              Lower(s)[i] as int == if 65 <= s[i] as int <= 90 then s[i] as int + 32 else s[i] as int
  {
  }

  const CRLF := "\r\n"

  /** A line break somewhere in `s`. */
  predicate HasLineBreak(s: string) {
    exists i :: 0 < i < |s| && s[i] == '\n' && s[i - 1] == '\r'
  }

  lemma BreakAt(s: string, i: nat)
    requires i <= |s|
    ensures StartsWith(s[i..], CRLF) <==> i + 1 < |s| && s[i] == '\r' && s[i + 1] == '\n'
  {
    if i + 1 < |s| {
      assert s[i..][..2] == [s[i], s[i + 1]];
    }
  }

  /** Before the first line break there is none. */
  lemma FirstBreak(s: string)
    ensures var k := Find(s, CRLF);
            if k == -1 then !HasLineBreak(s)
            else k + 2 <= |s| && s[k] == '\r' && s[k + 1] == '\n' && !HasLineBreak(s[..k + 1])
  {
    var k := Find(s, CRLF);
    if k >= 0 {
      FindIsFirst(s, CRLF, k);
      BreakAt(s, k);
    }
    var t := if k == -1 then s else s[..k + 1];
    forall i | 0 < i < |t| ensures !(t[i] == '\n' && t[i - 1] == '\r') {
      NoBreakBeforeFirst(s, i);
      assert t[i] == s[i] && t[i - 1] == s[i - 1];
    }
  }

  lemma NoBreakBeforeFirst(s: string, i: nat)
    requires 0 < i < |s| && (Find(s, CRLF) == -1 || i <= Find(s, CRLF))
    ensures !(s[i] == '\n' && s[i - 1] == '\r')
  {
    FindIsFirst(s, CRLF, i - 1);
    BreakAt(s, i - 1);
  }

  /** The first line break after a text without any. */
  lemma FindAfter(t: string, s: string)
    requires !HasLineBreak(t)
    ensures Find(t + CRLF + s, CRLF) == |t|
  {
    var u := t + CRLF + s;
    assert u[|t|..] == CRLF + s;
    forall i: nat | i < |t| ensures !StartsWith(u[i..], CRLF) {
      BreakAt(u, i);
      assert i + 1 < |t| ==> u[i + 1] == t[i + 1];
      assert u[i] == t[i] && u[|t|] == '\r';
    }
    FindIsFirst(u, CRLF, |t|);
    if Find(u, CRLF) >= 0 {
      FindIsFirst(u, CRLF, Find(u, CRLF));
    }
  }

  /** A part of a text without line breaks has none. */
  lemma NoBreakWithin(s: string, a: nat, b: nat)
    requires !HasLineBreak(s) && a <= b <= |s|
    ensures !HasLineBreak(s[a..b])
  {
    forall i | 0 < i < b - a ensures !(s[a..b][i] == '\n' && s[a..b][i - 1] == '\r') {
      assert s[a..b][i] == s[a + i] && s[a..b][i - 1] == s[a + i - 1];
    }
  }

  lemma NoReturnNoBreak(s: string)
    requires '\r' !in s
    ensures !HasLineBreak(s)
  {
  }

  /** The first part and the parts after the first separator. */
  lemma SplitNext(t: string, c: char, s: string)
    requires c !in t
    ensures Split(t + [c] + s, c) == [t] + Split(s, c)
  {
    hide IndexOf;
    IndexAfter(t, c, s);
    var u := t + [c] + s;
    assert u[..|t|] == t && u[|t| + 1..] == s;
  }

  /** The first occurrence of a character after a text without it. */
  lemma {:induction false} IndexAfter(t: string, c: char, s: string)
    requires c !in t
    ensures IndexOf(t + [c] + s, c) == |t|
  {
    var u := t + [c] + s;
    IndexOfIsFirst(u, c);
    assert u[|t|] == c;
    forall i | 0 <= i < |t| ensures u[i] != c {
      assert u[i] == t[i];
    }
  }
}
