/** Unicode scalar values and their UTF-16 and UTF-32 byte forms, after sections 2.1 and 2.2 of RFC 2781. */
module Unicode {
  import opened BitStrings

  type Scalar = v: nat | v < 0xD800 || 0xE000 <= v < 0x11_0000
  type Unit = u: nat | u < 0x1_0000

  /** Code pages 1200, 1201, 12000 and 12001. */
  datatype Codepage = Codepage(wide: bool, big: bool)

  function Other(cp: Codepage): Codepage {
    cp.(big := !cp.big)
  }

  function UnitSize(cp: Codepage): nat {
    if cp.wide then 4 else 2
  }

  /** One unit, or a surrogate pair. */
  function Units(v: Scalar): (s: seq<Unit>)
    ensures 1 <= |s| <= 2
  {
    if v < 0x1_0000 then [v] else [0xD800 + (v - 0x1_0000) / 0x400, 0xDC00 + (v - 0x1_0000) % 0x400]
  }

  predicate HighSurrogate(u: Unit) {
    0xD800 <= u <= 0xDBFF
  }

  predicate LowSurrogate(u: Unit) {
    0xDC00 <= u <= 0xDFFF
  }

  /** The scalar value that a unit, or a pair of them, stands for. */
  function ScalarOf(first: Unit, second: Unit): (v: nat)
    ensures v < 0x11_0000
  {
    if HighSurrogate(first) then 0x1_0000 + (first - 0xD800) * 0x400 + second % 0x400 else first
  }

  lemma PairOf(v: Scalar)
    ensures v >= 0x1_0000 ==> HighSurrogate(Units(v)[0]) && LowSurrogate(Units(v)[1])
    ensures v < 0x1_0000 ==> !HighSurrogate(Units(v)[0]) && !LowSurrogate(Units(v)[0])
    ensures ScalarOf(Units(v)[0], if |Units(v)| == 2 then Units(v)[1] else 0) == v
  {
  }

  lemma PairStandsFor(first: Unit, second: Unit)
    requires HighSurrogate(first) && LowSurrogate(second)
    ensures 0x1_0000 <= ScalarOf(first, second) < 0x11_0000 && Units(ScalarOf(first, second)) == [first, second]
  {
    assert second % 0x400 == second - 0xDC00;
  }

  function Bytes2(big: bool, u: Unit): (s: seq<Byte>)
    ensures |s| == 2
  {
    if big then [u / 0x100, u % 0x100] else [u % 0x100, u / 0x100]
  }

  function Read2(big: bool, s: seq<Byte>): Unit
    requires |s| >= 2
  {
    if big then 0x100 * (s[0] as int) + s[1] as int else 0x100 * (s[1] as int) + s[0] as int
  }

  function Bytes4(big: bool, w: nat): (s: seq<Byte>)
    requires w < 0x1_0000_0000
    ensures |s| == 4
  {
    var high, low := Bytes2(big, w / 0x1_0000), Bytes2(big, w % 0x1_0000);
    if big then high + low else low + high
  }

  function Read4(big: bool, s: seq<Byte>): (w: nat)
    requires |s| >= 4
    ensures w < 0x1_0000_0000
  {
    if big then 0x1_0000 * Read2(big, s) + Read2(big, s[2..]) else 0x1_0000 * Read2(big, s[2..]) + Read2(big, s)
  }

  lemma BytesReadBack2(big: bool, u: Unit, rest: seq<Byte>)
    ensures Read2(big, Bytes2(big, u) + rest) == u
  {
  }

  lemma ReadBytesBack2(big: bool, s: seq<Byte>)
    requires |s| >= 2
    ensures Bytes2(big, Read2(big, s)) == s[..2]
  {
  }

  lemma BytesReadBack4(big: bool, w: nat, rest: seq<Byte>)
    requires w < 0x1_0000_0000
    ensures Read4(big, Bytes4(big, w) + rest) == w
  {
    hide Bytes2, Read2;
    var high, low := Bytes2(big, w / 0x1_0000), Bytes2(big, w % 0x1_0000);
    var first, second := if big then high else low, if big then low else high;
    assert first + second + rest == first + (second + rest);
    assert (first + second + rest)[2..] == second + rest;
    BytesReadBack2(big, w / 0x1_0000, if big then second + rest else rest);
    BytesReadBack2(big, w % 0x1_0000, if big then rest else second + rest);
  }

  lemma ReadBytesBack4(big: bool, s: seq<Byte>)
    requires |s| >= 4
    ensures Bytes4(big, Read4(big, s)) == s[..4]
  {
    hide Bytes2, Read2;
    ReadBytesBack2(big, s);
    ReadBytesBack2(big, s[2..]);
    assert s[..4] == s[..2] + s[2..][..2];
    TwoHalves(Read2(big, s), Read2(big, s[2..]));
    TwoHalves(Read2(big, s[2..]), Read2(big, s));
  }

  lemma TwoHalves(a: Unit, b: Unit)
    ensures var w := 0x1_0000 * a + b; w / 0x1_0000 == a && w % 0x1_0000 == b
  {
  }

  /** The byte form of one character. */
  function CharBytes(cp: Codepage, v: Scalar): (s: seq<Byte>)
    ensures |s| == if cp.wide || v >= 0x1_0000 then 4 else 2
  {
    if cp.wide then Bytes4(cp.big, v)
    else if v < 0x1_0000 then Bytes2(cp.big, v)
    else Bytes2(cp.big, Units(v)[0]) + Bytes2(cp.big, Units(v)[1])
  }

  /** The byte form of a unit, or of two if the first one begins a pair. */
  function UnitBytes(cp: Codepage, first: Unit, second: Unit): (s: seq<Byte>)
    ensures |s| == if cp.wide || HighSurrogate(first) then 4 else 2
  {
    if cp.wide then Bytes4(cp.big, ScalarOf(first, second))
    else if HighSurrogate(first) then Bytes2(cp.big, first) + Bytes2(cp.big, second)
    else Bytes2(cp.big, first)
  }

  /** The units of a character have its byte form; a second unit counts only in a pair. */
  lemma UnitBytesOfChar(cp: Codepage, v: Scalar, second: Unit)
    requires |Units(v)| == 2 ==> second == Units(v)[1]
    ensures UnitBytes(cp, Units(v)[0], second) == CharBytes(cp, v)
  {
    hide Bytes2, Bytes4;
    PairOf(v);
  }

  /** The byte order mark is the character U+FEFF. */
  function Bom(cp: Codepage): (s: seq<Byte>)
    ensures |s| == UnitSize(cp)
  {
    CharBytes(cp, 0xFEFF)
  }

  datatype Next = Char(v: Scalar, size: nat) | Incomplete | Illegal

  /** The first character of a byte string. */
  function First(cp: Codepage, s: seq<Byte>): Next {
    if |s| < UnitSize(cp) then Incomplete
    else if cp.wide then
      var w := Read4(cp.big, s);
      if 0xD800 <= w <= 0xDFFF || w > 0x10_FFFF then Illegal else Char(w, 4)
    else
      var u := Read2(cp.big, s);
      if LowSurrogate(u) then Illegal
      else if !HighSurrogate(u) then Char(u, 2)
      else if |s| < 4 then Incomplete
      else
        var l := Read2(cp.big, s[2..]);
        if LowSurrogate(l) then Char(ScalarOf(u, l), 4) else Illegal
  }

  /** A character written is the first character read ... */
  lemma FirstOfChar(cp: Codepage, v: Scalar, rest: seq<Byte>)
    ensures First(cp, CharBytes(cp, v) + rest) == Char(v, |CharBytes(cp, v)|)
  {
    hide Read2, Read4, Bytes2, Bytes4, ScalarOf, Units;
    PairOf(v);
    if cp.wide {
      BytesReadBack4(cp.big, v, rest);
    } else if v < 0x1_0000 {
      BytesReadBack2(cp.big, v, rest);
      assert Units(v)[0] == v by { UnitOfSmall(v); }
    } else {
      UnitsOfLarge(v);
      var a, b := Bytes2(cp.big, Units(v)[0]), Bytes2(cp.big, Units(v)[1]);
      assert a + b + rest == a + (b + rest);
      assert (a + b + rest)[2..] == b + rest;
      BytesReadBack2(cp.big, Units(v)[0], b + rest);
      BytesReadBack2(cp.big, Units(v)[1], rest);
    }
  }

  lemma UnitOfSmall(v: Scalar)
    requires v < 0x1_0000
    ensures Units(v) == [v]
  {
  }

  lemma UnitsOfLarge(v: Scalar)
    requires v >= 0x1_0000
    ensures |Units(v)| == 2
  {
  }

  /** ... and a character read is what its bytes spell. */
  lemma FirstIsChar(cp: Codepage, s: seq<Byte>)
    requires First(cp, s).Char?
    ensures First(cp, s).size <= |s| && s[..First(cp, s).size] == CharBytes(cp, First(cp, s).v)
  {
    hide Read2, Read4, Bytes2, Bytes4, ScalarOf, Units;
    if cp.wide {
      ReadBytesBack4(cp.big, s);
    } else {
      ReadBytesBack2(cp.big, s);
      var u := Read2(cp.big, s);
      if HighSurrogate(u) {
        ReadBytesBack2(cp.big, s[2..]);
        PairStandsFor(u, Read2(cp.big, s[2..]));
        assert s[..4] == s[..2] + s[2..][..2];
      }
    }
  }

  /** The number that bytes spell, the most significant first. */
  function AsNumber(s: seq<Byte>): nat {
    if s == [] then 0 else 256 * AsNumber(s[..|s| - 1]) + s[|s| - 1]
  }

  function Backward(s: seq<Byte>): (r: seq<Byte>)
    ensures |r| == |s| && forall i :: 0 <= i < |s| ==> r[i] == s[|s| - 1 - i]
  {
    if s == [] then [] else Backward(s[1..]) + [s[0]]
  }

  /** Bytes in the order of the code page, as a number. */
  function NumberOf(big: bool, s: seq<Byte>): nat {
    AsNumber(if big then s else Backward(s))
  }

  lemma NumberOfTwo(big: bool, s: seq<Byte>)
    requires |s| == 2
    ensures NumberOf(big, s) == if big then 256 * (s[0] as int) + s[1] as int else 256 * (s[1] as int) + s[0] as int
  {
    var t := if big then s else Backward(s);
    assert t[..1] == [t[0]] && t[..1][..0] == [];
    assert AsNumber(t[..1]) == t[0];
  }

  lemma NumberOfFour(big: bool, s: seq<Byte>)
    requires |s| == 4
    ensures NumberOf(big, s) ==
            if big then 0x1_0000 * NumberOf(big, s[..2]) + NumberOf(big, s[2..])
            else 0x1_0000 * NumberOf(big, s[2..]) + NumberOf(big, s[..2])
  {
    NumberOfTwo(big, s[..2]);
    NumberOfTwo(big, s[2..]);
    var t := if big then s else Backward(s);
    NumberOfTwo(true, t[..2]);
    assert t[..3][..2] == t[..2];
    assert AsNumber(t[..3]) == 256 * AsNumber(t[..2]) + t[2];
  }

  lemma TwoAsNumber(big: bool, u: Unit)
    ensures NumberOf(big, Bytes2(big, u)) == u
  {
    NumberOfTwo(big, Bytes2(big, u));
  }

  lemma FourAsNumber(big: bool, w: nat)
    requires w < 0x1_0000_0000
    ensures NumberOf(big, Bytes4(big, w)) == w
  {
    hide NumberOf, Bytes2;
    var s := Bytes4(big, w);
    var high, low := Bytes2(big, w / 0x1_0000), Bytes2(big, w % 0x1_0000);
    assert s[..2] == if big then high else low;
    assert s[2..] == if big then low else high;
    NumberOfFour(big, s);
    TwoAsNumber(big, w / 0x1_0000);
    TwoAsNumber(big, w % 0x1_0000);
  }

  lemma PairAsNumbers(big: bool, first: Unit, second: Unit)
    ensures var s := Bytes2(big, first) + Bytes2(big, second);
            NumberOf(big, s[..2]) == first && NumberOf(big, s[2..]) == second
  {
    hide NumberOf, Bytes2;
    var a, b := Bytes2(big, first), Bytes2(big, second);
    assert (a + b)[..2] == a && (a + b)[2..] == b;
    TwoAsNumber(big, first);
    TwoAsNumber(big, second);
  }

  /** What the bytes of a character spell in their byte order: its value or, in two units, a high and a low surrogate
      with ten bits each of what its value has beyond the first plane. */
  lemma CharAsNumber(cp: Codepage, v: Scalar)
    ensures var s := CharBytes(cp, v);
            if cp.wide then |s| == 4 && NumberOf(cp.big, s) == v
            else if v < 0x1_0000 then |s| == 2 && NumberOf(cp.big, s) == v
            else
              var hi, lo := NumberOf(cp.big, s[..2]), NumberOf(cp.big, s[2..]);
              && |s| == 4 && 0xD800 <= hi < 0xDC00 <= lo < 0xE000
              && v == 0x1_0000 + (hi - 0xD800) * 0x400 + (lo - 0xDC00)
  {
    hide NumberOf, Bytes2, Bytes4;
    if cp.wide {
      FourAsNumber(cp.big, v);
    } else if v < 0x1_0000 {
      TwoAsNumber(cp.big, v);
    } else {
      PairAsNumbers(cp.big, Units(v)[0], Units(v)[1]);
    }
  }

  /** What the bytes of any units spell, surrogates out of place included. */
  lemma UnitsAsNumbers(cp: Codepage, first: Unit, second: Unit)
    ensures var s := UnitBytes(cp, first, second);
            var pair := 0xD800 <= first < 0xDC00;
            if cp.wide then
              |s| == 4 && NumberOf(cp.big, s) ==
                          if pair then 0x1_0000 + first % 0x400 * 0x400 + second % 0x400 else first
            else
              && |s| == (if pair then 4 else 2) && NumberOf(cp.big, s[..2]) == first
              && (pair ==> NumberOf(cp.big, s[2..]) == second)
  {
    hide NumberOf, Bytes2, Bytes4;
    if cp.wide {
      FourAsNumber(cp.big, ScalarOf(first, second));
      BeyondTheFirst(first);
    } else if HighSurrogate(first) {
      PairAsNumbers(cp.big, first, second);
    } else {
      TwoAsNumber(cp.big, first);
      assert Bytes2(cp.big, first)[..2] == Bytes2(cp.big, first);
    }
  }

  lemma BeyondTheFirst(u: Unit)
    ensures 0xD800 <= u < 0xDC00 ==> u % 0x400 == u - 0xD800
  {
  }

  /** The example of section 5 of RFC 2781. */
  lemma Example()
    ensures CharBytes(Codepage(false, true), 0x12345) == [0xD8, 0x08, 0xDF, 0x45]
    ensures CharBytes(Codepage(false, false), 0x12345) == [0x08, 0xD8, 0x45, 0xDF]
    ensures CharBytes(Codepage(true, true), 0x12345) == [0x00, 0x01, 0x23, 0x45]
    ensures CharBytes(Codepage(true, false), 0x12345) == [0x45, 0x23, 0x01, 0x00]
  {
  }

  /** Does `s` begin with a character? */
  ghost predicate Begins(cp: Codepage, s: seq<Byte>) {
    exists v: Scalar :: CharBytes(cp, v) <= s
  }

  /** Is `s` the beginning of a character? */
  ghost predicate MayBegin(cp: Codepage, s: seq<Byte>) {
    exists v: Scalar :: s <= CharBytes(cp, v)
  }

  /** Whole units: a character is found exactly if one is there, and input is incomplete exactly if more of it can
      make a character. */
  lemma WholeUnits(cp: Codepage, s: seq<Byte>)
    requires |s| % UnitSize(cp) == 0
    ensures First(cp, s).Char? <==> Begins(cp, s)
    ensures First(cp, s).Incomplete? <==> !Begins(cp, s) && MayBegin(cp, s)
    ensures First(cp, s).Illegal? <==> !Begins(cp, s) && !MayBegin(cp, s)
  {
    hide CharBytes, First;
    if First(cp, s).Char? {
      FirstIsChar(cp, s);
      assert CharBytes(cp, First(cp, s).v) <= s;
    }
    if v: Scalar :| CharBytes(cp, v) <= s {
      FirstOfChar(cp, v, s[|CharBytes(cp, v)|..]);
      assert s == CharBytes(cp, v) + s[|CharBytes(cp, v)|..];
    }
    if First(cp, s).Incomplete? {
      var v := Continuation(cp, s);
      assert s <= CharBytes(cp, v);
    }
    if v: Scalar :| s <= CharBytes(cp, v) {
      FirstOfChar(cp, v, []);
      FirstIsStable(cp, s, CharBytes(cp, v)[|s|..]);
      assert CharBytes(cp, v) + [] == CharBytes(cp, v) == s + CharBytes(cp, v)[|s|..];
    }
  }

  lemma Continuation(cp: Codepage, s: seq<Byte>) returns (v: Scalar)
    requires |s| % UnitSize(cp) == 0 && First(cp, s).Incomplete?
    ensures s <= CharBytes(cp, v)
  {
    if |s| == 0 {
      v := 0;
    } else {
      var u := Read2(cp.big, s);
      PairStandsFor(u, 0xDC00);
      v := ScalarOf(u, 0xDC00);
      ReadBytesBack2(cp.big, s);
      hide Bytes2, Read2, ScalarOf, Units;
      assert s[..2] == s;
    }
  }

  /** A part of a unit at the end makes no difference. */
  lemma PartOfUnit(cp: Codepage, s: seq<Byte>)
    ensures First(cp, s) == First(cp, s[..|s| - |s| % UnitSize(cp)])
  {
    var t := s[..|s| - |s| % UnitSize(cp)];
    FirstIsStable(cp, t, s[|t|..]);
    assert t + s[|t|..] == s;
    FirstIsStable(cp, s, []);
    hide Read2, Read4, ScalarOf;
    if First(cp, t).Incomplete? {
      assert |s| < 4;
      assert !cp.wide && |s| >= 2 ==> t == s[..2] && Read2(cp.big, t) == Read2(cp.big, s) by {
        FirstUnit(cp.big, s);
      }
    }
  }

  lemma FirstUnit(big: bool, s: seq<Byte>)
    ensures |s| >= 2 ==> Read2(big, s[..2]) == Read2(big, s)
  {
  }

  /** No continuation of an illegal start is a character; an incomplete one is decided by four bytes. */
  lemma FirstIsStable(cp: Codepage, s: seq<Byte>, t: seq<Byte>)
    ensures !First(cp, s).Incomplete? ==> First(cp, s + t) == First(cp, s)
    ensures First(cp, s).Incomplete? ==> |s| < 4
    ensures |s| >= 4 ==> !First(cp, s).Incomplete?
  {
    if |s| >= 4 {
      assert (s + t)[2..] == s[2..] + t;
    }
  }

  /** The mark of the other byte order is never mistaken for this one. */
  lemma BomsDiffer(cp: Codepage)
    ensures Bom(cp) != Bom(Other(cp))
  {
    var a, b := Bom(cp), Bom(Other(cp));
    assert if cp.wide then a[0] != b[0] else a[0] != b[0];
  }

  /** What the test for a mark looks at: the first unit as a number. */
  lemma BomAsNumber(cp: Codepage, s: seq<Byte>)
    requires |s| >= UnitSize(cp)
    ensures cp.wide ==> (s[..4] == Bom(cp) <==> Read4(cp.big, s) == 0xFEFF)
    ensures cp.wide ==> (s[..4] == Bom(Other(cp)) <==> Read4(cp.big, s) == 0xFFFE_0000)
    ensures !cp.wide ==> (s[..2] == Bom(cp) <==> Read2(cp.big, s) == 0xFEFF)
    ensures !cp.wide ==> (s[..2] == Bom(Other(cp)) <==> Read2(cp.big, s) == 0xFFFE)
  {
    if cp.wide {
      assert Bytes4(cp.big, 0xFFFE_0000) == Bytes4(!cp.big, 0xFEFF);
      hide Bytes4, Read4;
      SameWord(cp.big, s, 0xFEFF);
      SameWord(cp.big, s, 0xFFFE_0000);
    } else {
      assert Bytes2(cp.big, 0xFFFE) == Bytes2(!cp.big, 0xFEFF);
      hide Bytes2, Read2;
      SameUnit(cp.big, s, 0xFEFF);
      SameUnit(cp.big, s, 0xFFFE);
    }
  }

  lemma SameUnit(big: bool, s: seq<Byte>, u: Unit)
    requires |s| >= 2
    ensures s[..2] == Bytes2(big, u) <==> Read2(big, s) == u
  {
    hide Bytes2, Read2;
    ReadBytesBack2(big, s);
    BytesReadBack2(big, u, s[2..]);
    assert s == s[..2] + s[2..];
  }

  lemma SameWord(big: bool, s: seq<Byte>, w: nat)
    requires |s| >= 4 && w < 0x1_0000_0000
    ensures s[..4] == Bytes4(big, w) <==> Read4(big, s) == w
  {
    hide Bytes4, Read4;
    ReadBytesBack4(big, s);
    BytesReadBack4(big, w, s[4..]);
    assert s == s[..4] + s[4..];
  }
}
