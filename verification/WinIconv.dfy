/** The converter itself: two codecs with their modes, and the loop that moves
    characters from one buffer to the other. */
module WinIconv {
  import opened Arith
  import opened BitStrings
  import opened Bits
  import opened Transcoding
  import opened Unicode

  lemma Powers()
    ensures Pow2(8) == 0x100 && Pow2(10) == 0x400 && Pow2(16) == 0x1_0000 && Pow2(24) == 0x100_0000
  {
    assert Pow2(8) == 0x100;
    assert Pow2(2) == 4;
    Pow2Add(8, 2);
    Pow2Add(8, 8);
    Pow2Add(16, 8);
  }

  /** `(hi << 8) | lo`. */
  function Join2(hi: Byte, lo: Byte): (u: Unit)
    ensures u == 0x100 * (hi as int) + lo as int
  {
    Powers();
    OrBelow(hi, lo, 8);
    Or(Shl(hi, 8), lo)
  }

  /** `(a << 24) | (b << 16) | (c << 8) | d`. */
  function Join4(a: Byte, b: Byte, c: Byte, d: Byte): (w: nat)
    ensures w == 0x1_0000 * Join2(a, b) + Join2(c, d) < 0x1_0000_0000
  {
    JoinedWord(a, b, c, d);
    Or(Or(Or(Shl(a, 24), Shl(b, 16)), Shl(c, 8)), d)
  }

  lemma JoinedWord(a: Byte, b: Byte, c: Byte, d: Byte)
    ensures Or(Or(Or(Shl(a, 24), Shl(b, 16)), Shl(c, 8)), d) == 0x1_0000 * Join2(a, b) + Join2(c, d)
  {
    Powers();
    hide Or, Pow2;
    OrBelow(a, Shl(b, 16), 24);
    OrBelow(Join2(a, b), Shl(c, 8), 16);
    OrBelow(0x1_0000 * (a as int) + 0x100 * (b as int) + c as int, d, 8);
  }

  /** `(w & (0xFF << k)) >> k`. */
  function ByteAt(w: nat, k: nat): (b: Byte)
    ensures b == Low(Shr(w, k), 8)
  {
    Powers();
    MaskedField(w, 8, k);
    LowBound(Shr(w, k), 8);
    Shr(And(w, Shl(0xFF, k)), k)
  }

  lemma ByteIs(w: nat, k: nat, p: nat)
    requires Pow2(k) == p
    ensures p > 0 && ByteAt(w, k) == w / p % 0x100
  {
    Powers();
    hide And, Bit;
  }

  lemma BytesOfUnit(u: Unit)
    ensures ByteAt(u, 0) == u % 0x100 && ByteAt(u, 8) == u / 0x100
  {
    Powers();
    ByteIs(u, 0, 1);
    ByteIs(u, 8, 0x100);
    hide *;
  }

  lemma BytesOfWord(w: nat)
    requires w < 0x1_0000_0000
    ensures ByteAt(w, 0) == w % 0x1_0000 % 0x100 && ByteAt(w, 8) == w % 0x1_0000 / 0x100
    ensures ByteAt(w, 16) == w / 0x1_0000 % 0x100 && ByteAt(w, 24) == w / 0x1_0000 / 0x100
  {
    Powers();
    ByteIs(w, 0, 1);
    ByteIs(w, 8, 0x100);
    ByteIs(w, 16, 0x1_0000);
    ByteIs(w, 24, 0x100_0000);
    hide *;
    QuotientsOfWord(w);
  }

  lemma QuotientsOfWord(w: nat)
    requires w < 0x1_0000_0000
    ensures w % 0x1_0000 % 0x100 == w % 0x100 && w % 0x1_0000 / 0x100 == w / 0x100 % 0x100
    ensures w / 0x100_0000 % 0x100 == w / 0x1_0000 / 0x100
  {
    var d0, d1, d2, d3 := w % 0x100, w / 0x100 % 0x100, w / 0x1_0000 % 0x100, w / 0x100_0000;
    DivModUnique(w, 0x1_0000, w / 0x1_0000, 0x100 * d1 + d0) by {
      DivDiv(w, 0x100, 0x100);
    }
    DivModUnique(0x100 * d1 + d0, 0x100, d1, d0);
    DivDiv(w, 0x1_0000, 0x100);
    assert d3 < 0x100;
  }

  /** The pair of a value beyond the first plane, as the program computes it. */
  lemma PairBits(x: nat)
    ensures Or(0xD800, And(Shr(x, 10), 0x3FF)) == 0xD800 + x / 0x400 % 0x400
    ensures Or(0xDC00, And(x, 0x3FF)) == 0xDC00 + x % 0x400
  {
    Powers();
    AndOnes(Shr(x, 10), 10);
    AndOnes(x, 10);
    LowBound(Shr(x, 10), 10);
    assert Shr(x, 10) == x / 0x400 && Low(x / 0x400, 10) == x / 0x400 % 0x400 && Low(x, 10) == x % 0x400;
    assert Shl(0x36, 10) == 0xD800 && Shl(0x37, 10) == 0xDC00;
    hide *;
    OrBelow(0x36, x / 0x400 % 0x400, 10);
    OrBelow(0x37, x % 0x400, 10);
  }

  function HighUnit(x: nat): (u: Unit)
    ensures u == 0xD800 + x / 0x400 % 0x400
  {
    hide Or, And, Shr;
    PairBits(x);
    Or(0xD800, And(Shr(x, 10), 0x3FF))
  }

  function LowUnit(x: nat): (u: Unit)
    ensures u == 0xDC00 + x % 0x400
  {
    hide Or, And;
    PairBits(x);
    Or(0xDC00, And(x, 0x3FF))
  }

  /** The character whose first unit is `u`. */
  ghost function StepOfUnit(u: Unit, big: bool, s: seq<Byte>, m: Mode): Step
    requires |s| >= 2
  {
    if LowSurrogate(u) then Stop(EILSEQ)
    else if !HighSurrogate(u) then Take(u, 2, m)
    else if |s| < 4 then Stop(EINVAL)
    else if !LowSurrogate(Read2(big, s[2..])) then Stop(EILSEQ)
    else Take(ScalarOf(u, Read2(big, s[2..])), 4, m)
  }

  /** A reading step of a UTF-16 codec, by the unit it looks at. */
  lemma Utf16Step(c: Codec, m: Mode, s: seq<Byte>)
    requires !c.codepage.wide
    ensures |s| < 2 ==> DecodeStep(c, m, s) == Stop(EINVAL)
    ensures |s| >= 2 ==>
              var u := Read2(Order(c, m).big, s);
              DecodeStep(c, m, s) ==
              if c.useBom && !m.bomDone && u == 0xFFFE then Mark(2, Mode(true, true))
              else if c.useBom && !m.bomDone && u == 0xFEFF then Mark(2, Settled(c, m))
              else StepOfUnit(u, Order(c, m).big, s, Settled(c, m))
  {
    hide Read2, ScalarOf, Bom;
    if |s| >= 2 {
      BomAsNumber(Order(c, m), s);
      if |s| >= 4 && HighSurrogate(Read2(Order(c, m).big, s)) && LowSurrogate(Read2(Order(c, m).big, s[2..])) {
        PairStandsFor(Read2(Order(c, m).big, s), Read2(Order(c, m).big, s[2..]));
      }
    }
  }

  /** A reading step of a UTF-32 codec, by the word it looks at. */
  lemma Utf32Step(c: Codec, m: Mode, s: seq<Byte>)
    requires c.codepage.wide
    ensures |s| < 4 ==> DecodeStep(c, m, s) == Stop(EINVAL)
    ensures |s| >= 4 ==>
              var w := Read4(Order(c, m).big, s);
              DecodeStep(c, m, s) ==
              if c.useBom && !m.bomDone && w == 0xFFFE_0000 then Mark(4, Mode(true, true))
              else if c.useBom && !m.bomDone && w == 0xFEFF then Mark(4, Settled(c, m))
              else if 0xD800 <= w <= 0xDFFF || w > 0x10_FFFF then Stop(EILSEQ)
              else Take(w, 4, Settled(c, m))
  {
    hide Read4, Bom;
    if |s| >= 4 {
      BomAsNumber(Order(c, m), s);
    }
  }

  function UnitAt(big: bool, s: seq<Byte>): (u: Unit)
    requires |s| >= 2
    ensures u == Read2(big, s)
  {
    if big then Join2(s[0], s[1]) else Join2(s[1], s[0])
  }

  function WordAt(big: bool, s: seq<Byte>): (w: nat)
    requires |s| >= 4
    ensures w == Read4(big, s)
  {
    if big then Join4(s[0], s[1], s[2], s[3]) else Join4(s[3], s[2], s[1], s[0])
  }

  /** What a reading step delivers: an error, or the size read, the units and the new mode. */
  ghost predicate Delivers(step: Step, e: Status, size: nat, units: seq<Unit>, mode: Mode) {
    match step
    case Stop(status) => e == status
    case Mark(n, m) => e == Done && size == n && units == [] && mode == m
    case Take(v, n, m) => e == Done && size == n && units == Units(v) && mode == m
  }

  const MB_CHAR_MAX: nat := 16

  class CsConv {
    const codec: Codec
    var mode: Mode

    constructor (codepage: Codepage, useBom: bool)
      ensures codec == Codec(codepage, useBom) && mode == START
    {
      codec := Codec(codepage, useBom);
      mode := START;
    }

    /** Reads a character, or a byte order mark, into `wbuf`; the function pointer set for the code page. */
    method MbToWc(buf: array<Byte>, at: nat, bufsize: nat, wbuf: array<Unit>) returns (e: Status, size: nat, wsize: nat)
      requires at + bufsize <= buf.Length && wbuf.Length == MB_CHAR_MAX
      modifies this`mode, wbuf
      ensures wsize <= 2 <= wbuf.Length
      ensures Delivers(DecodeStep(codec, old(mode), buf[at..at + bufsize]), e, size, wbuf[..wsize], mode)
      ensures buf[..] == old(buf[..])
    {
      if codec.codepage.wide {
        e, size, wsize := Utf32MbToWc(buf, at, bufsize, wbuf);
      } else {
        e, size, wsize := Utf16MbToWc(buf, at, bufsize, wbuf);
      }
    }

    method Utf16MbToWc(buf: array<Byte>, at: nat, bufsize: nat, wbuf: array<Unit>)
      returns (e: Status, size: nat, wsize: nat)
      requires at + bufsize <= buf.Length && wbuf.Length == MB_CHAR_MAX && !codec.codepage.wide
      modifies this`mode, wbuf
      ensures wsize <= 2 <= wbuf.Length
      ensures Delivers(DecodeStep(codec, old(mode), buf[at..at + bufsize]), e, size, wbuf[..wsize], mode)
      ensures buf[..] == old(buf[..])
    {
      var s := buf[at..at + bufsize];
      Utf16Step(codec, mode, s);
      hide DecodeStep, ScalarOf, Read2;
      var codepage := Order(codec, mode);
      if bufsize < 2 {
        return EINVAL, 0, 0;
      }
      wbuf[0] := UnitAt(codepage.big, s);
      if codec.useBom && !mode.bomDone {
        mode := mode.(bomDone := true);
        if wbuf[0] == 0xFFFE {
          mode := mode.(swapped := true);
          return Done, 2, 0;
        } else if wbuf[0] == 0xFEFF {
          return Done, 2, 0;
        }
      }
      e, size, wsize := Utf16Char(s, codepage.big, wbuf);
    }

    /** The character whose first unit is in `wbuf`. */
    method Utf16Char(s: seq<Byte>, big: bool, wbuf: array<Unit>) returns (e: Status, size: nat, wsize: nat)
      requires |s| >= 2 && wbuf.Length == MB_CHAR_MAX && wbuf[0] == Read2(big, s)
      modifies wbuf
      ensures wsize <= 2
      ensures Delivers(StepOfUnit(old(wbuf[0]), big, s, mode), e, size, wbuf[..wsize], mode)
    {
      hide ScalarOf, Read2;
      if LowSurrogate(wbuf[0]) {
        return EILSEQ, 0, 0;
      }
      if HighSurrogate(wbuf[0]) {
        if |s| < 4 {
          return EINVAL, 0, 0;
        }
        wbuf[1] := UnitAt(big, s[2..]);
        if !LowSurrogate(wbuf[1]) {
          return EILSEQ, 0, 0;
        }
        PairStandsFor(wbuf[0], wbuf[1]);
        assert wbuf[..2] == [wbuf[0], wbuf[1]];
        return Done, 4, 2;
      }
      return Done, 2, 1;
    }

    method Utf32MbToWc(buf: array<Byte>, at: nat, bufsize: nat, wbuf: array<Unit>)
      returns (e: Status, size: nat, wsize: nat)
      requires at + bufsize <= buf.Length && wbuf.Length == MB_CHAR_MAX && codec.codepage.wide
      modifies this`mode, wbuf
      ensures wsize <= 2 <= wbuf.Length
      ensures Delivers(DecodeStep(codec, old(mode), buf[at..at + bufsize]), e, size, wbuf[..wsize], mode)
      ensures buf[..] == old(buf[..])
    {
      var s := buf[at..at + bufsize];
      Utf32Step(codec, mode, s);
      hide DecodeStep, Read4, Units;
      var codepage := Order(codec, mode);
      if bufsize < 4 {
        return EINVAL, 0, 0;
      }
      var wc := WordAt(codepage.big, s);
      if codec.useBom && !mode.bomDone {
        mode := mode.(bomDone := true);
        if wc == 0xFFFE_0000 {
          mode := mode.(swapped := true);
          return Done, 4, 0;
        } else if wc == 0xFEFF {
          return Done, 4, 0;
        }
      }
      if 0xD800 <= wc <= 0xDFFF || wc > 0x10_FFFF {
        return EILSEQ, 0, 0;
      }
      wsize := Ucs4ToUtf16(wc, wbuf);
      return Done, 4, wsize;
    }

    /** Writes the character held in `wbuf`, after the byte order mark if that is still to come. */
    method WcToMb(wbuf: array<Unit>, wbufsize: nat, buf: array<Byte>, at: nat, bufsize: nat)
      returns (e: Status, size: nat)
      requires wbuf.Length == MB_CHAR_MAX && at + bufsize <= buf.Length
      modifies this`mode, buf
      ensures Wrote(old(buf[..]), buf[..], at, bufsize, e, size, EncodeUnits(codec, old(mode), wbuf[0], wbuf[1]))
      ensures e == Done ==> mode == Settled(codec, old(mode))
    {
      if codec.codepage.wide {
        e, size := Utf32WcToMb(wbuf, wbufsize, buf, at, bufsize);
      } else {
        e, size := Utf16WcToMb(wbuf, wbufsize, buf, at, bufsize);
      }
    }

    method Utf16WcToMb(wbuf: array<Unit>, wbufsize: nat, buf: array<Byte>, at: nat, bufsize: nat)
      returns (e: Status, size: nat)
      requires wbuf.Length == MB_CHAR_MAX && at + bufsize <= buf.Length
      requires !codec.codepage.wide
      modifies this`mode, buf
      ensures Wrote(old(buf[..]), buf[..], at, bufsize, e, size, EncodeUnits(codec, old(mode), wbuf[0], wbuf[1]))
      ensures e == Done ==> mode == Settled(codec, old(mode))
      decreases codec.useBom && !mode.bomDone
    {
      MarkThenChar(codec, mode, wbuf[0], wbuf[1]);
      hide Bytes2, Bytes4, ScalarOf, Wrote, EncodeUnits, UnitBytes, CharBytes;
      if codec.useBom && !mode.bomDone {
        mode := mode.(bomDone := true);
        if bufsize < 2 {
          NothingWritten(buf[..], buf[..], at, bufsize, EncodeUnits(codec, old(mode), wbuf[0], wbuf[1]));
          return E2BIG, 0;
        }
        PutUnit(buf, at, codec.codepage.big, 0xFEFF);
        ghost var marked := buf[..];
        e, size := Utf16WcToMb(wbuf, wbufsize, buf, at + 2, bufsize - 2);
        MarkWritten(old(buf[..]), marked, buf[..], at, bufsize, e, size, Bom(codec.codepage),
                    EncodeUnits(codec, old(mode).(bomDone := true), wbuf[0], wbuf[1]));
        if e != Done {
          return e, 0;
        }
        return Done, size + 2;
      }
      e, size := PutUnits(wbuf, buf, at, bufsize, codec.codepage);
    }

    method Utf32WcToMb(wbuf: array<Unit>, wbufsize: nat, buf: array<Byte>, at: nat, bufsize: nat)
      returns (e: Status, size: nat)
      requires wbuf.Length == MB_CHAR_MAX && at + bufsize <= buf.Length
      requires codec.codepage.wide
      modifies this`mode, buf
      ensures Wrote(old(buf[..]), buf[..], at, bufsize, e, size, EncodeUnits(codec, old(mode), wbuf[0], wbuf[1]))
      ensures e == Done ==> mode == Settled(codec, old(mode))
      decreases codec.useBom && !mode.bomDone
    {
      MarkThenChar(codec, mode, wbuf[0], wbuf[1]);
      hide Bytes2, Bytes4, ScalarOf, Wrote, EncodeUnits, UnitBytes, CharBytes;
      if codec.useBom && !mode.bomDone {
        mode := mode.(bomDone := true);
        if bufsize < 4 {
          NothingWritten(buf[..], buf[..], at, bufsize, EncodeUnits(codec, old(mode), wbuf[0], wbuf[1]));
          return E2BIG, 0;
        }
        PutWord(buf, at, codec.codepage.big, 0xFEFF);
        ghost var marked := buf[..];
        e, size := Utf32WcToMb(wbuf, wbufsize, buf, at + 4, bufsize - 4);
        MarkWritten(old(buf[..]), marked, buf[..], at, bufsize, e, size, Bom(codec.codepage),
                    EncodeUnits(codec, old(mode).(bomDone := true), wbuf[0], wbuf[1]));
        if e != Done {
          return e, 0;
        }
        return Done, size + 4;
      }
      if bufsize < 4 {
        NothingWritten(buf[..], buf[..], at, bufsize, UnitBytes(codec.codepage, wbuf[0], wbuf[1]));
        return E2BIG, 0;
      }
      var wc := Utf16ToUcs4(wbuf[0], wbuf[1]);
      PutWord(buf, at, codec.codepage.big, wc);
      AllWritten(old(buf[..]), buf[..], at, bufsize, UnitBytes(codec.codepage, wbuf[0], wbuf[1]));
      return Done, 4;
    }
  }

  /** Within `room` bytes from `at` on `bytes` were written, if they fit; all around is as before. */
  ghost predicate Wrote(before: seq<Byte>, after: seq<Byte>, at: nat, room: nat, e: Status, size: nat,
                        bytes: seq<Byte>) {
    && at + room <= |before| == |after|
    && e == (if |bytes| <= room then Done else E2BIG)
    && (e == Done ==> size == |bytes| && after[at..at + size] == bytes)
    && after[..at] == before[..at] && after[at + room..] == before[at + room..]
  }

  lemma NothingWritten(before: seq<Byte>, after: seq<Byte>, at: nat, room: nat, bytes: seq<Byte>)
    requires at + room <= |before| == |after| && |bytes| > room
    requires after[..at] == before[..at] && after[at + room..] == before[at + room..]
    ensures Wrote(before, after, at, room, E2BIG, 0, bytes)
  {
  }

  lemma AllWritten(before: seq<Byte>, after: seq<Byte>, at: nat, room: nat, bytes: seq<Byte>)
    requires at + |bytes| <= at + room <= |before| == |after|
    requires after[..at] == before[..at] && after[at..at + |bytes|] == bytes
    requires after[at + |bytes|..] == before[at + |bytes|..]
    ensures Wrote(before, after, at, room, Done, |bytes|, bytes)
  {
    TailOfTail(before, at + |bytes|, at + room);
    TailOfTail(after, at + |bytes|, at + room);
  }

  lemma MarkWritten(before: seq<Byte>, marked: seq<Byte>, after: seq<Byte>, at: nat, room: nat, e: Status, size: nat,
                    bom: seq<Byte>, bytes: seq<Byte>)
    requires at + |bom| <= at + room <= |before| == |marked|
    requires marked[..at] == before[..at] && marked[at..at + |bom|] == bom
    requires marked[at + |bom|..] == before[at + |bom|..]
    requires Wrote(marked, after, at + |bom|, room - |bom|, e, size, bytes)
    ensures Wrote(before, after, at, room, e, if e == Done then size + |bom| else 0, bom + bytes)
  {
    TailOfTail(before, at + |bom|, at + room);
    TailOfTail(marked, at + |bom|, at + room);
    PartsKept(marked, after, at, at + |bom|);
    if e == Done {
      var b := at + |bom|;
      assert after[at..b + size] == after[at..b] + after[b..b + size];
    }
  }

  /** The bytes written for one or two units, with the mark before the first ones. */
  function EncodeUnits(c: Codec, m: Mode, first: Unit, second: Unit): seq<Byte> {
    (if c.useBom && !m.bomDone then Bom(c.codepage) else []) + UnitBytes(c.codepage, first, second)
  }

  lemma MarkThenChar(c: Codec, m: Mode, first: Unit, second: Unit)
    ensures EncodeUnits(c, m, first, second) ==
            if c.useBom && !m.bomDone then Bom(c.codepage) + EncodeUnits(c, m.(bomDone := true), first, second)
            else UnitBytes(c.codepage, first, second)
    ensures Bom(c.codepage) ==
            if c.codepage.wide then Bytes4(c.codepage.big, 0xFEFF) else Bytes2(c.codepage.big, 0xFEFF)
    ensures c.codepage.wide ==>
              UnitBytes(c.codepage, first, second) == Bytes4(c.codepage.big, ScalarOf(first, second))
  {
    hide ScalarOf;
    assert [] + UnitBytes(c.codepage, first, second) == UnitBytes(c.codepage, first, second);
  }

  /** For the units of a character these are the bytes of its writing step. */
  lemma EncodeUnitsOfChar(c: Codec, m: Mode, v: Scalar, wbuf: seq<Unit>, n: nat)
    requires n <= |wbuf| && |wbuf| >= 2 && wbuf[..n] == Units(v)
    ensures EncodeUnits(c, m, wbuf[0], wbuf[1]) == EncodeStep(c, m, v)
  {
    hide UnitBytes, CharBytes;
    assert wbuf[0] == wbuf[..n][0] && (n == 2 ==> wbuf[1] == wbuf[..n][1]);
    UnitBytesOfChar(c.codepage, v, wbuf[1]);
  }

  lemma OneWritten(before: seq<Byte>, begun: seq<Byte>, at: nat, room: nat, bytes: seq<Byte>)
    requires at + 2 <= at + room <= |before| == |begun| && |bytes| > room
    requires begun[..at] == before[..at] && begun[at + 2..] == before[at + 2..]
    ensures Wrote(before, begun, at, room, E2BIG, 0, bytes)
  {
    TailOfTail(before, at + 2, at + room);
    TailOfTail(begun, at + 2, at + room);
  }

  lemma TwoWritten(before: seq<Byte>, begun: seq<Byte>, after: seq<Byte>, at: nat, room: nat, a: seq<Byte>,
                   b: seq<Byte>)
    requires at + |a| + |b| <= at + room <= |before| == |begun| == |after|
    requires begun[..at] == before[..at] && begun[at + |a|..] == before[at + |a|..] && begun[at..at + |a|] == a
    requires after[..at + |a|] == begun[..at + |a|] && after[at + |a|..at + |a| + |b|] == b
    requires after[at + |a| + |b|..] == begun[at + |a| + |b|..]
    ensures Wrote(before, after, at, room, Done, |a| + |b|, a + b)
  {
    var m, n := at + |a|, at + |a| + |b|;
    PartsKept(begun, after, at, m);
    TailOfTail(before, m, n);
    TailOfTail(begun, m, n);
    assert after[at..n] == after[at..m] + after[m..n];
    AllWritten(before, after, at, room, a + b);
  }

  /** Writes one unit or two. */
  method PutUnits(wbuf: array<Unit>, buf: array<Byte>, at: nat, bufsize: nat, cp: Codepage)
    returns (e: Status, size: nat)
    requires wbuf.Length == MB_CHAR_MAX && at + bufsize <= buf.Length && !cp.wide
    modifies buf
    ensures Wrote(old(buf[..]), buf[..], at, bufsize, e, size, UnitBytes(cp, wbuf[0], wbuf[1]))
  {
    hide Bytes2, ScalarOf, Wrote;
    if bufsize < 2 {
      NothingWritten(buf[..], buf[..], at, bufsize, UnitBytes(cp, wbuf[0], wbuf[1]));
      return E2BIG, 0;
    }
    PutUnit(buf, at, cp.big, wbuf[0]);
    if HighSurrogate(wbuf[0]) {
      ghost var begun := buf[..];
      if bufsize < 4 {
        OneWritten(old(buf[..]), begun, at, bufsize, UnitBytes(cp, wbuf[0], wbuf[1]));
        return E2BIG, 0;
      }
      PutUnit(buf, at + 2, cp.big, wbuf[1]);
      TwoWritten(old(buf[..]), begun, buf[..], at, bufsize, Bytes2(cp.big, wbuf[0]), Bytes2(cp.big, wbuf[1]));
      return Done, 4;
    }
    AllWritten(old(buf[..]), buf[..], at, bufsize, UnitBytes(cp, wbuf[0], wbuf[1]));
    return Done, 2;
  }

  lemma TailOfTail(s: seq<Byte>, a: nat, b: nat)
    requires a <= b <= |s|
    ensures s[a..][b - a..] == s[b..]
  {
  }

  lemma PartsKept(before: seq<Byte>, after: seq<Byte>, a: nat, b: nat)
    requires a <= b <= |before| && b <= |after| && after[..b] == before[..b]
    ensures after[..a] == before[..a] && after[a..b] == before[a..b]
  {
    assert after[..b][..a] == after[..a] && before[..b][..a] == before[..a];
    assert after[..b][a..] == after[a..b] && before[..b][a..] == before[a..b];
  }

  method PutUnit(buf: array<Byte>, at: nat, big: bool, u: Unit)
    requires at + 2 <= buf.Length
    modifies buf
    ensures buf[..at] == old(buf[..at]) && buf[at + 2..] == old(buf[at + 2..])
    ensures buf[at..at + 2] == Bytes2(big, u)
  {
    BytesOfUnit(u);
    hide ByteAt;
    if big {
      buf[at], buf[at + 1] := ByteAt(u, 8), ByteAt(u, 0);
    } else {
      buf[at], buf[at + 1] := ByteAt(u, 0), ByteAt(u, 8);
    }
  }

  method PutWord(buf: array<Byte>, at: nat, big: bool, wc: nat)
    requires at + 4 <= buf.Length && wc < 0x1_0000_0000
    modifies buf
    ensures buf[..at] == old(buf[..at]) && buf[at + 4..] == old(buf[at + 4..])
    ensures buf[at..at + 4] == Bytes4(big, wc)
  {
    BytesOfWord(wc);
    hide ByteAt;
    if big {
      buf[at], buf[at + 1], buf[at + 2], buf[at + 3] := ByteAt(wc, 24), ByteAt(wc, 16), ByteAt(wc, 8), ByteAt(wc, 0);
    } else {
      buf[at], buf[at + 1], buf[at + 2], buf[at + 3] := ByteAt(wc, 0), ByteAt(wc, 8), ByteAt(wc, 16), ByteAt(wc, 24);
    }
  }

  method Ucs4ToUtf16(wc: nat, wbuf: array<Unit>) returns (wbufsize: nat)
    requires wc < 0x1_0000_0000 && wbuf.Length == MB_CHAR_MAX
    modifies wbuf
    ensures wbufsize <= 2
    ensures wbuf[..wbufsize] ==
            if wc < 0x1_0000 then [wc]
            else [0xD800 + (wc - 0x1_0000) / 0x400 % 0x400, 0xDC00 + (wc - 0x1_0000) % 0x400]
    ensures wc < 0xD800 || 0xE000 <= wc < 0x11_0000 ==> wbuf[..wbufsize] == Units(wc)
  {
    hide HighUnit, LowUnit;
    if wc < 0x1_0000 {
      wbuf[0] := wc;
      return 1;
    }
    var x := wc - 0x1_0000;
    wbuf[0] := HighUnit(x);
    wbuf[1] := LowUnit(x);
    if wc < 0x11_0000 {
      HighPartFits(wc);
    }
    return 2;
  }

  lemma HighPartFits(wc: nat)
    requires 0x1_0000 <= wc < 0x11_0000
    ensures (wc - 0x1_0000) / 0x400 % 0x400 == (wc - 0x1_0000) / 0x400
  {
  }

  lemma TenBits(u: Unit)
    ensures And(u, 0x3FF) == u % 0x400 && Shl(And(u, 0x3FF), 10) == u % 0x400 * 0x400
  {
    Powers();
    AndOnes(u, 10);
  }

  function Utf16ToUcs4(first: Unit, second: Unit): (wc: nat)
    ensures wc == ScalarOf(first, second)
  {
    TenBits(first);
    TenBits(second);
    hide And, Shl;
    if HighSurrogate(first) then Shl(And(first, 0x3FF), 10) + And(second, 0x3FF) + 0x1_0000 else first
  }

  /** A conversion under way: after `used` bytes read and `out` written, `rest` is still to come. */
  ghost predicate UnderWay(whole: Run, used: nat, out: seq<Byte>, rest: Run) {
    whole == Then(used, out, rest)
  }

  lemma NotBegun(whole: Run)
    ensures UnderWay(whole, 0, [], whole)
  {
    assert [] + whole.out == whole.out;
  }

  lemma OneFurther(whole: Run, used: nat, out: seq<Byte>, n: nat, bytes: seq<Byte>, rest: Run)
    requires UnderWay(whole, used, out, Then(n, bytes, rest))
    ensures UnderWay(whole, used + n, out + bytes, rest)
  {
    ThenThen(used, out, n, bytes, rest);
  }

  lemma AtEnd(whole: Run, used: nat, out: seq<Byte>, rest: Run)
    requires UnderWay(whole, used, out, rest) && rest.used == 0 && rest.out == []
    ensures whole == rest.(used := used, out := out)
  {
    assert out + [] == out;
  }

  lemma StepsOfConversion(fc: Codec, tc: Codec, fm: Mode, tm: Mode, s: seq<Byte>, room: nat)
    requires s != []
    ensures match DecodeStep(fc, fm, s)
            case Stop(status) => Converted(fc, tc, fm, tm, s, room) == Run(status, 0, [], fm, tm)
            case Mark(n, fm') =>
              Converted(fc, tc, fm, tm, s, room) == Then(n, [], Converted(fc, tc, fm', tm, s[n..], room))
            case Take(v, n, fm') =>
              Converted(fc, tc, fm, tm, s, room) ==
              var bytes := EncodeStep(tc, tm, v);
              if |bytes| > room then Run(E2BIG, 0, [], fm, tm)
              else Then(n, bytes, Converted(fc, tc, fm', Settled(tc, tm), s[n..], room - |bytes|))
  {
    hide DecodeStep, EncodeStep;
  }

  lemma ConversionOfNothing(fc: Codec, tc: Codec, fm: Mode, tm: Mode, room: nat)
    ensures Converted(fc, tc, fm, tm, [], room) == Run(Done, 0, [], fm, tm)
  {
  }

  lemma WhatWasDelivered(step: Step, e: Status, size: nat, units: seq<Unit>, mode: Mode)
    requires Delivers(step, e, size, units, mode)
    requires step.Stop? ==> step.status == EINVAL || step.status == EILSEQ
    ensures e != Done ==> step == Stop(e)
    ensures e == Done && |units| == 0 ==> step == Mark(size, mode)
    ensures e == Done && |units| != 0 ==> step.Take? && step == Take(step.v, size, mode) && units == Units(step.v)
  {
  }

  lemma WhatWasWritten(before: seq<Byte>, after: seq<Byte>, at: nat, room: nat, e: Status, size: nat, bytes: seq<Byte>)
    requires Wrote(before, after, at, room, e, size, bytes)
    ensures e == (if |bytes| <= room then Done else E2BIG) && |before| == |after| && at + room <= |after|
    ensures after[..at] == before[..at] && after[at + room..] == before[at + room..]
    ensures e == Done ==> size == |bytes| && after[at..at + size] == bytes
  {
  }

  lemma TwoSlices(s: seq<Byte>, a: nat, b: nat, c: nat)
    requires a <= b <= c <= |s|
    ensures s[a..c] == s[a..b] + s[b..c]
  {
  }

  lemma RestOfSlice(b: seq<Byte>, lo: nat, hi: nat, k: nat)
    requires lo + k <= hi <= |b|
    ensures b[lo..hi][k..] == b[lo + k..hi]
  {
  }

  /** Writes the units of the character `v`. */
  method PutChar(cv: CsConv, wbuf: array<Unit>, wbufsize: nat, buf: array<Byte>, at: nat, bufsize: nat, ghost v: Scalar)
    returns (e: Status, size: nat)
    requires wbufsize <= wbuf.Length == MB_CHAR_MAX && wbuf[..wbufsize] == Units(v) && at + bufsize <= buf.Length
    modifies cv`mode, buf
    ensures Wrote(old(buf[..]), buf[..], at, bufsize, e, size, EncodeStep(cv.codec, old(cv.mode), v))
    ensures e == Done ==> cv.mode == Settled(cv.codec, old(cv.mode))
  {
    hide Wrote, EncodeUnits, EncodeStep, Units;
    EncodeUnitsOfChar(cv.codec, cv.mode, v, wbuf[..], wbufsize);
    e, size := cv.WcToMb(wbuf, wbufsize, buf, at, bufsize);
  }

  class Converter {
    const from: CsConv
    const to: CsConv

    constructor (from: CsConv, to: CsConv)
      ensures this.from == from && this.to == to
    {
      this.from, this.to := from, to;
    }

    /** A call without input starts the conversion afresh. */
    method Reset()
      modifies from`mode, to`mode
      ensures from.mode == START && to.mode == START
    {
      from.mode, to.mode := START, START;
    }

    /** Moves characters from `inbuf` to `outbuf` until the input ends or a character cannot be moved. */
    method Convert(inbuf: array<Byte>, inPos: nat, inBytes: nat, outbuf: array<Byte>, outPos: nat, outBytes: nat)
      returns (e: Status, inAt: nat, inLeft: nat, outAt: nat, outLeft: nat)
      requires from != to && inbuf != outbuf
      requires inPos + inBytes <= inbuf.Length && outPos + outBytes <= outbuf.Length
      modifies from`mode, to`mode, outbuf
      ensures var r := Converted(from.codec, to.codec, old(from.mode), old(to.mode),
                                 old(inbuf[inPos..inPos + inBytes]), outBytes);
              && e == r.status && from.mode == r.from && to.mode == r.to
              && inAt == inPos + r.used && inLeft == inBytes - r.used
              && outAt == outPos + |r.out| && outLeft == outBytes - |r.out|
              && outAt <= outbuf.Length && outbuf[outPos..outAt] == r.out
      ensures outbuf[..outPos] == old(outbuf[..outPos])
      ensures outbuf[outPos + outBytes..] == old(outbuf[outPos + outBytes..])
    {
      hide *;
      ghost var s := inbuf[inPos..inPos + inBytes];
      ghost var whole := Converted(from.codec, to.codec, from.mode, to.mode, s, outBytes);
      var wbuf := new Unit[MB_CHAR_MAX];
      inAt, inLeft, outAt, outLeft := inPos, inBytes, outPos, outBytes;
      NotBegun(whole);
      assert outbuf[outPos..outAt] == [] && s[inAt - inPos..] == s;
      while inLeft != 0
        invariant inPos <= inAt && outPos <= outAt
        invariant inAt + inLeft == inPos + inBytes && outAt + outLeft == outPos + outBytes
        invariant inbuf[inPos..inPos + inBytes] == s
        invariant outbuf[..outPos] == old(outbuf[..outPos])
        invariant outbuf[outPos + outBytes..] == old(outbuf[outPos + outBytes..])
        invariant UnderWay(whole, inAt - inPos, outbuf[outPos..outAt],
                           Converted(from.codec, to.codec, from.mode, to.mode, s[inAt - inPos..], outLeft))
        decreases inLeft
      {
        ghost var used, out, outs := inAt - inPos, outbuf[outPos..outAt], outbuf[..];
        ghost var now := Converted(from.codec, to.codec, from.mode, to.mode, s[used..], outLeft);
        RestOfSlice(inbuf[..], inPos, inPos + inBytes, used);
        var insize, outsize;
        e, insize, outsize := MoveChar(inbuf, inAt, inLeft, wbuf, outbuf, outAt, outLeft);
        PartsKept(outs, outbuf[..], outPos, outAt);
        if e != Done {
          AtEnd(whole, used, out, now);
          return;
        }
        TailOfTail(s, used, used + insize);
        OneFurther(whole, used, out, insize, outbuf[outAt..outAt + outsize],
                   Converted(from.codec, to.codec, from.mode, to.mode, s[used..][insize..], outLeft - outsize));
        TwoSlices(outbuf[..], outPos, outAt, outAt + outsize);
        inAt := inAt + insize;
        outAt := outAt + outsize;
        inLeft := inLeft - insize;
        outLeft := outLeft - outsize;
      }
      e := Done;
      ConversionOfNothing(from.codec, to.codec, from.mode, to.mode, outLeft);
      AtEnd(whole, inAt - inPos, outbuf[outPos..outAt],
            Converted(from.codec, to.codec, from.mode, to.mode, [], outLeft));
    }

    /** One turn of the loop: moves one character or skips a mark; a character that cannot be moved
        leaves both modes as they were. */
    method MoveChar(inbuf: array<Byte>, inAt: nat, inLeft: nat, wbuf: array<Unit>, outbuf: array<Byte>,
                    outAt: nat, outLeft: nat)
      returns (e: Status, insize: nat, outsize: nat)
      requires from != to && inbuf != outbuf && wbuf.Length == MB_CHAR_MAX
      requires 0 < inLeft && inAt + inLeft <= inbuf.Length && outAt + outLeft <= outbuf.Length
      modifies from`mode, to`mode, wbuf, outbuf
      ensures inbuf[..] == old(inbuf[..]) && outbuf[..outAt] == old(outbuf[..outAt])
      ensures outbuf[outAt + outLeft..] == old(outbuf[outAt + outLeft..])
      ensures if e == Done then 0 < insize <= inLeft && outsize <= outLeft else insize == outsize == 0
      ensures var s := old(inbuf[inAt..inAt + inLeft]);
              Converted(from.codec, to.codec, old(from.mode), old(to.mode), s, outLeft) ==
              if e != Done then Run(e, 0, [], from.mode, to.mode)
              else Then(insize, outbuf[outAt..outAt + outsize],
                        Converted(from.codec, to.codec, from.mode, to.mode, s[insize..], outLeft - outsize))
      ensures e != Done ==> from.mode == old(from.mode) && to.mode == old(to.mode)
    {
      hide *;
      var frommode, tomode := from.mode, to.mode;
      ghost var s, outs := inbuf[inAt..inAt + inLeft], outbuf[..];
      StepsOfConversion(from.codec, to.codec, frommode, tomode, s, outLeft);
      ghost var step := DecodeStep(from.codec, frommode, s);
      var wsize;
      e, insize, wsize := from.MbToWc(inbuf, inAt, inLeft, wbuf);
      WhatWasDelivered(step, e, insize, wbuf[..wsize], from.mode);
      if e != Done {
        from.mode := frommode;
        return e, 0, 0;
      }
      if wsize == 0 {
        assert outbuf[outAt..outAt + 0] == [];
        return Done, insize, 0;
      }
      e, outsize := PutChar(to, wbuf, wsize, outbuf, outAt, outLeft, step.v);
      WhatWasWritten(outs, outbuf[..], outAt, outLeft, e, outsize, EncodeStep(to.codec, tomode, step.v));
      if e != Done {
        from.mode := frommode;
        to.mode := tomode;
        return e, 0, 0;
      }
    }
  }
}
