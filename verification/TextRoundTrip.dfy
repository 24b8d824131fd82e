/** Texts survive being written in one codec and read, or converted into another. */
module TextRoundTrip {
  import opened BitStrings
  import opened Transcoding
  import opened Unicode

  lemma NextChar(c: Codec, m: Mode, v: Scalar, rest: seq<Byte>)
    requires c.useBom ==> m.bomDone
    ensures DecodeStep(c, m, CharBytes(Order(c, m), v) + rest) == Take(v, |CharBytes(Order(c, m), v)|, m)
  {
    hide CharBytes, First;
    FirstOfChar(Order(c, m), v, rest);
  }

  /** Characters are read back, once the question of the mark is settled. */
  lemma {:induction false} ReadChars(c: Codec, m: Mode, text: seq<Scalar>)
    requires c.useBom ==> m.bomDone
    ensures var s := Chars(Order(c, m), text); ReadText(c, m, s) == Reading(text, |s|, Done, m)
    decreases |text|
  {
    hide CharBytes, DecodeStep;
    if text != [] {
      var cp := Order(c, m);
      var first, rest := CharBytes(cp, text[0]), Chars(cp, text[1..]);
      NextChar(c, m, text[0], rest);
      ReadChars(c, m, text[1..]);
      assert (first + rest)[|first|..] == rest;
      assert [text[0]] + text[1..] == text;
    }
  }

  /** A mark at the start is skipped and sets the byte order. */
  lemma ReadMarked(c: Codec, swapped: bool, text: seq<Scalar>)
    requires c.useBom
    ensures var m := Mode(true, swapped);
            var s := Bom(Order(c, m)) + Chars(Order(c, m), text);
            ReadText(c, START, s) == Reading(text, |s|, Done, m)
  {
    hide Bom, First, Chars;
    var m := Mode(true, swapped);
    var bom, rest := Bom(Order(c, m)), Chars(Order(c, m), text);
    BomsDiffer(c.codepage);
    ReadChars(c, m, text);
    assert (bom + rest)[..|bom|] == bom && (bom + rest)[|bom|..] == rest;
  }

  /** Encoding then decoding is the identity on every text, marks included, even
      for a text that itself begins with U+FEFF. */
  lemma ReadWritten(c: Codec, text: seq<Scalar>)
    ensures var s := WriteText(c, START, text);
            ReadText(c, START, s) == Reading(text, |s|, Done, if text == [] then START else Settled(c, START))
  {
    hide Bom, Chars, ReadText;
    NothingToWrite(c, START);
    if text == [] {
      ReadNothing(c, START);
    } else if c.useBom {
      ReadMarked(c, false, text);
    } else {
      ReadChars(c, START, text);
      assert WriteText(c, START, text) == Chars(c.codepage, text);
    }
  }

  lemma ReadNothing(c: Codec, m: Mode)
    ensures ReadText(c, m, []) == Reading([], 0, Done, m)
  {
  }

  lemma ReadOne(c: Codec, m: Mode, s: seq<Byte>)
    requires s != [] && !DecodeStep(c, m, s).Stop?
    ensures var step := DecodeStep(c, m, s);
            var r := ReadText(c, step.mode, s[step.size..]);
            ReadText(c, m, s) ==
            r.(text := if step.Take? then [step.v] + r.text else r.text, used := step.size + r.used)
  {
    hide DecodeStep;
  }

  lemma CharsNext(cp: Codepage, v: Scalar, text: seq<Scalar>)
    ensures Chars(cp, [v] + text) == CharBytes(cp, v) + Chars(cp, text)
  {
    hide CharBytes;
    assert ([v] + text)[1..] == text;
  }

  lemma TwoParts(s: seq<Byte>, a: nat, b: nat)
    requires a + b <= |s|
    ensures s[..a + b] == s[..a] + s[a..][..b]
  {
  }

  /** A step reads a character's own bytes, or a mark in the byte order it sets. */
  lemma StepSpells(c: Codec, m: Mode, s: seq<Byte>)
    requires !DecodeStep(c, m, s).Stop? && (m.swapped ==> m.bomDone)
    ensures var step := DecodeStep(c, m, s);
            && s[..step.size] == (if step.Take? then CharBytes(Order(c, m), step.v) else Bom(Order(c, step.mode)))
            && (step.Mark? ==> c.useBom && !m.bomDone)
            && (c.useBom ==> step.mode.bomDone)
            && (step.Take? ==> step.mode == Settled(c, m))
  {
    hide CharBytes, First, Bom;
    if DecodeStep(c, m, s).Take? {
      FirstIsChar(Order(c, m), s);
    }
  }

  /** What was read is what the bytes spell. */
  lemma {:induction false} ReadSpells(c: Codec, m: Mode, s: seq<Byte>)
    requires c.useBom ==> m.bomDone
    requires m.swapped ==> m.bomDone
    ensures var r := ReadText(c, m, s); r.mode == m && s[..r.used] == Chars(Order(c, m), r.text)
    decreases |s|
  {
    hide DecodeStep;
    if s != [] && !DecodeStep(c, m, s).Stop? {
      var step := DecodeStep(c, m, s);
      StepSpells(c, m, s);
      ReadSpells(c, m, s[step.size..]);
      ReadOne(c, m, s);
      var r := ReadText(c, m, s[step.size..]);
      hide ReadText, Chars, Settled;
      CharsNext(Order(c, m), step.v, r.text);
      TwoParts(s, step.size, r.used);
    }
  }

  /** From the start: at most one mark, and then the characters of the text in the order it set. */
  lemma ReadSpellsFromStart(c: Codec, s: seq<Byte>)
    ensures var r := ReadText(c, START, s);
            var cp := Order(c, r.mode);
            s[..r.used] == Chars(cp, r.text) || (c.useBom && s[..r.used] == Bom(cp) + Chars(cp, r.text))
  {
    hide DecodeStep;
    if s != [] && !DecodeStep(c, START, s).Stop? {
      var step := DecodeStep(c, START, s);
      StepSpells(c, START, s);
      ReadSpells(c, step.mode, s[step.size..]);
      ReadOne(c, START, s);
      var r := ReadText(c, step.mode, s[step.size..]);
      hide *;
      TwoParts(s, step.size, r.used);
      if step.Take? {
        CharsNext(c.codepage, step.v, r.text);
      }
    }
  }

  /** Where a conversion stopped no character can be read: not yet, or not ever. */
  lemma {:induction false} StoppedWhere(c: Codec, m: Mode, s: seq<Byte>)
    ensures var r := ReadText(c, m, s);
            && (r.status == EILSEQ ==> First(Order(c, r.mode), s[r.used..]) == Illegal)
            && (r.status == EINVAL ==> First(Order(c, r.mode), s[r.used..]) == Incomplete)
    decreases |s|
  {
    hide First;
    if s != [] {
      var step := DecodeStep(c, m, s);
      if step.Stop? {
        assert s[0..] == s;
        StopMeans(c, m, s);
      } else {
        StoppedWhere(c, step.mode, s[step.size..]);
        var r := ReadText(c, step.mode, s[step.size..]);
        assert s[step.size..][r.used..] == s[step.size + r.used..];
      }
    }
  }

  lemma StopMeans(c: Codec, m: Mode, s: seq<Byte>)
    ensures DecodeStep(c, m, s) == Stop(EILSEQ) ==> First(Order(c, m), s) == Illegal
    ensures DecodeStep(c, m, s) == Stop(EINVAL) ==> First(Order(c, m), s) == Incomplete
  {
  }

  /** An illegal start stays illegal however it goes on: it begins no character. */
  lemma IllegalForEver(cp: Codepage, s: seq<Byte>, t: seq<Byte>, v: Scalar)
    requires First(cp, s) == Illegal
    ensures !(CharBytes(cp, v) <= s + t)
  {
    hide First, CharBytes;
    FirstIsStable(cp, s, t);
    if CharBytes(cp, v) <= s + t {
      var n := |CharBytes(cp, v)|;
      assert CharBytes(cp, v) + (s + t)[n..] == s + t;
      FirstOfChar(cp, v, (s + t)[n..]);
    }
  }

  lemma {:induction false} CharsOfEitherOrder(cp: Codepage, cp': Codepage, text: seq<Scalar>)
    requires cp.wide == cp'.wide
    ensures |Chars(cp, text)| == |Chars(cp', text)|
    decreases |text|
  {
    hide CharBytes;
    if text != [] {
      CharsOfEitherOrder(cp, cp', text[1..]);
    }
  }

  /** Without a mark, a codec that uses one reads the text in its own byte order,
      exactly when the first character cannot be taken for a mark. */
  lemma ReadUnmarked(c: Codec, text: seq<Scalar>)
    requires c.useBom && text != []
    ensures ReadText(c, START, Chars(c.codepage, text)).text == text
            <==> text[0] != 0xFEFF && (c.codepage.wide || text[0] != 0xFFFE)
  {
    hide CharBytes, First, ReadText, Bom;
    var cp := c.codepage;
    var s, n := Chars(cp, text), |CharBytes(cp, text[0])|;
    var rest := Chars(cp, text[1..]);
    assert s == CharBytes(cp, text[0]) + rest && s[n..] == rest;
    FirstOfChar(cp, text[0], rest);
    LooksLikeMark(cp, text[0], rest);
    var step := DecodeStep(c, START, s);
    ReadOne(c, START, s);
    if step.Take? {
      ReadChars(c, step.mode, text[1..]);
      assert [text[0]] + text[1..] == text;
    } else {
      var r := ReadText(c, step.mode, s[step.size..]);
      ReadSpells(c, step.mode, s[step.size..]);
      CharsOfEitherOrder(cp, Order(c, step.mode), r.text);
      assert |Chars(cp, r.text)| <= |s| - step.size;
    }
  }

  /** Only these characters begin with a mark. */
  lemma LooksLikeMark(cp: Codepage, v: Scalar, rest: seq<Byte>)
    ensures var s, n := CharBytes(cp, v) + rest, UnitSize(cp);
            |s| >= n && (s[..n] == Bom(cp) || s[..n] == Bom(Other(cp))
                         <==> v == 0xFEFF || (!cp.wide && v == 0xFFFE))
  {
    hide Read2, Read4;
    var s := CharBytes(cp, v) + rest;
    BomAsNumber(cp, s);
    if cp.wide {
      BytesReadBack4(cp.big, v, rest);
    } else if v < 0x1_0000 {
      BytesReadBack2(cp.big, v, rest);
    } else {
      var a, b := Bytes2(cp.big, Units(v)[0]), Bytes2(cp.big, Units(v)[1]);
      assert s == a + (b + rest);
      BytesReadBack2(cp.big, Units(v)[0], b + rest);
    }
  }

  /** Converting a written text writes the same text in the other codec. */
  lemma ConvertWritten(fc: Codec, tc: Codec, text: seq<Scalar>)
    ensures var s, t := WriteText(fc, START, text), WriteText(tc, START, text);
            var x := Whole(fc, tc, START, START, s);
            x.status == Done && x.used == |s| && x.out == t
  {
    hide WriteText, ReadText;
    ReadWritten(fc, text);
  }

  /** Converting there and back again, into any buffers with room for a character, loses nothing. */
  lemma ThereAndBack(fc: Codec, tc: Codec, text: seq<Scalar>, there: seq<nat>, back: seq<nat>)
    requires forall i :: 0 <= i < |there| ==> there[i] >= 8
    requires forall i :: 0 <= i < |back| ==> back[i] >= 8
    requires |there| > |WriteText(fc, START, text)| && |back| > |WriteText(tc, START, text)|
    ensures var s := WriteText(fc, START, text);
            var x := Session(fc, tc, START, START, s, there);
            var y := Session(tc, fc, START, START, x.out, back);
            x.status == y.status == Done && y.out == s
  {
    hide WriteText, Whole, Session;
    var s := WriteText(fc, START, text);
    SessionEnds(fc, tc, START, START, s, there);
    ConvertWritten(fc, tc, text);
    SessionEnds(tc, fc, START, START, WriteText(tc, START, text), back);
    ConvertWritten(tc, fc, text);
  }

  /** Different texts are written differently. */
  lemma WritingIsInjective(c: Codec, a: seq<Scalar>, b: seq<Scalar>)
    requires WriteText(c, START, a) == WriteText(c, START, b)
    ensures a == b
  {
    hide WriteText, ReadText;
    ReadWritten(c, a);
    ReadWritten(c, b);
  }

  lemma StepIsStable(c: Codec, m: Mode, s: seq<Byte>, t: seq<Byte>)
    ensures DecodeStep(c, m, s) != Stop(EINVAL) ==> DecodeStep(c, m, s + t) == DecodeStep(c, m, s)
  {
    hide First, Bom;
    FirstIsStable(Order(c, m), s, t);
    var n := UnitSize(Order(c, m));
    if |s| >= n {
      assert (s + t)[..n] == s[..n];
    }
  }

  /** Input may come in pieces: what a call left unread, followed by more, is where the next call goes on. */
  lemma {:induction false} MoreInput(fc: Codec, tc: Codec, fm: Mode, tm: Mode, s: seq<Byte>, t: seq<Byte>)
    ensures var x := Whole(fc, tc, fm, tm, s);
            Whole(fc, tc, fm, tm, s + t) ==
            if x.status == EILSEQ then x else Then(x.used, x.out, Whole(fc, tc, x.from, x.to, s[x.used..] + t))
    decreases |s|
  {
    hide Whole, EncodeStep, DecodeStep;
    StepIsStable(fc, fm, s, t);
    if s == [] || DecodeStep(fc, fm, s) == Stop(EINVAL) {
      WholeOfNothing(fc, tc, fm, tm);
      if s != [] {
        WholeStep(fc, tc, fm, tm, s);
      }
      assert s[0..] + t == s + t;
      assert [] + Whole(fc, tc, fm, tm, s + t).out == Whole(fc, tc, fm, tm, s + t).out;
    } else {
      WholeStep(fc, tc, fm, tm, s);
      WholeStep(fc, tc, fm, tm, s + t);
      match DecodeStep(fc, fm, s)
      case Stop(status) =>
      case Mark(n, fm') =>
        MoreInputStep(fc, tc, fm', tm, s, t, n, []);
      case Take(v, n, fm') =>
        MoreInputStep(fc, tc, fm', Settled(tc, tm), s, t, n, EncodeStep(tc, tm, v));
    }
  }

  lemma MoreInputStep(fc: Codec, tc: Codec, fm: Mode, tm: Mode, s: seq<Byte>, t: seq<Byte>, n: nat, bytes: seq<Byte>)
    requires 0 < n <= |s|
    ensures var x := Then(n, bytes, Whole(fc, tc, fm, tm, s[n..]));
            Then(n, bytes, Whole(fc, tc, fm, tm, (s + t)[n..])) ==
            if x.status == EILSEQ then x else Then(x.used, x.out, Whole(fc, tc, x.from, x.to, s[x.used..] + t))
    decreases |s|, 0
  {
    hide Whole;
    assert (s + t)[n..] == s[n..] + t;
    MoreInput(fc, tc, fm, tm, s[n..], t);
    WholeUsesInput(fc, tc, fm, tm, s[n..]);
    var x := Whole(fc, tc, fm, tm, s[n..]);
    assert s[n..][x.used..] == s[n + x.used..];
    ThenThen(n, bytes, x.used, x.out, Whole(fc, tc, x.from, x.to, s[n..][x.used..] + t));
  }

  lemma WholeUsesInput(fc: Codec, tc: Codec, fm: Mode, tm: Mode, s: seq<Byte>)
    ensures Whole(fc, tc, fm, tm, s).used <= |s|
  {
  }
}
