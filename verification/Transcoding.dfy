/** What a conversion between UTF-16 and UTF-32 codecs means: character by character
    with room for only so many bytes, and as a whole, as reading a text and writing it. */
module Transcoding {
  import opened BitStrings
  import opened Unicode

  /** A codec as opened: its code page, and whether it uses a byte order mark. */
  datatype Codec = Codec(codepage: Codepage, useBom: bool)

  /** Has the mark been seen or written, and did it reverse the byte order? */
  datatype Mode = Mode(bomDone: bool, swapped: bool)

  const START := Mode(false, false)

  datatype Status = Done | EINVAL | EILSEQ | E2BIG

  /** One reading step: a character, a mark, or neither. */
  datatype Step = Take(v: Scalar, size: nat, mode: Mode) | Mark(size: nat, mode: Mode) | Stop(status: Status)

  function Order(c: Codec, m: Mode): Codepage {
    if m.swapped then Other(c.codepage) else c.codepage
  }

  function Settled(c: Codec, m: Mode): Mode {
    m.(bomDone := m.bomDone || c.useBom)
  }

  function DecodeStep(c: Codec, m: Mode, s: seq<Byte>): (r: Step)
    ensures if r.Stop? then r.status == EINVAL || r.status == EILSEQ else 0 < r.size <= |s|
  {
    var cp := Order(c, m);
    var n := UnitSize(cp);
    if |s| < n then Stop(EINVAL)
    else if c.useBom && !m.bomDone && s[..n] == Bom(Other(cp)) then Mark(n, Mode(true, true))
    else if c.useBom && !m.bomDone && s[..n] == Bom(cp) then Mark(n, Settled(c, m))
    else match First(cp, s)
      case Char(v, size) => Take(v, size, Settled(c, m))
      case Incomplete => Stop(EINVAL)
      case Illegal => Stop(EILSEQ)
  }

  /** The bytes written for the next character, with the mark before the first one. */
  function EncodeStep(c: Codec, m: Mode, v: Scalar): (s: seq<Byte>)
    ensures 0 < |s| <= 8
  {
    (if c.useBom && !m.bomDone then Bom(c.codepage) else []) + CharBytes(c.codepage, v)
  }

  /** The outcome of a conversion: how it ended, the input used, the output, both modes. */
  datatype Run = Run(status: Status, used: nat, out: seq<Byte>, from: Mode, to: Mode)

  function Then(used: nat, out: seq<Byte>, rest: Run): Run {
    rest.(used := used + rest.used, out := out + rest.out)
  }

  /** A conversion into `room` bytes. */
  function Converted(fc: Codec, tc: Codec, fm: Mode, tm: Mode, s: seq<Byte>, room: nat): (r: Run)
    ensures r.used <= |s| && |r.out| <= room
    decreases |s|
  {
    if s == [] then Run(Done, 0, [], fm, tm)
    else match DecodeStep(fc, fm, s)
      case Stop(status) => Run(status, 0, [], fm, tm)
      case Mark(n, fm') => Then(n, [], Converted(fc, tc, fm', tm, s[n..], room))
      case Take(v, n, fm') =>
        var bytes := EncodeStep(tc, tm, v);
        if |bytes| > room then Run(E2BIG, 0, [], fm, tm)
        else Then(n, bytes, Converted(fc, tc, fm', Settled(tc, tm), s[n..], room - |bytes|))
  }

  /** The text found in the input, and where reading it stopped. */
  datatype Reading = Reading(text: seq<Scalar>, used: nat, status: Status, mode: Mode)

  function ReadText(c: Codec, m: Mode, s: seq<Byte>): (r: Reading)
    ensures r.used <= |s| && r.status != E2BIG && (r.status == Done ==> r.used == |s|)
    decreases |s|
  {
    if s == [] then Reading([], 0, Done, m)
    else match DecodeStep(c, m, s)
      case Stop(status) => Reading([], 0, status, m)
      case Mark(n, m') =>
        var r := ReadText(c, m', s[n..]);
        r.(used := n + r.used)
      case Take(v, n, m') =>
        var r := ReadText(c, m', s[n..]);
        r.(text := [v] + r.text, used := n + r.used)
  }

  /** The byte forms of the characters of a text. */
  function Chars(cp: Codepage, text: seq<Scalar>): seq<Byte> {
    if text == [] then [] else CharBytes(cp, text[0]) + Chars(cp, text[1..])
  }

  /** A text as a codec writes it: the mark, if any, goes before the first character and only there. */
  function WriteText(c: Codec, m: Mode, text: seq<Scalar>): seq<Byte> {
    (if c.useBom && !m.bomDone && text != [] then Bom(c.codepage) else []) + Chars(c.codepage, text)
  }

  /** The conversion with all the room it needs: read the text, then write it. */
  function Whole(fc: Codec, tc: Codec, fm: Mode, tm: Mode, s: seq<Byte>): Run {
    var r := ReadText(fc, fm, s);
    Run(r.status, r.used, WriteText(tc, tm, r.text), r.mode, if r.text == [] then tm else Settled(tc, tm))
  }

  lemma WriteNext(c: Codec, m: Mode, v: Scalar, rest: seq<Scalar>)
    ensures WriteText(c, m, [v] + rest) == EncodeStep(c, m, v) + WriteText(c, Settled(c, m), rest)
  {
    hide CharBytes;
    assert ([v] + rest)[1..] == rest;
  }

  lemma NothingToWrite(c: Codec, m: Mode)
    ensures WriteText(c, m, []) == []
  {
  }

  /** The whole conversion, one step at a time. */
  lemma WholeStep(fc: Codec, tc: Codec, fm: Mode, tm: Mode, s: seq<Byte>)
    requires s != []
    ensures var whole := Whole(fc, tc, fm, tm, s);
            match DecodeStep(fc, fm, s)
            case Stop(status) => whole == Run(status, 0, [], fm, tm)
            case Mark(n, fm') => whole == Then(n, [], Whole(fc, tc, fm', tm, s[n..]))
            case Take(v, n, fm') => whole == Then(n, EncodeStep(tc, tm, v), Whole(fc, tc, fm', Settled(tc, tm), s[n..]))
  {
    hide WriteText, EncodeStep, DecodeStep;
    NothingToWrite(tc, tm);
    match DecodeStep(fc, fm, s)
    case Stop(_) =>
    case Mark(n, fm') =>
      var rest := Whole(fc, tc, fm', tm, s[n..]);
      assert [] + rest.out == rest.out;
    case Take(v, n, fm') =>
      WriteNext(tc, tm, v, ReadText(fc, fm', s[n..]).text);
  }

  lemma WholeOfNothing(fc: Codec, tc: Codec, fm: Mode, tm: Mode)
    ensures Whole(fc, tc, fm, tm, []) == Run(Done, 0, [], fm, tm)
  {
    NothingToWrite(tc, tm);
  }

  lemma ThenThen(a: nat, x: seq<Byte>, b: nat, y: seq<Byte>, rest: Run)
    ensures Then(a, x, Then(b, y, rest)) == Then(a + b, x + y, rest)
  {
    assert x + (y + rest.out) == x + y + rest.out;
  }

  /** Stopping for lack of room and going on from there is the whole conversion; any other end is its end. */
  lemma {:induction false} Resumption(fc: Codec, tc: Codec, fm: Mode, tm: Mode, s: seq<Byte>, room: nat)
    ensures var x := Converted(fc, tc, fm, tm, s, room);
            Whole(fc, tc, fm, tm, s) ==
            if x.status == E2BIG then Then(x.used, x.out, Whole(fc, tc, x.from, x.to, s[x.used..])) else x
    decreases |s|
  {
    hide Whole, EncodeStep, DecodeStep;
    if s == [] {
      WholeOfNothing(fc, tc, fm, tm);
    } else {
      WholeStep(fc, tc, fm, tm, s);
      match DecodeStep(fc, fm, s)
      case Stop(_) =>
      case Mark(n, fm') =>
        ResumptionStep(fc, tc, fm', tm, s, n, [], room);
      case Take(v, n, fm') =>
        var bytes := EncodeStep(tc, tm, v);
        if |bytes| > room {
          FullAtOnce(fc, tc, fm, tm, s);
        } else {
          ResumptionStep(fc, tc, fm', Settled(tc, tm), s, n, bytes, room);
        }
    }
  }

  lemma FullAtOnce(fc: Codec, tc: Codec, fm: Mode, tm: Mode, s: seq<Byte>)
    ensures Then(0, [], Whole(fc, tc, fm, tm, s[0..])) == Whole(fc, tc, fm, tm, s)
  {
    hide Whole;
    assert s[0..] == s;
    assert [] + Whole(fc, tc, fm, tm, s).out == Whole(fc, tc, fm, tm, s).out;
  }

  lemma ResumptionStep(fc: Codec, tc: Codec, fm: Mode, tm: Mode, s: seq<Byte>, n: nat, bytes: seq<Byte>, room: nat)
    requires 0 < n <= |s| && |bytes| <= room
    ensures var x := Then(n, bytes, Converted(fc, tc, fm, tm, s[n..], room - |bytes|));
            Then(n, bytes, Whole(fc, tc, fm, tm, s[n..])) ==
            if x.status == E2BIG then Then(x.used, x.out, Whole(fc, tc, x.from, x.to, s[x.used..])) else x
    decreases |s|, 0
  {
    hide Whole, Converted;
    Resumption(fc, tc, fm, tm, s[n..], room - |bytes|);
    var x := Converted(fc, tc, fm, tm, s[n..], room - |bytes|);
    assert s[n..][x.used..] == s[n + x.used..];
    ThenThen(n, bytes, x.used, x.out, Whole(fc, tc, x.from, x.to, s[n..][x.used..]));
  }

  /** Calls with one output buffer after another, each going on where the last one ran out of room. */
  function Session(fc: Codec, tc: Codec, fm: Mode, tm: Mode, s: seq<Byte>, rooms: seq<nat>): (r: Run)
    requires rooms != []
    ensures r.used <= |s|
    decreases |rooms|
  {
    var x := Converted(fc, tc, fm, tm, s, rooms[0]);
    if x.status != E2BIG || |rooms| == 1 then x
    else Then(x.used, x.out, Session(fc, tc, x.from, x.to, s[x.used..], rooms[1..]))
  }

  /** Whatever the sizes of the buffers, a session that ends other than for lack of room gives
      the bytes, the consumed input, the status and the modes of a single whole conversion. */
  lemma {:induction false} SessionIsWhole(fc: Codec, tc: Codec, fm: Mode, tm: Mode, s: seq<Byte>, rooms: seq<nat>)
    requires rooms != []
    ensures var x := Session(fc, tc, fm, tm, s, rooms);
            Whole(fc, tc, fm, tm, s) ==
            if x.status == E2BIG then Then(x.used, x.out, Whole(fc, tc, x.from, x.to, s[x.used..])) else x
    decreases |rooms|
  {
    hide Whole, Converted;
    Resumption(fc, tc, fm, tm, s, rooms[0]);
    var x := Converted(fc, tc, fm, tm, s, rooms[0]);
    if x.status == E2BIG && |rooms| > 1 {
      var s' := s[x.used..];
      SessionIsWhole(fc, tc, x.from, x.to, s', rooms[1..]);
      var y := Session(fc, tc, x.from, x.to, s', rooms[1..]);
      assert s'[y.used..] == s[x.used + y.used..];
      ThenThen(x.used, x.out, y.used, y.out, Whole(fc, tc, y.from, y.to, s'[y.used..]));
    }
  }

  /** With room for a mark and a character, a call stops for lack of room only after it has used input. */
  lemma RoomForOne(fc: Codec, tc: Codec, fm: Mode, tm: Mode, s: seq<Byte>, room: nat)
    requires room >= 8
    ensures var x := Converted(fc, tc, fm, tm, s, room); x.status == E2BIG ==> x.used > 0
  {
  }

  /** So enough buffers of eight bytes bring every conversion to its end. */
  lemma SessionEnds(fc: Codec, tc: Codec, fm: Mode, tm: Mode, s: seq<Byte>, rooms: seq<nat>)
    requires |rooms| > |s| && forall i :: 0 <= i < |rooms| ==> rooms[i] >= 8
    ensures Session(fc, tc, fm, tm, s, rooms) == Whole(fc, tc, fm, tm, s)
    decreases |rooms|
  {
    hide Whole, Converted, Session;
    SessionIsWhole(fc, tc, fm, tm, s, rooms);
    SessionNotFull(fc, tc, fm, tm, s, rooms);
  }

  lemma {:induction false} SessionNotFull(fc: Codec, tc: Codec, fm: Mode, tm: Mode, s: seq<Byte>, rooms: seq<nat>)
    requires |rooms| > |s| && forall i :: 0 <= i < |rooms| ==> rooms[i] >= 8
    ensures Session(fc, tc, fm, tm, s, rooms).status != E2BIG
    decreases |rooms|
  {
    hide Converted;
    RoomForOne(fc, tc, fm, tm, s, rooms[0]);
    var x := Converted(fc, tc, fm, tm, s, rooms[0]);
    if x.status == E2BIG {
      SessionNotFull(fc, tc, x.from, x.to, s[x.used..], rooms[1..]);
    }
  }

  /** A call fails for lack of room exactly when the whole output does not fit. */
  lemma RoomNeeded(fc: Codec, tc: Codec, fm: Mode, tm: Mode, s: seq<Byte>, room: nat)
    ensures Converted(fc, tc, fm, tm, s, room).status == E2BIG <==> |Whole(fc, tc, fm, tm, s).out| > room
  {
    hide Whole, Converted;
    Resumption(fc, tc, fm, tm, s, room);
    var x := Converted(fc, tc, fm, tm, s, room);
    if x.status == E2BIG {
      NextDoesNotFit(fc, tc, fm, tm, s, room);
    }
  }

  lemma {:induction false} NextDoesNotFit(fc: Codec, tc: Codec, fm: Mode, tm: Mode, s: seq<Byte>, room: nat)
    ensures Converted(fc, tc, fm, tm, s, room).status == E2BIG ==> |Whole(fc, tc, fm, tm, s).out| > room
    decreases |s|
  {
    hide Whole, EncodeStep, DecodeStep;
    if s != [] {
      WholeStep(fc, tc, fm, tm, s);
      match DecodeStep(fc, fm, s)
      case Stop(_) =>
      case Mark(n, fm') =>
        NextDoesNotFit(fc, tc, fm', tm, s[n..], room);
      case Take(v, n, fm') =>
        if |EncodeStep(tc, tm, v)| <= room {
          NextDoesNotFit(fc, tc, fm', Settled(tc, tm), s[n..], room - |EncodeStep(tc, tm, v)|);
        }
    }
  }
}
