/** A request as a client writes it, and what the parser makes of it. */
module RequestRendering {
  import opened HeaderFields
  import opened HttpText
  import opened OneShotParsing
  import opened RequestParsing

  /** A header field; `more` are the lines that its value is continued on. */
  datatype Field = Field(name: string, value: string, more: seq<string>)

  /** A request, perhaps with empty lines before it. */
  datatype Message = Message(
    blanks: nat,
    reqMethod: string,
    path: string,
    version: string,
    fields: seq<Field>,
    body: string
  )

  function Blanks(n: nat): string {
    if n == 0 then "" else CRLF + Blanks(n - 1)
  }

  function RequestLine(m: Message): string {
    m.reqMethod + " " + m.path + " " + m.version + CRLF
  }

  function PieceLine(piece: string): string {
    " " + piece + CRLF
  }

  /** The continuation lines of a field. */
  function Folded(more: seq<string>): string {
    if more == [] then "" else PieceLine(more[0]) + Folded(more[1..])
  }

  function FieldLines(f: Field): string {
    FieldLine(Header(f.name, f.value)) + Folded(f.more)
  }

  function AllLines(fs: seq<Field>): string {
    if fs == [] then "" else FieldLines(fs[0]) + AllLines(fs[1..])
  }

  function Head(m: Message): string {
    Blanks(m.blanks) + RequestLine(m) + AllLines(m.fields) + CRLF
  }

  /** No white space anywhere. */
  predicate Solid(s: string) {
    forall i :: 0 <= i < |s| ==> !IsSpace(s[i])
  }

  /** A continuation that is not taken for a field of its own: a colon may only begin it. */
  predicate CleanPiece(piece: string) {
    piece != "" && CleanValue(piece) && IndexOf(piece, ':') <= 0
  }

  predicate CleanField(f: Field) {
    CleanName(f.name) && CleanValue(f.value) && forall i :: 0 <= i < |f.more| ==> CleanPiece(f.more[i])
  }

  predicate CleanFields(fs: seq<Field>) {
    forall i :: 0 <= i < |fs| ==> CleanField(fs[i])
  }

  /** A request line of three words, the last of them naming the protocol, and clean header fields. */
  predicate WellFormed(m: Message) {
    && m.reqMethod != "" && Solid(m.reqMethod) && Solid(m.path) && Solid(m.version)
    && Find(m.version, "HTTP") != -1 && CleanFields(m.fields)
  }

  /** What a continued field leaves: one entry for each of its lines, the last with the whole value. */
  function Grown(name: string, value: string, more: seq<string>): seq<Header>
    decreases |more|
  {
    [Header(name, value)] + if more == [] then [] else Grown(name, value + " " + more[0], more[1..])
  }

  /** Header fields as they are kept, with names in lower case. */
  function Kept(fs: seq<Field>): seq<Header> {
    if fs == [] then [] else Grown(Lower(fs[0].name), fs[0].value, fs[0].more) + Kept(fs[1..])
  }

  /** The lines of a value, joined by blanks. */
  function Unfolded(value: string, more: seq<string>): string
    decreases |more|
  {
    if more == [] then value else Unfolded(value + " " + more[0], more[1..])
  }

  /** The value of the last field with a name, or nothing. */
  function LastValue(fs: seq<Field>, lower: string): string {
    if fs == [] then ""
    else
      var f := fs[|fs| - 1];
      if Lower(f.name) == lower then Unfolded(f.value, f.more) else LastValue(fs[..|fs| - 1], lower)
  }

  /** What is kept under a name is the whole value of the last field of that name. */
  lemma {:induction false} KeptValue(fs: seq<Field>, lower: string)
    ensures ValueOf(Kept(fs), lower) == LastValue(fs, lower)
    decreases |fs|
  {
    hide Lower, Unfolded;
    if fs != [] {
      var n := |fs| - 1;
      var f := fs[n];
      KeptValue(fs[..n], lower);
      assert fs == fs[..n] + [f];
      KeptOfBoth(fs[..n], [f]);
      assert [f][1..] == [];
      var grown := Grown(Lower(f.name), f.value, f.more);
      assert Kept([f]) == grown + [] == grown;
      GrownValue(Kept(fs[..n]), Lower(f.name), f.value, f.more, lower);
    }
  }

  lemma {:induction false} KeptOfBoth(a: seq<Field>, b: seq<Field>)
    ensures Kept(a + b) == Kept(a) + Kept(b)
    decreases |a|
  {
    hide Lower, Grown;
    if a == [] {
      assert a + b == b && Kept(a) + Kept(b) == Kept(b);
    } else {
      KeptOfBoth(a[1..], b);
      assert (a + b)[1..] == a[1..] + b;
      var g := Grown(Lower(a[0].name), a[0].value, a[0].more);
      assert g + (Kept(a[1..]) + Kept(b)) == g + Kept(a[1..]) + Kept(b);
    }
  }

  lemma {:induction false} GrownValue(h: seq<Header>, name: string, value: string, more: seq<string>, other: string)
    ensures ValueOf(h + Grown(name, value, more), other) ==
            if name == other then Unfolded(value, more) else ValueOf(h, other)
    decreases |more|
  {
    hide *;
    ValueOfLast(h, Header(name, value), other);
    GrownNext(h, name, value, more);
    UnfoldedNext(value, more);
    if more != [] {
      GrownValue(h + [Header(name, value)], name, value + " " + more[0], more[1..], other);
    }
  }

  lemma GrownNext(h: seq<Header>, name: string, value: string, more: seq<string>)
    ensures h + Grown(name, value, more) ==
            h + [Header(name, value)] + if more == [] then [] else Grown(name, value + " " + more[0], more[1..])
    ensures more == [] ==> h + Grown(name, value, more) == h + [Header(name, value)]
  {
    var later := if more == [] then [] else Grown(name, value + " " + more[0], more[1..]);
    assert Grown(name, value, more) == [Header(name, value)] + later;
    hide Grown;
    assert h + ([Header(name, value)] + later) == h + [Header(name, value)] + later;
  }

  lemma UnfoldedNext(value: string, more: seq<string>)
    ensures Unfolded(value, more) == if more == [] then value else Unfolded(value + " " + more[0], more[1..])
  {
  }

  lemma ValueOfLast(h: seq<Header>, f: Header, name: string)
    ensures ValueOf(h + [f], name) == if f.name == name then f.value else ValueOf(h, name)
  {
    assert (h + [f])[..|h|] == h;
  }

  // ----- the request line -----

  lemma SolidIsPlain(s: string)
    requires Solid(s)
    ensures !HasLineBreak(s) && ' ' !in s && Trimmed(s) == s
  {
    assert TrimmedBetween(s, 0, |s|);
    TrimmedIs(s, 0, |s|);
    assert s[0..|s|] == s;
  }

  lemma SplitThree(a: string, b: string, c: string)
    requires ' ' !in a && ' ' !in b && ' ' !in c
    ensures Split(a + " " + b + " " + c, ' ') == [a, b, c]
  {
    hide Split;
    FiveTexts(a, " ", b, " ", c);
    SplitNext(a, ' ', b + " " + c);
    SplitNext(b, ' ', c);
    SplitWhole(c, ' ');
    assert [a] + ([b] + [c]) == [a, b, c];
  }

  lemma FiveTexts(a: string, b: string, c: string, d: string, e: string)
    ensures a + b + c + d + e == a + b + (c + d + e)
  {
  }

  /** The white space of a line is its line break and what is inside. */
  lemma LineTrims(t: string)
    requires t != "" && !IsSpace(t[0]) && !IsSpace(t[|t| - 1])
    ensures Trimmed(t + CRLF) == t
  {
    var u := t + CRLF;
    assert TrimmedBetween(u, 0, |t|);
    TrimmedIs(u, 0, |t|);
    assert u[0..|t|] == t;
  }

  lemma ContainsIsNonempty(s: string)
    requires Find(s, "HTTP") != -1
    ensures s != ""
  {
  }

  /** The text of the request line. */
  function Words(m: Message): string {
    m.reqMethod + " " + m.path + " " + m.version
  }

  lemma WordsArePlain(m: Message)
    requires WellFormed(m)
    ensures Trimmed(Words(m) + CRLF) == Words(m) && !HasLineBreak(Words(m)) && Words(m) != ""
    ensures Split(Words(m), ' ') == [m.reqMethod, m.path, m.version] && Trimmed(m.reqMethod) == m.reqMethod
  {
    ContainsIsNonempty(m.version);
    SolidIsPlain(m.reqMethod);
    SolidIsPlain(m.path);
    SolidIsPlain(m.version);
    SplitThree(m.reqMethod, m.path, m.version);
    hide Find, Split, Trimmed;
    var t := Words(m);
    assert t[0] == m.reqMethod[0] && t[|t| - 1] == m.version[|m.version| - 1];
    LineTrims(t);
    NoReturnInWords(m);
  }

  lemma NoReturnInWords(m: Message)
    requires Solid(m.reqMethod) && Solid(m.path) && Solid(m.version)
    ensures !HasLineBreak(Words(m))
  {
    assert '\r' !in m.reqMethod && '\r' !in m.path && '\r' !in m.version;
    NoReturnNoBreak(Words(m));
  }

  /** A request after `n` bytes of empty lines. */
  function Waiting(n: nat): Request {
    NEW_REQUEST.(currentSize := n)
  }

  /** The request after its first line. */
  function Begun(m: Message): Request {
    NEW_REQUEST.(status := WaitForHeader, currentSize := 2 * m.blanks + |RequestLine(m)|, reqMethod := m.reqMethod,
                 path := m.path, version := m.version)
  }

  lemma RequestLineTaken(limits: Limits, m: Message)
    requires WellFormed(m) && 2 * m.blanks + |RequestLine(m)| <= limits.maxSize
    ensures Taking(limits, Waiting(2 * m.blanks), RequestLine(m)) == Begun(m)
  {
    WordsArePlain(m);
    WholeLine(limits, Waiting(2 * m.blanks), RequestLine(m));
    hide Split, Find, Trimmed, Taking, HasLineBreak, Solid;
    assert RequestLine(m) == Words(m) + CRLF;
    ThreeWords(NEW_REQUEST.(currentSize := 2 * m.blanks + |RequestLine(m)|), m);
  }

  lemma BlankTaken(limits: Limits, r: Request)
    requires Unchecked(r) && r.status == WaitForRequest && r.currentSize + 2 <= limits.maxSize
    ensures Taking(limits, r, CRLF) == r.(currentSize := r.currentSize + 2)
  {
    assert TrimmedBetween(CRLF, 0, 0);
    TrimmedIs(CRLF, 0, 0);
    WholeLine(limits, r, CRLF);
    hide Taking, Trimmed;
  }

  /** An empty line before a request is ignored, but counted. */
  lemma EmptyLineSkipped(limits: Limits, r: Request, s: string)
    requires Sound(limits, r) && r.status == WaitForRequest && r.lineBuffer == "" && r.currentSize + 2 <= limits.maxSize
    ensures Feed(limits, r, CRLF + s) == Feed(limits, r.(currentSize := r.currentSize + 2), s)
  {
    hide *;
    SoundParts(limits, r);
    WaitingIsUnchecked(r);
    BlankTaken(limits, r);
    BreakFirst(s);
    assert "" + CRLF[..1] == CRLF[..1];
    FedLine(limits, r, CRLF + s, 2);
  }

  lemma WaitingIsUnchecked(r: Request)
    requires r.status == WaitForRequest && r.lineBuffer == "" && r.boundary == "" && r.expectedBodySize == 0
    requires r.bodyData == "" && r.file == ""
    ensures Unchecked(r) && InLines(r)
  {
  }

  lemma BreakFirst(s: string)
    ensures var u := CRLF + s; |u| >= 2 && u[..2] == CRLF && u[2..] == s && u[..2][..1] == CRLF[..1]
    ensures |CRLF| == 2 && !HasLineBreak(CRLF[..1])
  {
  }

  lemma {:induction false} BlanksSkipped(limits: Limits, k: nat, n: nat, rest: string)
    requires n + 2 * k <= limits.maxSize
    ensures OneShot(limits, Waiting(n), Blanks(k) + rest) == OneShot(limits, Waiting(n + 2 * k), rest)
    decreases k
  {
    hide OneShot;
    if k == 0 {
      assert "" + rest == rest;
    } else {
      OneBlankSkipped(limits, n, Blanks(k - 1) + rest);
      ThreeTexts(CRLF, Blanks(k - 1), rest);
      BlanksSkipped(limits, k - 1, n + 2, rest);
    }
  }

  lemma OneBlankSkipped(limits: Limits, n: nat, rest: string)
    requires n + 2 <= limits.maxSize
    ensures OneShot(limits, Waiting(n), CRLF + rest) == OneShot(limits, Waiting(n + 2), rest)
  {
    hide OneShot, Taking, IsLine, Unchecked;
    WaitingIsUnchecked(Waiting(n));
    BlankTaken(limits, Waiting(n));
    EmptyLine();
    NextLineParsed(limits, Waiting(n), CRLF, rest);
  }

  /** `t` is three words with one blank between them, and HTTP occurs in the last. */
  ghost predicate IsRequestLine(t: string, a: string, b: string, c: string) {
    && ' ' !in a && ' ' !in b && ' ' !in c && t == a + " " + b + " " + c
    && exists x, y :: c == x + "HTTP" + y
  }

  /** A first line that is not empty is judged: three words that name the protocol, or the request is given up. */
  lemma FirstLineJudged(r: Request, t: string)
    requires t != ""
    ensures forall a, b, c :: IsRequestLine(t, a, b, c) ==>
              WithRequestLine(r, t) ==
              r.(reqMethod := Trimmed(a), path := b, version := c, status := WaitForHeader)
    ensures (forall a, b, c :: !IsRequestLine(t, a, b, c)) ==> WithRequestLine(r, t) == r.(status := Abort)
  {
    hide Split, Find, Trimmed;
    forall a: string, b: string, c: string | IsRequestLine(t, a, b, c)
      ensures WithRequestLine(r, t) ==
              r.(reqMethod := Trimmed(a), path := b, version := c, status := WaitForHeader)
    {
      SplitThree(a, b, c);
      FoundText(c, "HTTP");
    }
    if forall a, b, c :: !IsRequestLine(t, a, b, c) {
      SplitAndJoin(t, ' ');
      var list := Split(t, ' ');
      if |list| == 3 {
        JoinedThree(list);
        FoundText(list[2], "HTTP");
        assert !IsRequestLine(t, list[0], list[1], list[2]);
      }
    }
  }

  lemma JoinedThree(list: seq<string>)
    requires |list| == 3
    ensures Joined(list, ' ') == list[0] + " " + list[1] + " " + list[2]
  {
    assert Joined(list[1..], ' ') == list[1] + [' '] + Joined(list[1..][1..], ' ');
  }

  lemma FoundText(s: string, t: string)
    ensures Find(s, t) != -1 <==> exists x, y :: s == x + t + y
  {
    var k := Find(s, t);
    hide Find;
    if k != -1 {
      FindIsFirst(s, t, k);
      assert s == s[..k] + t + s[k + |t|..];
    }
    if x: string, y: string :| s == x + t + y {
      FindIsFirst(s, t, |x|);
      assert s[|x|..][..|t|] == t;
    }
  }

  /** A request that begins with any other line is given up at once. */
  lemma BadFirstLine(limits: Limits, t: string, s: string)
    requires !HasLineBreak(t) && |t| + 2 <= limits.maxSize && Trimmed(t) != ""
    requires forall a, b, c :: !IsRequestLine(Trimmed(t), a, b, c)
    ensures var x := Feed(limits, NEW_REQUEST, t + CRLF + s); x.request.status == Abort && x.rest == s
  {
    hide *;
    NewIsSound(limits);
    EndsInBreak(t);
    TrimmedBeforeBreak(t);
    BadLineTaken(limits, t);
    NewIsWaiting();
    var line := t + CRLF;
    LineFirst(t, s);
    FedLine(limits, NEW_REQUEST, line + s, |line|);
    FeedStopped(limits, Taking(limits, NEW_REQUEST, line), s);
  }

  lemma NewIsWaiting()
    ensures InLines(NEW_REQUEST) && Reading(NEW_REQUEST) && NEW_REQUEST.lineBuffer == "" && NEW_REQUEST.currentSize == 0
  {
  }

  lemma LineFirst(t: string, s: string)
    requires !HasLineBreak(t)
    ensures var line := t + CRLF;
            && |line| == |t| + 2 && (line + s)[..|line|] == line && (line + s)[|line|..] == s
            && !HasLineBreak("" + line[..|line| - 1])
  {
    LineWithBreak(t);
    hide HasLineBreak;
    var line := t + CRLF;
    assert "" + line[..|line| - 1] == line[..|line| - 1];
  }

  lemma BadLineTaken(limits: Limits, t: string)
    requires Trimmed(t + CRLF) == Trimmed(t) != ""
    requires forall a, b, c :: !IsRequestLine(Trimmed(t), a, b, c)
    ensures Taking(limits, NEW_REQUEST, t + CRLF).status == Abort && !Reading(Taking(limits, NEW_REQUEST, t + CRLF))
  {
    FirstLineJudged(NEW_REQUEST.(currentSize := |t| + 2), Trimmed(t));
    EndsInBreak(t);
    WholeLine(limits, NEW_REQUEST, t + CRLF);
    hide Trimmed, WithRequestLine, IsRequestLine, Taking;
  }

  lemma TrimmedBeforeBreak(t: string)
    ensures Trimmed(t + CRLF) == Trimmed(t)
  {
    TrimmedMeans(t);
    var a: nat, b: nat :| TrimmedBetween(t, a, b) && Trimmed(t) == t[a..b];
    var u := t + CRLF;
    assert forall i :: 0 <= i < |t| ==> u[i] == t[i];
    assert TrimmedBetween(u, a, b);
    TrimmedIs(u, a, b);
    assert u[a..b] == t[a..b];
  }

  lemma ThreeWords(r: Request, m: Message)
    requires Split(Words(m), ' ') == [m.reqMethod, m.path, m.version] && Trimmed(m.reqMethod) == m.reqMethod
    requires Words(m) != "" && Find(m.version, "HTTP") != -1
    ensures WithRequestLine(r, Words(m)) ==
            r.(reqMethod := m.reqMethod, path := m.path, version := m.version, status := WaitForHeader)
  {
    hide Split, Find, Trimmed, Words;
  }

  // ----- the header lines -----

  /** The text of a header line without white space at its end. */
  function FieldText(f: Header): string {
    f.name + ":" + if f.value == "" then "" else " " + f.value
  }

  lemma FieldTrims(f: Header)
    requires CleanName(f.name) && CleanValue(f.value)
    ensures Trimmed(FieldLine(f)) == FieldText(f) && IndexOf(FieldText(f), ':') == |f.name| > 0
    ensures FieldText(f)[..|f.name|] == f.name && Trimmed(FieldText(f)[|f.name| + 1..]) == f.value
  {
    var t, u := FieldText(f), FieldLine(f);
    ValueEnds(f.value);
    var b := |t|;
    assert forall i :: 0 <= i < b ==> u[i] == t[i];
    assert TrimmedBetween(u, 0, b);
    TrimmedIs(u, 0, b);
    assert u[0..b] == t;
    var after := if f.value == "" then "" else " " + f.value;
    assert t == f.name + [':'] + after && t[..|f.name|] == f.name && t[|f.name| + 1..] == after;
    IndexAfter(f.name, ':', after);
    TrimmedAfterSpace(f.value);
  }

  lemma ValueEnds(s: string)
    requires Trimmed(s) == s
    ensures s != "" ==> !IsSpace(s[0]) && !IsSpace(s[|s| - 1])
  {
    TrimmedMeans(s);
    var a: nat, b: nat :| TrimmedBetween(s, a, b) && Trimmed(s) == s[a..b];
    assert a == 0 || s == "";
  }

  /** The request after the first line of a header field. */
  function WithName(r: Request, f: Header): Request {
    r.(currentSize := r.currentSize + |FieldLine(f)|, currentHeader := Lower(f.name),
       headers := r.headers + [Header(Lower(f.name), f.value)])
  }

  lemma FieldTaken(limits: Limits, r: Request, f: Header)
    requires CleanName(f.name) && CleanValue(f.value) && Unchecked(r) && r.status == WaitForHeader
    requires r.currentSize + |FieldLine(f)| <= limits.maxSize
    ensures Taking(limits, r, FieldLine(f)) == WithName(r, f)
  {
    FieldTrims(f);
    WholeLine(limits, r, FieldLine(f));
    hide Trimmed, IndexOf, Lower, Taking, CleanName, CleanValue, FieldText, FieldLine, ValueOf, WithHeadersDone;
  }

  /** The request after a continuation line. */
  function WithPiece(r: Request, piece: string): Request {
    r.(currentSize := r.currentSize + |PieceLine(piece)|,
       headers := r.headers + [Header(r.currentHeader, ValueOf(r.headers, r.currentHeader) + " " + piece)])
  }

  lemma PieceTrims(piece: string)
    requires piece != "" && CleanValue(piece)
    ensures Trimmed(PieceLine(piece)) == piece && IsLine(PieceLine(piece))
  {
    ValueEnds(piece);
    LineTrims(piece);
    assert PieceLine(piece)[1..] == piece + CRLF;
    SpaceIsNoBreak(piece);
    LineWithBreak(" " + piece);
  }

  lemma SpaceIsNoBreak(s: string)
    requires !HasLineBreak(s)
    ensures !HasLineBreak(" " + s)
  {
    var u := " " + s;
    forall i | 0 < i < |u| ensures !(u[i] == '\n' && u[i - 1] == '\r') {
      assert u[i] == s[i - 1] && (i > 1 ==> u[i - 1] == s[i - 2]);
    }
  }

  /** A continuation line is taken as such exactly if no colon stands inside it; it is a field of its own otherwise. */
  lemma ContinuationTaken(limits: Limits, r: Request, piece: string)
    requires Unchecked(r) && r.status == WaitForHeader
    requires exists i :: 0 <= i < |r.headers| && r.headers[i].name == r.currentHeader
    requires piece != "" && CleanValue(piece)
    ensures Taking(limits, r, PieceLine(piece)) ==
            Checked(limits, if IndexOf(piece, ':') <= 0 then WithPiece(r, piece)
                            else var k := IndexOf(piece, ':');
                                 var line := PieceLine(piece);
                                 WithName(r, Header(piece[..k], Trimmed(piece[k + 1..]))).(
                                   currentSize := r.currentSize + |line|))
  {
    assert HasHeader(r.headers, r.currentHeader);
    hide *;
    PieceTrims(piece);
    IsLineEnds(PieceLine(piece));
    ReadingHeader(r);
    WholeLine(limits, r, PieceLine(piece));
    PieceJoins(limits, r, piece);
  }

  /** A line without a name before any header is ignored, but counted. */
  lemma StrayLineIgnored(limits: Limits, r: Request, piece: string)
    requires Unchecked(r) && r.status == WaitForHeader
    requires forall i :: 0 <= i < |r.headers| ==> r.headers[i].name != r.currentHeader
    requires piece != "" && CleanValue(piece) && IndexOf(piece, ':') <= 0
    ensures Taking(limits, r, PieceLine(piece)) ==
            Checked(limits, r.(currentSize := r.currentSize + |PieceLine(piece)|))
  {
    PieceTrims(piece);
    IsLineEnds(PieceLine(piece));
    WholeLine(limits, r, PieceLine(piece));
    assert !HasHeader(r.headers, r.currentHeader);
    hide Trimmed, IndexOf, Lower, Taking, CleanValue, ValueOf, WithHeadersDone, HasHeader, Checked, FieldLine;
    hide PieceLine, IsLine;
  }

  /** Any line with a colon after its first character is a header: the name up to the first colon in small letters but
      otherwise as it is, the value without white space around it. */
  lemma LineIsField(limits: Limits, r: Request, name: string, value: string)
    requires Unchecked(r) && r.status == WaitForHeader && name != "" && ':' !in name
    requires Trimmed(name + ":" + value) == name + ":" + value
    ensures var line := name + ":" + value + CRLF;
            Taking(limits, r, line) ==
            Checked(limits, r.(currentSize := r.currentSize + |line|, currentHeader := Lower(name),
                               headers := r.headers + [Header(Lower(name), Trimmed(value))]))
  {
    hide *;
    var t := name + ":" + value;
    TrimmedBeforeBreak(t);
    ReadingHeader(r);
    EndsInBreak(t);
    WholeLine(limits, r, t + CRLF);
    FieldJoins(limits, r.(currentSize := r.currentSize + |t + CRLF|), name, value);
  }

  lemma EndsInBreak(t: string)
    ensures var s := t + CRLF; |s| >= 2 && s[|s| - 2] == '\r' && s[|s| - 1] == '\n'
  {
  }

  lemma FieldJoins(limits: Limits, r: Request, name: string, value: string)
    requires r.status == WaitForHeader && name != "" && ':' !in name
    ensures WithHeaderLine(limits, r, name + ":" + value) ==
            r.(currentHeader := Lower(name), headers := r.headers + [Header(Lower(name), Trimmed(value))])
  {
    hide Trimmed, IndexOf, Lower, ValueOf, WithHeadersDone, HasHeader;
    IndexAfter(name, ':', value);
    var t := name + ":" + value;
    assert t == name + [':'] + value && t[..|name|] == name && t[|name| + 1..] == value;
  }

  lemma IsLineEnds(s: string)
    requires IsLine(s)
    ensures |s| >= 2 && s[|s| - 2] == '\r' && s[|s| - 1] == '\n'
  {
  }

  lemma ReadingHeader(r: Request)
    requires Unchecked(r) && r.status == WaitForHeader
    ensures r.lineBuffer == "" && Reading(r)
  {
  }

  lemma PieceJoins(limits: Limits, r: Request, piece: string)
    requires r.status == WaitForHeader && HasHeader(r.headers, r.currentHeader) && piece != ""
    ensures var line, k := PieceLine(piece), IndexOf(piece, ':');
            WithHeaderLine(limits, r.(currentSize := r.currentSize + |line|), piece) ==
            if k <= 0 then WithPiece(r, piece)
            else WithName(r, Header(piece[..k], Trimmed(piece[k + 1..]))).(currentSize := r.currentSize + |line|)
  {
    hide Trimmed, IndexOf, Lower, ValueOf, WithHeadersDone, HasHeader, FieldLine, PieceLine;
  }

  /** Such a line, as a field of its own. */
  lemma ColonStartsField(limits: Limits, r: Request)
    requires Unchecked(r) && r.status == WaitForHeader
    requires exists i :: 0 <= i < |r.headers| && r.headers[i].name == r.currentHeader
    ensures Taking(limits, r, PieceLine("b:c")).headers == r.headers + [Header("b", "c")]
  {
    assert "b:c"[1..] == ":c" && IndexOf("b:c", ':') == 1;
    NoReturnNoBreak("b:c");
    assert Trimmed("b:c") == "b:c" && Trimmed("c") == "c" && Lower("b") == "b";
    assert "b:c"[..1] == "b" && "b:c"[2..] == "c";
    hide Taking, ValueOf, Lower, IndexOf, Trimmed, HasLineBreak, PieceLine;
    ContinuationTaken(limits, r, "b:c");
  }

  lemma FieldIsLine(f: Header)
    requires CleanName(f.name) && CleanValue(f.value)
    ensures IsLine(FieldLine(f))
  {
    hide Trimmed;
    CleanNameIsOneLine(f.name, f.value);
    LineWithBreak(f.name + ": " + f.value);
  }

  /** A text with a line break at its end and nowhere else. */
  predicate IsLine(s: string) {
    |s| >= 2 && s[|s| - 2] == '\r' && s[|s| - 1] == '\n' && !HasLineBreak(s[..|s| - 1])
  }

  lemma LineWithBreak(t: string)
    requires !HasLineBreak(t)
    ensures IsLine(t + CRLF)
  {
    var s := t + CRLF;
    var u := s[..|s| - 1];
    assert u == t + ['\r'];
    forall i | 0 < i < |u| ensures !(u[i] == '\n' && u[i - 1] == '\r') {
      assert i < |t| ==> u[i] == t[i] && u[i - 1] == t[i - 1];
    }
  }

  /** Parsing takes the first line and goes on. */
  lemma NextLineParsed(limits: Limits, r: Request, line: string, rest: string)
    requires Unchecked(r) && IsLine(line) && r.currentSize + |line| <= limits.maxSize + 1
    requires r.currentSize <= limits.maxSize
    ensures var q := Taking(limits, r, line);
            OneShot(limits, r, line + rest) ==
            if InLines(q) then (LineTaken(limits, r, line); OneShot(limits, q, rest))
            else if q.status == WaitForBody then OneShotBody(limits, q, rest)
            else Fed(q, rest)
  {
    LineEndOf(line, rest);
    LineTaken(limits, r, line);
    hide Taking, HasLineBreak, LineEnd, OneShotBody;
    var s := line + rest;
    assert s[..|line|] == line && s[|line|..] == rest;
  }

  lemma LineEndOf(line: string, rest: string)
    requires IsLine(line)
    ensures LineEnd(line + rest) == |line|
  {
    var t := line[..|line| - 2];
    assert line[..|line| - 1][0..|line| - 2] == t;
    NoBreakWithin(line[..|line| - 1], 0, |line| - 2);
    FindAfter(t, rest);
    assert line + rest == t + CRLF + rest;
    hide Find;
  }

  /** The continuation lines of one field are parsed. */
  lemma {:induction false} PiecesParsed(limits: Limits, r: Request, h: seq<Header>, value: string, more: seq<string>,
                                        rest: string)
    requires Unchecked(r) && r.status == WaitForHeader && r.headers == h + [Header(r.currentHeader, value)]
    requires forall i :: 0 <= i < |more| ==> CleanPiece(more[i])
    requires r.currentSize + |Folded(more)| <= limits.maxSize
    ensures var q := r.(currentSize := r.currentSize + |Folded(more)|,
                        headers := h + Grown(r.currentHeader, value, more));
            OneShot(limits, r, Folded(more) + rest) == OneShot(limits, q, rest)
    decreases |more|
  {
    hide OneShot, CleanValue, ValueOf, IndexOf, Taking, IsLine, PieceLine, Grown;
    GrownNext(h, r.currentHeader, value, more);
    if more == [] {
      assert "" + rest == rest;
    } else {
      assert CleanPiece(more[0]);
      OnePieceParsed(limits, r, h, value, more[0], Folded(more[1..]) + rest);
      ThreeTexts(PieceLine(more[0]), Folded(more[1..]), rest);
      PiecesParsed(limits, WithPiece(r, more[0]), r.headers, value + " " + more[0], more[1..], rest);
    }
  }

  lemma OnePieceParsed(limits: Limits, r: Request, h: seq<Header>, value: string, piece: string, rest: string)
    requires Unchecked(r) && r.status == WaitForHeader && r.headers == h + [Header(r.currentHeader, value)]
    requires CleanPiece(piece) && r.currentSize + |PieceLine(piece)| <= limits.maxSize
    ensures var q := WithPiece(r, piece);
            && Unchecked(q) && q.status == WaitForHeader && q.currentHeader == r.currentHeader
            && q.headers == r.headers + [Header(r.currentHeader, value + " " + piece)]
            && OneShot(limits, r, PieceLine(piece) + rest) == OneShot(limits, q, rest)
  {
    hide OneShot, CleanValue, ValueOf, IndexOf, Taking, IsLine, PieceLine;
    PieceTrims(piece);
    ValueOfLast(h, Header(r.currentHeader, value), r.currentHeader);
    HasLast(h, Header(r.currentHeader, value));
    ContinuationTaken(limits, r, piece);
    NextLineParsed(limits, r, PieceLine(piece), rest);
  }

  lemma HasLast(h: seq<Header>, f: Header)
    ensures exists i :: 0 <= i < |h + [f]| && (h + [f])[i].name == f.name
  {
    assert (h + [f])[|h|] == f;
  }

  /** The request after a whole header field. */
  function WithField(r: Request, f: Field): Request {
    r.(currentSize := r.currentSize + |FieldLines(f)|, currentHeader := Lower(f.name),
       headers := r.headers + Grown(Lower(f.name), f.value, f.more))
  }

  lemma FieldParsed(limits: Limits, r: Request, f: Field, rest: string)
    requires CleanField(f) && Unchecked(r) && r.status == WaitForHeader
    requires r.currentSize + |FieldLines(f)| <= limits.maxSize
    ensures OneShot(limits, r, FieldLines(f) + rest) == OneShot(limits, WithField(r, f), rest)
  {
    hide FieldLine, OneShot, CleanName, CleanValue, CleanPiece, Lower, Folded, Grown, Taking, IsLine;
    var first := Header(f.name, f.value);
    FieldTaken(limits, r, first);
    FieldIsLine(first);
    NextLineParsed(limits, r, FieldLine(first), Folded(f.more) + rest);
    ThreeTexts(FieldLine(first), Folded(f.more), rest);
    PiecesParsed(limits, WithName(r, first), r.headers, f.value, f.more, rest);
  }

  /** The request after all header fields. */
  function WithFields(r: Request, fs: seq<Field>): Request
    decreases |fs|
  {
    if fs == [] then r else WithFields(WithField(r, fs[0]), fs[1..])
  }

  lemma {:induction false} FieldsParsed(limits: Limits, r: Request, fs: seq<Field>, rest: string)
    requires CleanFields(fs) && Unchecked(r) && r.status == WaitForHeader
    requires r.currentSize + |AllLines(fs)| <= limits.maxSize
    ensures var q := WithFields(r, fs);
            && Unchecked(q) && q.status == WaitForHeader && q.currentSize == r.currentSize + |AllLines(fs)|
            && OneShot(limits, r, AllLines(fs) + rest) == OneShot(limits, q, rest)
    decreases |fs|
  {
    hide FieldLines, OneShot, CleanField, Lower, Grown;
    if fs == [] {
      assert "" + rest == rest;
    } else {
      assert CleanField(fs[0]);
      FieldParsed(limits, r, fs[0], AllLines(fs[1..]) + rest);
      ThreeTexts(FieldLines(fs[0]), AllLines(fs[1..]), rest);
      FieldsParsed(limits, WithField(r, fs[0]), fs[1..], rest);
    }
  }

  lemma {:induction false} FieldsKept(r: Request, fs: seq<Field>)
    ensures var q := WithFields(r, fs);
            && q.headers == r.headers + Kept(fs)
            && q == r.(currentSize := q.currentSize, currentHeader := q.currentHeader, headers := q.headers)
    decreases |fs|
  {
    hide Lower, FieldLines, Grown;
    if fs == [] {
      assert r.headers + [] == r.headers;
    } else {
      FieldsKept(WithField(r, fs[0]), fs[1..]);
      var g := Grown(Lower(fs[0].name), fs[0].value, fs[0].more);
      assert r.headers + g + Kept(fs[1..]) == r.headers + (g + Kept(fs[1..]));
    }
  }

  // ----- the whole request -----

  /** The request when its head has been read, before the empty line is judged. */
  function Filled(m: Message): Request {
    WithFields(Begun(m), m.fields).(currentSize := |Head(m)|)
  }

  /** The head of a written request is read as it was written. */
  lemma HeadParsed(limits: Limits, m: Message, rest: string)
    requires WellFormed(m) && |Head(m)| <= limits.maxSize + 1
    ensures var q := Checked(limits, WithHeadersDone(limits, Filled(m)));
            && OneShot(limits, NEW_REQUEST, Head(m) + rest) ==
               (if q.status == WaitForBody then OneShotBody(limits, q, rest) else Fed(q, rest))
            && Filled(m) == Begun(m).(currentSize := |Head(m)|, currentHeader := Filled(m).currentHeader,
                                      headers := Kept(m.fields))
            && Unchecked(Filled(m)) && !InLines(q)
  {
    hide OneShot, WithHeadersDone, OneShotBody, Checked, RequestLine, AllLines, Blanks, CleanFields, Find, Solid;
    var r := Begun(m);
    var w := WithFields(r, m.fields);
    HeadInParts(m, rest);
    BlanksCount(m.blanks);
    FirstLineParsed(limits, m, AllLines(m.fields) + (CRLF + rest));
    FieldsParsed(limits, r, m.fields, CRLF + rest);
    FieldsKept(r, m.fields);
    hide WithFields, Kept;
    assert [] + Kept(m.fields) == Kept(m.fields);
    EmptyLineParsed(limits, w, rest);
  }

  lemma FirstLineParsed(limits: Limits, m: Message, rest: string)
    requires WellFormed(m) && 2 * m.blanks + |RequestLine(m)| <= limits.maxSize
    ensures OneShot(limits, NEW_REQUEST, Blanks(m.blanks) + (RequestLine(m) + rest)) == OneShot(limits, Begun(m), rest)
  {
    hide OneShot, Find, Solid, CleanFields, HasLineBreak, Blanks, IsLine, Taking;
    BlanksSkipped(limits, m.blanks, 0, RequestLine(m) + rest);
    assert Waiting(0) == NEW_REQUEST;
    WordsArePlain(m);
    LineWithBreak(Words(m));
    assert RequestLine(m) == Words(m) + CRLF;
    RequestLineTaken(limits, m);
    NextLineParsed(limits, Waiting(2 * m.blanks), RequestLine(m), rest);
  }

  lemma {:induction false} BlanksCount(k: nat)
    ensures |Blanks(k)| == 2 * k
  {
    if k > 0 {
      BlanksCount(k - 1);
    }
  }

  lemma HeadInParts(m: Message, rest: string)
    ensures Head(m) + rest == Blanks(m.blanks) + (RequestLine(m) + (AllLines(m.fields) + (CRLF + rest)))
    ensures |Head(m)| == |Blanks(m.blanks)| + |RequestLine(m)| + |AllLines(m.fields)| + 2
  {
    hide AllLines, RequestLine, Blanks;
  }

  lemma EmptyLineParsed(limits: Limits, w: Request, rest: string)
    requires Unchecked(w) && w.status == WaitForHeader && w.currentSize + 2 <= limits.maxSize + 1
    ensures var q := Checked(limits, WithHeadersDone(limits, w.(currentSize := w.currentSize + 2)));
            && !InLines(q)
            && OneShot(limits, w, CRLF + rest) ==
               if q.status == WaitForBody then OneShotBody(limits, q, rest) else Fed(q, rest)
  {
    EmptyLine();
    hide OneShot, OneShotBody, HasLineBreak, IsLine, Taking, Checked, WithHeadersDone, WithHeaderLine;
    var r := w.(currentSize := w.currentSize + 2);
    NextLineParsed(limits, w, CRLF, rest);
    WholeLine(limits, w, CRLF);
    BlankLine(limits, r);
    DoneIsJudged(limits, r);
  }

  lemma EmptyLine()
    ensures IsLine(CRLF)
  {
    NoReturnNoBreak("");
    LineWithBreak("");
    assert "" + CRLF == CRLF;
  }

  lemma DoneIsJudged(limits: Limits, r: Request)
    ensures !InLines(Checked(limits, WithHeadersDone(limits, r)))
  {
    hide ValueOf, BoundaryIn, ToInt;
  }

  lemma BlankLine(limits: Limits, r: Request)
    requires r.status == WaitForHeader
    ensures WithHeaderLine(limits, r, Trimmed(CRLF)) == WithHeadersDone(limits, r)
  {
    assert TrimmedBetween(CRLF, 0, 0);
    TrimmedIs(CRLF, 0, 0);
    hide WithHeadersDone;
  }

  /** The boundary of a multipart body, or nothing. */
  function BoundaryOfFields(m: Message): string {
    BoundaryIn(ValueOf(Kept(m.fields), "content-type"))
  }

  /** Is the head within the limits? That of a multipart request may be one byte longer than others. */
  predicate HeadFits(limits: Limits, m: Message) {
    if BoundaryOfFields(m) == "" then |Head(m)| <= limits.maxSize
    else |Head(m)| <= limits.maxSize + 1 && |Head(m)| <= limits.maxMultiPartSize
  }

  /** Is the body within the limits? */
  predicate BodyFits(limits: Limits, m: Message) {
    if BoundaryOfFields(m) == "" then |Head(m)| + |m.body| <= limits.maxSize
    else m.body == "" || |m.body| < limits.maxMultiPartSize
  }

  predicate Fits(limits: Limits, m: Message) {
    HeadFits(limits, m) && BodyFits(limits, m)
  }

  /** The size announced, none being as good as zero. */
  function Announces(m: Message): int {
    AnnouncedSize(Kept(m.fields))
  }

  /** A well-formed request within the limits, whose headers announce the size of its body. */
  predicate Acceptable(limits: Limits, m: Message) {
    WellFormed(m) && Fits(limits, m) && Announces(m) == |m.body|
  }

  /** A complete request with exactly the method, path, version, headers and body of `m`. */
  predicate IsAsWritten(q: Request, m: Message) {
    && q.status == Complete && q.reqMethod == m.reqMethod && q.path == m.path && q.version == m.version
    && q.headers == Kept(m.fields)
    && (if q.boundary == "" then q.bodyData == m.body && q.file == "" else q.file == m.body && q.bodyData == "")
  }

  /** A well-formed request is read as it was written, however it arrives, and what follows it is left alone, exactly
      if it is within the limits and announces the size of its body; for an empty body a negative size will do as
      well, once something follows. */
  lemma RequestIsRead(limits: Limits, m: Message, rest: string)
    requires WellFormed(m)
    ensures var x := Feed(limits, NEW_REQUEST, Head(m) + m.body + rest);
            x.rest == rest && IsAsWritten(x.request, m) <==>
            Fits(limits, m) && (Announces(m) == |m.body| || (Announces(m) < 0 && m.body == "" && rest != ""))
  {
    hide Feed, IsAsWritten, Fits, Announces, Head, WellFormed, HeadFits, BodyFits;
    var x := Feed(limits, NEW_REQUEST, Head(m) + m.body + rest);
    if Fits(limits, m) {
      HeadThatFits(limits, m);
      if Announces(m) == |m.body| {
        AcceptableIsRead(limits, m, rest);
      } else if Announces(m) < 0 && m.body == "" {
        NegativeSizeIsComplete(limits, m, rest);
        assert Head(m) + m.body == Head(m) && m.(body := "") == m;
        CompleteAsWritten(x.request, m);
      } else if x.rest == rest && IsAsWritten(x.request, m) {
        WhatWasWritten(limits, m, rest);
      }
    } else if x.rest == rest && IsAsWritten(x.request, m) {
      WhatWasWritten(limits, m, rest);
    }
  }

  lemma CompleteAsWritten(q: Request, m: Message)
    ensures IsAsWritten(q, m) ==> q.status == Complete && q.reqMethod == m.reqMethod
    ensures q.status == Complete ==> q.(status := Complete) == q
  {
  }

  lemma HeadThatFits(limits: Limits, m: Message)
    requires Fits(limits, m)
    ensures HeadFits(limits, m) && BodyFits(limits, m)
  {
  }

  /** The size announced is the decimal number that the last `Content-Length` spells, if it fits an `int`; it is zero
      if there is none. */
  lemma AnnouncesMeans(m: Message)
    ensures var s := LastValue(m.fields, "content-length");
            && (s == "" ==> Announces(m) == 0)
            && (IsDecimal(s) ==> Announces(m) == if DecimalValue(s) < 0x8000_0000 then DecimalValue(s) else 0)
            && (forall t :: s == "-" + t && IsDecimal(t) ==>
                  Announces(m) == if DecimalValue(t) <= 0x8000_0000 then 0 - DecimalValue(t) else 0)
  {
    hide *;
    var s := LastValue(m.fields, "content-length");
    KeptValue(m.fields, "content-length");
    AnnouncedIs(Kept(m.fields));
    AnnouncesIs(m);
    if IsDecimal(s) {
      DecimalIsRead(s);
    }
    forall t: string | s == "-" + t && IsDecimal(t)
      ensures Announces(m) == (DecimalIsDigits(t);
                               if DecimalValue(t) <= 0x8000_0000 then 0 - DecimalValue(t) else 0)
    {
      DecimalIsRead(t);
    }
    DecimalIsDigits(s);
  }

  lemma AnnouncedIs(h: seq<Header>)
    ensures AnnouncedSize(h) ==
            if ValueOf(h, "content-length") == "" then 0 else ToInt(ValueOf(h, "content-length"))
  {
    hide ValueOf, ToInt;
  }

  lemma AnnouncesIs(m: Message)
    ensures Announces(m) == AnnouncedSize(Kept(m.fields))
  {
  }

  lemma DecimalIsDigits(s: string)
    ensures IsDecimal(s) ==> s != "" && forall i :: 0 <= i < |s| ==> '0' <= s[i] <= '9'
  {
  }

  lemma DecimalIsRead(s: string)
    requires IsDecimal(s)
    ensures ToInt(s) == if DecimalValue(s) < 0x8000_0000 then DecimalValue(s) else 0
    ensures ToInt("-" + s) == if DecimalValue(s) <= 0x8000_0000 then 0 - DecimalValue(s) else 0
  {
    NothingToTrim(s);
    NothingToTrim("-" + s);
    ToIntMeans(s);
    ToIntMeans("-" + s);
    hide ToInt, Trimmed, DecimalValue;
    assert ("-" + s)[1..] == s;
  }

  /** A well-formed request within the limits is read as it was written if its last `Content-Length` is the decimal
      numeral of the size of its body, or if it has neither. */
  lemma DecimalLengthIsRead(limits: Limits, m: Message, rest: string)
    requires WellFormed(m) && Fits(limits, m) && |m.body| < 0x8000_0000
    requires var s := LastValue(m.fields, "content-length");
             if m.body == "" then s == "" || s == "0" else IsDecimal(s) && DecimalValue(s) == |m.body|
    ensures var x := Feed(limits, NEW_REQUEST, Head(m) + m.body + rest);
            x.rest == rest && IsAsWritten(x.request, m)
  {
    assert IsDecimal("0") && DecimalValue("0") == 0 by { assert "0"[..0] == ""; }
    AnnouncesMeans(m);
    hide Feed, Head, WellFormed, IsAsWritten, Fits, LastValue, DecimalValue, Announces;
    RequestIsRead(limits, m, rest);
  }

  /** A request whose body is announced larger than the limit is given up before it is read. */
  lemma TooLargeIsGivenUp(limits: Limits, m: Message, rest: string)
    requires WellFormed(m) && HeadFits(limits, m)
    requires if BoundaryOfFields(m) == "" then Announces(m) + |Head(m)| > limits.maxSize && Announces(m) > 0
             else Announces(m) > limits.maxMultiPartSize
    ensures var x := Feed(limits, NEW_REQUEST, Head(m) + rest); x.request.status == Abort && x.rest == rest
  {
    NewIsSound(limits);
    hide Find, Solid, CleanFields, ValueOf, BoundaryIn, ToInt, OneShot, Head, Kept, WithFields, Feed;
    FeedIsOneShot(limits, NEW_REQUEST, Head(m) + rest);
    HeadParsed(limits, m, rest);
    hide Filled;
  }

  /** The boundary of a multipart body is what follows the first `boundary=`, without the quotes around it. */
  lemma BoundaryMeans(x: string, b: string)
    requires StartsWith(x + "boundary=" + b, "multipart/form-data")
    requires forall x', b' :: x + "boundary=" + b == x' + "boundary=" + b' ==> |x| <= |x'|
    ensures var found := BoundaryIn(x + "boundary=" + b);
            && (forall c: string :: b == ['"'] + c + ['"'] ==> found == c)
            && (b == "" || b[0] != '"' || b[|b| - 1] != '"' ==> found == b)
            && (b == ['"'] ==> found == "")
  {
    hide Find, StartsWith;
    FirstFound(x, "boundary=", b);
    Unquoted(x, b);
  }

  /** A text is found where it first occurs. */
  lemma FirstFound(x: string, t: string, y: string)
    requires forall x', y' :: x + t + y == x' + t + y' ==> |x| <= |x'|
    ensures Find(x + t + y, t) == |x|
  {
    var s := x + t + y;
    var k := Find(s, t);
    hide Find;
    assert s[|x|..][..|t|] == t;
    FindIsFirst(s, t, |x|);
    assert 0 <= k <= |x|;
    FindIsFirst(s, t, k);
    assert s == s[..k] + t + s[k + |t|..];
  }

  lemma Unquoted(x: string, b: string)
    requires var s := x + "boundary=" + b; StartsWith(s, "multipart/form-data") && Find(s, "boundary=") == |x|
    ensures var found := BoundaryIn(x + "boundary=" + b);
            && (forall c: string :: b == ['"'] + c + ['"'] ==> found == c)
            && (b == "" || b[0] != '"' || b[|b| - 1] != '"' ==> found == b)
            && (b == ['"'] ==> found == "")
  {
    hide Find, StartsWith;
    var s := x + "boundary=" + b;
    assert s[|x| + 9..] == b;
  }

  /** Nothing else has a boundary. */
  lemma BoundaryFound(s: string)
    ensures BoundaryIn(s) != "" ==> StartsWith(s, "multipart/form-data") && exists x, b :: s == x + "boundary=" + b
  {
    hide Find;
    FoundText(s, "boundary=");
  }

  /** What is read as it was written was within the limits and announced its size. */
  lemma WhatWasWritten(limits: Limits, m: Message, rest: string)
    requires var x := Feed(limits, NEW_REQUEST, Head(m) + m.body + rest); x.rest == rest && IsAsWritten(x.request, m)
    ensures Fits(limits, m) && |m.body| == if Announces(m) > 0 then Announces(m) else 0
  {
    hide Find, Solid, CleanFields, ValueOf, BoundaryIn, ToInt, OneShot, Head, Kept, Feed;
    NewIsSound(limits);
    var s := Head(m) + m.body + rest;
    FeedIsOneShot(limits, NEW_REQUEST, s);
    BodyAsAnnounced(limits, NEW_REQUEST, s);
    FedSettles(limits, NEW_REQUEST, s);
    assert |s| == |Head(m)| + |m.body| + |rest|;
    assert "" + m.body == m.body && m.body + "" == m.body;
  }

  lemma AcceptableIsRead(limits: Limits, m: Message, rest: string)
    requires Acceptable(limits, m)
    ensures var x := Feed(limits, NEW_REQUEST, Head(m) + m.body + rest);
            x.rest == rest && IsAsWritten(x.request, m)
  {
    NewIsSound(limits);
    hide Find, Solid, CleanFields, ValueOf, BoundaryIn, ToInt, OneShot, Head, Kept, WithFields, Feed;
    FeedIsOneShot(limits, NEW_REQUEST, Head(m) + m.body + rest);
    HeadParsed(limits, m, m.body + rest);
    assert Head(m) + m.body + rest == Head(m) + (m.body + rest);
    var q := Checked(limits, WithHeadersDone(limits, Filled(m)));
    hide Filled;
    if m.body != "" {
      BodyIsRead(limits, q, m.body, rest);
    } else {
      assert "" + rest == rest;
    }
  }

  lemma BodyIsRead(limits: Limits, q: Request, body: string, rest: string)
    requires q.status == WaitForBody && q.expectedBodySize == |body| > 0 && q.bodyData == "" && q.file == ""
    requires if q.boundary == "" then q.currentSize + |body| <= limits.maxSize
             else q.currentSize <= limits.maxMultiPartSize && |body| < limits.maxMultiPartSize
    ensures var x := OneShotBody(limits, q, body + rest);
            && x.rest == rest
            && x.request == (if q.boundary == ""
                             then q.(status := Complete, bodyData := body, currentSize := q.currentSize + |body|)
                             else q.(status := Complete, file := body))
  {
    var s := body + rest;
    assert s[..|body|] == body && s[|body|..] == rest && "" + body == body;
    hide WithLine;
  }

  /** A multipart request is completed exactly if its body is smaller than the limit for such bodies. */
  lemma MultipartOutcome(limits: Limits, m: Message, rest: string)
    requires WellFormed(m) && HeadFits(limits, m) && Announces(m) == |m.body| > 0 && BoundaryOfFields(m) != ""
    ensures Feed(limits, NEW_REQUEST, Head(m) + m.body + rest).request.status ==
            if |m.body| < limits.maxMultiPartSize then Complete else Abort
  {
    NewIsSound(limits);
    hide Find, Solid, CleanFields, ValueOf, BoundaryIn, ToInt, OneShot, Head, Kept, WithFields, Feed;
    FeedIsOneShot(limits, NEW_REQUEST, Head(m) + m.body + rest);
    HeadParsed(limits, m, m.body + rest);
    ThreeTexts(Head(m), m.body, rest);
    var r := Filled(m);
    MultipartAdmitted(limits, r);
    HeadersDoneIsSound(limits, r);
    var q := Checked(limits, WithHeadersDone(limits, r));
    hide Filled;
    if q.status == WaitForBody {
      var s := m.body + rest;
      assert s[..|m.body|] == m.body;
      MultipartEnd(limits, q, m.body);
      hide Taking;
    }
  }

  /** A negative size is let pass: the request is complete, without a body, exactly when more bytes arrive. */
  lemma NegativeSizeIsComplete(limits: Limits, m: Message, rest: string)
    requires WellFormed(m) && HeadFits(limits, m) && Announces(m) < 0
    ensures var x := Feed(limits, NEW_REQUEST, Head(m) + rest);
            && x.rest == rest && IsAsWritten(x.request.(status := Complete), m.(body := ""))
            && (x.request.status == Complete <==> rest != "")
  {
    NewIsSound(limits);
    hide Find, Solid, CleanFields, ValueOf, BoundaryIn, ToInt, OneShot, Head, Kept, WithFields, Feed;
    FeedIsOneShot(limits, NEW_REQUEST, Head(m) + rest);
    HeadParsed(limits, m, rest);
    HeadIsLong(m);
    var r := Filled(m);
    WhenBodyIsOver(limits, r);
    hide Filled;
    HeadersDoneIsSound(limits, r);
    var q := Checked(limits, WithHeadersDone(limits, r));
    if rest != "" {
      OverIsComplete(limits, q, rest);
      FeedIsOneShotBody(limits, q, rest);
    }
  }

  lemma HeadIsLong(m: Message)
    ensures |Head(m)| > 0
  {
    hide AllLines;
  }

  /** Such a request. */
  lemma NegativeRequest(limits: Limits, rest: string)
    requires limits.maxSize >= 38 && rest != ""
    ensures var m := Message(0, "GET", "/", "HTTP/1.1", [Field("Content-Length", "-1", [])], "");
            var x := Feed(limits, NEW_REQUEST, Head(m) + rest);
            x.rest == rest && x.request.status == Complete && x.request.bodyData == ""
  {
    var m := Message(0, "GET", "/", "HTTP/1.1", [Field("Content-Length", "-1", [])], "");
    NegativeIsWellFormed();
    NegativeIsShort();
    NegativeFields();
    NegativeOne();
    hide WellFormed, Head, Kept, ValueOf, BoundaryIn, ToInt, Feed;
    NegativeSizeIsComplete(limits, m, rest);
  }

  lemma NegativeIsWellFormed()
    ensures WellFormed(Message(0, "GET", "/", "HTTP/1.1", [Field("Content-Length", "-1", [])], ""))
  {
    assert Find("HTTP/1.1", "HTTP") == 0;
    NoReturnNoBreak("-1");
  }

  lemma NegativeIsShort()
    ensures |Head(Message(0, "GET", "/", "HTTP/1.1", [Field("Content-Length", "-1", [])], ""))| == 38
  {
    var f := Field("Content-Length", "-1", []);
    assert [f][1..] == [] && AllLines([f]) == FieldLines(f) + "" && |FieldLines(f)| == 20;
    assert |RequestLine(Message(0, "GET", "/", "HTTP/1.1", [f], ""))| == 16;
  }

  lemma NegativeFields()
    ensures var h := [Header("content-length", "-1")];
            && Kept([Field("Content-Length", "-1", [])]) == h
            && ValueOf(h, "content-length") == "-1" && ValueOf(h, "content-type") == "" && BoundaryIn("") == ""
  {
    assert Lower("Content-Length") == "content-length";
    var f := Field("Content-Length", "-1", []);
    assert [f][1..] == [] && Grown(Lower(f.name), f.value, []) == [Header("content-length", "-1")];
    var h := [Header("content-length", "-1")];
    assert h[..0] == [] && |"content-type"| == 12 && |"content-length"| == 14;
  }

  lemma NegativeOne()
    ensures ToInt("-1") == -1
  {
    assert "-1"[1..] == "1";
    NumberReadBack(1, 10);
    assert Number(1, 10) == "1";
  }
}
