/** A request parsed in one go: line by line and then the body, from a stream known as a whole. */
module OneShotParsing {
  import opened HeaderFields
  import opened HttpText
  import opened RequestParsing

  /** The length of the first line with its line break, or 0. */
  function LineEnd(s: string): (n: nat)
    ensures n > 0 ==> 2 <= n <= |s| && s[n - 2] == '\r' && s[n - 1] == '\n' && !HasLineBreak(s[..n - 1])
    ensures n == 0 ==> !HasLineBreak(s)
  {
    var k := Find(s, CRLF);
    FirstBreak(s);
    if k == -1 then 0 else k + 2
  }

  predicate InLines(r: Request) {
    r.status == WaitForRequest || r.status == WaitForHeader
  }

  function OneShot(limits: Limits, r: Request, s: string): Fed
    requires InLines(r) && r.lineBuffer == "" && r.boundary == "" && r.currentSize <= limits.maxSize
    decreases |s|
  {
    var n := LineEnd(s);
    var room := limits.maxSize + 1 - r.currentSize;
    if 0 < n <= room then
      var q := Taking(limits, r, s[..n]);
      LineTaken(limits, r, s[..n]);
      if InLines(q) then OneShot(limits, q, s[n..])
      else if q.status == WaitForBody then OneShotBody(limits, q, s[n..])
      else Fed(q, s[n..])
    else
      var k := if |s| < room then |s| else room;
      Fed(Collected(limits, r, s[..k]), s[k..])
  }

  /** The start of a line: it waits for more, or is too long. */
  function Collected(limits: Limits, r: Request, part: string): Request {
    r.(currentSize := r.currentSize + |part|, lineBuffer := part,
       status := if r.currentSize + |part| > limits.maxSize then Abort else r.status)
  }

  function OneShotBody(limits: Limits, r: Request, s: string): Fed
    requires r.status == WaitForBody
  {
    if s == "" then Fed(r, s)
    else if r.expectedBodySize < 0 then Fed(Taking(limits, r, ""), s)
    else
      var n := if |s| < r.expectedBodySize then |s| else r.expectedBodySize;
      Fed(Taking(limits, r, s[..n]), s[n..])
  }

  /** The body size that the headers announce; none announced, or none understood, is zero. */
  function ContentLength(r: Request): int {
    AnnouncedSize(r.headers)
  }

  function AnnouncedSize(headers: seq<Header>): int {
    var value := ValueOf(headers, "content-length");
    if value != "" then ToInt(value) else 0
  }

  function BoundaryOf(r: Request): string {
    BoundaryIn(ValueOf(r.headers, "content-type"))
  }

  lemma LineTaken(limits: Limits, r: Request, line: string)
    requires InLines(r) && r.lineBuffer == "" && r.boundary == ""
    requires |line| >= 2 && line[|line| - 2] == '\r' && line[|line| - 1] == '\n'
    ensures var q := Taking(limits, r, line);
            && q.lineBuffer == ""
            && (InLines(q) ==> q.boundary == "" && q.currentSize <= limits.maxSize)
            && q.bodyData == r.bodyData && q.file == r.file
            && (r.expectedBodySize == 0 && !InLines(q) && q.status != Abort ==> q.expectedBodySize == ContentLength(q))
            && (q.status == Complete ==> q.expectedBodySize == 0)
  {
    var r' := r.(currentSize := r.currentSize + |line|);
    WholeLine(limits, r, line);
    LineKeeps(limits, r', Trimmed(line));
    hide WithRequestLine, WithHeaderLine, Trimmed, Taking;
  }

  /** A whole line is processed without its surrounding white space. */
  lemma WholeLine(limits: Limits, r: Request, line: string)
    requires (r.status == WaitForRequest || r.status == WaitForHeader) && r.lineBuffer == ""
    requires |line| >= 2 && line[|line| - 2] == '\r' && line[|line| - 1] == '\n'
    ensures var r' := r.(currentSize := r.currentSize + |line|);
            Taking(limits, r, line) ==
            Checked(limits, if r.status == WaitForRequest then WithRequestLine(r', Trimmed(line))
                            else WithHeaderLine(limits, r', Trimmed(line)))
  {
    Broken(line);
    hide *;
    assert r.lineBuffer + line == line;
    LineBroken(limits, r, line);
    TakingLine(limits, r, line);
  }

  lemma Broken(line: string)
    requires |line| >= 2 && line[|line| - 2] == '\r' && line[|line| - 1] == '\n'
    ensures HasLineBreak(line)
  {
  }

  lemma LineBroken(limits: Limits, r: Request, line: string)
    requires r.status == WaitForRequest || r.status == WaitForHeader
    requires HasLineBreak(line) && r.lineBuffer == ""
    ensures var r' := r.(currentSize := r.currentSize + |line|);
            WithLine(limits, r, line) ==
            if r.status == WaitForRequest then WithRequestLine(r', Trimmed(line))
            else WithHeaderLine(limits, r', Trimmed(line))
  {
    hide WithRequestLine, WithHeaderLine, Trimmed, HasLineBreak;
    assert r.lineBuffer + line == line;
  }

  lemma LineKeeps(limits: Limits, r: Request, newData: string)
    requires InLines(r) && r.lineBuffer == "" && r.boundary == ""
    ensures var q :=
              if r.status == WaitForRequest then WithRequestLine(r, newData)
              else WithHeaderLine(limits, r, newData);
            && q.lineBuffer == "" && q.currentSize == r.currentSize && (InLines(q) ==> q.boundary == "")
            && q.bodyData == r.bodyData && q.file == r.file
            && (r.expectedBodySize == 0 && !InLines(q) && q.status != Abort ==> q.expectedBodySize == ContentLength(q))
            && (q.status == Complete ==> q.expectedBodySize == 0)
  {
    hide Split, Find, Trimmed, ValueOf, BoundaryIn, ToInt, Lower, IndexOf;
  }

  /** The incremental parser, fed byte by byte, is the parser that sees the stream as a whole. */
  lemma {:induction false} FeedIsOneShot(limits: Limits, r: Request, s: string)
    requires Sound(limits, r) && InLines(r) && r.lineBuffer == ""
    ensures Feed(limits, r, s) == OneShot(limits, r, s)
    decreases |s|
  {
    var n := LineEnd(s);
    var room := limits.maxSize + 1 - r.currentSize;
    SoundParts(limits, r);
    hide Feed, Taking, Sound, HasLineBreak, LineEnd, OneShotBody;
    if 0 < n <= room {
      LineOfRequest(limits, r, s, n);
      var q := Taking(limits, r, s[..n]);
      if InLines(q) {
        FeedIsOneShot(limits, q, s[n..]);
      } else if q.status == WaitForBody {
        FeedIsOneShotBody(limits, q, s[n..]);
      } else {
        FeedStopped(limits, q, s[n..]);
      }
    } else {
      FeedLineless(limits, r, s);
    }
  }

  lemma FeedLineless(limits: Limits, r: Request, s: string)
    requires Sound(limits, r) && InLines(r) && r.lineBuffer == ""
    requires LineEnd(s) == 0 || LineEnd(s) > limits.maxSize + 1 - r.currentSize
    ensures var room := limits.maxSize + 1 - r.currentSize;
            var k := if |s| < room then |s| else room;
            k >= 0 && Feed(limits, r, s) == Fed(Collected(limits, r, s[..k]), s[k..])
  {
    hide *;
    SoundParts(limits, r);
    var room: nat := limits.maxSize + 1 - r.currentSize;
    var k := if |s| < room then |s| else room;
    if s == "" {
      NothingCollected(limits, r);
    } else {
      NoBreakInPart(s, LineEnd(s), k);
      FeedStart(limits, r, s, k);
    }
  }

  lemma NothingCollected(limits: Limits, r: Request)
    requires r.lineBuffer == "" && r.currentSize <= limits.maxSize
    ensures Feed(limits, r, "") == Fed(Collected(limits, r, ""[..0]), ""[0..])
  {
    hide Feed;
    FeedNothing(limits, r);
  }

  lemma FeedStart(limits: Limits, r: Request, s: string, k: nat)
    requires Sound(limits, r) && InLines(r) && r.lineBuffer == ""
    requires 0 < k <= |s| && k <= limits.maxSize + 1 - r.currentSize && !HasLineBreak(s[..k])
    requires k < limits.maxSize + 1 - r.currentSize ==> k == |s|
    ensures Feed(limits, r, s) == Fed(Collected(limits, r, s[..k]), s[k..])
  {
    hide Feed, Taking, Sound, HasLineBreak, Collected;
    FedPart(limits, r, s[..k], s[k..]);
    assert s == s[..k] + s[k..];
  }

  lemma SoundParts(limits: Limits, r: Request)
    requires Sound(limits, r) && InLines(r)
    ensures r.bodyData == "" && r.file == "" && r.expectedBodySize == 0 && r.boundary == ""
    ensures r.currentSize <= limits.maxSize
  {
  }

  lemma FeedStopped(limits: Limits, r: Request, s: string)
    requires !Reading(r)
    ensures Feed(limits, r, s) == Fed(r, s)
  {
  }

  lemma FedLine(limits: Limits, r: Request, s: string, n: nat)
    requires Sound(limits, r) && InLines(r) && 0 < n <= |s| && n <= limits.maxSize + 1 - r.currentSize
    requires !HasLineBreak(r.lineBuffer + s[..n][..n - 1])
    ensures Feed(limits, r, s) == Feed(limits, Taking(limits, r, s[..n]), s[n..])
    ensures Sound(limits, Taking(limits, r, s[..n]))
  {
    hide Taking, Sound, Feed, HasLineBreak;
    LineAtOnce(limits, r, s[..n]);
    FedIsSound(limits, r, s[..n]);
    FeedAppend(limits, r, s[..n], s[n..]);
    assert s[..n] + s[n..] == s && "" + s[n..] == s[n..];
  }

  lemma NoBreakInPart(s: string, n: nat, room: nat)
    requires n == LineEnd(s) && room <= |s| && (n == 0 || n > room)
    ensures !HasLineBreak(s[..room])
  {
    hide HasLineBreak, LineEnd;
    var t := if n == 0 then s else s[..n - 1];
    assert t == s[..room] + t[room..];
    NoBreakBefore(s[..room], t[room..]);
  }

  lemma FedPart(limits: Limits, r: Request, part: string, rest: string)
    requires Sound(limits, r) && InLines(r) && r.lineBuffer == "" && !HasLineBreak(part)
    requires 0 < |part| <= limits.maxSize + 1 - r.currentSize
    requires |part| < limits.maxSize + 1 - r.currentSize ==> rest == ""
    ensures Feed(limits, r, part + rest) == Fed(Collected(limits, r, part), rest)
  {
    assert r.lineBuffer + part == part && part == part[..|part| - 1] + part[|part| - 1..];
    assert r.lineBuffer + part[..|part| - 1] == part[..|part| - 1];
    NoBreakBefore(part[..|part| - 1], part[|part| - 1..]);
    FedLine(limits, r, part + rest, |part|);
    assert (part + rest)[..|part|] == part && (part + rest)[|part|..] == rest;
    TakingPart(limits, r, part);
    hide Taking, Feed, Sound, HasLineBreak;
    if r.currentSize + |part| > limits.maxSize {
      FeedStopped(limits, Collected(limits, r, part), rest);
    } else {
      FeedNothing(limits, Collected(limits, r, part));
    }
  }

  lemma TakingPart(limits: Limits, r: Request, part: string)
    requires InLines(r) && r.lineBuffer == "" && r.boundary == "" && !HasLineBreak(part)
    ensures Taking(limits, r, part) == Collected(limits, r, part)
  {
    hide HasLineBreak;
    assert r.lineBuffer + part == part;
  }

  lemma FeedIsOneShotBody(limits: Limits, r: Request, s: string)
    requires Sound(limits, r) && r.status == WaitForBody && r.bodyData == "" && r.file == ""
    ensures Feed(limits, r, s) == OneShotBody(limits, r, s)
  {
    hide Feed;
    if s == "" {
      FeedNothing(limits, r);
    } else if r.expectedBodySize < 0 {
      StopsWhenOver(limits, r, s);
    } else {
      var n := if |s| < r.expectedBodySize then |s| else r.expectedBodySize;
      BodyAtOnce(limits, r, s[..n]);
      FeedAppend(limits, r, s[..n], s[n..]);
      assert s[..n] + s[n..] == s && "" + s[n..] == s[n..];
      var q := Taking(limits, r, s[..n]);
      if n == r.expectedBodySize {
        FeedStopped(limits, q, s[n..]);
      } else {
        FeedNothing(limits, q);
      }
    }
  }

  /** The bytes of the body of a complete request are the ones just before the rest of the stream,
      and as many as the headers announce. */
  ghost predicate BodyPrecedesRest(r: Request, s: string, rest: string) {
    var b, k := r.bodyData + r.file, |s| - |rest|;
    && 0 <= k && s[k..] == rest
    && (r.status == Complete ==>
          && |b| == (if ContentLength(r) > 0 then ContentLength(r) else 0)
          && |b| <= k && s[k - |b|..k] == b)
  }

  lemma {:induction false} BodyAsAnnounced(limits: Limits, r: Request, s: string)
    requires Sound(limits, r) && InLines(r) && r.lineBuffer == ""
    ensures BodyPrecedesRest(OneShot(limits, r, s).request, s, OneShot(limits, r, s).rest)
    decreases |s|
  {
    var n := LineEnd(s);
    var room := limits.maxSize + 1 - r.currentSize;
    var x := OneShot(limits, r, s);
    SoundParts(limits, r);
    hide Taking, Sound, HasLineBreak, LineEnd, BodyPrecedesRest, OneShotBody, ContentLength, Feed;
    if 0 < n <= room {
      LineOfRequest(limits, r, s, n);
      var q := Taking(limits, r, s[..n]);
      if InLines(q) {
        BodyAsAnnounced(limits, q, s[n..]);
        PrecedesInWhole(x.request, s, n, x.rest);
      } else if q.status == WaitForBody {
        BodyTaken(limits, q, s[n..]);
        PrecedesInWhole(x.request, s, n, x.rest);
      } else {
        NoBody(q, s, n);
      }
    } else {
      var k := if |s| < room then |s| else room;
      NoBody(Collected(limits, r, s[..k]), s, k);
    }
  }

  /** The first line of the stream leaves a sound request without a body. */
  lemma LineOfRequest(limits: Limits, r: Request, s: string, n: nat)
    requires Sound(limits, r) && InLines(r) && r.lineBuffer == ""
    requires n == LineEnd(s) && 0 < n <= limits.maxSize + 1 - r.currentSize
    ensures var q := Taking(limits, r, s[..n]);
            && Sound(limits, q) && q.lineBuffer == "" && q.bodyData == "" && q.file == ""
            && (InLines(q) ==> q.boundary == "" && q.currentSize <= limits.maxSize)
            && (!InLines(q) && q.status != Abort ==> q.expectedBodySize == ContentLength(q))
            && (q.status == Complete ==> q.expectedBodySize == 0)
            && Feed(limits, r, s) == Feed(limits, q, s[n..])
  {
    SoundParts(limits, r);
    hide Taking, Sound, HasLineBreak, LineEnd, ContentLength, Feed;
    assert r.lineBuffer + s[..n][..n - 1] == s[..n - 1];
    FedLine(limits, r, s, n);
    LineTaken(limits, r, s[..n]);
  }

  lemma NoBody(r: Request, s: string, k: nat)
    requires k <= |s|
    requires r.status == Complete ==> r.bodyData == "" && r.file == "" && r.expectedBodySize == ContentLength(r) == 0
    ensures BodyPrecedesRest(r, s, s[k..])
  {
    hide ContentLength;
  }

  lemma PrecedesInWhole(r: Request, s: string, n: nat, rest: string)
    requires n <= |s| && BodyPrecedesRest(r, s[n..], rest)
    ensures BodyPrecedesRest(r, s, rest)
  {
    hide ContentLength;
    var b, k := r.bodyData + r.file, |s[n..]| - |rest|;
    SliceOfSlice(s, n, k, |s| - n);
    assert s[n..][k..] == s[n..][k..|s| - n] && s[n + k..] == s[n + k..|s|];
    if r.status == Complete {
      SliceOfSlice(s, n, k - |b|, k);
    }
  }

  lemma SliceOfSlice(s: string, n: nat, a: nat, b: nat)
    requires n <= |s| && a <= b <= |s| - n
    ensures s[n..][a..b] == s[n + a..n + b]
  {
  }

  lemma BodyTaken(limits: Limits, r: Request, s: string)
    requires Sound(limits, r) && r.status == WaitForBody && r.bodyData == "" && r.file == ""
    requires r.expectedBodySize == ContentLength(r)
    ensures BodyPrecedesRest(OneShotBody(limits, r, s).request, s, OneShotBody(limits, r, s).rest)
  {
    hide Taking, BodyPrecedesRest, ContentLength;
    if s == "" {
      NoBody(r, s, 0);
    } else {
      var n := if r.expectedBodySize < 0 then 0 else if |s| < r.expectedBodySize then |s| else r.expectedBodySize;
      DataTaken(limits, r, s[..n]);
      assert s[..0] == "" && s[0..] == s;
      BodyBefore(Taking(limits, r, s[..n]), s, n);
    }
  }

  /** A piece of the body ends up in one of the two stores. */
  lemma DataTaken(limits: Limits, r: Request, data: string)
    requires Sound(limits, r) && r.status == WaitForBody && r.bodyData == "" && r.file == ""
    ensures var q := Taking(limits, r, data);
            && q.bodyData + q.file == data && ContentLength(q) == ContentLength(r)
            && (q.status == Complete ==> |data| >= r.expectedBodySize)
  {
    hide ValueOf, ToInt, HasLineBreak, WithLine;
    assert "" + data == data && data + "" == data;
  }

  /** The body is the first `n` bytes of the stream, and as long as announced if the request is complete. */
  lemma BodyBefore(r: Request, s: string, n: nat)
    requires n <= |s| && r.bodyData + r.file == s[..n]
    requires r.status == Complete ==> n == if ContentLength(r) > 0 then ContentLength(r) else 0
    ensures BodyPrecedesRest(r, s, s[n..])
  {
    hide ContentLength;
    assert n - |s[..n]| == 0;
  }

  /** After the empty line a body is over before its first byte, exactly when a negative size was announced
      and the head is not too large. */
  lemma WhenBodyIsOver(limits: Limits, r: Request)
    requires Unchecked(r)
    ensures BodyIsOver(Checked(limits, WithHeadersDone(limits, r))) <==>
            ContentLength(r) < 0 && r.currentSize <= SizeLimit(limits, BoundaryOf(r))
  {
    hide ValueOf, BoundaryIn, ToInt;
  }

  /** Such a request is completed without a body by whatever comes next. */
  lemma OverIsComplete(limits: Limits, r: Request, s: string)
    requires Sound(limits, r) && BodyIsOver(r) && 0 < r.currentSize <= SizeLimit(limits, r.boundary) && s != ""
    ensures var x := Feed(limits, r, s);
            x.rest == s && x.request == r.(status := Complete) && x.request.bodyData == "" && x.request.file == ""
  {
    StopsWhenOver(limits, r, s);
    assert r.bodyData + "" == r.bodyData && r.file + "" == r.file;
    hide Feed;
  }

  /** The last piece of a multipart body completes the request exactly when the body is smaller than
      the limit; a body of just the size of the limit, let pass at first, is then given up. */
  lemma MultipartEnd(limits: Limits, r: Request, data: string)
    requires Sound(limits, r) && r.status == WaitForBody && r.boundary != "" && r.expectedBodySize > 0
    requires |r.file| + |data| == r.expectedBodySize
    ensures Taking(limits, r, data).status == if r.expectedBodySize < limits.maxMultiPartSize then Complete else Abort
  {
    hide WithLine;
  }

  /** The check after the empty line waits for a multipart body exactly up to the limit itself. */
  lemma MultipartAdmitted(limits: Limits, r: Request)
    requires Unchecked(r) && BoundaryOf(r) != "" && ContentLength(r) > 0
    ensures Checked(limits, WithHeadersDone(limits, r)).status ==
            if ContentLength(r) <= limits.maxMultiPartSize && r.currentSize <= limits.maxMultiPartSize
            then WaitForBody else Abort
  {
    hide ValueOf, BoundaryIn, ToInt;
  }

  // ----- what holds of a request past its headers -----

  /** The boundary is the one announced, the body is in one store, and all is within the limits; a head that
      announces a multipart body may be one byte longer than others. */
  ghost predicate Settled(limits: Limits, r: Request) {
    !InLines(r) && r.status != Abort ==>
      && r.boundary == BoundaryOf(r) && r.currentSize <= SizeLimit(limits, r.boundary)
      && (if r.boundary == "" then r.file == ""
          else r.bodyData == "" && r.currentSize <= limits.maxSize + 1)
      && (r.status == Complete && r.file != "" ==> |r.file| < limits.maxMultiPartSize)
  }

  /** Every byte is counted once: in the head and a plain body, or in the file. */
  function Counted(r: Request): nat {
    r.currentSize + |r.file|
  }

  lemma TakingSettles(limits: Limits, r: Request, c: char)
    requires Sound(limits, r) && Settled(limits, r) && Reading(r) && !BodyIsOver(r)
    ensures Settled(limits, Taking(limits, r, [c])) && Counted(Taking(limits, r, [c])) == Counted(r) + 1
  {
    if r.status == WaitForBody {
      BodySettles(limits, r, c);
    } else {
      TakingLine(limits, r, [c]);
      LineSettles(limits, r, [c]);
    }
  }

  lemma BodySettles(limits: Limits, r: Request, c: char)
    requires Sound(limits, r) && Settled(limits, r) && r.status == WaitForBody && !BodyIsOver(r)
    ensures Settled(limits, Taking(limits, r, [c])) && Counted(Taking(limits, r, [c])) == Counted(r) + 1
  {
    hide WithLine, ValueOf, BoundaryIn;
  }

  lemma LineSettles(limits: Limits, r: Request, data: string)
    requires Sound(limits, r) && InLines(r) && |data| == 1
    ensures var q := Checked(limits, WithLine(limits, r, data));
            Settled(limits, q) && Counted(q) == Counted(r) + 1
  {
    hide Sound, Settled, Checked, WithLine, HasLineBreak, Trimmed, WithRequestLine, WithHeaderLine, Counted, Unchecked;
    var buffer := r.lineBuffer + data;
    SoundParts(limits, r);
    LineCases(limits, r, data);
    if HasLineBreak(buffer) {
      var r' := r.(currentSize := r.currentSize + 1, lineBuffer := "");
      StillUnchecked(r, r');
      LineLeaves(limits, r', Trimmed(buffer));
    } else {
      StillCollecting(limits, r, r.(currentSize := r.currentSize + 1, lineBuffer := buffer));
    }
    CountedIs(r);
    CountedIs(Checked(limits, WithLine(limits, r, data)));
  }

  lemma LineCases(limits: Limits, r: Request, data: string)
    requires InLines(r) && |data| == 1
    ensures var buffer := r.lineBuffer + data;
            var r' := r.(currentSize := r.currentSize + 1);
            WithLine(limits, r, data) ==
            if !HasLineBreak(buffer) then r'.(lineBuffer := buffer)
            else if r.status == WaitForRequest then WithRequestLine(r'.(lineBuffer := ""), Trimmed(buffer))
            else WithHeaderLine(limits, r'.(lineBuffer := ""), Trimmed(buffer))
  {
    hide WithRequestLine, WithHeaderLine, Trimmed, HasLineBreak;
  }

  lemma StillUnchecked(r: Request, r': Request)
    requires InLines(r) && r.bodyData == "" && r.file == "" && r.expectedBodySize == 0 && r.boundary == ""
    requires r' == r.(currentSize := r.currentSize + 1, lineBuffer := "")
    ensures Unchecked(r') && (r'.status == WaitForRequest <==> r.status == WaitForRequest)
  {
  }

  lemma StillCollecting(limits: Limits, r: Request, q: Request)
    requires InLines(r) && r.file == "" && q == r.(currentSize := r.currentSize + 1, lineBuffer := q.lineBuffer)
    ensures Settled(limits, Checked(limits, q)) && Checked(limits, q).file == ""
    ensures Checked(limits, q).currentSize == r.currentSize + 1
  {
    hide BoundaryOf;
  }

  lemma CountedIs(r: Request)
    ensures Counted(r) == r.currentSize + |r.file|
  {
  }

  lemma LineLeaves(limits: Limits, r: Request, newData: string)
    requires Unchecked(r) && r.currentSize <= limits.maxSize + 1
    ensures var q := if r.status == WaitForRequest then WithRequestLine(r, newData)
                     else WithHeaderLine(limits, r, newData);
            && Settled(limits, Checked(limits, q))
            && Checked(limits, q).currentSize == r.currentSize && Checked(limits, q).file == ""
  {
    hide Split, Find, Trimmed, ValueOf, BoundaryIn, ToInt, Lower, IndexOf, HasHeader;
  }

  lemma OverSettles(limits: Limits, r: Request)
    requires Sound(limits, r) && Settled(limits, r) && BodyIsOver(r)
    ensures Settled(limits, Taking(limits, r, "")) && Counted(Taking(limits, r, "")) == Counted(r)
  {
    hide WithLine, ValueOf, BoundaryIn;
    assert r.bodyData + "" == r.bodyData && r.file + "" == r.file;
  }

  /** A head is given up before it grows beyond the limit by more than a byte. */
  lemma HeadIsLimited(limits: Limits, s: string)
    requires |s| > limits.maxSize
    ensures !InLines(Feed(limits, NEW_REQUEST, s).request)
  {
    NewIsSound(limits);
    FedIsSound(limits, NEW_REQUEST, s);
    FedSettles(limits, NEW_REQUEST, s);
    TakesAll(limits, NEW_REQUEST, s);
    hide Feed;
  }

  lemma {:induction false} TakesAll(limits: Limits, r: Request, s: string)
    ensures InLines(Feed(limits, r, s).request) ==> Feed(limits, r, s).rest == ""
    decreases |s|
  {
    hide Taking;
    if s != "" && Reading(r) {
      if BodyIsOver(r) {
        StopsWhenOver(limits, r, s);
      } else {
        TakesAll(limits, Taking(limits, r, s[..1]), s[1..]);
      }
    }
  }

  /** The bytes taken are counted, and what is read keeps to the limits. */
  lemma {:induction false} FedSettles(limits: Limits, r: Request, s: string)
    requires Sound(limits, r) && Settled(limits, r)
    ensures var x := Feed(limits, r, s);
            Settled(limits, x.request) && Counted(x.request) + |x.rest| == Counted(r) + |s|
    decreases |s|
  {
    hide Taking, Sound, Settled, Counted;
    if s != "" && Reading(r) {
      if BodyIsOver(r) {
        OverSettles(limits, r);
      } else {
        assert s[..1] == [s[0]];
        TakingIsSound(limits, r, s[0]);
        TakingSettles(limits, r, s[0]);
        FedSettles(limits, Taking(limits, r, s[..1]), s[1..]);
      }
    }
  }
}
