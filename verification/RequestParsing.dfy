/** The state of a request under way, and what the bytes of a stream do to it. */
module RequestParsing {
  import opened HeaderFields
  import opened HttpText

  datatype Status = WaitForRequest | WaitForHeader | WaitForBody | Complete | Abort

  datatype Limits = Limits(maxSize: nat, maxMultiPartSize: nat)

  /** The fields of a request; `file` is what the temporary file holds. */
  datatype Request = Request(
    status: Status,
    currentSize: nat,
    lineBuffer: string,
    reqMethod: string,
    path: string,
    version: string,
    headers: seq<Header>,
    currentHeader: string,
    boundary: string,
    expectedBodySize: int,
    bodyData: string,
    file: string
  )

  const NEW_REQUEST := Request(WaitForRequest, 0, "", "", "", "", [], "", "", 0, "", "")

  /** The value inserted last under a name, or the empty string. */
  function ValueOf(headers: seq<Header>, name: string): string {
    if headers == [] then ""
    else if headers[|headers| - 1].name == name then headers[|headers| - 1].value
    else ValueOf(headers[..|headers| - 1], name)
  }

  predicate HasHeader(headers: seq<Header>, name: string) {
    exists i :: 0 <= i < |headers| && headers[i].name == name
  }

  /** What the first line says; blank lines before it are skipped. */
  function WithRequestLine(r: Request, newData: string): Request {
    if newData == "" then r
    else
      var list := Split(newData, ' ');
      if |list| != 3 || Find(list[2], "HTTP") == -1 then r.(status := Abort)
      else r.(reqMethod := Trimmed(list[0]), path := list[1], version := list[2], status := WaitForHeader)
  }

  /** The part of a content type after `boundary=`, without quotes around it. */
  function BoundaryIn(contentType: string): string {
    var position := if StartsWith(contentType, "multipart/form-data") then Find(contentType, "boundary=") else -1;
    if position == -1 then ""
    else
      var b := contentType[position + 9..];
      if b != "" && b[0] == '"' && b[|b| - 1] == '"' then
        if |b| == 1 then "" else b[1..|b| - 1]
      else b
  }

  /** At the end of the headers: is there a body, and is it small enough? */
  function WithHeadersDone(limits: Limits, r: Request): Request {
    var b := BoundaryIn(ValueOf(r.headers, "content-type"));
    var contentLength := ValueOf(r.headers, "content-length");
    var expected := if contentLength != "" then ToInt(contentLength) else r.expectedBodySize;
    var status :=
      if expected == 0 then Complete
      else if b == "" && expected + r.currentSize > limits.maxSize then Abort
      else if b != "" && expected > limits.maxMultiPartSize then Abort
      else WaitForBody;
    r.(boundary := b, expectedBodySize := expected, status := status)
  }

  function WithHeaderLine(limits: Limits, r: Request, newData: string): Request {
    var colon := IndexOf(newData, ':');
    if colon > 0 then
      var name := Lower(newData[..colon]);
      r.(currentHeader := name, headers := r.headers + [Header(name, Trimmed(newData[colon + 1..]))])
    else if newData != "" then
      if HasHeader(r.headers, r.currentHeader)
      then r.(headers := r.headers + [Header(r.currentHeader, ValueOf(r.headers, r.currentHeader) + " " + newData)])
      else r
    else WithHeadersDone(limits, r)
  }

  /** How many bytes a request may take, by the boundary of its body. */
  function SizeLimit(limits: Limits, boundary: string): nat {
    if boundary == "" then limits.maxSize else limits.maxMultiPartSize
  }

  /** A request that has taken too many bytes is given up. */
  function Checked(limits: Limits, r: Request): Request {
    if r.currentSize > SizeLimit(limits, r.boundary) then r.(status := Abort) else r
  }

  predicate Reading(r: Request) {
    r.status != Complete && r.status != Abort
  }

  /** A body announced with a negative size: it is over before its first byte. */
  predicate BodyIsOver(r: Request) {
    r.status == WaitForBody && r.expectedBodySize < 0
  }

  /** A whole line, or so much of one as has come. */
  function WithLine(limits: Limits, r: Request, data: string): Request
    requires r.status == WaitForRequest || r.status == WaitForHeader
  {
    var buffer := r.lineBuffer + data;
    var r' := r.(currentSize := r.currentSize + |data|);
    if !HasLineBreak(buffer) then r'.(lineBuffer := buffer)
    else if r.status == WaitForRequest then WithRequestLine(r'.(lineBuffer := ""), Trimmed(buffer))
    else WithHeaderLine(limits, r'.(lineBuffer := ""), Trimmed(buffer))
  }

  /** Some more of the body. */
  function WithBody(limits: Limits, r: Request, data: string): Request
    requires r.status == WaitForBody
  {
    if r.boundary == "" then
      var body := r.bodyData + data;
      r.(currentSize := r.currentSize + |data|, bodyData := body,
         status := if |body| >= r.expectedBodySize then Complete else WaitForBody)
    else
      var file := r.file + data;
      r.(file := file,
         status := if |file| >= limits.maxMultiPartSize then Abort
                   else if |file| >= r.expectedBodySize then Complete
                   else WaitForBody)
  }

  function Taking(limits: Limits, r: Request, data: string): Request
    requires Reading(r)
  {
    Checked(limits, if r.status == WaitForBody then WithBody(limits, r, data) else WithLine(limits, r, data))
  }

  /** A request and the bytes not yet taken. */
  datatype Fed = Fed(request: Request, rest: string)

  /** The simple parser: one byte at a time, until the request is complete or given up. */
  function Feed(limits: Limits, r: Request, s: string): Fed
    decreases |s|
  {
    if s == "" || !Reading(r) then Fed(r, s)
    else if BodyIsOver(r) then Fed(Taking(limits, r, ""), s)
    else Feed(limits, Taking(limits, r, s[..1]), s[1..])
  }

  /** What holds of a request between two calls. */
  ghost predicate Sound(limits: Limits, r: Request) {
    && (r.status == WaitForRequest || r.status == WaitForHeader ==>
          r.currentSize <= limits.maxSize && !HasLineBreak(r.lineBuffer) && r.boundary == "" && r.expectedBodySize == 0
          && r.bodyData == "" && r.file == "")
    && (r.status == WaitForBody ==>
          && r.expectedBodySize != 0
          && (r.expectedBodySize > 0 ==> |r.bodyData| < r.expectedBodySize && |r.file| < r.expectedBodySize)
          && (r.boundary == "" ==> r.file == "" && r.currentSize - |r.bodyData| + r.expectedBodySize <= limits.maxSize)
          && (r.boundary != "" ==> r.bodyData == "" && r.expectedBodySize <= limits.maxMultiPartSize
                                   && r.currentSize <= limits.maxMultiPartSize)
          && (r.expectedBodySize < 0 ==> r.bodyData == "" && r.file == ""))
  }

  lemma NewIsSound(limits: Limits)
    ensures Sound(limits, NEW_REQUEST)
  {
  }

  /** Every byte keeps the invariant. */
  lemma TakingIsSound(limits: Limits, r: Request, c: char)
    requires Sound(limits, r) && Reading(r) && !BodyIsOver(r)
    ensures Sound(limits, Taking(limits, r, [c]))
  {
    if r.status == WaitForBody {
      BodyIsSound(limits, r, c);
    } else {
      TakingLine(limits, r, [c]);
      LineIsSound(limits, r, [c]);
    }
  }

  lemma BodyIsSound(limits: Limits, r: Request, c: char)
    requires Sound(limits, r) && r.status == WaitForBody && r.expectedBodySize >= 0
    ensures Sound(limits, Taking(limits, r, [c]))
  {
    hide WithLine;
  }

  lemma TakingLine(limits: Limits, r: Request, data: string)
    requires r.status == WaitForRequest || r.status == WaitForHeader
    ensures Taking(limits, r, data) == Checked(limits, WithLine(limits, r, data))
  {
    hide WithLine, WithBody, Checked;
  }

  lemma LineIsSound(limits: Limits, r: Request, data: string)
    requires Sound(limits, r) && (r.status == WaitForRequest || r.status == WaitForHeader)
    ensures Sound(limits, Checked(limits, WithLine(limits, r, data)))
  {
    hide WithRequestLine, WithHeaderLine, Trimmed;
    var buffer := r.lineBuffer + data;
    if HasLineBreak(buffer) {
      var r' := r.(currentSize := r.currentSize + |data|, lineBuffer := "");
      RequestLineIsSound(limits, r', Trimmed(buffer));
      HeaderLineIsSound(limits, r', Trimmed(buffer));
      hide HasLineBreak, Checked, Sound;
    }
  }

  /** A request that has taken a whole line, before the check of its size. */
  ghost predicate Unchecked(r: Request) {
    && (r.status == WaitForRequest || r.status == WaitForHeader)
    && r.lineBuffer == "" && r.boundary == "" && r.expectedBodySize == 0 && r.bodyData == "" && r.file == ""
  }

  lemma RequestLineIsSound(limits: Limits, r: Request, newData: string)
    requires Unchecked(r)
    ensures Sound(limits, Checked(limits, WithRequestLine(r, newData)))
  {
    hide Split, Find, Trimmed;
  }

  lemma HeaderLineIsSound(limits: Limits, r: Request, newData: string)
    requires Unchecked(r)
    ensures Sound(limits, Checked(limits, WithHeaderLine(limits, r, newData)))
  {
    hide *;
    HeaderLineCases(limits, r, newData);
    var q := WithHeaderLine(limits, r, newData);
    if q == WithHeadersDone(limits, r) {
      HeadersDoneIsSound(limits, r);
    } else {
      UncheckedIsSound(limits, q);
    }
  }

  lemma HeaderLineCases(limits: Limits, r: Request, newData: string)
    requires Unchecked(r)
    ensures var q := WithHeaderLine(limits, r, newData);
            Unchecked(q) || q == WithHeadersDone(limits, r)
  {
    hide Trimmed, Lower, IndexOf, ValueOf, HasHeader, WithHeadersDone;
  }

  lemma UncheckedIsSound(limits: Limits, r: Request)
    requires Unchecked(r)
    ensures Sound(limits, Checked(limits, r))
  {
  }

  lemma HeadersDoneIsSound(limits: Limits, r: Request)
    requires Unchecked(r)
    ensures Sound(limits, Checked(limits, WithHeadersDone(limits, r)))
  {
    hide ValueOf, BoundaryIn, ToInt;
  }

  /** How the stream is cut does not matter: feeding goes on where it stopped. */
  lemma {:induction false} FeedAppend(limits: Limits, r: Request, s: string, t: string)
    ensures var x := Feed(limits, r, s); Feed(limits, r, s + t) == Feed(limits, x.request, x.rest + t)
    decreases |s|
  {
    hide Taking;
    if s == "" {
      assert s + t == t;
    } else if !Reading(r) {
    } else if BodyIsOver(r) {
      StopsWhenOver(limits, r, s + t);
    } else {
      assert (s + t)[..1] == s[..1] && (s + t)[1..] == s[1..] + t;
      FeedAppend(limits, Taking(limits, r, s[..1]), s[1..], t);
    }
  }

  lemma StopsWhenOver(limits: Limits, r: Request, s: string)
    requires BodyIsOver(r)
    ensures !Reading(Taking(limits, r, "")) && (s != "" ==> Feed(limits, r, s) == Fed(Taking(limits, r, ""), s))
  {
  }

  /** A byte that ends no line is only collected. */
  lemma ByteOfLine(limits: Limits, r: Request, c: char)
    requires Sound(limits, r) && (r.status == WaitForRequest || r.status == WaitForHeader)
    requires !HasLineBreak(r.lineBuffer + [c]) && r.currentSize < limits.maxSize
    ensures Taking(limits, r, [c]) == r.(lineBuffer := r.lineBuffer + [c], currentSize := r.currentSize + 1)
    ensures Sound(limits, Taking(limits, r, [c]))
  {
  }

  lemma LineInTwo(limits: Limits, r: Request, c: char, rest: string)
    requires r.status == WaitForRequest || r.status == WaitForHeader
    ensures Taking(limits, r.(lineBuffer := r.lineBuffer + [c], currentSize := r.currentSize + 1), rest)
            == Taking(limits, r, [c] + rest)
  {
    hide WithRequestLine, WithHeaderLine, HasLineBreak;
    assert r.lineBuffer + [c] + rest == r.lineBuffer + ([c] + rest);
  }

  /** A piece of a line taken at once does what its bytes do one by one. */
  lemma {:induction false} LineAtOnce(limits: Limits, r: Request, data: string)
    requires Sound(limits, r) && (r.status == WaitForRequest || r.status == WaitForHeader)
    requires 1 <= |data| <= limits.maxSize - r.currentSize + 1 && !HasLineBreak(r.lineBuffer + data[..|data| - 1])
    ensures Feed(limits, r, data) == Fed(Taking(limits, r, data), "")
    decreases |data|
  {
    hide Taking, Sound, HasLineBreak;
    assert data == [data[0]] + data[1..] && data[..1] == [data[0]];
    if |data| == 1 {
      assert data[..1] == data && data[1..] == "";
      FeedNothing(limits, Taking(limits, r, data));
    } else {
      var r1 := r.(lineBuffer := r.lineBuffer + [data[0]], currentSize := r.currentSize + 1);
      assert r1.lineBuffer + data[1..][..|data| - 2] == r.lineBuffer + data[..|data| - 1];
      NoBreakBefore(r1.lineBuffer, data[1..][..|data| - 2]);
      ByteOfLine(limits, r, data[0]);
      LineInTwo(limits, r, data[0], data[1..]);
      LineAtOnce(limits, r1, data[1..]);
    }
  }

  lemma NoBreakBefore(s: string, t: string)
    requires !HasLineBreak(s + t)
    ensures !HasLineBreak(s)
  {
    forall i | 0 < i < |s| && s[i] == '\n' ensures s[i - 1] != '\r' {
      assert (s + t)[i] == s[i] && (s + t)[i - 1] == s[i - 1];
    }
  }

  lemma FeedNothing(limits: Limits, r: Request)
    ensures Feed(limits, r, "") == Fed(r, "")
  {
  }

  lemma NoBreakYet(buffer: string, t: string)
    requires !HasLineBreak(buffer) && '\n' !in t
    ensures !HasLineBreak(buffer + t)
  {
    var s := buffer + t;
    forall i | |buffer| <= i < |s| ensures s[i] != '\n' {
      assert s[i] == t[i - |buffer|];
    }
  }

  /** So does a piece of the body. */
  lemma {:induction false} BodyAtOnce(limits: Limits, r: Request, data: string)
    requires Sound(limits, r) && r.status == WaitForBody && r.expectedBodySize > 0
    requires 1 <= |data| <= r.expectedBodySize - if r.boundary == "" then |r.bodyData| else |r.file|
    ensures Feed(limits, r, data) == Fed(Taking(limits, r, data), "")
    decreases |data|
  {
    if |data| == 1 {
      assert data[..1] == data;
    } else {
      var first, rest := data[..1], data[1..];
      var r1 := Taking(limits, r, first);
      assert first + rest == data;
      assert r.bodyData + first + rest == r.bodyData + data && r.file + first + rest == r.file + data;
      BodyAtOnce(limits, r1, rest);
    }
  }

  lemma {:induction false} FedIsSound(limits: Limits, r: Request, s: string)
    requires Sound(limits, r)
    ensures Sound(limits, Feed(limits, r, s).request)
    decreases |s|
  {
    hide Taking, Sound;
    if s != "" && Reading(r) {
      if BodyIsOver(r) {
        OverIsSound(limits, r);
      } else {
        assert s[..1] == [s[0]];
        TakingIsSound(limits, r, s[0]);
        FedIsSound(limits, Taking(limits, r, s[..1]), s[1..]);
      }
    }
  }

  lemma OverIsSound(limits: Limits, r: Request)
    requires BodyIsOver(r)
    ensures Sound(limits, Taking(limits, r, ""))
  {
  }
}
