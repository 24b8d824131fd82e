/** How the end of a response is told: by its size, by chunks, or by the end of the connection;
    as written, and as read after sections 3.3.3 and 4.1 of RFC 7230. */
module ResponseFraming {
  import opened HeaderFields
  import opened HttpText

  /** The order of keys in a map. */
  predicate Before(a: string, b: string) {
    if b == "" then false
    else if a == "" then true
    else if a[0] != b[0] then a[0] < b[0]
    else Before(a[1..], b[1..])
  }

  /** A map from names to values, kept in the order of the names. */
  function Insert(h: seq<Header>, name: string, value: string): (r: seq<Header>)
    ensures r != []
  {
    if h == [] then [Header(name, value)]
    else if h[0].name == name then [Header(name, value)] + h[1..]
    else if Before(name, h[0].name) then [Header(name, value)] + h
    else [h[0]] + Insert(h[1..], name, value)
  }

  predicate Has(h: seq<Header>, name: string) {
    h != [] && (h[0].name == name || Has(h[1..], name))
  }

  function Get(h: seq<Header>, name: string): string {
    if h == [] then "" else if h[0].name == name then h[0].value else Get(h[1..], name)
  }

  lemma {:induction false} GetInserted(h: seq<Header>, name: string, value: string, other: string)
    ensures var r := Insert(h, name, value);
            && Has(r, other) == (other == name || Has(h, other))
            && Get(r, other) == if other == name then value else Get(h, other)
  {
    if h != [] && h[0].name != name && !Before(name, h[0].name) {
      GetInserted(h[1..], name, value, other);
    }
  }

  /** Cookies after one more was set. */
  function WithCookie(cookies: seq<Header>, name: string, text: string): seq<Header> {
    if name != "" then Insert(cookies, name, text) else cookies
  }

  /** The fields that carry cookies. */
  function CookieLines(cookies: seq<Header>): seq<Header> {
    if cookies == [] then [] else [Header("Set-Cookie", cookies[0].value)] + CookieLines(cookies[1..])
  }

  /** Do the headers ask for a close, under one of the two spellings that the server looks for? */
  predicate SaysClose(h: seq<Header>) {
    Lower(if Has(h, "Connection") then Get(h, "Connection") else Get(h, "connection")) == "close"
  }

  /** Headers as completed by the first call to write. */
  function WithFraming(h: seq<Header>, size: nat, lastPart: bool): seq<Header> {
    if lastPart then Insert(h, "Content-Length", Number(size, 10))
    else if !SaysClose(h) then Insert(h, "Transfer-Encoding", "chunked")
    else h
  }

  predicate InChunks(h: seq<Header>, lastPart: bool) {
    !lastPart && !SaysClose(h)
  }

  function HeaderBlock(statusCode: nat, statusText: string, h: seq<Header>): string {
    "HTTP/1.1 " + Number(statusCode, 10) + " " + statusText + CRLF + HeaderLines(h) + CRLF
  }

  function DataPart(chunked: bool, data: string): string {
    if data == "" then "" else if chunked then Number(|data|, 16) + CRLF + data + CRLF else data
  }

  function EndPart(chunked: bool, lastPart: bool): string {
    if lastPart && chunked then "0" + CRLF + CRLF else ""
  }

  /** What one call to write puts on the wire after the headers. */
  function Part(chunked: bool, data: string, lastPart: bool): string {
    DataPart(chunked, data) + EndPart(chunked, lastPart)
  }

  /** The body written part by part, the last one marked as such. */
  function Body(chunked: bool, parts: seq<string>): string {
    if parts == [] then ""
    else Part(chunked, parts[0], |parts| == 1) + Body(chunked, parts[1..])
  }

  function Concat(parts: seq<string>): string {
    if parts == [] then "" else parts[0] + Concat(parts[1..])
  }

  /** What a reader makes of the bytes after the headers. */
  datatype Message = Message(data: string, rest: string) | Unfinished | Malformed

  function Prefixed(data: string, m: Message): Message {
    match m
    case Message(more, rest) => Message(data + more, rest)
    case other => other
  }

  function ReadChunks(s: string): Message
    decreases |s|
  {
    var k := Find(s, CRLF);
    if k == -1 then Unfinished
    else
      var n := NumberIn(s[..k], 16);
      if n == -1 then Malformed
      else if |s| < k + n + 4 then Unfinished
      else if s[k + 2 + n..k + 4 + n] != CRLF then Malformed
      else if n == 0 then Message("", s[k + 4..])
      else Prefixed(s[k + 2..k + 2 + n], ReadChunks(s[k + 4 + n..]))
  }

  /** The value under a name, whatever the case of its letters. */
  function FieldValue(h: seq<Header>, lower: string): string {
    if h == [] then "" else if Lower(h[0].name) == lower then h[0].value else FieldValue(h[1..], lower)
  }

  datatype Framing = Sized | Chunked | UntilClose

  function FramingOf(h: seq<Header>): Framing {
    if Lower(FieldValue(h, "transfer-encoding")) == "chunked" then Chunked
    else if FieldValue(h, "content-length") != "" then Sized
    else UntilClose
  }

  function ReadBody(h: seq<Header>, s: string): Message {
    match FramingOf(h)
    case Chunked => ReadChunks(s)
    case Sized =>
      var n := NumberIn(FieldValue(h, "content-length"), 10);
      if n == -1 then Malformed else if |s| < n then Unfinished else Message(s[..n], s[n..])
    case UntilClose => Message(s, "")
  }

  predicate HasField(h: seq<Header>, lower: string) {
    h != [] && (Lower(h[0].name) == lower || HasField(h[1..], lower))
  }

  /** No header set beforehand says how the message is framed. */
  predicate Unframed(h: seq<Header>) {
    !HasField(h, "content-length") && !HasField(h, "transfer-encoding")
  }

  lemma {:induction false} FieldInserted(h: seq<Header>, name: string, value: string, lower: string)
    ensures !HasField(h, lower) && lower == Lower(name) ==> FieldValue(Insert(h, name, value), lower) == value
    ensures lower != Lower(name) ==> FieldValue(Insert(h, name, value), lower) == FieldValue(h, lower)
  {
    if h != [] && h[0].name != name && !Before(name, h[0].name) {
      FieldInserted(h[1..], name, value, lower);
    }
  }

  lemma {:induction false} FieldAbsent(h: seq<Header>, lower: string)
    requires !HasField(h, lower)
    ensures FieldValue(h, lower) == ""
  {
    if h != [] {
      FieldAbsent(h[1..], lower);
    }
  }

  lemma FieldNames()
    ensures Lower("Content-Length") == "content-length" && Lower("Transfer-Encoding") == "transfer-encoding"
    ensures Lower("chunked") == "chunked" && Lower("") != "chunked"
    ensures "content-length" != "transfer-encoding"
  {
    assert Lower("Content-Length") == "content-length";
    assert Lower("Transfer-Encoding") == "transfer-encoding";
  }

  /** The framing a response gets: by size if it is written at once, else in chunks unless the connection
      is to be closed. */
  lemma FramingChosen(preset: seq<Header>, size: nat, lastPart: bool)
    requires Unframed(preset)
    ensures var h := WithFraming(preset, size, lastPart);
            FramingOf(h) == if lastPart then Sized else if SaysClose(preset) then UntilClose else Chunked
    ensures lastPart ==> FieldValue(WithFraming(preset, size, lastPart), "content-length") == Number(size, 10)
  {
    hide Lower, Number, SaysClose;
    NumberReadBack(size, 10);
    FieldNames();
    FieldInserted(preset, "Content-Length", Number(size, 10), "content-length");
    FieldInserted(preset, "Content-Length", Number(size, 10), "transfer-encoding");
    FieldInserted(preset, "Transfer-Encoding", "chunked", "transfer-encoding");
    FieldAbsent(preset, "content-length");
    FieldAbsent(preset, "transfer-encoding");
  }

  /** When a response in several parts is chunked: never if a header tells that the connection will be closed, under the
      name `Connection` or, where there is none, `connection`; always otherwise. */
  lemma ChunkedUnlessClosing(h: seq<Header>, size: nat)
    ensures var closing := Lower(Get(h, "Connection")) == "close" ||
                           (!Has(h, "Connection") && Lower(Get(h, "connection")) == "close");
            && (InChunks(h, false) <==> !closing) && !InChunks(h, true)
            && WithFraming(h, size, false) == (if closing then h else Insert(h, "Transfer-Encoding", "chunked"))
            && (Unframed(h) ==> FramingOf(WithFraming(h, size, false)) == if closing then UntilClose else Chunked)
  {
    GetOfAbsent(h, "Connection");
    hide Lower, Get, Has, FramingOf, Unframed;
    if Unframed(h) {
      FramingChosen(h, size, false);
    }
  }

  lemma GetOfAbsent(h: seq<Header>, name: string)
    ensures !Has(h, name) ==> Lower(Get(h, name)) != "close"
  {
    if !Has(h, name) {
      GetAbsent(h, name);
    }
  }

  lemma {:induction false} GetAbsent(h: seq<Header>, name: string)
    requires !Has(h, name)
    ensures Get(h, name) == ""
  {
    if h != [] {
      GetAbsent(h[1..], name);
    }
  }

  /** A response written at once carries the decimal numeral of its size. */
  lemma SizedAtOnce(h: seq<Header>, size: nat)
    ensures var r := WithFraming(h, size, true);
            && Get(r, "Content-Length") == Number(size, 10)
            && forall name :: name != "Content-Length" ==> Get(r, name) == Get(h, name) && Has(r, name) == Has(h, name)
  {
    hide Get, Has, Insert, Number;
    GetInserted(h, "Content-Length", Number(size, 10), "Content-Length");
    forall name: string | name != "Content-Length"
      ensures var r := Insert(h, "Content-Length", Number(size, 10));
              Get(r, name) == Get(h, name) && Has(r, name) == Has(h, name)
    {
      GetInserted(h, "Content-Length", Number(size, 10), name);
    }
  }

  /** Keys are ordered by their first difference; a key comes before its continuations. */
  lemma {:induction false} BeforeMeans(a: string, b: string)
    ensures Before(a, b) <==> exists k :: 0 <= k <= |a| && k < |b| && a[..k] == b[..k] && (k == |a| || a[k] < b[k])
  {
    if a == "" || b == "" {
      if b != "" {
        assert a[..0] == b[..0];
      }
    } else {
      BeforeMeans(a[1..], b[1..]);
      if Before(a, b) {
        if a[0] < b[0] {
          assert a[..0] == b[..0];
        } else {
          var k :| 0 <= k <= |a[1..]| && k < |b[1..]| && a[1..][..k] == b[1..][..k]
                   && (k == |a[1..]| || a[1..][k] < b[1..][k]);
          assert a[..k + 1] == [a[0]] + a[1..][..k] && b[..k + 1] == [b[0]] + b[1..][..k];
        }
      }
      if k :| 0 <= k <= |a| && k < |b| && a[..k] == b[..k] && (k == |a| || a[k] < b[k]) {
        if k > 0 {
          assert a[0] == a[..k][0] == b[..k][0] == b[0];
          assert a[1..][..k - 1] == a[..k][1..] && b[1..][..k - 1] == b[..k][1..];
        }
      }
    }
  }

  /** The names are in order, each once. */
  predicate Ordered(h: seq<Header>) {
    |h| < 2 || (Before(h[0].name, h[1].name) && Ordered(h[1..]))
  }

  /** A header set keeps the names in order. */
  lemma {:induction false} InsertKeepsOrder(h: seq<Header>, name: string, value: string)
    requires Ordered(h)
    ensures Ordered(Insert(h, name, value))
    ensures Insert(h, name, value)[0].name in {name} + if h == [] then {} else {h[0].name}
  {
    var r := Insert(h, name, value);
    if h == [] || h[0].name == name || Before(name, h[0].name) {
      assert |h| > 0 && h[0].name == name ==> r[1..] == h[1..];
      assert |h| > 0 && h[0].name != name ==> r[1..] == h;
    } else {
      InsertKeepsOrder(h[1..], name, value);
      BeforeTotal(name, h[0].name);
      assert r[1..] == Insert(h[1..], name, value);
    }
  }

  lemma {:induction false} BeforeTotal(a: string, b: string)
    ensures Before(a, b) || a == b || Before(b, a)
    ensures !(Before(a, b) && Before(b, a)) && !Before(a, a)
  {
    if a != "" && b != "" {
      BeforeTotal(a[1..], b[1..]);
      assert a == [a[0]] + a[1..] && b == [b[0]] + b[1..];
    }
    if a != "" {
      BeforeIrreflexive(a);
    }
  }

  lemma {:induction false} BeforeIrreflexive(a: string)
    ensures !Before(a, a)
  {
    if a != "" {
      BeforeIrreflexive(a[1..]);
    }
  }

  /** One part is read back, and reading goes on after it. */
  lemma PartReadBack(data: string, s: string)
    ensures ReadChunks(Part(true, data, false) + s) == Prefixed(data, ReadChunks(s))
  {
    hide ReadChunks, Part, Prefixed, Number, NumberIn;
    if data == "" {
      NoPart(s);
      NothingPrefixed(ReadChunks(s));
    } else {
      PartIs(data);
      NumberReadBack(|data|, 16);
      ChunkRead(Number(|data|, 16), data, s);
    }
  }

  lemma NoPart(s: string)
    ensures Part(true, "", false) + s == s
  {
  }

  lemma NothingPrefixed(m: Message)
    ensures Prefixed("", m) == m
  {
    assert m.Message? ==> "" + m.data == m.data;
  }

  lemma ChunkRead(size: string, data: string, s: string)
    requires '\r' !in size && NumberIn(size, 16) == |data| > 0
    ensures ReadChunks(size + CRLF + data + CRLF + s) ==
            Prefixed(data, ReadChunks(s))
  {
    hide *;
    ChunkParts(size, data, s);
    ReadOneChunk(size + CRLF + data + CRLF + s, size, data, s);
  }

  /** `u` begins with a chunk: its size, its data, and then `s`. */
  ghost predicate BeginsWithChunk(u: string, size: string, data: string, s: string) {
    var k, n := |size|, |data|;
    && Find(u, CRLF) == k && |u| >= k + n + 4
    && u[..k] == size && u[k + 2..k + 2 + n] == data && u[k + 2 + n..k + 4 + n] == CRLF && u[k + 4 + n..] == s
  }

  lemma ChunkParts(size: string, data: string, s: string)
    requires '\r' !in size
    ensures BeginsWithChunk(size + CRLF + data + CRLF + s, size, data, s)
  {
    NoReturnNoBreak(size);
    FindAfter(size, data + CRLF + s);
    hide Find;
    Regroup(size, CRLF, data, CRLF, s);
  }

  lemma ReadOneChunk(u: string, size: string, data: string, s: string)
    requires BeginsWithChunk(u, size, data, s) && NumberIn(size, 16) == |data| > 0
    ensures ReadChunks(u) == Prefixed(data, ReadChunks(s))
  {
    hide Find, NumberIn;
  }

  lemma PartIs(data: string)
    requires data != ""
    ensures Part(true, data, false) == Number(|data|, 16) + CRLF + data + CRLF
  {
    hide Number;
  }

  lemma Regroup(a: string, b: string, c: string, d: string, e: string)
    ensures a + b + c + d + e == a + b + (c + d + e)
  {
  }

  lemma LastChunkReadBack(s: string)
    ensures ReadChunks(EndPart(true, true) + s) == Message("", s)
  {
    hide Find;
    FindAfter("0", CRLF + s);
    var u := "0" + CRLF + CRLF + s;
    assert u == "0" + CRLF + (CRLF + s);
    assert u[..1] == "0" && u[3..5] == CRLF && u[5..] == s;
  }

  lemma LastPartReadBack(data: string, s: string)
    ensures ReadChunks(Part(true, data, true) + s) == Message(data, s)
  {
    hide ReadChunks, DataPart;
    PartReadBack(data, EndPart(true, true) + s);
    LastChunkReadBack(s);
    hide EndPart;
    assert DataPart(true, data) + EndPart(true, true) + s == DataPart(true, data) + (EndPart(true, true) + s);
    assert EndPart(true, false) == "" by { NoEnd(); }
    assert Part(true, data, false) == DataPart(true, data);
    assert data + "" == data;
  }

  lemma NoEnd()
    ensures EndPart(true, false) == ""
  {
  }

  /** Chunked coding is undone by reading it: the data of all parts, and nothing after the end is touched. */
  lemma {:induction false} ChunksReadBack(parts: seq<string>, rest: string)
    requires parts != []
    ensures ReadChunks(Body(true, parts) + rest) == Message(Concat(parts), rest)
    decreases |parts|
  {
    hide ReadChunks, Part;
    var part, others := Part(true, parts[0], |parts| == 1), Body(true, parts[1..]);
    assert part + others + rest == part + (others + rest);
    if |parts| == 1 {
      LastPartReadBack(parts[0], rest);
      assert others + rest == rest && Concat(parts) == parts[0];
    } else {
      PartReadBack(parts[0], others + rest);
      ChunksReadBack(parts[1..], rest);
    }
  }

  lemma {:induction false} PlainBody(parts: seq<string>)
    ensures Body(false, parts) == Concat(parts)
    decreases |parts|
  {
    if parts != [] {
      PlainBody(parts[1..]);
    }
  }

  /** A chunk, no chunk, and the end of a body, as section 4.1 of RFC 7230 writes them. */
  lemma ChunksWritten()
    ensures Part(true, "Hello", false) == "5\r\nHello\r\n"
    ensures Part(true, "", false) == "" && Part(true, "", true) == "0\r\n\r\n" && Part(false, "Hello", true) == "Hello"
  {
    NumberFive();
    PartIs("Hello");
    hide Number;
    assert Part(true, "Hello", false) == "5" + "\r\n" + "Hello" + "\r\n";
  }

  lemma NumberFive()
    ensures Number(5, 16) == Number(5, 10) == "5"
  {
  }

  /** A head with one header. */
  lemma HeadWritten()
    ensures HeaderBlock(200, "OK", [Header("Content-Length", "5")]) ==
            "HTTP/1.1 200 OK" + CRLF + "Content-Length: 5" + CRLF + CRLF
  {
    StatusLine();
    SizeLine();
    hide Number, HeaderLines;
    assert HeaderBlock(200, "OK", [Header("Content-Length", "5")]) ==
           "HTTP/1.1 " + "200" + " " + "OK" + CRLF + ("Content-Length: 5" + CRLF) + CRLF;
  }

  lemma StatusLine()
    ensures Number(200, 10) == "200" && "HTTP/1.1 " + "200" + " " + "OK" == "HTTP/1.1 200 OK"
  {
  }

  lemma SizeLine()
    ensures HeaderLines([Header("Content-Length", "5")]) == "Content-Length: 5" + CRLF
  {
    var f := Header("Content-Length", "5");
    assert [f][1..] == [] && HeaderLines([f]) == FieldLine(f) + "";
    assert f.name + ": " + f.value == "Content-Length: 5";
  }

  /** Reading chunks takes more bytes than the data it yields. */
  lemma {:induction false} ChunksCost(s: string)
    ensures var m := ReadChunks(s); m.Message? ==> |m.data| + |m.rest| < |s|
    decreases |s|
  {
    hide Find, NumberIn;
    var k := Find(s, CRLF);
    if k != -1 {
      var n := NumberIn(s[..k], 16);
      if n > 0 && |s| >= k + n + 4 {
        ChunksCost(s[k + 4 + n..]);
      }
    }
  }

  /** Do the headers mark off a body of `size` bytes, in chunks or not, and with nothing after it if `last`? */
  predicate Delimits(h: seq<Header>, chunked: bool, size: nat, last: bool) {
    match FramingOf(h)
    case Chunked => chunked
    case Sized => !chunked && NumberIn(FieldValue(h, "content-length"), 10) == size
    case UntilClose => !chunked && last
  }

  /** A reader of the body gets the data of all parts and leaves what follows, exactly when the headers mark
      the body off. */
  lemma ResponseReadBack(h: seq<Header>, chunked: bool, parts: seq<string>, rest: string)
    requires parts != []
    ensures ReadBody(h, Body(chunked, parts) + rest) == Message(Concat(parts), rest) <==>
            Delimits(h, chunked, |Concat(parts)|, rest == "")
  {
    hide FramingOf, Body, Concat, ReadChunks, NumberIn, FieldValue;
    var s, data := Body(chunked, parts) + rest, Concat(parts);
    if chunked {
      ChunksReadBack(parts, rest);
      ChunksCost(s);
      LongerThanData(s, data, rest);
    } else {
      PlainBody(parts);
      ChunksCost(s);
      PlainRead(data, rest, NumberIn(FieldValue(h, "content-length"), 10));
    }
  }

  lemma LongerThanData(s: string, data: string, rest: string)
    requires |data| + |rest| < |s|
    ensures Message(s, "") != Message(data, rest)
    ensures forall n: nat :: n <= |s| ==> Message(s[..n], s[n..]) != Message(data, rest)
  {
    if rest == "" {
      assert |s| != |data|;
    }
    forall n: nat | n <= |s| ensures Message(s[..n], s[n..]) != Message(data, rest) {
      assert |s[..n]| + |s[n..]| == |s|;
    }
  }

  lemma PlainRead(data: string, rest: string, n: int)
    ensures var s := data + rest;
            && (Message(s, "") == Message(data, rest) <==> rest == "")
            && (0 <= n <= |s| ==> (Message(s[..n], s[n..]) == Message(data, rest) <==> n == |data|))
  {
    var s := data + rest;
    assert rest == "" ==> s == data;
    if 0 <= n <= |s| {
      assert n == |data| ==> s[..n] == data && s[n..] == rest;
      assert |s[..n]| == n;
    }
  }

  /** Headers completed by the first call to write mark the body off, unless the response lasts until the
      connection ends. */
  lemma FramingDelimits(preset: seq<Header>, parts: seq<string>, last: bool)
    requires Unframed(preset) && parts != []
    ensures var one := |parts| == 1;
            var h := WithFraming(preset, |parts[0]|, one);
            Delimits(h, InChunks(preset, one), |Concat(parts)|, last) <==> last || FramingOf(h) != UntilClose
  {
    hide WithFraming, Number, NumberIn, SaysClose, FieldValue, FramingOf;
    FramingChosen(preset, |parts[0]|, |parts| == 1);
    if |parts| == 1 {
      NumberReadBack(|parts[0]|, 10);
      assert parts[1..] == [];
      assert Concat(parts) == parts[0] + "" == parts[0];
    }
  }
}
