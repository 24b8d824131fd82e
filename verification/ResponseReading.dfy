/** A client that reads responses from the bytes alone, after sections 3.1.2, 3.2, 3.3.3, 6.1 and 6.6 of RFC 7230. */
module ResponseReading {
  import opened HeaderFields
  import opened HttpText
  import opened ResponseFraming

  /** The head of a response and what follows it. */
  datatype Head = Head(statusCode: nat, statusText: string, headers: seq<Header>, rest: string) | NoHead

  const VERSION := "HTTP/1.1 "

  function ParseHead(s: string): Head {
    if !StartsWith(s, VERSION) then NoHead
    else ParseStatus(s[|VERSION|..])
  }

  /** The status code, the status text and the fields. */
  function ParseStatus(s: string): Head {
    var space := IndexOf(s, ' ');
    var code := if space == -1 then -1 else NumberIn(s[..space], 10);
    if code == -1 then NoHead
    else
      var text := s[space + 1..];
      var k := Find(text, CRLF);
      if k == -1 then NoHead
      else
        match ReadFields(text[k + 2..])
        case Fields(h, rest) => Head(code, text[..k], h, rest)
        case NoFields => NoHead
  }

  lemma ParseStatusBack(code: nat, text: string, t: string)
    requires !HasLineBreak(text)
    ensures ParseStatus(Number(code, 10) + " " + text + CRLF + t) ==
            match ReadFields(t)
            case Fields(h, rest) => Head(code, text, h, rest)
            case NoFields => NoHead
  {
    hide Number, NumberIn, Find, IndexOf, HasLineBreak, ReadFields;
    NumberReadBack(code, 10);
    var number, after := Number(code, 10), text + CRLF + t;
    var s := number + " " + text + CRLF + t;
    assert s == number + [' '] + after;
    IndexAfter(number, ' ', after);
    FindAfter(text, t);
    assert s[..|number|] == number && s[|number| + 1..] == after;
    assert after[..|text|] == text && after[|text| + 2..] == t;
  }

  /** The head written as a whole, in the parts it is read in. */
  lemma HeadParts(code: nat, text: string, h: seq<Header>, s: string)
    ensures var t := HeaderLines(h) + CRLF + s;
            var u := HeaderBlock(code, text, h) + s;
            StartsWith(u, VERSION) && u[|VERSION|..] == Number(code, 10) + " " + text + CRLF + t
  {
    hide Number, HeaderLines;
    var number, lines := Number(code, 10), HeaderLines(h);
    var after := number + " " + text + CRLF + (lines + CRLF + s);
    assert VERSION + number + " " + text + CRLF + lines + CRLF + s == VERSION + after;
  }

  /** A head is read back exactly when its status text has no line break and its fields are clean. */
  lemma HeadReadBack(code: nat, text: string, h: seq<Header>, s: string)
    ensures ParseHead(HeaderBlock(code, text, h) + s) == Head(code, text, h, s) <==> !HasLineBreak(text) && Clean(h)
  {
    hide HeaderBlock, HeaderLines, ReadFields, ParseStatus, HasLineBreak, Clean, Number;
    var t := HeaderLines(h) + CRLF + s;
    HeadParts(code, text, h, s);
    if !HasLineBreak(text) {
      ParseStatusBack(code, text, t);
      FieldsReadBackIff(h, s);
    } else {
      TextIsOneLine(Number(code, 10) + " " + text + CRLF + t);
    }
  }

  /** A reader only ever finds a status text without line breaks. */
  lemma TextIsOneLine(s: string)
    ensures ParseStatus(s).Head? ==> !HasLineBreak(ParseStatus(s).statusText)
  {
    hide ReadFields, NumberIn, IndexOf, HasLineBreak;
    var space := IndexOf(s, ' ');
    if space != -1 && NumberIn(s[..space], 10) != -1 {
      var text := s[space + 1..];
      FirstBreak(text);
      var k := Find(text, CRLF);
      hide Find;
      if k != -1 {
        NoBreakWithin(text[..k + 1], 0, k);
        assert text[..k + 1][0..k] == text[..k];
      }
    }
  }

  /** One response, as it is read. */
  datatype Response = Response(statusCode: nat, statusText: string, headers: seq<Header>, data: string)

  datatype FirstResponse = One(response: Response, rest: string) | Nothing

  /** Status codes whose responses end with their head, whatever it says. */
  predicate Bodiless(statusCode: nat) {
    100 <= statusCode < 200 || statusCode == 204 || statusCode == 304
  }

  /** Does the response to a request with this method end with its head? */
  predicate EndsWithHead(reqMethod: string, statusCode: nat) {
    Bodiless(statusCode) || reqMethod == "HEAD" || (reqMethod == "CONNECT" && 200 <= statusCode < 300)
  }

  /** The response to a request with this method, and what follows it. */
  function ReadResponse(reqMethod: string, s: string): FirstResponse {
    match ParseHead(s)
    case NoHead => Nothing
    case Head(code, text, h, rest) =>
      if EndsWithHead(reqMethod, code) then One(Response(code, text, h, ""), rest)
      else
        match ReadBody(h, rest)
        case Message(data, more) => One(Response(code, text, h, data), more)
        case _ => Nothing
  }

  /** Is `option` among the options, separated by commas, of a field? */
  ghost predicate Lists(value: string, option: string) {
    exists part :: part in Split(value, ',') && Lower(Trimmed(part)) == option
  }

  /** Is the peer told, in any spelling of the name, that the connection will be closed? */
  ghost predicate Announced(h: seq<Header>) {
    h != [] && ((Lower(h[0].name) == "connection" && Lists(h[0].value, "close")) || Announced(h[1..]))
  }

  /** The responses to requests with these methods, up to one that announces a close. */
  ghost function ReadResponses(methods: seq<string>, s: string): seq<Response> {
    if methods == [] then []
    else
      match ReadResponse(methods[0], s)
      case Nothing => []
      case One(response, rest) =>
        [response] + if Announced(response.headers) then [] else ReadResponses(methods[1..], rest)
  }

  lemma {:induction false} AnnouncedBoth(a: seq<Header>, b: seq<Header>)
    ensures Announced(a + b) <==> Announced(a) || Announced(b)
    decreases |a|
  {
    hide Lists, Lower;
    if a == [] {
      assert a + b == b;
    } else {
      AnnouncedBoth(a[1..], b);
      assert (a + b)[1..] == a[1..] + b;
    }
  }

  /** Setting another header neither announces a close nor takes it back. */
  lemma {:induction false} AnnouncedInserted(h: seq<Header>, name: string, value: string)
    requires Lower(name) != "connection"
    ensures Announced(Insert(h, name, value)) <==> Announced(h)
  {
    hide Lists, Lower;
    if h != [] && h[0].name != name && !Before(name, h[0].name) {
      AnnouncedInserted(h[1..], name, value);
    }
  }

  /** A header that says nothing but `close` announces it. */
  lemma {:induction false} CloseIsAnnounced(h: seq<Header>, name: string)
    requires Lower(name) == "connection" && Lower(Get(h, name)) == "close"
    ensures Announced(h)
  {
    NotClose();
    hide Lists, Lower;
    if h != [] {
      if h[0].name == name {
        CloseIsListed(h[0].value);
      } else {
        CloseIsAnnounced(h[1..], name);
      }
    }
  }

  lemma NotClose()
    ensures Lower("") != "close"
  {
    assert |Lower("")| == 0;
  }

  lemma CloseIsListed(value: string)
    requires Lower(value) == "close"
    ensures Lists(value, "close")
  {
    CloseIsOneWord(value);
    hide Lower, Split, Trimmed, IndexOf, TrimmedBetween;
    IndexOfIsFirst(value, ',');
    SplitWhole(value, ',');
    TrimmedIs(value, 0, |value|);
    assert value[0..|value|] == value;
    assert value in Split(value, ',');
  }

  lemma CloseIsOneWord(value: string)
    requires Lower(value) == "close"
    ensures ',' !in value && TrimmedBetween(value, 0, |value|)
  {
    assert |Lower(value)| == |value| == 5;
    forall i | 0 <= i < |value| ensures !IsSpace(value[i]) && value[i] != ',' {
      assert Lower(value)[i] == LowerChar(value[i]);
      assert "close"[i] in "close";
    }
  }

  /** A field whose value holds a line break is a different head: the bytes are those of two fields. */
  lemma SplitField(name: string, value: string, name2: string, value2: string)
    ensures HeaderLines([Header(name, value + CRLF + name2 + ": " + value2)])
            == HeaderLines([Header(name, value), Header(name2, value2)])
  {
    var a, b := Header(name, value), Header(name2, value2);
    assert [a, b][1..] == [b] && [b][1..] == [];
    assert FieldLine(a) + (FieldLine(b) + "") ==
           name + ": " + (value + CRLF + name2 + ": " + value2) + CRLF + "";
  }

  lemma NoSuchField(f: Header, lower: string)
    requires Lower(f.name) != lower
    ensures FieldValue([f], lower) == "" && !HasField([f], lower)
  {
    hide Lower;
    assert [f][1..] == [];
  }

  /** Such a value can change how the response is framed. */
  lemma SplitFraming(code: nat, text: string)
    ensures var length := Header("Content-Length", "0");
            var one := [Header("Location", "/" + CRLF + "Transfer-Encoding" + ": " + "chunked")];
            var two := [Header("Location", "/"), Header("Transfer-Encoding", "chunked")];
            && HeaderBlock(code, text, [length] + one) == HeaderBlock(code, text, [length] + two)
            && FramingOf([length] + one) == Sized && FramingOf([length] + two) == Chunked && Unframed(one)
  {
    var length := Header("Content-Length", "0");
    var location := Header("Location", "/" + CRLF + "Transfer-Encoding" + ": " + "chunked");
    var coding := Header("Transfer-Encoding", "chunked");
    var one, two := [location], [Header("Location", "/"), coding];
    FieldNames();
    assert |Lower("Location")| == 8 && |"content-length"| == 14 && |"transfer-encoding"| == 17;
    assert Lower("Location") != "content-length";
    assert FieldValue([], "content-length") == "";
    assert two[1..] == [coding] && one[1..] == [] && [coding][1..] == [];
    assert ([length] + one)[1..] == one && ([length] + two)[1..] == two;
    assert HeaderLines([length] + one) == HeaderLines([length] + two) by {
      SplitField("Location", "/", "Transfer-Encoding", "chunked");
      hide FieldLine;
    }
    hide HeaderLines, Lower, FieldLine;
    assert FieldValue([coding], "transfer-encoding") == "chunked" && FieldValue(two, "transfer-encoding") == "chunked";
    NoSuchField(location, "transfer-encoding");
    NoSuchField(location, "content-length");
    assert FieldValue([length] + one, "transfer-encoding") == FieldValue(one, "transfer-encoding");
    assert FieldValue([length] + two, "transfer-encoding") == FieldValue(two, "transfer-encoding");
    assert FieldValue([length] + one, "content-length") == "0";
    assert !HasField([], "content-length") && !HasField([], "transfer-encoding");
    assert Unframed(one);
    assert FramingOf([length] + two) == Chunked;
    assert FramingOf([length] + one) == Sized;
  }
}
