/** A response written to a socket, part by part. */
module HttpResponses {
  import opened HeaderFields
  import opened HttpText
  import opened RequestParsing
  import opened ResponseFraming
  import opened Sockets

  class HttpResponse {
    const socket: Socket
    var statusCode: nat
    var statusText: string
    var headers: seq<Header>
    /** Cookies under their names, as they are sent. */
    var cookies: seq<Header>
    var sentHeaders: bool
    var sentLastPart: bool
    var chunkedMode: bool

    constructor (socket: Socket)
      ensures this.socket == socket && headers == [] && cookies == []
      ensures !sentHeaders && !sentLastPart && !chunkedMode
      ensures statusCode == 200 && statusText == "OK"
    {
      this.socket := socket;
      statusCode, statusText, headers, cookies := 200, "OK", [], [];
      sentHeaders, sentLastPart, chunkedMode := false, false, false;
    }

    method SetHeader(name: string, value: string)
      requires !sentHeaders
      modifies this`headers
      ensures headers == Insert(old(headers), name, value)
      ensures forall other :: Has(headers, other) == (other == name || Has(old(headers), other))
      ensures forall other :: Get(headers, other) == if other == name then value else Get(old(headers), other)
    {
      OneSet(headers, name, value);
      headers := Insert(headers, name, value);
    }

    method SetStatus(statusCode: nat, description: string)
      modifies this`statusCode, this`statusText
      ensures this.statusCode == statusCode && statusText == description
    {
      this.statusCode, statusText := statusCode, description;
    }

    /** `text` is the cookie as it is sent; a cookie without a name is ignored. */
    method SetCookie(name: string, text: string)
      requires !sentHeaders
      modifies this`cookies
      ensures cookies == WithCookie(old(cookies), name, text)
      ensures forall other :: Has(cookies, other) == ((other == name && name != "") || Has(old(cookies), other))
      ensures forall other ::
                Get(cookies, other) == if other == name && name != "" then text else Get(old(cookies), other)
    {
      OneSet(cookies, name, text);
      if name != "" {
        cookies := Insert(cookies, name, text);
      }
    }

    /** Puts all of the data on the wire, however little the socket takes at a time, unless a write fails. */
    method WriteToSocket(data: string) returns (r: bool)
      modifies socket`outgoing, socket`failures
      ensures Sent(socket.open, old(socket.outgoing), old(socket.failures), socket.outgoing, socket.failures, data)
      ensures r <==> socket.failures == old(socket.failures)
    {
      var at := 0;
      assert data[..0] == "" && old(socket.outgoing) + "" == old(socket.outgoing);
      while socket.open && at < |data|
        invariant 0 <= at <= |data| && socket.outgoing == old(socket.outgoing) + data[..at]
        invariant socket.failures == old(socket.failures) && (!socket.open ==> at == 0)
        decreases |data| - at
      {
        var written := socket.Write(data[at..]);
        if written == -1 {
          SentSome(old(socket.outgoing), old(socket.failures), socket.outgoing, socket.failures, data, at);
          return false;
        }
        assert data[..at + written] == data[..at] + data[at..][..written];
        at := at + written;
      }
      if socket.open {
        SentSome(old(socket.outgoing), old(socket.failures), socket.outgoing, socket.failures, data, at);
      }
      assert at == |data| ==> data[..at] == data;
      return true;
    }

    method WriteHeaders()
      requires !sentHeaders
      modifies this`sentHeaders, socket`outgoing, socket`failures
      ensures sentHeaders
      ensures Sent(socket.open, old(socket.outgoing), old(socket.failures), socket.outgoing, socket.failures,
                   HeaderBlock(statusCode, statusText, headers + CookieLines(cookies)))
    {
      var buffer := "HTTP/1.1 " + Number(statusCode, 10) + " " + statusText + CRLF;
      hide Number, CookieLines, HeaderLines, Sent;
      buffer := AppendHeaders(buffer, headers);
      buffer := AppendCookies(buffer, cookies);
      BlockOfBoth("HTTP/1.1 " + Number(statusCode, 10) + " " + statusText + CRLF, headers, CookieLines(cookies));
      var _ := WriteToSocket(buffer + CRLF);
      sentHeaders := true;
    }

    /** Sends a part of the body; the first call sends the headers before it, completed by what tells
        the reader where the body ends. */
    method Write(data: string, lastPart: bool)
      requires !sentLastPart
      modifies this, socket`outgoing, socket`failures
      ensures sentHeaders && sentLastPart == lastPart
      ensures statusCode == old(statusCode) && statusText == old(statusText) && cookies == old(cookies)
      ensures headers == if old(sentHeaders) then old(headers) else WithFraming(old(headers), |data|, lastPart)
      ensures chunkedMode == (old(chunkedMode) || (!old(sentHeaders) && InChunks(old(headers), lastPart)))
      ensures Sent(socket.open, old(socket.outgoing), old(socket.failures), socket.outgoing, socket.failures,
                   (if old(sentHeaders) then ""
                    else HeaderBlock(statusCode, statusText, headers + CookieLines(cookies)))
                   + Part(chunkedMode, data, lastPart))
    {
      hide HeaderBlock, Part, WithFraming, SaysClose, Sent, CookieLines;
      ghost var sent := "";
      SentNothing(socket.open, socket.outgoing, socket.failures);
      if !sentHeaders {
        Begin(|data|, lastPart);
        sent := HeaderBlock(statusCode, statusText, headers + CookieLines(cookies));
      }
      ghost var between, failed := socket.outgoing, socket.failures;
      Send(data, lastPart);
      SentBoth(socket.open, old(socket.outgoing), old(socket.failures), between, failed,
               socket.outgoing, socket.failures, sent, Part(chunkedMode, data, lastPart));
    }

    /** Settles the framing and sends the headers. */
    method Begin(size: nat, lastPart: bool)
      requires !sentHeaders
      modifies this`headers, this`sentHeaders, this`chunkedMode, socket`outgoing, socket`failures
      ensures sentHeaders && headers == WithFraming(old(headers), size, lastPart)
      ensures chunkedMode == (old(chunkedMode) || InChunks(old(headers), lastPart))
      ensures Sent(socket.open, old(socket.outgoing), old(socket.failures), socket.outgoing, socket.failures,
                   HeaderBlock(statusCode, statusText, headers + CookieLines(cookies)))
    {
      hide HeaderBlock, Number, Insert, SaysClose, Sent, CookieLines;
      if lastPart {
        headers := Insert(headers, "Content-Length", Number(size, 10));
      } else {
        var connectionClose := SaysClose(headers);
        if !connectionClose {
          headers := Insert(headers, "Transfer-Encoding", "chunked");
          chunkedMode := true;
        }
      }
      WriteHeaders();
    }

    method Send(data: string, lastPart: bool)
      modifies this`sentLastPart, socket`outgoing, socket`failures
      ensures sentLastPart == (lastPart || old(sentLastPart))
      ensures Sent(socket.open, old(socket.outgoing), old(socket.failures), socket.outgoing, socket.failures,
                   Part(chunkedMode, data, lastPart))
    {
      hide DataPart, Sent;
      SendData(data);
      ghost var between, failed := socket.outgoing, socket.failures;
      SentNothing(socket.open, between, failed);
      if lastPart {
        if chunkedMode {
          assert "0\r\n\r\n" == EndPart(chunkedMode, lastPart);
          var _ := WriteToSocket("0\r\n\r\n");
        }
        sentLastPart := true;
      }
      SentBoth(socket.open, old(socket.outgoing), old(socket.failures), between, failed,
               socket.outgoing, socket.failures, DataPart(chunkedMode, data), EndPart(chunkedMode, lastPart));
    }

    method SendData(data: string)
      modifies socket`outgoing, socket`failures
      ensures Sent(socket.open, old(socket.outgoing), old(socket.failures), socket.outgoing, socket.failures,
                   DataPart(chunkedMode, data))
    {
      hide Sent, Number;
      SentNothing(socket.open, socket.outgoing, socket.failures);
      if |data| > 0 {
        if chunkedMode {
          SendChunk(data);
        } else {
          var _ := WriteToSocket(data);
        }
      }
    }

    method SendChunk(data: string)
      modifies socket`outgoing, socket`failures
      ensures Sent(socket.open, old(socket.outgoing), old(socket.failures), socket.outgoing, socket.failures,
                   Number(|data|, 16) + CRLF + data + CRLF)
    {
      hide Sent, Number;
      ghost var o0, f0, size := socket.outgoing, socket.failures, Number(|data|, 16);
      var _ := WriteToSocket(Number(|data|, 16));
      ghost var o1, f1 := socket.outgoing, socket.failures;
      var _ := WriteToSocket(CRLF);
      ghost var o2, f2 := socket.outgoing, socket.failures;
      SentBoth(socket.open, o0, f0, o1, f1, o2, f2, size, CRLF);
      var _ := WriteToSocket(data);
      ghost var o3, f3 := socket.outgoing, socket.failures;
      SentBoth(socket.open, o0, f0, o2, f2, o3, f3, size + CRLF, data);
      var _ := WriteToSocket(CRLF);
      SentBoth(socket.open, o0, f0, o3, f3, socket.outgoing, socket.failures, size + CRLF + data, CRLF);
    }

    /** Sends the client elsewhere. */
    method Redirect(url: string)
      requires !sentHeaders && !sentLastPart && !chunkedMode
      modifies this, socket`outgoing, socket`failures
      ensures sentHeaders && sentLastPart && !chunkedMode && cookies == old(cookies)
      ensures statusCode == 303 && statusText == "See Other"
      ensures headers == WithFraming(Insert(old(headers), "Location", url), 8, true)
      ensures Sent(socket.open, old(socket.outgoing), old(socket.failures), socket.outgoing, socket.failures,
                   HeaderBlock(303, "See Other", headers + CookieLines(cookies)) + Part(false, "Redirect", true))
    {
      hide HeaderBlock, Part, WithFraming, SaysClose, Sent, CookieLines, Insert;
      SetStatus(303, "See Other");
      SetHeader("Location", url);
      Write("Redirect", true);
    }
  }

  /** Setting one name leaves all others as they were. */
  lemma OneSet(h: seq<Header>, name: string, value: string)
    ensures forall other :: Has(Insert(h, name, value), other) == (other == name || Has(h, other))
    ensures forall other :: Get(Insert(h, name, value), other) == if other == name then value else Get(h, other)
  {
    hide Has, Get, Insert;
    forall other: string
      ensures Has(Insert(h, name, value), other) == (other == name || Has(h, other))
      ensures Get(Insert(h, name, value), other) == if other == name then value else Get(h, other)
    {
      GetInserted(h, name, value, other);
    }
  }

  /** Appends one line for each header. */
  method AppendHeaders(start: string, headers: seq<Header>) returns (buffer: string)
    ensures buffer == start + HeaderLines(headers)
  {
    buffer := start;
    var i := 0;
    assert headers[0..] == headers;
    while i < |headers|
      invariant i <= |headers| && buffer + HeaderLines(headers[i..]) == start + HeaderLines(headers)
    {
      NextField(buffer, headers, i);
      buffer := buffer + headers[i].name + ": " + headers[i].value + CRLF;
      i := i + 1;
    }
    NoMoreFields(buffer, headers);
  }

  /** Appends one line for each cookie. */
  method AppendCookies(start: string, cookies: seq<Header>) returns (buffer: string)
    ensures buffer == start + HeaderLines(CookieLines(cookies))
  {
    ghost var all := CookieLines(cookies);
    hide CookieLines, HeaderLines;
    CookieCount(cookies);
    buffer := start;
    var i := 0;
    assert all[0..] == all;
    while i < |cookies|
      invariant i <= |cookies| && buffer + HeaderLines(all[i..]) == start + HeaderLines(all)
    {
      CookieLineAt(cookies, i);
      NextField(buffer, all, i);
      buffer := buffer + "Set-Cookie" + ": " + cookies[i].value + CRLF;
      i := i + 1;
    }
    NoMoreFields(buffer, all);
  }

  lemma NextField(buffer: string, all: seq<Header>, i: nat)
    requires i < |all|
    ensures buffer + HeaderLines(all[i..]) ==
            buffer + all[i].name + ": " + all[i].value + CRLF + HeaderLines(all[i + 1..])
  {
    assert all[i..][1..] == all[i + 1..];
    var a, b, c, rest := all[i].name, all[i].value, CRLF, HeaderLines(all[i + 1..]);
    assert HeaderLines(all[i..]) == a + ": " + b + c + rest;
    hide HeaderLines;
    assert buffer + (a + ": " + b + c + rest) == buffer + a + ": " + b + c + rest;
  }

  lemma NoMoreFields(buffer: string, all: seq<Header>)
    ensures buffer + HeaderLines(all[|all|..]) == buffer
  {
    assert all[|all|..] == [];
  }

  lemma BlockOfBoth(start: string, a: seq<Header>, b: seq<Header>)
    ensures start + HeaderLines(a) + HeaderLines(b) + CRLF == start + HeaderLines(a + b) + CRLF
  {
    LinesOfBoth(a, b);
    hide HeaderLines;
    assert start + HeaderLines(a) + HeaderLines(b) == start + (HeaderLines(a) + HeaderLines(b));
  }

  lemma {:induction false} CookieLineAt(cookies: seq<Header>, i: nat)
    requires i < |cookies|
    ensures |CookieLines(cookies)| == |cookies| && CookieLines(cookies)[i] == Header("Set-Cookie", cookies[i].value)
  {
    CookieCount(cookies);
    if i > 0 {
      CookieLineAt(cookies[1..], i - 1);
    }
  }

  lemma {:induction false} CookieCount(cookies: seq<Header>)
    ensures |CookieLines(cookies)| == |cookies|
  {
    if cookies != [] {
      CookieCount(cookies[1..]);
    }
  }
}
