/** One connection: collects requests from the socket, has them answered and decides whether to go on. */
module HttpConnectionHandlers {
  import opened ConnectionServing
  import opened HeaderFields
  import opened HttpRequests
  import opened HttpResponses
  import opened HttpText
  import opened RequestParsing
  import opened ResponseFraming
  import opened Sockets

  class HttpConnectionHandler {
    const limits: Limits
    const service: Service
    const socket: Socket
    var currentRequest: HttpRequest?
    /** The requests handed to the request handler so far. */
    ghost var served: seq<Request>

    ghost predicate Valid()
      reads this, socket, currentRequest
    {
      && (currentRequest != null ==>
            currentRequest.limits == limits && Sound(limits, currentRequest.State()) && Reading(currentRequest.State()))
      && (!socket.open ==> socket.incoming == "")
    }

    /** The request under way. */
    ghost function Current(): Request
      reads this, currentRequest
    {
      if currentRequest == null then NEW_REQUEST else currentRequest.State()
    }

    constructor (limits: Limits, service: Service, socket: Socket)
      requires socket.open
      ensures Valid() && currentRequest == null && Current() == NEW_REQUEST && served == []
      ensures this.limits == limits && this.service == service && this.socket == socket
    {
      this.limits, this.service, this.socket := limits, service, socket;
      currentRequest, served := null, [];
    }

    /** Reads until nothing is left to read: serves the requests that are complete and keeps the one under way. */
    method Read()
      requires Valid()
      modifies this`currentRequest, this`served, socket, currentRequest
      ensures Valid() && socket.incoming == ""
      ensures currentRequest == null || currentRequest == old(currentRequest) || fresh(currentRequest)
      ensures var x := Serve(limits, service, old(Current()), old(socket.incoming));
              && Sent(true, old(socket.outgoing), old(socket.failures), socket.outgoing, socket.failures, x.out)
              && served == old(served) + x.requests
              && Current() == x.current && socket.open == (old(socket.open) && x.open)
    {
      ReadingNow();
      hide *;
      if socket.incoming == "" {
        NothingSoFar(limits, service, Current(), socket.outgoing, socket.failures, served);
        return;
      }
      ghost var whole := Serve(limits, service, Current(), socket.incoming);
      ghost var sent, done := "", [];
      NothingServed(limits, service, Current(), socket.incoming);
      ghost var start, failed, before := socket.outgoing, socket.failures, served;
      SentNothing(true, start, failed);
      Regrouped(before, [], []);
      while socket.incoming != ""
        invariant Valid() && Reading(Current())
        invariant currentRequest == null || currentRequest == old(currentRequest) || fresh(currentRequest)
        invariant Sent(true, start, failed, socket.outgoing, socket.failures, sent) && served == before + done
        invariant SoFar(whole, sent, done, Remaining(limits, service, socket.open, Current(), socket.incoming))
        invariant !socket.open ==> socket.incoming == ""
        decreases |socket.incoming|, BodyIsOver(Current())
      {
        ghost var r, s, o, f := Current(), socket.incoming, socket.outgoing, socket.failures;
        ghost var out, requests := ReadOne();
        OneStep(limits, service, r, s, out, requests, socket.open, Current(), socket.incoming, whole, sent, done);
        SentBoth(true, start, failed, o, f, socket.outgoing, socket.failures, sent, out);
        Regrouped(before, done, requests);
        sent, done := sent + out, done + requests;
      }
      AllRead(limits, service, socket.open, Current(), whole, sent, done);
    }

    lemma ReadingNow()
      requires Valid()
      ensures Reading(Current()) && (!socket.open ==> socket.incoming == "")
    {
    }

    /** Collects data for one request and, if it is complete, has it answered. */
    method ReadOne() returns (ghost out: string, ghost requests: seq<Request>)
      requires Valid() && socket.incoming != ""
      modifies this`currentRequest, this`served, socket, currentRequest
      ensures Valid() && Reading(Current())
      ensures currentRequest == null || currentRequest == old(currentRequest) || fresh(currentRequest)
      ensures Sent(true, old(socket.outgoing), old(socket.failures), socket.outgoing, socket.failures, out)
      ensures served == old(served) + requests
      ensures !socket.open ==> socket.incoming == ""
      ensures Stepped(limits, service, old(Current()), old(socket.incoming), out, requests, socket.open, Current(),
                      socket.incoming)
    {
      hide Feed, Sound, Closes, SentHead, SentBody, SentHeaders, Sent;
      out, requests := "", [];
      if currentRequest == null {
        NewIsSound(limits);
        currentRequest := new HttpRequest(limits);
      }
      Collect(currentRequest, socket);
      ghost var q := currentRequest.State();
      SentNothing(true, socket.outgoing, socket.failures);
      if currentRequest.status == Abort {
        socket.WriteShort(TOO_LARGE);
        socket.Disconnect();
        currentRequest := null;
        out := TOO_LARGE;
      } else if currentRequest.status == Complete {
        var closeConnection := Respond(service, currentRequest.State(), socket);
        served := served + [q];
        if closeConnection {
          socket.Disconnect();
        }
        currentRequest := null;
        out, requests := SentHead(service, q) + SentBody(service, q), [q];
      }
    }
  }

  /** One turn of the loop, from the request `r` under way and the bytes `s`. */
  ghost predicate Stepped(limits: Limits, service: Service, r: Request, s: string, out: string, requests: seq<Request>,
                          open: bool, current: Request, rest: string) {
    var x := Feed(limits, r, s);
    var q := x.request;
    if q.status == Abort then out == TOO_LARGE && requests == [] && !open && current == NEW_REQUEST && rest == ""
    else if q.status == Complete then
      && out == SentHead(service, q) + SentBody(service, q) && requests == [q]
      && open == !Closes(q, SentHeaders(service, q)) && current == NEW_REQUEST && rest == (if open then x.rest else "")
    else out == "" && requests == [] && open && current == q && rest == x.rest
  }

  lemma OneStep(limits: Limits, service: Service, r: Request, s: string, out: string, requests: seq<Request>,
                open: bool,
                current: Request, rest: string, whole: Served, sent: string, done: seq<Request>)
    requires Reading(r) && s != "" && Stepped(limits, service, r, s, out, requests, open, current, rest)
    requires SoFar(whole, sent, done, Remaining(limits, service, true, r, s))
    ensures Reading(current) && (|rest| < |s| || (|rest| == |s| && BodyIsOver(r) && !BodyIsOver(current)))
    ensures SoFar(whole, sent + out, done + requests, Remaining(limits, service, open, current, rest))
  {
    hide Feed, Closes, SentHead, SentBody, SentHeaders, Serve, SoFar;
    FeedConsumes(limits, r, s);
    var q := Feed(limits, r, s).request;
    if q.status == Abort {
      GivenUp(limits, service, r, s, whole, sent, done);
    } else if q.status == Complete {
      OneServed(limits, service, r, s, whole, sent, done);
    } else {
      StillUnderWay(limits, service, r, s);
      assert sent + "" == sent && done + [] == done;
    }
  }

  /** Part of a stream has been served: `rest` is what is still to come. */
  ghost predicate SoFar(whole: Served, sent: string, done: seq<Request>, rest: Served) {
    whole == After(sent, done, rest)
  }

  lemma Regrouped(p: seq<Request>, q: seq<Request>, r: seq<Request>)
    ensures p + q + r == p + (q + r) && p + [] == p
  {
  }

  /** What is still to come of a connection; nothing, once it is closed. */
  ghost function Remaining(limits: Limits, service: Service, open: bool, current: Request, s: string): Served
    requires Reading(current)
  {
    if open then Serve(limits, service, current, s) else Served("", false, current, [])
  }

  lemma NothingServed(limits: Limits, service: Service, r: Request, s: string)
    requires Reading(r)
    ensures var whole := Serve(limits, service, r, s); SoFar(whole, "", [], Remaining(limits, service, true, r, s))
  {
    hide Serve;
    AfterNothing(Serve(limits, service, r, s));
  }

  lemma NothingSoFar(limits: Limits, service: Service, r: Request, outgoing: string, failures: nat,
                     served: seq<Request>)
    requires Reading(r)
    ensures var x := Serve(limits, service, r, "");
            x == Served("", true, r, []) && Sent(true, outgoing, failures, outgoing, failures, x.out)
            && served + x.requests == served
  {
  }

  lemma AllRead(limits: Limits, service: Service, open: bool, r: Request, whole: Served, sent: string,
                done: seq<Request>)
    requires Reading(r) && SoFar(whole, sent, done, Remaining(limits, service, open, r, ""))
    ensures whole == Served(sent, open, r, done)
  {
    assert sent + "" == sent && done + [] == done;
  }

  lemma GivenUp(limits: Limits, service: Service, r: Request, s: string, whole: Served, sent: string,
                done: seq<Request>)
    requires Reading(r) && s != "" && Feed(limits, r, s).request.status == Abort
    requires SoFar(whole, sent, done, Serve(limits, service, r, s))
    ensures SoFar(whole, sent + TOO_LARGE, done + [], Served("", false, NEW_REQUEST, []))
  {
    hide Feed;
    assert sent + TOO_LARGE + "" == sent + TOO_LARGE && done + [] + [] == done + [];
  }

  lemma StillUnderWay(limits: Limits, service: Service, r: Request, s: string)
    requires Reading(r) && s != "" && Reading(Feed(limits, r, s).request)
    ensures Serve(limits, service, r, s) == Serve(limits, service, Feed(limits, r, s).request, "")
  {
    hide Feed;
  }

  lemma OneServed(limits: Limits, service: Service, r: Request, s: string, whole: Served, sent: string,
                  done: seq<Request>)
    requires Reading(r) && s != "" && Feed(limits, r, s).request.status == Complete
    requires SoFar(whole, sent, done, Serve(limits, service, r, s))
    ensures var x := Feed(limits, r, s);
            var q := x.request;
            SoFar(whole, sent + (SentHead(service, q) + SentBody(service, q)), done + [q],
                  if Closes(q, SentHeaders(service, q)) then Served("", false, NEW_REQUEST, [])
                  else Serve(limits, service, NEW_REQUEST, x.rest))
  {
    hide Feed, Closes, SentHead, SentBody, SentHeaders;
    var x := Feed(limits, r, s);
    var q := x.request;
    var out := SentHead(service, q) + SentBody(service, q);
    FeedConsumes(limits, r, s);
    if Closes(q, SentHeaders(service, q)) {
      assert out + "" == out && [q] + [] == [q];
      assert Served(out, false, NEW_REQUEST, [q]) == After(out, [q], Served("", false, NEW_REQUEST, []));
      AfterAfter(sent, done, out, [q], Served("", false, NEW_REQUEST, []));
    } else {
      AfterAfter(sent, done, out, [q], Serve(limits, service, NEW_REQUEST, x.rest));
    }
  }

  /** Collects data for one request until it is complete, given up, or nothing is left to read. */
  method Collect(request: HttpRequest, socket: Socket)
    requires Sound(request.limits, request.State()) && Reading(request.State())
    modifies request, socket`incoming
    ensures Sound(request.limits, request.State())
    ensures Feed(request.limits, old(request.State()), old(socket.incoming)) == Fed(request.State(), socket.incoming)
  {
    hide Feed, Sound;
    ghost var fed := Feed(request.limits, request.State(), socket.incoming);
    while socket.incoming != "" && request.status != Complete && request.status != Abort
      invariant Sound(request.limits, request.State())
      invariant Feed(request.limits, request.State(), socket.incoming) == fed
      decreases |socket.incoming|, Reading(request.State())
    {
      ghost var r, s := request.State(), socket.incoming;
      ghost var taken := request.ReadFromSocket(socket);
      FedOn(request.limits, r, s, taken, request.State(), socket.incoming);
    }
    if socket.incoming == "" {
      FeedNothing(request.limits, request.State());
    } else {
      FeedDone(request.limits, request.State(), socket.incoming);
    }
  }

  lemma FedOn(limits: Limits, r: Request, s: string, taken: string, q: Request, rest: string)
    requires s == taken + rest && s != "" && Reading(r) && (taken == "" <==> BodyIsOver(r))
    requires taken != "" ==> Feed(limits, r, taken) == Fed(q, "")
    requires taken == "" ==> Feed(limits, r, s) == Fed(q, rest)
    ensures Feed(limits, q, rest) == Feed(limits, r, s)
    ensures |rest| < |s| || !Reading(q)
  {
    hide Feed;
    if taken == "" {
      StopsWhenOver(limits, r, s);
      FeedDone(limits, q, rest);
    } else {
      FeedAppend(limits, r, taken, rest);
      assert "" + rest == rest;
    }
  }

  /** The headers with which the parts are sent. */
  ghost function Framed(reply: Reply, preset: seq<Header>): seq<Header> {
    WithFraming(preset, |AllParts(reply)[0]|, |AllParts(reply)| == 1)
  }

  ghost predicate Chunks(reply: Reply, preset: seq<Header>) {
    InChunks(preset, |AllParts(reply)| == 1)
  }

  /** Head and body of the whole response. */
  ghost function WholeResponse(reply: Reply, preset: seq<Header>, cookies: seq<Header>): string {
    HeaderBlock(reply.statusCode, reply.statusText, Framed(reply, preset) + CookieLines(cookies))
    + Body(Chunks(reply, preset), AllParts(reply))
  }

  /** The first `i` parts have been written, `sent` altogether. */
  ghost predicate InProgress(response: HttpResponse, reply: Reply, preset: seq<Header>, cookies: seq<Header>, i: nat,
                             sent: string)
    requires i <= |AllParts(reply)|
    reads response, response.socket
  {
    && response.socket.open && response.sentHeaders == (i > 0) && response.sentLastPart == (i == |AllParts(reply)|)
    && response.statusCode == reply.statusCode && response.statusText == reply.statusText
    && response.headers == (if i == 0 then preset else Framed(reply, preset)) && response.cookies == cookies
    && response.chunkedMode == (i > 0 && Chunks(reply, preset))
    && (if i == 0 then sent == ""
        else sent + Body(Chunks(reply, preset), AllParts(reply)[i..]) == WholeResponse(reply, preset, cookies))
  }

  lemma BodyFrom(chunked: bool, all: seq<string>, i: nat)
    requires i < |all|
    ensures Body(chunked, all[i..]) == Part(chunked, all[i], i == |all| - 1) + Body(chunked, all[i + 1..])
  {
    hide Part;
    assert all[i..][1..] == all[i + 1..];
  }

  method WritePart(response: HttpResponse, ghost reply: Reply, ghost preset: seq<Header>, ghost cookies: seq<Header>,
                   ghost i: nat, data: string, lastPart: bool, ghost sent: string) returns (ghost more: string)
    requires i < |AllParts(reply)| && InProgress(response, reply, preset, cookies, i, sent)
    requires data == AllParts(reply)[i] && lastPart == (i == |AllParts(reply)| - 1)
    modifies response, response.socket`outgoing, response.socket`failures
    ensures InProgress(response, reply, preset, cookies, i + 1, sent + more)
    ensures Sent(true, old(response.socket.outgoing), old(response.socket.failures),
                 response.socket.outgoing, response.socket.failures, more)
  {
    hide HeaderBlock, Part, WithFraming, SaysClose, AllParts, Body, Sent, CookieLines;
    ghost var all, chunked := AllParts(reply), Chunks(reply, preset);
    BodyFrom(chunked, all, i);
    assert all[0..] == all;
    response.Write(data, lastPart);
    ghost var head := if i > 0 then "" else HeaderBlock(response.statusCode, response.statusText,
                                                        response.headers + CookieLines(response.cookies));
    more := head + Part(chunked, data, lastPart);
    MoreSent(sent, head, Part(chunked, data, lastPart), Body(chunked, all[i + 1..]));
  }

  lemma MoreSent(sent: string, head: string, part: string, rest: string)
    ensures sent + (head + part) + rest == sent + (head + (part + rest)) == sent + head + (part + rest)
    ensures "" + (part + rest) == part + rest && "" + head == head && sent + "" == sent
  {
  }

  /** Has the request answered; tells whether the connection is to be closed. */
  method Respond(service: Service, r: Request, socket: Socket) returns (closeConnection: bool)
    requires socket.open
    modifies socket`outgoing, socket`failures
    ensures Sent(true, old(socket.outgoing), old(socket.failures), socket.outgoing, socket.failures,
                 SentHead(service, r) + SentBody(service, r))
    ensures closeConnection == Closes(r, SentHeaders(service, r))
  {
    hide Lower, SaysClose, Body, HeaderBlock, WithFraming, SetAll, SetCookies, CookieLines, AllParts, Sent;
    var response := new HttpResponse(socket);
    closeConnection := Lower(ValueOf(r.headers, "connection")) == "close";
    if closeConnection {
      response.SetHeader("Connection", "close");
    } else {
      var http10 := Lower(r.version) == "http/1.0";
      if http10 {
        closeConnection := true;
        response.SetHeader("Connection", "close");
      }
    }
    var reply := service(r);
    ghost var sent := ServiceRequest(reply, response);
    PartsWritten(reply);
    if !response.sentLastPart {
      ghost var o, f := socket.outgoing, socket.failures;
      ghost var more :=
        WritePart(response, reply, Preset(service, r), SetCookies([], reply.cookies), |reply.parts|, "", true, sent);
      SentBoth(true, old(socket.outgoing), old(socket.failures), o, f, socket.outgoing, socket.failures, sent, more);
      sent := sent + more;
    }
    AllWritten(AllParts(reply), response.chunkedMode, sent);
    assert sent == SentHead(service, r) + SentBody(service, r);
    closeConnection := StillCloses(closeConnection, response.headers);
  }

  /** Is the connection to be closed after a response with these headers? */
  method StillCloses(closing: bool, headers: seq<Header>) returns (closeConnection: bool)
    ensures closeConnection <==> closing || Lower(Get(headers, "Connection")) == "close"
                                 || (!Has(headers, "Content-Length") &&
                                     Lower(Get(headers, "Transfer-Encoding")) != "chunked")
  {
    closeConnection := closing;
    if !closeConnection {
      var closeResponse := Lower(Get(headers, "Connection")) == "close";
      if closeResponse {
        closeConnection := true;
      } else {
        var hasContentLength := Has(headers, "Content-Length");
        if !hasContentLength {
          var hasChunkedMode := Lower(Get(headers, "Transfer-Encoding")) == "chunked";
          if !hasChunkedMode {
            closeConnection := true;
          }
        }
      }
    }
  }

  lemma AllWritten(all: seq<string>, chunked: bool, sent: string)
    ensures sent + Body(chunked, all[|all|..]) == sent
  {
  }

  lemma PartsWritten(reply: Reply)
    ensures |reply.parts| <= |AllParts(reply)| && reply.parts == AllParts(reply)[..|reply.parts|]
    ensures |reply.parts| < |AllParts(reply)| ==> AllParts(reply) == reply.parts + [""]
    ensures |reply.parts| == |AllParts(reply)| <==> reply.finished && reply.parts != []
  {
  }

  /** The request handler at work: it sets headers and cookies and writes parts. */
  method ServiceRequest(reply: Reply, response: HttpResponse) returns (ghost sent: string)
    requires !response.sentHeaders && !response.sentLastPart && !response.chunkedMode && response.socket.open
    modifies response, response.socket`outgoing, response.socket`failures
    ensures |reply.parts| <= |AllParts(reply)|
    ensures InProgress(response, reply, SetAll(old(response.headers), reply.preset),
                       SetCookies(old(response.cookies), reply.cookies), |reply.parts|, sent)
    ensures Sent(true, old(response.socket.outgoing), old(response.socket.failures),
                 response.socket.outgoing, response.socket.failures, sent)
  {
    hide AllParts, InProgress, SetAll, SetCookies, Sent;
    ghost var preset, cookies := SetAll(response.headers, reply.preset), SetCookies(response.cookies, reply.cookies);
    response.SetStatus(reply.statusCode, reply.statusText);
    SetHeaders(reply.preset, response);
    BakeCookies(reply.cookies, response);
    PartsWritten(reply);
    Begun(response, reply, preset, cookies);
    sent := "";
    SentNothing(true, response.socket.outgoing, response.socket.failures);
    var i := 0;
    while i < |reply.parts|
      invariant i <= |reply.parts| && InProgress(response, reply, preset, cookies, i, sent)
      invariant Sent(true, old(response.socket.outgoing), old(response.socket.failures),
                     response.socket.outgoing, response.socket.failures, sent)
    {
      ghost var o, f := response.socket.outgoing, response.socket.failures;
      ghost var more := WritePart(response, reply, preset, cookies, i, reply.parts[i],
                                  reply.finished && i == |reply.parts| - 1, sent);
      SentBoth(true, old(response.socket.outgoing), old(response.socket.failures), o, f,
               response.socket.outgoing, response.socket.failures, sent, more);
      sent := sent + more;
      i := i + 1;
    }
  }

  lemma Begun(response: HttpResponse, reply: Reply, preset: seq<Header>, cookies: seq<Header>)
    requires !response.sentHeaders && !response.sentLastPart && !response.chunkedMode && response.socket.open
    requires response.statusCode == reply.statusCode && response.statusText == reply.statusText
    requires response.headers == preset && response.cookies == cookies
    ensures InProgress(response, reply, preset, cookies, 0, "")
  {
  }

  method BakeCookies(cookies: seq<Header>, response: HttpResponse)
    requires !response.sentHeaders
    modifies response`cookies
    ensures response.cookies == SetCookies(old(response.cookies), cookies)
  {
    hide Insert;
    var i := 0;
    assert cookies[0..] == cookies;
    while i < |cookies|
      invariant i <= |cookies|
      invariant SetCookies(response.cookies, cookies[i..]) == SetCookies(old(response.cookies), cookies)
    {
      assert cookies[i..][1..] == cookies[i + 1..];
      response.SetCookie(cookies[i].name, cookies[i].value);
      i := i + 1;
    }
  }

  method SetHeaders(preset: seq<Header>, response: HttpResponse)
    requires !response.sentHeaders
    modifies response`headers
    ensures response.headers == SetAll(old(response.headers), preset)
  {
    hide Insert;
    var i := 0;
    assert preset[0..] == preset;
    while i < |preset|
      invariant i <= |preset| && SetAll(response.headers, preset[i..]) == SetAll(old(response.headers), preset)
    {
      assert preset[i..][1..] == preset[i + 1..];
      response.SetHeader(preset[i].name, preset[i].value);
      i := i + 1;
    }
  }

  lemma {:induction false} ConcatAppend(pieces: seq<string>, piece: string)
    ensures Concat(pieces + [piece]) == Concat(pieces) + piece
  {
    if pieces == [] {
      assert [piece][1..] == [] && piece + "" == piece && "" + piece == piece;
      assert [] + [piece] == [piece];
    } else {
      ConcatAppend(pieces[1..], piece);
      assert (pieces + [piece])[1..] == pieces[1..] + [piece];
      assert pieces[0] + (Concat(pieces[1..]) + piece) == pieces[0] + Concat(pieces[1..]) + piece;
    }
  }

  /** A connection that was new has done what `x` says; `start` was on the wire before, with `failed` failures. */
  ghost predicate AsServed(x: Served, start: string, failed: nat, outgoing: string, failures: nat,
                           served: seq<Request>, open: bool, current: Request) {
    && Sent(true, start, failed, outgoing, failures, x.out)
    && served == x.requests && open == x.open && current == x.current
  }

  lemma NothingYet(limits: Limits, service: Service, start: string, failed: nat)
    ensures AsServed(Serve(limits, service, NEW_REQUEST, ""), start, failed, start, failed, [], true, NEW_REQUEST)
  {
    SentNothing(true, start, failed);
  }

  /** A further piece, read by a connection that is still open; one that is not stays as it is. */
  lemma PieceServed(limits: Limits, service: Service, s: string, piece: string, start: string, failed: nat,
                    outgoing: string, failures: nat, served: seq<Request>, open: bool, current: Request,
                    outgoing': string, failures': nat)
    requires AsServed(Serve(limits, service, NEW_REQUEST, s), start, failed, outgoing, failures, served, open, current)
    requires open ==> Reading(current)
    requires if open then
               Sent(true, outgoing, failures, outgoing', failures', Serve(limits, service, current, piece).out)
             else outgoing' == outgoing && failures' == failures
    ensures var x := Serve(limits, service, NEW_REQUEST, s + piece);
            if open then
              var y := Serve(limits, service, current, piece);
              AsServed(x, start, failed, outgoing', failures', served + y.requests, y.open, y.current)
            else AsServed(x, start, failed, outgoing', failures', served, false, current)
  {
    hide Serve, Sent;
    ServeAppend(limits, service, NEW_REQUEST, s, piece);
    var x := Serve(limits, service, NEW_REQUEST, s);
    if open {
      var y := Serve(limits, service, current, piece);
      SentBoth(true, start, failed, outgoing, failures, outgoing', failures', x.out, y.out);
    }
  }

  lemma OpenMeansReading(limits: Limits, service: Service, s: string, start: string, failed: nat,
                         outgoing: string, failures: nat, served: seq<Request>, open: bool, current: Request)
    requires AsServed(Serve(limits, service, NEW_REQUEST, s), start, failed, outgoing, failures, served, open, current)
    ensures open ==> Reading(current)
  {
    hide Serve;
    ServeAppend(limits, service, NEW_REQUEST, s, "");
  }

  /** A stream arriving in pieces, each read as it comes: everything sent, served and left under way
      is what the stream as a whole determines. */
  method ReceiveInPieces(limits: Limits, service: Service, socket: Socket, pieces: seq<string>)
    returns (handler: HttpConnectionHandler)
    requires socket.open && socket.incoming == ""
    modifies socket
    ensures AsServed(Serve(limits, service, NEW_REQUEST, Concat(pieces)), old(socket.outgoing), old(socket.failures),
                     socket.outgoing, socket.failures, handler.served, socket.open, handler.Current())
  {
    hide Serve, AsServed, Sent;
    handler := new HttpConnectionHandler(limits, service, socket);
    NothingYet(limits, service, socket.outgoing, socket.failures);
    assert pieces[..0] == [];
    var i := 0;
    while i < |pieces|
      invariant i <= |pieces| && fresh(handler) && handler.Valid() && socket.incoming == ""
      invariant handler.limits == limits && handler.service == service && handler.socket == socket
      invariant handler.currentRequest == null || fresh(handler.currentRequest)
      invariant AsServed(Serve(limits, service, NEW_REQUEST, Concat(pieces[..i])), old(socket.outgoing),
                         old(socket.failures), socket.outgoing, socket.failures, handler.served, socket.open,
                         handler.Current())
    {
      ghost var s, o, f, v, open, r :=
        Concat(pieces[..i]), socket.outgoing, socket.failures, handler.served, socket.open, handler.Current();
      OpenMeansReading(limits, service, s, old(socket.outgoing), old(socket.failures), o, f, v, open, r);
      assert pieces[..i + 1] == pieces[..i] + [pieces[i]];
      ConcatAppend(pieces[..i], pieces[i]);
      Arrive(handler, pieces[i]);
      PieceServed(limits, service, s, pieces[i], old(socket.outgoing), old(socket.failures), o, f, v, open, r,
                  socket.outgoing, socket.failures);
      i := i + 1;
    }
    assert pieces[..i] == pieces;
  }

  /** A piece arrives and is read, if the connection is open. */
  method Arrive(handler: HttpConnectionHandler, piece: string)
    requires handler.Valid() && handler.socket.incoming == ""
    modifies handler, handler.socket, handler.currentRequest
    ensures handler.Valid() && handler.socket.incoming == ""
    ensures handler.currentRequest in {null, old(handler.currentRequest)} || fresh(handler.currentRequest)
    ensures if old(handler.socket.open) then
              var x := Serve(handler.limits, handler.service, old(handler.Current()), piece);
              && Sent(true, old(handler.socket.outgoing), old(handler.socket.failures),
                      handler.socket.outgoing, handler.socket.failures, x.out)
              && handler.served == old(handler.served) + x.requests
              && handler.Current() == x.current && handler.socket.open == x.open
            else
              && handler.socket.outgoing == old(handler.socket.outgoing)
              && handler.socket.failures == old(handler.socket.failures) && handler.served == old(handler.served)
              && handler.Current() == old(handler.Current()) && !handler.socket.open
  {
    hide Serve, Sent;
    handler.socket.Receive(piece);
    assert "" + piece == piece;
    if handler.socket.open {
      handler.Read();
    }
  }
}
