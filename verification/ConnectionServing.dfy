/** What a connection does with the bytes it receives: requests served one after another,
    as a function of the stream alone. */
module ConnectionServing {
  import opened HeaderFields
  import opened HttpText
  import opened RequestParsing
  import opened ResponseFraming
  import opened ResponseReading

  /** What a request handler does with a response: the headers and cookies it sets, the parts it writes,
      and whether it marked the last of them as the end. */
  datatype Reply = Reply(
    statusCode: nat,
    statusText: string,
    preset: seq<Header>,
    cookies: seq<Header>,
    parts: seq<string>,
    finished: bool
  )

  type Service = Request -> Reply

  /** All parts written; a response left unfinished is ended with an empty one. */
  function AllParts(reply: Reply): (r: seq<string>)
    ensures r != []
  {
    if reply.finished && reply.parts != [] then reply.parts else reply.parts + [""]
  }

  function SetAll(h: seq<Header>, preset: seq<Header>): seq<Header>
    decreases |preset|
  {
    if preset == [] then h else SetAll(Insert(h, preset[0].name, preset[0].value), preset[1..])
  }

  function SetCookies(c: seq<Header>, cookies: seq<Header>): seq<Header>
    decreases |cookies|
  {
    if cookies == [] then c else SetCookies(WithCookie(c, cookies[0].name, cookies[0].value), cookies[1..])
  }

  /** The client asks to close, or speaks a version without chunks. */
  predicate AsksToClose(r: Request) {
    Lower(ValueOf(r.headers, "connection")) == "close" || Lower(r.version) == "http/1.0"
  }

  function Preset(service: Service, r: Request): seq<Header> {
    SetAll(if AsksToClose(r) then Insert([], "Connection", "close") else [], service(r).preset)
  }

  function Parts(service: Service, r: Request): (p: seq<string>)
    ensures p != []
  {
    AllParts(service(r))
  }

  function SentHeaders(service: Service, r: Request): seq<Header> {
    WithFraming(Preset(service, r), |Parts(service, r)[0]|, |Parts(service, r)| == 1)
  }

  /** All fields of the head: the headers and then the cookies. */
  function SentFields(service: Service, r: Request): seq<Header> {
    SentHeaders(service, r) + CookieLines(SetCookies([], service(r).cookies))
  }

  function SentHead(service: Service, r: Request): string {
    HeaderBlock(service(r).statusCode, service(r).statusText, SentFields(service, r))
  }

  function SentBody(service: Service, r: Request): string {
    Body(InChunks(Preset(service, r), |Parts(service, r)| == 1), Parts(service, r))
  }

  /** Is the connection closed after a response with these headers? */
  predicate Closes(r: Request, h: seq<Header>) {
    || AsksToClose(r)
    || Lower(Get(h, "Connection")) == "close"
    || (!Has(h, "Content-Length") && Lower(Get(h, "Transfer-Encoding")) != "chunked")
  }

  const TOO_LARGE := "HTTP/1.1 413 entity too large" + CRLF + "Connection: close" + CRLF + CRLF
                     + "413 Entity too large" + CRLF

  /** What was sent, whether the connection is still open, the request under way, the requests served. */
  datatype Served = Served(out: string, open: bool, current: Request, requests: seq<Request>)

  function After(out: string, requests: seq<Request>, rest: Served): Served {
    rest.(out := out + rest.out, requests := requests + rest.requests)
  }

  function Serve(limits: Limits, service: Service, r: Request, s: string): Served
    requires Reading(r)
    decreases |s|, BodyIsOver(r)
  {
    if s == "" then Served("", true, r, [])
    else
      var x := Feed(limits, r, s);
      FeedConsumes(limits, r, s);
      var q := x.request;
      if q.status == Abort then Served(TOO_LARGE, false, NEW_REQUEST, [])
      else if q.status != Complete then Served("", true, q, [])
      else
        var out := SentHead(service, q) + SentBody(service, q);
        if Closes(q, SentHeaders(service, q)) then Served(out, false, NEW_REQUEST, [q])
        else After(out, [q], Serve(limits, service, NEW_REQUEST, x.rest))
  }

  // ----- the headers that are sent -----

  /** The value set last under a name, or nothing. */
  function LastSet(preset: seq<Header>, name: string): string {
    if preset == [] then ""
    else
      var f := preset[|preset| - 1];
      if f.name == name then f.value else LastSet(preset[..|preset| - 1], name)
  }

  /** Is a header set under this very name? */
  predicate Sets(preset: seq<Header>, name: string) {
    exists i :: 0 <= i < |preset| && preset[i].name == name
  }

  /** Setting headers one after another leaves under each name what was set last. */
  lemma {:induction false} AllSet(h: seq<Header>, preset: seq<Header>, name: string)
    ensures Has(SetAll(h, preset), name) <==> Has(h, name) || Sets(preset, name)
    ensures Get(SetAll(h, preset), name) == if Sets(preset, name) then LastSet(preset, name) else Get(h, name)
    decreases |preset|
  {
    hide Has, Get, Insert;
    if preset == [] {
      assert SetAll(h, preset) == h;
    } else {
      var n := |preset| - 1;
      AllSet(h, preset[..n], name);
      SetOneMore(h, preset[..n], preset[n]);
      assert preset == preset[..n] + [preset[n]];
      GetInserted(SetAll(h, preset[..n]), preset[n].name, preset[n].value, name);
      SetsOneMore(preset[..n], preset[n], name);
    }
  }

  lemma {:induction false} SetOneMore(h: seq<Header>, preset: seq<Header>, f: Header)
    ensures SetAll(h, preset + [f]) == Insert(SetAll(h, preset), f.name, f.value)
    decreases |preset|
  {
    hide Insert;
    if preset == [] {
      assert [f][1..] == [] && preset + [f] == [f];
    } else {
      assert (preset + [f])[1..] == preset[1..] + [f];
      SetOneMore(Insert(h, preset[0].name, preset[0].value), preset[1..], f);
    }
  }

  lemma SetsOneMore(preset: seq<Header>, f: Header, name: string)
    ensures Sets(preset + [f], name) <==> Sets(preset, name) || f.name == name
  {
    var all := preset + [f];
    assert all[|preset|] == f;
    assert forall i :: 0 <= i < |preset| ==> all[i] == preset[i];
  }

  /** The headers before the first write are those the handler set, each with its last value; `Connection: close` is
      among them, unless the handler replaced it, exactly if the client asked for a close or speaks HTTP/1.0. */
  lemma PresetMeans(service: Service, r: Request, name: string)
    ensures var asked := Lower(ValueOf(r.headers, "connection")) == "close" || Lower(r.version) == "http/1.0";
            var preset := service(r).preset;
            && (Has(Preset(service, r), name) <==> Sets(preset, name) || (asked && name == "Connection"))
            && Get(Preset(service, r), name) ==
               if Sets(preset, name) then LastSet(preset, name)
               else if asked && name == "Connection" then "close" else ""
  {
    assert Insert([], "Connection", "close") == [Header("Connection", "close")];
    assert [Header("Connection", "close")][1..] == [];
    AllSet([], service(r).preset, name);
    AllSet([Header("Connection", "close")], service(r).preset, name);
    hide SetAll, Sets, Lower, ValueOf, LastSet;
  }

  /** A client that asks for a close, or speaks HTTP/1.0, is told of it, and the connection is closed, whatever
      the handler sets under other names. */
  lemma AskedCloseIsTold(service: Service, r: Request)
    requires Lower(ValueOf(r.headers, "connection")) == "close" || Lower(r.version) == "http/1.0"
    requires forall i :: 0 <= i < |service(r).preset| ==> Lower(service(r).preset[i].name) != "connection"
    ensures Announced(SentFields(service, r)) && Closes(r, SentHeaders(service, r))
  {
    NoConnectionSet(service(r).preset);
    ConnectionNames();
    PresetMeans(service, r, "Connection");
    AnnouncedFields(service, r);
    ClosesByPreset(service, r);
    hide Announced, Closes, Preset, Lower, Get, ValueOf, Has;
    assert Lower("close") == "close" by { CloseInLowerCase(); }
    CloseIsAnnounced(Preset(service, r), "Connection");
  }

  lemma CloseInLowerCase()
    ensures Lower("close") == "close"
  {
  }

  lemma NoConnectionSet(preset: seq<Header>)
    requires forall i :: 0 <= i < |preset| ==> Lower(preset[i].name) != "connection"
    ensures !Sets(preset, "Connection") && !Sets(preset, "connection")
  {
    ConnectionNames();
  }

  /** Such a client gets several parts plainly, as HTTP/1.0 demands, and their end is the close. */
  lemma AskedCloseIsPlain(service: Service, r: Request)
    requires Lower(ValueOf(r.headers, "connection")) == "close" || Lower(r.version) == "http/1.0"
    requires forall i :: 0 <= i < |service(r).preset| ==> Lower(service(r).preset[i].name) != "connection"
    requires |Parts(service, r)| > 1
    ensures SentBody(service, r) == Concat(Parts(service, r)) && SentHeaders(service, r) == Preset(service, r)
  {
    NoConnectionSet(service(r).preset);
    PresetMeans(service, r, "Connection");
    CloseInLowerCase();
    ChunkedUnlessClosing(Preset(service, r), |Parts(service, r)[0]|);
    PlainBody(Parts(service, r));
    hide Preset, Parts, Lower, Get, ValueOf, Has, Body, Concat, Sets;
  }

  /** The calls to write: the handler's own, and one more without data if it has not marked an end. */
  lemma PartsMean(service: Service, r: Request)
    ensures var reply := service(r);
            Parts(service, r) == reply.parts + if reply.finished && |reply.parts| > 0 then [] else [""]
    ensures Concat(Parts(service, r)) == Concat(service(r).parts)
  {
    ConcatWithNothing(service(r).parts);
    assert service(r).parts + [] == service(r).parts;
  }

  lemma {:induction false} ConcatWithNothing(parts: seq<string>)
    ensures Concat(parts + [""]) == Concat(parts)
    decreases |parts|
  {
    if parts == [] {
      assert (parts + [""])[1..] == [];
    } else {
      ConcatWithNothing(parts[1..]);
      assert (parts + [""])[1..] == parts[1..] + [""];
    }
  }

  /** A response finished in one call is sent plainly, with its size. */
  lemma AtOnceIsSized(service: Service, r: Request)
    requires service(r).finished && |service(r).parts| == 1
    ensures var data := service(r).parts[0];
            && SentBody(service, r) == data && Get(SentHeaders(service, r), "Content-Length") == Number(|data|, 10)
            && forall name :: name != "Content-Length" ==>
                 Get(SentHeaders(service, r), name) == Get(Preset(service, r), name)
  {
    var data := service(r).parts[0];
    PartsMean(service, r);
    PlainBody([data]);
    assert Parts(service, r) == [data] && [data][1..] == [] && Concat([data]) == data + "" == data;
    SizedAtOnce(Preset(service, r), |data|);
    hide Preset, Get, Number, Body, Concat, Has;
  }

  /** Cookies set one after another: each name has the last one set under it, and there is none without a name. */
  lemma {:induction false} CookiesSet(c: seq<Header>, cookies: seq<Header>, name: string)
    ensures Has(SetCookies(c, cookies), name) <==> Has(c, name) || (name != "" && Sets(cookies, name))
    ensures Get(SetCookies(c, cookies), name) ==
            if name != "" && Sets(cookies, name) then LastSet(cookies, name) else Get(c, name)
    decreases |cookies|
  {
    hide Has, Get, Insert;
    if cookies == [] {
      assert SetCookies(c, cookies) == c;
    } else {
      var n := |cookies| - 1;
      CookiesSet(c, cookies[..n], name);
      SetOneCookie(c, cookies[..n], cookies[n]);
      assert cookies == cookies[..n] + [cookies[n]];
      GetInserted(SetCookies(c, cookies[..n]), cookies[n].name, cookies[n].value, name);
      SetsOneMore(cookies[..n], cookies[n], name);
    }
  }

  lemma {:induction false} SetOneCookie(c: seq<Header>, cookies: seq<Header>, f: Header)
    ensures SetCookies(c, cookies + [f]) == WithCookie(SetCookies(c, cookies), f.name, f.value)
    decreases |cookies|
  {
    hide WithCookie;
    if cookies == [] {
      assert [f][1..] == [] && cookies + [f] == [f];
    } else {
      assert (cookies + [f])[1..] == cookies[1..] + [f];
      SetOneCookie(WithCookie(c, cookies[0].name, cookies[0].value), cookies[1..], f);
    }
  }

  /** The headers of a response are in order, each name once. */
  lemma SentInOrder(service: Service, r: Request)
    ensures Ordered(SentHeaders(service, r)) && Ordered(SetCookies([], service(r).cookies))
  {
    hide Ordered, Insert, Number, AsksToClose, SaysClose;
    NothingOrdered();
    InsertKeepsOrder([], "Connection", "close");
    AllInOrder(if AsksToClose(r) then Insert([], "Connection", "close") else [], service(r).preset);
    CookiesInOrder([], service(r).cookies);
    var size := |Parts(service, r)[0]|;
    InsertKeepsOrder(Preset(service, r), "Content-Length", Number(size, 10));
    InsertKeepsOrder(Preset(service, r), "Transfer-Encoding", "chunked");
  }

  lemma NothingOrdered()
    ensures Ordered([])
  {
  }

  lemma {:induction false} AllInOrder(h: seq<Header>, preset: seq<Header>)
    requires Ordered(h)
    ensures Ordered(SetAll(h, preset))
    decreases |preset|
  {
    hide Ordered, Insert;
    if preset != [] {
      InsertKeepsOrder(h, preset[0].name, preset[0].value);
      AllInOrder(Insert(h, preset[0].name, preset[0].value), preset[1..]);
    }
  }

  lemma {:induction false} CookiesInOrder(c: seq<Header>, cookies: seq<Header>)
    requires Ordered(c)
    ensures Ordered(SetCookies(c, cookies))
    decreases |cookies|
  {
    hide Ordered, Insert;
    if cookies != [] {
      InsertKeepsOrder(c, cookies[0].name, cookies[0].value);
      CookiesInOrder(WithCookie(c, cookies[0].name, cookies[0].value), cookies[1..]);
    }
  }

  /** Feeding takes at least a byte, unless the body is over before it begins. */
  lemma {:induction false} FeedConsumes(limits: Limits, r: Request, s: string)
    ensures |Feed(limits, r, s).rest| <= |s|
    ensures s != "" && Reading(r) && !BodyIsOver(r) ==> |Feed(limits, r, s).rest| < |s|
    ensures Feed(limits, r, s).rest == "" || !Reading(Feed(limits, r, s).request)
    decreases |s|
  {
    hide Taking;
    if s != "" && Reading(r) {
      if BodyIsOver(r) {
        StopsWhenOver(limits, r, s);
      } else {
        FeedConsumes(limits, Taking(limits, r, s[..1]), s[1..]);
      }
    }
  }

  lemma AfterAfter(a: string, p: seq<Request>, b: string, q: seq<Request>, rest: Served)
    ensures After(a, p, After(b, q, rest)) == After(a + b, p + q, rest)
  {
    assert a + (b + rest.out) == a + b + rest.out;
    assert p + (q + rest.requests) == p + q + rest.requests;
  }

  lemma AfterNothing(rest: Served)
    ensures After("", [], rest) == rest
  {
    assert "" + rest.out == rest.out && [] + rest.requests == rest.requests;
  }

  /** The stream may be cut anywhere: what is served, what is sent and whether the connection
      closes do not depend on it. */
  lemma {:induction false} ServeAppend(limits: Limits, service: Service, r: Request, s: string, t: string)
    requires Reading(r)
    ensures var x := Serve(limits, service, r, s);
            && (x.open ==> Reading(x.current))
            && Serve(limits, service, r, s + t) ==
               if x.open then After(x.out, x.requests, Serve(limits, service, x.current, t)) else x
    decreases |s|, BodyIsOver(r)
  {
    hide Feed, Closes, SentHead, SentBody, SentHeaders;
    if s == "" {
      assert s + t == t;
      AfterNothing(Serve(limits, service, r, t));
    } else {
      var x := Feed(limits, r, s);
      FeedConsumes(limits, r, s);
      FeedAppend(limits, r, s, t);
      if Reading(x.request) {
        assert x.rest + t == t;
        ServeOnward(limits, service, r, x.request, s, t);
      } else {
        FeedDone(limits, x.request, x.rest + t);
        if x.request.status == Complete && !Closes(x.request, SentHeaders(service, x.request)) {
          ServeAppend(limits, service, NEW_REQUEST, x.rest, t);
          var y := Serve(limits, service, NEW_REQUEST, x.rest);
          var out := SentHead(service, x.request) + SentBody(service, x.request);
          if y.open {
            AfterAfter(out, [x.request], y.out, y.requests, Serve(limits, service, y.current, t));
          }
        }
      }
    }
  }

  lemma FeedDone(limits: Limits, r: Request, s: string)
    requires !Reading(r)
    ensures Feed(limits, r, s) == Fed(r, s)
  {
  }

  /** Serving goes on from a request under way. */
  lemma ServeOnward(limits: Limits, service: Service, r: Request, q: Request, s: string, t: string)
    requires Reading(r) && Reading(q) && s != ""
    requires Feed(limits, r, s + t) == Feed(limits, q, t) && Feed(limits, r, s) == Fed(q, "")
    ensures Serve(limits, service, r, s + t) == After("", [], Serve(limits, service, q, t))
  {
    hide Closes, SentHead, SentBody, SentHeaders;
    AfterNothing(Serve(limits, service, q, t));
    assert s + t != "";
    if t == "" {
      FeedNothing(limits, q);
    }
  }

  /** A connection that stays open has told its reader where the response ends. */
  lemma OpenIsDelimited(service: Service, r: Request)
    requires Unframed(Preset(service, r))
    ensures var h := SentHeaders(service, r);
            Closes(r, h) <==> AsksToClose(r) || Lower(Get(h, "Connection")) == "close" || FramingOf(h) == UntilClose
  {
    hide Lower, Number, SaysClose, AsksToClose, FieldValue, FramingOf;
    var preset, parts := Preset(service, r), Parts(service, r);
    FramingChosen(preset, |parts[0]|, |parts| == 1);
    FieldNames();
    FieldOfName(preset, "Content-Length");
    FieldOfName(preset, "Transfer-Encoding");
    GetInserted(preset, "Content-Length", Number(|parts[0]|, 10), "Content-Length");
    GetInserted(preset, "Transfer-Encoding", "chunked", "Transfer-Encoding");
    GetAbsent(preset, "Transfer-Encoding");
  }

  /** What is announced is what the headers announced before they were completed. */
  lemma AnnouncedFields(service: Service, r: Request)
    ensures Announced(SentFields(service, r)) <==> Announced(Preset(service, r))
    ensures Announced(SentHeaders(service, r)) <==> Announced(Preset(service, r))
  {
    ConnectionNames();
    hide Announced, Insert, Number, Lower, CookieLines, Preset, Parts, SaysClose, SetCookies;
    var preset, c := Preset(service, r), SetCookies([], service(r).cookies);
    AnnouncedInserted(preset, "Content-Length", Number(|Parts(service, r)[0]|, 10));
    AnnouncedInserted(preset, "Transfer-Encoding", "chunked");
    AnnouncedBoth(SentHeaders(service, r), CookieLines(c));
    CookiesAnnounceNothing(c);
  }

  lemma ConnectionNames()
    ensures Lower("Connection") == "connection" && Lower("connection") == "connection"
    ensures Lower("Content-Length") != "connection" && Lower("Transfer-Encoding") != "connection"
    ensures Lower("Set-Cookie") != "connection"
  {
    assert |Lower("Content-Length")| == 14 && |Lower("Transfer-Encoding")| == 17 && |"connection"| == 10;
    assert Lower("Set-Cookie")[0] == 's' && Lower("Connection") == "connection" && Lower("connection") == "connection";
  }

  lemma {:induction false} CookiesAnnounceNothing(c: seq<Header>)
    requires Lower("Set-Cookie") != "connection"
    ensures !Announced(CookieLines(c))
  {
    hide Lists, Lower;
    if c != [] {
      CookiesAnnounceNothing(c[1..]);
      assert CookieLines(c)[1..] == CookieLines(c[1..]);
    }
  }

  /** When the connection closes, by the headers before they were completed. */
  lemma ClosesByPreset(service: Service, r: Request)
    ensures var preset := Preset(service, r);
            Closes(r, SentHeaders(service, r)) <==>
            || AsksToClose(r) || Lower(Get(preset, "Connection")) == "close"
            || (|Parts(service, r)| > 1 && SaysClose(preset)
                && !Has(preset, "Content-Length") && Lower(Get(preset, "Transfer-Encoding")) != "chunked")
  {
    var preset, size := Preset(service, r), |Parts(service, r)[0]|;
    FieldNames();
    hide Number, AsksToClose, Lower, Get, Has, Insert, Preset, Parts, SaysClose;
    GetInserted(preset, "Content-Length", Number(size, 10), "Connection");
    GetInserted(preset, "Content-Length", Number(size, 10), "Content-Length");
    GetInserted(preset, "Transfer-Encoding", "chunked", "Connection");
    GetInserted(preset, "Transfer-Encoding", "chunked", "Transfer-Encoding");
  }

  /** A close is announced and the connection stays open, exactly if the client does not ask for a close (by that
      option alone), the handler announces one other than by `Connection: close`, and that does not decide the
      framing either. */
  lemma AnnouncedButOpen(service: Service, r: Request)
    ensures var preset, h := Preset(service, r), SentHeaders(service, r);
            Announced(SentFields(service, r)) && !Closes(r, h) <==>
            && !AsksToClose(r) && Announced(preset) && Lower(Get(preset, "Connection")) != "close"
            && (|Parts(service, r)| == 1 || !SaysClose(preset)
                || Has(preset, "Content-Length") || Lower(Get(preset, "Transfer-Encoding")) == "chunked")
  {
    hide *;
    AnnouncedFields(service, r);
    ClosesByPreset(service, r);
  }

  /** The connection closes without notice exactly if the client asks for it and the handler takes the notice
      back by a value of its own. */
  lemma ClosedUnannounced(service: Service, r: Request)
    ensures Closes(r, SentHeaders(service, r)) && !Announced(SentFields(service, r)) <==>
            AsksToClose(r) && !Announced(Preset(service, r))
  {
    var preset := Preset(service, r);
    ConnectionNames();
    AnnouncedFields(service, r);
    ClosesByPreset(service, r);
    hide Announced, Closes, AsksToClose, Preset, Lower, Get;
    if Lower(Get(preset, "Connection")) == "close" {
      CloseIsAnnounced(preset, "Connection");
    }
    if Lower(Get(preset, "connection")) == "close" {
      CloseIsAnnounced(preset, "connection");
    }
  }

  /** A client asks for a close and the connection stays open, exactly if its last `Connection` field says something
      besides, its version is not HTTP/1.0, and the handler does not bring the close about. */
  lemma CloseUnheard(service: Service, r: Request)
    ensures var preset := Preset(service, r);
            Announced(r.headers) && !Closes(r, SentHeaders(service, r)) <==>
            && Announced(r.headers) && Lower(ValueOf(r.headers, "connection")) != "close"
            && Lower(r.version) != "http/1.0"
            && Lower(Get(preset, "Connection")) != "close"
            && (|Parts(service, r)| == 1 || !SaysClose(preset)
                || Has(preset, "Content-Length") || Lower(Get(preset, "Transfer-Encoding")) == "chunked")
  {
    hide Announced, Closes, SentHeaders, Preset, Parts, Lower, Get, Has, SaysClose, ValueOf;
    ClosesByPreset(service, r);
  }

  /** A close asked for among other options is not heard. */
  lemma CloseAmongOthers(service: Service, r: Request)
    requires r.headers == [Header("connection", "TE, close")] && r.version == "HTTP/1.1" && service(r).preset == []
    ensures Announced(r.headers) && !Closes(r, SentHeaders(service, r))
  {
    ConnectionNames();
    ListedSecond();
    NotAsked(r);
    NotClose();
    hide Lists, AsksToClose, Lower;
    assert Announced(r.headers);
    assert Preset(service, r) == [] && Get([], "Connection") == "" && Get([], "connection") == "";
    hide Announced, Closes;
    ClosesByPreset(service, r);
  }

  lemma NotAsked(r: Request)
    requires r.headers == [Header("connection", "TE, close")] && r.version == "HTTP/1.1"
    ensures !AsksToClose(r)
  {
    assert ValueOf(r.headers, "connection") == "TE, close";
    assert |Lower("TE, close")| == 9 && |"close"| == 5;
    assert Lower("HTTP/1.1")[7] == '1' && "http/1.0"[7] == '0';
  }

  lemma ListedSecond()
    ensures Lists("TE, close", "close")
  {
    SplitSecond();
    SpacedClose();
    Listed("TE, close", 1, "close");
    hide *;
  }

  lemma SpacedClose()
    ensures Lower(Trimmed(" close")) == "close"
  {
    TrimmedAfterSpace("close");
    NothingToTrim("close");
    assert " " + "close" == " close";
    assert Lower("close") == "close";
    hide Lower, Trimmed;
  }

  lemma Listed(value: string, i: nat, option: string)
    requires i < |Split(value, ',')| && Lower(Trimmed(Split(value, ',')[i])) == option
    ensures Lists(value, option)
  {
    hide Split, Trimmed, Lower;
    assert Split(value, ',')[i] in Split(value, ',');
  }

  lemma SplitSecond()
    ensures Split("TE, close", ',') == ["TE", " close"]
  {
    hide Split;
    SplitNext("TE", ',', " close");
    SplitWhole(" close", ',');
    assert "TE, close" == "TE" + [','] + " close";
  }

  /** Capital letters are enough for that. */
  lemma CapitalsAnnounce(service: Service, r: Request)
    requires !AsksToClose(r) && service(r).preset == [Header("CONNECTION", "close")]
    ensures Announced(SentFields(service, r)) && !Closes(r, SentHeaders(service, r))
  {
    var preset := [Header("CONNECTION", "close")];
    assert preset[1..] == [] && SetAll([], preset) == preset;
    assert Lower("CONNECTION") == "connection" && Lower("close") == "close";
    assert Get(preset, "CONNECTION") == "close" && Get(preset, "Connection") == Get(preset, "connection") == "";
    CloseIsAnnounced(preset, "CONNECTION");
    NotClose();
    assert !SaysClose(preset);
    AnnouncedButOpen(service, r);
  }

  lemma {:induction false} FieldOfName(h: seq<Header>, name: string)
    ensures Has(h, name) ==> HasField(h, Lower(name))
  {
    if h != [] {
      FieldOfName(h[1..], name);
    }
  }

  /** The headers and cookies that a handler sets are clean. */
  predicate CleanReply(reply: Reply) {
    Clean(reply.preset) && forall i :: 0 <= i < |reply.cookies| ==> CleanValue(reply.cookies[i].value)
  }

  /** A reply that a client can read: one line of status text, clean headers and cookies, no framing of its own. */
  predicate Readable(reply: Reply) {
    !HasLineBreak(reply.statusText) && CleanReply(reply) && Unframed(reply.preset)
  }

  /** What a client should read as the answer to a request. */
  function Answer(service: Service, r: Request): Response {
    Response(service(r).statusCode, service(r).statusText, SentFields(service, r), Concat(Parts(service, r)))
  }

  lemma {:induction false} InsertKeepsClean(h: seq<Header>, name: string, value: string)
    requires Clean(h) && CleanName(name) && CleanValue(value)
    ensures Clean(Insert(h, name, value))
  {
    hide CleanName, CleanValue;
    if h != [] && h[0].name != name && !Before(name, h[0].name) {
      InsertKeepsClean(h[1..], name, value);
    }
  }

  lemma {:induction false} InsertAddsField(h: seq<Header>, name: string, value: string, lower: string)
    ensures HasField(Insert(h, name, value), lower) == (HasField(h, lower) || Lower(name) == lower)
  {
    hide Lower;
    if h != [] && h[0].name != name && !Before(name, h[0].name) {
      InsertAddsField(h[1..], name, value, lower);
    }
  }

  lemma {:induction false} SetAllKeepsClean(h: seq<Header>, preset: seq<Header>)
    requires Clean(h) && Clean(preset)
    ensures Clean(SetAll(h, preset))
    decreases |preset|
  {
    hide CleanName, CleanValue, Insert;
    if preset != [] {
      InsertKeepsClean(h, preset[0].name, preset[0].value);
      SetAllKeepsClean(Insert(h, preset[0].name, preset[0].value), preset[1..]);
    }
  }

  lemma {:induction false} SetAllKeepsUnframed(h: seq<Header>, preset: seq<Header>)
    requires Unframed(h) && Unframed(preset)
    ensures Unframed(SetAll(h, preset))
    decreases |preset|
  {
    hide Lower, Insert;
    if preset != [] {
      var f := preset[0];
      InsertAddsField(h, f.name, f.value, "content-length");
      InsertAddsField(h, f.name, f.value, "transfer-encoding");
      SetAllKeepsUnframed(Insert(h, f.name, f.value), preset[1..]);
    }
  }

  lemma ConnectionCloseIsClean()
    ensures Clean([Header("Connection", "close")]) && Unframed([Header("Connection", "close")])
    ensures CleanName("Content-Length") && CleanName("Transfer-Encoding") && CleanName("Set-Cookie")
    ensures CleanValue("chunked")
  {
    assert |Lower("Connection")| == 10 && |"content-length"| == 14 && |"transfer-encoding"| == 17;
    NoSuchField(Header("Connection", "close"), "content-length");
    NoSuchField(Header("Connection", "close"), "transfer-encoding");
    NothingToTrim("close");
    NothingToTrim("chunked");
  }

  lemma PresetIsClean(service: Service, r: Request)
    ensures Clean(service(r).preset) ==> Clean(Preset(service, r))
    ensures Unframed(service(r).preset) ==> Unframed(Preset(service, r))
  {
    hide CleanName, CleanValue, Lower, SetAll, AsksToClose;
    ConnectionCloseIsClean();
    var h, preset := if AsksToClose(r) then Insert([], "Connection", "close") else [], service(r).preset;
    if Clean(preset) {
      SetAllKeepsClean(h, preset);
    }
    if Unframed(preset) {
      SetAllKeepsUnframed(h, preset);
    }
  }

  lemma NumberIsClean(n: nat)
    ensures CleanValue(Number(n, 10))
  {
    hide Number, Trimmed;
    NumberReadBack(n, 10);
    NoReturnNoBreak(Number(n, 10));
    NumberHasNoSpace(n);
    NothingToTrim(Number(n, 10));
  }

  lemma NumberHasNoSpace(n: nat)
    ensures Number(n, 10) != "" && forall i :: 0 <= i < |Number(n, 10)| ==> !IsSpace(Number(n, 10)[i])
  {
    hide Number;
    NumberReadBack(n, 10);
    NumberIsSymbols(n, 10);
  }

  lemma {:induction false} SetCookiesKeeps(c: seq<Header>, cookies: seq<Header>)
    requires forall i :: 0 <= i < |c| ==> CleanValue(c[i].value)
    requires forall i :: 0 <= i < |cookies| ==> CleanValue(cookies[i].value)
    ensures Clean(CookieLines(SetCookies(c, cookies)))
    decreases |cookies|
  {
    hide CleanName, CleanValue, CookieLines;
    if cookies == [] {
      CookieLinesAreClean(c);
    } else {
      InsertKeepsValues(c, cookies[0].name, cookies[0].value);
      SetCookiesKeeps(WithCookie(c, cookies[0].name, cookies[0].value), cookies[1..]);
    }
  }

  lemma {:induction false} InsertKeepsValues(c: seq<Header>, name: string, value: string)
    requires (forall i :: 0 <= i < |c| ==> CleanValue(c[i].value)) && CleanValue(value)
    ensures forall i :: 0 <= i < |Insert(c, name, value)| ==> CleanValue(Insert(c, name, value)[i].value)
  {
    hide CleanValue;
    if c != [] && c[0].name != name && !Before(name, c[0].name) {
      InsertKeepsValues(c[1..], name, value);
    }
  }

  lemma {:induction false} CookieLinesAreClean(c: seq<Header>)
    requires forall i :: 0 <= i < |c| ==> CleanValue(c[i].value)
    ensures Clean(CookieLines(c))
  {
    ConnectionCloseIsClean();
    hide CleanName, CleanValue;
    if c != [] {
      CookieLinesAreClean(c[1..]);
    }
  }

  /** The head of a clean reply is clean. */
  lemma SentFieldsAreClean(service: Service, r: Request)
    requires CleanReply(service(r))
    ensures Clean(SentFields(service, r))
  {
    hide CleanName, CleanValue, Preset, Parts, SaysClose, CookieLines, SetCookies, Number;
    var preset, size := Preset(service, r), |Parts(service, r)[0]|;
    PresetIsClean(service, r);
    ConnectionCloseIsClean();
    NumberIsClean(size);
    InsertKeepsClean(preset, "Content-Length", Number(size, 10));
    InsertKeepsClean(preset, "Transfer-Encoding", "chunked");
    SetCookiesKeeps([], service(r).cookies);
  }

  lemma {:induction false} CookiesDoNotFrame(h: seq<Header>, c: seq<Header>, lower: string)
    requires lower != Lower("Set-Cookie")
    ensures FieldValue(h + CookieLines(c), lower) == FieldValue(h, lower)
    decreases |h|
  {
    hide Lower, CookieLines;
    if h == [] {
      NoCookieIs(c, lower);
      assert h + CookieLines(c) == CookieLines(c);
    } else {
      CookiesDoNotFrame(h[1..], c, lower);
      assert (h + CookieLines(c))[1..] == h[1..] + CookieLines(c);
    }
  }

  lemma {:induction false} NoCookieIs(c: seq<Header>, lower: string)
    requires lower != Lower("Set-Cookie")
    ensures FieldValue(CookieLines(c), lower) == ""
  {
    hide Lower;
    if c != [] {
      NoCookieIs(c[1..], lower);
      assert CookieLines(c)[1..] == CookieLines(c[1..]);
    }
  }

  /** Cookies do not change how a body is read. */
  lemma CookiesKeepBody(h: seq<Header>, c: seq<Header>, s: string)
    ensures ReadBody(h + CookieLines(c), s) == ReadBody(h, s) && FramingOf(h + CookieLines(c)) == FramingOf(h)
  {
    assert |Lower("Set-Cookie")| == 10 && |"content-length"| == 14 && |"transfer-encoding"| == 17;
    CookiesDoNotFrame(h, c, "content-length");
    CookiesDoNotFrame(h, c, "transfer-encoding");
    hide FieldValue, CookieLines, ReadChunks, NumberIn;
  }

  /** The body is sent in chunks. */
  predicate SendsChunks(service: Service, r: Request) {
    InChunks(Preset(service, r), |Parts(service, r)| == 1)
  }

  /** Will the client read the answer as it was given, and nothing else? `last` tells whether nothing follows. */
  predicate Legible(service: Service, q: Request, last: bool) {
    && !HasLineBreak(service(q).statusText) && Clean(SentFields(service, q))
    && if EndsWithHead(q.reqMethod, service(q).statusCode)
       then Concat(Parts(service, q)) == "" && !SendsChunks(service, q)
       else Delimits(SentHeaders(service, q), SendsChunks(service, q), |Concat(Parts(service, q))|, last)
  }

  /** A response on the wire, followed by anything, is read as what the handler wrote, and reading stops at its
      end, exactly if it is legible. */
  lemma ResponseIsRead(service: Service, q: Request, rest: string)
    ensures var s := SentHead(service, q) + SentBody(service, q) + rest;
            ReadResponse(q.reqMethod, s) == One(Answer(service, q), rest) <==> Legible(service, q, rest == "")
  {
    hide *;
    var code, text, fields := service(q).statusCode, service(q).statusText, SentFields(service, q);
    var body := SentBody(service, q);
    SentHeadIs(service, q);
    HeadReadBack(code, text, fields, body + rest);
    ThreeTexts(SentHead(service, q), body, rest);
    var s := SentHead(service, q) + (body + rest);
    AnswerIs(service, q);
    LegibleIs(service, q, rest == "");
    if !HasLineBreak(text) && Clean(fields) {
      BodyIsRead(service, q, rest);
      ReadAfterHead(q.reqMethod, s, code, text, fields, body + rest);
    } else {
      OnlyCleanIsRead(q.reqMethod, s);
    }
  }

  lemma SentHeadIs(service: Service, q: Request)
    ensures SentHead(service, q) == HeaderBlock(service(q).statusCode, service(q).statusText, SentFields(service, q))
  {
  }

  lemma AnswerIs(service: Service, q: Request)
    ensures Answer(service, q) == Response(service(q).statusCode, service(q).statusText, SentFields(service, q),
                                           Concat(Parts(service, q)))
  {
  }

  lemma LegibleIs(service: Service, q: Request, last: bool)
    ensures Legible(service, q, last) <==>
            && !HasLineBreak(service(q).statusText) && Clean(SentFields(service, q))
            && if EndsWithHead(q.reqMethod, service(q).statusCode)
               then Concat(Parts(service, q)) == "" && !SendsChunks(service, q)
               else Delimits(SentHeaders(service, q), SendsChunks(service, q), |Concat(Parts(service, q))|, last)
  {
  }

  /** Reading goes on with the body once the head is read. */
  lemma ReadAfterHead(reqMethod: string, s: string, code: nat, text: string, h: seq<Header>, rest: string)
    requires ParseHead(s) == Head(code, text, h, rest)
    ensures EndsWithHead(reqMethod, code) ==> ReadResponse(reqMethod, s) == One(Response(code, text, h, ""), rest)
    ensures !EndsWithHead(reqMethod, code) ==>
              forall data, more ::
                ReadResponse(reqMethod, s) == One(Response(code, text, h, data), more) <==>
                ReadBody(h, rest) == Message(data, more)
  {
    hide ParseHead, ReadBody, EndsWithHead;
  }

  /** Whatever is read has a status text without line breaks and clean fields. */
  lemma OnlyCleanIsRead(reqMethod: string, s: string)
    ensures var x := ReadResponse(reqMethod, s);
            x.One? ==> !HasLineBreak(x.response.statusText) && Clean(x.response.headers)
  {
    hide ReadBody, EndsWithHead, ParseStatus, Clean, HasLineBreak;
    if StartsWith(s, VERSION) {
      TextIsOneLine(s[|VERSION|..]);
      StatusFieldsAreClean(s[|VERSION|..]);
    }
  }

  lemma StatusFieldsAreClean(s: string)
    ensures ParseStatus(s).Head? ==> Clean(ParseStatus(s).headers)
  {
    hide ReadFields, NumberIn, IndexOf, Clean, Find;
    var space := IndexOf(s, ' ');
    if space != -1 && NumberIn(s[..space], 10) != -1 {
      var text := s[space + 1..];
      var k := Find(text, CRLF);
      if k != -1 {
        FieldsAreClean(text[k + 2..]);
      }
    }
  }

  /** The body is read back by its headers exactly if they mark it off, and is empty exactly if nothing was sent. */
  lemma BodyIsRead(service: Service, q: Request, rest: string)
    ensures ReadBody(SentFields(service, q), SentBody(service, q) + rest) == Message(Concat(Parts(service, q)), rest)
            <==> Delimits(SentHeaders(service, q), SendsChunks(service, q), |Concat(Parts(service, q))|, rest == "")
    ensures SentBody(service, q) + rest == rest <==> Concat(Parts(service, q)) == "" && !SendsChunks(service, q)
  {
    hide ReadBody, Delimits, SentHeaders, CookieLines, Body, Concat, InChunks, Preset;
    var chunked, parts, rest' := SendsChunks(service, q), Parts(service, q), SentBody(service, q) + rest;
    CookiesKeepBody(SentHeaders(service, q), SetCookies([], service(q).cookies), rest');
    ResponseReadBack(SentHeaders(service, q), chunked, parts, rest);
    NothingSent(chunked, parts);
    assert |rest'| == |SentBody(service, q)| + |rest|;
  }

  /** A body in chunks is never empty. */
  lemma NothingSent(chunked: bool, parts: seq<string>)
    requires parts != []
    ensures Body(chunked, parts) == "" <==> Concat(parts) == "" && !chunked
  {
    hide Body, Concat, ReadChunks;
    if chunked {
      ChunksReadBack(parts, "");
      assert Body(true, parts) + "" == Body(true, parts);
      ChunksCost(Body(true, parts));
    } else {
      PlainBody(parts);
    }
  }

  /** A readable reply is read exactly if the response may have a body, or none is sent; chunks always are one. */
  lemma ReadableIsLegible(service: Service, q: Request)
    requires Readable(service(q))
    ensures Legible(service, q, Closes(q, SentHeaders(service, q))) <==>
            !EndsWithHead(q.reqMethod, service(q).statusCode) ||
            (Concat(Parts(service, q)) == "" && (|Parts(service, q)| == 1 || SaysClose(Preset(service, q))))
  {
    hide Closes, Preset, Parts, Delimits, Concat, SaysClose, EndsWithHead, FramingOf, HasLineBreak, SentFields;
    hide WithFraming, Clean;
    PresetIsClean(service, q);
    SentFieldsAreClean(service, q);
    OpenIsDelimited(service, q);
    FramingDelimits(Preset(service, q), Parts(service, q), Closes(q, SentHeaders(service, q)));
  }

  /** A body sent where none may be is left on the wire, before the next response. */
  lemma ForbiddenBody(service: Service, q: Request, rest: string)
    requires Readable(service(q)) && EndsWithHead(q.reqMethod, service(q).statusCode)
    ensures ReadResponse(q.reqMethod, SentHead(service, q) + SentBody(service, q) + rest) ==
            One(Answer(service, q).(data := ""), SentBody(service, q) + rest)
  {
    hide *;
    var code, text, fields := service(q).statusCode, service(q).statusText, SentFields(service, q);
    var body := SentBody(service, q);
    ReadableParts(service(q));
    SentFieldsAreClean(service, q);
    SentHeadIs(service, q);
    AnswerIs(service, q);
    HeadReadBack(code, text, fields, body + rest);
    ThreeTexts(SentHead(service, q), body, rest);
    ReadAfterHead(q.reqMethod, SentHead(service, q) + (body + rest), code, text, fields, body + rest);
  }

  lemma ReadableParts(reply: Reply)
    requires Readable(reply)
    ensures !HasLineBreak(reply.statusText) && CleanReply(reply)
  {
  }

  /** A handler that answers a HEAD request as it would a GET: its data is left on the wire. */
  lemma HeadAnswered(service: Service, q: Request, rest: string)
    requires q.reqMethod == "HEAD" && service(q) == Reply(200, "OK", [], [], ["x"], true)
    ensures var x := ReadResponse(q.reqMethod, SentHead(service, q) + SentBody(service, q) + rest);
            x.One? && x.response.data == "" && x.rest == "x" + rest && Answer(service, q).data == "x"
  {
    OneLetter(service, q);
    hide *;
    ForbiddenBody(service, q, rest);
  }

  lemma OneLetter(service: Service, q: Request)
    requires q.reqMethod == "HEAD" && service(q) == Reply(200, "OK", [], [], ["x"], true)
    ensures Readable(service(q)) && EndsWithHead(q.reqMethod, service(q).statusCode)
    ensures SentBody(service, q) == "x" && Answer(service, q).data == "x"
  {
    NoReturnNoBreak("OK");
    hide SentFields, Preset, SaysClose;
    assert ["x"][1..] == [];
    assert Concat(["x"]) == "x" + "" && Body(false, ["x"]) == "x" + "" + "";
  }

  /** A status without a body, answered with no data at once, is read as it was given. */
  lemma NotModified(service: Service, q: Request, rest: string)
    requires service(q) == Reply(304, "Not Modified", [], [], [], false)
    requires rest == "" || !Closes(q, SentHeaders(service, q))
    ensures ReadResponse(q.reqMethod, SentHead(service, q) + SentBody(service, q) + rest) ==
            One(Answer(service, q), rest)
  {
    NoReturnNoBreak("Not Modified");
    assert Parts(service, q) == [""] && Concat([""]) == "" by { assert [""][1..] == []; }
    hide Closes, SentHead, SentBody, SentHeaders, SentFields, Preset, SaysClose, Answer, Parts;
    ReadableIsLegible(service, q);
    LegibleLast(service, q, Closes(q, SentHeaders(service, q)), rest == "");
    ResponseIsRead(service, q, rest);
  }

  lemma LegibleLast(service: Service, q: Request, closes: bool, last: bool)
    requires Legible(service, q, closes) && (last || !closes)
    ensures Legible(service, q, last)
  {
    hide Clean, HasLineBreak, FramingOf, SentHeaders, SentFields, SendsChunks, NumberIn;
  }

  const CLOSING := [Header("Connection", "close")]

  /** A request that is given up is answered too: a client reads the refusal and is told that the connection closes. */
  lemma RefusalIsRead(reqMethod: string)
    requires reqMethod != "HEAD"
    ensures ReadResponse(reqMethod, TOO_LARGE) ==
            One(Response(413, "entity too large", CLOSING, "413 Entity too large" + CRLF), "") && Announced(CLOSING)
  {
    hide *;
    var text := "413 Entity too large" + CRLF;
    RefusalIs();
    RefusalIsClean(reqMethod);
    ClosingIs();
    HeadReadBack(413, "entity too large", CLOSING, text);
    ReadAfterHead(reqMethod, TOO_LARGE, 413, "entity too large", CLOSING, text);
  }

  lemma RefusalIsClean(reqMethod: string)
    requires reqMethod != "HEAD"
    ensures !HasLineBreak("entity too large") && Clean(CLOSING) && !EndsWithHead(reqMethod, 413)
  {
    NoReturnNoBreak("entity too large");
    hide HasLineBreak;
    ConnectionCloseIsClean();
  }

  lemma ClosingIs()
    ensures Announced(CLOSING) && forall s :: ReadBody(CLOSING, s) == Message(s, "")
  {
    ConnectionCloseIsClean();
    ConnectionNames();
    FieldNames();
    assert Lower("close") == "close" && Get(CLOSING, "Connection") == "close" && CLOSING[1..] == [];
    hide Lower, FieldValue, HasField, Announced;
    CloseIsAnnounced(CLOSING, "Connection");
    FieldAbsent(CLOSING, "content-length");
    FieldAbsent(CLOSING, "transfer-encoding");
  }

  lemma RefusalIs()
    ensures HeaderBlock(413, "entity too large", CLOSING) + ("413 Entity too large" + CRLF) == TOO_LARGE
  {
    RefusalLine();
    ClosingLine();
    hide HeaderLines;
    var block := HeaderBlock(413, "entity too large", CLOSING);
    hide Number;
    assert block == "HTTP/1.1 " + "413" + " " + "entity too large" + CRLF + ("Connection: close" + CRLF) + CRLF by {
      Number413();
    }
    SevenTexts("HTTP/1.1 413 entity too large", CRLF, "Connection: close", CRLF, CRLF, "413 Entity too large", CRLF);
  }

  lemma SevenTexts(a: string, b: string, c: string, d: string, e: string, f: string, g: string)
    ensures a + b + (c + d) + e + (f + g) == a + b + c + d + e + f + g
  {
  }

  lemma RefusalLine()
    ensures "HTTP/1.1 " + "413" + " " + "entity too large" == "HTTP/1.1 413 entity too large"
  {
  }

  lemma ClosingLine()
    ensures HeaderLines(CLOSING) == "Connection: close" + CRLF
  {
    assert CLOSING[1..] == [];
    assert HeaderLines(CLOSING) == FieldLine(CLOSING[0]) + "";
    assert "Connection" + ": " + "close" == "Connection: close";
  }

  lemma Number413()
    ensures Number(413, 10) == "413"
  {
  }

  function Methods(requests: seq<Request>): seq<string> {
    seq(|requests|, i requires 0 <= i < |requests| => requests[i].reqMethod)
  }

  function Answers(service: Service, requests: seq<Request>): seq<Response> {
    seq(|requests|, i requires 0 <= i < |requests| => Answer(service, requests[i]))
  }

  /** All answers to these requests are legible, the last of them perhaps by the end of the connection. */
  ghost predicate AllLegible(service: Service, requests: seq<Request>) {
    forall i :: 0 <= i < |requests| ==>
      Legible(service, requests[i], Closes(requests[i], SentHeaders(service, requests[i])))
  }

  /** No answer but the last announces a close. */
  ghost predicate NoneAnnounced(service: Service, requests: seq<Request>) {
    forall i :: 0 <= i < |requests| - 1 ==> !Announced(SentFields(service, requests[i]))
  }

  /** A client that reads the responses one after another, from the bytes alone, gets for every request served
      the status, the headers and the data that its handler gave, exactly if none but the last announces a close. */
  lemma {:induction false} ResponsesReadBack(limits: Limits, service: Service, r: Request, s: string)
    requires Reading(r) && AllLegible(service, Serve(limits, service, r, s).requests)
    ensures var x := Serve(limits, service, r, s);
            ReadResponses(Methods(x.requests), x.out) == Answers(service, x.requests) <==>
            NoneAnnounced(service, x.requests)
    decreases |s|, BodyIsOver(r)
  {
    hide Feed, Closes, SentHead, SentBody, SentHeaders, Parts, ReadResponse, Answer, Legible, Announced, SentFields;
    if s != "" {
      var x := Feed(limits, r, s);
      FeedConsumes(limits, r, s);
      var q := x.request;
      if q.status == Complete {
        var head, body := SentHead(service, q), SentBody(service, q);
        if Closes(q, SentHeaders(service, q)) {
          OnlyAnswer(service, q, []);
          assert Methods([q]) == [q.reqMethod] + [];
        } else {
          var rest := Serve(limits, service, NEW_REQUEST, x.rest);
          LaterLegible(service, q, rest.requests);
          ResponsesReadBack(limits, service, NEW_REQUEST, x.rest);
          FirstAnswer(service, q, Methods(rest.requests), rest.requests, rest.out);
          assert Methods([q] + rest.requests) == [q.reqMethod] + Methods(rest.requests);
        }
      }
    }
  }

  lemma LaterLegible(service: Service, q: Request, requests: seq<Request>)
    requires AllLegible(service, [q] + requests)
    ensures AllLegible(service, requests) && Legible(service, q, Closes(q, SentHeaders(service, q)))
  {
    hide Legible, Closes, SentHeaders;
    assert ([q] + requests)[0] == q;
    forall i | 0 <= i < |requests|
      ensures Legible(service, requests[i], Closes(requests[i], SentHeaders(service, requests[i])))
    {
      assert ([q] + requests)[i + 1] == requests[i];
    }
  }

  /** The answer that closes the connection is the last one read, whatever more was asked. */
  lemma OnlyAnswer(service: Service, q: Request, methods: seq<string>)
    requires AllLegible(service, [q]) && Closes(q, SentHeaders(service, q))
    ensures ReadResponses([q.reqMethod] + methods, SentHead(service, q) + SentBody(service, q)) == Answers(service, [q])
    ensures NoneAnnounced(service, [q])
  {
    hide Legible, Closes, SentHeaders, SentHead, SentBody, Answer, Announced, SentFields;
    LaterLegible(service, q, []);
    var s := SentHead(service, q) + SentBody(service, q);
    assert [q] + [] == [q] && s + "" == s;
    ResponseIsRead(service, q, "");
    NothingToRead(methods);
    hide ReadResponse;
    assert ([q.reqMethod] + methods)[1..] == methods;
  }

  lemma NothingToRead(methods: seq<string>)
    ensures ReadResponses(methods, "") == []
  {
  }

  lemma FirstAnswer(service: Service, q: Request, methods: seq<string>, requests: seq<Request>, out: string)
    requires Legible(service, q, false)
    requires ReadResponses(methods, out) == Answers(service, requests) <==> NoneAnnounced(service, requests)
    ensures var s := SentHead(service, q) + SentBody(service, q) + out;
            ReadResponses([q.reqMethod] + methods, s) == Answers(service, [q] + requests) <==>
            NoneAnnounced(service, [q] + requests)
  {
    var all, s := [q] + requests, SentHead(service, q) + SentBody(service, q) + out;
    hide Legible, SentHead, SentBody, ReadResponse, Announced, NoneAnnounced, SentFields, Parts;
    LegibleLast(service, q, false, out == "");
    ResponseIsRead(service, q, out);
    assert ([q.reqMethod] + methods)[1..] == methods;
    assert Answers(service, all) == [Answer(service, q)] + Answers(service, requests);
    NoneAnnouncedNext(service, q, requests);
    assert requests != [] ==> |Answers(service, requests)| > 0;
    assert requests == [] ==> Answers(service, requests) == [];
    assert Answers(service, all)[1..] == Answers(service, requests);
    if requests == [] {
      assert NoneAnnounced(service, requests) by { NothingAnnounced(service); }
    }
  }

  lemma NothingAnnounced(service: Service)
    ensures NoneAnnounced(service, [])
  {
  }

  lemma NoneAnnouncedNext(service: Service, q: Request, requests: seq<Request>)
    ensures NoneAnnounced(service, [q] + requests) <==>
            (requests == [] || !Announced(SentFields(service, q))) && NoneAnnounced(service, requests)
  {
    hide Announced, SentFields;
    var all := [q] + requests;
    assert forall i :: 0 <= i < |requests| ==> all[i + 1] == requests[i];
    if NoneAnnounced(service, all) {
      forall i | 0 <= i < |requests| - 1 ensures !Announced(SentFields(service, requests[i])) {
        assert all[i + 1] == requests[i];
      }
      assert requests != [] ==> all[0] == q;
    }
  }
}
