/** A whole exchange: a client writes requests one after another, the server serves them, and the client
    reads the answers. */
module HttpExchange {
  import opened ConnectionServing
  import opened HttpText
  import opened RequestParsing
  import opened ResponseFraming
  import opened ResponseReading
  import Requests = RequestRendering

  /** The requests on the wire. */
  function Stream(ms: seq<Requests.Message>): string {
    if ms == [] then "" else Requests.Head(ms[0]) + ms[0].body + Stream(ms[1..])
  }

  /** The requests served are the first ones written, as they were written: all of them, or those up to and
      including the first whose response closes the connection. */
  ghost predicate ServedInOrder(service: Service, ms: seq<Requests.Message>, x: Served) {
    && |x.requests| <= |ms| && x.current == NEW_REQUEST
    && (forall i :: 0 <= i < |x.requests| ==> Requests.IsAsWritten(x.requests[i], ms[i]))
    && (forall i :: 0 <= i < |x.requests| ==>
          (Closes(x.requests[i], SentHeaders(service, x.requests[i])) <==> !x.open && i == |x.requests| - 1))
    && (if x.open then |x.requests| == |ms| else x.requests != [])
  }

  lemma {:induction false} RequestsServed(limits: Limits, service: Service, ms: seq<Requests.Message>)
    requires forall i :: 0 <= i < |ms| ==> Requests.Acceptable(limits, ms[i])
    ensures ServedInOrder(service, ms, Serve(limits, service, NEW_REQUEST, Stream(ms)))
    decreases |ms|
  {
    hide Feed, Closes, SentHead, SentBody, SentHeaders, Requests.Acceptable, Requests.IsAsWritten, Requests.Head;
    if ms != [] {
      var m, rest := ms[0], Stream(ms[1..]);
      AcceptedRead(limits, m, rest);
      StartsWithHead(m, rest);
      var q := Feed(limits, NEW_REQUEST, Stream(ms)).request;
      Requests.CompleteAsWritten(q, m);
      if !Closes(q, SentHeaders(service, q)) {
        RequestsServed(limits, service, ms[1..]);
        OneMoreServed(service, ms, q, Serve(limits, service, NEW_REQUEST, rest),
                      SentHead(service, q) + SentBody(service, q));
      }
    }
  }

  lemma StartsWithHead(m: Requests.Message, rest: string)
    ensures Requests.Head(m) + m.body + rest != ""
  {
    Requests.HeadIsLong(m);
  }

  lemma OneMoreServed(service: Service, ms: seq<Requests.Message>, q: Request, x: Served, out: string)
    requires ms != [] && Requests.IsAsWritten(q, ms[0]) && !Closes(q, SentHeaders(service, q))
    requires ServedInOrder(service, ms[1..], x)
    ensures ServedInOrder(service, ms, After(out, [q], x))
  {
    hide Closes, SentHeaders, Requests.IsAsWritten;
    var y := After(out, [q], x);
    forall i | 0 <= i < |y.requests|
      ensures Requests.IsAsWritten(y.requests[i], ms[i])
      ensures Closes(y.requests[i], SentHeaders(service, y.requests[i])) <==> !y.open && i == |y.requests| - 1
    {
      assert i > 0 ==> y.requests[i] == x.requests[i - 1] && ms[i] == ms[1..][i - 1];
    }
  }

  lemma AcceptedRead(limits: Limits, m: Requests.Message, rest: string)
    requires Requests.Acceptable(limits, m)
    ensures var x := Feed(limits, NEW_REQUEST, Requests.Head(m) + m.body + rest);
            x.rest == rest && Requests.IsAsWritten(x.request, m)
  {
    hide Feed, Requests.Head, Requests.IsAsWritten, Requests.Fits, Requests.Announces, Requests.WellFormed;
    Requests.RequestIsRead(limits, m, rest);
  }

  function MethodsOf(ms: seq<Requests.Message>): seq<string> {
    if ms == [] then [] else [ms[0].reqMethod] + MethodsOf(ms[1..])
  }

  /** Requests written one after another are served in order and as they were written. The client, which reads an
      answer to each request it wrote as far as the bytes that come back go, gets for each request served the answer
      its handler gave and nothing else, exactly if no answer but the last announces a close. */
  lemma {:induction false} Exchange(limits: Limits, service: Service, ms: seq<Requests.Message>)
    requires forall i :: 0 <= i < |ms| ==> Requests.Acceptable(limits, ms[i])
    requires AllLegible(service, Serve(limits, service, NEW_REQUEST, Stream(ms)).requests)
    ensures var x := Serve(limits, service, NEW_REQUEST, Stream(ms));
            && ServedInOrder(service, ms, x)
            && (ReadResponses(MethodsOf(ms), x.out) == Answers(service, x.requests) <==>
                NoneAnnounced(service, x.requests))
    decreases |ms|
  {
    hide Feed, Closes, SentHead, SentBody, SentHeaders, Requests.Acceptable, Requests.IsAsWritten, Requests.Head;
    hide ReadResponses, AllLegible, NoneAnnounced, Legible, ServedInOrder, Answer;
    RequestsServed(limits, service, ms);
    if ms == [] {
      NothingExchanged(service);
    } else {
      var m, rest := ms[0], Stream(ms[1..]);
      AcceptedRead(limits, m, rest);
      StartsWithHead(m, rest);
      var q := Feed(limits, NEW_REQUEST, Stream(ms)).request;
      Requests.CompleteAsWritten(q, m);
      if Closes(q, SentHeaders(service, q)) {
        OnlyAnswer(service, q, MethodsOf(ms[1..]));
      } else {
        var x := Serve(limits, service, NEW_REQUEST, rest);
        LaterLegible(service, q, x.requests);
        Exchange(limits, service, ms[1..]);
        FirstAnswer(service, q, MethodsOf(ms[1..]), x.requests, x.out);
      }
    }
  }

  /** A request whose body is announced larger than the limit is refused, and the connection closed. */
  lemma TooLargeIsRefused(limits: Limits, service: Service, m: Requests.Message, rest: string)
    requires Requests.WellFormed(m) && Requests.HeadFits(limits, m)
    requires if Requests.BoundaryOfFields(m) == ""
             then Requests.Announces(m) + |Requests.Head(m)| > limits.maxSize && Requests.Announces(m) > 0
             else Requests.Announces(m) > limits.maxMultiPartSize
    ensures Serve(limits, service, NEW_REQUEST, Requests.Head(m) + rest) == Served(TOO_LARGE, false, NEW_REQUEST, [])
  {
    Requests.TooLargeIsGivenUp(limits, m, rest);
    Requests.HeadIsLong(m);
    hide Feed, Closes, SentHead, SentBody, SentHeaders, Requests.Head, Requests.WellFormed;
  }

  lemma NothingExchanged(service: Service)
    ensures ReadResponses([], "") == Answers(service, []) && NoneAnnounced(service, [])
  {
  }
}
