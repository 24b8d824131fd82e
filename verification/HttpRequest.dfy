/** A request read from a socket, piece by piece. */
module HttpRequests {
  import opened HeaderFields
  import opened HttpText
  import opened RequestParsing
  import opened Sockets

  class HttpRequest {
    const limits: Limits
    var status: Status
    var currentSize: nat
    var lineBuffer: string
    var reqMethod: string
    var path: string
    var version: string
    var headers: seq<Header>
    var currentHeader: string
    var boundary: string
    var expectedBodySize: int
    var bodyData: string
    var file: string

    /** The fields as a value. */
    function State(): Request
      reads this
    {
      Request(status, currentSize, lineBuffer, reqMethod, path, version, headers, currentHeader, boundary,
              expectedBodySize, bodyData, file)
    }

    constructor (limits: Limits)
      ensures this.limits == limits && State() == NEW_REQUEST
    {
      this.limits := limits;
      status, currentSize, lineBuffer, expectedBodySize := WaitForRequest, 0, "", 0;
      reqMethod, path, version, headers, currentHeader, boundary, bodyData, file := "", "", "", [], "", "", "", "";
    }

    method ReadRequest(socket: Socket) returns (ghost taken: string)
      requires Sound(limits, State()) && status == WaitForRequest
      modifies this, socket`incoming
      ensures State() == WithLine(limits, old(State()), taken)
      ensures TakenFrom(old(socket.incoming), socket.incoming, taken, limits.maxSize - old(currentSize) + 1)
    {
      hide WithRequestLine, Trimmed;
      var toRead := limits.maxSize - currentSize + 1;
      var dataRead := socket.ReadLine(toRead);
      taken := dataRead;
      currentSize := currentSize + |dataRead|;
      lineBuffer := lineBuffer + dataRead;
      if !HasLineBreak(lineBuffer) {
        return;
      }
      var newData := Trimmed(lineBuffer);
      lineBuffer := "";
      RequestLine(newData);
    }

    /** Method, path and version of a complete first line. */
    method RequestLine(newData: string)
      modifies this
      ensures State() == WithRequestLine(old(State()), newData)
    {
      hide Split, Find, Trimmed;
      if newData != "" {
        var list := Split(newData, ' ');
        if |list| != 3 || Find(list[2], "HTTP") == -1 {
          status := Abort;
        } else {
          reqMethod := Trimmed(list[0]);
          path := list[1];
          version := list[2];
          status := WaitForHeader;
        }
      }
    }

    method ReadHeader(socket: Socket) returns (ghost taken: string)
      requires Sound(limits, State()) && status == WaitForHeader
      modifies this, socket`incoming
      ensures State() == WithLine(limits, old(State()), taken)
      ensures TakenFrom(old(socket.incoming), socket.incoming, taken, limits.maxSize - old(currentSize) + 1)
    {
      hide Split, Find, Trimmed, Lower, IndexOf, ToInt, ValueOf, BoundaryIn;
      var toRead := limits.maxSize - currentSize + 1;
      var dataRead := socket.ReadLine(toRead);
      taken := dataRead;
      currentSize := currentSize + |dataRead|;
      lineBuffer := lineBuffer + dataRead;
      if !HasLineBreak(lineBuffer) {
        return;
      }
      var newData := Trimmed(lineBuffer);
      lineBuffer := "";
      var colon := IndexOf(newData, ':');
      if colon > 0 {
        currentHeader := Lower(newData[..colon]);
        var value := Trimmed(newData[colon + 1..]);
        headers := headers + [Header(currentHeader, value)];
      } else if newData != "" {
        if HasHeader(headers, currentHeader) {
          headers := headers + [Header(currentHeader, ValueOf(headers, currentHeader) + " " + newData)];
        }
      } else {
        HeadersCompleted();
      }
    }

    method HeadersCompleted()
      requires boundary == ""
      modifies this`boundary, this`expectedBodySize, this`status
      ensures State() == WithHeadersDone(limits, old(State()))
    {
      hide Find, ToInt, ValueOf, BoundaryIn;
      SetBoundary();
      var contentLength := ValueOf(headers, "content-length");
      if contentLength != "" {
        expectedBodySize := ToInt(contentLength);
      }
      if expectedBodySize == 0 {
        status := Complete;
      } else if boundary == "" && expectedBodySize + currentSize > limits.maxSize {
        status := Abort;
      } else if boundary != "" && expectedBodySize > limits.maxMultiPartSize {
        status := Abort;
      } else {
        status := WaitForBody;
      }
    }

    method SetBoundary()
      requires boundary == ""
      modifies this`boundary
      ensures boundary == BoundaryIn(ValueOf(headers, "content-type"))
    {
      hide Find, ValueOf;
      var contentType := ValueOf(headers, "content-type");
      if StartsWith(contentType, "multipart/form-data") {
        var position := Find(contentType, "boundary=");
        if position >= 0 {
          boundary := contentType[position + 9..];
          if boundary != "" && boundary[0] == '"' && boundary[|boundary| - 1] == '"' {
            boundary := if |boundary| == 1 then "" else boundary[1..|boundary| - 1];
          }
        }
      }
    }

    method ReadBody(socket: Socket) returns (ghost taken: string)
      requires Sound(limits, State()) && status == WaitForBody
      modifies this, socket`incoming
      ensures State() == WithBody(limits, old(State()), taken)
      ensures old(socket.incoming) == taken + socket.incoming
      ensures if old(expectedBodySize) < 0 || old(socket.incoming) == "" then taken == ""
              else 0 < |taken| <= old(expectedBodySize) - if old(boundary) == "" then |old(bodyData)| else |old(file)|
    {
      if boundary == "" {
        var toRead := expectedBodySize - |bodyData|;
        var newData := socket.Read(toRead);
        taken := newData;
        currentSize := currentSize + |newData|;
        bodyData := bodyData + newData;
        if |bodyData| >= expectedBodySize {
          status := Complete;
        }
      } else {
        var fileSize := |file|;
        var toRead := expectedBodySize - fileSize;
        if toRead > 65536 {
          toRead := 65536;
        }
        var newData := socket.Read(toRead);
        taken := newData;
        file := file + newData;
        fileSize := fileSize + |newData|;
        if fileSize >= limits.maxMultiPartSize {
          status := Abort;
        } else if fileSize >= expectedBodySize {
          status := Complete;
        }
      }
    }

    /** One call, whatever part of the stream it gets hold of, does what the bytes it took do one by one. */
    method ReadFromSocket(socket: Socket) returns (ghost taken: string)
      requires Sound(limits, State()) && Reading(State()) && socket.incoming != ""
      modifies this, socket`incoming
      ensures old(socket.incoming) == taken + socket.incoming
      ensures taken == "" <==> BodyIsOver(old(State()))
      ensures taken != "" ==> Feed(limits, old(State()), taken) == Fed(State(), "")
      ensures taken == "" ==> Feed(limits, old(State()), old(socket.incoming)) == Fed(State(), socket.incoming)
      ensures Sound(limits, State())
    {
      hide WithLine, WithBody, Feed;
      ghost var before := State();
      if status == WaitForRequest {
        taken := ReadRequest(socket);
      } else if status == WaitForHeader {
        taken := ReadHeader(socket);
      } else {
        taken := ReadBody(socket);
      }
      if (boundary == "" && currentSize > limits.maxSize) || (boundary != "" && currentSize > limits.maxMultiPartSize) {
        status := Abort;
      }
      assert State() == Taking(limits, before, taken);
      TakenAtOnce(limits, before, old(socket.incoming), taken);
    }
  }

  /** Something was taken if there was anything, within one line and within the limit. */
  ghost predicate TakenFrom(before: string, after: string, taken: string, max: int) {
    && before == taken + after && |taken| <= max && (before != "" ==> taken != "")
    && (|taken| > 0 ==> '\n' !in taken[..|taken| - 1])
  }

  lemma TakenAtOnce(limits: Limits, r: Request, incoming: string, taken: string)
    requires Sound(limits, r) && Reading(r) && incoming != "" && taken <= incoming
    requires r.status != WaitForBody ==>
               TakenFrom(incoming, incoming[|taken|..], taken, limits.maxSize - r.currentSize + 1)
    requires r.status == WaitForBody ==>
               if r.expectedBodySize < 0 then taken == ""
               else 0 < |taken| <= r.expectedBodySize - if r.boundary == "" then |r.bodyData| else |r.file|
    ensures taken != "" ==> Feed(limits, r, taken) == Fed(Taking(limits, r, taken), "")
    ensures taken == "" ==> BodyIsOver(r) && Feed(limits, r, incoming) == Fed(Taking(limits, r, taken), incoming)
    ensures BodyIsOver(r) ==> taken == ""
    ensures Sound(limits, Taking(limits, r, taken))
  {
    hide Taking, Feed, HasLineBreak;
    if r.status != WaitForBody {
      NoBreakYet(r.lineBuffer, taken[..|taken| - 1]);
      LineAtOnce(limits, r, taken);
      FedIsSound(limits, r, taken);
    } else if r.expectedBodySize > 0 {
      BodyAtOnce(limits, r, taken);
      FedIsSound(limits, r, taken);
    } else {
      StopsWhenOver(limits, r, incoming);
      assert Sound(limits, Taking(limits, r, ""));
    }
  }
}
