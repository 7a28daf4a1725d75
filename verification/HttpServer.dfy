/** The read loop of the server: one connection, its lines and bodies taken in turn,
    the state of a request kept in fields and cleared once it has been handled. */
module HttpServer {
  import opened Text
  import opened HttpRequests

  class Connection {
    const settings: Settings
    // The stream.
    var input: string
    var eof: bool
    // The request in hand.
    var verb: string
    var uri: string
    var protocol: string
    var authority: string
    var headers: map<string, string>
    var headersLength: nat
    var host: string
    var port: string
    var content: string
    var contentLength: nat
    // The calls of the handler.
    var calls: seq<Request>

    constructor (input: string, settings: Settings)
      ensures this.input == input && !eof && this.settings == settings && calls == []
      ensures Current() == FRESH && Cleared()
    {
      this.input, this.settings := input, settings;
      eof, calls := false, [];
      verb, uri, protocol, authority, headers, headersLength := "", "", "", "", map[], 0;
      host, port, content, contentLength := "", "", "", 0;
    }

    function Current(): Head
      reads this
    {
      Head(verb, uri, protocol, authority, headers, headersLength)
    }

    /** Nothing is left of an earlier request's host, port or content. */
    predicate Cleared()
      reads this
    {
      host == "" && port == "" && content == "" && contentLength == 0
    }

    /** Reads up to a line feed and over it, or to the end of the stream. */
    method GetLine() returns (line: string)
      modifies this`input, this`eof
      ensures input == AfterLine(old(input)) && line == old(input)[..Find(old(input), '\n', 0)]
      ensures eof <==> Find(old(input), '\n', 0) == |old(input)|
    {
      var k := 0;
      while k < |input| && input[k] != '\n'
        invariant k <= |input| && Find(input, '\n', 0) == Find(input, '\n', k)
      {
        k := k + 1;
      }
      line := input[..k];
      eof := k == |input|;
      input := if eof then "" else input[k + 1..];
    }

    method TakeRequestLine(line: string) returns (status: Status)
      modifies this`verb, this`uri, this`protocol, this`authority
      ensures match RequestLine(old(Current()), line, settings)
              case Refused(st) => status == st
              case More(head) => status == Fine && Current() == head
              case Served(_, _) => false
    {
      hide Trim, Parts;
      var parts := Split(line, ' ');
      if |parts| == 3 {
        verb, uri, protocol := Trim(parts[0]), Trim(parts[1]), Trim(parts[2]);
        var scheme := if "http://" <= uri then 7 else if "https://" <= uri then 8 else 0;
        if scheme > 0 {
          var slash := Find(uri, '/', scheme);
          authority := uri[scheme..slash];
          uri := if slash == |uri| then "/" else uri[slash..];
        }
        if !IsMethod(verb) {
          return NotImplemented;
        } else if |verb| == 0 || |uri| == 0 || |protocol| == 0 {
          return BadRequest;
        } else if |uri| > settings.maxUri {
          return UriTooLong;
        }
        return Fine;
      } else {
        return BadRequest;
      }
    }

    method FieldValue(parts: seq<string>) returns (value: string)
      requires |parts| > 1
      ensures value == Colons(parts[1..])
    {
      if |parts| == 2 {
        return Trim(parts[1]);
      }
      hide Trim;
      value := Trim(parts[1]);
      assert parts[1..][1..] == parts[2..];
      for i := 2 to |parts|
        invariant Colons(parts[1..]) == value + (if i == |parts| then "" else ":" + Colons(parts[i..]))
      {
        assert parts[i..][1..] == parts[i + 1..];
        value := value + ":" + Trim(parts[i]);
      }
    }

    method TakeFieldLine(line: string) returns (status: Status)
      modifies this`headers
      ensures match FieldLine(old(Current()), line, settings)
              case Refused(st) => status == st
              case More(head) => status == Fine && Current() == head
              case Served(_, _) => false
    {
      var parts := Split(line, ':');
      if |parts| > 1 {
        var name := ToUpper(parts[0]);
        var last := if name == "" then settings.stray else name[|name| - 1];
        if last == ' ' || last == '\t' {
          return BadRequest;
        }
        var value := FieldValue(parts);
        if name !in headers {
          headers := headers[name := value];
        } else {
          if name == "HOST" || name == "CONTENT_LENGTH" {
            return BadRequest;
          }
          headers := headers[name := headers[name] + "," + value];
        }
        return Fine;
      } else {
        return BadRequest;
      }
    }

    /** Reads a body of the declared length. */
    method TakeBody(declared: string) returns (status: Status)
      modifies this`input, this`content, this`contentLength
      ensures match Declared(declared, old(input), settings)
              case Missing(st) => status == st
              case Payload(c) => status == Fine && content == c && contentLength == |c| && input == old(input)[|c|..]
    {
      if declared == "" || !AllDigits(declared) {
        return BadRequest;
      }
      contentLength := Saturated(Decimal(declared));
      if contentLength > settings.maxContent {
        return PayloadTooLarge;
      }
      if |input| < contentLength {
        return BadRequest;
      }
      content := input[..contentLength];
      input := input[contentLength..];
      return Fine;
    }

    method TakePayload() returns (status: Status)
      requires content == "" && contentLength == 0
      modifies this`input, this`content, this`contentLength
      ensures match PayloadOf(verb, headers, old(input), settings)
              case Missing(st) => status == st
              case Payload(c) => status == Fine && content == c && contentLength == |c| && input == old(input)[|c|..]
    {
      if verb == "GET" {
        return Fine;
      } else if verb == "POST" {
        if "CONTENT-LENGTH" !in headers {
          return LengthRequired;
        }
        status := TakeBody(headers["CONTENT-LENGTH"]);
      } else {
        return NotImplemented;
      }
    }

    /** Splits the Host field. */
    method TakeHost()
      requires "HOST" in headers && port == ""
      modifies this`host, this`port
      ensures host == HostOf(headers["HOST"]) && port == PortOf(headers["HOST"])
    {
      var parts := Split(headers["HOST"], ':');
      host := parts[0];
      if |parts| == 2 {
        port := parts[1];
      }
    }

    /** Clears the state for the next request. */
    method Reset()
      modifies this`verb, this`uri, this`protocol, this`authority, this`headers, this`headersLength,
               this`host, this`port, this`content, this`contentLength
      ensures Current() == FRESH && Cleared()
    {
      verb, uri, protocol, host, port := "", "", "", "", "";
      contentLength, headersLength, authority := 0, 0, "";
      headers, content := map[], "";
    }

    /** Builds the request object, clears the state for the next request and calls the
        handler. */
    method CallHandler() returns (status: Status)
      modifies this
      ensures match Handled(old(Request(verb, uri, protocol, headers, host, port, content, contentLength)), settings)
              case Refused(st) => status == st && calls == old(calls)
              case Served(request, _) => status == Fine && calls == old(calls) + [request] && Current() == FRESH && Cleared()
              case More(_) => false
      ensures input == old(input) && eof == old(eof)
    {
      var request := Request(verb, uri, protocol, headers, host, port, content, contentLength);
      if !Accepted(request, settings) {
        return BadRequest;
      }
      Reset();
      calls := calls + [request];
      return Fine;
    }

    /** Ends the head: reads the body, calls the handler and clears the request. */
    method TakeEnd() returns (status: Status)
      requires Cleared()
      modifies this
      ensures match EndOfHead(old(Current()), old(input), settings)
              case Refused(st) => status == st && calls == old(calls)
              case Served(request, used) => status == Fine && calls == old(calls) + [request]
                                            && input == old(input)[used..] && Current() == FRESH && Cleared()
              case More(_) => false
      ensures eof == old(eof)
    {
      hide PayloadOf, HostOf, PortOf;
      if authority != "" {
        headers := headers["HOST" := authority];
      }
      if "HOST" !in headers {
        return BadRequest;
      }
      TakeHost();
      status := TakePayload();
      if status != Fine {
        return;
      }
      status := CallHandler();
    }

    method TakeLine(line: string) returns (status: Status)
      requires Cleared()
      modifies this
      ensures match Take(old(Current()), line, old(input), settings)
              case Refused(st) => status == st && calls == old(calls)
              case More(head) => status == Fine && calls == old(calls) && input == old(input) && Current() == head && Cleared()
              case Served(request, used) => status == Fine && calls == old(calls) + [request]
                                            && input == old(input)[used..] && Current() == FRESH && Cleared()
      ensures eof == old(eof)
    {
      hide RequestLine, FieldLine, EndOfHead;
      headersLength := headersLength + |line| + 2;
      if settings.maxHeaders > 0 && headersLength > settings.maxHeaders {
        return HeadersTooLarge;
      }
      if |line| == 0 {
        status := TakeEnd();
      } else if |verb| == 0 {
        status := TakeRequestLine(line);
      } else {
        status := TakeFieldLine(line);
      }
    }

    /** The next line without its line end, unless the stream ended before it. */
    method ReadLine() returns (line: string, ended: bool)
      modifies this`input, this`eof
      ensures ended <==> old(input) == ""
      ensures line == FirstLine(old(input)) && input == AfterLine(old(input))
      ensures eof ==> input == ""
    {
      line := GetLine();
      ended := line == "" && eof;
      if line != "" && line[|line| - 1] == '\r' {
        line := line[..|line| - 1];
      }
    }

    /** Serves the connection until its input ends or a request is refused. The result
        is the status of the error response, Fine if none is sent. */
    method HandleClient() returns (status: Status)
      requires Current() == FRESH && Cleared() && !eof
      modifies this
      ensures old(calls) <= calls
      ensures Trace(calls[|old(calls)|..], status) == Serve(old(input), FRESH, settings)
    {
      hide Take, Serve, Reached, FirstLine, AfterLine;
      ghost var all := Serve(input, FRESH, settings);
      ghost var done': seq<Request> := [];
      ghost var done := ReachedStart(input, settings);
      while !eof
        invariant Cleared() && calls == old(calls) + done && (eof ==> input == "")
        invariant Reached(all, done, input, Current(), settings)
        decreases !eof, |input|
      {
        if input != "" { done' := ReachedStep(all, done, input, Current(), settings); }
        var line, ended := ReadLine();
        if ended {
          break;
        }
        done := done';
        status := TakeLine(line);
        if status != Fine {
          return;
        }
      }
      ReachedEnd(all, done, Current(), settings);
      status := Fine;
    }
  }

  /** A connection whose whole trace is `all` has made the calls `done` and stands at
      this input with this head. */
  ghost predicate Reached(all: Trace, done: seq<Request>, input: string, head: Head, s: Settings) {
    var t := Serve(input, head, s);
    all == Trace(done + t.calls, t.status)
  }

  lemma ReachedStart(input: string, s: Settings) returns (done: seq<Request>)
    ensures done == [] && Reached(Serve(input, FRESH, s), done, input, FRESH, s)
  {
    done := [];
    var t := Serve(input, FRESH, s);
    assert done + t.calls == t.calls;
  }

  lemma ReachedEnd(all: Trace, done: seq<Request>, head: Head, s: Settings)
    requires Reached(all, done, "", head, s)
    ensures all == Trace(done, Fine)
  {
    assert done + [] == done;
  }

  /** The calls made once the next line has been taken. */
  lemma ReachedStep(all: Trace, done: seq<Request>, input: string, head: Head, s: Settings) returns (done': seq<Request>)
    requires Reached(all, done, input, head, s) && input != ""
    ensures match Take(head, FirstLine(input), AfterLine(input), s)
            case Refused(status) => all == Trace(done', status) && done' == done
            case More(head') => Reached(all, done', AfterLine(input), head', s) && done' == done
            case Served(request, used) => Reached(all, done', AfterLine(input)[used..], FRESH, s) && done' == done + [request]
  {
    hide Take, FirstLine, AfterLine;
    done' := done;
    match Take(head, FirstLine(input), AfterLine(input), s)
    case Refused(_) =>
      assert done + [] == done;
    case More(_) =>
    case Served(request, used) =>
      done' := done + [request];
      var t := Serve(AfterLine(input)[used..], FRESH, s);
      assert done + ([request] + t.calls) == done' + t.calls;
  }
}
