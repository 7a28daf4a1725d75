/** Whole connections: what the server does on the wire of well-formed requests, and
    what holds of every call it makes on any input at all. */
module HttpConnections {
  import opened Text
  import opened HttpRequests
  import opened HttpServer
  import opened HttpFraming

  /** A connection on which well-formed requests arrive calls the handler once for each,
      in order, and ends without an error response. */
  method ServeRequests(rs: seq<Sent>, s: Settings) returns (c: Connection, status: Status)
    requires forall r | r in rs :: Servable(r, s)
    ensures fresh(c) && c.calls == OwedAll(rs) && status == Fine
  {
    hide Serve, Servable, Owed, Wire;
    RequestsServed(rs, "", s);
    NothingServed(s);
    assert WireAll(rs) + "" == WireAll(rs) && OwedAll(rs) + [] == OwedAll(rs);
    c := new Connection(WireAll(rs), s);
    status := c.HandleClient();
    assert c.calls[0..] == c.calls;
  }

  lemma NothingServed(s: Settings)
    ensures Serve("", FRESH, s) == Trace([], Fine)
  {
  }

  /** The body of a GET is not taken for one, whatever length its head declares: the
      characters behind the head are read as the next request. */
  lemma GetBodyReadAsRequest(r: Sent, body: string, s: Settings)
    requires Servable(r, s) && r.verb == "GET"
    ensures Serve(HeadText(r) + body, FRESH, s) == Prepended(Owed(r), Serve(body, FRESH, s))
  {
    hide Serve, Owed, HeadText, HeadWithin, GoodTarget, GoodFields, GoodHost;
    RequestServed(r, body, s);
    assert HeadText(r) + "" == HeadText(r);
  }

  /** A POST that repeats Content-Length passes the repetition check, which looks for
      another name: its head is taken to the end like any other. There the joined value
      is no number, and the request is refused. */
  lemma RepeatedLengthRefused(r: Sent, rest: string, s: Settings)
    requires GoodHead(r) && HeadWithin(r, s) && r.verb == "POST" && |Values(r.fields, "CONTENT-LENGTH")| > 1
    ensures Serve(HeadText(r) + rest, FRESH, s) == Serve(CRLF + rest, HeadAfter(r, r.fields), s)
    ensures Serve(HeadText(r) + rest, FRESH, s) == Trace([], BadRequest)
  {
    hide Serve, HeadText, LinesGood, HeadWithin, Owed, HeadAfter;
    HeadServed(r, rest, s);
    assert "" + CRLF == CRLF;
    HeadDecided(r, rest, s);
  }

  // ------------------------------------------------------------------
  // Every call on every input.

  /** What is known of the request in hand. */
  ghost predicate HeadSound(head: Head, s: Settings) {
    if head.verb == "" then head == FRESH.(length := head.length)
    else IsMethod(head.verb) && head.uri != "" && |head.uri| <= s.maxUri && head.protocol != ""
  }

  /** A call is for a GET without content, or for a POST whose content is as long as it
      declares and within the limit; it has a target, a protocol and a host, and the
      host and port are those of its own Host field. */
  ghost predicate CallSound(q: Request, s: Settings) {
    && q.uri != "" && |q.uri| <= s.maxUri && q.protocol != "" && "HOST" in q.headers
    && NamesHost(q.headers["HOST"], q.host, q.port)
    && q.contentLength == |q.content| && Accepted(q, s)
    && (q.verb == "GET" || PostSound(q, s)) && (q.verb == "GET" ==> q.content == "")
  }

  ghost predicate PostSound(q: Request, s: Settings) {
    && q.verb == "POST" && "CONTENT-LENGTH" in q.headers && q.contentLength <= s.maxContent
    && AllDigits(q.headers["CONTENT-LENGTH"]) && q.contentLength == Saturated(Decimal(q.headers["CONTENT-LENGTH"]))
  }

  lemma LineSound(head: Head, line: string, s: Settings)
    requires HeadSound(head, s) && head.verb == ""
    ensures var next := RequestLine(head, line, s); next.More? ==> HeadSound(next.head, s)
  {
    hide Parts, Trim, PathOf, AuthorityOf, SchemeLength;
    assert !IsMethod("");
  }

  lemma FieldSound(head: Head, line: string, s: Settings)
    requires HeadSound(head, s) && head.verb != ""
    ensures var next := FieldLine(head, line, s); next.More? ==> HeadSound(next.head, s)
  {
    hide IsMethod, Parts, Colons, Combined, Single;
  }

  lemma EndSound(head: Head, rest: string, s: Settings)
    requires HeadSound(head, s)
    ensures var next := EndOfHead(head, rest, s); next.Served? ==> CallSound(next.request, s)
  {
    hide HostOf, PortOf, NamesHost, IsMethod, Decimal, Saturated;
    var host := Addressed(head);
    if "HOST" in host { HostAndPort(host["HOST"], HostOf(host["HOST"]), PortOf(host["HOST"])); }
  }

  lemma StepSound(head: Head, line: string, rest: string, s: Settings)
    requires HeadSound(head, s)
    ensures match Take(head, line, rest, s)
            case Refused(_) => true
            case More(head') => HeadSound(head', s)
            case Served(request, _) => CallSound(request, s)
  {
    hide RequestLine, FieldLine, EndOfHead, CallSound;
    var counted := head.(length := head.length + |line| + 2);
    assert HeadSound(counted, s);
    if line == "" {
      EndSound(counted, rest, s);
    } else if head.verb == "" {
      LineSound(counted, line, s);
    } else {
      FieldSound(counted, line, s);
    }
  }

  /** On any input, every call of the handler is sound. */
  lemma {:induction false} CallsSound(input: string, head: Head, s: Settings)
    requires HeadSound(head, s)
    ensures forall q | q in Serve(input, head, s).calls :: CallSound(q, s)
    decreases |input|
  {
    hide Take, CallSound, HeadSound, FirstLine, AfterLine;
    if input != "" {
      var rest := AfterLine(input);
      StepSound(head, FirstLine(input), rest, s);
      match Take(head, FirstLine(input), rest, s)
      case Refused(_) =>
      case More(head') =>
        CallsSound(rest, head', s);
      case Served(_, used) =>
        FreshSound(s);
        CallsSound(rest[used..], FRESH, s);
    }
  }

  lemma FreshSound(s: Settings)
    ensures HeadSound(FRESH, s)
  {
  }
}
