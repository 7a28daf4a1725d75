/** What the server does with one line of a request head, and with a whole connection. */
module HttpRequests {
  import opened Text

  /** The limits of a server, and the two things it takes from elsewhere: whether the
      request object can be built from what was read, and the character that lies
      before an empty field name in memory. */
  datatype Settings = Settings(maxUri: nat, maxHeaders: nat, maxContent: nat, accepts: Request -> bool, stray: char)

  /** What the handler is called with. */
  datatype Request = Request(verb: string, uri: string, protocol: string, headers: map<string, string>,
                             host: string, port: string, content: string, contentLength: nat)

  /** How the taking of a line or a connection ends: well, or with an error response. */
  datatype Status = Fine | BadRequest | LengthRequired | PayloadTooLarge | UriTooLong | HeadersTooLarge | NotImplemented
  {
    function Text(): string {
      match this
      case Fine => ""
      case BadRequest => "400 Bad Request"
      case LengthRequired => "411 Length Required"
      case PayloadTooLarge => "413 Payload Too Large"
      case UriTooLong => "414 URI Too Long"
      case HeadersTooLarge => "431 Request Header Fields Too Large"
      case NotImplemented => "501 Not Implemented"
    }
  }

  /** What has been read of a request. */
  datatype Head = Head(verb: string, uri: string, protocol: string, authority: string,
                       headers: map<string, string>, length: nat)

  const FRESH := Head("", "", "", "", map[], 0)

  /** What a line leads to: an error response, more lines, or a request for the handler
      together with the number of body characters taken for it. */
  datatype Next = Refused(status: Status) | More(head: Head) | Served(request: Request, used: nat)

  // ------------------------------------------------------------------
  // The request line.

  predicate IsMethod(verb: string) {
    verb == "GET" || verb == "HEAD" || verb == "POST" || verb == "PUT" || verb == "DELETE"
  }

  /** The place of the first c from i on, or the end. */
  function Find(s: string, c: char, i: nat): (k: nat)
    requires i <= |s|
    ensures i <= k <= |s| && (k < |s| ==> s[k] == c) && forall j | i <= j < k :: s[j] != c
    decreases |s| - i
  {
    if i == |s| || s[i] == c then i else Find(s, c, i + 1)
  }

  /** The length of the scheme of an absolute target, 0 for any other target. */
  function SchemeLength(target: string): (n: nat)
    ensures n <= |target|
  {
    if "http://" <= target then 7 else if "https://" <= target then 8 else 0
  }

  function AuthorityOf(target: string): string {
    var n := SchemeLength(target);
    if n > 0 then target[n..Find(target, '/', n)] else ""
  }

  function PathOf(target: string): string {
    var n := SchemeLength(target);
    if n == 0 then target
    else
      var slash := Find(target, '/', n);
      if slash == |target| then "/" else target[slash..]
  }

  function RequestLine(head: Head, line: string, s: Settings): (next: Next)
    ensures next.Refused? ==> next.status != Fine
    ensures !next.Served?
  {
    var parts := Parts(line, ' ');
    if |parts| != 3 then Refused(BadRequest)
    else
      var verb, target, protocol := Trim(parts[0]), Trim(parts[1]), Trim(parts[2]);
      var uri := PathOf(target);
      if !IsMethod(verb) then Refused(NotImplemented)
      else if uri == "" || protocol == "" then Refused(BadRequest)
      else if |uri| > s.maxUri then Refused(UriTooLong)
      else
        var authority := if SchemeLength(target) > 0 then AuthorityOf(target) else head.authority;
        More(head.(verb := verb, uri := uri, protocol := protocol, authority := authority))
  }

  // ------------------------------------------------------------------
  // A field line.

  /** The parts of a value trimmed, with a colon between them. */
  function Colons(parts: seq<string>): string
    requires |parts| > 0
  {
    if |parts| == 1 then Trim(parts[0]) else Trim(parts[0]) + ":" + Colons(parts[1..])
  }

  predicate Single(name: string) {
    name == "HOST" || name == "CONTENT_LENGTH"
  }

  /** The headers with one more field; a field that is there already is extended. */
  function Combined(headers: map<string, string>, name: string, value: string): map<string, string> {
    headers[name := if name in headers then headers[name] + "," + value else value]
  }

  function FieldLine(head: Head, line: string, s: Settings): (next: Next)
    ensures next.Refused? ==> next.status != Fine
    ensures !next.Served?
  {
    var parts := Parts(line, ':');
    if |parts| == 1 then Refused(BadRequest)
    else
      var name := UpperCase(parts[0]);
      var last := if name == "" then s.stray else name[|name| - 1];
      if last == ' ' || last == '\t' then Refused(BadRequest)
      else if name in head.headers && Single(name) then Refused(BadRequest)
      else More(head.(headers := Combined(head.headers, name, Colons(parts[1..]))))
  }

  // ------------------------------------------------------------------
  // The end of a head.

  const SIZE_MAX := 0xFFFF_FFFF_FFFF_FFFF

  predicate IsDigit(c: char) {
    '0' <= c <= '9'
  }

  predicate AllDigits(s: string) {
    forall c | c in s :: IsDigit(c)
  }

  function Decimal(s: string): nat
    requires AllDigits(s)
  {
    if s == "" then 0
    else
      assert IsDigit(s[|s| - 1]);
      10 * Decimal(s[..|s| - 1]) + (s[|s| - 1] as int - '0' as int)
  }

  /** What strtoull makes of digits. */
  function Saturated(n: nat): nat {
    if n > SIZE_MAX then SIZE_MAX else n
  }

  /** The body of a request, or the status of its refusal. */
  datatype Payload = Missing(status: Status) | Payload(content: string)

  function Declared(declared: string, rest: string, s: Settings): (p: Payload)
    ensures p.Missing? ==> p.status != Fine
    ensures p.Payload? ==> p.content <= rest
  {
    if declared == "" || !AllDigits(declared) then Missing(BadRequest)
    else
      var n := Saturated(Decimal(declared));
      if n > s.maxContent then Missing(PayloadTooLarge)
      else if |rest| < n then Missing(BadRequest)
      else Payload(rest[..n])
  }

  function PayloadOf(verb: string, headers: map<string, string>, rest: string, s: Settings): (p: Payload)
    ensures p.Missing? ==> p.status != Fine
    ensures p.Payload? ==> p.content <= rest
  {
    if verb == "GET" then Payload("")
    else if verb != "POST" then Missing(NotImplemented)
    else if "CONTENT-LENGTH" !in headers then Missing(LengthRequired)
    else Declared(headers["CONTENT-LENGTH"], rest, s)
  }

  /** The host and the port that a Host field names. */
  function HostOf(field: string): string {
    Parts(field, ':')[0]
  }

  function PortOf(field: string): string {
    var parts := Parts(field, ':');
    if |parts| == 2 then parts[1] else ""
  }

  /** What a Host field says: a host without a colon, and after the first colon a port if
      there is no other colon. Each field says one host and one port. */
  ghost predicate NamesHost(field: string, host: string, port: string) {
    && ':' !in host
    && ((field == host && port == "")
        || exists tail :: field == host + ":" + tail && port == if ':' in tail then "" else tail)
  }

  lemma HostAndPort(field: string, host: string, port: string)
    ensures NamesHost(field, host, port) <==> host == HostOf(field) && port == PortOf(field)
  {
    var k := Find(field, ':', 0);
    var first := field[..k];
    hide Find;
    FirstPart(first, "", ':');
    if k < |field| {
      var tail := field[k + 1..];
      assert field == first + [':'] + tail == first + ":" + tail;
      FirstPart(first, tail, ':');
      PortAlone(tail);
      hide Parts;
      if tail' :| field == host + ":" + tail' && ':' !in host { SameSplit(first, tail, host, tail'); }
    } else {
      assert field == first;
    }
  }

  /** A string has one first colon. */
  lemma SameSplit(a: string, b: string, c: string, d: string)
    requires a + ":" + b == c + ":" + d && ':' !in a && ':' !in c
    ensures a == c && b == d
  {
    var s := a + ":" + b;
    assert s[|a|] == ':' && s[|c|] == ':';
    assert forall j | 0 <= j < |a| :: s[j] == a[j];
    assert forall j | 0 <= j < |c| :: s[j] == c[j];
    assert |a| == |c|;
    assert s[..|a|] == a && s[..|a|] == c && s[|a| + 1..] == b && s[|a| + 1..] == d;
  }

  lemma PortAlone(tail: string)
    ensures |Parts(tail, ':')| == 1 <==> ':' !in tail
    ensures ':' !in tail ==> Parts(tail, ':') == [tail]
  {
    PartsJoin(tail, ':');
    if ':' !in tail { FirstPart(tail, "", ':'); }
  }

  /** The headers with the authority of an absolute target for the Host field. */
  function Addressed(head: Head): map<string, string> {
    if head.authority != "" then head.headers["HOST" := head.authority] else head.headers
  }

  function EndOfHead(head: Head, rest: string, s: Settings): (next: Next)
    ensures next.Refused? ==> next.status != Fine
    ensures next.Served? ==> next.used <= |rest|
    ensures !next.More?
  {
    var headers := Addressed(head);
    if "HOST" !in headers then Refused(BadRequest)
    else
      match PayloadOf(head.verb, headers, rest, s)
      case Missing(status) => Refused(status)
      case Payload(content) =>
        Handled(Request(head.verb, head.uri, head.protocol, headers, HostOf(headers["HOST"]), PortOf(headers["HOST"]),
                        content, |content|), s)
  }

  predicate Accepted(request: Request, s: Settings) {
    s.accepts(request)
  }

  function Handled(request: Request, s: Settings): Next {
    if Accepted(request, s) then Served(request, request.contentLength) else Refused(BadRequest)
  }

  // ------------------------------------------------------------------
  // A connection.

  /** A line without the carriage return before its line feed. */
  function Chomp(line: string): string {
    if line != "" && line[|line| - 1] == '\r' then line[..|line| - 1] else line
  }

  /** What a line leads to when `rest` follows it. */
  function Take(head: Head, line: string, rest: string, s: Settings): (next: Next)
    ensures next.Refused? ==> next.status != Fine
    ensures next.Served? ==> next.used <= |rest|
  {
    var counted := head.(length := head.length + |line| + 2);
    if s.maxHeaders > 0 && counted.length > s.maxHeaders then Refused(HeadersTooLarge)
    else if line == "" then EndOfHead(counted, rest, s)
    else if head.verb == "" then RequestLine(counted, line, s)
    else FieldLine(counted, line, s)
  }

  /** The requests handled on a connection, and the status of the error response that
      ended it, Fine if the input just ended. */
  datatype Trace = Trace(calls: seq<Request>, status: Status)

  function FirstLine(input: string): string {
    Chomp(input[..Find(input, '\n', 0)])
  }

  function AfterLine(input: string): (rest: string)
    ensures input != "" ==> |rest| < |input|
  {
    var k := Find(input, '\n', 0);
    if k < |input| then input[k + 1..] else ""
  }

  function Serve(input: string, head: Head, s: Settings): Trace
    decreases |input|
  {
    if input == "" then Trace([], Fine)
    else
      var rest := AfterLine(input);
      match Take(head, FirstLine(input), rest, s)
      case Refused(status) => Trace([], status)
      case More(head') => Serve(rest, head', s)
      case Served(request, used) => Prepended(request, Serve(rest[used..], FRESH, s))
  }

  function Prepended(request: Request, t: Trace): Trace {
    Trace([request] + t.calls, t.status)
  }
}
