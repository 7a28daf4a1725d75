/** Framing over whole connections: however many well-formed requests arrive one after
    the other, the handler is called once for each, in order, with what each one says. */
module HttpFraming {
  import opened Text
  import opened HttpRequests

  // ------------------------------------------------------------------
  // Requests as clients send them.

  datatype Field = Field(name: string, value: string)

  datatype Target = Origin(path: string) | Absolute(secure: bool, authority: string, path: string)

  datatype Sent = Sent(verb: string, target: Target, protocol: string, fields: seq<Field>, body: string)

  const CRLF := "\r\n"

  function TargetText(t: Target): string {
    match t
    case Origin(path) => path
    case Absolute(secure, authority, path) => (if secure then "https://" else "http://") + authority + path
  }

  function StartLine(r: Sent): string {
    r.verb + " " + TargetText(r.target) + " " + r.protocol
  }

  function FieldText(f: Field): string {
    f.name + ": " + f.value
  }

  function FieldsText(fs: seq<Field>): string {
    if fs == [] then "" else FieldText(fs[0]) + CRLF + FieldsText(fs[1..])
  }

  function HeadText(r: Sent): string {
    StartLine(r) + CRLF + FieldsText(r.fields) + CRLF
  }

  function Wire(r: Sent): string {
    HeadText(r) + r.body
  }

  function WireAll(rs: seq<Sent>): string {
    if rs == [] then "" else Wire(rs[0]) + WireAll(rs[1..])
  }

  // ------------------------------------------------------------------
  // What they say.

  /** The values of the fields of a name, whatever its case, in order. */
  function Values(fs: seq<Field>, name: string): seq<string> {
    if fs == [] then []
    else (if UpperCase(fs[0].name) == name then [fs[0].value] else []) + Values(fs[1..], name)
  }

  /** The header map of the fields. */
  function HeaderMap(fs: seq<Field>): map<string, string> {
    if fs == [] then map[]
    else
      var last := fs[|fs| - 1];
      Combined(HeaderMap(fs[..|fs| - 1]), UpperCase(last.name), last.value)
  }

  function Uri(t: Target): string {
    if t.Absolute? && t.path == "" then "/" else t.path
  }

  function Authority(t: Target): string {
    if t.Absolute? then t.authority else ""
  }

  function Headers(r: Sent): map<string, string> {
    if r.target.Absolute? then HeaderMap(r.fields)["HOST" := r.target.authority] else HeaderMap(r.fields)
  }

  /** The authority of an absolute target, else the value of the Host field. */
  function HostText(r: Sent): string {
    var hosts := Values(r.fields, "HOST");
    if r.target.Absolute? then r.target.authority else if hosts == [] then "" else hosts[0]
  }

  /** The request that the handler is owed. */
  function Owed(r: Sent): Request {
    var host := HostText(r);
    Request(r.verb, Uri(r.target), r.protocol, Headers(r), HostOf(host), PortOf(host), r.body, |r.body|)
  }

  /** A run of characters without spaces and line feeds. */
  predicate Plain(s: string) {
    s != "" && ' ' !in s && '\n' !in s
  }

  predicate GoodTarget(t: Target) {
    match t
    case Origin(path) => Plain(path) && path[0] == '/'
    case Absolute(_, authority, path) => Plain(authority) && '/' !in authority && (path == "" || (Plain(path) && path[0] == '/'))
  }

  /** A field name, and a value without spaces beside its colons or at its ends. */
  predicate GoodField(f: Field) {
    && f.name != "" && ':' !in f.name && '\n' !in f.name && f.name[|f.name| - 1] != ' ' && f.name[|f.name| - 1] != '\t'
    && '\n' !in f.value && forall part | part in Parts(f.value, ':') :: Trimmed(part)
  }

  predicate GoodFields(fs: seq<Field>) {
    forall f | f in fs :: GoodField(f)
  }

  /** One Host field, or at most one beside an absolute target. */
  predicate GoodHost(r: Sent) {
    var n := |Values(r.fields, "HOST")|;
    n == 1 || (n == 0 && r.target.Absolute?)
  }

  /** The body is as long as the one Content-Length field of a POST says; a GET has none. */
  predicate GoodBody(r: Sent) {
    if r.verb == "GET" then r.body == ""
    else
      var lengths := Values(r.fields, "CONTENT-LENGTH");
      |lengths| == 1 && lengths[0] != "" && AllDigits(lengths[0]) && Decimal(lengths[0]) == |r.body|
  }

  /** A head that is taken line by line to its end, whatever becomes of it there. */
  predicate LinesGood(r: Sent) {
    && IsMethod(r.verb) && GoodTarget(r.target) && Plain(r.protocol) && GoodFields(r.fields)
    && |Values(r.fields, "HOST")| <= 1 && |Values(r.fields, "CONTENT_LENGTH")| <= 1
  }

  predicate GoodHead(r: Sent) {
    (r.verb == "GET" || r.verb == "POST") && LinesGood(r) && GoodHost(r)
  }

  predicate WellFormed(r: Sent) {
    GoodHead(r) && GoodBody(r)
  }

  predicate HeadWithin(r: Sent, s: Settings) {
    |Uri(r.target)| <= s.maxUri && (s.maxHeaders == 0 || |HeadText(r)| <= s.maxHeaders)
  }

  /** Within the limits of the server, whose maximum for content is a size_t. */
  predicate Within(r: Sent, s: Settings) {
    HeadWithin(r, s) && |r.body| <= s.maxContent <= SIZE_MAX
  }

  ghost predicate Servable(r: Sent, s: Settings) {
    WellFormed(r) && Within(r, s) && Accepted(Owed(r), s)
  }

  // ------------------------------------------------------------------
  // Header maps.

  lemma {:induction false} ValuesConcat(a: seq<Field>, b: seq<Field>, name: string)
    ensures Values(a + b, name) == Values(a, name) + Values(b, name)
  {
    if a == [] {
      assert a + b == b;
    } else {
      assert (a + b)[1..] == a[1..] + b;
      ValuesConcat(a[1..], b, name);
    }
  }

  lemma JoinedMore(parts: seq<string>, last: string, delim: char)
    requires |parts| > 0
    ensures Joined(parts + [last], delim) == Joined(parts, delim) + [delim] + last
  {
    var all := parts + [last];
    if |parts| == 1 {
      assert all[1..] == [last];
    } else {
      assert all[1..] == parts[1..] + [last];
      JoinedMore(parts[1..], last, delim);
    }
  }

  /** The header map holds exactly the names of the fields, each with the values of its
      fields in order, a comma between them. */
  lemma {:induction false} HeaderMapMeans(fs: seq<Field>, name: string)
    ensures name in HeaderMap(fs) <==> Values(fs, name) != []
    ensures name in HeaderMap(fs) ==> HeaderMap(fs)[name] == Joined(Values(fs, name), ',')
  {
    if fs != [] {
      var init, last := fs[..|fs| - 1], fs[|fs| - 1];
      HeaderMapMeans(init, name);
      assert fs == init + [last];
      ValuesConcat(init, [last], name);
      assert Values([last][1..], name) == [];
      var values := Values(init, name);
      assert Values(fs, name) == if UpperCase(last.name) == name then values + [last.value] else values;
      if UpperCase(last.name) == name && name in HeaderMap(init) {
        JoinedMore(values, last.value, ',');
        assert "," == [','];
      }
    }
  }

  // ------------------------------------------------------------------
  // Lines.

  lemma FindAt(s: string, c: char, i: nat, k: nat)
    requires i <= k <= |s| && (k < |s| ==> s[k] == c) && forall j | i <= j < k :: s[j] != c
    ensures Find(s, c, i) == k
  {
  }

  /** A line on the wire is read as that line, with the rest of the input behind it. */
  lemma LineRead(line: string, rest: string)
    requires '\n' !in line
    ensures FirstLine(line + CRLF + rest) == line && AfterLine(line + CRLF + rest) == rest
  {
    var input := line + CRLF + rest;
    var k := |line| + 1;
    assert forall j | 0 <= j < |line| :: input[j] == line[j];
    assert input[|line|] == '\r' && input[k] == '\n';
    FindAt(input, '\n', 0, k);
    assert input[..k] == line + "\r" && (line + "\r")[..|line|] == line;
    assert input[k + 1..] == rest;
  }

  lemma LineServed(line: string, rest: string, head: Head, s: Settings)
    requires '\n' !in line
    ensures var t := Serve(line + CRLF + rest, head, s);
            match Take(head, line, rest, s)
            case Refused(status) => t == Trace([], status)
            case More(head') => t == Serve(rest, head', s)
            case Served(request, used) => t == Prepended(request, Serve(rest[used..], FRESH, s))
  {
    hide Take, FirstLine, AfterLine;
    LineRead(line, rest);
    assert line + CRLF + rest != "";
  }

  // ------------------------------------------------------------------
  // The request line.

  lemma PlainTrimmed(s: string)
    requires Plain(s)
    ensures Trim(s) == s
  {
    TrimSpace(s);
  }

  lemma PlainTarget(t: Target)
    requires GoodTarget(t)
    ensures Plain(TargetText(t))
  {
  }

  lemma ThreeParts(a: string, b: string, c: string)
    requires ' ' !in a && ' ' !in b && ' ' !in c
    ensures Parts(a + " " + b + " " + c, ' ') == [a, b, c]
  {
    assert a + " " + b + " " + c == a + [' '] + (b + [' '] + c);
    FirstPart(a, b + [' '] + c, ' ');
    FirstPart(b, c, ' ');
    FirstPart(c, "", ' ');
  }

  lemma TargetRead(t: Target)
    requires GoodTarget(t)
    ensures PathOf(TargetText(t)) == Uri(t)
    ensures (if SchemeLength(TargetText(t)) > 0 then AuthorityOf(TargetText(t)) else "") == Authority(t)
  {
    hide PathOf, AuthorityOf, SchemeLength;
    match t
    case Origin(path) =>
      OriginRead(path);
    case Absolute(secure, authority, path) =>
      AbsoluteRead(secure, authority, path);
  }

  lemma AbsoluteRead(secure: bool, authority: string, path: string)
    requires '/' !in authority && (path == "" || path[0] == '/')
    ensures var text := (if secure then "https://" else "http://") + authority + path;
            SchemeLength(text) > 0 && AuthorityOf(text) == authority && PathOf(text) == if path == "" then "/" else path
  {
    hide SchemeLength, Find;
    var scheme := if secure then "https://" else "http://";
    SchemeRead(secure, authority + path);
    assert scheme + (authority + path) == scheme + authority + path;
    SlashFound(scheme, authority, path);
  }

  lemma SlashFound(scheme: string, authority: string, path: string)
    requires '/' !in authority && (path == "" || path[0] == '/')
    ensures var text, n := scheme + authority + path, |scheme|;
            var slash := Find(text, '/', n);
            text[n..slash] == authority && text[slash..] == path
  {
    var text, n := scheme + authority + path, |scheme|;
    var slash := n + |authority|;
    assert forall j | n <= j < slash :: text[j] == authority[j - n];
    assert path != "" ==> text[slash] == path[0];
    FindAt(text, '/', n, slash);
  }

  lemma OriginRead(path: string)
    requires path != "" && path[0] == '/'
    ensures SchemeLength(path) == 0 && PathOf(path) == path
  {
    assert "http://"[0] == 'h' && "https://"[0] == 'h';
  }

  lemma SchemeRead(secure: bool, rest: string)
    ensures SchemeLength((if secure then "https://" else "http://") + rest) == if secure then 8 else 7
  {
    var text := (if secure then "https://" else "http://") + rest;
    if secure {
      assert text[4] == 's' && "http://"[4] == ':';
    }
  }

  lemma StartTaken(r: Sent, s: Settings, length: nat)
    requires LinesGood(r)
    ensures RequestLine(FRESH.(length := length), StartLine(r), s)
            == if |Uri(r.target)| > s.maxUri then Refused(UriTooLong)
               else More(Head(r.verb, Uri(r.target), r.protocol, Authority(r.target), map[], length))
  {
    hide Trim, Parts, PathOf, SchemeLength, AuthorityOf;
    var text := TargetText(r.target);
    PlainTarget(r.target);
    ThreeParts(r.verb, text, r.protocol);
    PlainTrimmed(r.verb);
    PlainTrimmed(text);
    PlainTrimmed(r.protocol);
    TargetRead(r.target);
  }

  // ------------------------------------------------------------------
  // Fields.

  lemma {:induction false} ColonsJoin(parts: seq<string>)
    requires |parts| > 0 && forall part | part in parts :: Trimmed(part)
    ensures Colons(parts) == Joined(parts, ':')
  {
    TrimSpace(parts[0]);
    if |parts| > 1 {
      ColonsJoin(parts[1..]);
      assert ":" == [':'];
    }
  }

  lemma FieldRead(f: Field)
    requires GoodField(f)
    ensures var parts := Parts(FieldText(f), ':'); |parts| > 1 && parts[0] == f.name && Colons(parts[1..]) == f.value
  {
    var value := " " + f.value;
    assert FieldText(f) == f.name + [':'] + value;
    FirstPart(f.name, value, ':');
    assert value[1..] == f.value;
    var parts, spaced := Parts(f.value, ':'), Parts(value, ':');
    assert spaced == [[' '] + parts[0]] + parts[1..];
    assert [' '] + parts[0] == " " + parts[0];
    TrimSpace(parts[0]);
    assert spaced[1..] == parts[1..];
    ColonsJoin(parts);
    PartsJoin(f.value, ':');
  }

  lemma FieldTaken(head: Head, f: Field, s: Settings)
    requires GoodField(f) && !(UpperCase(f.name) in head.headers && Single(UpperCase(f.name)))
    ensures FieldLine(head, FieldText(f), s)
            == More(head.(headers := Combined(head.headers, UpperCase(f.name), f.value)))
  {
    hide Parts, Colons, FieldText;
    FieldRead(f);
    var last := f.name[|f.name| - 1];
    assert UpperCase(f.name)[|f.name| - 1] == Upper(last);
  }

  /** The head after some of the fields of a request. */
  function HeadAfter(r: Sent, done: seq<Field>): Head {
    Head(r.verb, Uri(r.target), r.protocol, Authority(r.target), HeaderMap(done),
         |StartLine(r) + CRLF| + |FieldsText(done)|)
  }

  /** The head up to some of its fields is not longer than the server allows. */
  predicate Counted(r: Sent, done: seq<Field>, s: Settings) {
    s.maxHeaders == 0 || HeadAfter(r, done).length <= s.maxHeaders
  }

  lemma WithinCounted(r: Sent, done: seq<Field>, todo: seq<Field>, s: Settings)
    requires HeadWithin(r, s) && r.fields == done + todo
    ensures Counted(r, done, s)
  {
    FieldsLength(done, todo);
  }

  /** The fields of a request are taken one after the other. */
  lemma {:induction false} FieldsServed(r: Sent, done: seq<Field>, todo: seq<Field>, rest: string, s: Settings)
    requires LinesGood(r) && HeadWithin(r, s) && r.fields == done + todo
    ensures Serve(FieldsText(todo) + rest, HeadAfter(r, done), s) == Serve(rest, HeadAfter(r, r.fields), s)
    decreases |todo|
  {
    hide Serve, Take, LinesGood, HeadWithin, HeadAfter, FieldText, Counted;
    if todo == [] {
      assert done + todo == done && "" + rest == rest;
    } else {
      var f, behind := todo[0], FieldsText(todo[1..]) + rest;
      assert todo == [f] + todo[1..] && (done + [f]) + todo[1..] == done + todo;
      FieldTextGood(r, f);
      LineServed(FieldText(f), behind, HeadAfter(r, done), s);
      WithinCounted(r, done + [f], todo[1..], s);
      FieldNext(r, done, f, todo[1..], behind, s);
      assert FieldsText(todo) + rest == FieldText(f) + CRLF + behind;
      FieldsServed(r, done + [f], todo[1..], rest, s);
    }
  }

  lemma FieldTextGood(r: Sent, f: Field)
    requires LinesGood(r) && f in r.fields
    ensures GoodField(f) && '\n' !in FieldText(f) && FieldText(f) != ""
  {
  }

  lemma FieldNext(r: Sent, done: seq<Field>, f: Field, todo: seq<Field>, rest: string, s: Settings)
    requires LinesGood(r) && r.fields == done + ([f] + todo)
    ensures Take(HeadAfter(r, done), FieldText(f), rest, s)
            == if Counted(r, done + [f], s) then More(HeadAfter(r, done + [f])) else Refused(HeadersTooLarge)
  {
    hide FieldLine, RequestLine, EndOfHead, FieldText, GoodField, GoodTarget, GoodFields, GoodHost, GoodBody;
    hide HeaderMap, FieldsText, StartLine, Values, Combined;
    var head, line := HeadAfter(r, done), FieldText(f);
    FieldTextGood(r, f);
    HeadGrows(r, done, f);
    FieldOnce(r, done, f, todo);
    FieldTaken(head.(length := head.length + |line| + 2), f, s);
  }

  lemma HeadGrows(r: Sent, done: seq<Field>, f: Field)
    ensures var head := HeadAfter(r, done);
            HeadAfter(r, done + [f]) == head.(headers := Combined(head.headers, UpperCase(f.name), f.value),
                                              length := head.length + |FieldText(f)| + 2)
  {
    hide FieldText, Combined;
    FieldsLength(done, [f]);
    assert [f][1..] == [] && (done + [f])[..|done|] == done;
  }

  lemma {:induction false} FieldsLength(a: seq<Field>, b: seq<Field>)
    ensures |FieldsText(a + b)| == |FieldsText(a)| + |FieldsText(b)|
  {
    if a == [] {
      assert a + b == b;
    } else {
      assert (a + b)[1..] == a[1..] + b;
      FieldsLength(a[1..], b);
    }
  }

  /** A field that may not be repeated is not there yet. */
  lemma FieldOnce(r: Sent, done: seq<Field>, f: Field, todo: seq<Field>)
    requires LinesGood(r) && r.fields == done + ([f] + todo)
    ensures UpperCase(f.name) in HeaderMap(done) ==> !Single(UpperCase(f.name))
  {
    var name := UpperCase(f.name);
    HeaderMapMeans(done, name);
    ValuesConcat(done, [f] + todo, name);
    assert Values([f] + todo, name) != [];
  }

  // ------------------------------------------------------------------
  // The end of a head, and whole requests.

  /** The body that a head asks for of what follows it, or why it is refused. */
  function BodyOf(r: Sent, rest: string, s: Settings): Payload {
    var lengths := Values(r.fields, "CONTENT-LENGTH");
    if r.verb == "GET" then Payload("")
    else if r.verb != "POST" then Missing(NotImplemented)
    else if lengths == [] then Missing(LengthRequired)
    else if |lengths| > 1 || lengths[0] == "" || !AllDigits(lengths[0]) then Missing(BadRequest)
    else
      var n := Saturated(Decimal(lengths[0]));
      if n > s.maxContent then Missing(PayloadTooLarge)
      else if |rest| < n then Missing(BadRequest)
      else Payload(rest[..n])
  }

  /** What a head leads to once it has been taken to its end. */
  function Decided(r: Sent, rest: string, s: Settings): Next {
    if !GoodHost(r) then Refused(BadRequest)
    else
      match BodyOf(r, rest, s)
      case Missing(status) => Refused(status)
      case Payload(content) =>
        var request := Owed(r.(body := content));
        if Accepted(request, s) then Served(request, |content|) else Refused(BadRequest)
  }

  lemma PayloadTaken(r: Sent, rest: string, s: Settings)
    ensures PayloadOf(r.verb, Headers(r), rest, s) == BodyOf(r, rest, s)
  {
    hide AllDigits, Decimal, Saturated;
    if r.verb == "POST" {
      var name := "CONTENT-LENGTH";
      assert name[0] != "HOST"[0];
      HeaderMapMeans(r.fields, name);
      var lengths := Values(r.fields, name);
      if |lengths| > 1 { JoinedLengths(lengths); }
    }
  }

  /** Lengths joined by commas are no number. */
  lemma JoinedLengths(lengths: seq<string>)
    requires |lengths| > 1
    ensures !AllDigits(Joined(lengths, ','))
  {
    var declared := Joined(lengths, ',');
    assert declared[|lengths[0]|] == ',';
    assert !IsDigit(',') && ',' in declared;
  }

  lemma EndTaken(r: Sent, rest: string, s: Settings, length: nat)
    requires LinesGood(r)
    ensures EndOfHead(HeadAfter(r, r.fields).(length := length), rest, s) == Decided(r, rest, s)
  {
    hide PayloadOf, BodyOf, HostOf, PortOf;
    var head := HeadAfter(r, r.fields).(length := length);
    assert Addressed(head) == Headers(r);
    HeaderMapMeans(r.fields, "HOST");
    assert GoodHost(r) <==> "HOST" in Headers(r);
    if GoodHost(r) { assert Headers(r)["HOST"] == HostText(r); }
    PayloadTaken(r, rest, s);
  }

  lemma StartNext(r: Sent, rest: string, s: Settings)
    requires LinesGood(r)
    ensures Take(FRESH, StartLine(r), rest, s)
            == if !Counted(r, [], s) then Refused(HeadersTooLarge)
               else if |Uri(r.target)| > s.maxUri then Refused(UriTooLong)
               else More(HeadAfter(r, []))
  {
    hide FieldLine, RequestLine, EndOfHead, StartLine, GoodTarget, GoodFields;
    StartLines(r);
    StartTaken(r, s, |StartLine(r)| + 2);
  }

  lemma EndNext(r: Sent, rest: string, s: Settings)
    requires LinesGood(r)
    ensures Take(HeadAfter(r, r.fields), "", rest, s)
            == if s.maxHeaders > 0 && |HeadText(r)| > s.maxHeaders then Refused(HeadersTooLarge) else Decided(r, rest, s)
  {
    hide FieldLine, RequestLine, EndOfHead, Decided, StartLine, GoodTarget, GoodFields;
    EndTaken(r, rest, s, HeadAfter(r, r.fields).length + 2);
  }

  lemma WireShape(r: Sent, rest: string)
    ensures HeadText(r) + rest == StartLine(r) + CRLF + (FieldsText(r.fields) + ("" + CRLF + rest))
    ensures Wire(r) + rest == HeadText(r) + (r.body + rest) && (r.body + rest)[|r.body|..] == rest
  {
    hide StartLine, FieldsText;
    assert "" + CRLF == CRLF;
  }

  /** The lines of a head within the limits are taken one after the other. */
  lemma FieldsTaken(r: Sent, rest: string, s: Settings)
    requires LinesGood(r) && HeadWithin(r, s)
    ensures Serve(StartLine(r) + CRLF + (FieldsText(r.fields) + rest), FRESH, s) == Serve(rest, HeadAfter(r, r.fields), s)
  {
    hide Serve, Take, LinesGood, HeadAfter, StartLine, HeadText, FieldsText, Counted;
    StartLines(r);
    LineServed(StartLine(r), FieldsText(r.fields) + rest, FRESH, s);
    StartNext(r, FieldsText(r.fields) + rest, s);
    assert [] + r.fields == r.fields;
    WithinCounted(r, [], r.fields, s);
    FieldsServed(r, [], r.fields, rest, s);
  }

  lemma HeadServed(r: Sent, rest: string, s: Settings)
    requires LinesGood(r) && HeadWithin(r, s)
    ensures Serve(HeadText(r) + rest, FRESH, s) == Serve("" + CRLF + rest, HeadAfter(r, r.fields), s)
  {
    hide Serve, LinesGood, HeadAfter, StartLine, HeadText, FieldsText;
    FieldsTaken(r, "" + CRLF + rest, s);
    WireShape(r, rest);
  }

  /** The error response to a request that is not within the limits: that of the first
      limit it exceeds, where the request line counts as part of the head before its
      target is looked at, and the rest of the head after. */
  function FirstExceeded(r: Sent, s: Settings): Status {
    if s.maxHeaders > 0 && |StartLine(r) + CRLF| > s.maxHeaders then HeadersTooLarge
    else if |Uri(r.target)| > s.maxUri then UriTooLong
    else if s.maxHeaders > 0 && |HeadText(r)| > s.maxHeaders then HeadersTooLarge
    else PayloadTooLarge
  }

  lemma ContentExceeded(r: Sent, s: Settings)
    requires HeadWithin(r, s)
    ensures FirstExceeded(r, s) == PayloadTooLarge
  {
  }

  /** A head that is too long is refused at the line that makes it so. */
  lemma {:induction false} FieldsRefused(r: Sent, done: seq<Field>, todo: seq<Field>, rest: string, s: Settings)
    requires LinesGood(r) && 0 < s.maxHeaders < |HeadText(r)| && r.fields == done + todo
    ensures Serve(FieldsText(todo) + ("" + CRLF + rest), HeadAfter(r, done), s) == Trace([], HeadersTooLarge)
    decreases |todo|
  {
    hide Serve, Take, LinesGood, HeadText, HeadAfter, FieldText, Counted;
    var tail := "" + CRLF + rest;
    if todo == [] {
      assert done + todo == done && "" + tail == tail;
      LineServed("", rest, HeadAfter(r, done), s);
      EndNext(r, rest, s);
    } else {
      var f, behind := todo[0], FieldsText(todo[1..]) + tail;
      assert todo == [f] + todo[1..] && (done + [f]) + todo[1..] == done + todo;
      FieldTextGood(r, f);
      LineServed(FieldText(f), behind, HeadAfter(r, done), s);
      FieldNext(r, done, f, todo[1..], behind, s);
      assert FieldsText(todo) + tail == FieldText(f) + CRLF + behind;
      if Counted(r, done + [f], s) { FieldsRefused(r, done + [f], todo[1..], rest, s); }
    }
  }

  /** A head that is too long, or whose target is, is refused. */
  lemma HeadRefused(r: Sent, rest: string, s: Settings)
    requires LinesGood(r) && !HeadWithin(r, s)
    ensures Serve(HeadText(r) + rest, FRESH, s) == Trace([], FirstExceeded(r, s))
  {
    hide Serve, Take, LinesGood, StartLine;
    var line, tail := StartLine(r), "" + CRLF + rest;
    StartLines(r);
    LineServed(line, FieldsText(r.fields) + tail, FRESH, s);
    StartNext(r, FieldsText(r.fields) + tail, s);
    assert [] + r.fields == r.fields && FieldsText([]) == "";
    WireShape(r, rest);
    if Counted(r, [], s) && |Uri(r.target)| <= s.maxUri { FieldsRefused(r, [], r.fields, rest, s); }
  }

  /** What becomes of a head whose lines are good, whatever follows it: the first limit it
      exceeds, the missing host, the method that is not served, the missing or wrong
      length, the short body, or a call of the handler. */
  lemma HeadDecided(r: Sent, rest: string, s: Settings)
    requires LinesGood(r)
    ensures var t, end := Serve(HeadText(r) + rest, FRESH, s), Decided(r, rest, s);
            && (end.Refused? || (end.Served? && end.used <= |rest|))
            && (!HeadWithin(r, s) ==> t == Trace([], FirstExceeded(r, s)))
            && (HeadWithin(r, s) && end.Refused? ==> t == Trace([], end.status))
            && (HeadWithin(r, s) && end.Served? ==> t == Prepended(end.request, Serve(rest[end.used..], FRESH, s)))
  {
    hide Serve, Take, LinesGood, HeadAfter, HeadText, FirstExceeded, Owed, GoodHost;
    if !HeadWithin(r, s) {
      HeadRefused(r, rest, s);
    } else {
      HeadServed(r, rest, s);
      LineServed("", rest, HeadAfter(r, r.fields), s);
      EndNext(r, rest, s);
    }
  }

  lemma OwedHost(r: Sent)
    ensures NamesHost(HostText(r), Owed(r).host, Owed(r).port)
  {
    hide NamesHost, HostText;
    HostAndPort(HostText(r), Owed(r).host, Owed(r).port);
  }

  /** The body that a well-formed request declares is its own. */
  lemma BodyDeclared(r: Sent, rest: string, s: Settings)
    requires WellFormed(r) && s.maxContent <= SIZE_MAX && |r.body| <= SIZE_MAX
    ensures BodyOf(r, r.body + rest, s) == if |r.body| > s.maxContent then Missing(PayloadTooLarge) else Payload(r.body)
  {
    hide LinesGood, GoodHost;
    assert (r.body + rest)[..|r.body|] == r.body;
  }

  /** What becomes of a well-formed request: outside the limits it is refused with the
      status of the first one it exceeds, and nothing behind it is read; within them it is
      served, and what follows it is served afresh, unless the request object cannot be
      built. */
  lemma RequestDecided(r: Sent, rest: string, s: Settings)
    requires WellFormed(r) && s.maxContent <= SIZE_MAX && |r.body| <= SIZE_MAX
    ensures Serve(Wire(r) + rest, FRESH, s)
            == if !Within(r, s) then Trace([], FirstExceeded(r, s))
               else if !Accepted(Owed(r), s) then Trace([], BadRequest)
               else Prepended(Owed(r), Serve(rest, FRESH, s))
    ensures NamesHost(HostText(r), Owed(r).host, Owed(r).port)
  {
    OwedHost(r);
    hide Serve, Owed, BodyOf, NamesHost, HostText, LinesGood, GoodBody, HeadText, Wire, FirstExceeded;
    WireShape(r, rest);
    HeadDecided(r, r.body + rest, s);
    BodyDeclared(r, rest, s);
    assert r.(body := r.body) == r;
    if HeadWithin(r, s) { ContentExceeded(r, s); }
  }

  /** A well-formed request is served, and what follows it is served afresh. */
  lemma RequestServed(r: Sent, rest: string, s: Settings)
    requires Servable(r, s)
    ensures Serve(Wire(r) + rest, FRESH, s) == Prepended(Owed(r), Serve(rest, FRESH, s))
    ensures NamesHost(HostText(r), Owed(r).host, Owed(r).port)
  {
    hide Serve, Owed, GoodHead, GoodBody, HeadWithin, Wire, NamesHost, HostText;
    RequestDecided(r, rest, s);
  }

  lemma StartLines(r: Sent)
    requires LinesGood(r)
    ensures '\n' !in StartLine(r) && StartLine(r) != ""
  {
    PlainTarget(r.target);
  }

  function OwedAll(rs: seq<Sent>): seq<Request> {
    if rs == [] then [] else [Owed(rs[0])] + OwedAll(rs[1..])
  }

  /** Any list of well-formed requests, sent one behind the other, makes the handler be
      called once for each, in order, with that request's method, target, headers and
      body; whatever follows them is served as on a new connection. */
  lemma {:induction false} RequestsServed(rs: seq<Sent>, rest: string, s: Settings)
    requires forall r | r in rs :: Servable(r, s)
    ensures var t := Serve(rest, FRESH, s);
            Serve(WireAll(rs) + rest, FRESH, s) == Trace(OwedAll(rs) + t.calls, t.status)
  {
    hide Serve, Servable, Owed, Wire;
    if rs == [] {
      assert "" + rest == rest && [] + Serve(rest, FRESH, s).calls == Serve(rest, FRESH, s).calls;
    } else {
      assert WireAll(rs) + rest == Wire(rs[0]) + (WireAll(rs[1..]) + rest);
      RequestServed(rs[0], WireAll(rs[1..]) + rest, s);
      RequestsServed(rs[1..], rest, s);
    }
  }
}
