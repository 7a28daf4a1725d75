/** What single lines of a request mean, in terms of their text: every request line and
    every field line, the lines that are refused, and the numbers in them. */
module HttpLaws {
  import opened Text
  import opened HttpRequests
  import opened HttpFraming

  // ------------------------------------------------------------------
  // Lines.

  /** A line feed alone ends a line as well, and so does the end of the input. */
  lemma BareLine(line: string, rest: string)
    requires '\n' !in line && (line == "" || line[|line| - 1] != '\r')
    ensures FirstLine(line + "\n" + rest) == line && AfterLine(line + "\n" + rest) == rest
    ensures FirstLine(line) == line && AfterLine(line) == ""
  {
    var input := line + "\n" + rest;
    assert forall j | 0 <= j < |line| :: input[j] == line[j];
    FindAt(input, '\n', 0, |line|);
    assert input[..|line|] == line && input[|line| + 1..] == rest;
    FindAt(line, '\n', 0, |line|);
    assert line[..|line|] == line;
  }

  // ------------------------------------------------------------------
  // The request line.

  lemma {:induction false} PartsCount(s: string, delim: char)
    ensures |Parts(s, delim)| == 1 + multiset(s)[delim]
  {
    if s != "" {
      PartsCount(s[1..], delim);
      assert s == [s[0]] + s[1..];
    }
  }

  /** A line with other than two spaces is no request line. */
  lemma OtherRequestLine(head: Head, line: string, s: Settings)
    requires multiset(line)[' '] != 2
    ensures RequestLine(head, line, s) == Refused(BadRequest)
  {
    PartsCount(line, ' ');
  }

  /** What every other line leads to: a method that is not known, nothing for a target or
      a protocol, a target that is too long, or the three parts in the head. */
  lemma RequestLineExact(head: Head, verb: string, target: string, protocol: string, s: Settings)
    requires ' ' !in verb && ' ' !in target && ' ' !in protocol
    ensures RequestLine(head, verb + " " + target + " " + protocol, s)
            == if verb !in {"GET", "HEAD", "POST", "PUT", "DELETE"} then Refused(NotImplemented)
               else if target == "" || protocol == "" then Refused(BadRequest)
               else if |PathOf(target)| > s.maxUri then Refused(UriTooLong)
               else More(head.(verb := verb, uri := PathOf(target), protocol := protocol,
                               authority := if "http://" <= target || "https://" <= target then AuthorityOf(target)
                                            else head.authority))
  {
    ThreeParts(verb, target, protocol);
    hide Parts, AuthorityOf, Trim;
    TrimSpace(verb);
    TrimSpace(target);
    TrimSpace(protocol);
    assert PathOf(target) == "" <==> target == "";
  }

  /** A target without a scheme is its own path. */
  lemma OtherTarget(target: string)
    requires !("http://" <= target) && !("https://" <= target)
    ensures PathOf(target) == target && AuthorityOf(target) == ""
  {
  }

  // ------------------------------------------------------------------
  // Field lines.

  function TrimEach(parts: seq<string>): (r: seq<string>)
    ensures |r| == |parts|
  {
    if parts == [] then [] else [Trim(parts[0])] + TrimEach(parts[1..])
  }

  /** A value as it is taken: without the spaces at its ends and beside its colons. */
  function Tidy(value: string): string {
    Joined(TrimEach(Parts(value, ':')), ':')
  }

  lemma {:induction false} ColonsTidy(parts: seq<string>)
    requires |parts| > 0
    ensures Colons(parts) == Joined(TrimEach(parts), ':')
  {
    if |parts| > 1 {
      ColonsTidy(parts[1..]);
      assert TrimEach(parts)[1..] == TrimEach(parts[1..]) && ":" == [':'];
    } else {
      assert TrimEach(parts)[0] == Trim(parts[0]);
    }
  }

  predicate EndsBlank(name: string, s: Settings) {
    var last := if name == "" then s.stray else name[|name| - 1];
    last == ' ' || last == '\t'
  }

  /** A line without a colon is refused; any other is refused for a blank before the colon
      or for a host or content_length that is there already, and otherwise adds its tidied
      value to the field of its name in capitals. */
  lemma FieldLineExact(head: Head, name: string, value: string, s: Settings)
    requires ':' !in name
    ensures FieldLine(head, name, s) == Refused(BadRequest)
    ensures var upper := UpperCase(name);
            FieldLine(head, name + ":" + value, s)
            == if EndsBlank(name, s) || (upper in {"HOST", "CONTENT_LENGTH"} && upper in head.headers) then Refused(BadRequest)
               else if upper in head.headers
               then More(head.(headers := head.headers[upper := head.headers[upper] + "," + Tidy(value)]))
               else More(head.(headers := head.headers[upper := Tidy(value)]))
  {
    hide Parts, Joined, TrimEach, Colons, Upper, EndsBlank, Trim;
    FirstPart(name, value, ':');
    assert name + ":" + value == name + [':'] + value;
    var parts := Parts(value, ':');
    ColonsTidy(parts);
    assert ([name] + parts)[1..] == parts && ([name] + parts)[0] == name;
    LastUpper(name, s);
  }

  lemma LastUpper(name: string, s: Settings)
    ensures EndsBlank(UpperCase(name), s) <==> EndsBlank(name, s)
    ensures EndsBlank(UpperCase(name), s)
            <==> var last := if UpperCase(name) == "" then s.stray else UpperCase(name)[|name| - 1]; last == ' ' || last == '\t'
  {
    if name != "" { assert UpperCase(name)[|name| - 1] == Upper(name[|name| - 1]); }
  }

  lemma {:induction false} JoinedParts(parts: seq<string>, delim: char)
    requires |parts| > 0 && forall p | p in parts :: delim !in p
    ensures Parts(Joined(parts, delim), delim) == parts
  {
    if |parts| == 1 {
      FirstPart(parts[0], "", delim);
    } else {
      JoinedParts(parts[1..], delim);
      FirstPart(parts[0], Joined(parts[1..], delim), delim);
    }
  }

  lemma {:induction false} TrimEachAt(parts: seq<string>, i: nat)
    requires i < |parts|
    ensures TrimEach(parts)[i] == Trim(parts[i])
  {
    if i > 0 { TrimEachAt(parts[1..], i - 1); }
  }

  /** A value arrives as it was sent exactly when no space stands at its ends or beside its
      colons. */
  lemma TidyKeeps(value: string)
    ensures Tidy(value) == value <==> forall part | part in Parts(value, ':') :: Trimmed(part)
  {
    var parts := Parts(value, ':');
    var tidied := TrimEach(parts);
    PartsJoin(value, ':');
    hide Parts, Joined, TrimEach, Trim;
    forall i | 0 <= i < |parts| ensures tidied[i] == Trim(parts[i]) && ':' !in tidied[i] && Trimmed(tidied[i]) {
      TrimEachAt(parts, i);
      var from, to := TrimCuts(parts[i]);
      assert parts[i] in parts;
      TrimmedTrim(parts[i]);
    }
    JoinedParts(tidied, ':');
    if forall part | part in parts :: Trimmed(part) {
      forall i | 0 <= i < |parts| ensures tidied[i] == parts[i] {
        assert parts[i] in parts;
        TrimSpace(parts[i]);
      }
      assert tidied == parts;
    }
  }

  lemma TrimmedTrim(s: string)
    ensures Trimmed(Trim(s))
  {}

  // ------------------------------------------------------------------
  // Numbers.

  function Digit(d: nat): char
    requires d < 10
  {
    "0123456789"[d]
  }

  lemma DigitsAre(c: char)
    ensures IsDigit(c) <==> exists d | 0 <= d < 10 :: c == Digit(d)
  {
    if IsDigit(c) { assert c == Digit(c as int - '0' as int); }
  }

  /** The digits of a number, with zeros in front of them. */
  function Numeral(zeros: nat, n: nat): string
    decreases n, zeros
  {
    if n > 0 then Numeral(zeros, n / 10) + [Digit(n % 10)] else seq(zeros, _ => '0')
  }

  lemma NextDigit(text: string, d: nat)
    requires AllDigits(text) && d < 10
    ensures AllDigits(text + [Digit(d)]) && Decimal(text + [Digit(d)]) == 10 * Decimal(text) + d
  {
    assert IsDigit(Digit(d)) && Digit(d) as int - '0' as int == d;
    assert (text + [Digit(d)])[..|text|] == text;
  }

  /** A numeral, whatever zeros lead it, is digits and read as its number. */
  lemma {:induction false} NumeralRead(zeros: nat, n: nat)
    ensures AllDigits(Numeral(zeros, n)) && Decimal(Numeral(zeros, n)) == n
    decreases n, zeros
  {
    hide AllDigits, Decimal, Digit;
    if n > 0 {
      NumeralRead(zeros, n / 10);
      NextDigit(Numeral(zeros, n / 10), n % 10);
    } else if zeros > 0 {
      NumeralRead(zeros - 1, 0);
      NextDigit(Numeral(zeros - 1, 0), 0);
      ZeroDigit();
      assert Numeral(zeros, 0) == Numeral(zeros - 1, 0) + ['0'];
    } else {
      NoDigits();
    }
  }

  lemma ZeroDigit()
    ensures Digit(0) == '0'
  {}

  lemma NoDigits()
    ensures AllDigits("") && Decimal("") == 0
  {}

  // ------------------------------------------------------------------
  // Refusals on the wire.

  /** A line that no field may look like after the fields of a head. */
  ghost predicate BadField(r: Sent, line: string, s: Settings) {
    || ':' !in line
    || exists name, value ::
         && line == name + ":" + value && ':' !in name
         && (EndsBlank(name, s) || (UpperCase(name) in {"HOST", "CONTENT_LENGTH"} && Values(r.fields, UpperCase(name)) != []))
  }

  /** Such a line ends the connection, with 431 if it makes the head too long. */
  lemma BadFieldRefused(r: Sent, line: string, rest: string, s: Settings)
    requires LinesGood(r) && HeadWithin(r, s) && '\n' !in line && line != "" && BadField(r, line, s)
    ensures Serve(StartLine(r) + CRLF + (FieldsText(r.fields) + (line + CRLF + rest)), FRESH, s)
            == Trace([], if s.maxHeaders > 0 && |HeadText(r)| + |line| > s.maxHeaders then HeadersTooLarge else BadRequest)
  {
    var tail := line + CRLF + rest;
    FieldsTaken(r, tail, s);
    LineServed(line, rest, HeadAfter(r, r.fields), s);
    BadFieldLine(r, line, s, HeadAfter(r, r.fields).length + |line| + 2);
  }

  lemma BadFieldLine(r: Sent, line: string, s: Settings, length: nat)
    requires BadField(r, line, s)
    ensures FieldLine(HeadAfter(r, r.fields).(length := length), line, s) == Refused(BadRequest)
  {
    var head := HeadAfter(r, r.fields).(length := length);
    if ':' !in line {
      FieldLineExact(head, line, "", s);
    } else {
      var name, value :| line == name + ":" + value && ':' !in name
        && (EndsBlank(name, s) || (UpperCase(name) in {"HOST", "CONTENT_LENGTH"} && Values(r.fields, UpperCase(name)) != []));
      FieldLineExact(head, name, value, s);
      HeaderMapMeans(r.fields, UpperCase(name));
    }
  }

  /** An empty line where a request should begin is refused. */
  lemma EmptyLineRefused(rest: string, s: Settings)
    ensures Serve(CRLF + rest, FRESH, s) == Trace([], if 0 < s.maxHeaders < 2 then HeadersTooLarge else BadRequest)
  {
    assert "" + CRLF + rest == CRLF + rest;
    LineServed("", rest, FRESH, s);
  }

  /** A connection that ends within a head ends well, and nothing is called for it. */
  lemma UnfinishedHead(r: Sent, s: Settings)
    requires LinesGood(r) && HeadWithin(r, s)
    ensures Serve(StartLine(r) + CRLF + FieldsText(r.fields), FRESH, s) == Trace([], Fine)
  {
    hide LinesGood, HeadWithin, StartLine, FieldsText;
    FieldsTaken(r, "", s);
    assert FieldsText(r.fields) + "" == FieldsText(r.fields);
  }
}
