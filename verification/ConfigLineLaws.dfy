/** What any line of a configuration file says, in terms of its text: where its comment
    begins, which lines have a key error, how deep the others lie and what their fields
    are. */
module ConfigLineLaws {
  import opened Text
  import opened ConfigLines

  // ------------------------------------------------------------------
  // Comments.

  predicate EndsEscaping(s: string) {
    s != "" && s[|s| - 1] == BACKSLASH
  }

  /** A line is the escaped text and a comment behind it, which a backslash at the end of
      the text would escape. */
  ghost predicate Comments(line: string, text: string) {
    line == Escaped(text) || (!EndsEscaping(text) && exists comment :: line == Escaped(text) + "#" + comment)
  }

  /** An escaped '#' and any other character are taken into the text. */
  lemma StripSteps(c: char, behind: string, prev: char, line: string)
    requires prev == BACKSLASH ==> line != ""
    ensures Strip("\\#" + behind, prev, line) == Strip(behind, '#', line + "#")
    ensures c != '#' ==> Strip([c] + behind, prev, line) == Strip(behind, c, line + [c])
  {
    var all, pushed := "\\#" + behind, line + [BACKSLASH];
    assert all[0] == BACKSLASH && all[1..] == "#" + behind && ("#" + behind)[1..] == behind;
    assert pushed[..|pushed| - 1] == line;
    assert ([c] + behind)[1..] == behind;
  }

  lemma EscapedStep(s: string, behind: string)
    requires s != ""
    ensures s[0] == '#' ==> Escaped(s) + behind == "\\#" + (Escaped(s[1..]) + behind)
    ensures s[0] != '#' ==> Escaped(s) + behind == [s[0]] + (Escaped(s[1..]) + behind)
  {
    Reassociate(if s[0] == '#' then "\\#" else [s[0]], Escaped(s[1..]), behind);
  }

  lemma Reassociate(a: string, b: string, c: string)
    ensures (a + b) + c == a + (b + c)
  {}

  lemma FirstAndRest(line: string, s: string)
    requires s != ""
    ensures (line + [s[0]]) + s[1..] == line + s && (s[0] == '#' ==> line + "#" == line + [s[0]])
  {}

  lemma CommentBegins(comment: string, prev: char, line: string)
    requires prev != BACKSLASH
    ensures Strip(Escaped("") + ("#" + comment), prev, line) == line + ""
  {
    assert "" + ("#" + comment) == "#" + comment && line + "" == line;
  }

  lemma {:induction false} CommentCut(s: string, comment: string, prev: char, line: string)
    requires prev == BACKSLASH ==> line != ""
    requires if s == "" then prev != BACKSLASH else !EndsEscaping(s)
    ensures Strip(Escaped(s) + ("#" + comment), prev, line) == line + s
    decreases |s|
  {
    hide Strip, Escaped;
    if s == "" {
      CommentBegins(comment, prev, line);
    } else {
      EscapedStep(s, "#" + comment);
      StripSteps(s[0], Escaped(s[1..]) + ("#" + comment), prev, line);
      FirstAndRest(line, s);
      CommentCut(s[1..], comment, s[0], line + [s[0]]);
    }
  }

  lemma {:induction false} EscapedMore(s: string, c: char)
    ensures Escaped(s + [c]) == Escaped(s) + if c == '#' then "\\#" else [c]
  {
    var t, last := s + [c], if c == '#' then "\\#" else [c];
    if s == "" {
      assert t == [c] && t[1..] == "" && Escaped("") == "" && last + "" == last == "" + last;
    } else {
      assert t[1..] == s[1..] + [c] && t[0] == s[0];
      EscapedMore(s[1..], c);
      var first := if s[0] == '#' then "\\#" else [s[0]];
      assert first + (Escaped(s[1..]) + last) == (first + Escaped(s[1..])) + last;
    }
  }

  /** Whatever the rest of a line, it is read as text and a comment. */
  lemma {:induction false} StripReads(rest: string, prev: char, line: string)
    requires prev == BACKSLASH <==> EndsEscaping(line)
    ensures Comments(Escaped(line) + rest, Strip(rest, prev, line))
    decreases |rest|
  {
    if rest == "" {
      assert Escaped(line) + "" == Escaped(line);
    } else if rest[0] == '#' && prev != BACKSLASH {
      assert rest == "#" + rest[1..];
      assert Escaped(line) + rest == Escaped(line) + "#" + rest[1..];
    } else if rest[0] == '#' {
      var init := line[..|line| - 1];
      assert line == init + [BACKSLASH];
      EscapedMore(init, BACKSLASH);
      EscapedMore(init, '#');
      assert Escaped(init + "#") + rest[1..] == Escaped(line) + rest;
      StripReads(rest[1..], '#', init + "#");
    } else {
      EscapedMore(line, rest[0]);
      assert Escaped(line + [rest[0]]) + rest[1..] == Escaped(line) + rest;
      StripReads(rest[1..], rest[0], line + [rest[0]]);
    }
  }

  /** What is left of a line is the one text that it is with a comment behind it. */
  lemma StripExactly(line: string, text: string)
    ensures Strip(line, '\0', "") == text <==> Comments(line, text)
  {
    hide Strip;
    StripReads(line, '\0', "");
    assert Escaped("") + line == line && "" + text == text;
    hide Escaped;
    if Comments(line, text) {
      if line == Escaped(text) {
        StripEscaped(text, '\0', "");
      } else {
        var comment :| line == Escaped(text) + "#" + comment;
        CommentCut(text, comment, '\0', "");
        assert line == Escaped(text) + ("#" + comment);
      }
    }
  }

  function Spaces(n: nat): string {
    seq(n, _ => ' ')
  }

  lemma {:induction false} TrimSpaces(value: string, n: nat)
    requires Trimmed(value)
    ensures TrimRight(value + Spaces(n)) == value
    decreases n
  {
    var s := value + Spaces(n);
    if n > 0 {
      assert s[..|s| - 1] == value + Spaces(n - 1);
      TrimSpaces(value, n - 1);
    } else {
      assert s == value;
    }
  }

  lemma {:induction false} TrimBlank(n: nat)
    ensures Trim(Spaces(n)) == ""
    decreases n
  {
    if n > 0 {
      assert Spaces(n)[1..] == Spaces(n - 1);
      TrimBlank(n - 1);
    }
  }

  /** A comment behind the line of an option changes nothing, unless the value reaches up
      to it and escapes it. */
  lemma CommentedSays(o: Option, level: nat, n: nat, comment: string)
    requires Spellable(o) && (n > 0 || !EndsEscaping(Tabs(level) + Head(o) + ": " + o.value))
    ensures KindOf(Spelled(o, level) + Spaces(n) + "#" + comment) == Line(Entry(level, o.attr, o.key, o.value))
  {
    hide Strip, SplitFrom, Escaped, AttrOf, KeyOf, Head, Trim, TrimRight;
    var text := Tabs(level) + Head(o) + ": " + o.value;
    EscapedSpaces(text, n);
    StripExactly(Spelled(o, level) + Spaces(n) + "#" + comment, text + Spaces(n));
    SpacedFields(o, level, n);
    assert text + Spaces(n) == Tabs(level) + Head(o) + ":" + (" " + (o.value + Spaces(n)));
    HeadFields(o);
  }

  lemma {:induction false} EscapedSpaces(text: string, n: nat)
    ensures Escaped(text + Spaces(n)) == Escaped(text) + Spaces(n)
    decreases n
  {
    if n == 0 {
      assert text + "" == text && Escaped(text) + "" == Escaped(text);
    } else {
      EscapedSpaces(text, n - 1);
      EscapedMore(text + Spaces(n - 1), ' ');
      assert text + Spaces(n) == (text + Spaces(n - 1)) + [' '];
    }
  }

  lemma SpacedFields(o: Option, level: nat, n: nat)
    requires Spellable(o)
    ensures SplitFrom(Tabs(level) + Head(o) + ":" + (" " + (o.value + Spaces(n))), 0, "", "") == Fields(level, Head(o), o.value)
  {
    hide SplitFrom;
    var rest := " " + (o.value + Spaces(n));
    SplitExactly(level, Head(o), 0, rest);
    assert Tabs(level) + Head(o) + ":" + Tabs(0) + rest == Tabs(level) + Head(o) + ":" + rest;
    assert rest[1..] == o.value + Spaces(n);
    if o.value == "" {
      assert rest == Spaces(n + 1);
      TrimBlank(n + 1);
    } else {
      TrimSpaces(o.value, n);
    }
  }

  /** Lines that say nothing are the empty ones and those that begin with a comment. */
  lemma BlankExactly(line: string)
    ensures KindOf(line) == Blank <==> line == "" || line[0] == '#'
  {
    hide SplitFrom;
    StripExactly(line, "");
    assert Escaped("") == "";
    if line != "" && line[0] == '#' {
      assert line == Escaped("") + "#" + line[1..];
    }
  }

  /** A comment is passed over exactly when it begins its line; behind tabs it counts for
      an option of their depth without a name. */
  lemma IndentedComment(n: nat, comment: string)
    ensures KindOf(Tabs(n) + "#" + comment) == if n == 0 then Blank else Line(Entry(n, "", "", ""))
  {
    BlankExactly(Tabs(n) + "#" + comment);
    if n > 0 {
      TabsEscaped(n);
      StripExactly(Tabs(n) + "#" + comment, Tabs(n));
      SplitExactly(n, "", 0, "");
      assert Tabs(n) + "" == Tabs(n);
    }
  }

  lemma {:induction false} TabsEscaped(n: nat)
    ensures Escaped(Tabs(n)) == Tabs(n)
  {
    if n > 0 {
      assert Tabs(n)[1..] == Tabs(n - 1);
      TabsEscaped(n - 1);
    }
  }

  // ------------------------------------------------------------------
  // Fields.

  predicate GoodHead(head: string) {
    ' ' !in head && '/' !in head
  }

  lemma {:induction false} HeadWalk(head: string, behind: string, level: nat, word: string)
    requires ':' !in head && (word == "" ==> head == "" || head[0] != TAB)
    ensures GoodHead(head) ==> SplitFrom(head + behind, level, "", word) == SplitFrom(behind, level, "", word + head)
    ensures !GoodHead(head) ==> SplitFrom(head + behind, level, "", word) == BadKey
    decreases |head|
  {
    var s := head + behind;
    if head == "" {
      assert s == behind && word + head == word;
    } else {
      assert s[1..] == head[1..] + behind && s[0] == head[0] && head == [head[0]] + head[1..];
      if head[0] != ' ' && head[0] != '/' {
        HeadWalk(head[1..], behind, level, word + [head[0]]);
        assert (word + [head[0]]) + head[1..] == word + head;
      }
    }
  }

  lemma {:induction false} ValueTabs(n: nat, rest: string, level: nat, key: string)
    requires key != ""
    ensures SplitFrom(Tabs(n) + rest, level, key, "") == SplitFrom(rest, level + n, key, "")
    decreases n
  {
    var s := Tabs(n) + rest;
    if n == 0 {
      assert s == rest;
    } else {
      assert s[1..] == Tabs(n - 1) + rest && s[0] == TAB;
      ValueTabs(n - 1, rest, level + 1, key);
    }
  }

  /** A line begins with tabs. Up to its first colon stands the key, which holds no space
      and no slash and is not empty if there is a colon: any other line has a key error.
      Behind the colon stands the value, and the tabs directly behind it count for depth
      like those at the start. Without a colon all of it is the value. */
  lemma SplitExactly(n: nat, head: string, m: nat, rest: string)
    requires ':' !in head && (head == "" || head[0] != TAB) && (rest == "" || rest[0] != TAB)
    ensures SplitFrom(Tabs(n) + head, 0, "", "") == if GoodHead(head) then Fields(n, "", head) else BadKey
    ensures SplitFrom(Tabs(n) + head + ":" + Tabs(m) + rest, 0, "", "")
            == if head != "" && GoodHead(head) then Fields(n + m, head, Trim(rest)) else BadKey
  {
    hide SplitFrom, Trim;
    var behind := ":" + (Tabs(m) + rest);
    assert Tabs(n) + head + ":" + Tabs(m) + rest == Tabs(n) + (head + behind);
    SplitTabs(n, head, 0);
    SplitTabs(n, head + behind, 0);
    HeadAlone(head, n);
    KeyAndValue(head, m, rest, n);
  }

  lemma HeadAlone(head: string, level: nat)
    requires ':' !in head && (head == "" || head[0] != TAB)
    ensures SplitFrom(head, level, "", "") == if GoodHead(head) then Fields(level, "", head) else BadKey
  {
    assert head + "" == head && "" + head == head;
    HeadWalk(head, "", level, "");
    if GoodHead(head) { TrimSpace(head); }
  }

  lemma KeyAndValue(head: string, m: nat, rest: string, level: nat)
    requires ':' !in head && (head == "" || head[0] != TAB) && (rest == "" || rest[0] != TAB)
    ensures SplitFrom(head + (":" + (Tabs(m) + rest)), level, "", "")
            == if head != "" && GoodHead(head) then Fields(level + m, head, Trim(rest)) else BadKey
  {
    hide Trim;
    HeadWalk(head, ":" + (Tabs(m) + rest), level, "");
    assert "" + head == head;
    if GoodHead(head) { AtColon(Tabs(m) + rest, level, head); }
    hide SplitFrom;
    if head != "" {
      ValueTabs(m, rest, level, head);
      ValueRead(rest, level + m, head);
    }
  }

  lemma AtColon(behind: string, level: nat, word: string)
    ensures SplitFrom(":" + behind, level, "", word) == if word == "" then BadKey else SplitFrom(behind, level, word, "")
  {
    assert (":" + behind)[1..] == behind;
  }

  lemma ValueRead(rest: string, level: nat, key: string)
    requires key != "" && (rest == "" || rest[0] != TAB)
    ensures SplitFrom(rest, level, key, "") == Fields(level, key, Trim(rest))
  {
    if rest != "" {
      assert "" + [rest[0]] == [rest[0]] && [rest[0]] + rest[1..] == rest;
      SplitValue(rest[1..], level, key, [rest[0]]);
    }
  }

  /** Every line is one of those two. */
  lemma LineShape(line: string) returns (n: nat, head: string, m: nat, rest: string)
    ensures ':' !in head && (head == "" || head[0] != TAB) && (rest == "" || rest[0] != TAB)
    ensures line == if ':' in line then Tabs(n) + head + ":" + Tabs(m) + rest else Tabs(n) + head
  {
    var body, behind;
    n, body := LeadingTabs(line);
    head, m, rest := body, 0, "";
    if ':' in line {
      assert ':' in body by { assert line == Tabs(n) + body; }
      head, behind := FirstColon(body);
      m, rest := LeadingTabs(behind);
      assert line == Tabs(n) + (head + ":" + (Tabs(m) + rest));
    }
  }

  lemma {:induction false} LeadingTabs(s: string) returns (n: nat, rest: string)
    ensures s == Tabs(n) + rest && (rest == "" || rest[0] != TAB)
  {
    if s != "" && s[0] == TAB {
      n, rest := LeadingTabs(s[1..]);
      assert Tabs(n + 1) == [TAB] + Tabs(n);
      n := n + 1;
    } else {
      n, rest := 0, s;
      assert Tabs(0) + s == s;
    }
  }

  lemma {:induction false} FirstColon(s: string) returns (head: string, behind: string)
    requires ':' in s
    ensures s == head + ":" + behind && ':' !in head && (head != "" ==> head[0] == s[0])
  {
    if s[0] == ':' {
      head, behind := "", s[1..];
    } else {
      head, behind := FirstColon(s[1..]);
      head := [s[0]] + head;
    }
  }

  /** A key in braces is an attribute, if the brace is closed, with the key behind it. If it
      is not, it is the attribute and the key as well. */
  lemma AttrExactly(attr: string, key: string)
    requires '}' !in attr
    ensures AttrOf("{" + attr + "}" + key) == attr && KeyOf("{" + attr + "}" + key) == key
    ensures AttrOf("{" + attr) == attr && KeyOf("{" + attr) == "{" + attr
    ensures key == "" || key[0] != '{' ==> AttrOf(key) == "" && KeyOf(key) == key
  {
    var closed, open, b := "{" + attr + "}" + key, "{" + attr, |attr| + 1;
    assert forall k | 1 <= k < b :: closed[k] == attr[k - 1] && open[k] == attr[k - 1];
    assert closed[b] == '}' && Brace(closed, 1) == b && Brace(open, 1) == b;
    assert closed[1..b] == attr == open[1..b] && closed[b + 1..] == key;
  }
}
