/** The lines of a configuration file: what one line says, what the lines of an
    option tree are, and that reading those lines gives the options' entries. */
module ConfigLines {
  import opened Text

  datatype Option = Option(attr: string, key: string, value: string, options: seq<Option>)

  /** What a line says: its depth and the fields of an option. */
  datatype Entry = Entry(level: nat, attr: string, key: string, value: string)

  datatype Kind = Blank | Malformed | Line(entry: Entry)

  // ------------------------------------------------------------------
  // One line.

  const BACKSLASH := '\\'
  const TAB := '\t'

  /** A line without its comment: an unescaped '#' ends it, and an escaped one loses
      its backslash. */
  function Strip(rest: string, prev: char, line: string): string
    requires prev == BACKSLASH ==> line != ""
    decreases |rest|
  {
    if rest == "" then line
    else if rest[0] == '#' && prev != BACKSLASH then line
    else if rest[0] == '#' then Strip(rest[1..], '#', line[..|line| - 1] + "#")
    else Strip(rest[1..], rest[0], line + [rest[0]])
  }

  datatype LineParts = NoLine | BadKey | Fields(level: nat, key: string, value: string)

  /** The character loop that counts tabs and finds the colon. */
  function SplitFrom(rest: string, level: nat, key: string, word: string): (r: LineParts)
    ensures !r.NoLine?
    decreases |rest|
  {
    if rest == "" then Fields(level, key, Trim(word))
    else if rest[0] == TAB && word == "" then SplitFrom(rest[1..], level + 1, key, word)
    else if rest[0] == ' ' && key == "" then BadKey
    else if rest[0] == '/' && key == "" then BadKey
    else if rest[0] == ':' && key == "" && word == "" then BadKey
    else if rest[0] == ':' && word != "" && key == "" then SplitFrom(rest[1..], level, word, "")
    else SplitFrom(rest[1..], level, key, word + [rest[0]])
  }

  /** The first closing brace from position i on, or the end. */
  function Brace(key: string, i: nat): (b: nat)
    requires i <= |key|
    ensures i <= b <= |key| && (b < |key| ==> key[b] == '}') && forall k | i <= k < b :: key[k] != '}'
    decreases |key| - i
  {
    if i == |key| || key[i] == '}' then i else Brace(key, i + 1)
  }

  /** The attribute in braces before a key, and the key. */
  function AttrOf(key: string): string {
    if key != "" && key[0] == '{' then key[1..Brace(key, 1)] else ""
  }

  function KeyOf(key: string): string {
    if key != "" && key[0] == '{' && Brace(key, 1) < |key| then key[Brace(key, 1) + 1..] else key
  }

  function KindOf(pureLine: string): Kind {
    var line := Strip(pureLine, '\0', "");
    match (if line == "" then NoLine else SplitFrom(line, 0, "", ""))
      case NoLine => Blank
      case BadKey => Malformed
      case Fields(level, key, value) => Line(Entry(level, AttrOf(key), KeyOf(key), value))
  }

  method StripComment(pureLine: string) returns (line: string)
    ensures line == Strip(pureLine, '\0', "")
  {
    line := "";
    var prev, comment := '\0', false;
    assert pureLine[0..] == pureLine;
    for i := 0 to |pureLine|
      invariant prev == BACKSLASH ==> line != ""
      invariant (if comment then line else Strip(pureLine[i..], prev, line)) == Strip(pureLine, '\0', "")
    {
      var ch := pureLine[i];
      assert pureLine[i..][1..] == pureLine[i + 1..];
      if !comment {
        if ch == '#' && prev != BACKSLASH {
          comment := true;
        } else if ch == '#' && prev == BACKSLASH {
          line := line[..|line| - 1];
          line := line + [ch];
        } else {
          line := line + [ch];
        }
        prev := ch;
      }
    }
  }

  method SplitLine(line: string) returns (r: LineParts)
    ensures r == if line == "" then NoLine else SplitFrom(line, 0, "", "")
  {
    if |line| == 0 {
      return NoLine;
    }
    var level, key, word := 0, "", "";
    var i := 0;
    assert line[0..] == line;
    while i < |line|
      invariant 0 <= i <= |line| && SplitFrom(line[i..], level, key, word) == SplitFrom(line, 0, "", "")
      decreases |line| - i
    {
      assert line[i..][1..] == line[i + 1..];
      if line[i] == TAB && word == "" {
        level := level + 1;
        i := i + 1;
        continue;
      } else if line[i] == ' ' && key == "" {
        return BadKey;
      } else if line[i] == '/' && key == "" {
        return BadKey;
      } else if line[i] == ':' && key == "" && word == "" {
        return BadKey;
      } else if line[i] == ':' && word != "" {
        if key == "" {
          key := word;
          word := "";
          i := i + 1;
          continue;
        }
      }
      word := word + [line[i]];
      i := i + 1;
    }
    return Fields(level, key, Trim(word));
  }

  method AttrKey(text: string) returns (attr: string, key: string)
    ensures attr == AttrOf(text) && key == KeyOf(text)
  {
    attr, key := "", text;
    if |key| > 0 && key[0] == '{' {
      var i := 1;
      while i < |text|
        invariant 1 <= i <= |text| && key == text && attr == text[1..i] && Brace(text, 1) == Brace(text, i)
      {
        if text[i] == '}' {
          key := text[i + 1..];
          break;
        }
        attr := attr + [text[i]];
        i := i + 1;
      }
    }
  }

  // ------------------------------------------------------------------
  // The lines of options.

  /** Every '#' behind a backslash. */
  function Escaped(s: string): string {
    if s == "" then "" else (if s[0] == '#' then "\\#" else [s[0]]) + Escaped(s[1..])
  }

  function Tabs(n: nat): string {
    seq(n, _ => TAB)
  }

  function Head(o: Option): string {
    if o.attr == "" then o.key else "{" + o.attr + "}" + o.key
  }

  /** Options that a line can spell: names that the splitting takes for one, and a
      value that trimming leaves alone. */
  ghost predicate Spellable(o: Option) {
    var head := Head(o);
    && head != "" && head[0] != TAB && ' ' !in head && '/' !in head && ':' !in head
    && '}' !in o.attr && (o.attr == "" && o.key != "" ==> o.key[0] != '{')
    && Trimmed(o.value) && '\n' !in head && '\n' !in o.value
  }

  ghost predicate Legal(o: Option)
    decreases o, 1
  {
    Spellable(o) && AllLegal(o.options)
  }

  ghost predicate AllLegal(os: seq<Option>)
    decreases os, 0
  {
    os == [] || (Legal(os[0]) && AllLegal(os[1..]))
  }

  function Spelled(o: Option, level: nat): string {
    Escaped(Tabs(level) + Head(o) + ": " + o.value)
  }

  function Rendered(o: Option, level: nat): seq<string>
    decreases o, 1
  {
    [Spelled(o, level)] + RenderedAll(o.options, level + 1)
  }

  function RenderedAll(os: seq<Option>, level: nat): seq<string>
    decreases os, 0
  {
    if os == [] then [] else Rendered(os[0], level) + RenderedAll(os[1..], level)
  }

  /** The entries of options in the order of their lines. */
  function Listed(o: Option, level: nat): seq<Entry>
    decreases o, 1
  {
    [Entry(level, o.attr, o.key, o.value)] + ListedAll(o.options, level + 1)
  }

  function ListedAll(os: seq<Option>, level: nat): seq<Entry>
    decreases os, 0
  {
    if os == [] then [] else Listed(os[0], level) + ListedAll(os[1..], level)
  }

  lemma {:induction false} StripEscaped(s: string, prev: char, line: string)
    requires prev == BACKSLASH ==> line != ""
    ensures Strip(Escaped(s), prev, line) == line + s
    decreases |s|
  {
    if s == "" {
      assert line + "" == line;
    } else {
      var rest := Escaped(s[1..]);
      if s[0] == '#' {
        var e := Escaped(s);
        assert e == "\\#" + rest && e[0] == BACKSLASH && e[1..] == "#" + rest && ("#" + rest)[1..] == rest;
        var pushed := line + [BACKSLASH];
        assert pushed[..|pushed| - 1] == line;
        StripEscaped(s[1..], '#', line + "#");
      } else {
        assert Escaped(s)[1..] == rest;
        StripEscaped(s[1..], s[0], line + [s[0]]);
      }
      assert line + s == (line + [s[0]]) + s[1..];
    }
  }

  lemma {:induction false} SplitTabs(n: nat, rest: string, level: nat)
    ensures SplitFrom(Tabs(n) + rest, level, "", "") == SplitFrom(rest, level + n, "", "")
    decreases n
  {
    var s := Tabs(n) + rest;
    if n == 0 {
      assert s == rest;
    } else {
      assert s[1..] == Tabs(n - 1) + rest && s[0] == TAB;
      SplitTabs(n - 1, rest, level + 1);
    }
  }

  lemma {:induction false} SplitHead(head: string, rest: string, level: nat, word: string)
    requires word == "" ==> head != "" && head[0] != TAB
    requires ' ' !in head && '/' !in head && ':' !in head
    ensures SplitFrom(head + ":" + rest, level, "", word) == SplitFrom(rest, level, word + head, "")
    decreases |head|
  {
    var s := head + ":" + rest;
    if head == "" {
      assert s[1..] == rest && word + head == word;
    } else {
      assert s[1..] == head[1..] + ":" + rest && s[0] == head[0];
      SplitHead(head[1..], rest, level, word + [head[0]]);
      assert (word + [head[0]]) + head[1..] == word + head;
    }
  }

  lemma {:induction false} SplitValue(rest: string, level: nat, key: string, word: string)
    requires key != "" && word != ""
    ensures SplitFrom(rest, level, key, word) == Fields(level, key, Trim(word + rest))
    decreases |rest|
  {
    if rest == "" {
      assert word + rest == word;
    } else {
      SplitValue(rest[1..], level, key, word + [rest[0]]);
      assert (word + [rest[0]]) + rest[1..] == word + rest;
    }
  }

  lemma TextSplits(head: string, value: string, level: nat)
    requires head != "" && head[0] != TAB && ' ' !in head && '/' !in head && ':' !in head && Trimmed(value)
    ensures SplitFrom(Tabs(level) + head + ": " + value, 0, "", "") == Fields(level, head, value)
  {
    var rest := " " + value;
    assert Tabs(level) + head + ": " + value == Tabs(level) + (head + ":" + rest);
    SplitTabs(level, head + ":" + rest, 0);
    SplitHead(head, rest, level, "");
    assert "" + head == head;
    AfterColon(value, level, head);
  }

  lemma AfterColon(value: string, level: nat, key: string)
    requires key != "" && Trimmed(value)
    ensures SplitFrom(" " + value, level, key, "") == Fields(level, key, value)
  {
    assert (" " + value)[1..] == value && "" + [' '] == " ";
    SplitValue(value, level, key, " ");
    TrimSpace(value);
  }

  /** A spelled option says what the option is, at its level. */
  lemma SpelledSays(o: Option, level: nat)
    requires Spellable(o)
    ensures KindOf(Spelled(o, level)) == Line(Entry(level, o.attr, o.key, o.value))
  {
    var text := Tabs(level) + Head(o) + ": " + o.value;
    StripEscaped(text, '\0', "");
    assert "" + text == text && text != "";
    TextSplits(Head(o), o.value, level);
    HeadFields(o);
  }

  lemma HeadFields(o: Option)
    requires Spellable(o)
    ensures AttrOf(Head(o)) == o.attr && KeyOf(Head(o)) == o.key
  {
    if o.attr != "" {
      var head := Head(o);
      var b := |o.attr| + 1;
      assert head[b] == '}' && head[1..b] == o.attr && head[b + 1..] == o.key;
      assert forall k | 1 <= k < b :: head[k] == o.attr[k - 1];
      assert Brace(head, 1) == b;
    }
  }
}
