/** What loading guarantees: it inverts the rendering of any legal option tree, the
    tree is the only one that the lines describe, and the faults it reports are exactly
    the first faulty lines. */
module ConfigurationLaws {
  import opened ConfigLines
  import opened Configurations

  // ------------------------------------------------------------------
  // A rendered tree is loaded without a fault.

  /** Entries that never lie more than one level below the entry before, where `level`
      is that of the one before the first. */
  predicate Steady(es: seq<Entry>, level: int) {
    es == [] || (es[0].level <= level + 1 && Steady(es[1..], es[0].level))
  }

  /** Lines that all split are loaded exactly when their entries are steady. */
  lemma {:induction false} SteadyLoads(lines: seq<string>, n: nat, level: int)
    requires AllSplit(lines)
    ensures FirstFault(lines, n, level) == Loaded <==> Steady(Entries(lines), level)
  {
    if lines != [] {
      var rest := lines[1..];
      assert Splits(lines, 0);
      forall i | 0 <= i < |rest| ensures Splits(rest, i) {
        assert Splits(lines, i + 1) && rest[i] == lines[i + 1];
      }
      match KindOf(lines[0])
      case Line(e) =>
        SteadyLoads(rest, n + 1, e.level);
        assert Entries(lines) == [e] + Entries(rest) && ([e] + Entries(rest))[1..] == Entries(rest);
      case Blank =>
        SteadyLoads(rest, n + 1, level);
        assert Entries(lines) == [] + Entries(rest) == Entries(rest);
    }
  }

  lemma ListedStep(os: seq<Option>, rest: seq<Entry>, level: nat)
    requires os != []
    ensures var s := ListedAll(os, level) + rest;
            s == [Entry(level, os[0].attr, os[0].key, os[0].value)]
                 + (ListedAll(os[0].options, level + 1) + (ListedAll(os[1..], level) + rest))
  {
  }

  /** The entries of a tree are steady wherever they start. */
  lemma {:induction false} ListedSteady(os: seq<Option>, rest: seq<Entry>, level: nat)
    requires Steady(rest, level - 1)
    ensures Steady(ListedAll(os, level) + rest, level - 1)
    decreases os
  {
    if os == [] {
      assert [] + rest == rest;
    } else {
      var after := ListedAll(os[1..], level) + rest;
      ListedSteady(os[1..], rest, level);
      ListedSteady(os[0].options, after, level + 1);
      ListedStep(os, rest, level);
      var s := ListedAll(os, level) + rest;
      assert s[1..] == ListedAll(os[0].options, level + 1) + after;
    }
  }

  lemma RenderedStep(os: seq<Option>, level: nat)
    requires os != []
    ensures RenderedAll(os, level)
            == [Spelled(os[0], level)] + (RenderedAll(os[0].options, level + 1) + RenderedAll(os[1..], level))
  {
  }

  /** Rendered lines say the entries of their options. */
  lemma {:induction false} RenderedListed(os: seq<Option>, level: nat)
    requires AllLegal(os)
    ensures Entries(RenderedAll(os, level)) == ListedAll(os, level)
    decreases os
  {
    if os != [] {
      var inner, after := RenderedAll(os[0].options, level + 1), RenderedAll(os[1..], level);
      assert Legal(os[0]);
      SpelledStep(os[0], level, inner + after);
      RenderedListed(os[0].options, level + 1);
      RenderedListed(os[1..], level);
      EntriesConcat(inner, after);
      RenderedStep(os, level);
    }
  }

  /** Rendered lines all split. */
  lemma {:induction false} RenderedSplits(os: seq<Option>, level: nat)
    requires AllLegal(os)
    ensures AllSplit(RenderedAll(os, level))
    decreases os
  {
    if os != [] {
      var inner, after := RenderedAll(os[0].options, level + 1), RenderedAll(os[1..], level);
      assert Legal(os[0]);
      SpelledStep(os[0], level, []);
      RenderedSplits(os[0].options, level + 1);
      RenderedSplits(os[1..], level);
      SplitsConcat(inner, after);
      SplitsConcat([Spelled(os[0], level)], inner + after);
      RenderedStep(os, level);
    }
  }

  /** The line of a legal option says the option's entry. */
  lemma SpelledStep(o: Option, level: nat, rest: seq<string>)
    requires Legal(o)
    ensures Entries([Spelled(o, level)] + rest) == [Entry(level, o.attr, o.key, o.value)] + Entries(rest)
    ensures AllSplit([Spelled(o, level)])
  {
    SpelledSays(o, level);
    assert ([Spelled(o, level)] + rest)[1..] == rest;
  }

  lemma SplitsConcat(a: seq<string>, b: seq<string>)
    requires AllSplit(a) && AllSplit(b)
    ensures AllSplit(a + b)
  {
    forall i | 0 <= i < |a + b| ensures Splits(a + b, i) {
      assert if i < |a| then Splits(a, i) else Splits(b, i - |a|);
    }
  }

  // ------------------------------------------------------------------
  // Entries describe one tree.

  /** What can follow the options of a level: nothing, or a line of a higher one. */
  predicate Closes(rest: seq<Entry>, level: nat) {
    rest == [] || rest[0].level < level
  }

  lemma FirstListed(os: seq<Option>, level: nat)
    requires os != []
    ensures ListedAll(os, level) != [] && ListedAll(os, level)[0].level == level
  {
    assert Listed(os[0], level)[0].level == level;
  }

  lemma ClosesBelow(os: seq<Option>, rest: seq<Entry>, level: nat)
    requires Closes(rest, level)
    ensures Closes(ListedAll(os, level) + rest, level + 1)
  {
    if os == [] {
      assert [] + rest == rest;
    } else {
      FirstListed(os, level);
    }
  }

  lemma {:induction false} OneReading(a: seq<Option>, x: seq<Entry>, b: seq<Option>, y: seq<Entry>, level: nat)
    requires Closes(x, level) && Closes(y, level)
    requires ListedAll(a, level) + x == ListedAll(b, level) + y
    ensures a == b && x == y
    decreases a
  {
    if a == [] || b == [] {
      if a != [] { FirstListed(a, level); }
      if b != [] { FirstListed(b, level); }
      assert [] + x == x && [] + y == y;
    } else {
      var x', y' := ListedAll(a[1..], level) + x, ListedAll(b[1..], level) + y;
      ClosesBelow(a[1..], x, level);
      ClosesBelow(b[1..], y, level);
      ListedStep(a, x, level);
      ListedStep(b, y, level);
      SameFront(Entry(level, a[0].attr, a[0].key, a[0].value), ListedAll(a[0].options, level + 1) + x',
                Entry(level, b[0].attr, b[0].key, b[0].value), ListedAll(b[0].options, level + 1) + y');
      OneReading(a[0].options, x', b[0].options, y', level + 1);
      OneReading(a[1..], x, b[1..], y, level);
      assert a == [a[0]] + a[1..] && b == [b[0]] + b[1..];
    }
  }

  lemma SameFront(d: Entry, s: seq<Entry>, e: Entry, t: seq<Entry>)
    requires [d] + s == [e] + t
    ensures d == e && s == t
  {
    assert ([d] + s)[0] == d && ([e] + t)[0] == e && ([d] + s)[1..] == s && ([e] + t)[1..] == t;
  }

  /** No two trees list the same entries. */
  lemma ListingUnique(a: seq<Option>, b: seq<Option>)
    requires ListedAll(a, 0) == ListedAll(b, 0)
    ensures a == b
  {
    OneReading(a, [], b, [], 0);
  }

  /** Loading the rendering of legal options gives them back, and no other tree lists
      what that file says. */
  lemma LoadInvertsRendering(os: seq<Option>)
    requires AllLegal(os)
    ensures FirstFault(RenderedAll(os, 0), 0, -1) == Loaded
    ensures forall loaded | ListedAll(loaded, 0) == Entries(RenderedAll(os, 0)) :: loaded == os
  {
    RenderedListed(os, 0);
    ListedSteady(os, [], 0);
    assert ListedAll(os, 0) + [] == ListedAll(os, 0);
    RenderedSplits(os, 0);
    SteadyLoads(RenderedAll(os, 0), 0, -1);
    forall loaded | ListedAll(loaded, 0) == Entries(RenderedAll(os, 0)) ensures loaded == os {
      ListingUnique(loaded, os);
    }
  }

  method LoadRendered(os: seq<Option>) returns (c: Configuration, r: Outcome)
    requires AllLegal(os)
    ensures fresh(c) && r == Loaded && c.root == os
  {
    LoadInvertsRendering(os);
    c := new Configuration(RenderedAll(os, 0));
    r := c.Load();
    assert c.root[0..] == c.root;
  }

  // ------------------------------------------------------------------
  // The faults.

  /** The level of the last line before line i that says something, -1 before the first. */
  function LevelBefore(lines: seq<string>, i: nat): (level: int)
    requires i <= |lines|
    ensures level >= -1
  {
    if i == 0 then -1
    else match KindOf(lines[i - 1])
      case Line(e) => e.level
      case _ => LevelBefore(lines, i - 1)
  }

  predicate Splits(lines: seq<string>, i: nat)
    requires i < |lines|
  {
    !KindOf(lines[i]).Malformed?
  }

  predicate AllSplit(lines: seq<string>) {
    forall i | 0 <= i < |lines| :: Splits(lines, i)
  }

  predicate TooDeep(lines: seq<string>, i: nat)
    requires i < |lines|
  {
    var kind := KindOf(lines[i]);
    kind.Line? && kind.entry.level > LevelBefore(lines, i) + 1
  }

  predicate Faulty(lines: seq<string>, i: nat)
    requires i < |lines|
  {
    !Splits(lines, i) || TooDeep(lines, i)
  }

  predicate SoundTo(lines: seq<string>, n: nat)
    requires n <= |lines|
  {
    forall j | 0 <= j < n :: !Faulty(lines, j)
  }

  /** The verdict names the first faulty line and its fault, or there is none. */
  predicate Explains(r: Outcome, lines: seq<string>) {
    match r
    case Loaded => SoundTo(lines, |lines|)
    case KeyError(k) => 1 <= k <= |lines| && SoundTo(lines, k - 1) && !Splits(lines, k - 1)
    case IndentationError(k) => 1 <= k <= |lines| && SoundTo(lines, k - 1) && TooDeep(lines, k - 1)
  }

  lemma {:induction false} FaultFrom(lines: seq<string>, i: nat)
    requires i <= |lines| && SoundTo(lines, i)
    ensures Explains(FirstFault(lines[i..], i, LevelBefore(lines, i)), lines)
    decreases |lines| - i
  {
    if i < |lines| {
      NextFault(lines, i, LevelBefore(lines, i));
      if !Faulty(lines, i) {
        FaultFrom(lines, i + 1);
      }
    }
  }

  lemma OneExplanation(r: Outcome, s: Outcome, lines: seq<string>)
    requires Explains(r, lines) && Explains(s, lines)
    ensures r == s
  {
    var m, n := if r.Loaded? then |lines| else r.lineNo - 1, if s.Loaded? then |lines| else s.lineNo - 1;
    assert m < |lines| ==> Faulty(lines, m);
    assert n < |lines| ==> Faulty(lines, n);
  }

  /** Loading succeeds exactly on files without a faulty line, and an exception comes
      exactly from the first faulty line, with its fault. */
  lemma FaultsExact(lines: seq<string>, r: Outcome)
    ensures FirstFault(lines, 0, -1) == r <==> Explains(r, lines)
  {
    FaultFrom(lines, 0);
    assert lines[0..] == lines;
    if Explains(r, lines) {
      OneExplanation(r, FirstFault(lines, 0, -1), lines);
    }
  }

  /** When every line splits, the indentation error arises exactly when some line is
      more than one level below the one before it, the first at -1. */
  lemma IndentationExact(lines: seq<string>)
    requires AllSplit(lines)
    ensures FirstFault(lines, 0, -1).IndentationError? <==> exists i | 0 <= i < |lines| :: TooDeep(lines, i)
  {
    FaultsExact(lines, FirstFault(lines, 0, -1));
    DeepLine(FirstFault(lines, 0, -1), lines);
  }

  lemma DeepLine(r: Outcome, lines: seq<string>)
    requires Explains(r, lines) && AllSplit(lines)
    ensures r.IndentationError? <==> exists i | 0 <= i < |lines| :: TooDeep(lines, i)
  {
    if exists i | 0 <= i < |lines| :: TooDeep(lines, i) {
      var i :| 0 <= i < |lines| && TooDeep(lines, i);
      assert Faulty(lines, i);
    }
  }
}
