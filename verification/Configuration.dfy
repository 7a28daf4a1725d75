/** The indentation-driven loader of configuration files: which files it accepts,
    where it throws, and the tree it builds. */
module Configurations {
  import opened ConfigLines

  /** How loading ends; an exception carries the number of its line. */
  datatype Outcome = Loaded | KeyError(lineNo: nat) | IndentationError(lineNo: nat)

  /** The first line that does not split, or that lies more than one level below the
      line before it, blank lines aside. The lines are numbered after n, and `level`
      is that of the line before. */
  function FirstFault(lines: seq<string>, n: nat, level: int): Outcome
    decreases |lines|
  {
    if lines == [] then Loaded
    else match KindOf(lines[0])
      case Blank => FirstFault(lines[1..], n + 1, level)
      case Malformed => KeyError(n + 1)
      case Line(e) => if e.level > level + 1 then IndentationError(n + 1) else FirstFault(lines[1..], n + 1, e.level)
  }

  /** What the lines say. */
  function Entries(lines: seq<string>): seq<Entry> {
    if lines == [] then []
    else (match KindOf(lines[0]) case Line(e) => [e] case _ => []) + Entries(lines[1..])
  }

  lemma {:induction false} EntriesConcat(a: seq<string>, b: seq<string>)
    ensures Entries(a + b) == Entries(a) + Entries(b)
  {
    if a == [] {
      assert a + b == b;
    } else {
      assert (a + b)[1..] == a[1..] + b;
      EntriesConcat(a[1..], b);
    }
  }

  lemma EntriesJoin(lines: seq<string>, a: nat, b: nat, c: nat)
    requires a <= b <= c <= |lines|
    ensures Entries(lines[a..c]) == Entries(lines[a..b]) + Entries(lines[b..c])
  {
    assert lines[a..c] == lines[a..b] + lines[b..c];
    EntriesConcat(lines[a..b], lines[b..c]);
  }

  lemma OneEntry(lines: seq<string>, pos: nat)
    requires pos < |lines|
    ensures Entries(lines[pos..pos + 1]) == match KindOf(lines[pos]) case Line(e) => [e] case _ => []
  {
    var s := lines[pos..pos + 1];
    assert s[0] == lines[pos] && Entries(s[1..]) == [];
  }

  /** A loop at `parentLevel` that began at line `start` stands at line pos with these
      options, after a line of level `last`. */
  ghost predicate Reading(lines: seq<string>, start: nat, pos: nat, parentLevel: int, options: seq<Option>, last: int) {
    && start <= pos <= |lines| && -1 <= parentLevel <= last
    && ListedAll(options, parentLevel + 1) == Entries(lines[start..pos])
    && FirstFault(lines[start..], start, parentLevel) == FirstFault(lines[pos..], pos, last)
  }

  lemma ReadNothing(lines: seq<string>, start: nat, parentLevel: int)
    requires start <= |lines| && parentLevel >= -1
    ensures Reading(lines, start, start, parentLevel, [], parentLevel)
  {
    assert lines[start..start] == [];
  }

  /** The fault at the next line, if it has one. */
  lemma NextFault(lines: seq<string>, pos: nat, level: int)
    requires pos < |lines|
    ensures FirstFault(lines[pos..], pos, level)
            == match KindOf(lines[pos])
               case Blank => FirstFault(lines[pos + 1..], pos + 1, level)
               case Malformed => KeyError(pos + 1)
               case Line(e) => if e.level > level + 1 then IndentationError(pos + 1)
                               else FirstFault(lines[pos + 1..], pos + 1, e.level)
  {
    assert lines[pos..][1..] == lines[pos + 1..];
  }

  lemma ReadBlank(lines: seq<string>, start: nat, pos: nat, parentLevel: int, options: seq<Option>, last: int)
    requires Reading(lines, start, pos, parentLevel, options, last) && pos < |lines| && KindOf(lines[pos]).Blank?
    ensures Reading(lines, start, pos + 1, parentLevel, options, last)
  {
    NextFault(lines, pos, last);
    EntriesJoin(lines, start, pos, pos + 1);
    OneEntry(lines, pos);
  }

  /** An option and its children take the place of their lines. */
  lemma ReadOption(lines: seq<string>, start: nat, pos: nat, parentLevel: int, options: seq<Option>, last: int,
                   end: nat, o: Option, deepest: int)
    requires Reading(lines, start, pos, parentLevel, options, last) && pos < |lines|
    requires KindOf(lines[pos]) == Line(Entry(parentLevel + 1, o.attr, o.key, o.value))
    requires Reading(lines, pos + 1, end, parentLevel + 1, o.options, deepest)
    ensures pos < end <= |lines| && Reading(lines, start, end, parentLevel, options + [o], deepest)
  {
    NextFault(lines, pos, last);
    EntriesJoin(lines, start, pos, end);
    EntriesJoin(lines, pos, pos + 1, end);
    OneEntry(lines, pos);
    ListedAppend(options, o, parentLevel + 1);
  }

  /** What the next line means for the whole part that the loop reads. */
  lemma ReadNext(lines: seq<string>, start: nat, pos: nat, parentLevel: int, options: seq<Option>, last: int)
    requires Reading(lines, start, pos, parentLevel, options, last) && pos < |lines|
    ensures start <= pos && -1 <= parentLevel <= last
    ensures ListedAll(options, parentLevel + 1) <= Entries(lines[start..])
    ensures FirstFault(lines[start..], start, parentLevel)
            == match KindOf(lines[pos])
               case Blank => FirstFault(lines[pos + 1..], pos + 1, last)
               case Malformed => KeyError(pos + 1)
               case Line(e) => if e.level > last + 1 then IndentationError(pos + 1)
                               else FirstFault(lines[pos + 1..], pos + 1, e.level)
  {
    hide KindOf, FirstFault;
    NextFault(lines, pos, last);
    EntriesJoin(lines, start, pos, |lines|);
    assert lines[start..|lines|] == lines[start..];
  }

  class Configuration {
    const lines: seq<string>
    var position: nat
    var root: seq<Option>

    constructor (lines: seq<string>)
      ensures this.lines == lines && position == 0 && root == []
    {
      this.lines := lines;
      position, root := 0, [];
    }

    /** The stream stands at its end or at a line that a loop at the given level gives
        back. */
    ghost predicate Above(level: int)
      reads this
    {
      position < |lines| ==> KindOf(lines[position]).Line? && KindOf(lines[position]).entry.level <= level
    }

    /** Reads the options one level below `parentLevel` and all below them, and puts
        the stream back before the first line that is not theirs. `last` is the level
        of the last line read. */
    method LoadLevel(parentLevel: int, lineNo: nat)
      returns (r: Outcome, options: seq<Option>, lineNo': nat, ghost last: int)
      requires parentLevel >= -1 && lineNo == position <= |lines|
      modifies this`position
      ensures r.Loaded? ==> lineNo' == position && Above(parentLevel)
                            && Reading(lines, old(position), position, parentLevel, options, last)
      ensures !r.Loaded? ==> r == FirstFault(lines[old(position)..], old(position), parentLevel)
                             && ListedAll(options, parentLevel + 1) <= Entries(lines[old(position)..])
      decreases |lines| - position
    {
      hide Reading, FirstFault, Entries, ListedAll, Strip, SplitFrom, AttrOf, KeyOf;
      options, lineNo', last := [], lineNo, parentLevel;
      ghost var start := position;
      var pos := position;
      ReadNothing(lines, start, parentLevel);
      while position < |lines|
        invariant position == pos == lineNo' && Reading(lines, start, pos, parentLevel, options, last)
        invariant last == parentLevel || Above(parentLevel + 1)
        decreases |lines| - position
      {
        ReadNext(lines, start, pos, parentLevel, options, last);
        var pureLine := lines[position];
        position := position + 1;
        lineNo' := lineNo' + 1;
        var line := StripComment(pureLine);
        var split := SplitLine(line);
        if split.BadKey? {
          return KeyError(lineNo'), options, lineNo', last;
        }
        if split.NoLine? {
          ReadBlank(lines, start, pos, parentLevel, options, last);
        } else if split.level == parentLevel + 1 {
          var attr, key := AttrKey(split.key);
          var result, children, n, deepest := LoadLevel(split.level, lineNo');
          lineNo' := n;
          if !result.Loaded? {
            return result, options, lineNo', last;
          }
          var o := Option(attr, key, split.value, children);
          ReadOption(lines, start, pos, parentLevel, options, last, position, o, deepest);
          options := options + [o];
          last := deepest;
        } else if split.level <= parentLevel {
          position := pos;
          lineNo' := lineNo' - 1;
          return Loaded, options, lineNo', last;
        } else {
          return IndentationError(lineNo'), options, lineNo', last;
        }
        pos := position;
      }
      r := Loaded;
    }

    /** Loads the whole file under the root. It throws at the first faulty line and
        otherwise adds options that list exactly what the lines say. */
    method Load() returns (r: Outcome)
      requires position == 0
      modifies this
      ensures r == FirstFault(lines, 0, -1)
      ensures old(root) <= root
      ensures r.Loaded? ==> ListedAll(root[|old(root)|..], 0) == Entries(lines)
      ensures !r.Loaded? ==> ListedAll(root[|old(root)|..], 0) <= Entries(lines)
    {
      assert lines[0..] == lines && lines[|lines|..] == [] && lines[0..|lines|] == lines;
      var result, options, _, last := LoadLevel(-1, 0);
      r := result;
      ghost var before := root;
      root := root + options;
      assert root[|before|..] == options;
    }
  }

  lemma {:induction false} ListedAppend(os: seq<Option>, o: Option, level: nat)
    ensures ListedAll(os + [o], level) == ListedAll(os, level) + Listed(o, level)
    decreases |os|
  {
    hide Listed;
    if os == [] {
      assert [] + [o] == [o] && [o][1..] == [] && ListedAll([], level) == [];
      assert ListedAll([o], level) == Listed(o, level) + ListedAll([o][1..], level);
    } else {
      assert (os + [o])[1..] == os[1..] + [o] && (os + [o])[0] == os[0];
      ListedAppend(os[1..], o, level);
    }
  }
}
