/** The string utilities that the parsers share: trimming, splitting at a
    delimiter and upper case. */
module Text {

  function TrimRight(s: string): (r: string)
    ensures |r| <= |s| && r == s[..|r|] && (r != "" ==> r[|r| - 1] != ' ')
  {
    if s == "" then ""
    else if s[|s| - 1] == ' ' then TrimRight(s[..|s| - 1])
    else s
  }

  function Trim(s: string): (r: string)
    ensures r != "" ==> r[0] != ' ' && r[|r| - 1] != ' '
  {
    if s == "" then ""
    else if s[0] == ' ' then Trim(s[1..])
    else TrimRight(s)
  }

  lemma {:induction false} RightCut(s: string)
    ensures forall k | |TrimRight(s)| <= k < |s| :: s[k] == ' '
  {
    if s != "" && s[|s| - 1] == ' ' {
      RightCut(s[..|s| - 1]);
    }
  }

  /** Trimming cuts off nothing but spaces at both ends. */
  lemma {:induction false} TrimCuts(s: string) returns (i: nat, j: nat)
    ensures i <= j <= |s| && Trim(s) == s[i..j]
    ensures forall k | 0 <= k < i || j <= k < |s| :: s[k] == ' '
  {
    if s == "" {
      i, j := 0, 0;
    } else if s[0] == ' ' {
      i, j := TrimCuts(s[1..]);
      i, j := i + 1, j + 1;
    } else {
      i, j := 0, |TrimRight(s)|;
      RightCut(s);
    }
  }

  /** Text that trimming leaves alone. */
  predicate Trimmed(s: string) {
    s == "" || (s[0] != ' ' && s[|s| - 1] != ' ')
  }

  lemma TrimSpace(s: string)
    requires Trimmed(s)
    ensures Trim(s) == s && Trim(" " + s) == s && Trimmed(Trim(s))
  {
    assert (" " + s)[1..] == s;
  }

  /** The parts of a string between the places of a delimiter; one more than there
      are such places. */
  function Parts(s: string, delim: char): (r: seq<string>)
    ensures |r| > 0
  {
    if s == "" then [""]
    else
      var rest := Parts(s[1..], delim);
      if s[0] == delim then [""] + rest else [[s[0]] + rest[0]] + rest[1..]
  }

  /** The parts joined again. */
  function Joined(parts: seq<string>, delim: char): string
    requires |parts| > 0
  {
    if |parts| == 1 then parts[0] else parts[0] + [delim] + Joined(parts[1..], delim)
  }

  lemma {:induction false} PartsJoin(s: string, delim: char)
    ensures Joined(Parts(s, delim), delim) == s
    ensures forall p | p in Parts(s, delim) :: delim !in p
  {
    if s != "" {
      PartsJoin(s[1..], delim);
      var rest := Parts(s[1..], delim);
      var parts := Parts(s, delim);
      if s[0] == delim {
        assert parts[1..] == rest;
      } else {
        assert parts[1..] == rest[1..];
        if |rest| > 1 {
          assert parts[0] + [delim] + Joined(rest[1..], delim) == [s[0]] + (rest[0] + [delim] + Joined(rest[1..], delim));
        }
      }
    }
  }

  /** The first part ends at the first delimiter. */
  lemma {:induction false} FirstPart(a: string, b: string, delim: char)
    requires delim !in a
    ensures Parts(a, delim) == [a]
    ensures Parts(a + [delim] + b, delim) == [a] + Parts(b, delim)
  {
    var s := a + [delim] + b;
    if a == "" {
      assert s[1..] == b;
    } else {
      FirstPart(a[1..], b, delim);
      assert s[1..] == a[1..] + [delim] + b;
      assert a == [a[0]] + a[1..];
    }
  }

  /** Parts whose first one began earlier, with tmp. */
  ghost function Begun(tmp: string, parts: seq<string>): (r: seq<string>)
    requires |parts| > 0
    ensures |r| == |parts|
  {
    [tmp + parts[0]] + parts[1..]
  }

  lemma SplitStep(s: string, delim: char, tmp: string)
    requires s != ""
    ensures s[0] == delim ==> Begun(tmp, Parts(s, delim)) == [tmp] + Begun("", Parts(s[1..], delim))
    ensures s[0] != delim ==> Begun(tmp, Parts(s, delim)) == Begun(tmp + [s[0]], Parts(s[1..], delim))
  {
    var rest := Parts(s[1..], delim);
    assert "" + rest[0] == rest[0] && tmp + "" == tmp;
    assert tmp + ([s[0]] + rest[0]) == (tmp + [s[0]]) + rest[0];
    if s[0] == delim { assert Parts(s, delim)[1..] == rest; }
  }

  lemma NoParts(delim: char)
    ensures Parts("", delim) == [""]
  {}

  method Split(s: string, delim: char) returns (splits: seq<string>)
    ensures splits == Parts(s, delim)
  {
    hide Parts;
    splits := [];
    var tmp := "";
    assert s[0..] == s && "" + Parts(s, delim)[0] == Parts(s, delim)[0];
    for i := 0 to |s|
      invariant splits + Begun(tmp, Parts(s[i..], delim)) == Parts(s, delim)
    {
      SplitStep(s[i..], delim, tmp);
      assert s[i..][1..] == s[i + 1..] && s[i..][0] == s[i];
      if s[i] == delim {
        splits := splits + [tmp];
        tmp := "";
      } else {
        tmp := tmp + [s[i]];
      }
    }
    NoParts(delim);
    assert s[|s|..] == "" && tmp + "" == tmp;
    splits := splits + [tmp];
  }

  function Upper(c: char): char {
    if 'a' <= c <= 'z' then c - 'a' + 'A' else c
  }

  const SMALL_LETTERS := "abcdefghijklmnopqrstuvwxyz"
  const CAPITALS := "ABCDEFGHIJKLMNOPQRSTUVWXYZ"

  /** The 26 letters have their capitals, and everything else is its own. */
  lemma UpperLetters(c: char)
    ensures forall i | 0 <= i < 26 :: Upper(SMALL_LETTERS[i]) == CAPITALS[i]
    ensures c !in SMALL_LETTERS ==> Upper(c) == c
  {
    assert forall i | 0 <= i < 26 :: SMALL_LETTERS[i] as int == 'a' as int + i && CAPITALS[i] as int == 'A' as int + i;
    if 'a' <= c <= 'z' { assert SMALL_LETTERS[c as int - 'a' as int] == c; }
  }

  function UpperCase(s: string): (r: string)
    ensures |r| == |s| && forall i | 0 <= i < |s| :: r[i] == Upper(s[i])
  {
    seq(|s|, i requires 0 <= i < |s| => Upper(s[i]))
  }

  method ToUpper(s: string) returns (result: string)
    ensures result == UpperCase(s)
  {
    result := "";
    for i := 0 to |s|
      invariant |result| == i && forall k | 0 <= k < i :: result[k] == Upper(s[k])
    {
      result := result + [Upper(s[i])];
    }
  }
}
