/** What the compiler's choices mean, apart from the plans they lead to: which comparison a
    cursor makes, which conjunct opens a level, and which index a predicate is looked up in. */
module WhereLaws {
  import opened Predicates
  import opened Plans
  import opened WhereCompilers

  /** Each operator's cursor compares as the operator says; any other operator has the
      cursor that compares nothing. */
  lemma CursorNames(op: string, x: int, y: int)
    ensures op in {"=", "==", "IS"} ==> (KeyMatches(CursorName(op), x, y) <==> x == y)
    ensures op == "<>" ==> (KeyMatches(CursorName(op), x, y) <==> x != y)
    ensures op == "<" ==> (KeyMatches(CursorName(op), x, y) <==> x < y)
    ensures op == "<=" ==> (KeyMatches(CursorName(op), x, y) <==> x <= y)
    ensures op == ">" ==> (KeyMatches(CursorName(op), x, y) <==> x > y)
    ensures op == ">=" ==> (KeyMatches(CursorName(op), x, y) <==> x >= y)
    ensures CursorName(op) == Equal <==> op in {"=", "==", "IS"}
    ensures CursorName(op) == All <==> op !in {"=", "==", "IS", "<>", "<", "<=", ">", ">="}
    ensures KeyMatches(All, x, y)
  {}

  /** The comparisons mean what they say, and a BETWEEN is the two comparisons that it is
      expanded to. */
  lemma ComparisonsMean(w: World, x: Term, y: Term, z: Term, row: Row)
    ensures var a, b := TermValue(w, x, row), TermValue(w, y, row);
            && (forall op | op == "=" || op == "==" || op == "IS" :: Eval(w, Compare(op, x, y), row) <==> a == b)
            && (Eval(w, Compare("<>", x, y), row) <==> a != b)
            && (Eval(w, Compare("<", x, y), row) <==> a < b) && (Eval(w, Compare("<=", x, y), row) <==> a <= b)
            && (Eval(w, Compare(">", x, y), row) <==> a > b) && (Eval(w, Compare(">=", x, y), row) <==> a >= b)
    ensures Eval(w, Between(x, y, z), row) <==> Eval(w, And(Compare(">=", x, y), Compare("<=", x, z)), row)
  {}

  lemma {:induction false} PartFound(s: string, part: string) returns (before: string, after: string)
    requires Contains(s, part)
    ensures s == before + part + after
  {
    if s[..|part|] == part {
      before, after := "", s[|part|..];
    } else {
      before, after := PartFound(s[1..], part);
      before := [s[0]] + before;
    }
  }

  lemma {:induction false} PartContained(before: string, part: string, after: string)
    ensures Contains(before + part + after, part)
    decreases |before|
  {
    var s := before + part + after;
    if before == "" {
      assert s[..|part|] == part;
    } else {
      PartContained(before[1..], part, after);
      assert s[1..] == before[1..] + part + after;
    }
  }

  /** One string is somewhere in another. */
  lemma ContainsParts(s: string, part: string)
    ensures Contains(s, part) <==> exists before, after :: s == before + part + after
  {
    hide Contains;
    if Contains(s, part) {
      var before, after := PartFound(s, part);
    }
    if before, after :| s == before + part + after {
      PartContained(before, part, after);
    }
  }

  /** The types whose keys are hashes are those that name a string, a text or a vector. */
  lemma StringKeyedExactly(engineType: string)
    ensures StringKeyed(engineType)
            <==> exists before, hashed, after ::
                   engineType == before + hashed + after && hashed in {"STRING", "TEXT", "VECTOR"}
  {
    hide Contains;
    ContainsParts(engineType, "STRING");
    ContainsParts(engineType, "TEXT");
    ContainsParts(engineType, "VECTOR");
  }

  /** A level is opened by an equality on its own column, or at the innermost level by any
      comparison if its keys are not hashes; a dotted reference is taken by its qualifier. */
  lemma BindsExactly(key: Key, e: Expr, pos: nat)
    requires pos < |key.columns| == |key.types|
    ensures Binds(key, e, pos)
            <==> && e.Compare?
                 && (e.lhs == Obj(Name(key.columns[pos])) || exists m :: e.lhs == Obj(Dotted(key.columns[pos], m)))
                 && (e.op in {"=", "==", "IS"}
                     || (pos == |key.columns| - 1 && !StringKeyed(key.types[pos])
                         && e.op in {"<>", "<", "<=", ">", ">="}))
  {
    hide StringKeyed;
    var column := key.columns[pos];
    if e.Compare? {
      CursorNames(e.op, 0, 0);
      assert NamesColumn(e, column) <==> e.lhs == Obj(Name(column)) || exists m :: e.lhs == Obj(Dotted(column, m)) by {
        if e.lhs.Obj? && e.lhs.ref.Dotted? && e.lhs.ref.qualifier == column {
          assert e.lhs == Obj(Dotted(column, e.lhs.ref.member));
        }
      }
    }
  }

  /** The column that a comparison is looked up by: a bare name that is no host variable,
      or the member of any dotted reference. */
  predicate LooksUp(e: Expr, column: string) {
    && e.Compare?
    && ((e.lhs == Obj(Name(column)) && !Hosted(column))
        || (e.lhs.Obj? && e.lhs.ref.Dotted? && e.lhs.ref.member == column))
  }

  lemma {:induction false} FirstKeyIs(keys: seq<Key>, column: string, key: Key)
    ensures FirstKey(keys, column) == Some(key)
            <==> exists i | 0 <= i < |keys| ::
                   keys[i] == key && column in key.columns && forall j | 0 <= j < i :: column !in keys[j].columns
  {
    if keys != [] && column !in keys[0].columns {
      var rest := keys[1..];
      FirstKeyIs(rest, column, key);
      if i :| 0 <= i < |rest| && rest[i] == key && column in key.columns && forall j | 0 <= j < i :: column !in rest[j].columns {
        assert keys[i + 1] == key;
        forall j | 0 <= j < i + 1 ensures column !in keys[j].columns {
          if j > 0 { assert keys[j] == rest[j - 1]; }
        }
      }
      if i :| 0 <= i < |keys| && keys[i] == key && column in key.columns && forall j | 0 <= j < i :: column !in keys[j].columns {
        assert rest[i - 1] == key;
        forall j | 0 <= j < i - 1 ensures column !in rest[j].columns { assert rest[j] == keys[j + 1]; }
      }
    }
  }

  /** A predicate is looked up in the first key that has the column of its leading
      conjunct at all, if the column leads that key; a later key that it leads is not
      looked at. */
  lemma LeadKeyExactly(def: TableDef, e: Expr, key: Key)
    ensures LeadKey(def, e) == Some(key)
            <==> exists i | 0 <= i < |def.keys| ::
                   && def.keys[i] == key && |key.columns| > 0 && LooksUp(if e.And? then e.left else e, key.columns[0])
                   && forall j | 0 <= j < i :: key.columns[0] !in def.keys[j].columns
  {
    if |key.columns| > 0 { FirstKeyIs(def.keys, key.columns[0], key); }
    var column := LeadColumn(LeadConjunct(e));
    if column.Some? { FirstKeyIs(def.keys, column.value, key); }
  }
}
