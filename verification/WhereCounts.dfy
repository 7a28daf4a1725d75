/** How often the emitted plan yields each row, for every predicate that gets one. */
module WhereCounts {
  import opened Predicates
  import opened Plans
  import opened PlanCode
  import opened WhereCompilers

  /** A plan whose code can run: there is one, it uses every handle at its own level, and
      every bound can be evaluated where it stands. */
  ghost predicate Runs(def: TableDef, key: Key, plan: Option<Plan>, level: Option<nat>) {
    plan.Some? && Levelled(key.types, plan.value, level) && Evaluable(def, plan.value)
  }

  /** A plan whose rows are, each as often as the table holds it, the rows a
      filtered scan yields. */
  ghost predicate Refines(w: World, key: Key, index: Tree, e: Expr, plan: Plan) {
    multiset(Exec(w, key, index, plan, None)) == multiset(Filter(w, e, w.rows))
  }

  predicate Meets(w: World, key: Key, kind: Kind, bound: Option<Term>, d: nat, row: Row)
    requires |key.columns| == |key.types|
  {
    d < |key.columns| && Selected(w, key.types[d], kind, bound, KeyAt(w, key, d, row))
  }

  /** How many innermost cursors of a plan reach a row whose keys are the given row's. */
  function Visits(w: World, key: Key, plan: Plan, level: nat, row: Row): nat
    requires |key.columns| == |key.types|
  {
    match plan
    case Nothing => 0
    case Scan(_) => 1
    case Then(p, q) => Visits(w, key, p, level, row) + Visits(w, key, q, level, row)
    case Rows(root, kind, bound, _) =>
      if Meets(w, key, kind, bound, if root then 0 else level, row) then 1 else 0
    case Descend(root, kind, bound, _, body) =>
      var d := if root then 0 else level;
      if Meets(w, key, kind, bound, d, row) then Visits(w, key, body, d + 1, row) else 0
  }

  /** A plan on a handle that re-applies the whole predicate to every row. */
  ghost predicate Refilters(where: Expr, plan: Plan) {
    match plan
    case Nothing => false
    case Scan(_) => false
    case Then(p, q) => Refilters(where, p) && Refilters(where, q)
    case Rows(root, _, _, filter) => !root && filter == where
    case Descend(root, _, _, _, body) => !root && Refilters(where, body)
  }

  /** A row comes out as often as the level holds it, times the cursors that reach it,
      if the predicate selects it. */
  ghost predicate Counted(w: World, where: Expr, out: seq<Row>, held: seq<Row>, row: Row, visits: nat) {
    multiset(out)[row] == if Eval(w, where, row) then multiset(held)[row] * visits else 0
  }

  lemma CountedBoth(w: World, where: Expr, out: seq<Row>, out': seq<Row>, held: seq<Row>, held': seq<Row>,
                    row: Row, visits: nat)
    requires Counted(w, where, out, held, row, visits) && Counted(w, where, out', held', row, visits)
    ensures Counted(w, where, out + out', held + held', row, visits)
  {
    Product(multiset(held)[row], multiset(held')[row], visits);
  }

  lemma CountedTwice(w: World, where: Expr, out: seq<Row>, out': seq<Row>, held: seq<Row>, row: Row, m: nat, n: nat)
    requires Counted(w, where, out, held, row, m) && Counted(w, where, out', held, row, n)
    ensures Counted(w, where, out + out', held, row, m + n)
  {
    Product(m, n, multiset(held)[row]);
  }

  lemma Product(x: int, y: int, z: int)
    ensures (x + y) * z == x * z + y * z && z * (x + y) == z * x + z * y
  {}

  lemma {:induction false} EntriesCount(w: World, key: Key, where: Expr, kind: Kind, bound: Option<Term>, d: nat,
                                        entries: seq<(int, Row)>, row: Row)
    requires d < |key.columns| == |key.types|
    requires forall e | e in entries :: e.0 == KeyAt(w, key, d, e.1)
    ensures Counted(w, where, ExecEntries(w, key.types[d], kind, bound, where, entries), EntryRows(entries), row,
                    if Meets(w, key, kind, bound, d, row) then 1 else 0)
  {
    if entries != [] {
      var e := entries[0];
      assert e in entries;
      EntriesCount(w, key, where, kind, bound, d, entries[1..], row);
      var visits := if Meets(w, key, kind, bound, d, row) then 1 else 0;
      var out := if Selected(w, key.types[d], kind, bound, e.0) && Eval(w, where, e.1) then [e.1] else [];
      assert Counted(w, where, out, [e.1], row, visits);
      CountedBoth(w, where, out, ExecEntries(w, key.types[d], kind, bound, where, entries[1..]),
                  [e.1], EntryRows(entries[1..]), row, visits);
    }
  }

  /** On a handle of its own level, a plan yields every row the level holds as often as
      its cursors reach it. */
  lemma {:induction false} ExecCount(w: World, key: Key, index: Tree, where: Expr, plan: Plan, tree: Tree, d: nat, row: Row)
    requires d < |key.columns| == |key.types| && ValidTree(w, key, d, tree)
    requires Levelled(key.types, plan, Some(d)) && Refilters(where, plan)
    ensures Counted(w, where, Exec(w, key, index, plan, Some(Handle(tree, d))), RowsOf(tree), row, Visits(w, key, plan, d, row))
    decreases plan, 1, Empty
  {
    hide Counted, Meets, Exec, ExecEntries, ExecForest, RowsOf, Eval, Visits, ValidTree;
    LevelRows(w, key, tree, d);
    ExecStep(w, key, index, plan, tree, d);
    VisitsStep(w, key, plan, d, row);
    match plan
    case Then(p, q) =>
      ExecCount(w, key, index, where, p, tree, d, row);
      ExecCount(w, key, index, where, q, tree, d, row);
      CountedTwice(w, where, Exec(w, key, index, p, Some(Handle(tree, d))), Exec(w, key, index, q, Some(Handle(tree, d))),
                   RowsOf(tree), row, Visits(w, key, p, d, row), Visits(w, key, q, d, row));
    case Rows(_, kind, bound, _) =>
      EntriesCount(w, key, where, kind, bound, d, tree.entries, row);
    case Descend(_, _, _, _, _) =>
      ForestCount(w, key, index, where, plan, d, tree.forest, row);
  }

  lemma LevelRows(w: World, key: Key, tree: Tree, d: nat)
    requires d < |key.columns| == |key.types| && ValidTree(w, key, d, tree)
    ensures tree.Leaf? <==> d + 1 == |key.columns|
    ensures tree.Leaf? ==> RowsOf(tree) == EntryRows(tree.entries)
                           && forall e | e in tree.entries :: e.0 == KeyAt(w, key, d, e.1)
    ensures tree.Node? ==> RowsOf(tree) == ForestRows(tree.forest) && ValidForest(w, key, d, tree.forest)
  {}

  /** What running a plan on a handle of its own level comes to. */
  lemma ExecStep(w: World, key: Key, index: Tree, plan: Plan, tree: Tree, d: nat)
    requires d < |key.columns| == |key.types| && (tree.Leaf? <==> d + 1 == |key.columns|)
    requires Levelled(key.types, plan, Some(d))
    ensures var out := Exec(w, key, index, plan, Some(Handle(tree, d)));
            match plan
            case Nothing => true
            case Scan(_) => true
            case Then(p, q) =>
              out == Exec(w, key, index, p, Some(Handle(tree, d))) + Exec(w, key, index, q, Some(Handle(tree, d)))
            case Rows(root, kind, bound, filter) =>
              tree.Leaf? && (!root ==> out == ExecEntries(w, key.types[d], kind, bound, filter, tree.entries))
            case Descend(root, _, _, _, body) =>
              !root ==> tree.Node? && out == ExecForest(w, key, index, plan, d, tree.forest)
                        && Levelled(key.types, body, Some(d + 1))
  {}

  lemma VisitsStep(w: World, key: Key, plan: Plan, d: nat, row: Row)
    requires |key.columns| == |key.types|
    ensures match plan
            case Nothing => true
            case Scan(_) => true
            case Then(p, q) => Visits(w, key, plan, d, row) == Visits(w, key, p, d, row) + Visits(w, key, q, d, row)
            case Rows(root, kind, bound, _) =>
              !root ==> Visits(w, key, plan, d, row) == if Meets(w, key, kind, bound, d, row) then 1 else 0
            case Descend(root, kind, bound, _, body) =>
              !root ==> Visits(w, key, plan, d, row)
                        == if Meets(w, key, kind, bound, d, row) then Visits(w, key, body, d + 1, row) else 0
  {}

  lemma {:induction false} ForestCount(w: World, key: Key, index: Tree, where: Expr, plan: Plan, d: nat, forest: Forest, row: Row)
    requires plan.Descend? && d + 1 < |key.columns| == |key.types| && ValidForest(w, key, d, forest)
    requires Levelled(key.types, plan.body, Some(d + 1)) && Refilters(where, plan.body)
    ensures Counted(w, where, ExecForest(w, key, index, plan, d, forest), ForestRows(forest), row,
                    if Meets(w, key, plan.kind, plan.bound, d, row) then Visits(w, key, plan.body, d + 1, row) else 0)
    decreases plan, 0, forest
  {
    match forest
    case Empty =>
    case Branch(x, child, rest) =>
      var visits := if Meets(w, key, plan.kind, plan.bound, d, row) then Visits(w, key, plan.body, d + 1, row) else 0;
      var out := if Selected(w, key.types[d], plan.kind, plan.bound, x)
                 then Exec(w, key, index, plan.body, Some(Handle(child, d + 1))) else [];
      ExecCount(w, key, index, where, plan.body, child, d + 1, row);
      ForestCount(w, key, index, where, plan, d, rest, row);
      assert row !in RowsOf(child) ==> multiset(RowsOf(child))[row] == 0;
      assert row in RowsOf(child) ==> KeyAt(w, key, d, row) == x;
      assert Counted(w, where, out, RowsOf(child), row, visits);
      CountedBoth(w, where, out, ExecForest(w, key, index, plan, d, rest), RowsOf(child), ForestRows(rest), row, visits);
  }

  // ------------------------------------------------------------------
  // Whole predicates.

  lemma {:induction false} WalkRefilters(key: Key, where: Expr, pos: nat)
    requires pos < |key.columns| == |key.types|
    ensures Refilters(where, WalkPlan(key, where, pos))
    decreases |key.columns| - pos
  {
    if pos + 1 < |key.columns| { WalkRefilters(key, where, pos + 1); }
  }

  /** Beyond the first position every plan works on the handle in scope. */
  lemma {:induction false} CursorRefilters(key: Key, where: Expr, bitwise: Option<Expr>, opr: Expr, pos: nat)
    requires |key.columns| == |key.types| && pos > 0 && (bitwise.Some? ==> Connective(bitwise.value))
    ensures var plan := CursorPlan(key, where, bitwise, opr, pos); plan.Some? ==> Refilters(where, plan.value)
    decreases SpineLength(bitwise), 1
  {
    hide Binds, NextPlan;
    if pos < |key.columns| { NextRefilters(key, where, bitwise, pos); }
  }

  lemma {:induction false} NextRefilters(key: Key, where: Expr, bitwise: Option<Expr>, pos: nat)
    requires pos < |key.columns| == |key.types| && (bitwise.Some? ==> Connective(bitwise.value))
    ensures var plan := NextPlan(key, where, bitwise, pos); plan.Some? ==> Refilters(where, plan.value)
    decreases SpineLength(bitwise), 0
  {
    hide CursorPlan;
    if bitwise.None? {
      if pos + 1 < |key.columns| { WalkRefilters(key, where, pos + 1); }
    } else {
      var right := bitwise.value.right;
      CursorRefilters(key, where, if Connective(right) then Some(right) else None,
                      if Connective(right) then right.left else right, pos + 1);
      if right.Or? { CursorRefilters(key, where, Some(right), right.right, pos + 1); }
    }
  }

  lemma {:induction false} NeedsHandle(types: seq<string>, where: Expr, plan: Plan)
    requires Refilters(where, plan)
    ensures !Levelled(types, plan, None)
  {
    if plan.Then? { NeedsHandle(types, where, plan.first); }
  }

  /** A plan opened on the index that re-applies the whole predicate, or no code at all. */
  ghost predicate Opens(where: Expr, plan: Plan) {
    plan.Nothing? || (plan.Rows? && plan.root && plan.filter == where)
    || (plan.Descend? && plan.root && Refilters(where, plan.body))
  }

  lemma {:induction false} CompiledOpens(def: TableDef, key: Key, e: Expr)
    requires ValidDef(def) && LeadKey(def, e) == Some(key) && Runs(def, key, CompilePlan(def, Some(e)), None)
    ensures Opens(e, CompilePlan(def, Some(e)).value) && |key.columns| == |key.types| > 0
  {
    FirstKeyIn(def.keys, LeadColumn(LeadConjunct(e)).value);
    hide Binds, NextPlan, LeadKey;
    var opr, bitwise := LeadConjunct(e), if e.And? then Some(e) else None;
    if |key.columns| > 1 {
      NextRefilters(key, e, bitwise, 0);
      var next := NextPlan(key, e, bitwise, 0);
      if next.Some? { NeedsHandle(key.types, e, next.value); }
    }
  }

  /** What a plan opened on the index comes to. */
  lemma {:induction false} OpenedStep(w: World, key: Key, index: Tree, e: Expr, plan: Plan, row: Row)
    requires |key.columns| == |key.types| > 0 && (index.Leaf? <==> |key.columns| == 1)
    requires Opens(e, plan) && Runs(w.def, key, Some(plan), None)
    ensures var out, visits := Exec(w, key, index, plan, None), Visits(w, key, plan, 0, row);
            && (plan.Nothing? ==> out == [] && visits == 0)
            && (plan.Rows? ==> index.Leaf? && out == ExecEntries(w, key.types[0], plan.kind, plan.bound, e, index.entries)
                               && visits == if Meets(w, key, plan.kind, plan.bound, 0, row) then 1 else 0)
            && (plan.Descend? ==> index.Node? && out == ExecForest(w, key, index, plan, 0, index.forest)
                                  && Levelled(key.types, plan.body, Some(1)) && Refilters(e, plan.body)
                                  && visits == if Meets(w, key, plan.kind, plan.bound, 0, row)
                                               then Visits(w, key, plan.body, 1, row) else 0)
  {
    hide ExecEntries, ExecForest, Meets;
  }

  lemma CountedSame(w: World, where: Expr, out: seq<Row>, held: seq<Row>, held': seq<Row>, row: Row, visits: nat)
    requires Counted(w, where, out, held, row, visits) && multiset(held) == multiset(held')
    ensures Counted(w, where, out, held', row, visits)
  {}

  lemma NothingCounted(w: World, where: Expr, held: seq<Row>, row: Row)
    ensures Counted(w, where, [], held, row, 0)
  {}

  lemma {:induction false} OpenedCount(w: World, key: Key, index: Tree, e: Expr, plan: Plan, row: Row)
    requires Indexes(w, key, index) && Opens(e, plan) && Runs(w.def, key, Some(plan), None)
    ensures Counted(w, e, Exec(w, key, index, plan, None), w.rows, row, Visits(w, key, plan, 0, row))
  {
    hide Exec, ExecEntries, ExecForest, Visits, Counted, Meets, RowsOf, ValidTree, Refilters, Runs, Levelled, ValidForest;
    LevelRows(w, key, index, 0);
    OpenedStep(w, key, index, e, plan, row);
    if plan.Rows? {
      EntriesCount(w, key, e, plan.kind, plan.bound, 0, index.entries, row);
    } else if plan.Descend? {
      ForestCount(w, key, index, e, plan, 0, index.forest, row);
    } else {
      NothingCounted(w, e, RowsOf(index), row);
    }
    CountedSame(w, e, Exec(w, key, index, plan, None), RowsOf(index), w.rows, row, Visits(w, key, plan, 0, row));
  }

  lemma OnceExactly(held: nat, visits: nat)
    requires held > 0
    ensures held * visits == held <==> visits == 1
  {}

  lemma {:induction false} CountedRefines(w: World, key: Key, index: Tree, e: Expr, plan: Plan)
    requires |key.columns| == |key.types|
    requires forall row: Row :: Counted(w, e, Exec(w, key, index, plan, None), w.rows, row, Visits(w, key, plan, 0, row))
    ensures Refines(w, key, index, e, plan)
            <==> forall row | row in w.rows && Eval(w, e, row) :: Visits(w, key, plan, 0, row) == 1
  {
    hide Exec, Visits, Eval, Filter, Refilters;
    var out, scan := Exec(w, key, index, plan, None), Filter(w, e, w.rows);
    forall row: Row
      ensures multiset(out)[row] == multiset(scan)[row]
              <==> (row in w.rows && Eval(w, e, row) ==> Visits(w, key, plan, 0, row) == 1)
    {
      FilterCount(w, e, w.rows, row);
      assert Counted(w, e, out, w.rows, row, Visits(w, key, plan, 0, row));
      if row in w.rows {
        OnceExactly(multiset(w.rows)[row], Visits(w, key, plan, 0, row));
      }
    }
  }

  /** Whatever the predicate, and however deep the key: a plan that runs yields each row
      the predicate selects as often as the table holds it times the cursors that reach
      it, and no other row. So it refines the scan exactly when one cursor reaches each
      selected row. */
  lemma {:induction false} PlanExact(w: World, key: Key, index: Tree, e: Expr)
    requires ValidDef(w.def) && Indexes(w, key, index) && LeadKey(w.def, e) == Some(key)
    requires Runs(w.def, key, CompilePlan(w.def, Some(e)), None)
    ensures var plan := CompilePlan(w.def, Some(e)).value;
            && (forall row: Row :: Counted(w, e, Exec(w, key, index, plan, None), w.rows, row, Visits(w, key, plan, 0, row)))
            && (Refines(w, key, index, e, plan)
                <==> forall row | row in w.rows && Eval(w, e, row) :: Visits(w, key, plan, 0, row) == 1)
  {
    hide Exec, Visits, Counted, Eval, CompilePlan, Indexes, Levelled, Evaluable, Opens;
    CompiledOpens(w.def, key, e);
    var plan := CompilePlan(w.def, Some(e)).value;
    forall row: Row ensures Counted(w, e, Exec(w, key, index, plan, None), w.rows, row, Visits(w, key, plan, 0, row)) {
      OpenedCount(w, key, index, e, plan, row);
    }
    CountedRefines(w, key, index, e, plan);
  }

  /** The same of the code that the compiler writes, run token by token. */
  lemma {:induction false} CodeExact(w: World, key: Key, index: Tree, e: Expr, code: seq<Token>)
    requires ValidDef(w.def) && Indexes(w, key, index) && LeadKey(w.def, e) == Some(key)
    requires Runs(w.def, key, CompilePlan(w.def, Some(e)), None) && code == Emit(CompilePlan(w.def, Some(e)).value)
    ensures var out, plan := Run(w, key, index, code, OUTSIDE), CompilePlan(w.def, Some(e)).value;
            && (forall row: Row :: Counted(w, e, out, w.rows, row, Visits(w, key, plan, 0, row)))
            && (multiset(out) == multiset(Filter(w, e, w.rows))
                <==> forall row | row in w.rows && Eval(w, e, row) :: Visits(w, key, plan, 0, row) == 1)
  {
    hide Exec, Run, Emit, Visits, Counted, Eval, CompilePlan, Indexes, Filter, LeadKey;
    PlanExact(w, key, index, e);
    PlanRuns(CompilePlan(w.def, Some(e)).value);
  }

  /** A predicate that is answered by the scan gets code that yields, in their order, the
      rows it selects; without a predicate the code yields every row. */
  lemma {:induction false} ScanCode(w: World, key: Key, index: Tree, where: Option<Expr>)
    requires ValidDef(w.def) && (where.Some? ==> LeadKey(w.def, where.value).None?)
    ensures CompilePlan(w.def, where).Some?
    ensures Run(w, key, index, Emit(CompilePlan(w.def, where).value), OUTSIDE)
            == if where.Some? then Filter(w, where.value, w.rows) else w.rows
  {
    hide Run, Filter, LeadKey;
    PlanRuns(CompilePlan(w.def, where).value);
  }
}
