/** The access plans the WHERE compiler emits, and what running one yields. */
module Plans {
  import opened Predicates

  datatype Kind = Equal | NotEqual | Less | LessEqual | Greater | GreaterEqual | All

  function CursorName(op: string): Kind {
    if op == "=" || op == "==" || op == "IS" then Equal
    else if op == "<>" then NotEqual
    else if op == "<" then Less
    else if op == "<=" then LessEqual
    else if op == ">" then Greater
    else if op == ">=" then GreaterEqual
    else All
  }

  predicate KeyMatches(kind: Kind, x: int, y: int) {
    match kind
    case Equal => x == y
    case NotEqual => x != y
    case Less => x < y
    case LessEqual => x <= y
    case Greater => x > y
    case GreaterEqual => x >= y
    case All => true
  }

  /** Rows hands rows to the content through a filter; Descend hands the next
      dependent level to `body` under the types it declares for it. `root` says
      whether the cursor is opened on the index itself or on the handle in
      scope. */
  datatype Plan =
    | Nothing
    | Scan(where: Option<Expr>)
    | Rows(root: bool, kind: Kind, bound: Option<Term>, filter: Expr)
    | Descend(root: bool, kind: Kind, bound: Option<Term>, declared: seq<string>, body: Plan)
    | Then(first: Plan, second: Plan)

  /** Every handle is used at its own level: rows come from the innermost level
      only, and the level a cursor hands out is the one its lambda declares. */
  predicate Levelled(types: seq<string>, plan: Plan, level: Option<nat>) {
    match plan
    case Nothing => true
    case Scan(_) => true
    case Then(p, q) => Levelled(types, p, level) && Levelled(types, q, level)
    case Rows(root, _, _, _) =>
      var l := if root then Some(0) else level;
      l.Some? && l.value + 1 == |types|
    case Descend(root, _, _, declared, body) =>
      var l := if root then Some(0) else level;
      l.Some? && l.value + 1 < |types| && declared == types[l.value + 1..]
      && Levelled(types, body, Some(l.value + 1))
  }

  /** Every cursor with a bound is called as one that takes a bound, and its bound can be
      evaluated before there is a row. */
  predicate Evaluable(def: TableDef, plan: Plan) {
    match plan
    case Nothing => true
    case Scan(_) => true
    case Then(p, q) => Evaluable(def, p) && Evaluable(def, q)
    case Rows(_, kind, bound, _) => bound.Some? ==> kind != All && RowFree(def, bound.value)
    case Descend(_, kind, bound, _, body) =>
      (bound.Some? ==> kind != All && RowFree(def, bound.value)) && Evaluable(def, body)
  }

  /** A handle: a tree and the level of the key it stands for. */
  datatype Handle = Handle(tree: Tree, level: nat)

  /** The comparison a cursor makes with its bound, which it evaluates before it
      has a row. */
  predicate Selected(w: World, engineType: string, kind: Kind, bound: Option<Term>, x: int) {
    bound.Some? ==> KeyMatches(kind, x, w.fold(engineType, TermValue(w, bound.value, map[])))
  }

  /** The rows the content sees, in order. */
  function Exec(w: World, key: Key, index: Tree, plan: Plan, handle: Option<Handle>): seq<Row>
    decreases plan, 1, Empty
  {
    match plan
    case Nothing => []
    case Scan(where) => if where.Some? then Filter(w, where.value, w.rows) else w.rows
    case Then(p, q) => Exec(w, key, index, p, handle) + Exec(w, key, index, q, handle)
    case Rows(root, kind, bound, filter) =>
      var h := if root then Some(Handle(index, 0)) else handle;
      if h.Some? && h.value.tree.Leaf? && h.value.level < |key.types|
      then ExecEntries(w, key.types[h.value.level], kind, bound, filter, h.value.tree.entries)
      else []
    case Descend(root, kind, bound, _, body) =>
      var h := if root then Some(Handle(index, 0)) else handle;
      if h.Some? && h.value.tree.Node? && h.value.level < |key.types|
      then ExecForest(w, key, index, plan, h.value.level, h.value.tree.forest)
      else []
  }

  function ExecEntries(w: World, engineType: string, kind: Kind, bound: Option<Term>, filter: Expr,
                       entries: seq<(int, Row)>): seq<Row>
  {
    if entries == [] then []
    else (if Selected(w, engineType, kind, bound, entries[0].0) && Eval(w, filter, entries[0].1)
          then [entries[0].1] else [])
         + ExecEntries(w, engineType, kind, bound, filter, entries[1..])
  }

  function ExecForest(w: World, key: Key, index: Tree, plan: Plan, d: nat, forest: Forest): seq<Row>
    requires plan.Descend? && d < |key.types|
    decreases plan, 0, forest
  {
    match forest
    case Empty => []
    case Branch(x, child, rest) =>
      (if Selected(w, key.types[d], plan.kind, plan.bound, x)
       then Exec(w, key, index, plan.body, Some(Handle(child, d + 1))) else [])
      + ExecForest(w, key, index, plan, d, rest)
  }

  /** The cursor keeps every row the predicate selects. */
  ghost predicate Implied(w: World, key: Key, where: Expr, kind: Kind, bound: Option<Term>, d: nat)
    requires d < |key.columns| == |key.types|
  {
    forall row: Row | Eval(w, where, row) :: Selected(w, key.types[d], kind, bound, KeyAt(w, key, d, row))
  }

  /** The plan starts on the index itself, not on a handle. */
  predicate PlanRoot(plan: Plan) {
    (plan.Rows? || plan.Descend?) && plan.root
  }

  /** A plan that re-applies the whole predicate to every row it reaches and
      reaches every row the predicate selects. */
  ghost predicate Faithful(w: World, key: Key, where: Expr, plan: Plan, level: nat)
    requires |key.columns| == |key.types|
    decreases plan
  {
    match plan
    case Rows(root, kind, bound, filter) =>
      var d := if root then 0 else level;
      d < |key.columns| && filter == where && Implied(w, key, where, kind, bound, d)
    case Descend(root, kind, bound, _, body) =>
      var d := if root then 0 else level;
      d < |key.columns| && Implied(w, key, where, kind, bound, d)
      && !PlanRoot(body) && Faithful(w, key, where, body, d + 1)
    case _ => false
  }

  lemma {:induction false} EntriesExact(w: World, key: Key, where: Expr, kind: Kind, bound: Option<Term>, d: nat,
                                        entries: seq<(int, Row)>)
    requires d < |key.columns| == |key.types| && Implied(w, key, where, kind, bound, d)
    requires forall e | e in entries :: e.0 == KeyAt(w, key, d, e.1)
    ensures ExecEntries(w, key.types[d], kind, bound, where, entries) == Filter(w, where, EntryRows(entries))
  {
    if entries != [] {
      EntriesExact(w, key, where, kind, bound, d, entries[1..]);
      assert entries[0] in entries;
      assert EntryRows(entries)[1..] == EntryRows(entries[1..]);
    }
  }

  /** Running a faithful plan on a level is filtering the rows of that level. */
  lemma {:induction false} ExecExact(w: World, key: Key, index: Tree, where: Expr, plan: Plan, handle: Option<Handle>)
    requires ValidKey(w.def, key) && ValidTree(w, key, 0, index)
    requires handle.Some? ==> handle.value.level < |key.columns|
    requires handle.Some? ==> ValidTree(w, key, handle.value.level, handle.value.tree)
    requires Levelled(key.types, plan, if handle.Some? then Some(handle.value.level) else None)
    requires Faithful(w, key, where, plan, if handle.Some? then handle.value.level else 0)
    ensures plan.root || handle.Some?
    ensures Exec(w, key, index, plan, handle)
            == Filter(w, where, RowsOf(if plan.root then index else handle.value.tree))
    decreases plan, 1, Empty
  {
    var h := if plan.root then Handle(index, 0) else handle.value;
    match plan
    case Rows(_, kind, bound, _) =>
      EntriesExact(w, key, where, kind, bound, h.level, h.tree.entries);
    case Descend(_, _, _, _, _) =>
      ForestExact(w, key, index, where, plan, h.level, h.tree.forest);
  }

  lemma {:induction false} ForestExact(w: World, key: Key, index: Tree, where: Expr, plan: Plan, d: nat, forest: Forest)
    requires ValidKey(w.def, key) && ValidTree(w, key, 0, index)
    requires plan.Descend? && d + 1 < |key.columns| && ValidForest(w, key, d, forest)
    requires Levelled(key.types, plan.body, Some(d + 1)) && !PlanRoot(plan.body)
    requires Implied(w, key, where, plan.kind, plan.bound, d) && Faithful(w, key, where, plan.body, d + 1)
    ensures ExecForest(w, key, index, plan, d, forest) == Filter(w, where, ForestRows(forest))
    decreases plan, 0, forest
  {
    match forest
    case Empty =>
    case Branch(x, child, rest) =>
      ForestExact(w, key, index, where, plan, d, rest);
      FilterConcat(w, where, RowsOf(child), ForestRows(rest));
      if Selected(w, key.types[d], plan.kind, plan.bound, x) {
        ExecExact(w, key, index, where, plan.body, Some(Handle(child, d + 1)));
      } else {
        FilterNothing(w, where, RowsOf(child));
      }
  }
}
