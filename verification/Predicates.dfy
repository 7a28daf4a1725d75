/** WHERE predicates, the rows they select, and the indexes of a table. */
module Predicates {

  datatype Option<+T> = None | Some(value: T)

  type Value = int
  type Row = map<string, Value>

  function Col(row: Row, column: string): Value {
    if column in row then row[column] else 0
  }

  /** An object reference: a bare name, or a member of a named object. A name that
      starts with '@' is a host variable. */
  datatype Ref = Name(name: string) | Dotted(qualifier: string, member: string)

  predicate Hosted(name: string) {
    |name| > 0 && name[0] == '@'
  }

  /** An operand: a reference, or any other expression, which either does not mention the
      row and is here its value, or does and is here its value for each row. */
  datatype Term = Obj(ref: Ref) | Outside(value: Value) | Inside(of: Row -> Value)

  /** Compare stands for every binary operator between two operands. Test stands for
      every predicate whose first operand is no reference. */
  datatype Expr =
    | And(left: Expr, right: Expr)
    | Or(left: Expr, right: Expr)
    | Compare(op: string, lhs: Term, rhs: Term)
    | Between(subject: Term, low: Term, high: Term)
    | Like(subject: Term, matches: Value -> bool)
    | Test(holds: Row -> bool)

  /** The columns of an index key and their engine types, leading one first. */
  datatype Key = Key(name: string, columns: seq<string>, types: seq<string>)

  datatype TableDef = TableDef(alias: string, columns: set<string>, keys: seq<Key>)

  ghost predicate ValidKey(def: TableDef, key: Key) {
    && |key.columns| == |key.types| > 0
    && forall c | c in key.columns :: c in def.columns && !Hosted(c)
  }

  /** A level of an index: rows at the innermost one, and otherwise an ordered
      run of dependent levels. */
  datatype Tree = Leaf(entries: seq<(int, Row)>) | Node(forest: Forest)
  datatype Forest = Empty | Branch(key: int, child: Tree, rest: Forest)

  /** What a query runs against. `fold` turns a value of a column of a given
      engine type into the key an index orders, and `other` is the truth of operators
      that are no comparisons. */
  datatype World = World(def: TableDef, env: Ref -> Value, fold: (string, Value) -> int,
                         other: (string, Value, Value) -> bool, rows: seq<Row>)

  predicate Contains(s: string, part: string) {
    |part| <= |s| && (s[..|part|] == part || (s != [] && Contains(s[1..], part)))
  }

  /** Types whose keys are hashes of the values. */
  predicate StringKeyed(engineType: string) {
    Contains(engineType, "STRING") || Contains(engineType, "TEXT") || Contains(engineType, "VECTOR")
  }

  /** Keys that are not hashes keep the order of the values. Nothing is asked of
      the hashes: they may collide. */
  ghost predicate OrderKept(w: World) {
    forall t, x, y | !StringKeyed(t) && x < y :: w.fold(t, x) < w.fold(t, y)
  }

  function RefValue(w: World, ref: Ref, row: Row): Value {
    match ref
    case Name(n) => if !Hosted(n) && n in w.def.columns then Col(row, n) else w.env(ref)
    case Dotted(q, m) => if q == w.def.alias then Col(row, m) else w.env(ref)
  }

  function TermValue(w: World, term: Term, row: Row): Value {
    match term
    case Obj(ref) => RefValue(w, ref, row)
    case Outside(v) => v
    case Inside(of) => of(row)
  }

  /** Terms that do not mention the row. */
  predicate RowFree(def: TableDef, term: Term) {
    match term
    case Outside(_) => true
    case Inside(_) => false
    case Obj(Name(n)) => Hosted(n) || n !in def.columns
    case Obj(Dotted(q, _)) => q != def.alias
  }

  predicate Holds(w: World, op: string, x: Value, y: Value) {
    if op == "=" || op == "==" || op == "IS" then x == y
    else if op == "<>" then x != y
    else if op == "<" then x < y
    else if op == "<=" then x <= y
    else if op == ">" then x > y
    else if op == ">=" then x >= y
    else w.other(op, x, y)
  }

  predicate Eval(w: World, e: Expr, row: Row) {
    match e
    case And(l, r) => Eval(w, l, row) && Eval(w, r, row)
    case Or(l, r) => Eval(w, l, row) || Eval(w, r, row)
    case Compare(op, lhs, rhs) => Holds(w, op, TermValue(w, lhs, row), TermValue(w, rhs, row))
    case Between(x, low, high) =>
      TermValue(w, low, row) <= TermValue(w, x, row) <= TermValue(w, high, row)
    case Like(x, matches) => matches(TermValue(w, x, row))
    case Test(holds) => holds(row)
  }

  /** The scan: every row, in order, that the predicate selects. */
  function Filter(w: World, e: Expr, rows: seq<Row>): seq<Row> {
    if rows == [] then []
    else (if Eval(w, e, rows[0]) then [rows[0]] else []) + Filter(w, e, rows[1..])
  }

  lemma {:induction false} FilterConcat(w: World, e: Expr, a: seq<Row>, b: seq<Row>)
    ensures Filter(w, e, a + b) == Filter(w, e, a) + Filter(w, e, b)
  {
    if a == [] {
      assert a + b == b;
    } else {
      assert (a + b)[1..] == a[1..] + b;
      FilterConcat(w, e, a[1..], b);
    }
  }

  lemma {:induction false} FilterNothing(w: World, e: Expr, rows: seq<Row>)
    requires forall r | r in rows :: !Eval(w, e, r)
    ensures Filter(w, e, rows) == []
  {
    if rows != [] { FilterNothing(w, e, rows[1..]); }
  }

  /** How often a row passes a scan depends on how often it is there, not where. */
  lemma {:induction false} FilterCount(w: World, e: Expr, rows: seq<Row>, r: Row)
    ensures multiset(Filter(w, e, rows))[r] == if Eval(w, e, r) then multiset(rows)[r] else 0
  {
    if rows != [] {
      FilterCount(w, e, rows[1..], r);
      assert rows == [rows[0]] + rows[1..];
    }
  }

  lemma FilterMultiset(w: World, e: Expr, a: seq<Row>, b: seq<Row>)
    requires multiset(a) == multiset(b)
    ensures multiset(Filter(w, e, a)) == multiset(Filter(w, e, b))
  {
    forall r: Row ensures multiset(Filter(w, e, a))[r] == multiset(Filter(w, e, b))[r] {
      FilterCount(w, e, a, r);
      FilterCount(w, e, b, r);
    }
  }

  function EntryRows(entries: seq<(int, Row)>): seq<Row> {
    if entries == [] then [] else [entries[0].1] + EntryRows(entries[1..])
  }

  function RowsOf(tree: Tree): seq<Row> {
    match tree
    case Leaf(entries) => EntryRows(entries)
    case Node(forest) => ForestRows(forest)
  }

  function ForestRows(forest: Forest): seq<Row> {
    match forest
    case Empty => []
    case Branch(_, child, rest) => RowsOf(child) + ForestRows(rest)
  }

  function KeyAt(w: World, key: Key, d: nat, row: Row): int
    requires d < |key.columns| == |key.types|
  {
    w.fold(key.types[d], Col(row, key.columns[d]))
  }

  /** A level-d tree of the key: all rows under a branch carry its key. */
  ghost predicate ValidTree(w: World, key: Key, d: nat, tree: Tree)
    requires d < |key.columns| == |key.types|
    decreases tree
  {
    match tree
    case Leaf(entries) =>
      d + 1 == |key.columns| && forall e | e in entries :: e.0 == KeyAt(w, key, d, e.1)
    case Node(forest) => d + 1 < |key.columns| && ValidForest(w, key, d, forest)
  }

  ghost predicate ValidForest(w: World, key: Key, d: nat, forest: Forest)
    requires d + 1 < |key.columns| == |key.types|
    decreases forest
  {
    match forest
    case Empty => true
    case Branch(x, child, rest) =>
      && ValidTree(w, key, d + 1, child)
      && (forall r | r in RowsOf(child) :: KeyAt(w, key, d, r) == x)
      && ValidForest(w, key, d, rest)
  }

  /** An index holds each row of the table exactly once. */
  ghost predicate Indexes(w: World, key: Key, tree: Tree) {
    && ValidKey(w.def, key)
    && ValidTree(w, key, 0, tree)
    && multiset(RowsOf(tree)) == multiset(w.rows)
  }
}
