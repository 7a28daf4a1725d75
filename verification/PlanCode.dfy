/** The code that spells a plan out, what running such code yields, and that the code of
    every plan yields what the plan does. */
module PlanCode {
  import opened Predicates
  import opened Plans

  /** A cursor call up to the opening of its lambda, which takes a row or, with the
      types listed, a dependent handle; the content behind its filter; the end of
      a lambda and of its call. */
  datatype Token =
    | OpenScan
    | OpenCursor(root: bool, kind: Kind, bound: Option<Term>, handle: Option<seq<string>>)
    | Content(filter: Option<Expr>)
    | Close

  function Emit(plan: Plan): seq<Token> {
    match plan
    case Nothing => []
    case Scan(where) => [OpenScan, Content(where), Close]
    case Rows(root, kind, bound, filter) => [OpenCursor(root, kind, bound, None), Content(Some(filter)), Close]
    case Descend(root, kind, bound, declared, body) =>
      [OpenCursor(root, kind, bound, Some(declared))] + Emit(body) + [Close]
    case Then(p, q) => Emit(p) + Emit(q)
  }

  // ------------------------------------------------------------------
  // Running code.

  /** How many tokens stand before the one that closes the lambda around them, when n
      lambdas in it are still open. */
  function Inside(code: seq<Token>, n: nat): (k: nat)
    ensures k <= |code|
  {
    if code == [] then 0
    else match code[0]
      case Close => if n == 0 then 0 else 1 + Inside(code[1..], n - 1)
      case Content(_) => 1 + Inside(code[1..], n)
      case _ => 1 + Inside(code[1..], n + 1)
  }

  /** What an open lambda is, and what follows its end. */
  function Lambda(code: seq<Token>): (body: seq<Token>)
    ensures |body| <= |code|
  {
    code[..Inside(code, 0)]
  }

  function Behind(code: seq<Token>): (rest: seq<Token>)
    ensures |rest| <= |code|
  {
    var k := Inside(code, 0);
    if k < |code| then code[k + 1..] else []
  }

  /** What the lambdas around a piece of code have bound: a row, a handle. */
  datatype Scope = Scope(row: Option<Row>, handle: Option<Handle>)

  const OUTSIDE := Scope(None, None)

  /** The rows the content sees when code runs: a call runs its lambda once for every
      row or dependent level that it hands out, and the content takes the row in scope
      if its filter is true of it. */
  function Run(w: World, key: Key, index: Tree, code: seq<Token>, scope: Scope): seq<Row>
    decreases |code|, 1, 0, Empty
  {
    if code == [] then []
    else match code[0]
      case Close => Run(w, key, index, code[1..], scope)
      case Content(filter) =>
        (if scope.row.Some? && (filter.Some? ==> Eval(w, filter.value, scope.row.value)) then [scope.row.value] else [])
        + Run(w, key, index, code[1..], scope)
      case OpenScan =>
        RunRows(w, key, index, Lambda(code[1..]), scope, w.rows) + Run(w, key, index, Behind(code[1..]), scope)
      case OpenCursor(root, kind, bound, taken) =>
        var h := if root then Some(Handle(index, 0)) else scope.handle;
        (if h.None? || h.value.level >= |key.types| then []
         else
           var engineType := key.types[h.value.level];
           if taken.None? && h.value.tree.Leaf? then
             RunEntries(w, key, index, Lambda(code[1..]), scope, engineType, kind, bound, h.value.tree.entries)
           else if taken.Some? && h.value.tree.Node? then
             RunForest(w, key, index, Lambda(code[1..]), scope, engineType, kind, bound, h.value.level, h.value.tree.forest)
           else [])
        + Run(w, key, index, Behind(code[1..]), scope)
  }

  function RunRows(w: World, key: Key, index: Tree, body: seq<Token>, scope: Scope, rows: seq<Row>): seq<Row>
    decreases |body|, 2, |rows|, Empty
  {
    if rows == [] then []
    else Run(w, key, index, body, scope.(row := Some(rows[0]))) + RunRows(w, key, index, body, scope, rows[1..])
  }

  function RunEntries(w: World, key: Key, index: Tree, body: seq<Token>, scope: Scope, engineType: string,
                      kind: Kind, bound: Option<Term>, entries: seq<(int, Row)>): seq<Row>
    decreases |body|, 2, |entries|, Empty
  {
    if entries == [] then []
    else
      (if Selected(w, engineType, kind, bound, entries[0].0)
       then Run(w, key, index, body, scope.(row := Some(entries[0].1))) else [])
      + RunEntries(w, key, index, body, scope, engineType, kind, bound, entries[1..])
  }

  function RunForest(w: World, key: Key, index: Tree, body: seq<Token>, scope: Scope, engineType: string,
                     kind: Kind, bound: Option<Term>, d: nat, forest: Forest): seq<Row>
    decreases |body|, 2, 0, forest
  {
    match forest
    case Empty => []
    case Branch(x, child, rest) =>
      (if Selected(w, engineType, kind, bound, x)
       then Run(w, key, index, body, scope.(handle := Some(Handle(child, d + 1)))) else [])
      + RunForest(w, key, index, body, scope, engineType, kind, bound, d, rest)
  }

  // ------------------------------------------------------------------
  // The code of a plan.

  /** The lambdas that the code of a plan opens it closes. */
  lemma {:induction false} EmitBalanced(plan: Plan, rest: seq<Token>, n: nat)
    ensures Inside(Emit(plan) + rest, n) == |Emit(plan)| + Inside(rest, n)
    decreases plan
  {
    EmitSplit(plan, rest);
    hide Inside, Emit;
    match plan
    case Nothing =>
    case Scan(where) =>
      ContentBalanced(OpenScan, Content(where), rest, n);
    case Rows(root, kind, bound, filter) =>
      ContentBalanced(OpenCursor(root, kind, bound, None), Content(Some(filter)), rest, n);
    case Descend(root, kind, bound, declared, body) =>
      TokenInside(OpenCursor(root, kind, bound, Some(declared)), Emit(body) + ([Close] + rest), n);
      EmitBalanced(body, [Close] + rest, n + 1);
      TokenInside(Close, rest, n + 1);
    case Then(p, q) =>
      EmitBalanced(p, Emit(q) + rest, n);
      EmitBalanced(q, rest, n);
  }

  /** The code of a plan with anything behind it, from its first token on. */
  lemma EmitSplit(plan: Plan, rest: seq<Token>)
    ensures plan.Nothing? ==> Emit(plan) + rest == rest && |Emit(plan)| == 0
    ensures plan.Scan? ==>
              Emit(plan) + rest == [OpenScan] + ([Content(plan.where)] + ([Close] + rest)) && |Emit(plan)| == 3
    ensures plan.Rows? ==>
              && Emit(plan) + rest
                 == [OpenCursor(plan.root, plan.kind, plan.bound, None)] + ([Content(Some(plan.filter))] + ([Close] + rest))
              && |Emit(plan)| == 3
    ensures plan.Descend? ==>
              && Emit(plan) + rest
                 == [OpenCursor(plan.root, plan.kind, plan.bound, Some(plan.declared))] + (Emit(plan.body) + ([Close] + rest))
              && |Emit(plan)| == 2 + |Emit(plan.body)|
    ensures plan.Then? ==>
              && Emit(plan) + rest == Emit(plan.first) + (Emit(plan.second) + rest)
              && |Emit(plan)| == |Emit(plan.first)| + |Emit(plan.second)|
  {
    match plan
    case Nothing =>
    case Scan(where) =>
      Bracketed(OpenScan, [Content(where)], rest);
    case Rows(root, kind, bound, filter) =>
      Bracketed(OpenCursor(root, kind, bound, None), [Content(Some(filter))], rest);
    case Descend(root, kind, bound, declared, body) =>
      Bracketed(OpenCursor(root, kind, bound, Some(declared)), Emit(body), rest);
    case Then(p, q) =>
      Reassociate(Emit(p), Emit(q), rest);
  }

  lemma Reassociate(a: seq<Token>, b: seq<Token>, c: seq<Token>)
    ensures (a + b) + c == a + (b + c)
  {}

  lemma Bracketed(open: Token, body: seq<Token>, rest: seq<Token>)
    ensures ([open] + body + [Close]) + rest == [open] + (body + ([Close] + rest))
  {}

  lemma TokenInside(token: Token, rest: seq<Token>, n: nat)
    ensures Inside([token] + rest, n)
            == match token
               case Close => if n == 0 then 0 else 1 + Inside(rest, n - 1)
               case Content(_) => 1 + Inside(rest, n)
               case _ => 1 + Inside(rest, n + 1)
  {
    assert ([token] + rest)[1..] == rest;
  }

  lemma ContentBalanced(open: Token, content: Token, rest: seq<Token>, n: nat)
    requires (open.OpenScan? || open.OpenCursor?) && content.Content?
    ensures Inside([open] + ([content] + ([Close] + rest)), n) == 3 + Inside(rest, n)
  {
    hide Inside;
    TokenInside(open, [content] + ([Close] + rest), n);
    TokenInside(content, [Close] + rest, n + 1);
    TokenInside(Close, rest, n + 1);
  }

  /** A lambda whose body is the code of a plan. */
  lemma PlanLambda(plan: Plan, rest: seq<Token>)
    ensures Lambda(Emit(plan) + ([Close] + rest)) == Emit(plan)
    ensures Behind(Emit(plan) + ([Close] + rest)) == rest
  {
    hide Inside;
    var code := Emit(plan) + ([Close] + rest);
    EmitBalanced(plan, [Close] + rest, 0);
    TokenInside(Close, rest, 0);
    assert code[..|Emit(plan)|] == Emit(plan) && code[|Emit(plan)| + 1..] == rest;
  }

  /** A lambda whose body is the content. */
  lemma ContentLambda(filter: Option<Expr>, rest: seq<Token>)
    ensures Lambda([Content(filter)] + ([Close] + rest)) == [Content(filter)]
    ensures Behind([Content(filter)] + ([Close] + rest)) == rest
  {
    hide Inside;
    var code := [Content(filter)] + ([Close] + rest);
    TokenInside(Content(filter), [Close] + rest, 0);
    TokenInside(Close, rest, 0);
    assert code[..1] == [Content(filter)] && code[2..] == rest;
  }

  lemma ContentRun(w: World, key: Key, index: Tree, filter: Option<Expr>, row: Row, handle: Option<Handle>)
    ensures Run(w, key, index, [Content(filter)], Scope(Some(row), handle))
            == if filter.Some? ==> Eval(w, filter.value, row) then [row] else []
  {
    assert [Content(filter)][1..] == [] && Run(w, key, index, [], Scope(Some(row), handle)) == [];
  }

  lemma {:induction false} ScanRuns(w: World, key: Key, index: Tree, filter: Option<Expr>, scope: Scope, rows: seq<Row>)
    ensures RunRows(w, key, index, [Content(filter)], scope, rows)
            == if filter.Some? then Filter(w, filter.value, rows) else rows
    decreases |rows|
  {
    if rows != [] {
      ContentRun(w, key, index, filter, rows[0], scope.handle);
      ScanRuns(w, key, index, filter, scope, rows[1..]);
    }
  }

  lemma {:induction false} EntriesRun(w: World, key: Key, index: Tree, filter: Expr, scope: Scope, engineType: string,
                                      kind: Kind, bound: Option<Term>, entries: seq<(int, Row)>)
    ensures RunEntries(w, key, index, [Content(Some(filter))], scope, engineType, kind, bound, entries)
            == ExecEntries(w, engineType, kind, bound, filter, entries)
    decreases |entries|
  {
    hide Run, Selected, Eval;
    if entries != [] {
      ContentRun(w, key, index, Some(filter), entries[0].1, scope.handle);
      EntriesRun(w, key, index, filter, scope, engineType, kind, bound, entries[1..]);
    }
  }

  /** A call, its lambda and what follows. */
  lemma CallRuns(w: World, key: Key, index: Tree, open: Token, code: seq<Token>, scope: Scope)
    ensures Run(w, key, index, [open] + code, scope)
            == match open
               case OpenScan =>
                 RunRows(w, key, index, Lambda(code), scope, w.rows) + Run(w, key, index, Behind(code), scope)
               case OpenCursor(root, kind, bound, taken) =>
                 var h := if root then Some(Handle(index, 0)) else scope.handle;
                 (if h.None? || h.value.level >= |key.types| then []
                  else if taken.None? && h.value.tree.Leaf? then
                    RunEntries(w, key, index, Lambda(code), scope, key.types[h.value.level], kind, bound, h.value.tree.entries)
                  else if taken.Some? && h.value.tree.Node? then
                    RunForest(w, key, index, Lambda(code), scope, key.types[h.value.level], kind, bound,
                              h.value.level, h.value.tree.forest)
                  else [])
                 + Run(w, key, index, Behind(code), scope)
               case _ => Run(w, key, index, [open] + code, scope)
  {
    hide RunRows, RunEntries, RunForest, Lambda, Behind;
    assert ([open] + code)[1..] == code;
  }

  /** The code of a plan, run in any scope with anything behind it, yields what the plan
      yields on the handle in scope. */
  lemma {:induction false} EmitRuns(w: World, key: Key, index: Tree, plan: Plan, rest: seq<Token>, scope: Scope)
    ensures Run(w, key, index, Emit(plan) + rest, scope)
            == Exec(w, key, index, plan, scope.handle) + Run(w, key, index, rest, scope)
    decreases plan, 1, Empty
  {
    EmitSplit(plan, rest);
    hide Run, RunRows, RunEntries, RunForest, ExecEntries, ExecForest, Lambda, Behind, Emit;
    match plan
    case Nothing =>
    case Scan(where) =>
      var code := [Content(where)] + ([Close] + rest);
      CallRuns(w, key, index, OpenScan, code, scope);
      ContentLambda(where, rest);
      ScanRuns(w, key, index, where, scope, w.rows);
    case Rows(root, kind, bound, filter) =>
      var open, code := OpenCursor(root, kind, bound, None), [Content(Some(filter))] + ([Close] + rest);
      CallRuns(w, key, index, open, code, scope);
      ContentLambda(Some(filter), rest);
      var h := if root then Some(Handle(index, 0)) else scope.handle;
      if h.Some? && h.value.tree.Leaf? && h.value.level < |key.types| {
        EntriesRun(w, key, index, filter, scope, key.types[h.value.level], kind, bound, h.value.tree.entries);
      }
    case Descend(root, kind, bound, declared, body) =>
      var open, code := OpenCursor(root, kind, bound, Some(declared)), Emit(body) + ([Close] + rest);
      CallRuns(w, key, index, open, code, scope);
      PlanLambda(body, rest);
      var h := if root then Some(Handle(index, 0)) else scope.handle;
      if h.Some? && h.value.tree.Node? && h.value.level < |key.types| {
        ForestRuns(w, key, index, plan, scope, h.value.level, h.value.tree.forest);
      }
    case Then(p, q) =>
      EmitRuns(w, key, index, p, Emit(q) + rest, scope);
      EmitRuns(w, key, index, q, rest, scope);
  }

  lemma {:induction false} ForestRuns(w: World, key: Key, index: Tree, plan: Plan, scope: Scope, d: nat, forest: Forest)
    requires plan.Descend? && d < |key.types|
    ensures RunForest(w, key, index, Emit(plan.body), scope, key.types[d], plan.kind, plan.bound, d, forest)
            == ExecForest(w, key, index, plan, d, forest)
    decreases plan, 0, forest
  {
    hide Run, Exec, Selected, Emit;
    match forest
    case Empty =>
    case Branch(x, child, rest) =>
      var code, inner := Emit(plan.body), scope.(handle := Some(Handle(child, d + 1)));
      ForestRuns(w, key, index, plan, scope, d, rest);
      EmitRuns(w, key, index, plan.body, [], inner);
      assert code + [] == code;
      NothingRuns(w, key, index, inner);
  }

  lemma NothingRuns(w: World, key: Key, index: Tree, scope: Scope)
    ensures Run(w, key, index, [], scope) == []
  {}

  /** So the code of a plan on its own yields what the plan yields. */
  lemma PlanRuns(plan: Plan)
    ensures forall w, key, index :: Run(w, key, index, Emit(plan), OUTSIDE) == Exec(w, key, index, plan, None)
  {
    hide Run, Exec, Emit;
    forall w, key, index ensures Run(w, key, index, Emit(plan), OUTSIDE) == Exec(w, key, index, plan, None) {
      EmitRuns(w, key, index, plan, [], OUTSIDE);
      assert Emit(plan) + [] == Emit(plan);
      NothingRuns(w, key, index, OUTSIDE);
    }
  }
}
