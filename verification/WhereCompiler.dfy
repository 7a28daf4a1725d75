/** The WHERE compiler: which plan a predicate becomes, the code that spells the
    plan out, and what the plan yields. */
module WhereCompilers {
  import opened Predicates
  import opened Plans
  import opened PlanCode

  /** The operator an expression carries, as a cursor kind. Only comparisons have
      one. */
  function OperatorKind(e: Expr): Kind {
    if e.Compare? then CursorName(e.op) else All
  }

  /** The name test of a composite key. For a dotted reference it looks at the
      qualifier. */
  predicate NamesColumn(e: Expr, column: string) {
    e.Compare? && e.lhs.Obj? &&
    match e.lhs.ref
    case Name(n) => n == column
    case Dotted(q, _) => q == column
  }

  /** The conjunct can open the level at `pos`: an equality on its column, or at
      the innermost level a range over keys that are not hashes. */
  predicate Binds(key: Key, e: Expr, pos: nat)
    requires pos < |key.columns| == |key.types|
  {
    var kind := OperatorKind(e);
    var inner := pos + 1 == |key.columns|;
    && (kind == Equal || (inner && !StringKeyed(key.types[pos]) && kind != All))
    && NamesColumn(e, key.columns[pos])
  }

  /** The walk over the levels from `pos` on, which binds none of them. */
  function WalkPlan(key: Key, where: Expr, pos: nat): Plan
    requires pos < |key.columns| == |key.types|
    decreases |key.columns| - pos
  {
    if pos + 1 == |key.columns| then Rows(false, All, None, where)
    else Descend(false, All, None, key.types[pos + 1..], WalkPlan(key, where, pos + 1))
  }

  function PartialPlan(key: Key, where: Expr, pos: nat): Plan
    requires pos < |key.columns| == |key.types|
  {
    if pos + 1 == |key.columns| then Rows(false, All, None, where) else WalkPlan(key, where, pos + 1)
  }

  predicate Connective(e: Expr) {
    e.And? || e.Or?
  }

  function RightLength(e: Expr): nat {
    match e
    case And(_, r) => 1 + RightLength(r)
    case Or(_, r) => 1 + RightLength(r)
    case _ => 0
  }

  /** How many connectives are still to come. */
  function SpineLength(bitwise: Option<Expr>): nat {
    if bitwise.None? then 0 else 1 + RightLength(bitwise.value)
  }

  /** The plan for the conjunct `opr` at key position `pos`, with the connective it
      leads, if any. There is none when the position is past the key: the code
      reads the type list at its end. */
  function CursorPlan(key: Key, where: Expr, bitwise: Option<Expr>, opr: Expr, pos: nat): Option<Plan>
    requires |key.columns| == |key.types|
    requires bitwise.Some? ==> Connective(bitwise.value)
    decreases SpineLength(bitwise), 1
  {
    if pos >= |key.columns| then None
    else if Binds(key, opr, pos) then
      var kind := OperatorKind(opr);
      if pos > 0 && pos + 1 == |key.columns| then Some(Rows(false, kind, Some(opr.rhs), where))
      else
        match NextPlan(key, where, bitwise, pos)
        case None => None
        case Some(body) => Some(Descend(pos == 0, kind, Some(opr.rhs), key.types[pos + 1..], body))
    else NextPlan(key, where, bitwise, pos)
  }

  function NextPlan(key: Key, where: Expr, bitwise: Option<Expr>, pos: nat): Option<Plan>
    requires pos < |key.columns| == |key.types|
    requires bitwise.Some? ==> Connective(bitwise.value)
    decreases SpineLength(bitwise), 0
  {
    match bitwise
    case None => Some(PartialPlan(key, where, pos))
    case Some(e) =>
      if e.right.And? then CursorPlan(key, where, Some(e.right), e.right.left, pos + 1)
      else if e.right.Or? then
        match CursorPlan(key, where, Some(e.right), e.right.left, pos + 1)
        case None => None
        case Some(p) =>
          (match CursorPlan(key, where, Some(e.right), e.right.right, pos + 1)
           case None => None
           case Some(q) => Some(Then(p, q)))
      else CursorPlan(key, where, None, e.right, pos + 1)
  }

  /** The first key that holds the column at all. */
  function FirstKey(keys: seq<Key>, column: string): Option<Key> {
    if keys == [] then None
    else if column in keys[0].columns then Some(keys[0])
    else FirstKey(keys[1..], column)
  }

  /** The column an indexed lookup of this conjunct would go by. */
  function LeadColumn(opr: Expr): Option<string> {
    if !opr.Compare? || !opr.lhs.Obj? then None
    else match opr.lhs.ref
      case Name(n) => if Hosted(n) then None else Some(n)
      case Dotted(_, m) => Some(m)
  }

  function LeadConjunct(where: Expr): Expr {
    if where.And? then where.left else where
  }

  /** The key whose leading column the leading conjunct compares. */
  function LeadKey(def: TableDef, where: Expr): Option<Key> {
    match LeadColumn(LeadConjunct(where))
    case None => None
    case Some(column) =>
      (match FirstKey(def.keys, column)
       case None => None
       case Some(key) => if |key.columns| > 0 && key.columns[0] == column then Some(key) else None)
  }

  ghost predicate ValidDef(def: TableDef) {
    forall key | key in def.keys :: ValidKey(def, key)
  }

  lemma {:induction false} FirstKeyIn(keys: seq<Key>, column: string)
    ensures FirstKey(keys, column).Some? ==> FirstKey(keys, column).value in keys
  {
    if keys != [] { FirstKeyIn(keys[1..], column); }
  }

  function CompilePlan(def: TableDef, where: Option<Expr>): Option<Plan>
    requires ValidDef(def)
  {
    match where
    case None => Some(Scan(None))
    case Some(e) =>
      var opr := LeadConjunct(e);
      match LeadKey(def, e)
      case None => Some(Scan(Some(e)))
      case Some(key) =>
        assert key in def.keys by { FirstKeyIn(def.keys, LeadColumn(opr).value); }
        if StringKeyed(key.types[0]) && OperatorKind(opr) != Equal then Some(Nothing)
        else if |key.columns| == 1 then Some(Rows(true, OperatorKind(opr), Some(opr.rhs), e))
        else CursorPlan(key, e, if e.And? then Some(e) else None, opr, 0)
  }

  // ------------------------------------------------------------------
  // The code the compiler writes.

  class WhereCompiler {
    const def: TableDef
    var code: seq<Token>

    constructor (def: TableDef)
      ensures this.def == def && code == []
    {
      this.def := def;
      code := [];
    }

    /** The partial search: opens the middle levels and leaves them open, writes
        the row walk, and closes the middle levels again. */
    method Partial(key: Key, where: Expr, pos: nat)
      requires pos < |key.columns| == |key.types|
      modifies this
      ensures code == old(code) + Emit(PartialPlan(key, where, pos))
    {
      WalkCode(key, where, pos);
      hide Emit, WalkPlan, PartialPlan, Closes;
      ghost var target := code + Emit(PartialPlan(key, where, pos));
      if pos + 1 == |key.columns| {
        code := code + [OpenCursor(false, All, None, None), Content(Some(where)), Close];
      }
      var nested := 0;
      var i := pos + 1;
      ghost var left := if i < |key.columns| then Emit(WalkPlan(key, where, i)) else [];
      Append(code, left);
      while i < |key.columns|
        invariant pos + 1 <= i <= |key.columns|
        invariant left == if i < |key.columns| then Emit(WalkPlan(key, where, i)) else []
        invariant code + left + Closes(nested) == target
      {
        WalkCode(key, where, i);
        if i + 1 == |key.columns| {
          code := code + [OpenCursor(false, All, None, None), Content(Some(where)), Close];
          left := [];
          Append(code, []);
        } else {
          var token := OpenCursor(false, All, None, Some(key.types[i + 1..]));
          left := Emit(WalkPlan(key, where, i + 1));
          OpenLevel(code, token, left, nested);
          code := code + [token];
          nested := nested + 1;
        }
        i := i + 1;
      }
      Append(code, []);
      while nested > 0
        invariant nested >= 0
        invariant code + Closes(nested) == target
      {
        CloseLevel(code, nested);
        nested := nested - 1;
        code := code + [Close];
      }
      Append(code, []);
    }

    /** Writes the plan of one conjunct and what follows it, unless the position
        runs past the key. */
    method Cursor(key: Key, where: Expr, bitwise: Option<Expr>, opr: Expr, pos: nat) returns (defined: bool)
      requires |key.columns| == |key.types|
      requires bitwise.Some? ==> Connective(bitwise.value)
      modifies this
      ensures defined <==> CursorPlan(key, where, bitwise, opr, pos).Some?
      ensures defined ==> code == old(code) + Emit(CursorPlan(key, where, bitwise, opr, pos).value)
      decreases SpineLength(bitwise), 1
    {
      hide NextPlan, Emit;
      if pos >= |key.columns| {
        return false;
      }
      if Binds(key, opr, pos) {
        var kind := OperatorKind(opr);
        if pos > 0 && pos + 1 == |key.columns| {
          EmitRows(false, kind, Some(opr.rhs), where);
          code := code + [OpenCursor(false, kind, Some(opr.rhs), None), Content(Some(where)), Close];
          defined := true;
        } else {
          ghost var before := code;
          code := code + [OpenCursor(pos == 0, kind, Some(opr.rhs), Some(key.types[pos + 1..]))];
          defined := Next(key, where, bitwise, pos);
          if defined {
            EmitDescend(before, pos == 0, kind, Some(opr.rhs), key.types[pos + 1..], NextPlan(key, where, bitwise, pos).value);
          }
          code := code + [Close];
        }
      } else {
        defined := Next(key, where, bitwise, pos);
      }
    }

    method Next(key: Key, where: Expr, bitwise: Option<Expr>, pos: nat) returns (defined: bool)
      requires pos < |key.columns| == |key.types|
      requires bitwise.Some? ==> Connective(bitwise.value)
      modifies this
      ensures defined <==> NextPlan(key, where, bitwise, pos).Some?
      ensures defined ==> code == old(code) + Emit(NextPlan(key, where, bitwise, pos).value)
      decreases SpineLength(bitwise), 0
    {
      hide CursorPlan, PartialPlan;
      if bitwise.Some? {
        var right := bitwise.value.right;
        if right.And? {
          defined := Cursor(key, where, Some(right), right.left, pos + 1);
        } else if right.Or? {
          defined := Cursor(key, where, Some(right), right.left, pos + 1);
          if defined {
            defined := Cursor(key, where, Some(right), right.right, pos + 1);
          }
        } else {
          defined := Cursor(key, where, None, right, pos + 1);
        }
      } else {
        Partial(key, where, pos);
        defined := true;
      }
    }

    /** Writes the code of the plan, which yields when it runs what the plan yields. */
    method Compile(where: Option<Expr>) returns (defined: bool)
      requires ValidDef(def)
      modifies this
      ensures defined <==> CompilePlan(def, where).Some?
      ensures defined ==> code == old(code) + Emit(CompilePlan(def, where).value)
      ensures defined ==>
                forall w, key, index ::
                  Run(w, key, index, code[|old(code)|..], OUTSIDE) == Exec(w, key, index, CompilePlan(def, where).value, None)
    {
      defined := CompileTokens(where);
      if defined { PlanRuns(CompilePlan(def, where).value); }
    }

    method CompileTokens(where: Option<Expr>) returns (defined: bool)
      requires ValidDef(def)
      modifies this
      ensures defined <==> CompilePlan(def, where).Some?
      ensures defined ==> code == old(code) + Emit(CompilePlan(def, where).value)
    {
      if where.None? {
        code := code + [OpenScan, Content(None), Close];
        return true;
      }
      var e := where.value;
      var opr := LeadConjunct(e);
      var key := LeadKey(def, e);
      if key.Some? {
        FirstKeyIn(def.keys, LeadColumn(opr).value);
        var kind := OperatorKind(opr);
        if StringKeyed(key.value.types[0]) && kind != Equal {
          // Nothing is written for this predicate.
        } else if |key.value.columns| == 1 {
          code := code + [OpenCursor(true, kind, Some(opr.rhs), None), Content(Some(e)), Close];
        } else {
          defined := Cursor(key.value, e, if e.And? then Some(e) else None, opr, 0);
          return;
        }
        return true;
      }
      code := code + [OpenScan, Content(Some(e)), Close];
      return true;
    }
  }

  lemma EmitRows(root: bool, kind: Kind, bound: Option<Term>, filter: Expr)
    ensures Emit(Rows(root, kind, bound, filter)) == [OpenCursor(root, kind, bound, None), Content(Some(filter)), Close]
  {}

  /** The code of the walk, level by level. */
  lemma WalkCode(key: Key, where: Expr, pos: nat)
    requires pos < |key.columns| == |key.types|
    ensures Emit(WalkPlan(key, where, pos))
            == if pos + 1 == |key.columns| then [OpenCursor(false, All, None, None), Content(Some(where)), Close]
               else [OpenCursor(false, All, None, Some(key.types[pos + 1..]))] + Emit(WalkPlan(key, where, pos + 1)) + [Close]
    ensures Emit(PartialPlan(key, where, pos))
            == if pos + 1 == |key.columns| then [OpenCursor(false, All, None, None), Content(Some(where)), Close]
               else Emit(WalkPlan(key, where, pos + 1))
  {}

  lemma EmitDescend(code: seq<Token>, root: bool, kind: Kind, bound: Option<Term>, declared: seq<string>, body: Plan)
    ensures code + [OpenCursor(root, kind, bound, Some(declared))] + Emit(body) + [Close]
            == code + Emit(Descend(root, kind, bound, declared, body))
  {}

  function Closes(n: nat): seq<Token> {
    seq(n, _ => Close)
  }

  lemma Append(code: seq<Token>, rest: seq<Token>)
    ensures code + [] == code && code + rest + Closes(0) == code + rest
  {}

  lemma CloseLevel(code: seq<Token>, n: nat)
    requires n > 0
    ensures code + Closes(n) == (code + [Close]) + Closes(n - 1)
  {
    assert Closes(n) == [Close] + Closes(n - 1);
  }

  /** Opening a level defers one more close to the end. */
  lemma OpenLevel(code: seq<Token>, token: Token, body: seq<Token>, n: nat)
    ensures code + ([token] + body + [Close]) + Closes(n) == (code + [token]) + body + Closes(n + 1)
  {
    assert Closes(n + 1) == [Close] + Closes(n);
  }
}
