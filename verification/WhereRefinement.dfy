/** When the emitted plan can run at all, and that it then yields what a filtered
    scan yields. */
module WhereRefinement {
  import opened Predicates
  import opened Plans
  import opened WhereCompilers
  import opened WhereCounts

  /** The conjuncts of a right-nested AND chain. */
  function Spine(e: Expr): seq<Expr> {
    if e.And? then [e.left] + Spine(e.right) else [e]
  }

  /** The conjuncts from `opr` on. */
  function Rest(bitwise: Option<Expr>, opr: Expr): seq<Expr> {
    if bitwise.Some? then Spine(bitwise.value) else [opr]
  }

  /** The chain does not end in an OR. */
  predicate NoOrTail(e: Expr) {
    if e.And? then NoOrTail(e.right) else !e.Or?
  }

  /** The state of the compiler inside an AND chain. */
  ghost predicate InChain(key: Key, bitwise: Option<Expr>, opr: Expr) {
    && |key.columns| == |key.types| >= 2
    && if bitwise.Some? then bitwise.value.And? && bitwise.value.left == opr && NoOrTail(bitwise.value)
       else true
  }

  /** The operand opens the level at `pos` with a bound that can be evaluated before there
      is a row. */
  predicate OpensLevel(def: TableDef, key: Key, e: Expr, pos: nat)
    requires pos < |key.columns| == |key.types|
  {
    Binds(key, e, pos) && RowFree(def, e.rhs)
  }

  /** Every conjunct but the one that meets the innermost level opens the level of its own
      column, in key order. That one must open it as well if the chain goes on past the
      key, or if it names the column at all. */
  ghost predicate UsableFrom(def: TableDef, key: Key, s: seq<Expr>, pos: nat)
    requires |key.columns| == |key.types|
  {
    var k := |key.columns|;
    && (forall i | 0 <= i < |s| && pos + i + 1 < k :: OpensLevel(def, key, s[i], pos + i))
    && pos < k
    && (pos + |s| >= k > pos ==>
          OpensLevel(def, key, s[k - 1 - pos], k - 1) || (pos + |s| == k && !Binds(key, s[k - 1 - pos], k - 1)))
  }

  lemma {:induction false} WalkLevel(key: Key, where: Expr, pos: nat, level: Option<nat>)
    requires pos < |key.columns| == |key.types|
    ensures Levelled(key.types, WalkPlan(key, where, pos), level) <==> level == Some(pos)
    decreases |key.columns| - pos
  {
    if pos + 1 < |key.columns| { WalkLevel(key, where, pos + 1, Some(pos + 1)); }
  }

  /** The connective that the right operand of a connective is, if it is one, and its
      left operand, or the right operand itself. */
  function NextBitwise(e: Expr): Option<Expr>
    requires Connective(e)
  {
    if Connective(e.right) then Some(e.right) else None
  }

  function NextOperand(e: Expr): Expr
    requires Connective(e)
  {
    if Connective(e.right) then e.right.left else e.right
  }

  /** From position pos on, every operand that is followed by another one or by a deeper
      level opens the level of its position, and so does the last one if it binds it at
      all; both operands of an OR do so at the same position, and the left one is followed
      by the right one as well. */
  predicate Usable(def: TableDef, key: Key, bitwise: Option<Expr>, opr: Expr, pos: nat)
    requires |key.columns| == |key.types| && (bitwise.Some? ==> Connective(bitwise.value))
    decreases SpineLength(bitwise)
  {
    && pos < |key.columns|
    && (OpensLevel(def, key, opr, pos) || (bitwise.None? && pos + 1 == |key.columns| && !Binds(key, opr, pos)))
    && (bitwise.Some? && pos + 1 < |key.columns| ==>
          && Usable(def, key, NextBitwise(bitwise.value), NextOperand(bitwise.value), pos + 1)
          && (bitwise.value.right.Or? ==> Usable(def, key, Some(bitwise.value.right), bitwise.value.right.right, pos + 1)))
  }

  /** The plan behind a position, in terms of the plans of the operands that follow. */
  lemma NextIs(key: Key, where: Expr, e: Expr, pos: nat)
    requires pos < |key.columns| == |key.types| && Connective(e)
    ensures var p := CursorPlan(key, where, NextBitwise(e), NextOperand(e), pos + 1);
            NextPlan(key, where, Some(e), pos)
            == if !e.right.Or? then p
               else
                 var q := CursorPlan(key, where, Some(e.right), e.right.right, pos + 1);
                 if p.None? || q.None? then None else Some(Then(p.value, q.value))
  {
    hide CursorPlan;
  }

  /** Once a position has been passed without opening its level, no later cursor
      meets its own level. */
  lemma {:induction false} Misaligned(def: TableDef, key: Key, where: Expr, bitwise: Option<Expr>, opr: Expr, pos: nat,
                                      level: Option<nat>)
    requires |key.columns| == |key.types| >= 2 && (bitwise.Some? ==> Connective(bitwise.value))
    requires pos > 0 && (level.Some? ==> level.value < pos)
    ensures !Runs(def, key, CursorPlan(key, where, bitwise, opr, pos), level)
    decreases SpineLength(bitwise)
  {
    hide NextPlan, Binds, NextBitwise, NextOperand;
    if pos < |key.columns| && !Binds(key, opr, pos) {
      if bitwise.Some? {
        NextIs(key, where, bitwise.value, pos);
        RightShorter(bitwise.value);
        Misaligned(def, key, where, NextBitwise(bitwise.value), NextOperand(bitwise.value), pos + 1, level);
      } else {
        PartialLevel(key, where, pos, level);
      }
    }
  }

  lemma RightShorter(e: Expr)
    requires Connective(e)
    ensures NextBitwise(e).Some? ==> Connective(NextBitwise(e).value)
    ensures SpineLength(NextBitwise(e)) < SpineLength(Some(e))
    ensures e.right.Or? ==> SpineLength(Some(e.right)) < SpineLength(Some(e))
  {}

  lemma {:induction false} WalkEvaluable(def: TableDef, key: Key, where: Expr, pos: nat)
    requires pos < |key.columns| == |key.types|
    ensures Evaluable(def, WalkPlan(key, where, pos)) && Evaluable(def, PartialPlan(key, where, pos))
    decreases |key.columns| - pos
  {
    if pos + 1 < |key.columns| { WalkEvaluable(def, key, where, pos + 1); }
  }

  lemma PartialLevel(key: Key, where: Expr, pos: nat, level: Option<nat>)
    requires pos < |key.columns| == |key.types|
    ensures NextPlan(key, where, None, pos) == Some(PartialPlan(key, where, pos))
    ensures Levelled(key.types, PartialPlan(key, where, pos), level)
            <==> level == Some(if pos + 1 == |key.columns| then pos else pos + 1)
  {
    if pos + 1 < |key.columns| { WalkLevel(key, where, pos + 1, level); }
  }

  /** A bound operand opens its cursor around the plan of what follows, or at the innermost
      level hands out the rows. */
  lemma BoundRuns(def: TableDef, key: Key, where: Expr, bitwise: Option<Expr>, opr: Expr, pos: nat)
    requires |key.columns| == |key.types| >= 2 && (bitwise.Some? ==> Connective(bitwise.value))
    requires pos < |key.columns| && Binds(key, opr, pos)
    ensures Runs(def, key, CursorPlan(key, where, bitwise, opr, pos), if pos == 0 then None else Some(pos))
            <==> RowFree(def, opr.rhs)
                 && (pos + 1 < |key.columns| ==> Runs(def, key, NextPlan(key, where, bitwise, pos), Some(pos + 1)))
  {
    hide NextPlan;
  }

  lemma UnboundIs(key: Key, where: Expr, bitwise: Option<Expr>, opr: Expr, pos: nat)
    requires |key.columns| == |key.types| && (bitwise.Some? ==> Connective(bitwise.value))
    requires pos < |key.columns| && !Binds(key, opr, pos)
    ensures CursorPlan(key, where, bitwise, opr, pos) == NextPlan(key, where, bitwise, pos)
  {
    hide NextPlan, Binds;
  }

  /** What follows a position runs when the plan of each operand there does. */
  lemma NextRuns(def: TableDef, key: Key, where: Expr, e: Expr, pos: nat, level: Option<nat>)
    requires pos < |key.columns| == |key.types| && Connective(e)
    ensures Runs(def, key, NextPlan(key, where, Some(e), pos), level)
            <==> Runs(def, key, CursorPlan(key, where, NextBitwise(e), NextOperand(e), pos + 1), level)
                 && (e.right.Or? ==> Runs(def, key, CursorPlan(key, where, Some(e.right), e.right.right, pos + 1), level))
  {
    hide CursorPlan, NextPlan, NextBitwise, NextOperand;
    NextIs(key, where, e, pos);
  }

  lemma PartialRuns(def: TableDef, key: Key, where: Expr, pos: nat, level: Option<nat>)
    requires pos < |key.columns| == |key.types|
    ensures Runs(def, key, NextPlan(key, where, None, pos), level)
            <==> level == Some(if pos + 1 == |key.columns| then pos else pos + 1)
  {
    PartialLevel(key, where, pos, level);
    WalkEvaluable(def, key, where, pos);
  }

  /** From a handle at the level of its position, the plan of any predicate runs exactly
      when its operands are usable. */
  lemma {:induction false} Aligned(def: TableDef, key: Key, where: Expr, bitwise: Option<Expr>, opr: Expr, pos: nat)
    requires |key.columns| == |key.types| >= 2 && (bitwise.Some? ==> Connective(bitwise.value))
    requires pos < |key.columns|
    ensures Runs(def, key, CursorPlan(key, where, bitwise, opr, pos), if pos == 0 then None else Some(pos))
            <==> Usable(def, key, bitwise, opr, pos)
    decreases SpineLength(bitwise)
  {
    hide Runs, CursorPlan, NextPlan, Binds, NextBitwise, NextOperand, RowFree;
    var level := if pos == 0 then None else Some(pos);
    if Binds(key, opr, pos) {
      BoundRuns(def, key, where, bitwise, opr, pos);
    } else {
      UnboundIs(key, where, bitwise, opr, pos);
    }
    if bitwise.None? {
      PartialRuns(def, key, where, pos, if Binds(key, opr, pos) then Some(pos + 1) else level);
    } else {
      var e := bitwise.value;
      RightShorter(e);
      if !Binds(key, opr, pos) {
        NextRuns(def, key, where, e, pos, level);
        Misaligned(def, key, where, NextBitwise(e), NextOperand(e), pos + 1, level);
      } else if pos + 1 < |key.columns| {
        NextRuns(def, key, where, e, pos, Some(pos + 1));
        Aligned(def, key, where, NextBitwise(e), NextOperand(e), pos + 1);
        if e.right.Or? { Aligned(def, key, where, Some(e.right), e.right.right, pos + 1); }
      }
    }
  }

  /** The next conjunct of a chain. */
  lemma Step(bitwise: Option<Expr>, opr: Expr) returns (next: Option<Expr>, opr': Expr, s: seq<Expr>)
    requires bitwise.Some? && bitwise.value.And? && bitwise.value.left == opr && NoOrTail(bitwise.value)
    ensures var right := bitwise.value.right;
            && !right.Or?
            && next == (if right.And? then Some(right) else None)
            && opr' == (if right.And? then right.left else right)
    ensures next.Some? ==> next.value.And? && next.value.left == opr' && NoOrTail(next.value)
    ensures SpineLength(next) < SpineLength(bitwise)
    ensures s == Rest(next, opr') && |s| > 0 && s[0] == opr' && Rest(bitwise, opr) == [opr] + s
  {
    var right := bitwise.value.right;
    next, opr' := if right.And? then Some(right) else None, if right.And? then right.left else right;
    s := Rest(next, opr');
    assert s == Spine(right);
  }

  /** In an AND chain that means that every conjunct up to the innermost level opens the
      level of its own column, in key order. */
  lemma {:induction false} ChainUsable(def: TableDef, key: Key, bitwise: Option<Expr>, opr: Expr, pos: nat)
    requires InChain(key, bitwise, opr) && pos < |key.columns|
    ensures Usable(def, key, bitwise, opr, pos) <==> UsableFrom(def, key, Rest(bitwise, opr), pos)
    decreases SpineLength(bitwise)
  {
    hide Binds, OpensLevel;
    if bitwise.None? {
      assert UsableFrom(def, key, [opr], pos) && pos + 1 < |key.columns| ==> OpensLevel(def, key, [opr][0], pos + 0);
    } else {
      var next, opr', s' := Step(bitwise, opr);
      if pos + 1 < |key.columns| {
        ChainUsable(def, key, next, opr', pos + 1);
        if OpensLevel(def, key, opr, pos) { UsableShift(def, key, opr, s', pos); }
      }
      assert ([opr] + s')[0] == opr && |s'| > 0;
      assert UsableFrom(def, key, [opr] + s', pos) ==> OpensLevel(def, key, ([opr] + s')[0], pos + 0);
    }
  }

  lemma UsableShift(def: TableDef, key: Key, opr: Expr, s: seq<Expr>, pos: nat)
    requires pos + 1 < |key.columns| == |key.types| && OpensLevel(def, key, opr, pos)
    ensures UsableFrom(def, key, [opr] + s, pos) <==> UsableFrom(def, key, s, pos + 1)
  {
    hide Binds, OpensLevel;
    var t, k := [opr] + s, |key.columns|;
    assert pos + |t| >= k ==> t[k - 1 - pos] == s[k - 2 - pos];
    if UsableFrom(def, key, t, pos) {
      forall i | 0 <= i < |s| && pos + 1 + i + 1 < k ensures OpensLevel(def, key, s[i], pos + 1 + i) {
        assert t[i + 1] == s[i] && OpensLevel(def, key, t[i + 1], pos + (i + 1));
      }
    }
    if UsableFrom(def, key, s, pos + 1) {
      forall i | 0 <= i < |t| && pos + i + 1 < k ensures OpensLevel(def, key, t[i], pos + i) {
        if i > 0 { assert t[i] == s[i - 1] && OpensLevel(def, key, s[i - 1], pos + 1 + (i - 1)); }
      }
    }
  }

  /** What a conjunct must look like for its cursor to mean what the conjunct means: what
      names a key column is a bare name, and not the qualifier of a member. */
  predicate Honest(key: Key, e: Expr) {
    (exists c | c in key.columns :: NamesColumn(e, c)) ==> e.lhs.ref.Name?
  }

  lemma {:induction false} HoldsKeepsOrder(w: World, engineType: string, op: string, x: Value, y: Value)
    requires Holds(w, op, x, y)
    requires CursorName(op) == Equal || (OrderKept(w) && !StringKeyed(engineType))
    ensures KeyMatches(CursorName(op), w.fold(engineType, x), w.fold(engineType, y))
  {
    if x < y {
      assert w.fold(engineType, x) < w.fold(engineType, y) || CursorName(op) == Equal;
    } else if y < x {
      assert w.fold(engineType, y) < w.fold(engineType, x) || CursorName(op) == Equal;
    }
  }

  lemma RowFreeValue(w: World, term: Term, row: Row)
    requires RowFree(w.def, term)
    ensures TermValue(w, term, row) == TermValue(w, term, map[])
  {}

  /** Opening a level with a conjunct loses no row the whole predicate selects. */
  lemma BindImplied(w: World, key: Key, where: Expr, opr: Expr, pos: nat)
    requires ValidKey(w.def, key) && OrderKept(w) && pos < |key.columns|
    requires OpensLevel(w.def, key, opr, pos) && Honest(key, opr)
    requires forall row: Row | Eval(w, where, row) :: Eval(w, opr, row)
    ensures Implied(w, key, where, OperatorKind(opr), Some(opr.rhs), pos)
  {
    var c := key.columns[pos];
    assert c in key.columns && NamesColumn(opr, c);
    assert opr.lhs.ref == Name(c) && c in w.def.columns && !Hosted(c);
    forall row: Row | Eval(w, where, row)
      ensures Selected(w, key.types[pos], OperatorKind(opr), Some(opr.rhs), KeyAt(w, key, pos, row))
    {
      assert Eval(w, opr, row);
      RowFreeValue(w, opr.rhs, row);
      HoldsKeepsOrder(w, key.types[pos], opr.op, Col(row, c), TermValue(w, opr.rhs, row));
    }
  }

  lemma AllImplied(w: World, key: Key, where: Expr, d: nat)
    requires d < |key.columns| == |key.types|
    ensures Implied(w, key, where, All, None, d)
  {}

  lemma {:induction false} WalkFaithful(w: World, key: Key, where: Expr, pos: nat)
    requires pos < |key.columns| == |key.types|
    ensures Faithful(w, key, where, WalkPlan(key, where, pos), pos) && !PlanRoot(WalkPlan(key, where, pos))
    decreases |key.columns| - pos
  {
    AllImplied(w, key, where, pos);
    if pos + 1 < |key.columns| { WalkFaithful(w, key, where, pos + 1); }
  }

  lemma FaithfulLast(w: World, key: Key, where: Expr, opr: Expr, pos: nat)
    requires InChain(key, None, opr) && pos < |key.columns| && ValidKey(w.def, key) && OrderKept(w)
    requires UsableFrom(w.def, key, [opr], pos) && Honest(key, opr)
    requires forall row: Row | Eval(w, where, row) :: Eval(w, opr, row)
    ensures var plan := CursorPlan(key, where, None, opr, pos);
            plan.Some? && Faithful(w, key, where, plan.value, pos) && (PlanRoot(plan.value) <==> pos == 0)
  {
    hide Implied, Honest, OrderKept;
    AllImplied(w, key, where, pos);
    assert pos + 1 < |key.columns| ==> OpensLevel(w.def, key, [opr][0], pos + 0);
    if Binds(key, opr, pos) { BindImplied(w, key, where, opr, pos); }
    if pos + 1 < |key.columns| { WalkFaithful(w, key, where, pos + 1); }
  }

  /** A bound conjunct of a chain opens a cursor around the plan of what follows. */
  lemma BoundStep(key: Key, where: Expr, bitwise: Option<Expr>, opr: Expr, pos: nat)
    requires |key.columns| == |key.types| >= 2 && pos < |key.columns|
    requires Binds(key, opr, pos) && bitwise.Some? && Connective(bitwise.value)
    ensures CursorPlan(key, where, bitwise, opr, pos)
            == if pos + 1 == |key.columns| then Some(Rows(false, OperatorKind(opr), Some(opr.rhs), where))
               else
                 var next := NextPlan(key, where, bitwise, pos);
                 if next.None? then None
                 else Some(Descend(pos == 0, OperatorKind(opr), Some(opr.rhs), key.types[pos + 1..], next.value))
  {
    hide NextPlan;
  }

  lemma {:induction false} CursorFaithful(w: World, key: Key, where: Expr, bitwise: Option<Expr>, opr: Expr, pos: nat)
    requires InChain(key, bitwise, opr) && pos < |key.columns| && ValidKey(w.def, key) && OrderKept(w)
    requires UsableFrom(w.def, key, Rest(bitwise, opr), pos)
    requires forall e | e in Rest(bitwise, opr) :: Honest(key, e)
    requires forall row: Row | Eval(w, where, row) :: Eval(w, if bitwise.Some? then bitwise.value else opr, row)
    ensures var plan := CursorPlan(key, where, bitwise, opr, pos);
            plan.Some? && Faithful(w, key, where, plan.value, pos) && (PlanRoot(plan.value) <==> pos == 0)
    decreases SpineLength(bitwise)
  {
    hide Implied, Honest, OrderKept, Binds, RowFree, ValidKey, CursorPlan, NextPlan;
    assert opr in Rest(bitwise, opr) by { assert Rest(bitwise, opr)[0] == opr; }
    if bitwise.None? {
      FaithfulLast(w, key, where, opr, pos);
    } else {
      var next, opr', s' := Step(bitwise, opr);
      assert ([opr] + s')[0] == opr && OpensLevel(w.def, key, opr, pos);
      BindImplied(w, key, where, opr, pos);
      BoundStep(key, where, bitwise, opr, pos);
      if pos + 1 < |key.columns| {
        NextIs(key, where, bitwise.value, pos);
        UsableShift(w.def, key, opr, s', pos);
        forall e | e in s' ensures Honest(key, e) {
          assert e in Rest(bitwise, opr);
        }
        CursorFaithful(w, key, where, next, opr', pos + 1);
      }
    }
  }

  /** A composite key whose hashed leading column is not compared for equality gets no
      code. */
  predicate NoCode(key: Key, e: Expr)
    requires |key.types| > 0
  {
    StringKeyed(key.types[0]) && OperatorKind(LeadConjunct(e)) != Equal
  }

  /** The plan of any predicate over a composite key runs exactly when it has no code or
      its operands are usable. */
  lemma {:induction false} CompositeRuns(def: TableDef, key: Key, e: Expr)
    requires ValidDef(def) && |key.columns| >= 2 && LeadKey(def, e) == Some(key)
    ensures |key.columns| == |key.types|
    ensures NoCode(key, e) ==> CompilePlan(def, Some(e)) == Some(Nothing)
    ensures Runs(def, key, CompilePlan(def, Some(e)), None)
            <==> NoCode(key, e) || Usable(def, key, if e.And? then Some(e) else None, LeadConjunct(e), 0)
  {
    FirstKeyIn(def.keys, LeadColumn(LeadConjunct(e)).value);
    Aligned(def, key, e, if e.And? then Some(e) else None, LeadConjunct(e), 0);
  }

  /** The composite-key plan of an AND chain uses every handle at its own level
      exactly when it has no code or the chain is usable. A usable chain refines the
      scan, in the order of the index; without code the plan refines the scan exactly
      when the scan is empty. */
  lemma {:induction false} CompositePlan(w: World, key: Key, index: Tree, e: Expr)
    requires ValidDef(w.def) && OrderKept(w) && Indexes(w, key, index)
    requires |key.columns| >= 2 && NoOrTail(e) && LeadKey(w.def, e) == Some(key)
    requires forall c | c in Spine(e) :: Honest(key, c)
    ensures var plan := CompilePlan(w.def, Some(e));
            && (Runs(w.def, key, plan, None) <==> NoCode(key, e) || UsableFrom(w.def, key, Spine(e), 0))
            && (NoCode(key, e) ==>
                  plan == Some(Nothing) && (Refines(w, key, index, e, plan.value) <==> Filter(w, e, w.rows) == []))
            && (!NoCode(key, e) && Runs(w.def, key, plan, None) ==>
                  && Exec(w, key, index, plan.value, None) == Filter(w, e, RowsOf(index))
                  && Refines(w, key, index, e, plan.value))
  {
    var bitwise, opr := if e.And? then Some(e) else None, LeadConjunct(e);
    CompositeRuns(w.def, key, e);
    ChainUsable(w.def, key, bitwise, opr, 0);
    assert Rest(bitwise, opr) == Spine(e);
    if NoCode(key, e) {
      assert Exec(w, key, index, Nothing, None) == [];
      assert multiset(Filter(w, e, w.rows)) == multiset{} <==> Filter(w, e, w.rows) == [];
    } else if UsableFrom(w.def, key, Spine(e), 0) {
      ChainExec(w, key, index, e);
    }
  }

  lemma {:induction false} ChainExec(w: World, key: Key, index: Tree, e: Expr)
    requires ValidDef(w.def) && OrderKept(w) && Indexes(w, key, index)
    requires |key.columns| >= 2 && NoOrTail(e) && LeadKey(w.def, e) == Some(key) && !NoCode(key, e)
    requires forall c | c in Spine(e) :: Honest(key, c)
    requires UsableFrom(w.def, key, Spine(e), 0) && Runs(w.def, key, CompilePlan(w.def, Some(e)), None)
    ensures var plan := CompilePlan(w.def, Some(e)).value;
            Exec(w, key, index, plan, None) == Filter(w, e, RowsOf(index)) && Refines(w, key, index, e, plan)
  {
    var bitwise, opr := if e.And? then Some(e) else None, LeadConjunct(e);
    assert Rest(bitwise, opr) == Spine(e);
    CursorFaithful(w, key, e, bitwise, opr, 0);
    ExecExact(w, key, index, e, CompilePlan(w.def, Some(e)).value, None);
    FilterMultiset(w, e, RowsOf(index), w.rows);
  }

  /** The column of a dotted reference is the row's own. */
  predicate OwnColumn(def: TableDef, e: Expr) {
    e.Compare? && e.lhs.Obj? && (e.lhs.ref.Dotted? ==> e.lhs.ref.qualifier == def.alias)
  }

  /** The plan of a one-column key runs exactly when it has no code or its cursor takes a
      bound that can be evaluated before there is a row. It then refines the scan exactly
      when the cursor meets every row that the predicate selects; without code, exactly
      when there is no such row. */
  lemma {:induction false} SingleColumnExact(w: World, key: Key, index: Tree, e: Expr)
    requires ValidDef(w.def) && Indexes(w, key, index)
    requires |key.columns| == 1 && LeadKey(w.def, e) == Some(key)
    ensures var plan, c := CompilePlan(w.def, Some(e)), LeadConjunct(e);
            && (Runs(w.def, key, plan, None) <==> NoCode(key, e) || (OperatorKind(c) != All && RowFree(w.def, c.rhs)))
            && (NoCode(key, e) ==> (Refines(w, key, index, e, plan.value) <==> forall r | r in w.rows :: !Eval(w, e, r)))
            && (!NoCode(key, e) && Runs(w.def, key, plan, None)
                ==> (Refines(w, key, index, e, plan.value)
                     <==> forall r | r in w.rows && Eval(w, e, r) ::
                            Selected(w, key.types[0], OperatorKind(c), Some(c.rhs), KeyAt(w, key, 0, r))))
  {
    FirstKeyIn(w.def.keys, LeadColumn(LeadConjunct(e)).value);
    if Runs(w.def, key, CompilePlan(w.def, Some(e)), None) { PlanExact(w, key, index, e); }
  }

  /** A single-column plan that runs refines the scan for order-preserving keys under
      every comparison and for hashed keys under equality, whatever the collisions. A
      hashed key under anything else gets no code, so its plan refines the scan exactly
      when the scan is empty. */
  lemma {:induction false} SingleColumnPlan(w: World, key: Key, index: Tree, e: Expr)
    requires ValidDef(w.def) && OrderKept(w) && Indexes(w, key, index)
    requires |key.columns| == 1 && LeadKey(w.def, e) == Some(key) && OwnColumn(w.def, LeadConjunct(e))
    ensures var plan, c := CompilePlan(w.def, Some(e)), LeadConjunct(e);
            && (Runs(w.def, key, plan, None) <==> NoCode(key, e) || (OperatorKind(c) != All && RowFree(w.def, c.rhs)))
            && (Runs(w.def, key, plan, None) ==>
                  (Refines(w, key, index, e, plan.value) <==> !NoCode(key, e) || Filter(w, e, w.rows) == []))
  {
    var c := LeadConjunct(e);
    SingleColumnExact(w, key, index, e);
    EmptyScan(w, e);
    if !NoCode(key, e) && RowFree(w.def, c.rhs) {
      LeadImplied(w, key, e, c);
    }
  }

  lemma EmptyScan(w: World, e: Expr)
    ensures Filter(w, e, w.rows) == [] <==> forall r | r in w.rows :: !Eval(w, e, r)
  {
    var scan := Filter(w, e, w.rows);
    forall r | r in w.rows && Eval(w, e, r) ensures scan != [] {
      FilterCount(w, e, w.rows, r);
      assert r in multiset(w.rows);
    }
    if forall r | r in w.rows :: !Eval(w, e, r) {
      FilterNothing(w, e, w.rows);
    }
  }

  lemma LeadImplied(w: World, key: Key, e: Expr, opr: Expr)
    requires OrderKept(w) && ValidKey(w.def, key) && opr == LeadConjunct(e)
    requires OwnColumn(w.def, opr) && RowFree(w.def, opr.rhs) && LeadColumn(opr) == Some(key.columns[0])
    requires StringKeyed(key.types[0]) ==> OperatorKind(opr) == Equal
    ensures Implied(w, key, e, OperatorKind(opr), Some(opr.rhs), 0)
  {
    var c := key.columns[0];
    assert c in key.columns;
    forall row: Row | Eval(w, e, row)
      ensures Selected(w, key.types[0], OperatorKind(opr), Some(opr.rhs), KeyAt(w, key, 0, row))
    {
      assert Eval(w, opr, row);
      assert TermValue(w, opr.lhs, row) == Col(row, c);
      RowFreeValue(w, opr.rhs, row);
      HoldsKeepsOrder(w, key.types[0], opr.op, Col(row, c), TermValue(w, opr.rhs, row));
    }
  }

  /** The cursor's own comparison of a value with its bound: that of the values, or of
      their hashes. */
  predicate CursorHolds(w: World, engineType: string, op: string, x: Value, y: Value) {
    if StringKeyed(engineType) then w.fold(engineType, x) == w.fold(engineType, y) else Holds(w, op, x, y)
  }

  /** A member of another object whose name is the key column is compared as that
      column: a plan that runs refines the scan exactly when each selected row's own
      column happens to compare like the member, on the cursor's side of its bound. */
  lemma {:induction false} ForeignMemberPlan(w: World, key: Key, index: Tree, e: Expr)
    requires ValidDef(w.def) && OrderKept(w) && Indexes(w, key, index)
    requires |key.columns| == 1 && LeadKey(w.def, e) == Some(key) && !OwnColumn(w.def, LeadConjunct(e))
    ensures var plan, c := CompilePlan(w.def, Some(e)), LeadConjunct(e);
            && c.lhs.ref.Dotted? && c.lhs.ref.member == key.columns[0]
            && (Runs(w.def, key, plan, None) <==> NoCode(key, e) || (OperatorKind(c) != All && RowFree(w.def, c.rhs)))
            && (NoCode(key, e) ==> (Refines(w, key, index, e, plan.value) <==> Filter(w, e, w.rows) == []))
            && (!NoCode(key, e) && Runs(w.def, key, plan, None) ==>
                  (Refines(w, key, index, e, plan.value)
                   <==> forall r | r in w.rows && Eval(w, e, r) ::
                          CursorHolds(w, key.types[0], c.op, Col(r, key.columns[0]), TermValue(w, c.rhs, r))))
  {
    var c := LeadConjunct(e);
    FirstKeyIn(w.def.keys, LeadColumn(c).value);
    SingleColumnExact(w, key, index, e);
    EmptyScan(w, e);
    if !NoCode(key, e) && Runs(w.def, key, CompilePlan(w.def, Some(e)), None) {
      forall r: Row
        ensures Selected(w, key.types[0], OperatorKind(c), Some(c.rhs), KeyAt(w, key, 0, r))
                <==> CursorHolds(w, key.types[0], c.op, Col(r, key.columns[0]), TermValue(w, c.rhs, r))
      {
        RowFreeValue(w, c.rhs, r);
        if !StringKeyed(key.types[0]) {
          KeysCompare(w, key.types[0], c.op, Col(r, key.columns[0]), TermValue(w, c.rhs, r));
        }
      }
    }
  }

  /** On keys that keep the order, a cursor's comparison is the comparison of values. */
  lemma KeysCompare(w: World, engineType: string, op: string, x: Value, y: Value)
    requires OrderKept(w) && !StringKeyed(engineType) && CursorName(op) != All
    ensures KeyMatches(CursorName(op), w.fold(engineType, x), w.fold(engineType, y)) <==> Holds(w, op, x, y)
  {
    if x < y {
      assert w.fold(engineType, x) < w.fold(engineType, y);
    } else if y < x {
      assert w.fold(engineType, y) < w.fold(engineType, x);
    }
  }

  /** A predicate led by anything but a comparison of a leading key column is
      answered by the scan itself; OR, BETWEEN and LIKE heads are such. */
  lemma {:induction false} ScanPlan(w: World, key: Key, index: Tree, e: Expr)
    requires ValidDef(w.def)
    ensures !LeadConjunct(e).Compare? ==> LeadKey(w.def, e).None?
    ensures LeadKey(w.def, e).None? <==> CompilePlan(w.def, Some(e)) == Some(Scan(Some(e)))
    ensures LeadKey(w.def, e).None? ==>
              Exec(w, key, index, CompilePlan(w.def, Some(e)).value, None) == Filter(w, e, w.rows)
  {
    if LeadKey(w.def, e).Some? {
      var k := LeadKey(w.def, e).value;
      FirstKeyIn(w.def.keys, LeadColumn(LeadConjunct(e)).value);
      if |k.columns| > 1 { NotScan(k, e, if e.And? then Some(e) else None, LeadConjunct(e), 0); }
    }
  }

  lemma {:induction false} NotScan(key: Key, where: Expr, bitwise: Option<Expr>, opr: Expr, pos: nat)
    requires |key.columns| == |key.types| && (bitwise.Some? ==> Connective(bitwise.value))
    ensures CursorPlan(key, where, bitwise, opr, pos).Some? ==> !CursorPlan(key, where, bitwise, opr, pos).value.Scan?
    decreases SpineLength(bitwise)
  {
    if pos < |key.columns| && bitwise.Some? {
      var right := bitwise.value.right;
      NotScan(key, where, if Connective(right) then Some(right) else None,
              if Connective(right) then right.left else right, pos + 1);
    }
  }

  // ------------------------------------------------------------------
  // Inputs on which the emitted plan does not yield what the predicate selects.

  const PLAIN := "Long"

  function Identity(engineType: string, v: Value): int {
    v
  }

  function SampleWorld(columns: seq<string>, row: Row): World {
    World(TableDef("t", {"a", "b"}, [Key("k", columns, seq(|columns|, _ => PLAIN))]), _ => 5, Identity, (_, _, _) => false, [row])
  }

  /** `a == 1 AND (b == 2 OR b == 2)` over the key (a, b) of a table with one row. */
  function SampleRow(): Row {
    map["a" := 1, "b" := 2]
  }

  function OrTail(): Expr {
    var b2 := Compare("==", Obj(Name("b")), Outside(2));
    And(Compare("==", Obj(Name("a")), Outside(1)), Or(b2, b2))
  }

  function OrTailInner(): Plan {
    Rows(false, Equal, Some(Outside(2)), OrTail())
  }

  function OrTailOuter(): Plan {
    Descend(true, Equal, Some(Outside(1)), [PLAIN], Then(OrTailInner(), OrTailInner()))
  }

  lemma OrTailCompiled(w: World)
    requires w == SampleWorld(["a", "b"], SampleRow())
    ensures LeadKey(w.def, OrTail()) == Some(w.def.keys[0])
    ensures CompilePlan(w.def, Some(OrTail())) == Some(OrTailOuter())
    ensures Runs(w.def, w.def.keys[0], Some(OrTailOuter()), None)
  {
    var key, e := w.def.keys[0], OrTail();
    assert key.types[1..] == [PLAIN];
    assert CursorPlan(key, e, None, e.right.left, 1) == Some(OrTailInner());
    assert Evaluable(w.def, OrTailInner()) && Levelled(key.types, OrTailInner(), Some(1));
    var both := Then(OrTailInner(), OrTailInner());
    assert Evaluable(w.def, both) && Levelled(key.types, both, Some(1));
    assert NextPlan(key, e, Some(e), 0) == Some(Then(OrTailInner(), OrTailInner()));
  }

  lemma SampleIndexed(w: World, key: Key, leaf: Tree, index: Tree)
    requires w == SampleWorld(["a", "b"], SampleRow()) && key == w.def.keys[0]
    requires leaf == Leaf([(2, SampleRow())]) && index == Node(Branch(1, leaf, Empty))
    ensures ValidDef(w.def) && OrderKept(w) && Indexes(w, key, index)
  {
    assert EntryRows([(2, SampleRow())]) == [SampleRow()];
    assert RowsOf(leaf) == [SampleRow()] && RowsOf(index) == [SampleRow()] by {
      assert ForestRows(Empty) == [] && ForestRows(Branch(1, leaf, Empty)) == [SampleRow()];
    }
  }

  lemma OrTailRun(w: World, key: Key, leaf: Tree, index: Tree)
    requires w == SampleWorld(["a", "b"], SampleRow()) && key == w.def.keys[0]
    requires leaf == Leaf([(2, SampleRow())]) && index == Node(Branch(1, leaf, Empty))
    ensures Exec(w, key, index, OrTailOuter(), None) == [SampleRow(), SampleRow()]
    ensures Filter(w, OrTail(), w.rows) == [SampleRow()]
  {
    OneEntry(w, PLAIN, Some(Outside(2)), OrTail(), 2, SampleRow());
    assert key.types[1] == PLAIN && Eval(w, OrTail(), SampleRow());
    RunTwice(w, key, index, OrTailInner(), OrTailOuter(), leaf, SampleRow());
  }

  /** An OR after a bound prefix opens one cursor per operand, and a row that both
      operands select comes out twice. */
  lemma OrTailRepeatsRows()
    ensures exists w: World, key: Key, index: Tree, e: Expr ::
              && ValidDef(w.def) && OrderKept(w) && Indexes(w, key, index) && LeadKey(w.def, e) == Some(key)
              && !NoOrTail(e) && Runs(w.def, key, CompilePlan(w.def, Some(e)), None)
              && !Refines(w, key, index, e, CompilePlan(w.def, Some(e)).value)
  {
    hide CompilePlan, LeadKey, Runs, Indexes, OrderKept, ValidDef, Exec, Filter, OrTailOuter;
    var row := SampleRow();
    var w := SampleWorld(["a", "b"], row);
    var key, leaf := w.def.keys[0], Leaf([(2, row)]);
    var index := Node(Branch(1, leaf, Empty));
    OrTailCompiled(w);
    SampleIndexed(w, key, leaf, index);
    OrTailRun(w, key, leaf, index);
    assert multiset([row, row])[row] == 2 && multiset([row])[row] == 1;
    assert !Refines(w, key, index, OrTail(), OrTailOuter());
  }

  lemma RunTwice(w: World, key: Key, index: Tree, inner: Plan, plan: Plan, leaf: Tree, row: Row)
    requires plan.Descend? && plan.root && plan.body == Then(inner, inner) && |key.types| == 2
    requires index == Node(Branch(1, leaf, Empty)) && Selected(w, key.types[0], plan.kind, plan.bound, 1)
    requires Exec(w, key, index, inner, Some(Handle(leaf, 1))) == [row]
    ensures Exec(w, key, index, plan, None) == [row, row]
  {
    assert Exec(w, key, index, Then(inner, inner), Some(Handle(leaf, 1))) == [row, row];
    assert ExecForest(w, key, index, plan, 0, Empty) == [];
    assert ExecForest(w, key, index, plan, 0, Branch(1, leaf, Empty)) == [row, row];
  }

  lemma OneEntry(w: World, engineType: string, bound: Option<Term>, filter: Expr, x: int, row: Row)
    ensures EntryRows([(x, row)]) == [row]
    ensures ExecEntries(w, engineType, Equal, bound, filter, [(x, row)])
            == if Selected(w, engineType, Equal, bound, x) && Eval(w, filter, row) then [row] else []
  {
    var entries := [(x, row)];
    assert entries[1..] == [];
    assert ExecEntries(w, engineType, Equal, bound, filter, []) == [];
  }

  /** A bound that names the row's own columns stands before the row is declared, and an
      operator that is no comparison gives its bound to a cursor that takes none. */
  lemma BoundsWithoutCode()
    ensures exists w: World, key: Key, e: Expr ::
              && ValidDef(w.def) && LeadKey(w.def, e) == Some(key) && OperatorKind(e) == Equal
              && !Runs(w.def, key, CompilePlan(w.def, Some(e)), None)
    ensures exists w: World, key: Key, e: Expr ::
              && ValidDef(w.def) && LeadKey(w.def, e) == Some(key) && e.Compare? && RowFree(w.def, e.rhs)
              && !Runs(w.def, key, CompilePlan(w.def, Some(e)), None)
  {
    hide CompilePlan, LeadKey, Runs, ValidDef;
    var w := SampleWorld(["a"], map["a" := 7]);
    BoundCompiled(w, "==", Obj(Name("b")));
    BoundCompiled(w, "%", Outside(2));
  }

  lemma BoundCompiled(w: World, op: string, bound: Term)
    requires w == SampleWorld(["a"], map["a" := 7]) && (op == "==" || op == "%")
    ensures var key, e := w.def.keys[0], Compare(op, Obj(Name("a")), bound);
            && ValidDef(w.def) && LeadKey(w.def, e) == Some(key)
            && (Runs(w.def, key, CompilePlan(w.def, Some(e)), None) <==> op == "==" && RowFree(w.def, bound))
  {
    var e := Compare(op, Obj(Name("a")), bound);
    assert !StringKeyed(PLAIN) by {
      assert PLAIN[..4][0] == 'L' && "TEXT"[0] == 'T';
      assert !Contains(PLAIN[1..], "TEXT");
    }
    assert CompilePlan(w.def, Some(e)) == Some(Rows(true, CursorName(op), Some(bound), e));
  }

  /** A member of another object whose name is a leading key column is taken for
      that column, and rows are lost. */
  lemma ForeignMemberLosesRows()
    ensures exists w: World, key: Key, index: Tree, e: Expr ::
              && ValidDef(w.def) && OrderKept(w) && Indexes(w, key, index) && LeadKey(w.def, e) == Some(key)
              && !OwnColumn(w.def, LeadConjunct(e)) && Runs(w.def, key, CompilePlan(w.def, Some(e)), None)
              && !Refines(w, key, index, e, CompilePlan(w.def, Some(e)).value)
  {
    hide CompilePlan, LeadKey, Runs, Indexes, OrderKept, ValidDef, Exec, Filter, Refines, OwnColumn;
    var row: Row := map["a" := 7];
    var w := SampleWorld(["a"], row);
    var key := w.def.keys[0];
    var index := Leaf([(7, row)]);
    var e := Compare("==", Obj(Dotted("@o", "a")), Outside(5));
    ForeignCompiled(w, e);
    ForeignIndexed(w, key, row, index);
    ForeignLost(w, key, row, index, e);
  }

  lemma ForeignCompiled(w: World, e: Expr)
    requires w.def == SampleWorld(["a"], map["a" := 7]).def && e == Compare("==", Obj(Dotted("@o", "a")), Outside(5))
    ensures ValidDef(w.def) && LeadKey(w.def, e) == Some(w.def.keys[0]) && !OwnColumn(w.def, LeadConjunct(e))
    ensures CompilePlan(w.def, Some(e)) == Some(Rows(true, Equal, Some(Outside(5)), e))
    ensures Runs(w.def, w.def.keys[0], CompilePlan(w.def, Some(e)), None)
  {
    assert e.lhs.ref.qualifier[0] == '@';
  }

  lemma ForeignIndexed(w: World, key: Key, row: Row, index: Tree)
    requires w == SampleWorld(["a"], row) && row == map["a" := 7] && key == w.def.keys[0] && index == Leaf([(7, row)])
    ensures OrderKept(w) && Indexes(w, key, index)
  {
    assert [(7, row)][1..] == [] && EntryRows([(7, row)]) == [row];
  }

  lemma ForeignLost(w: World, key: Key, row: Row, index: Tree, e: Expr)
    requires w == SampleWorld(["a"], row) && row == map["a" := 7] && key == w.def.keys[0] && index == Leaf([(7, row)])
    requires e == Compare("==", Obj(Dotted("@o", "a")), Outside(5))
    ensures !Refines(w, key, index, e, Rows(true, Equal, Some(Outside(5)), e))
  {
    OneEntry(w, PLAIN, Some(Outside(5)), e, 7, row);
    assert "@o" != "t" by { assert "@o"[0] != "t"[0]; }
    assert Exec(w, key, index, Rows(true, Equal, Some(Outside(5)), e), None) == [];
    assert Filter(w, e, w.rows) == [row];
    assert multiset([row])[row] == 1;
  }
}
