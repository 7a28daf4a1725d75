/** Predicates with an OR over a composite key: what the plan yields in terms of the
    predicate alone, and exactly when that is what the scan yields. */
module WhereOrTails {
  import opened Predicates
  import opened Plans
  import opened WhereCompilers
  import opened WhereCounts
  import opened WhereRefinement

  /** The cursor of an operand at position pos reaches the row's key. */
  predicate Hits(w: World, key: Key, e: Expr, pos: nat, row: Row)
    requires |key.columns| == |key.types|
  {
    e.Compare? && Meets(w, key, OperatorKind(e), Some(e.rhs), pos, row)
  }

  function One(b: bool): nat {
    if b then 1 else 0
  }

  /** How many cursors of the operands from position pos on reach a row. */
  function Reached(w: World, key: Key, bitwise: Option<Expr>, opr: Expr, pos: nat, row: Row): nat
    requires |key.columns| == |key.types| && (bitwise.Some? ==> Connective(bitwise.value))
    decreases SpineLength(bitwise)
  {
    if pos >= |key.columns| then 0
    else if Binds(key, opr, pos) && !Hits(w, key, opr, pos, row) then 0
    else if bitwise.None? || pos + 1 == |key.columns| then 1
    else
      var e := bitwise.value;
      Reached(w, key, NextBitwise(e), NextOperand(e), pos + 1, row)
      + if e.right.Or? then Reached(w, key, Some(e.right), e.right.right, pos + 1, row) else 0
  }

  lemma {:induction false} WalkVisits(w: World, key: Key, where: Expr, pos: nat, row: Row)
    requires pos < |key.columns| == |key.types|
    ensures Visits(w, key, WalkPlan(key, where, pos), pos, row) == 1
    decreases |key.columns| - pos
  {
    if pos + 1 < |key.columns| { WalkVisits(w, key, where, pos + 1, row); }
  }

  lemma PartialVisits(w: World, key: Key, where: Expr, pos: nat, row: Row)
    requires pos < |key.columns| == |key.types|
    ensures Visits(w, key, PartialPlan(key, where, pos), if pos + 1 == |key.columns| then pos else pos + 1, row) == 1
  {
    if pos + 1 < |key.columns| { WalkVisits(w, key, where, pos + 1, row); }
  }

  /** A bound operand above the innermost level opens its cursor around what follows. */
  lemma BoundVisits(w: World, key: Key, where: Expr, bitwise: Option<Expr>, opr: Expr, pos: nat, row: Row)
    requires |key.columns| == |key.types| && (bitwise.Some? ==> Connective(bitwise.value))
    requires pos + 1 < |key.columns| && Binds(key, opr, pos) && NextPlan(key, where, bitwise, pos).Some?
    ensures var plan := CursorPlan(key, where, bitwise, opr, pos);
            && plan.Some?
            && Visits(w, key, plan.value, pos, row)
               == if Hits(w, key, opr, pos, row)
                  then Visits(w, key, NextPlan(key, where, bitwise, pos).value, pos + 1, row) else 0
  {
    hide NextPlan, Meets;
  }

  /** At the innermost level a cursor hands out the rows. */
  lemma InnerVisits(w: World, key: Key, where: Expr, bitwise: Option<Expr>, opr: Expr, pos: nat, row: Row)
    requires 0 < pos < pos + 1 == |key.columns| == |key.types| && (bitwise.Some? ==> Connective(bitwise.value))
    requires Binds(key, opr, pos) || bitwise.None?
    ensures var plan := CursorPlan(key, where, bitwise, opr, pos);
            plan.Some? && Visits(w, key, plan.value, pos, row) == One(Binds(key, opr, pos) ==> Hits(w, key, opr, pos, row))
  {
    PartialLevel(key, where, pos, None);
    PartialVisits(w, key, where, pos, row);
  }

  /** The plan's cursors are the operands'. */
  lemma {:induction false} VisitsReached(w: World, key: Key, where: Expr, bitwise: Option<Expr>, opr: Expr, pos: nat, row: Row)
    requires |key.columns| == |key.types| >= 2 && (bitwise.Some? ==> Connective(bitwise.value))
    requires Usable(w.def, key, bitwise, opr, pos)
    ensures var plan := CursorPlan(key, where, bitwise, opr, pos);
            plan.Some? && Visits(w, key, plan.value, pos, row) == Reached(w, key, bitwise, opr, pos, row)
    decreases SpineLength(bitwise)
  {
    hide CursorPlan, NextPlan, Visits, Binds, NextBitwise, NextOperand, PartialPlan, Meets;
    if pos + 1 == |key.columns| {
      InnerVisits(w, key, where, bitwise, opr, pos, row);
    } else if bitwise.None? {
      PartialLevel(key, where, pos, None);
      PartialVisits(w, key, where, pos, row);
      BoundVisits(w, key, where, bitwise, opr, pos, row);
    } else {
      var e := bitwise.value;
      RightShorter(e);
      VisitsReached(w, key, where, NextBitwise(e), NextOperand(e), pos + 1, row);
      if e.right.Or? { VisitsReached(w, key, where, Some(e.right), e.right.right, pos + 1, row); }
      NextVisits(w, key, where, e, pos, row);
      BoundVisits(w, key, where, bitwise, opr, pos, row);
    }
  }

  lemma NextVisits(w: World, key: Key, where: Expr, e: Expr, pos: nat, row: Row)
    requires pos < |key.columns| == |key.types| && Connective(e)
    requires CursorPlan(key, where, NextBitwise(e), NextOperand(e), pos + 1).Some?
    requires e.right.Or? ==> CursorPlan(key, where, Some(e.right), e.right.right, pos + 1).Some?
    ensures NextPlan(key, where, Some(e), pos).Some?
    ensures Visits(w, key, NextPlan(key, where, Some(e), pos).value, pos + 1, row)
            == Visits(w, key, CursorPlan(key, where, NextBitwise(e), NextOperand(e), pos + 1).value, pos + 1, row)
               + if e.right.Or?
                 then Visits(w, key, CursorPlan(key, where, Some(e.right), e.right.right, pos + 1).value, pos + 1, row) else 0
  {
    hide CursorPlan, NextPlan, NextBitwise, NextOperand, Meets;
    NextIs(key, where, e, pos);
  }

  function Chain(e: Expr): Option<Expr> {
    if e.And? then Some(e) else None
  }

  /** Any predicate over a composite key: its plan runs exactly when it has no code or its
      operands are usable. Without code it refines the scan exactly when no row is
      selected; otherwise it yields each selected row once for every cursor of the
      operands that reaches it, so it refines the scan exactly when that is one for each
      selected row of the table. */
  lemma {:induction false} CompositeExact(w: World, key: Key, index: Tree, e: Expr)
    requires ValidDef(w.def) && Indexes(w, key, index)
    requires |key.columns| >= 2 && LeadKey(w.def, e) == Some(key)
    ensures var plan, opr := CompilePlan(w.def, Some(e)), LeadConjunct(e);
            && (Runs(w.def, key, plan, None) <==> NoCode(key, e) || Usable(w.def, key, Chain(e), opr, 0))
            && (NoCode(key, e) ==> (Refines(w, key, index, e, plan.value) <==> forall row | row in w.rows :: !Eval(w, e, row)))
            && (!NoCode(key, e) && Runs(w.def, key, plan, None) ==>
                  && (forall row: Row :: Counted(w, e, Exec(w, key, index, plan.value, None), w.rows, row,
                                                 Reached(w, key, Chain(e), opr, 0, row)))
                  && (Refines(w, key, index, e, plan.value)
                      <==> forall row | row in w.rows && Eval(w, e, row) :: Reached(w, key, Chain(e), opr, 0, row) == 1))
  {
    hide Exec, Counted, Eval, Indexes, Levelled, Reached, Usable, CursorPlan, Refines, NoCode, Meets;
    var plan, opr := CompilePlan(w.def, Some(e)), LeadConjunct(e);
    CompositeRuns(w.def, key, e);
    if Runs(w.def, key, plan, None) {
      PlanExact(w, key, index, e);
      FirstKeyIn(w.def.keys, LeadColumn(opr).value);
      if !NoCode(key, e) {
        CodeEmitted(w.def, key, e);
        forall row: Row ensures Visits(w, key, plan.value, 0, row) == Reached(w, key, Chain(e), opr, 0, row) {
          VisitsReached(w, key, e, Chain(e), opr, 0, row);
        }
      }
    }
  }

  lemma CodeEmitted(def: TableDef, key: Key, e: Expr)
    requires ValidDef(def) && |key.columns| >= 2 && |key.types| > 0 && LeadKey(def, e) == Some(key) && !NoCode(key, e)
    ensures |key.columns| == |key.types|
    ensures CompilePlan(def, Some(e)) == CursorPlan(key, e, Chain(e), LeadConjunct(e), 0)
  {
    FirstKeyIn(def.keys, LeadColumn(LeadConjunct(e)).value);
  }

  // ------------------------------------------------------------------
  // An OR at the end of an AND chain.

  predicate HasOrTail(e: Expr) {
    e.And? && (e.right.Or? || HasOrTail(e.right))
  }

  /** The conjuncts before the OR, and the OR. */
  function Prefix(e: Expr): (s: seq<Expr>)
    requires HasOrTail(e)
    ensures |s| > 0 && s[0] == e.left
  {
    [e.left] + if e.right.Or? then [] else Prefix(e.right)
  }

  function OrOf(e: Expr): (or: Expr)
    requires HasOrTail(e)
    ensures or.Or?
  {
    if e.right.Or? then e.right else OrOf(e.right)
  }

  /** The cursor that follows both operands of an OR at position n, if one does. */
  predicate Followed(w: World, key: Key, r: Expr, n: nat, row: Row)
    requires |key.columns| == |key.types|
  {
    n + 1 < |key.columns| && Binds(key, r, n + 1) ==> Hits(w, key, r, n + 1, row)
  }

  /** How many of the cursors of an OR at position n reach a row: those of its two
      operands, unless the chain before it has used up the key. */
  function Operands(w: World, key: Key, or: Expr, n: nat, row: Row): nat
    requires |key.columns| == |key.types| && or.Or?
  {
    if n >= |key.columns| then 1
    else if !Followed(w, key, or.right, n, row) then 0
    else One(Hits(w, key, or.left, n, row)) + One(Hits(w, key, or.right, n, row))
  }

  /** When the plan of such a chain runs: every conjunct opens the level of its column, both
      operands open the next one, and the right one also the one after that if there are
      more. */
  predicate OrUsable(def: TableDef, key: Key, s: seq<Expr>, or: Expr, pos: nat)
    requires |key.columns| == |key.types| && or.Or?
  {
    var k, n := |key.columns|, pos + |s|;
    && (forall i | 0 <= i < |s| && pos + i < k :: OpensLevel(def, key, s[i], pos + i))
    && (n < k ==> OpensLevel(def, key, or.left, n) && OpensLevel(def, key, or.right, n))
    && (n + 2 < k ==> Binds(key, or.right, n + 1))
  }

  lemma OrUsableStep(def: TableDef, key: Key, opr: Expr, s: seq<Expr>, or: Expr, pos: nat)
    requires pos < |key.columns| == |key.types| && or.Or?
    ensures OrUsable(def, key, [opr] + s, or, pos) <==> OpensLevel(def, key, opr, pos) && OrUsable(def, key, s, or, pos + 1)
  {
    hide OpensLevel;
    var t, k := [opr] + s, |key.columns|;
    if OrUsable(def, key, t, or, pos) {
      assert OpensLevel(def, key, t[0], pos + 0);
      forall i | 0 <= i < |s| && pos + 1 + i < k ensures OpensLevel(def, key, s[i], pos + 1 + i) {
        assert t[i + 1] == s[i] && OpensLevel(def, key, t[i + 1], pos + (i + 1));
      }
    }
    if OpensLevel(def, key, opr, pos) && OrUsable(def, key, s, or, pos + 1) {
      forall i | 0 <= i < |t| && pos + i < k ensures OpensLevel(def, key, t[i], pos + i) {
        if i > 0 { assert t[i] == s[i - 1] && OpensLevel(def, key, s[i - 1], pos + 1 + (i - 1)); }
      }
    }
  }

  lemma BindsCursor(key: Key, e: Expr, pos: nat)
    requires pos < |key.columns| == |key.types|
    ensures Binds(key, e, pos) ==> e.Compare? && OperatorKind(e) != All
  {}

  /** The operands of the OR itself. */
  lemma OrReached(w: World, key: Key, or: Expr, n: nat, row: Row)
    requires |key.columns| == |key.types| && or.Or? && n < |key.columns|
    ensures OrUsable(w.def, key, [], or, n)
            <==> Usable(w.def, key, Some(or), or.left, n) && Usable(w.def, key, Some(or), or.right, n)
    ensures OrUsable(w.def, key, [], or, n)
            ==> Operands(w, key, or, n, row)
                == Reached(w, key, Some(or), or.left, n, row) + Reached(w, key, Some(or), or.right, n, row)
  {
    hide Binds, Meets;
    BindsCursor(key, or.right, n);
  }

  /** The cursors of the conjuncts from position pos on reach a row. */
  ghost predicate AllHit(w: World, key: Key, s: seq<Expr>, pos: nat, row: Row)
    requires |key.columns| == |key.types|
  {
    forall i | 0 <= i < |s| && pos + i < |key.columns| :: Hits(w, key, s[i], pos + i, row)
  }

  lemma AllHitStep(w: World, key: Key, opr: Expr, s: seq<Expr>, pos: nat, row: Row)
    requires pos < |key.columns| == |key.types| && AllHit(w, key, [opr] + s, pos, row)
    ensures Hits(w, key, opr, pos, row) && AllHit(w, key, s, pos + 1, row)
  {
    hide Hits;
    var t := [opr] + s;
    assert Hits(w, key, t[0], pos + 0, row);
    forall i | 0 <= i < |s| && pos + 1 + i < |key.columns| ensures Hits(w, key, s[i], pos + 1 + i, row) {
      assert t[i + 1] == s[i] && Hits(w, key, t[i + 1], pos + (i + 1), row);
    }
  }

  /** The chain before it runs when it is usable, and lets every row through that its
      cursors reach. */
  lemma {:induction false} TailReached(w: World, key: Key, e: Expr, pos: nat, row: Row)
    requires |key.columns| == |key.types| && HasOrTail(e) && pos < |key.columns|
    ensures Usable(w.def, key, Some(e), e.left, pos) <==> OrUsable(w.def, key, Prefix(e), OrOf(e), pos)
    ensures OrUsable(w.def, key, Prefix(e), OrOf(e), pos) && AllHit(w, key, Prefix(e), pos, row)
            ==> Reached(w, key, Some(e), e.left, pos, row) == Operands(w, key, OrOf(e), pos + |Prefix(e)|, row)
    decreases e
  {
    hide Binds, Hits, OrUsable, AllHit, Operands;
    var s := if e.right.Or? then [] else Prefix(e.right);
    assert Prefix(e) == [e.left] + s;
    OrUsableStep(w.def, key, e.left, s, OrOf(e), pos);
    if AllHit(w, key, Prefix(e), pos, row) { AllHitStep(w, key, e.left, s, pos, row); }
    if pos + 1 < |key.columns| {
      if e.right.Or? {
        OrReached(w, key, e.right, pos + 1, row);
      } else {
        TailReached(w, key, e.right, pos + 1, row);
      }
    } else {
      PastKey(w, key, s, OrOf(e), pos + 1, row);
    }
  }

  lemma PastKey(w: World, key: Key, s: seq<Expr>, or: Expr, pos: nat, row: Row)
    requires |key.columns| == |key.types| <= pos && or.Or?
    ensures OrUsable(w.def, key, s, or, pos) && Operands(w, key, or, pos + |s|, row) == 1
  {}

  lemma PrefixHolds(w: World, e: Expr, row: Row)
    requires HasOrTail(e) && Eval(w, e, row)
    ensures forall c | c in Prefix(e) :: Eval(w, c, row)
    ensures Eval(w, OrOf(e).left, row) || Eval(w, OrOf(e).right, row)
  {
    if !e.right.Or? { PrefixHolds(w, e.right, row); }
  }

  lemma HoldsHits(w: World, key: Key, c: Expr, pos: nat, row: Row)
    requires ValidKey(w.def, key) && OrderKept(w) && pos < |key.columns|
    requires OpensLevel(w.def, key, c, pos) && Honest(key, c) && Eval(w, c, row)
    ensures Hits(w, key, c, pos, row)
  {
    hide OrderKept, Honest, ValidKey, Eval;
    BindImplied(w, key, c, c, pos);
  }

  ghost predicate HonestTail(key: Key, e: Expr)
    requires HasOrTail(e)
  {
    (forall c | c in Prefix(e) :: Honest(key, c)) && Honest(key, OrOf(e).left) && Honest(key, OrOf(e).right)
  }

  /** The cursors of a usable chain reach every row that it selects, and at least one
      operand's does. */
  lemma SelectedHit(w: World, key: Key, e: Expr, row: Row)
    requires ValidKey(w.def, key) && OrderKept(w) && HasOrTail(e) && HonestTail(key, e)
    requires OrUsable(w.def, key, Prefix(e), OrOf(e), 0) && Eval(w, e, row)
    ensures AllHit(w, key, Prefix(e), 0, row)
    ensures var n := |Prefix(e)|;
            n < |key.columns| ==> Hits(w, key, OrOf(e).left, n, row) || Hits(w, key, OrOf(e).right, n, row)
  {
    hide Binds, Hits, Eval, Honest, OrderKept;
    PrefixHolds(w, e, row);
    var s, or, n := Prefix(e), OrOf(e), |Prefix(e)|;
    forall i | 0 <= i < |s| && 0 + i < |key.columns| ensures Hits(w, key, s[i], 0 + i, row) {
      assert s[i] in s && OpensLevel(w.def, key, s[i], 0 + i);
      HoldsHits(w, key, s[i], i, row);
    }
    if n < |key.columns| {
      HoldsHits(w, key, if Eval(w, or.left, row) then or.left else or.right, n, row);
    }
  }

  /** An AND chain that ends in an OR, over a composite key: when its plan runs, how
      often it yields each row, and when it refines the scan. Unless the key names the
      right operand's column twice in a row, that is when no selected row of the table
      is reached by the cursors of both operands. */
  lemma {:induction false} OrTailPlan(w: World, key: Key, index: Tree, e: Expr)
    requires ValidDef(w.def) && OrderKept(w) && Indexes(w, key, index)
    requires |key.columns| >= 2 && LeadKey(w.def, e) == Some(key)
    requires HasOrTail(e) && HonestTail(key, e)
    ensures var plan, or, n := CompilePlan(w.def, Some(e)), OrOf(e), |Prefix(e)|;
            && (Runs(w.def, key, plan, None) <==> NoCode(key, e) || OrUsable(w.def, key, Prefix(e), or, 0))
            && (NoCode(key, e) ==> (Refines(w, key, index, e, plan.value) <==> forall row | row in w.rows :: !Eval(w, e, row)))
            && (!NoCode(key, e) && Runs(w.def, key, plan, None) ==>
                  && (forall row: Row ::
                        Counted(w, e, Exec(w, key, index, plan.value, None), w.rows, row, Operands(w, key, or, n, row)))
                  && (Refines(w, key, index, e, plan.value)
                      <==> forall row | row in w.rows && Eval(w, e, row) :: Operands(w, key, or, n, row) == 1)
                  && (!(n + 1 < |key.columns| && Binds(key, or.right, n + 1)) ==>
                        (Refines(w, key, index, e, plan.value)
                         <==> n >= |key.columns|
                              || forall row | row in w.rows && Eval(w, e, row) ::
                                   !(Hits(w, key, or.left, n, row) && Hits(w, key, or.right, n, row)))))
  {
    hide Exec, Eval, Indexes, Levelled, Reached, Usable, CompilePlan, Refines;
    hide OrUsable, Operands, HonestTail, Binds, Hits, NoCode;
    var plan, or, n := CompilePlan(w.def, Some(e)), OrOf(e), |Prefix(e)|;
    FirstKeyIn(w.def.keys, LeadColumn(LeadConjunct(e)).value);
    CompositeExact(w, key, index, e);
    TailReached(w, key, e, 0, map[]);
    if !NoCode(key, e) && Runs(w.def, key, plan, None) {
      forall row: Row | Eval(w, e, row)
        ensures Reached(w, key, Some(e), e.left, 0, row) == Operands(w, key, or, n, row)
        ensures !(n + 1 < |key.columns| && Binds(key, or.right, n + 1)) ==>
                  (Operands(w, key, or, n, row) == 1
                   <==> n >= |key.columns| || !(Hits(w, key, or.left, n, row) && Hits(w, key, or.right, n, row)))
      {
        SelectedHit(w, key, e, row);
        TailReached(w, key, e, 0, row);
        OneOperand(w, key, or, n, row);
      }
      forall row: Row
        ensures Counted(w, e, Exec(w, key, index, plan.value, None), w.rows, row, Operands(w, key, or, n, row))
      {
        assert Counted(w, e, Exec(w, key, index, plan.value, None), w.rows, row, Reached(w, key, Some(e), e.left, 0, row));
      }
    }
  }

  lemma OneOperand(w: World, key: Key, or: Expr, n: nat, row: Row)
    requires |key.columns| == |key.types| && or.Or?
    requires n < |key.columns| ==> Hits(w, key, or.left, n, row) || Hits(w, key, or.right, n, row)
    ensures !(n + 1 < |key.columns| && Binds(key, or.right, n + 1)) ==>
              (Operands(w, key, or, n, row) == 1
               <==> n >= |key.columns| || !(Hits(w, key, or.left, n, row) && Hits(w, key, or.right, n, row)))
  {}
}
