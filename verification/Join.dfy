/**
  Joining two operands of one && or || level into a single operand.
 */
module Joins {
  import opened Expressions
  import opened Eliminate

  predicate Joinable(e: Expr) {
    e.Symbol? || e.Not? || (e.Comp? && (e.rel.Eq? || e.rel.Neq?))
  }

  /** The symbol the first operand is about; the inner expression of a
      negation may be a symbol or an (un)equality. */
  function FirstSubject(e: Expr): Option<Sym>
    requires Joinable(e)
  {
    match e
    case Symbol(s) => Some(s)
    case Comp(_, l, _) => Some(l)
    case Not(Symbol(s)) => Some(s)
    case Not(Comp(rel, l, _)) => if rel.Eq? || rel.Neq? then Some(l) else None
    case Not(_) => None
  }

  /** The symbol the second operand is about; only a plain symbol may be negated. */
  function SecondSubject(e: Expr): Option<Sym>
    requires Joinable(e)
  {
    match e
    case Symbol(s) => Some(s)
    case Comp(_, l, _) => Some(l)
    case Not(Symbol(s)) => Some(s)
    case Not(_) => None
  }

  predicate IsComp(e: Expr, rel: Rel, c: Sym) {
    e.Comp? && e.rel == rel && e.rhs == c
  }

  /** Both operands compare by `rel`, one with a and the other with b. */
  predicate BothComp(e1: Expr, e2: Expr, rel: Rel, a: Sym, b: Sym) {
    (IsComp(e1, rel, a) && IsComp(e2, rel, b)) || (IsComp(e1, rel, b) && IsComp(e2, rel, a))
  }

  /** One operand is a plain symbol and the other compares by `rel` with c. */
  predicate SymAndComp(e1: Expr, e2: Expr, rel: Rel, c: Sym) {
    (e1.Symbol? && IsComp(e2, rel, c)) || (e2.Symbol? && IsComp(e1, rel, c))
  }

  function JoinOr(s: Sym, e1: Expr, e2: Expr): Option<Expr> {
    if s.Type().Tristate? && BothComp(e1, e2, Eq, SymYes, SymMod) then Some(Comp(Neq, s, SymNo))
    else if s.Type().Tristate? && BothComp(e1, e2, Eq, SymYes, SymNo) then Some(Comp(Neq, s, SymMod))
    else if s.Type().Tristate? && BothComp(e1, e2, Eq, SymMod, SymNo) then Some(Comp(Neq, s, SymYes))
    else if s.Type().Boolean? &&
      ((e1.Not? && e1.arg.Symbol? && e2.Symbol?) || (e2.Not? && e2.arg.Symbol? && e1.Symbol?))
    then Some(Symbol(SymYes))
    else None
  }

  function JoinAnd(s: Sym, e1: Expr, e2: Expr): Option<Expr> {
    if SymAndComp(e1, e2, Eq, SymYes) then Some(Comp(Eq, s, SymYes))
    else if SymAndComp(e1, e2, Neq, SymNo) then Some(Symbol(s))
    else if SymAndComp(e1, e2, Neq, SymMod) then Some(Comp(Eq, s, SymYes))
    else if !s.Type().Tristate? || !e1.Comp? || !e2.Comp? then None
    else if e1.rel.Eq? && e2.rel.Neq? && e2.rhs.IsConst() && e1.rhs.IsConst() then
      Some(if e1.rhs != e2.rhs then Comp(Eq, s, e1.rhs) else Symbol(SymNo))
    else if e1.rel.Neq? && e2.rel.Eq? && e1.rhs.IsConst() && e2.rhs.IsConst() then
      Some(if e2.rhs != e1.rhs then Comp(Eq, s, e2.rhs) else Symbol(SymNo))
    else if BothComp(e1, e2, Neq, SymYes, SymNo) then Some(Comp(Eq, s, SymMod))
    else if BothComp(e1, e2, Neq, SymYes, SymMod) then Some(Comp(Eq, s, SymNo))
    else if BothComp(e1, e2, Neq, SymMod, SymNo) then Some(Comp(Eq, s, SymYes))
    else None
  }

  /** The single operand that replaces e1 and e2 at a level of `op`, if there is one. */
  function Join(op: Op, e1: Expr, e2: Expr): (r: Option<Expr>)
    ensures r.Some? ==> Size(r.value) < Size(e1) + Size(e2)
    ensures r.Some? && IsLevel(op, r.value) ==> IsLevel(op, e1)
  {
    if ExprEq(e1, e2) then Some(e1)
    else if !Joinable(e1) || !Joinable(e2) then None
    else
      var s1, s2 := FirstSubject(e1), SecondSubject(e2);
      if s1.None? || s1 != s2 || !s1.value.IsTri() then None
      else if op.OpOr? then JoinOr(s1.value, e1, e2)
      else JoinAnd(s1.value, e1, e2)
  }

  ghost predicate ExactFor(s: Sym, env: Env) {
    && (env.ord(s, SymYes) == 0 <==> env.tri(s) == YES)
    && (env.ord(s, SymMod) == 0 <==> env.tri(s) == MOD)
    && (env.ord(s, SymNo) == 0 <==> env.tri(s) == NO)
  }

  lemma JoinOrVal(s: Sym, e1: Expr, e2: Expr, env: Env)
    requires Sane(env) && ExactFor(s, env)
    requires Joinable(e1) && Joinable(e2) && FirstSubject(e1) == Some(s) == SecondSubject(e2)
    requires JoinOr(s, e1, e2).Some?
    ensures Val(JoinOr(s, e1, e2).value, env) == Ap(OpOr, Val(e1, env), Val(e2, env))
  {
    if e1.Comp? && e2.Comp? {
    } else {
      assert env.tri(s) != MOD;
    }
  }

  lemma JoinAndVal(s: Sym, e1: Expr, e2: Expr, env: Env)
    requires Sane(env) && ExactFor(s, env) && s.IsTri()
    requires TriCompsOk(e1) && TriCompsOk(e2)
    requires Joinable(e1) && Joinable(e2) && FirstSubject(e1) == Some(s) == SecondSubject(e2)
    requires JoinAnd(s, e1, e2).Some?
    ensures Val(JoinAnd(s, e1, e2).value, env) == Ap(OpAnd, Val(e1, env), Val(e2, env))
  {
    if e1.Symbol? {
      assert e2.Comp? && e2.rhs.IsTriConst();
    } else if e2.Symbol? {
      assert e1.Comp? && e1.rhs.IsTriConst();
    } else {
      assert e1.Comp? && e2.Comp? && e1.lhs == s == e2.lhs;
      assert e1.rhs.IsTriConst() && e2.rhs.IsTriConst();
    }
  }

  /** A join computes exactly e1 op e2. */
  lemma JoinVal(op: Op, e1: Expr, e2: Expr, env: Env)
    requires Sane(env) && TriCompsOk(e1) && TriCompsOk(e2)
    requires Join(op, e1, e2).Some?
    ensures Val(Join(op, e1, e2).value, env) == Ap(op, Val(e1, env), Val(e2, env))
  {
    if ExprEq(e1, e2) {
      ExprEqSound(e1, e2, env);
    } else {
      var s := FirstSubject(e1).value;
      assert ExactFor(s, env);
      if op.OpOr? {
        JoinOrVal(s, e1, e2, env);
      } else {
        JoinAndVal(s, e1, e2, env);
      }
    }
  }

  // ---------- Comparisons with other constants ----------

  /** s = a and s != b for two different constants. */
  predicate EqAndNeq(e1: Expr, e2: Expr) {
    && e1.Comp? && e2.Comp? && e1.lhs == e2.lhs && e1.rel.Eq? && e2.rel.Neq?
    && e1.rhs.IsConst() && e2.rhs.IsConst() && e1.rhs != e2.rhs
  }

  /** In this state the symbol equals both constants: it cannot with y, m and n, but
      a quoted number is compared by value. */
  ghost predicate EqualsBoth(e1: Expr, e2: Expr, env: Env)
    requires e1.Comp? && e2.Comp?
  {
    env.ord(e1.lhs, e1.rhs) == 0 && env.ord(e2.lhs, e2.rhs) == 0
  }

  /** Whatever constants occur, a join is exact in a state if and only if it is not
      of "equals a, differs from b" where the symbol equals a and b. */
  lemma JoinExactIff(op: Op, e1: Expr, e2: Expr, env: Env)
    requires Sane(env) && Join(op, e1, e2).Some?
    ensures Val(Join(op, e1, e2).value, env) == Ap(op, Val(e1, env), Val(e2, env)) <==>
      !(op.OpAnd? && (EqAndNeq(e1, e2) || EqAndNeq(e2, e1)) && EqualsBoth(e1, e2, env))
  {
    if ExprEq(e1, e2) {
      ExprEqSound(e1, e2, env);
    } else {
      var s := FirstSubject(e1).value;
      assert ExactFor(s, env);
      if op.OpOr? {
        JoinOrVal(s, e1, e2, env);
      } else if !e1.Comp? || !e2.Comp? {
        assert e1.Comp? ==> e1.rhs.IsTriConst();
        assert e2.Comp? ==> e2.rhs.IsTriConst();
        JoinAndVal(s, e1, e2, env);
      } else {
        JoinTwoComps(s, e1, e2, env);
      }
    }
  }

  lemma JoinTwoComps(s: Sym, e1: Expr, e2: Expr, env: Env)
    requires Sane(env) && ExactFor(s, env) && e1.Comp? && e2.Comp? && Joinable(e1) && Joinable(e2)
    requires e1.lhs == s == e2.lhs && !ExprEq(e1, e2) && JoinAnd(s, e1, e2).Some?
    ensures Val(JoinAnd(s, e1, e2).value, env) == Ap(OpAnd, Val(e1, env), Val(e2, env)) <==>
      !((EqAndNeq(e1, e2) || EqAndNeq(e2, e1)) && EqualsBoth(e1, e2, env))
  {
  }

  /** What the passes keep besides the value: comparisons the joins are exact
      for and, where the caller has them, negation normal form and plain
      operands that are bools, tristates or y, m, n. */
  datatype Keep = Keep(nnf: bool, plain: bool)

  predicate Form(e: Expr, form: Keep) {
    TriCompsOk(e) && (form.nnf ==> Nnf(e)) && (form.plain ==> OperandsTri(e))
  }

  lemma JoinKeepsForm(op: Op, e1: Expr, e2: Expr, form: Keep)
    requires Form(e1, form) && Form(e2, form)
    requires Join(op, e1, e2).Some?
    ensures Form(Join(op, e1, e2).value, form)
  {
  }

  lemma {:induction false} EliminateYnKeepsForm(e: Expr, form: Keep)
    requires Form(e, form)
    ensures Form(EliminateYn(e), form)
  {
    if e.Bin? {
      EliminateYnKeepsForm(e.left, form);
      EliminateYnKeepsForm(e.right, form);
    }
  }

  // ---------- Which pairs are joined ----------

  /** The third one of y, m and n. */
  function Third(a: Sym, b: Sym): Sym {
    if SymYes !in {a, b} then SymYes else if SymMod !in {a, b} then SymMod else SymNo
  }

  /** Of a tristate, two different comparisons with y, m, n always have a join if one of
      them or both are s!=c under &&, or both are s=c under ||. */
  lemma TristateJoins(s: Sym, a: Sym, b: Sym)
    requires s.Type().Tristate? && a.IsTriConst() && b.IsTriConst() && a != b
    ensures Join(OpAnd, Comp(Neq, s, a), Comp(Neq, s, b)) == Some(Comp(Eq, s, Third(a, b)))
    ensures Join(OpOr, Comp(Eq, s, a), Comp(Eq, s, b)) == Some(Comp(Neq, s, Third(a, b)))
    ensures Join(OpAnd, Comp(Eq, s, a), Comp(Neq, s, b)) == Some(Comp(Eq, s, a))
    ensures Join(OpAnd, Comp(Neq, s, b), Comp(Eq, s, a)) == Some(Comp(Eq, s, a))
    ensures Join(OpAnd, Comp(Eq, s, a), Comp(Neq, s, a)) == Some(Symbol(SymNo))
    ensures Join(OpAnd, Comp(Neq, s, a), Comp(Eq, s, a)) == Some(Symbol(SymNo))
  {
    assert forall r1: Rel, r2: Rel :: ExprEq(Comp(r1, s, a), Comp(r2, s, b)) <==> false;
    assert forall r1: Rel, r2: Rel :: ExprEq(Comp(r1, s, b), Comp(r2, s, a)) <==> false;
    assert !ExprEq(Comp(Eq, s, a), Comp(Neq, s, a)) && !ExprEq(Comp(Neq, s, a), Comp(Eq, s, a));
    hide ExprEq;
  }

  /** A bool or tristate takes in a comparison of its own: s with s=y and with s!=m is
      s=y, s with s!=n is s; in both orders. */
  lemma SymbolJoins(s: Sym)
    requires s.IsTri()
    ensures var x, y, notM, notN := Symbol(s), Comp(Eq, s, SymYes), Comp(Neq, s, SymMod), Comp(Neq, s, SymNo);
      && Join(OpAnd, x, y) == Join(OpAnd, y, x) == Join(OpAnd, x, notM) == Join(OpAnd, notM, x) == Some(y)
      && Join(OpAnd, x, notN) == Join(OpAnd, notN, x) == Some(x)
  {
    assert forall r: Rel, c: Sym :: !ExprEq(Symbol(s), Comp(r, s, c)) && !ExprEq(Comp(r, s, c), Symbol(s));
    hide ExprEq;
  }

  /** A bool or its negation is y. */
  lemma ExcludedMiddle(s: Sym)
    requires s.Type().Boolean?
    ensures Join(OpOr, Symbol(s), Not(Symbol(s))) == Join(OpOr, Not(Symbol(s)), Symbol(s)) == Some(Symbol(SymYes))
  {
    assert !ExprEq(Symbol(s), Not(Symbol(s))) && !ExprEq(Not(Symbol(s)), Symbol(s));
    hide ExprEq;
  }
}
