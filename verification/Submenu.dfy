/**
  The test by which menu_finalize decides that an entry belongs in the
  automatic submenu of the symbol before it.
 */
module Submenu {
  import opened Expressions
  import opened Eliminate
  import opened Joins
  import opened Dups
  import opened Transforms

  function NotUnless(eq: bool, e: Expr): Expr {
    if eq then e else Not(e)
  }

  /** An expression for "e equals c" (`eq`) or "e differs from c". */
  function TransCompare(e: Expr, eq: bool, c: Sym): Expr
    requires c.IsTriConst()
  {
    match e
    case Bin(op, l, r) =>
      var l1 := TransCompare(l, true, c);
      var r1 := TransCompare(r, true, c);
      NotUnless(eq, if c.SymYes? then Bin(op, l1, r1) else if c.SymNo? then Bin(Dual(op), l1, r1) else e)
    case Not(a) => TransCompare(a, !eq, c)
    case Comp(_, _, _) =>
      if c.SymMod? then Symbol(if eq then SymNo else SymYes)
      else if eq == c.SymYes? then e else Not(e)
    case Symbol(s) => Comp(if eq then Eq else Neq, s, c)
  }

  function TransCompareOpt(e: Option<Expr>, eq: bool, c: Sym): Expr
    requires c.IsTriConst()
  {
    if e.Some? then TransCompare(e.value, eq, c)
    else if eq then Symbol(c) else Not(Symbol(c))
  }

  predicate ContainsSymbol(e: Expr, s: Sym) {
    match e
    case Bin(_, l, r) => ContainsSymbol(l, s) || ContainsSymbol(r, s)
    case Symbol(t) => t == s
    case Comp(_, l, r) => l == s || r == s
    case Not(a) => ContainsSymbol(a, s)
  }

  predicate DependsSymbol(e: Expr, s: Sym) {
    match e
    case Bin(op, l, r) => op.OpAnd? && (DependsSymbol(l, s) || DependsSymbol(r, s))
    case Symbol(t) => t == s
    case Comp(rel, l, r) =>
      l == s && ((rel.Eq? && (r.SymYes? || r.SymMod?)) || (rel.Neq? && r.SymNo?))
    case Not(_) => false
  }

  /** "e is not n", simplified. */
  function NonNo(e: Option<Expr>): Expr {
    EliminateDups(Transform(TransCompareOpt(e, false, SymNo)))
  }

  /** May the entry with condition `dep` follow `sym`, whose prompt has
      condition `vis`, into sym's submenu? */
  predicate BelongsUnder(sym: Sym, vis: Option<Expr>, dep: Option<Expr>) {
    dep.Some? && ContainsSymbol(dep.value, sym) &&
    (DependsSymbol(dep.value, sym) ||
     EliminateEq(NonNo(dep), NonNo(vis)).snd == Symbol(SymYes))
  }

  // ---------- expr_trans_compare ----------

  /** In this environment no negated subexpression is m. */
  predicate NegationsTwoValued(e: Expr, env: Env) {
    match e
    case Not(a) => Val(a, env) != MOD && NegationsTwoValued(a, env)
    case Bin(_, l, r) => NegationsTwoValued(l, env) && NegationsTwoValued(r, env)
    case Symbol(_) => true
    case Comp(_, _, _) => true
  }

  ghost predicate CompareExact(e: Expr, eq: bool, c: Sym, env: Env)
    requires c.IsTriConst()
  {
    Val(TransCompare(e, eq, c), env) == TriOf((Val(e, env) == env.tri(c)) == eq)
  }

  /** For y and n the result is y or n and says exactly whether e has that value. */
  lemma {:induction false} TransCompareExact(e: Expr, eq: bool, c: Sym, env: Env)
    requires Sane(env) && OperandsTri(e) && NegationsTwoValued(e, env)
    requires c.SymYes? || c.SymNo?
    ensures CompareExact(e, eq, c, env)
  {
    match e
    case Bin(_, l, r) =>
      TransCompareExact(l, true, c, env);
      TransCompareExact(r, true, c, env);
    case Not(a) => TransCompareExact(a, !eq, c, env);
    case Comp(_, _, _) =>
    case Symbol(s) =>
      assert env.ord(s, c) == 0 <==> env.tri(s) == env.tri(c);
  }

  lemma TransCompareOptExact(e: Option<Expr>, eq: bool, c: Sym, env: Env)
    requires Sane(env)
    requires e.Some? ==> OperandsTri(e.value) && NegationsTwoValued(e.value, env)
    requires c.SymYes? || c.SymNo?
    ensures Val(TransCompareOpt(e, eq, c), env) == TriOf((ValOpt(e, env) == env.tri(c)) == eq)
  {
    if e.Some? {
      TransCompareExact(e.value, eq, c, env);
    }
  }

  /** A negation is compared exactly if and only if what it negates is not m. */
  lemma TransCompareNegation(a: Expr, eq: bool, c: Sym, env: Env)
    requires Sane(env) && OperandsTri(a) && NegationsTwoValued(a, env)
    requires c.SymYes? || c.SymNo?
    ensures CompareExact(Not(a), eq, c, env) <==> Val(a, env) != MOD
  {
    TransCompareExact(a, !eq, c, env);
  }

  /** On a negation normal form "differs from n" never claims too much. */
  lemma {:induction false} TransCompareNnf(e: Expr, env: Env)
    requires Sane(env) && OperandsTri(e) && Nnf(e)
    requires Val(e, env) == NO
    ensures Val(TransCompare(e, true, SymNo), env) == YES
    ensures Val(TransCompare(e, false, SymNo), env) == NO
  {
    match e
    case Bin(_, l, r) =>
      if Val(l, env) == NO {
        TransCompareNnf(l, env);
      }
      if Val(r, env) == NO {
        TransCompareNnf(r, env);
      }
    case Not(a) =>
      assert env.ord(a.sym, SymNo) == 0 <==> env.tri(a.sym) == env.tri(SymNo);
    case Comp(_, _, _) =>
    case Symbol(s) =>
      assert env.ord(s, SymNo) == 0 <==> env.tri(s) == env.tri(SymNo);
  }

  lemma {:induction false} TransCompareTriComps(e: Expr, eq: bool, c: Sym)
    requires c.IsTriConst() && TriCompsOk(e)
    ensures TriCompsOk(TransCompare(e, eq, c))
  {
    match e
    case Bin(_, l, r) =>
      TransCompareTriComps(l, true, c);
      TransCompareTriComps(r, true, c);
    case Not(a) => TransCompareTriComps(a, !eq, c);
    case Comp(_, _, _) =>
    case Symbol(_) =>
  }

  /** Every negated symbol is a bool. */
  predicate NegatesBools(e: Expr) {
    match e
    case Not(a) => a.Symbol? && a.sym.Type().Boolean?
    case Bin(_, l, r) => NegatesBools(l) && NegatesBools(r)
    case Symbol(_) => true
    case Comp(_, _, _) => true
  }

  lemma {:induction false} NegatesBoolsTwoValued(e: Expr, env: Env)
    requires Sane(env) && NegatesBools(e)
    ensures NegationsTwoValued(e, env)
  {
    if e.Bin? {
      NegatesBoolsTwoValued(e.left, env);
      NegatesBoolsTwoValued(e.right, env);
    }
  }

  // ---------- The two routes ----------

  /** An absolute dependency: e is n wherever s is. */
  lemma {:induction false} DependsSymbolSound(e: Expr, s: Sym, env: Env)
    requires Sane(env) && s.IsTri()
    requires DependsSymbol(e, s)
    ensures Val(e, env) != NO ==> env.tri(s) != NO
  {
    match e
    case Bin(_, l, r) =>
      if DependsSymbol(l, s) {
        DependsSymbolSound(l, s, env);
      } else {
        DependsSymbolSound(r, s, env);
      }
    case Comp(_, l, r) =>
      assert env.ord(l, r) == 0 <==> env.tri(l) == env.tri(r);
    case Symbol(_) =>
    case Not(_) =>
  }

  lemma NonNoVal(e: Option<Expr>, env: Env)
    requires Sane(env) && (e.Some? ==> TriCompsOk(e.value))
    ensures Val(NonNo(e), env) == Val(TransCompareOpt(e, false, SymNo), env)
  {
    var c := TransCompareOpt(e, false, SymNo);
    if e.Some? {
      TransCompareTriComps(e.value, false, SymNo);
    }
    TransformVal(c, env);
    TransformKeepsSyntax(c);
    EliminateDupsVal(Transform(c), env, Keep(false, false));
  }

  /** An entry that goes under sym is enabled only where sym is, or where the
      prompt of sym is visible.  Only an absolute dependency needs sym to be a bool
      or tristate, and only the negations that are m in this state matter. */
  lemma SubmenuJustified(sym: Sym, vis: Option<Expr>, dep: Option<Expr>, env: Env)
    requires Sane(env)
    requires BelongsUnder(sym, vis, dep)
    requires DependsSymbol(dep.value, sym) ==> sym.IsTri()
    requires TriCompsOk(dep.value) && OperandsTri(dep.value) && NegationsTwoValued(dep.value, env)
    requires vis.Some? ==> TriCompsOk(vis.value) && OperandsTri(vis.value)
    requires vis.Some? ==> Nnf(vis.value) || NegationsTwoValued(vis.value, env)
    ensures Val(dep.value, env) != NO ==> env.tri(sym) != NO || ValOpt(vis, env) != NO
  {
    if DependsSymbol(dep.value, sym) {
      DependsSymbolSound(dep.value, sym, env);
    } else {
      NonNoVal(dep, env);
      NonNoVal(vis, env);
      EliminateEqReflectsOrder(NonNo(dep), NonNo(vis), env);
      TransCompareOptExact(dep, false, SymNo, env);
      if vis.Some? && ValOpt(vis, env) == NO {
        if Nnf(vis.value) {
          TransCompareNnf(vis.value, env);
        } else {
          TransCompareOptExact(vis, false, SymNo, env);
        }
      }
    }
  }

  /** With a negated tristate the test goes wrong: (A || B) && !T is moved under
      A, whose prompt needs T=n, and is enabled while A and its prompt are not. */
  lemma SubmenuNegatedTristate(a: Sym, b: Sym, t: Sym, env: Env)
    requires Sane(env) && a != b
    requires a.Type().Boolean? && b.Type().Boolean? && t.Type().Tristate?
    requires env.tri(a) == NO && env.tri(b) == YES && env.tri(t) == MOD
    ensures var vis := Comp(Eq, t, SymNo);
      var dep := Bin(OpAnd, Bin(OpOr, Symbol(a), Symbol(b)), Not(Symbol(t)));
      && BelongsUnder(a, Some(vis), Some(dep))
      && Val(dep, env) != NO && env.tri(a) == NO && Val(vis, env) == NO
  {
    var vis := Comp(Eq, t, SymNo);
    var dep := Bin(OpAnd, Bin(OpOr, Symbol(a), Symbol(b)), Not(Symbol(t)));
    assert env.ord(t, SymNo) == 0 <==> env.tri(t) == env.tri(SymNo);
    assert Val(Bin(OpOr, Symbol(a), Symbol(b)), env) == YES && Val(Not(Symbol(t)), env) == MOD;
    assert ContainsSymbol(dep, a);
    assert BelongsUnder(a, Some(vis), Some(dep)) by {
      NegatedTristateDep(a, b, t);
      assert TransCompareOpt(Some(vis), false, SymNo) == vis;
      assert NonNo(Some(vis)) == vis;
      CancelOwn(Bin(OpOr, Symbol(a), Symbol(b)), vis);
    }
  }

  /** An absolute dependency on a string goes wrong as well: "S is not n" holds of
      almost every string, while S as an operand is always n. */
  lemma SubmenuStringHead(s: Sym, vis: Expr, env: Env)
    requires s.Type().String? && env.tri(s) == NO && env.ord(s, SymNo) != 0 && Val(vis, env) == NO
    ensures var dep := Comp(Neq, s, SymNo);
      && BelongsUnder(s, Some(vis), Some(dep)) && DependsSymbol(dep, s)
      && Val(dep, env) != NO && env.tri(s) == NO && Val(vis, env) == NO
  {
    hide NonNo, EliminateEq;
    assert ContainsSymbol(Comp(Neq, s, SymNo), s);
  }

  lemma CancelOwn(x: Expr, c: Expr)
    requires c.Comp? && !IsLevel(OpAnd, x)
    ensures EliminateEq(Bin(OpAnd, x, c), c).snd == Symbol(SymYes)
  {
    var p := CancelLevel(OpAnd, x, c);
    assert CancelLevel(OpAnd, c, c) == Pair(Symbol(SymYes), Symbol(SymYes), 1);
    assert ExprEq(x, c) <==> x == c;
    assert x != c ==> p.snd == c;
    assert CancelLevel(OpAnd, c, Symbol(SymYes)) == Pair(c, Symbol(SymYes), 0);
  }

  lemma NegatedTristateDep(a: Sym, b: Sym, t: Sym)
    requires a.Type().Boolean? && b.Type().Boolean? && t.Type().Tristate? && a != b
    ensures NonNo(Some(Bin(OpAnd, Bin(OpOr, Symbol(a), Symbol(b)), Not(Symbol(t))))) ==
      Bin(OpAnd, Bin(OpOr, Symbol(a), Symbol(b)), Comp(Eq, t, SymNo))
  {
    var vis := Comp(Eq, t, SymNo);
    var dep := Bin(OpAnd, Bin(OpOr, Symbol(a), Symbol(b)), Not(Symbol(t)));
    var alternatives := Bin(OpOr, Symbol(a), Symbol(b));
    assert Transform(TransCompare(dep, false, SymNo)) == Bin(OpAnd, alternatives, vis) by {
      var inner := Bin(OpAnd, Comp(Eq, a, SymNo), Comp(Eq, b, SymNo));
      var neither := Bin(OpAnd, Not(Symbol(a)), Not(Symbol(b)));
      var differs := Comp(Neq, t, SymNo);
      assert TransCompare(alternatives, true, SymNo) == inner;
      assert TransCompare(Not(Symbol(t)), true, SymNo) == TransCompare(Symbol(t), false, SymNo) == differs;
      assert TransCompare(dep, false, SymNo) == Not(Bin(OpOr, inner, differs));
      assert Transform(inner) == neither;
      TransformFixpoint(neither);
      assert Transform(Not(neither)) == Transform(PushNot(OpAnd, Not(Symbol(a)), Not(Symbol(b))));
      assert Transform(Not(Symbol(a))) == Not(Symbol(a)) && Transform(Not(Symbol(b))) == Not(Symbol(b));
      assert Transform(Not(Not(Symbol(a)))) == Symbol(a) && Transform(Not(Not(Symbol(b)))) == Symbol(b);
      assert Transform(Not(neither)) == alternatives && Transform(Not(differs)) == vis;
      assert Transform(Bin(OpOr, inner, differs)) == Bin(OpOr, neither, differs);
      assert Transform(Not(Bin(OpOr, inner, differs))) == Transform(PushNot(OpOr, neither, differs));
    }
    SettledPair(OpOr, Symbol(a), Symbol(b));
    SettledPair(OpAnd, alternatives, vis);
  }

  lemma SettledPair(op: Op, l: Expr, r: Expr)
    requires !IsLevel(op, l) && !IsLevel(op, r) && Settled(l) && Settled(r)
    requires Join(op, l, r).None? && Join(op, r, l).None?
    ensures Settled(Bin(op, l, r)) && EliminateDups(Bin(op, l, r)) == Bin(op, l, r)
  {
    hide Rows, Row, Step, Join, Size, Total, Refill;
    var e := Bin(op, l, r);
    assert Leaves(op, e) == [l, r];
    PassQuiet(e);
  }
}
