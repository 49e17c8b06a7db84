/**
  A join that is not exact: a tristate compared with a quoted number, in a state
  of the evaluator.
 */
module QuotedJoin {
  import opened Expressions
  import opened Evaluation
  import J = Joins
  import C = Compare

  /** Where T is y, T="2" && T!=y is n; joined to T="2" it is y. */
  lemma QuotedJoinInexact(c: Config, t: Sym)
    requires Acyclic(c.defs, c.rank) && t.Type().Tristate? && EvalSym(c, t).curr.tri == YES
    ensures var env := EnvOf(All(c));
      var e1, e2 := Comp(Eq, t, Quoted("2")), Comp(Neq, t, SymYes);
      && J.Join(OpAnd, e1, e2) == Some(e1)
      && Val(e1, env) == YES && Val(Bin(OpAnd, e1, e2), env) == NO
  {
    hide EvalSym, Acyclic, C.CompareValues;
    var env := EnvOf(All(c));
    EvalConst(c, Quoted("2"));
    EvalConst(c, SymYes);
    C.TriEqualsNumber(Tristate);
    C.TriCompareExact(Tristate, YES, YES);
    assert TextOf(t, All(c)(t).curr) == C.TriText(YES) && TextOf(SymYes, All(c)(SymYes).curr) == C.TriText(YES);
    assert TextOf(Quoted("2"), All(c)(Quoted("2")).curr) == "2";
    assert env.ord(t, Quoted("2")) == 0 && env.ord(t, SymYes) == 0;
  }
}
