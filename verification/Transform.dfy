/**
  expr_transform: negation normal form and removal of comparisons of bools
  with y, m and n.
 */
module Transforms {
  import opened Expressions

  /** A measure under which the De Morgan step goes down although it makes the
      expression larger. */
  function Weight(e: Expr): (n: nat)
    ensures n >= 1
  {
    match e
    case Symbol(_) => 1
    case Comp(_, _, _) => 2
    case Not(a) => 2 * Weight(a)
    case Bin(_, l, r) => Weight(l) + Weight(r) + 1
  }

  function Dual(op: Op): Op {
    if op.OpOr? then OpAnd else OpOr
  }

  function Opposite(rel: Rel): Rel {
    match rel
    case Eq => Neq
    case Neq => Eq
    case Leq => Gth
    case Geq => Lth
    case Lth => Geq
    case Gth => Leq
  }

  /** A comparison of a bool with y, m or n becomes the symbol, its negation or a constant. */
  function TransformComp(rel: Rel, l: Sym, r: Sym): Expr {
    if !l.Type().Boolean? then Comp(rel, l, r)
    else match (rel, r)
      case (Eq, SymNo) => Not(Symbol(l))
      case (Eq, SymMod) => Symbol(SymNo)
      case (Eq, SymYes) => Symbol(l)
      case (Neq, SymNo) => Symbol(l)
      case (Neq, SymMod) => Symbol(SymYes)
      case (Neq, SymYes) => Not(Symbol(l))
      case _ => Comp(rel, l, r)
  }

  function PushNot(op: Op, l: Expr, r: Expr): (e: Expr)
    ensures Weight(e) < Weight(Not(Bin(op, l, r)))
  {
    assert Weight(Not(l)) == 2 * Weight(l) && Weight(Not(r)) == 2 * Weight(r);
    assert Weight(Bin(op, l, r)) == Weight(l) + Weight(r) + 1;
    Bin(Dual(op), Not(l), Not(r))
  }

  function Transform(e: Expr): (r: Expr)
    ensures Weight(r) <= Weight(e)
    decreases Weight(e)
  {
    match e
    case Symbol(_) => e
    case Comp(rel, l, r) => TransformComp(rel, l, r)
    case Bin(op, l, r) => Bin(op, Transform(l), Transform(r))
    case Not(a0) =>
      var a := Transform(a0);
      match a
      case Not(b) => Transform(b)
      case Comp(rel, l, r) => Comp(Opposite(rel), l, r)
      case Bin(op, l, r) => Transform(PushNot(op, l, r))
      case Symbol(s) =>
        if s.SymYes? then Symbol(SymNo)
        else if s.SymMod? then Symbol(SymMod)
        else if s.SymNo? then Symbol(SymYes)
        else Not(a)
  }

  lemma {:induction false} TransformVal(e: Expr, env: Env)
    requires Sane(env)
    ensures Val(Transform(e), env) == Val(e, env)
    decreases Weight(e)
  {
    match e
    case Symbol(_) =>
    case Comp(_, l, r) =>
      if l.Type().Boolean? && r.IsTriConst() {
        assert env.ord(l, r) == 0 <==> env.tri(l) == env.tri(r);
      }
    case Bin(_, l, r) =>
      TransformVal(l, env);
      TransformVal(r, env);
    case Not(a0) =>
      TransformVal(a0, env);
      match Transform(a0)
      case Not(b) => TransformVal(b, env);
      case Comp(rel, _, _) =>
      case Bin(op, l, r) => TransformVal(PushNot(op, l, r), env);
      case Symbol(_) =>
  }

  /** The result is in negation normal form whatever came in ... */
  lemma {:induction false} TransformNnf(e: Expr)
    ensures Nnf(Transform(e))
    decreases Weight(e)
  {
    match e
    case Symbol(_) =>
    case Comp(_, _, _) =>
    case Bin(_, l, r) =>
      TransformNnf(l);
      TransformNnf(r);
    case Not(a0) =>
      TransformNnf(a0);
      match Transform(a0)
      case Not(b) => TransformNnf(b);
      case Comp(_, _, _) =>
      case Bin(op, l, r) => TransformNnf(PushNot(op, l, r));
      case Symbol(_) =>
  }

  /** ... and an expression is left alone exactly when it already is. */
  lemma {:induction false} TransformFixpoint(e: Expr)
    ensures Transform(e) == e <==> Nnf(e)
    decreases Weight(e)
  {
    TransformNnf(e);
    if Nnf(e) && e.Bin? {
      TransformFixpoint(e.left);
      TransformFixpoint(e.right);
    }
  }

  lemma TransformIdempotent(e: Expr)
    ensures Transform(Transform(e)) == Transform(e)
  {
    TransformNnf(e);
    TransformFixpoint(Transform(e));
  }

  lemma {:induction false} TransformKeepsSyntax(e: Expr)
    ensures TriCompsOk(e) ==> TriCompsOk(Transform(e))
    ensures OperandsTri(e) ==> OperandsTri(Transform(e))
    decreases Weight(e)
  {
    match e
    case Symbol(_) =>
    case Comp(_, _, _) =>
    case Bin(_, l, r) =>
      TransformKeepsSyntax(l);
      TransformKeepsSyntax(r);
    case Not(a0) =>
      TransformKeepsSyntax(a0);
      match Transform(a0)
      case Not(b) => TransformKeepsSyntax(b);
      case Comp(_, _, _) =>
      case Bin(op, l, r) =>
        assert TriCompsOk(Bin(op, l, r)) ==> TriCompsOk(Not(l)) && TriCompsOk(Not(r));
        assert OperandsTri(Bin(op, l, r)) ==> OperandsTri(Not(l)) && OperandsTri(Not(r));
        TransformKeepsSyntax(PushNot(op, l, r));
      case Symbol(_) =>
  }
}
