/**
  Removal of y/n operands, cancellation of operands common to two expressions,
  and the equality test built on them.

  The three are mutually recursive through the equality test: cancelling
  compares operands, and comparing two && or || expressions cancels inside
  copies of them.
 */
module Eliminate {
  import opened Expressions

  /** Removes y and n operands of && and ||, bottom up; does not look under !. */
  function EliminateYn(e: Expr): (r: Expr)
    ensures Size(r) <= Size(e)
  {
    match e
    case Bin(op, l0, r0) =>
      var l := EliminateYn(l0);
      var r := EliminateYn(r0);
      if l == Symbol(ZeroSym(op)) then Symbol(ZeroSym(op))
      else if l == Symbol(UnitSym(op)) then r
      else if r == Symbol(ZeroSym(op)) then Symbol(ZeroSym(op))
      else if r == Symbol(UnitSym(op)) then l
      else Bin(op, l, r)
    case _ => e
  }

  datatype Pair = Pair(fst: Expr, snd: Expr, count: nat)

  predicate SameYesNo(a: Expr, b: Expr) {
    a == b && (a == Symbol(SymYes) || a == Symbol(SymNo))
  }

  /** Compares every operand of one `op` level of e1 with every one of e2, in
      order, replacing equal pairs by the unit of `op`. */
  function CancelLevel(op: Op, e1: Expr, e2: Expr): (p: Pair)
    ensures Size(p.fst) <= Size(e1) && Size(p.snd) <= Size(e2)
    ensures IsLevel(op, p.fst) <==> IsLevel(op, e1)
    ensures IsLevel(op, p.snd) <==> IsLevel(op, e2)
    decreases Size(e1) + Size(e2), if IsLevel(op, e1) || IsLevel(op, e2) then 1 else 4
  {
    if IsLevel(op, e1) then
      var a := CancelLevel(op, e1.left, e2);
      var b := CancelLevel(op, e1.right, a.snd);
      Pair(Bin(op, a.fst, b.fst), b.snd, a.count + b.count)
    else if IsLevel(op, e2) then
      var a := CancelLevel(op, e1, e2.left);
      var b := CancelLevel(op, a.fst, e2.right);
      Pair(b.fst, Bin(op, a.snd, b.snd), a.count + b.count)
    else if SameYesNo(e1, e2) || !ExprEq(e1, e2) then
      Pair(e1, e2, 0)
    else
      Pair(Symbol(UnitSym(op)), Symbol(UnitSym(op)), 1)
  }

  /** Removes the operands common to both expressions. */
  function EliminateEq(e1: Expr, e2: Expr): (p: Pair)
    ensures Size(p.fst) <= Size(e1) && Size(p.snd) <= Size(e2)
    decreases Size(e1) + Size(e2), 2
  {
    var a := if e1.Bin? then CancelLevel(e1.op, e1, e2) else Pair(e1, e2, 0);
    var b := if a.snd.Bin? && !IsLevel(a.snd.op, a.fst)
             then CancelLevel(a.snd.op, a.fst, a.snd) else Pair(a.fst, a.snd, 0);
    Pair(EliminateYn(b.fst), EliminateYn(b.snd), a.count + b.count)
  }

  /** Equality up to the order of operands, as far as cancellation can see it. */
  predicate ExprEq(e1: Expr, e2: Expr)
    decreases Size(e1) + Size(e2), 3
  {
    match e1
    case Symbol(_) => e1 == e2
    case Comp(_, _, _) => e1 == e2
    case Not(a) => e2.Not? && ExprEq(a, e2.arg)
    case Bin(op, _, _) =>
      IsLevel(op, e2) &&
      var p := EliminateEq(e1, e2);
      p.fst.Symbol? && p.snd.Symbol? && p.fst.sym == p.snd.sym
  }

  // ---------- Meaning ----------

  lemma {:induction false} EliminateYnVal(e: Expr, env: Env)
    requires ConstsFixed(env)
    ensures Val(EliminateYn(e), env) == Val(e, env)
  {
    if e.Bin? {
      EliminateYnVal(e.left, env);
      EliminateYnVal(e.right, env);
    }
  }

  lemma ApMerge(op: Op, a: Tri, b: Tri, x: Tri, y: Tri)
    ensures Ap(op, Ap(op, a, x), Ap(op, b, y)) == Ap(op, Ap(op, a, b), Ap(op, x, y))
    ensures Ap(op, a, Ap(op, b, y)) == Ap(op, Ap(op, a, b), y)
  {
    match op
    case OpOr =>
    case OpAnd =>
  }

  /** Cancelling divides both sides by one common factor: a value c with
      e1 = c op e1' and e2 = c op e2'. */
  lemma {:induction false} CancelLevelFactor(op: Op, e1: Expr, e2: Expr, env: Env) returns (c: Tri)
    requires ConstsFixed(env)
    ensures var p := CancelLevel(op, e1, e2);
      Val(e1, env) == Ap(op, c, Val(p.fst, env)) && Val(e2, env) == Ap(op, c, Val(p.snd, env))
    decreases Size(e1) + Size(e2), if IsLevel(op, e1) || IsLevel(op, e2) then 1 else 4
  {
    if IsLevel(op, e1) {
      var a := CancelLevel(op, e1.left, e2);
      var c1 := CancelLevelFactor(op, e1.left, e2, env);
      var c2 := CancelLevelFactor(op, e1.right, a.snd, env);
      var b := CancelLevel(op, e1.right, a.snd);
      c := Ap(op, c1, c2);
      ApMerge(op, c1, c2, Val(a.fst, env), Val(b.fst, env));
      ApMerge(op, c1, c2, NO, Val(b.snd, env));
    } else if IsLevel(op, e2) {
      var a := CancelLevel(op, e1, e2.left);
      var c1 := CancelLevelFactor(op, e1, e2.left, env);
      var c2 := CancelLevelFactor(op, a.fst, e2.right, env);
      var b := CancelLevel(op, a.fst, e2.right);
      c := Ap(op, c1, c2);
      ApMerge(op, c1, c2, Val(a.snd, env), Val(b.snd, env));
      ApMerge(op, c1, c2, NO, Val(b.fst, env));
    } else if SameYesNo(e1, e2) || !ExprEq(e1, e2) {
      c := env.tri(UnitSym(op));
    } else {
      ExprEqSound(e1, e2, env);
      c := Val(e1, env);
    }
  }

  /** The order of the two results decides the order of the two inputs. */
  lemma {:induction false} EliminateEqReflectsOrder(e1: Expr, e2: Expr, env: Env)
    requires ConstsFixed(env)
    ensures var p := EliminateEq(e1, e2);
      && (Val(p.fst, env) <= Val(p.snd, env) ==> Val(e1, env) <= Val(e2, env))
      && (Val(p.snd, env) <= Val(p.fst, env) ==> Val(e2, env) <= Val(e1, env))
    decreases Size(e1) + Size(e2), 2
  {
    hide CancelLevel, ExprEq, EliminateYn, Val;
    var a := if e1.Bin? then CancelLevel(e1.op, e1, e2) else Pair(e1, e2, 0);
    var b := if a.snd.Bin? && !IsLevel(a.snd.op, a.fst)
             then CancelLevel(a.snd.op, a.fst, a.snd) else Pair(a.fst, a.snd, 0);
    if e1.Bin? {
      var _ := CancelLevelFactor(e1.op, e1, e2, env);
    }
    if a.snd.Bin? && !IsLevel(a.snd.op, a.fst) {
      var _ := CancelLevelFactor(a.snd.op, a.fst, a.snd, env);
    }
    EliminateYnVal(b.fst, env);
    EliminateYnVal(b.snd, env);
  }

  /** Expressions found equal have the same value in every environment. */
  lemma {:induction false} ExprEqSound(e1: Expr, e2: Expr, env: Env)
    requires ConstsFixed(env)
    requires ExprEq(e1, e2)
    ensures Val(e1, env) == Val(e2, env)
    decreases Size(e1) + Size(e2), 3
  {
    match e1
    case Symbol(_) =>
    case Comp(_, _, _) =>
    case Not(a) => ExprEqSound(a, e2.arg, env);
    case Bin(_, _, _) => EliminateEqReflectsOrder(e1, e2, env);
  }
}
