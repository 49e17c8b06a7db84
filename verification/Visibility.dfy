/**
  How menu_finalize prepares a condition before the evaluator sees it, and the
  visibility computed from it.
 */
module Visibility {
  import opened Expressions
  import opened Joins
  import opened Dups
  import opened Transforms

  /** Replaces the operand m by m && MODULES. */
  function RewriteM(e: Expr, modules: Sym): Expr {
    match e
    case Not(a) => Not(RewriteM(a, modules))
    case Bin(op, l, r) => Bin(op, RewriteM(l, modules), RewriteM(r, modules))
    case Symbol(s) => if s.SymMod? then Bin(OpAnd, e, Symbol(modules)) else e
    case Comp(_, _, _) => e
  }

  /** FOO!=n becomes FOO for a tristate FOO. */
  function TransBool(e: Expr): Expr {
    match e
    case Not(a) => Not(TransBool(a))
    case Bin(op, l, r) => Bin(op, TransBool(l), TransBool(r))
    case Comp(rel, l, r) => if rel.Neq? && l.Type().Tristate? && r.SymNo? then Symbol(l) else e
    case Symbol(_) => e
  }

  /** rewrite_m, expr_transform, AND with the outer condition, expr_eliminate_dups. */
  function Propagate(outer: Option<Expr>, own: Option<Expr>, modules: Sym): Option<Expr> {
    var own1 := if own.None? then None else Some(Transform(RewriteM(own.value, modules)));
    var both := AllocAnd(outer, own1);
    if both.None? then None else Some(EliminateDups(both.value))
  }

  /** What is stored as the condition of a property of an entry of the given
      type; `None` for entries without a symbol. */
  function PropCondition(typ: Option<SymType>, base: Option<Expr>, own: Option<Expr>, modules: Sym): Option<Expr> {
    var dep := Propagate(base, own, modules);
    if dep.Some? && typ.Some? && !typ.value.Tristate? then Some(TransBool(dep.value)) else dep
  }

  function MaxOf(vals: seq<Tri>): (m: Tri)
    ensures forall k :: 0 <= k < |vals| ==> vals[k] <= m
    ensures vals == [] ==> m == NO
    ensures vals != [] ==> m in vals
  {
    if vals == [] then NO
    else
      var m := MaxOf(vals[1..]);
      if vals[0] > m then vals[0] else m
  }

  lemma {:induction false} MaxOfSnoc(vals: seq<Tri>, v: Tri)
    ensures MaxOf(vals + [v]) == if MaxOf(vals) > v then MaxOf(vals) else v
  {
    if vals != [] {
      MaxOfSnoc(vals[1..], v);
      assert (vals + [v])[1..] == vals[1..] + [v];
    }
  }

  /** The visibility of a symbol whose prompts have the given values. */
  function VisibleOf(typ: SymType, modulesVal: Tri, prompts: seq<Tri>): Tri {
    var tri := MaxOf(prompts);
    if tri == MOD && (!typ.Tristate? || modulesVal == NO) then YES else tri
  }

  // ---------- rewrite_m ----------

  /** The environment in which the operand m counts only as far as MODULES allows. */
  ghost function ModulesRead(env: Env, modules: Sym): Env {
    Env((s: Sym) => ReadWithModules(env, modules, s), env.ord)
  }

  function ReadWithModules(env: Env, modules: Sym, s: Sym): Tri {
    if s.SymMod? then Ap(OpAnd, MOD, env.tri(modules)) else env.tri(s)
  }

  lemma {:induction false} RewriteMVal(e: Expr, modules: Sym, env: Env)
    requires ConstsFixed(env)
    ensures Val(RewriteM(e, modules), env) == Val(e, ModulesRead(env, modules))
  {
    match e
    case Not(a) => RewriteMVal(a, modules, env);
    case Bin(_, l, r) =>
      RewriteMVal(l, modules, env);
      RewriteMVal(r, modules, env);
    case Symbol(_) =>
    case Comp(_, _, _) =>
  }

  lemma {:induction false} RewriteMSyntax(e: Expr, modules: Sym)
    ensures TriCompsOk(e) ==> TriCompsOk(RewriteM(e, modules))
    ensures OperandsTri(e) && (modules.IsTri() || modules.IsTriConst()) ==> OperandsTri(RewriteM(e, modules))
  {
    match e
    case Not(a) => RewriteMSyntax(a, modules);
    case Bin(_, l, r) =>
      RewriteMSyntax(l, modules);
      RewriteMSyntax(r, modules);
    case Symbol(_) =>
    case Comp(_, _, _) =>
  }

  // ---------- expr_trans_bool ----------

  /** On a negation normal form only the difference between m and y can go. */
  lemma {:induction false} TransBoolStatus(e: Expr, env: Env)
    requires Sane(env) && Nnf(e)
    ensures Val(TransBool(e), env) == NO <==> Val(e, env) == NO
    ensures Val(TransBool(e), env) <= Val(e, env)
    ensures Nnf(TransBool(e))
    ensures TriCompsOk(e) ==> TriCompsOk(TransBool(e))
    ensures OperandsTri(e) ==> OperandsTri(TransBool(e))
  {
    match e
    case Bin(_, l, r) =>
      TransBoolStatus(l, env);
      TransBoolStatus(r, env);
    case Comp(rel, l, r) =>
      if rel.Neq? && l.Type().Tristate? && r.SymNo? {
        assert env.ord(l, r) == 0 <==> env.tri(l) == env.tri(r);
      }
    case Not(_) =>
    case Symbol(_) =>
  }

  /** Nowhere is a tristate compared with n by !=. */
  predicate NoneDiffersFromN(e: Expr) {
    match e
    case Not(a) => NoneDiffersFromN(a)
    case Bin(_, l, r) => NoneDiffersFromN(l) && NoneDiffersFromN(r)
    case Comp(rel, l, r) => !(rel.Neq? && l.Type().Tristate? && r.SymNo?)
    case Symbol(_) => true
  }

  /** What it is for: no such comparison is left, and where there was none nothing is
      changed. */
  lemma {:induction false} TransBoolForm(e: Expr)
    ensures NoneDiffersFromN(TransBool(e))
    ensures TransBool(e) == e <==> NoneDiffersFromN(e)
  {
    match e
    case Not(a) => TransBoolForm(a);
    case Bin(_, l, r) =>
      TransBoolForm(l);
      TransBoolForm(r);
    case Comp(_, _, _) =>
    case Symbol(_) =>
  }

  /** Under a negation it keeps whether a condition is n if and only if the tristate
      is not m; where it is m, it turns a condition that is n into one that is not. */
  lemma TransBoolNeedsNnf(s: Sym, env: Env)
    requires Sane(env) && s.Type().Tristate?
    ensures var e := Not(Comp(Neq, s, SymNo));
      (Val(TransBool(e), env) == NO <==> Val(e, env) == NO) <==> env.tri(s) != MOD
  {
    assert env.ord(s, SymNo) == 0 <==> env.tri(s) == env.tri(SymNo);
  }

  // ---------- The stored conditions ----------

  ghost predicate OptForm(e: Option<Expr>) {
    e.Some? ==> Form(e.value, Keep(true, false))
  }

  predicate OptTriComps(e: Option<Expr>) {
    e.Some? ==> TriCompsOk(e.value)
  }

  function RewrittenVal(own: Option<Expr>, modules: Sym, env: Env): Tri {
    if own.None? then YES else Val(RewriteM(own.value, modules), env)
  }

  /** Propagation computes exactly the conjunction and keeps negation normal form. */
  lemma PropagateVal(outer: Option<Expr>, own: Option<Expr>, modules: Sym, env: Env)
    requires Sane(env) && OptForm(outer) && OptTriComps(own)
    ensures var r := Propagate(outer, own, modules);
      OptForm(r) && ValOpt(r, env) == Ap(OpAnd, ValOpt(outer, env), RewrittenVal(own, modules, env))
  {
    if own.Some? {
      var e := RewriteM(own.value, modules);
      RewriteMSyntax(own.value, modules);
      TransformVal(e, env);
      TransformNnf(e);
      TransformKeepsSyntax(e);
    }
    var own1 := if own.None? then None else Some(Transform(RewriteM(own.value, modules)));
    var both := AllocAnd(outer, own1);
    if both.Some? {
      EliminateDupsVal(both.value, env, Keep(true, false));
    }
  }

  /** A condition as it is parsed, and as it is stored after propagation. */
  predicate Raw(e: Option<Expr>) {
    e.Some? ==> TriCompsOk(e.value) && OperandsTri(e.value)
  }

  predicate Stored(e: Option<Expr>) {
    e.Some? ==> Form(e.value, Keep(true, true))
  }

  lemma PropagateStored(outer: Option<Expr>, own: Option<Expr>, modules: Sym)
    requires Stored(outer) && Raw(own) && (modules.IsTri() || modules.IsTriConst())
    ensures Stored(Propagate(outer, own, modules))
  {
    var env := SaneExists();
    if own.Some? {
      var e := RewriteM(own.value, modules);
      RewriteMSyntax(own.value, modules);
      TransformNnf(e);
      TransformKeepsSyntax(e);
    }
    var own1 := if own.None? then None else Some(Transform(RewriteM(own.value, modules)));
    var both := AllocAnd(outer, own1);
    if both.Some? {
      EliminateDupsVal(both.value, env, Keep(true, true));
    }
  }

  lemma PropConditionStored(typ: Option<SymType>, base: Option<Expr>, own: Option<Expr>, modules: Sym)
    requires Stored(base) && Raw(own) && (modules.IsTri() || modules.IsTriConst())
    ensures Stored(PropCondition(typ, base, own, modules))
  {
    var env := SaneExists();
    PropagateStored(base, own, modules);
    var dep := Propagate(base, own, modules);
    if dep.Some? {
      TransBoolStatus(dep.value, env);
    }
  }

  /** The stored condition of a tristate's property has the value of the plain
      conjunction; any other one is n in exactly the same environments. */
  lemma PropConditionStatus(typ: Option<SymType>, base: Option<Expr>, own: Option<Expr>, modules: Sym, env: Env)
    requires Sane(env) && OptForm(base) && OptTriComps(own)
    ensures var r := PropCondition(typ, base, own, modules);
      var plain := Ap(OpAnd, ValOpt(base, env), RewrittenVal(own, modules, env));
      && OptForm(r)
      && (ValOpt(r, env) == NO <==> plain == NO)
      && (typ.None? || typ.value.Tristate? ==> ValOpt(r, env) == plain)
  {
    PropagateVal(base, own, modules, env);
    var dep := Propagate(base, own, modules);
    if dep.Some? {
      TransBoolStatus(dep.value, env);
    }
  }

  /** One prompt of a symbol: the condition of its entry and its own condition. */
  datatype Prompt = Prompt(base: Option<Expr>, own: Option<Expr>)

  function StoredVals(typ: SymType, prompts: seq<Prompt>, modules: Sym, env: Env): (s: seq<Tri>)
    ensures |s| == |prompts|
  {
    seq(|prompts|, k requires 0 <= k < |prompts| =>
      ValOpt(PropCondition(Some(typ), prompts[k].base, prompts[k].own, modules), env))
  }

  function PlainVals(prompts: seq<Prompt>, modules: Sym, env: Env): (s: seq<Tri>)
    ensures |s| == |prompts|
  {
    seq(|prompts|, k requires 0 <= k < |prompts| =>
      Ap(OpAnd, ValOpt(prompts[k].base, env), RewrittenVal(prompts[k].own, modules, env)))
  }

  /** Simplifying the prompts of a symbol of any type never changes its visibility. */
  lemma SimplifiedVisibility(typ: SymType, modulesVal: Tri, prompts: seq<Prompt>, modules: Sym, env: Env)
    requires Sane(env)
    requires forall p <- prompts :: OptForm(p.base) && OptTriComps(p.own)
    ensures VisibleOf(typ, modulesVal, StoredVals(typ, prompts, modules, env)) ==
            VisibleOf(typ, modulesVal, PlainVals(prompts, modules, env))
  {
    var a, b := StoredVals(typ, prompts, modules, env), PlainVals(prompts, modules, env);
    forall k | 0 <= k < |prompts|
      ensures (a[k] == NO <==> b[k] == NO) && (typ.Tristate? ==> a[k] == b[k])
    {
      PropConditionStatus(Some(typ), prompts[k].base, prompts[k].own, modules, env);
    }
    if typ.Tristate? {
      assert a == b;
    } else {
      assert MaxOf(a) == NO <==> MaxOf(b) == NO by {
        if MaxOf(a) != NO {
          var k :| 0 <= k < |a| && a[k] == MaxOf(a);
          assert b[k] != NO;
        }
        if MaxOf(b) != NO {
          var k :| 0 <= k < |b| && b[k] == MaxOf(b);
          assert a[k] != NO;
        }
      }
    }
  }
}
