/**
  The conditions that entries hold after a whole run of menu_finalize: those
  inherited down their original path, wherever the entry has moved meanwhile.
 */
module MenuConditions {
  import opened Expressions
  import opened Menus
  import opened MenuFinalize
  import V = Visibility

  /** All nodes in preorder, with the conditions they hold. */
  ghost function Records(f: Forest): seq<Node> {
    match f
    case Nil => []
    case Cons(n, kids, rest) => [n] + Records(kids) + Records(rest)
  }

  /** Inheritance alone, without any restructuring. */
  ghost function InheritDeep(parentDep: Option<Expr>, f: Forest, modules: Sym): Forest
    decreases f
  {
    match f
    case Nil => Nil
    case Cons(n, kids, rest) =>
      var r := Inherit(parentDep, n, modules);
      Cons(r, InheritDeep(ParentDep(r), kids, modules), InheritDeep(parentDep, rest, modules))
  }

  /** The same for siblings that have inherited already, but not their children. */
  ghost function Inherited(f: Forest, modules: Sym): seq<Node> {
    match f
    case Nil => []
    case Cons(n, kids, rest) => [n] + Records(InheritDeep(ParentDep(n), kids, modules)) + Inherited(rest, modules)
  }

  // ---------- Restructuring changes no condition ----------

  lemma {:induction false} InheritFirst(parentDep: Option<Expr>, f: Forest, modules: Sym)
    ensures Inherited(InheritAll(parentDep, f, modules), modules) == Records(InheritDeep(parentDep, f, modules))
  {
    if f.Cons? {
      InheritFirst(parentDep, f.rest, modules);
    }
  }

  lemma {:induction false} RecordsAppend(f: Forest, g: Forest)
    ensures Records(Append(f, g)) == Records(f) + Records(g)
  {
    if f.Cons? {
      RecordsAppend(f.rest, g);
      SumTail([f.n] + Records(f.kids), Records(f.rest), Records(g), Records(Append(f.rest, g)));
    }
  }

  lemma {:induction false} RecordsFlatten(f: Forest)
    ensures Records(Flatten(f)) == Records(f)
    decreases Count(f)
  {
    if f.Cons? {
      AppendFacts(f.kids, f.rest);
      if f.kids.Cons? && !f.n.m.hasText {
        RecordsAppend(f.kids, f.rest);
        RecordsFlatten(Append(f.kids, f.rest));
        SumTail([f.n], Records(f.kids), Records(f.rest), Records(Append(f.kids, f.rest)));
      } else {
        RecordsFlatten(f.rest);
      }
    }
  }

  lemma {:induction false} FinalizeRecords(p: Node, kids: Forest, rest: Forest, modules: Sym)
    ensures var r := Finalize(p, kids, rest, modules);
      Records(r.kids) + Inherited(r.rest, modules) ==
      Records(InheritDeep(ParentDep(p), kids, modules)) + Inherited(rest, modules)
    decreases Count(kids) + Count(rest), 2
  {
    hide FinalizeList, Absorb, Flatten, InheritAll, Inherit, Preorder, ParentDep;
    if kids.Cons? {
      var f := InheritAll(ParentDep(p), kids, modules);
      ListRecords(f, modules);
      RecordsFlatten(FinalizeList(f, modules));
      InheritFirst(ParentDep(p), kids, modules);
    } else if p.m.entry.Some? {
      AbsorbRecords(p, rest, modules);
      RecordsFlatten(Absorb(p, rest, modules).kids);
    }
  }

  lemma {:induction false} ListRecords(f: Forest, modules: Sym)
    ensures Records(FinalizeList(f, modules)) == Inherited(f, modules)
    decreases Count(f), 1
  {
    hide Finalize, Inherit, InheritDeep, ParentDep, Preorder;
    if f.Cons? {
      var s := Finalize(f.n, f.kids, f.rest, modules);
      FinalizeRecords(f.n, f.kids, f.rest, modules);
      ListRecords(s.rest, modules);
      SumRegrouped([f.n], Records(InheritDeep(ParentDep(f.n), f.kids, modules)), Inherited(f.rest, modules),
        Records(s.kids), Inherited(s.rest, modules));
    }
  }

  lemma {:induction false} AbsorbRecords(p: Node, f: Forest, modules: Sym)
    requires p.m.entry.Some?
    ensures var a := Absorb(p, f, modules);
      Records(a.kids) + Inherited(a.rest, modules) == Inherited(f, modules)
    decreases Count(f), 1
  {
    hide Finalize, Inherit, InheritDeep, ParentDep, Preorder, Follows;
    if f.Cons? && Follows(p, f.n) {
      var s := Finalize(f.n, f.kids, f.rest, modules);
      var a := Absorb(p, s.rest, modules);
      FinalizeRecords(f.n, f.kids, f.rest, modules);
      AbsorbRecords(p, s.rest, modules);
      SumRegrouped([f.n], Records(InheritDeep(ParentDep(f.n), f.kids, modules)), Inherited(f.rest, modules),
        Records(s.kids), Inherited(s.rest, modules));
      SumTail([f.n] + Records(s.kids), Records(a.kids), Inherited(a.rest, modules), Inherited(s.rest, modules));
    }
  }

  // ---------- The values along a path ----------

  /** The conjunctions on the path to an entry, and to its prompt. */
  datatype Path = Path(dep: Tri, visible: Tri)

  function PathOf(inherited: Tri, n: Node, modules: Sym, env: Env): Path {
    var dep := Ap(OpAnd, inherited, V.RewrittenVal(n.dep, modules, env));
    Path(dep, Ap(OpAnd, dep, V.RewrittenVal(n.visible, modules, env)))
  }

  /** What goes on to the children. */
  function Onward(n: Node, path: Path, env: Env): Tri {
    if n.m.entry.Some? && n.m.entry.value.isChoice then env.tri(n.m.entry.value.sym)
    else if n.m.hasPrompt then path.visible
    else path.dep
  }

  ghost function Paths(inherited: Tri, f: Forest, modules: Sym, env: Env): seq<Path>
    decreases f
  {
    match f
    case Nil => []
    case Cons(n, kids, rest) =>
      var path := PathOf(inherited, n, modules, env);
      [path] + Paths(Onward(n, path, env), kids, modules, env) + Paths(inherited, rest, modules, env)
  }

  /** Only a prompt of a symbol that is no tristate is simplified to whether it is n. */
  predicate KeepsValue(m: Menu) {
    m.entry.None? || m.entry.value.sym.Type().Tristate?
  }

  /** The stored conditions are n where the path is; and if nothing was simplified to
      that on the way, have its value. */
  ghost predicate Holds(n: Node, path: Path, exact: bool, env: Env) {
    && (ValOpt(n.dep, env) == NO <==> path.dep == NO)
    && (exact ==> ValOpt(n.dep, env) == path.dep)
    && (n.m.hasPrompt ==>
      && (ValOpt(n.visible, env) == NO <==> path.visible == NO)
      && (exact && KeepsValue(n.m) ==> ValOpt(n.visible, env) == path.visible))
  }

  ghost predicate AllHold(s: seq<Node>, paths: seq<Path>, exact: bool, env: Env) {
    |s| == |paths| && forall k :: 0 <= k < |s| ==> Holds(s[k], paths[k], exact, env)
  }

  /** Children stand only below choices, entries without prompt, and prompts that
      keep their value: as they do before any submenu is made. */
  ghost predicate HeadsKeepValue(f: Forest) {
    match f
    case Nil => true
    case Cons(n, kids, rest) =>
      && (kids.Cons? ==> KeepsValue(n.m) || !n.m.hasPrompt || n.m.entry.value.isChoice)
      && HeadsKeepValue(kids) && HeadsKeepValue(rest)
  }

  ghost predicate AllTriComps(f: Forest) {
    match f
    case Nil => true
    case Cons(n, kids, rest) =>
      V.OptTriComps(n.dep) && V.OptTriComps(n.visible) && AllTriComps(kids) && AllTriComps(rest)
  }

  lemma OneHolds(parentDep: Option<Expr>, inherited: Tri, n: Node, modules: Sym, exact: bool, env: Env)
    requires Sane(env) && V.OptForm(parentDep) && V.OptTriComps(n.dep) && V.OptTriComps(n.visible)
    requires (ValOpt(parentDep, env) == NO <==> inherited == NO) && (exact ==> ValOpt(parentDep, env) == inherited)
    ensures var r, path := Inherit(parentDep, n, modules), PathOf(inherited, n, modules, env);
      && Holds(r, path, exact, env) && V.OptForm(ParentDep(r))
      && (ValOpt(ParentDep(r), env) == NO <==> Onward(n, path, env) == NO)
      && (exact && (KeepsValue(n.m) || !n.m.hasPrompt || n.m.entry.value.isChoice) ==>
        ValOpt(ParentDep(r), env) == Onward(n, path, env))
  {
    hide V.Propagate, V.PropCondition, V.RewrittenVal;
    V.PropagateVal(parentDep, n.dep, modules, env);
    V.PropConditionStatus(TypeOf(n.m), V.Propagate(parentDep, n.dep, modules), n.visible, modules, env);
  }

  lemma {:induction false} DeepHolds(parentDep: Option<Expr>, inherited: Tri, f: Forest, modules: Sym, exact: bool, env: Env)
    requires Sane(env) && V.OptForm(parentDep) && AllTriComps(f) && (exact ==> HeadsKeepValue(f))
    requires (ValOpt(parentDep, env) == NO <==> inherited == NO) && (exact ==> ValOpt(parentDep, env) == inherited)
    ensures AllHold(Records(InheritDeep(parentDep, f, modules)), Paths(inherited, f, modules, env), exact, env)
    decreases f
  {
    hide Inherit, ParentDep, Holds, PathOf, Onward, Sane, AllHold;
    NoneHold(exact, env);
    if f.Cons? {
      var n, path := f.n, PathOf(inherited, f.n, modules, env);
      var r := Inherit(parentDep, n, modules);
      OneHolds(parentDep, inherited, n, modules, exact, env);
      if f.kids.Cons? {
        DeepHolds(ParentDep(r), Onward(n, path, env), f.kids, modules, exact, env);
      }
      DeepHolds(parentDep, inherited, f.rest, modules, exact, env);
      hide InheritDeep, Records, Paths;
      DeepParts(parentDep, inherited, f, modules, env);
      MoreHold(r, path, Records(InheritDeep(ParentDep(r), f.kids, modules)), Paths(Onward(n, path, env), f.kids, modules, env),
        Records(InheritDeep(parentDep, f.rest, modules)), Paths(inherited, f.rest, modules, env), exact, env);
    }
  }

  lemma DeepParts(parentDep: Option<Expr>, inherited: Tri, f: Forest, modules: Sym, env: Env)
    requires f.Cons?
    ensures var r, path := Inherit(parentDep, f.n, modules), PathOf(inherited, f.n, modules, env);
      var onward := Onward(f.n, path, env);
      && Records(InheritDeep(parentDep, f, modules)) ==
          [r] + Records(InheritDeep(ParentDep(r), f.kids, modules)) + Records(InheritDeep(parentDep, f.rest, modules))
      && Paths(inherited, f, modules, env) ==
          [path] + Paths(onward, f.kids, modules, env) + Paths(inherited, f.rest, modules, env)
      && (f.kids.Nil? ==> Records(InheritDeep(ParentDep(r), f.kids, modules)) == [] && Paths(onward, f.kids, modules, env) == [])
  {
    hide Inherit, ParentDep, PathOf, Onward;
  }

  lemma NoneHold(exact: bool, env: Env)
    ensures AllHold([], [], exact, env)
  {
  }

  lemma MoreHold(n: Node, path: Path, a: seq<Node>, p: seq<Path>, b: seq<Node>, q: seq<Path>, exact: bool, env: Env)
    requires Holds(n, path, exact, env) && AllHold(a, p, exact, env) && AllHold(b, q, exact, env)
    ensures AllHold([n] + a + b, [path] + p + q, exact, env)
  {
    hide Holds;
  }

  lemma {:induction false} RecordsInOrder(f: Forest)
    ensures |Records(f)| == |Preorder(f)| && forall k :: 0 <= k < |Records(f)| ==> Records(f)[k].m == Preorder(f)[k]
  {
    if f.Cons? {
      RecordsInOrder(f.kids);
      RecordsInOrder(f.rest);
    }
  }

  /** Over a whole run: in preorder, which the run keeps, every entry ends up with the
      conjunction of the rewritten conditions on its path from the root, as far as n
      goes; and with its exact value where children stand as they do when parsed. */
  lemma ConditionsOverRun(root: Node, f: Forest, modules: Sym, exact: bool, env: Env)
    requires Sane(env) && V.OptForm(ParentDep(root)) && AllTriComps(f) && (exact ==> HeadsKeepValue(f))
    ensures var r := Records(Finalize(root, f, Nil, modules).kids);
      && AllHold(r, Paths(ValOpt(ParentDep(root), env), f, modules, env), exact, env)
      && |r| == |Preorder(f)| && forall k :: 0 <= k < |r| ==> r[k].m == Preorder(f)[k]
  {
    hide Finalize, ParentDep, Preorder, Paths, AllHold, InheritDeep, Sane, Inherited;
    var r := Finalize(root, f, Nil, modules);
    FinalizeRecords(root, f, Nil, modules);
    NothingLeft(root, f, modules);
    var deep := Records(InheritDeep(ParentDep(root), f, modules));
    assert Records(r.kids) == Records(r.kids) + [] == deep + [] == deep;
    DeepHolds(ParentDep(root), ValOpt(ParentDep(root), env), f, modules, exact, env);
    RecordsInOrder(r.kids);
  }

  lemma NothingLeft(root: Node, f: Forest, modules: Sym)
    ensures var r := Finalize(root, f, Nil, modules);
      r.rest == Nil && Inherited(Nil, modules) == [] && Preorder(r.kids) == Preorder(f)
  {
    hide FinalizeList, Flatten, InheritAll;
    var r := Finalize(root, f, Nil, modules);
    SumTail([], Preorder(r.kids), [], Preorder(f));
  }
}
