/**
  Which entries are taken into the submenu of a symbol, in terms of the operands of
  their conditions.
 */
module SubmenuTaken {
  import opened Expressions
  import opened Eliminate
  import opened Dups
  import opened Equality
  import opened NoRepeats
  import opened Joins
  import opened Submenu
  import opened Menus
  import opened MenuFinalize
  import T = Transforms
  import E = Evaluation

  // ---------- The first route ----------

  /** x alone is n where s is: s itself, s=y, s=m or s!=n. */
  predicate Demands(x: Expr, s: Sym) {
    x == Symbol(s) || x == Comp(Eq, s, SymYes) || x == Comp(Eq, s, SymMod) || x == Comp(Neq, s, SymNo)
  }

  /** An absolute dependency is an operand of the outermost && that demands s. */
  lemma {:induction false} DependsOperand(e: Expr, s: Sym)
    ensures DependsSymbol(e, s) <==> exists x <- Leaves(OpAnd, e) :: Demands(x, s)
  {
    if IsLevel(OpAnd, e) {
      DependsOperand(e.left, s);
      DependsOperand(e.right, s);
    } else {
      OneDepends(e, s);
      assert Leaves(OpAnd, e) == [e] && [e][0] == e;
    }
  }

  lemma OneDepends(e: Expr, s: Sym)
    requires !IsLevel(OpAnd, e)
    ensures DependsSymbol(e, s) <==> Demands(e, s)
  {
  }

  /** Containing a symbol is mentioning it anywhere. */
  lemma {:induction false} ContainsMentions(e: Expr, s: Sym)
    ensures ContainsSymbol(e, s) <==> s in E.Syms(e)
  {
    match e
    case Bin(_, l, r) =>
      ContainsMentions(l, s);
      ContainsMentions(r, s);
    case Not(a) => ContainsMentions(a, s);
    case Symbol(_) =>
    case Comp(_, _, _) =>
  }

  lemma {:induction false} DemandsMentions(e: Expr, s: Sym)
    requires DependsSymbol(e, s)
    ensures ContainsSymbol(e, s)
  {
    if e.Bin? {
      if DependsSymbol(e.left, s) {
        DemandsMentions(e.left, s);
      } else {
        DemandsMentions(e.right, s);
      }
    }
  }

  // ---------- The second route ----------

  lemma {:induction false} NothingCancelled(op: Op, d: Expr, v: Expr)
    requires Plain(d) && !IsYesNo(d) && Plain(v) && !IsYesNo(v) && !IsLevel(op, v)
    requires Canon(v) !in Operands(op, d)
    ensures CancelLevel(op, d, v) == Pair(d, v, 0)
  {
    hide Canon;
    if IsLevel(op, d) {
      NothingCancelled(op, d.left, v);
      NothingCancelled(op, d.right, v);
    } else {
      ExprEqDecides(d, v);
      CancelOne(op, d, v);
    }
  }

  lemma {:induction false} SomeOperand(op: Op, e: Expr)
    ensures |Operands(op, e)| >= if IsLevel(op, e) then 2 else 1
  {
    hide Canon;
    if IsLevel(op, e) {
      SomeOperand(op, e.left);
      SomeOperand(op, e.right);
    }
  }

  /** More than one operand is not cancelled by a single one. */
  lemma RestRemains(op: Op, d: Expr, v: Expr)
    requires Plain(d) && !IsYesNo(d) && Plain(v) && !IsLevel(op, d) && IsLevel(op, v)
    ensures var p := CancelLevel(op, d, v);
      EliminateYn(p.snd) != Symbol(UnitSym(op)) && EliminateYn(p.snd) != Symbol(ZeroSym(op))
  {
    hide Canon, CancelLevel, EliminateYn;
    PlainIsLive(op, d);
    PlainIsLive(op, v);
    CancelTakesCommon(op, d, v);
    LiveRemains(op, CancelLevel(op, d, v).snd);
    SomeOperand(op, v);
    assert |Operands(op, d)| == 1;
    hide Operands;
    LessThanTwo(Operands(op, v), Operands(op, d));
  }

  lemma LessThanTwo(a: multiset<Canonical>, b: multiset<Canonical>)
    requires |a| >= 2 && |b| == 1
    ensures a - b != multiset{}
  {
    Subtracted(a, b);
    assert a <= b ==> b == a + (b - a) && |b| == |a| + |b - a|;
  }

  lemma Subtracted(a: multiset<Canonical>, b: multiset<Canonical>)
    ensures a - b == multiset{} <==> a <= b
  {
    if a - b == multiset{} {
      forall c: Canonical
        ensures a[c] <= b[c]
      {
        assert (a - b)[c] == 0;
      }
    }
  }

  /** What the cancellation leaves of the prompt's condition v is y if and only if the
      entry's condition d is an && that has every operand of v, at least as often. */
  lemma CancelledAway(d: Expr, v: Expr)
    requires Plain(d) && !IsYesNo(d) && Plain(v) && !IsYesNo(v)
    ensures EliminateEq(d, v).snd == Symbol(SymYes) <==>
      IsLevel(OpAnd, d) && Operands(OpAnd, v) <= Operands(OpAnd, d)
  {
    hide Canon, CancelLevel, EliminateYn, Plain, Operands;
    PlainNotSimplified(v);
    if !d.Bin? {
      if v.Bin? {
        RestRemains(v.op, d, v);
      }
    } else if IsLevel(d.op, v) {
      LevelsCancel(d.op, d, v);
    } else {
      SingleCancels(d.op, d, v);
      OneOperand(d.op, v);
      if v.Bin? {
        RestRemains(v.op, d, v);
      }
    }
  }

  lemma OneOperand(op: Op, v: Expr)
    requires !IsLevel(op, v)
    ensures Operands(op, v) == multiset{Canon(v)}
  {
  }

  lemma LevelsCancel(op: Op, d: Expr, v: Expr)
    requires Plain(d) && Plain(v) && IsLevel(op, d) && IsLevel(op, v)
    ensures var p := CancelLevel(op, d, v);
      && EliminateYn(p.snd) != Symbol(ZeroSym(op))
      && (EliminateYn(p.snd) == Symbol(UnitSym(op)) <==> Operands(op, v) <= Operands(op, d))
  {
    hide Canon, CancelLevel, EliminateYn;
    PlainIsLive(op, d);
    PlainIsLive(op, v);
    CancelTakesCommon(op, d, v);
    LiveRemains(op, CancelLevel(op, d, v).snd);
    hide Operands, Live;
    Subtracted(Operands(op, v), Operands(op, d));
  }

  /** A single operand of the prompt's condition is cancelled or stays as it is, and
      then so does the entry's condition. */
  lemma SingleCancels(op: Op, d: Expr, v: Expr)
    requires Plain(d) && IsLevel(op, d) && Plain(v) && !IsYesNo(v) && !IsLevel(op, v)
    ensures var p := CancelLevel(op, d, v);
      if Canon(v) in Operands(op, d) then p.snd == Symbol(UnitSym(op)) && EliminateYn(p.snd) == p.snd
      else p == Pair(d, v, 0)
  {
    hide Canon, CancelLevel;
    if Canon(v) in Operands(op, d) {
      PlainIsLive(op, d);
      PlainIsLive(op, v);
      CancelTakesCommon(op, d, v);
      assert Operands(op, v) == multiset{Canon(v)};
      hide Operands;
      Subtracted(Operands(op, v), Operands(op, d));
      assert !IsLevel(op, CancelLevel(op, d, v).snd);
    } else {
      NothingCancelled(op, d, v);
    }
  }

  /** Without a condition on the prompt every entry that mentions the symbol is taken. */
  lemma {:induction false} YesStays(op: Op, d: Expr)
    ensures CancelLevel(op, d, Symbol(SymYes)).snd == Symbol(SymYes)
  {
    if IsLevel(op, d) {
      YesStays(op, d.left);
      YesStays(op, d.right);
    }
  }

  lemma NoPromptCondition()
    ensures NonNo(None) == Symbol(SymYes)
  {
    hide Rows, Row, Step, Join;
    assert T.Transform(Not(Symbol(SymNo))) == Symbol(SymYes);
    assert Settled(Symbol(SymYes));
  }

  // ---------- Both routes ----------

  /** An entry with an operand that demands the symbol is always taken in. */
  lemma OperandTaken(sym: Sym, vis: Option<Expr>, dep: Expr, x: Expr)
    requires x in Leaves(OpAnd, dep) && Demands(x, sym)
    ensures BelongsUnder(sym, vis, Some(dep))
  {
    hide NonNo, EliminateEq, Demands, Leaves;
    DependsOperand(dep, sym);
    DemandsMentions(dep, sym);
  }

  /** If the prompt's condition simplifies to y, as that of a prompt without one does,
      every entry that mentions the symbol is. */
  lemma MentionTaken(sym: Sym, vis: Option<Expr>, dep: Expr)
    requires vis.None? || NonNo(vis) == Symbol(SymYes)
    ensures BelongsUnder(sym, vis, Some(dep)) <==> sym in E.Syms(dep)
  {
    hide NonNo, CancelLevel;
    ContainsMentions(dep, sym);
    NoPromptCondition();
    var d := NonNo(Some(dep));
    if d.Bin? {
      YesStays(d.op, d);
    }
  }

  /** For conditions that are plain once simplified: an entry is taken in if and only if
      it mentions the symbol, and has an operand that demands it or is an && with every
      operand of the prompt's condition, at least as often. */
  lemma TakenIff(sym: Sym, vis: Expr, dep: Expr)
    requires var d, v := NonNo(Some(dep)), NonNo(Some(vis));
      Plain(d) && !IsYesNo(d) && Plain(v) && !IsYesNo(v)
    ensures var d, v := NonNo(Some(dep)), NonNo(Some(vis));
      BelongsUnder(sym, Some(vis), Some(dep)) <==>
        && sym in E.Syms(dep)
        && ((exists x <- Leaves(OpAnd, dep) :: Demands(x, sym))
            || (IsLevel(OpAnd, d) && Operands(OpAnd, v) <= Operands(OpAnd, d)))
  {
    hide NonNo, EliminateEq, Demands, Leaves, Operands, Plain;
    ContainsMentions(dep, sym);
    DependsOperand(dep, sym);
    CancelledAway(NonNo(Some(dep)), NonNo(Some(vis)));
  }

  // ---------- The run of entries taken in ----------

  ghost function TopLevel(f: Forest): seq<Node> {
    match f
    case Nil => []
    case Cons(n, _, rest) => [n] + TopLevel(rest)
  }

  /** All entries taken in follow p, and the first one left behind does not. */
  lemma {:induction false} AbsorbStops(p: Node, f: Forest, modules: Sym)
    requires p.m.entry.Some?
    ensures var a := Absorb(p, f, modules);
      && (forall n <- TopLevel(a.kids) :: Follows(p, n))
      && (a.rest.Cons? ==> !Follows(p, a.rest.n))
    decreases Count(f)
  {
    hide Follows, Finalize, Preorder;
    if f.Cons? && Follows(p, f.n) {
      AbsorbStops(p, Finalize(f.n, f.kids, f.rest, modules).rest, modules);
    }
  }

  /** What an entry is judged by: the condition of its prompt, or its own without one. */
  function JudgedBy(n: Node): Option<Expr> {
    if n.m.hasPrompt then n.visible else n.dep
  }

  /** Only the prompt of the symbol counts, not what the symbol depends on itself. */
  lemma NodeTakenIff(p: Node, n: Node)
    requires p.m.entry.Some?
    ensures Follows(p, n) <==>
      BelongsUnder(p.m.entry.value.sym, if p.m.hasPrompt then p.visible else None, JudgedBy(n))
  {
  }

  /** So no operand of the condition of the first one left behind demands the symbol of
      p; and an entry that stands right behind p with such an operand is taken in. */
  lemma OperandAbsorbed(p: Node, f: Forest, modules: Sym, x: Expr)
    requires p.m.entry.Some? && Demands(x, p.m.entry.value.sym)
    ensures var a := Absorb(p, f, modules);
      && (a.rest.Cons? && JudgedBy(a.rest.n).Some? ==> x !in Leaves(OpAnd, JudgedBy(a.rest.n).value))
      && (f.Cons? && JudgedBy(f.n).Some? && x in Leaves(OpAnd, JudgedBy(f.n).value) ==>
        a.kids.Cons? && a.kids.n == f.n)
  {
    hide Demands, Leaves, BelongsUnder, Follows, Preorder, JudgedBy;
    var a := Absorb(p, f, modules);
    AbsorbStops(p, f, modules);
    if a.rest.Cons? {
      OperandFollows(p, a.rest.n, x);
    }
    if f.Cons? {
      OperandFollows(p, f.n, x);
    }
  }

  lemma OperandFollows(p: Node, n: Node, x: Expr)
    requires p.m.entry.Some? && Demands(x, p.m.entry.value.sym)
    ensures JudgedBy(n).Some? && x in Leaves(OpAnd, JudgedBy(n).value) ==> Follows(p, n)
  {
    hide Demands, Leaves, BelongsUnder, Follows;
    NodeTakenIff(p, n);
    if JudgedBy(n).Some? && x in Leaves(OpAnd, JudgedBy(n).value) {
      OperandTaken(p.m.entry.value.sym, if p.m.hasPrompt then p.visible else None, JudgedBy(n).value, x);
    }
  }

  /** Finalizing an entry with children leaves the siblings behind it alone, and so does
      one without a symbol; one with a symbol and no children takes in all that follow
      it, beginning with the next one. */
  lemma FinalizeTakes(p: Node, kids: Forest, rest: Forest, modules: Sym)
    ensures var r := Finalize(p, kids, rest, modules);
      && (kids.Cons? || p.m.entry.None? ==> r.rest == rest)
      && (kids.Nil? && p.m.entry.Some? ==>
          && (r.rest.Cons? ==> !Follows(p, r.rest.n))
          && (rest.Cons? && Follows(p, rest.n) ==> r.kids.Cons? && r.kids.n == rest.n))
  {
    hide Follows, FinalizeList, InheritAll, Preorder, ParentDep;
    if kids.Nil? && p.m.entry.Some? {
      AbsorbStops(p, rest, modules);
    }
  }

  ghost predicate SuffixOf(g: Forest, f: Forest) {
    g == f || (f.Cons? && SuffixOf(g, f.rest))
  }

  lemma {:induction false} SuffixTrans(a: Forest, b: Forest, c: Forest)
    requires SuffixOf(a, b) && SuffixOf(b, c)
    ensures SuffixOf(a, c)
  {
    if b != c {
      SuffixTrans(a, b, c.rest);
    }
  }

  /** Of the siblings, those that are left are as they were. */
  lemma {:induction false} RestIsSuffix(p: Node, kids: Forest, rest: Forest, modules: Sym)
    ensures SuffixOf(Finalize(p, kids, rest, modules).rest, rest)
    decreases Count(kids) + Count(rest), 2
  {
    hide FinalizeList, Flatten, InheritAll, Preorder, ParentDep;
    if kids.Nil? && p.m.entry.Some? {
      AbsorbSuffix(p, rest, modules);
    }
  }

  lemma {:induction false} AbsorbSuffix(p: Node, f: Forest, modules: Sym)
    requires p.m.entry.Some?
    ensures SuffixOf(Absorb(p, f, modules).rest, f)
    decreases Count(f), 1
  {
    hide Follows, Finalize, Preorder;
    if f.Cons? && Follows(p, f.n) {
      var s := Finalize(f.n, f.kids, f.rest, modules);
      RestIsSuffix(f.n, f.kids, f.rest, modules);
      AbsorbSuffix(p, s.rest, modules);
      SuffixTrans(Absorb(p, s.rest, modules).rest, s.rest, f.rest);
    }
  }

  /** Does m stand among the siblings with children of its own? */
  ghost predicate HasKids(f: Forest, m: Menu) {
    f.Cons? && ((f.n.m == m && f.kids.Cons?) || HasKids(f.rest, m))
  }

  lemma {:induction false} SuffixKids(g: Forest, f: Forest, m: Menu)
    requires SuffixOf(g, f) && HasKids(g, m)
    ensures HasKids(f, m)
  {
    if g != f {
      SuffixKids(g, f.rest, m);
    }
  }

  /** No entry with a symbol and without children of its own is left with a sibling right
      behind it that should be in its submenu. */
  lemma {:induction false} ListSeparated(f: Forest, modules: Sym, k: nat)
    requires k + 1 < |TopLevel(FinalizeList(f, modules))|
    ensures var g := TopLevel(FinalizeList(f, modules));
      g[k].m.entry.Some? ==> HasKids(f, g[k].m) || !Follows(g[k], g[k + 1])
    decreases Count(f)
  {
    hide Follows, Finalize, Preorder, HasKids;
    var s := Finalize(f.n, f.kids, f.rest, modules);
    var t := TopLevel(FinalizeList(s.rest, modules));
    assert TopLevel(FinalizeList(f, modules)) == [f.n] + t;
    FinalizeTakes(f.n, f.kids, f.rest, modules);
    RestIsSuffix(f.n, f.kids, f.rest, modules);
    if k > 0 {
      ListSeparated(s.rest, modules, k - 1);
      var m := t[k - 1].m;
      if HasKids(s.rest, m) {
        SuffixKids(s.rest, f.rest, m);
        LaterKids(f, m);
      }
    } else {
      FirstOfList(s.rest, modules);
      FirstKids(f);
    }
  }

  lemma LaterKids(f: Forest, m: Menu)
    requires f.Cons? && HasKids(f.rest, m)
    ensures HasKids(f, m)
  {
  }

  lemma FirstKids(f: Forest)
    requires f.Cons?
    ensures f.kids.Cons? ==> HasKids(f, f.n.m)
  {
  }

  lemma FirstOfList(f: Forest, modules: Sym)
    ensures var g := TopLevel(FinalizeList(f, modules)); g != [] ==> f.Cons? && g[0] == f.n
  {
    hide Finalize, Preorder;
  }
}
