/**
  The recursive dependency check of sym_check_deps, for symbols outside choices:
  a depth-first search that marks symbols and keeps the path to the current one.
 */
module CycleCheck {
  import opened Expressions
  import E = Evaluation

  datatype PropKind = ChoiceProp | SelectProp | DefaultProp | OtherProp

  datatype Prop = Prop(kind: PropKind, visible: Option<Expr>, expr: Option<Expr>)

  /** What the check looks at in a symbol. */
  datatype Node = Node(revDep: Option<Expr>, props: seq<Prop>)

  type Graph = Sym -> Node

  predicate Skipped(p: Prop) {
    p.kind.ChoiceProp? || p.kind.SelectProp?
  }

  ghost predicate PropFollows(p: Prop, t: Sym) {
    !Skipped(p) && (t in E.SymsOpt(p.visible) || (p.kind.DefaultProp? && t in E.SymsOpt(p.expr)))
  }

  /** The dependencies the check follows. */
  ghost predicate Follows(g: Graph, s: Sym, t: Sym) {
    t in E.SymsOpt(g(s).revDep) || exists p <- g(s).props :: PropFollows(p, t)
  }

  ghost predicate IsCycle(g: Graph, path: seq<Sym>) {
    && path != []
    && (forall i :: 0 <= i < |path| - 1 ==> Follows(g, path[i], path[i + 1]))
    && Follows(g, path[|path| - 1], path[0])
  }

  /** What a property leads to: a select or choice property nowhere, any other to the
      symbols of its condition, and a default also to those of its value. */
  ghost predicate LeadsTo(p: Prop, t: Sym) {
    match p.kind
    case ChoiceProp => false
    case SelectProp => false
    case DefaultProp => t in E.SymsOpt(p.visible) || t in E.SymsOpt(p.expr)
    case OtherProp => t in E.SymsOpt(p.visible)
  }

  /** One more property adds exactly what it leads to. */
  lemma PropAdds(g: Graph, h: Graph, s: Sym, p: Prop, t: Sym)
    requires h(s).revDep == g(s).revDep && h(s).props == g(s).props + [p]
    ensures Follows(h, s, t) <==> Follows(g, s, t) || LeadsTo(p, t)
  {
    assert p in h(s).props && forall q <- h(s).props :: q in g(s).props || q == p;
    assert forall q <- g(s).props :: q in h(s).props;
    assert PropFollows(p, t) <==> LeadsTo(p, t);
    hide PropFollows, E.SymsOpt;
  }

  /** Without properties it is followed exactly to what selects it. */
  lemma SelectorsFollowed(g: Graph, s: Sym, t: Sym)
    requires g(s).props == []
    ensures Follows(g, s, t) <==> t in E.SymsOpt(g(s).revDep)
  {
  }

  /** A place on the path: the symbol, and the property and expression being followed. */
  datatype Entry = Entry(sym: Sym, prop: Option<Prop>, expr: Option<Expr>)

  /** Is t there, in what the entry says is being followed? */
  ghost predicate Explains(g: Graph, e: Entry, t: Sym) {
    if e.prop.None? then e.expr.None? && t in E.SymsOpt(g(e.sym).revDep)
    else
      var p := e.prop.value;
      && p in g(e.sym).props && !Skipped(p)
      && if e.expr.Some? then p.kind.DefaultProp? && e.expr == p.expr && t in E.Syms(e.expr.value)
         else t in E.SymsOpt(p.visible)
  }

  lemma ExplainsFollows(g: Graph, e: Entry, t: Sym)
    requires Explains(g, e, t)
    ensures Follows(g, e.sym, t)
  {
    if e.prop.Some? {
      assert PropFollows(e.prop.value, t);
    }
  }

  /** A line of a report: the symbol of the entry "is selected by", "depends on"
      or has a default value that "contains" the next one. */
  datatype Line = Line(entry: Entry, next: Sym)

  type Report = seq<Line>

  /** Every line is true, each goes on where the last one ended, and the last one
      comes back to the first. */
  ghost predicate Genuine(g: Graph, r: Report) {
    && r != []
    && (forall i :: 0 <= i < |r| ==> Explains(g, r[i].entry, r[i].next))
    && (forall i :: 0 <= i < |r| - 1 ==> r[i].next == r[i + 1].entry.sym)
    && r[|r| - 1].next == r[0].entry.sym
  }

  lemma GenuineIsCycle(g: Graph, r: Report)
    requires Genuine(g, r)
    ensures IsCycle(g, seq(|r|, i requires 0 <= i < |r| => r[i].entry.sym))
  {
    var path := seq(|r|, i requires 0 <= i < |r| => r[i].entry.sym);
    forall i | 0 <= i < |r|
      ensures Follows(g, path[i], r[i].next)
    {
      ExplainsFollows(g, r[i].entry, r[i].next);
    }
  }

  /** Each entry leads to the next one. */
  ghost predicate IsPath(g: Graph, stack: seq<Entry>) {
    forall i :: 0 <= i < |stack| - 1 ==> Explains(g, stack[i], stack[i + 1].sym)
  }

  /** The path from the entry of `last` upwards, closed by a step back to it. */
  lemma PathReport(g: Graph, stack: seq<Entry>, at: nat, last: Sym, report: Report)
    requires IsPath(g, stack) && at < |stack| && stack[at].sym == last && Explains(g, stack[|stack| - 1], last)
    requires |report| == |stack| - at
    requires forall k :: 0 <= k < |report| ==>
      report[k] == Line(stack[at + k], if at + k + 1 < |stack| then stack[at + k + 1].sym else last)
    ensures Genuine(g, report)
  {
    hide Explains;
    forall k | 0 <= k < |report|
      ensures Explains(g, report[k].entry, report[k].next)
    {
      assert report[k] == Line(stack[at + k], if at + k + 1 < |stack| then stack[at + k + 1].sym else last);
    }
  }

  /** A rank that goes down along every followed dependency rules cycles out. */
  lemma {:induction false} RankedPath(g: Graph, rank: map<Sym, nat>, path: seq<Sym>, k: nat)
    requires forall s <- rank, t: Sym :: Follows(g, s, t) ==> t in rank && rank[t] < rank[s]
    requires k < |path| && path[0] in rank
    requires forall i :: 0 <= i < |path| - 1 ==> Follows(g, path[i], path[i + 1])
    ensures path[k] in rank && rank[path[k]] <= rank[path[0]]
  {
    if k > 0 {
      RankedPath(g, rank, path, k - 1);
      assert Follows(g, path[k - 1], path[k - 1 + 1]);
    }
  }

  // ---------- What this means for the evaluator ----------

  /** The node lists what the definition of the symbol mentions, apart from its own
      dependencies, what implies it and the bounds of its ranges. */
  ghost predicate Describes(n: Node, def: E.SymDef) {
    && n.revDep == def.revDep
    && (forall p <- def.prompts :: Prop(OtherProp, p, None) in n.props)
    && (forall d <- def.defaults :: Prop(DefaultProp, d.cond, Some(d.value)) in n.props)
    && (forall r <- def.ranges :: Prop(OtherProp, r.cond, None) in n.props)
  }

  ghost predicate Unfollowed(def: E.SymDef, t: Sym) {
    || t in E.SymsOpt(def.dirDep) || t in E.SymsOpt(def.implied)
    || exists r <- def.ranges :: t == r.lo || t == r.hi
  }

  ghost function RankOf(rank: map<Sym, nat>): Sym -> nat {
    (s: Sym) => if s in rank then rank[s] else 0
  }

  /** The ranks of a check that reported nothing make the dependencies of the
      evaluator acyclic, if those that the check does not follow agree with them. */
  lemma EvaluatorAcyclic(g: Graph, rank: map<Sym, nat>, defs: Sym -> E.SymDef)
    requires forall s <- rank, t: Sym :: Follows(g, s, t) ==> t in rank && rank[t] < rank[s]
    requires forall s <- rank :: Describes(g(s), defs(s))
    requires forall s: Sym, t: Sym :: s !in rank ==> !E.Consults(defs(s), t)
    requires forall s <- rank, t: Sym :: Unfollowed(defs(s), t) ==> t in rank && rank[t] < rank[s]
    ensures E.Acyclic(defs, RankOf(rank))
  {
    forall s: Sym, t: Sym | !s.Type().Unknown? && E.Consults(defs(s), t)
      ensures RankOf(rank)(t) < RankOf(rank)(s)
    {
      ConsultsFollows(g(s), defs(s), t);
      assert Follows(g, s, t) || Unfollowed(defs(s), t);
    }
  }

  lemma ConsultsFollows(n: Node, def: E.SymDef, t: Sym)
    requires Describes(n, def) && E.Consults(def, t)
    ensures t in E.SymsOpt(n.revDep) || (exists p <- n.props :: PropFollows(p, t)) || Unfollowed(def, t)
  {
    if p :| p in def.prompts && t in E.SymsOpt(p) {
      assert PropFollows(Prop(OtherProp, p, None), t);
    } else if d :| d in def.defaults && (t in E.SymsOpt(d.cond) || t in E.Syms(d.value)) {
      assert PropFollows(Prop(DefaultProp, d.cond, Some(d.value)), t);
    } else if r :| r in def.ranges && t in E.SymsOpt(r.cond) {
      assert PropFollows(Prop(OtherProp, r.cond, None), t);
    }
  }

  class Checker {
    const g: Graph
    const symbols: set<Sym>

    /** SYMBOL_CHECK, SYMBOL_CHECKED, the path, and what was printed. */
    var check: set<Sym>
    var checked: set<Sym>
    var stack: seq<Entry>
    var reports: seq<Report>
    /** When each finished symbol was finished. */
    ghost var rank: map<Sym, nat>
    ghost var clock: nat

    constructor (g: Graph, symbols: set<Sym>)
      requires forall s <- symbols, t: Sym :: Follows(g, s, t) ==> t in symbols
      ensures this.g == g && this.symbols == symbols && Valid({})
      ensures check == {} && checked == {} && stack == [] && reports == []
    {
      this.g, this.symbols := g, symbols;
      check, checked, stack, reports := {}, {}, [], [];
      rank, clock := map[], 0;
    }

    ghost predicate Ranked()
      reads this
    {
      && rank.Keys == checked - check
      && (forall s <- rank :: rank[s] < clock)
      && forall s <- rank, t: Sym :: Follows(g, s, t) ==> t in rank && rank[t] < rank[s]
    }

    ghost predicate OnStack(s: Sym)
      reads this`stack
    {
      exists i :: 0 <= i < |stack| && stack[i].sym == s
    }

    /** `entering` is marked but not yet on the path. */
    ghost predicate Valid(entering: set<Sym>)
      reads this
    {
      && (forall s <- symbols, t: Sym :: Follows(g, s, t) ==> t in symbols)
      && check <= checked <= symbols
      && (forall s: Sym :: s in check <==> OnStack(s) || s in entering)
      && (forall s <- entering :: !OnStack(s))
      && (forall i, j :: 0 <= i < j < |stack| ==> stack[i].sym != stack[j].sym)
      && IsPath(g, stack)
      && (forall r: Report | r in reports :: Genuine(g, r) && r[0].entry.sym in symbols)
      && (reports == [] ==> Ranked())
    }

    /** May t be looked at next? */
    ghost predicate Next(t: Sym)
      reads this`stack
    {
      t in symbols && (stack != [] ==> Explains(g, stack[|stack| - 1], t))
    }

    /** What every step leaves as it was, and which way the rest grows. */
    twostate predicate Onward()
      reads this
    {
      && stack == old(stack) && check == old(check)
      && old(checked) <= checked
      && |old(reports)| <= |reports| && reports[..|old(reports)|] == old(reports)
    }

    /** sym_check_print_recursive: from the place of last on the path upwards. */
    method PrintRecursive(last: Sym)
      requires Valid({}) && last in check && Next(last)
      modifies this`reports
      ensures Valid({}) && |reports| == |old(reports)| + 1 && reports[..|old(reports)|] == old(reports)
    {
      var at := |stack| - 1;
      assert OnStack(last);
      assert IsPath(g, stack) && last in symbols;
      hide Valid;
      while stack[at].sym != last
        invariant 0 <= at < |stack|
        invariant forall i :: at < i < |stack| ==> stack[i].sym != last
        decreases at
      {
        at := at - 1;
      }
      var report: Report := [];
      for i := at to |stack|
        invariant |report| == i - at
        invariant forall k :: 0 <= k < |report| ==>
          report[k] == Line(stack[at + k], if at + k + 1 < |stack| then stack[at + k + 1].sym else last)
      {
        report := report + [Line(stack[i], if i + 1 < |stack| then stack[i + 1].sym else last)];
      }
      PathReport(g, stack, at, last, report);
      AddReport(report);
    }

    method AddReport(report: Report)
      requires Valid({}) && Genuine(g, report) && report[0].entry.sym in symbols
      modifies this`reports
      ensures Valid({}) && reports == old(reports) + [report]
    {
      reports := reports + [report];
    }

    /** dep_stack_insert, of a symbol just marked */
    method Push(sym: Sym)
      requires Valid({sym}) && Next(sym)
      modifies this`stack
      ensures Valid({}) && stack == old(stack) + [Entry(sym, None, None)]
    {
      stack := stack + [Entry(sym, None, None)];
      assert OnStack(sym) by {
        assert stack[|stack| - 1].sym == sym;
      }
      forall s: Sym
        ensures s in check <==> OnStack(s)
      {
        if old(OnStack(s)) {
          var i :| 0 <= i < |old(stack)| && old(stack)[i].sym == s;
          assert stack[i].sym == s;
        }
      }
    }

    /** dep_stack_remove */
    method Pop()
      requires Valid({}) && stack != []
      modifies this`stack
      ensures Valid({old(stack[|stack| - 1].sym)}) && stack == old(stack[..|stack| - 1])
    {
      stack := stack[..|stack| - 1];
      forall s: Sym
        ensures s in check <==> OnStack(s) || s == old(stack[|stack| - 1].sym)
      {
        if old(OnStack(s)) {
          var i :| 0 <= i < |old(stack)| && old(stack)[i].sym == s;
          assert i < |stack| ==> stack[i].sym == s;
        }
        if OnStack(s) {
          var i :| 0 <= i < |stack| && stack[i].sym == s;
          assert old(stack)[i].sym == s;
        }
      }
    }

    /** What is being followed at the end of the path changes. */
    method Point(prop: Option<Prop>, expr: Option<Expr>)
      requires Valid({}) && stack != []
      modifies this`stack
      ensures Valid({})
      ensures stack == old(stack[..|stack| - 1]) + [Entry(old(stack[|stack| - 1].sym), prop, expr)]
    {
      var top := stack[|stack| - 1];
      stack := stack[|stack| - 1 := Entry(top.sym, prop, expr)];
      forall s: Sym
        ensures OnStack(s) <==> old(OnStack(s))
      {
        if old(OnStack(s)) {
          var i :| 0 <= i < |old(stack)| && old(stack)[i].sym == s;
          assert stack[i].sym == s;
        }
        if OnStack(s) {
          var i :| 0 <= i < |stack| && stack[i].sym == s;
          assert old(stack)[i].sym == s;
        }
      }
    }

    /** sym_check_expr_deps */
    method CheckExprDeps(e: Expr) returns (found: Option<Sym>)
      requires Valid({}) && stack != []
      requires forall t <- E.Syms(e) :: Next(t)
      modifies this
      ensures Valid({}) && Onward()
      ensures found.Some? ==> found.value in check && |reports| > |old(reports)|
      ensures reports == [] ==> forall t <- E.Syms(e) :: t in checked - check
      decreases symbols - checked, 2, e
    {
      hide Valid;
      match e
      case Bin(_, l, r) =>
        found := CheckExprDeps(l);
        if found.None? {
          found := CheckExprDeps(r);
        }
      case Not(a) =>
        found := CheckExprDeps(a);
      case Comp(_, l, r) =>
        found := CheckDeps(l);
        if found.None? {
          found := CheckDeps(r);
        }
      case Symbol(s) =>
        found := CheckDeps(s);
    }

    method CheckOptDeps(e: Option<Expr>) returns (found: Option<Sym>)
      requires Valid({}) && stack != []
      requires forall t <- E.SymsOpt(e) :: Next(t)
      modifies this
      ensures Valid({}) && Onward()
      ensures found.Some? ==> found.value in check && |reports| > |old(reports)|
      ensures reports == [] ==> forall t <- E.SymsOpt(e) :: t in checked - check
      decreases symbols - checked, 3
    {
      hide Valid;
      found := None;
      if e.Some? {
        found := CheckExprDeps(e.value);
      }
    }

    method Mark(sym: Sym)
      requires Valid({}) && sym in symbols && sym !in checked
      modifies this`check, this`checked
      ensures Valid({sym}) && check == old(check) + {sym} && checked == old(checked) + {sym}
    {
      check, checked := check + {sym}, checked + {sym};
    }

    /** All that sym follows has been dealt with. */
    method Unmark(sym: Sym)
      requires Valid({sym})
      requires reports == [] ==> forall t: Sym :: Follows(g, sym, t) ==> t in checked - check
      modifies this`check, this`rank, this`clock
      ensures Valid({}) && check == old(check) - {sym}
    {
      check := check - {sym};
      if reports == [] {
        rank, clock := rank[sym := clock], clock + 1;
      }
    }

    /** sym_check_deps.  Its result names a symbol on the path at which a cycle was
        closed; it is dropped once that symbol is reached again. */
    method CheckDeps(sym: Sym) returns (found: Option<Sym>)
      requires Valid({}) && Next(sym)
      modifies this
      ensures Valid({}) && Onward()
      ensures found.Some? ==> found.value in check && |reports| > |old(reports)|
      ensures reports == [] ==> sym in checked - check
      decreases symbols - checked, 1
    {
      if sym in check {
        PrintRecursive(sym);
        return Some(sym);
      }
      if sym in checked {
        return None;
      }
      hide Valid;
      Mark(sym);
      found := CheckSymDeps(sym);
      Unmark(sym);
      if found == Some(sym) {
        found := None;
      }
    }

    /** Of the path only what is followed at its end may have changed. */
    twostate predicate OnwardAt(sym: Sym)
      reads this
    {
      && stack != [] && |stack| == |old(stack)|
      && stack[..|stack| - 1] == old(stack)[..|stack| - 1] && stack[|stack| - 1].sym == sym
      && check == old(check) && old(checked) <= checked
      && |old(reports)| <= |reports| && reports[..|old(reports)|] == old(reports)
    }

    /** The end of the path follows only symbols of the graph. */
    lemma FollowedSymbols(t: Sym)
      requires Valid({}) && stack != [] && Follows(g, stack[|stack| - 1].sym, t)
      ensures t in symbols
    {
      assert OnStack(stack[|stack| - 1].sym);
    }

    /** sym_check_sym_deps */
    method CheckSymDeps(sym: Sym) returns (found: Option<Sym>)
      requires Valid({sym}) && Next(sym)
      modifies this
      ensures Valid({sym}) && Onward()
      ensures found.Some? ==> found.value in check && |reports| > |old(reports)|
      ensures reports == [] ==> forall t: Sym :: Follows(g, sym, t) ==> t in checked - check
      decreases symbols - checked, 7
    {
      hide Valid, Follows;
      Push(sym);
      found := CheckFollowed(sym);
      Pop();
    }

    /** Everything it looks at. */
    method CheckFollowed(sym: Sym) returns (found: Option<Sym>)
      requires Valid({}) && stack != [] && stack[|stack| - 1] == Entry(sym, None, None)
      modifies this
      ensures Valid({}) && OnwardAt(sym)
      ensures found.Some? ==> found.value in check && |reports| > |old(reports)|
      ensures reports == [] ==> forall t: Sym :: Follows(g, sym, t) ==> t in checked - check
      decreases symbols - checked, 6
    {
      hide Valid, Skipped;
      forall t <- E.SymsOpt(g(sym).revDep)
        ensures t in symbols
      {
        FollowedSymbols(t);
      }
      found := CheckOptDeps(g(sym).revDep);
      if found.None? {
        label before:
        found := CheckProps(sym);
        assert old@before(checked - check) <= checked - check;
      }
    }

    /** One property: its condition, and the value of a default. */
    method CheckProp(sym: Sym, prop: Prop) returns (found: Option<Sym>)
      requires Valid({}) && stack != [] && stack[|stack| - 1].sym == sym && prop in g(sym).props && !Skipped(prop)
      modifies this
      ensures Valid({}) && OnwardAt(sym)
      ensures found.Some? ==> found.value in check && |reports| > |old(reports)|
      ensures reports == [] ==> forall t: Sym :: PropFollows(prop, t) ==> t in checked - check
      decreases symbols - checked, 4
    {
      hide Valid;
      forall t: Sym | PropFollows(prop, t)
        ensures t in symbols
      {
        FollowedSymbols(t);
      }
      Point(Some(prop), None);
      found := CheckOptDeps(prop.visible);
      if found.Some? || !prop.kind.DefaultProp? {
        return;
      }
      Point(Some(prop), prop.expr);
      found := CheckOptDeps(prop.expr);
      if found.None? {
        Point(Some(prop), None);
      }
    }

    /** The loop over the properties. */
    method CheckProps(sym: Sym) returns (found: Option<Sym>)
      requires Valid({}) && stack != [] && stack[|stack| - 1].sym == sym
      modifies this
      ensures Valid({}) && OnwardAt(sym)
      ensures found.Some? ==> found.value in check && |reports| > |old(reports)|
      ensures reports == [] ==> forall p <- g(sym).props, t: Sym :: PropFollows(p, t) ==> t in checked - check
      decreases symbols - checked, 5
    {
      hide Valid;
      found := None;
      var props := g(sym).props;
      for i := 0 to |props|
        invariant Valid({}) && OnwardAt(sym) && found.None?
        invariant reports == [] ==> forall k: nat, t: Sym :: k < i && PropFollows(props[k], t) ==> t in checked - check
      {
        if Skipped(props[i]) {
          continue;
        }
        label before:
        found := CheckProp(sym, props[i]);
        if found.Some? {
          return;
        }
        assert reports == [] ==> old@before(reports) == [];
        assert reports == [] ==> forall t: Sym :: PropFollows(props[i], t) ==> t in checked - check;
        assert old@before(checked - check) <= checked - check;
      }
      forall p <- props, t: Sym | PropFollows(p, t) && reports == []
        ensures t in checked - check
      {
        var k: nat :| k < |props| && props[k] == p;
      }
    }

    /** A check of all symbols.  No call lets a cycle show in its result, so that
        none is counted as an error; whether there is one shows in the reports alone:
        nothing is printed exactly when no cycle exists, and each report is one. */
    method CheckAll(order: seq<Sym>) returns (errors: int)
      requires Valid({}) && check == {} && stack == [] && checked == {} && reports == []
      requires forall s: Sym :: s in order <==> s in symbols
      modifies this
      ensures errors == 0
      ensures reports == [] <==> forall path: seq<Sym> :: IsCycle(g, path) ==> path[0] !in symbols
      ensures forall r <- reports :: Genuine(g, r)
      ensures reports == [] ==> rank.Keys == symbols
      ensures reports == [] ==> forall s <- rank, t: Sym :: Follows(g, s, t) ==> t in rank && rank[t] < rank[s]
    {
      errors := 0;
      for i := 0 to |order|
        invariant Valid({}) && check == {} && stack == [] && errors == 0
        invariant reports == [] ==> forall k :: 0 <= k < i ==> order[k] in checked
      {
        var found := CheckDeps(order[i]);
        if found.Some? {
          errors := errors + 1;
        }
      }
      if reports == [] {
        assert checked == symbols;
        forall path: seq<Sym> | IsCycle(g, path)
          ensures path[0] !in symbols
        {
          if path[0] in symbols {
            var k :| 0 <= k < |order| && order[k] == path[0];
            RankedPath(g, rank, path, |path| - 1);
          }
        }
      } else {
        var r := reports[0];
        GenuineIsCycle(g, r);
        assert (seq(|r|, i requires 0 <= i < |r| => r[i].entry.sym))[0] in symbols;
      }
    }
  }
}
