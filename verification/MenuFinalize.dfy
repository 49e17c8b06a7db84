/**
  menu_finalize: pushing conditions down the menu tree, automatic submenus and
  flattening, as functions on forests, and what the restructuring promises.
 */
module MenuFinalize {
  import opened Expressions
  import opened Menus
  import V = Visibility
  import S = Submenu

  // ---------- What it computes ----------

  function TypeOf(m: Menu): Option<SymType> {
    if m.entry.Some? then Some(m.entry.value.sym.Type()) else None
  }

  /** What the children of this node inherit. */
  function ParentDep(n: Node): Option<Expr> {
    if n.m.entry.Some? && n.m.entry.value.isChoice then Some(Symbol(n.m.entry.value.sym))
    else if n.m.hasPrompt then n.visible
    else n.dep
  }

  function Inherit(parentDep: Option<Expr>, n: Node, modules: Sym): (r: Node)
    ensures r.m == n.m
  {
    var base := V.Propagate(parentDep, n.dep, modules);
    Node(n.m, base,
      if n.m.hasPrompt then V.PropCondition(TypeOf(n.m), base, n.visible, modules) else n.visible)
  }

  ghost function InheritAll(parentDep: Option<Expr>, f: Forest, modules: Sym): (r: Forest)
    ensures Preorder(r) == Preorder(f) && Count(r) == Count(f)
    ensures r.Nil? <==> f.Nil?
  {
    match f
    case Nil => Nil
    case Cons(n, kids, rest) => Cons(Inherit(parentDep, n, modules), kids, InheritAll(parentDep, rest, modules))
  }

  /** The condition by which an entry is considered for a submenu. */
  function Condition(n: Node): Option<Expr> {
    if n.m.hasPrompt then n.visible else n.dep
  }

  function PromptCondition(n: Node): Option<Expr> {
    if n.m.hasPrompt then n.visible else None
  }

  predicate Follows(head: Node, n: Node)
    requires head.m.entry.Some?
  {
    S.BelongsUnder(head.m.entry.value.sym, PromptCondition(head), Condition(n))
  }

  /** Children of entries without prompt text move up behind their parent. */
  ghost function Flatten(f: Forest): (r: Forest)
    ensures Preorder(r) == Preorder(f) && Count(r) == Count(f)
    decreases Count(f)
  {
    match f
    case Nil => Nil
    case Cons(n, kids, rest) =>
      AppendFacts(kids, rest);
      if kids.Cons? && !n.m.hasText then
        var lifted := Flatten(Append(kids, rest));
        SumTail([n.m], Preorder(kids), Preorder(rest), Preorder(lifted));
        Cons(n, Nil, lifted)
      else Cons(n, kids, Flatten(rest))
  }

  datatype Split = Split(kids: Forest, rest: Forest)

  /** The children and younger siblings of p after menu_finalize(p). */
  ghost function Finalize(p: Node, kids: Forest, rest: Forest, modules: Sym): (r: Split)
    ensures Preorder(r.kids) + Preorder(r.rest) == Preorder(kids) + Preorder(rest)
    ensures Count(r.kids) + Count(r.rest) == Count(kids) + Count(rest)
    decreases Count(kids) + Count(rest), 2
  {
    if kids.Cons? then
      Split(Flatten(FinalizeList(InheritAll(ParentDep(p), kids, modules), modules)), rest)
    else if p.m.entry.Some? then
      var a := Absorb(p, rest, modules);
      Split(Flatten(a.kids), a.rest)
    else Split(Nil, rest)
  }

  ghost function FinalizeList(f: Forest, modules: Sym): (r: Forest)
    ensures Preorder(r) == Preorder(f) && Count(r) == Count(f)
    decreases Count(f), 1
  {
    match f
    case Nil => Nil
    case Cons(n, kids, rest) =>
      var s := Finalize(n, kids, rest, modules);
      SumRegrouped([n.m], Preorder(kids), Preorder(rest), Preorder(s.kids), Preorder(s.rest));
      Cons(n, s.kids, FinalizeList(s.rest, modules))
  }

  /** The longest run of siblings that follow p, finalized one after the other. */
  ghost function Absorb(p: Node, f: Forest, modules: Sym): (r: Split)
    requires p.m.entry.Some?
    ensures Preorder(r.kids) + Preorder(r.rest) == Preorder(f)
    ensures Count(r.kids) + Count(r.rest) == Count(f)
    decreases Count(f), 1
  {
    match f
    case Nil => Split(Nil, Nil)
    case Cons(n, kids, rest) =>
      if !Follows(p, n) then Split(Nil, f)
      else
        var s := Finalize(n, kids, rest, modules);
        var a := Absorb(p, s.rest, modules);
        SumRegrouped([n.m], Preorder(kids), Preorder(rest), Preorder(s.kids), Preorder(s.rest));
        SumTail([n.m] + Preorder(s.kids), Preorder(a.kids), Preorder(a.rest), Preorder(s.rest));
        Split(Cons(n, s.kids, a.kids), a.rest)
  }

  lemma FinalizeNodes(p: Node, kids: Forest, rest: Forest, modules: Sym)
    ensures var r := Finalize(p, kids, rest, modules);
      && Nodes(r.kids) + Nodes(r.rest) == Nodes(kids) + Nodes(rest)
      && (Distinct(kids) && Distinct(rest) && Nodes(kids) !! Nodes(rest) ==>
          Distinct(r.kids) && Distinct(r.rest) && Nodes(r.kids) !! Nodes(r.rest))
  {
    hide Finalize, Preorder, Nodes, Distinct, Count;
    var r := Finalize(p, kids, rest, modules);
    SameNodesSplit(r.kids, r.rest, kids, rest);
  }

  lemma AbsorbNodes(p: Node, f: Forest, modules: Sym)
    requires p.m.entry.Some?
    ensures var r := Absorb(p, f, modules);
      && Nodes(r.kids) + Nodes(r.rest) == Nodes(f)
      && (Distinct(f) ==> Distinct(r.kids) && Distinct(r.rest) && Nodes(r.kids) !! Nodes(r.rest))
  {
    hide Absorb, Count;
    var r := Absorb(p, f, modules);
    SameNodesSplit(r.kids, r.rest, f, Nil);
  }

  // ---------- Each node is finalized once ----------

  /** The nodes menu_finalize is called on, in order, when it is called on p. */
  ghost function Calls(p: Node, kids: Forest, rest: Forest, modules: Sym): seq<Menu>
    decreases Count(kids) + Count(rest), 2
  {
    if kids.Cons? then [p.m] + CallsInList(InheritAll(ParentDep(p), kids, modules), modules)
    else if p.m.entry.Some? then [p.m] + CallsUnder(p, rest, modules)
    else [p.m]
  }

  ghost function CallsInList(f: Forest, modules: Sym): seq<Menu>
    decreases Count(f), 1
  {
    match f
    case Nil => []
    case Cons(n, kids, rest) =>
      Calls(n, kids, rest, modules) + CallsInList(Finalize(n, kids, rest, modules).rest, modules)
  }

  ghost function CallsUnder(p: Node, f: Forest, modules: Sym): seq<Menu>
    requires p.m.entry.Some?
    decreases Count(f), 1
  {
    match f
    case Nil => []
    case Cons(n, kids, rest) =>
      if !Follows(p, n) then []
      else Calls(n, kids, rest, modules) + CallsUnder(p, Finalize(n, kids, rest, modules).rest, modules)
  }

  /** p itself, all nodes below it and the siblings it takes in: once each. */
  lemma {:induction false} CallsOnce(p: Node, kids: Forest, rest: Forest, modules: Sym)
    ensures multiset(Calls(p, kids, rest, modules)) ==
      multiset{p.m} + multiset(Preorder(Finalize(p, kids, rest, modules).kids))
    decreases Count(kids) + Count(rest), 2
  {
    if kids.Cons? {
      CallsInListOnce(InheritAll(ParentDep(p), kids, modules), modules);
    } else if p.m.entry.Some? {
      CallsUnderOnce(p, rest, modules);
    }
  }

  lemma MultisetOfSum(a: seq<Menu>, b: seq<Menu>)
    ensures multiset(a + b) == multiset(a) + multiset(b)
  {
  }

  lemma {:induction false} CallsInListOnce(f: Forest, modules: Sym)
    ensures multiset(CallsInList(f, modules)) == multiset(Preorder(f))
    decreases Count(f), 1
  {
    hide Finalize, Calls, Nodes, Distinct, Count;
    if f.Cons? {
      Peel(f);
      var s := Finalize(f.n, f.kids, f.rest, modules);
      CallsOnce(f.n, f.kids, f.rest, modules);
      CallsInListOnce(s.rest, modules);
      MultisetOfSum(Calls(f.n, f.kids, f.rest, modules), CallsInList(s.rest, modules));
      MultisetOfSum([f.n.m] + Preorder(s.kids), Preorder(s.rest));
      MultisetOfSum([f.n.m], Preorder(s.kids));
      SumRegrouped([f.n.m], Preorder(f.kids), Preorder(f.rest), Preorder(s.kids), Preorder(s.rest));
    }
  }

  lemma {:induction false} CallsUnderOnce(p: Node, f: Forest, modules: Sym)
    requires p.m.entry.Some?
    ensures multiset(CallsUnder(p, f, modules)) == multiset(Preorder(Absorb(p, f, modules).kids))
    decreases Count(f), 1
  {
    if f.Cons? && Follows(p, f.n) {
      var s := Finalize(f.n, f.kids, f.rest, modules);
      CallsOnce(f.n, f.kids, f.rest, modules);
      CallsUnderOnce(p, s.rest, modules);
    }
  }

  // ---------- No entry without prompt text keeps children ----------

  ghost predicate Flat(f: Forest) {
    match f
    case Nil => true
    case Cons(n, kids, rest) => (kids.Cons? ==> n.m.hasText) && Flat(kids) && Flat(rest)
  }

  /** Flat below the top level. */
  ghost predicate FlatBelow(f: Forest) {
    match f
    case Nil => true
    case Cons(_, kids, rest) => Flat(kids) && FlatBelow(rest)
  }

  lemma {:induction false} FlatBelowAppend(f: Forest, g: Forest)
    requires Flat(f) && FlatBelow(g)
    ensures FlatBelow(Append(f, g))
  {
    if f.Cons? {
      FlatBelowAppend(f.rest, g);
    }
  }

  lemma {:induction false} FlattenFlat(f: Forest)
    requires FlatBelow(f)
    ensures Flat(Flatten(f))
    decreases Count(f)
  {
    if f.Cons? {
      AppendFacts(f.kids, f.rest);
      FlatBelowAppend(f.kids, f.rest);
      if f.kids.Cons? && !f.n.m.hasText {
        FlattenFlat(Append(f.kids, f.rest));
      } else {
        FlattenFlat(f.rest);
      }
    }
  }

  lemma {:induction false} FinalizeFlat(p: Node, kids: Forest, rest: Forest, modules: Sym)
    ensures Flat(Finalize(p, kids, rest, modules).kids)
    decreases Count(kids) + Count(rest), 2
  {
    if kids.Cons? {
      var f := InheritAll(ParentDep(p), kids, modules);
      FinalizeListFlat(f, modules);
      FlattenFlat(FinalizeList(f, modules));
    } else if p.m.entry.Some? {
      AbsorbFlat(p, rest, modules);
      FlattenFlat(Absorb(p, rest, modules).kids);
    }
  }

  lemma {:induction false} FinalizeListFlat(f: Forest, modules: Sym)
    ensures FlatBelow(FinalizeList(f, modules))
    decreases Count(f), 1
  {
    if f.Cons? {
      FinalizeFlat(f.n, f.kids, f.rest, modules);
      FinalizeListFlat(Finalize(f.n, f.kids, f.rest, modules).rest, modules);
    }
  }

  lemma {:induction false} AbsorbFlat(p: Node, f: Forest, modules: Sym)
    requires p.m.entry.Some?
    ensures FlatBelow(Absorb(p, f, modules).kids)
    decreases Count(f), 1
  {
    if f.Cons? && Follows(p, f.n) {
      FinalizeFlat(f.n, f.kids, f.rest, modules);
      AbsorbFlat(p, Finalize(f.n, f.kids, f.rest, modules).rest, modules);
    }
  }

  // ---------- Every move into a submenu is justified ----------

  datatype Move = Move(head: Node, item: Node)

  /** The moves into submenus made by menu_finalize(p), in order. */
  ghost function Moves(p: Node, kids: Forest, rest: Forest, modules: Sym): seq<Move>
    decreases Count(kids) + Count(rest), 2
  {
    if kids.Cons? then MovesInList(InheritAll(ParentDep(p), kids, modules), modules)
    else if p.m.entry.Some? then MovesUnder(p, rest, modules)
    else []
  }

  ghost function MovesInList(f: Forest, modules: Sym): seq<Move>
    decreases Count(f), 1
  {
    match f
    case Nil => []
    case Cons(n, kids, rest) =>
      Moves(n, kids, rest, modules) + MovesInList(Finalize(n, kids, rest, modules).rest, modules)
  }

  ghost function MovesUnder(p: Node, f: Forest, modules: Sym): seq<Move>
    requires p.m.entry.Some?
    decreases Count(f), 1
  {
    match f
    case Nil => []
    case Cons(n, kids, rest) =>
      if !Follows(p, n) then []
      else
        var later := MovesUnder(p, Finalize(n, kids, rest, modules).rest, modules);
        Moves(n, kids, rest, modules) + [Move(p, n)] + later
  }

  /** Choices are bools or tristates. */
  predicate ChoiceIsTri(m: Menu) {
    m.entry.Some? && m.entry.value.isChoice ==> m.entry.value.sym.IsTri()
  }

  predicate RawNode(n: Node) {
    V.Raw(n.dep) && V.Raw(n.visible) && ChoiceIsTri(n.m)
  }

  predicate StoredNode(n: Node) {
    V.Stored(n.dep) && (n.m.hasPrompt ==> V.Stored(n.visible)) && ChoiceIsTri(n.m)
  }

  ghost predicate AllRaw(f: Forest) {
    match f
    case Nil => true
    case Cons(n, kids, rest) => RawNode(n) && AllRaw(kids) && AllRaw(rest)
  }

  /** Top-level nodes have inherited their conditions, those below have not. */
  ghost predicate TopStored(f: Forest) {
    match f
    case Nil => true
    case Cons(n, kids, rest) => StoredNode(n) && AllRaw(kids) && TopStored(rest)
  }

  predicate ModulesOk(modules: Sym) {
    modules.IsTri() || modules.IsTriConst()
  }

  lemma {:induction false} InheritAllStored(parentDep: Option<Expr>, f: Forest, modules: Sym)
    requires V.Stored(parentDep) && AllRaw(f) && ModulesOk(modules)
    ensures TopStored(InheritAll(parentDep, f, modules))
  {
    if f.Cons? {
      var n := f.n;
      V.PropagateStored(parentDep, n.dep, modules);
      V.PropConditionStored(TypeOf(n.m), V.Propagate(parentDep, n.dep, modules), n.visible, modules);
      InheritAllStored(parentDep, f.rest, modules);
    }
  }

  predicate GoodMove(v: Move) {
    v.head.m.entry.Some? && Follows(v.head, v.item) && StoredNode(v.head) && StoredNode(v.item)
  }

  lemma {:induction false} FinalizeRestStored(p: Node, kids: Forest, rest: Forest, modules: Sym)
    requires TopStored(rest) && (kids.Nil? || AllRaw(kids)) && ModulesOk(modules)
    ensures TopStored(Finalize(p, kids, rest, modules).rest)
    decreases Count(rest)
  {
    if kids.Nil? && p.m.entry.Some? {
      AbsorbRestStored(p, rest, modules);
    }
  }

  lemma {:induction false} AbsorbRestStored(p: Node, f: Forest, modules: Sym)
    requires p.m.entry.Some? && TopStored(f) && ModulesOk(modules)
    ensures TopStored(Absorb(p, f, modules).rest)
    decreases Count(f), 0
  {
    if f.Cons? && Follows(p, f.n) {
      FinalizeRestStored(f.n, f.kids, f.rest, modules);
      AbsorbRestStored(p, Finalize(f.n, f.kids, f.rest, modules).rest, modules);
    }
  }

  lemma {:induction false} MovesGood(p: Node, kids: Forest, rest: Forest, modules: Sym)
    requires StoredNode(p) && AllRaw(kids) && TopStored(rest) && ModulesOk(modules)
    ensures forall v <- Moves(p, kids, rest, modules) :: GoodMove(v)
    decreases Count(kids) + Count(rest), 2
  {
    if kids.Cons? {
      InheritAllStored(ParentDep(p), kids, modules);
      MovesInListGood(InheritAll(ParentDep(p), kids, modules), modules);
    } else if p.m.entry.Some? {
      MovesUnderGood(p, rest, modules);
    }
  }

  lemma {:induction false} MovesInListGood(f: Forest, modules: Sym)
    requires TopStored(f) && ModulesOk(modules)
    ensures forall v <- MovesInList(f, modules) :: GoodMove(v)
    decreases Count(f), 1
  {
    if f.Cons? {
      MovesGood(f.n, f.kids, f.rest, modules);
      FinalizeRestStored(f.n, f.kids, f.rest, modules);
      MovesInListGood(Finalize(f.n, f.kids, f.rest, modules).rest, modules);
    }
  }

  lemma {:induction false} MovesUnderGood(p: Node, f: Forest, modules: Sym)
    requires p.m.entry.Some? && StoredNode(p) && TopStored(f) && ModulesOk(modules)
    ensures forall v <- MovesUnder(p, f, modules) :: GoodMove(v)
    decreases Count(f), 1
  {
    if f.Cons? && Follows(p, f.n) {
      MovesGood(f.n, f.kids, f.rest, modules);
      FinalizeRestStored(f.n, f.kids, f.rest, modules);
      MovesUnderGood(p, Finalize(f.n, f.kids, f.rest, modules).rest, modules);
    }
  }

  /** The theorem speaks about moves of entries whose condition negates nothing that
      is m in the state; an absolute dependency must be on a bool or tristate. */
  predicate PlainMove(v: Move, env: Env) {
    && v.head.m.entry.Some? && Condition(v.item).Some?
    && (var dep, sym := Condition(v.item).value, v.head.m.entry.value.sym;
        S.NegationsTwoValued(dep, env) && (S.DependsSymbol(dep, sym) ==> sym.IsTri()))
  }

  ghost predicate Justified(v: Move, env: Env)
    requires v.head.m.entry.Some?
  {
    ValOpt(Condition(v.item), env) != NO ==>
      env.tri(v.head.m.entry.value.sym) != NO || ValOpt(PromptCondition(v.head), env) != NO
  }

  /** Over a whole run from the root: whatever is moved under a symbol is
      enabled only where that symbol, or its prompt, is. */
  lemma MovesJustified(root: Node, f: Forest, modules: Sym, env: Env)
    requires StoredNode(root) && AllRaw(f) && ModulesOk(modules) && Sane(env)
    ensures forall v <- Moves(root, f, Nil, modules) :: PlainMove(v, env) ==> Justified(v, env)
  {
    MovesGood(root, f, Nil, modules);
    forall v <- Moves(root, f, Nil, modules) | PlainMove(v, env)
      ensures Justified(v, env)
    {
      assert GoodMove(v);
      S.SubmenuJustified(v.head.m.entry.value.sym, PromptCondition(v.head), Condition(v.item), env);
    }
  }
}
