/**
  menu_finalize as it runs: conditions are replaced in the nodes and the list,
  next and parent pointers are relinked in place.
 */
module MenuRelink {
  import opened Expressions
  import opened Menus
  import opened MenuFinalize
  import V = Visibility
  import S = Submenu
  import E = Eliminate

  /** The nodes of a forest exist; calls elsewhere leave them alone. */
  lemma {:induction false} NodesExist(f: Forest)
    ensures forall m <- Nodes(f) :: allocated(m)
  {
    if f.Cons? {
      NodesExist(f.kids);
      NodesExist(f.rest);
    }
  }

  /** Appending one linked node to a linked run of siblings. */
  lemma LinkedSnoc(first: Menu?, done: Forest, p: Menu?, n: Node, kids: Forest)
    requires Linked(first, done, p, n.m) && Stores(n) && n.m.parent == p && Linked(n.m.list, kids, n.m, null)
    ensures Linked(first, Append(done, Cons(n, kids, Nil)), p, n.m.next)
  {
    LinkedAppend(first, done, p, n.m, Cons(n, kids, Nil), n.m.next);
  }

  method InheritOne(menu: Menu, parentDep: Option<Expr>, modules: Sym)
    modifies menu`dep, menu`visible
    ensures Node(menu, menu.dep, menu.visible) ==
      Inherit(parentDep, Node(menu, old(menu.dep), old(menu.visible)), modules)
  {
    var base := V.Propagate(parentDep, menu.dep, modules);
    menu.dep := base;
    if menu.hasPrompt {
      menu.visible := V.PropCondition(TypeOf(menu), base, menu.visible, modules);
    }
  }

  /** Each child of parent inherits parentDep. */
  method InheritChildren(parent: Menu, parentDep: Option<Expr>, modules: Sym, ghost kids: Forest)
    requires Linked(parent.list, kids, parent, null) && Distinct(kids) && parent !in Nodes(kids)
    modifies Nodes(kids)
    ensures Linked(parent.list, InheritAll(parentDep, kids, modules), parent, null)
  {
    hide Preorder, Inherit, Distinct, Nodes, Count, Linked;
    AppendAssoc(Nil, Nil, InheritAll(parentDep, kids, modules));
    PeelLinked(parent.list, Nil, parent, parent.list);
    var menu := parent.list;
    ghost var done, todo := Nil, kids;
    AppendAssoc(InheritAll(parentDep, kids, modules), Nil, Nil);
    while menu != null
      invariant Append(done, InheritAll(parentDep, todo, modules)) == InheritAll(parentDep, kids, modules)
      invariant Linked(parent.list, done, parent, menu) && Linked(menu, todo, parent, null)
      decreases Count(todo)
    {
      DoneAndTodo(kids, InheritAll(parentDep, kids, modules), done, todo, InheritAll(parentDep, todo, modules));
      NodesExist(Append(done, todo));
      PeelLinked(menu, todo, parent, null);
      Peel(todo);
      ghost var n := Inherit(parentDep, todo.n, modules);
      InheritOne(menu, parentDep, modules);
      LinkedSnoc(parent.list, done, parent, n, todo.kids);
      AppendAssoc(done, Cons(n, todo.kids, Nil), InheritAll(parentDep, todo.rest, modules));
      done := Append(done, Cons(n, todo.kids, Nil));
      todo := todo.rest;
      menu := menu.next;
    }
    PeelLinked(menu, todo, parent, null);
    AppendAssoc(done, Nil, Nil);
  }

  ghost function Init(f: Forest): Forest
    requires f.Cons?
  {
    if f.rest.Nil? then Nil else Cons(f.n, f.kids, Init(f.rest))
  }

  ghost function Last(f: Forest): (l: Forest)
    requires f.Cons?
    ensures l.Cons? && l.rest.Nil? && l.n.m in Nodes(f)
  {
    if f.rest.Nil? then f else Last(f.rest)
  }

  lemma {:induction false} InitLast(first: Menu?, f: Forest, p: Menu?, end: Menu?)
    requires f.Cons? && Linked(first, f, p, end)
    ensures var l := Last(f);
      && f == Append(Init(f), l) && l.n.m.next == end
      && Linked(first, Init(f), p, l.n.m) && Stores(l.n) && l.n.m.parent == p && Linked(l.n.m.list, l.kids, l.n.m, null)
  {
    if f.rest.Cons? {
      InitLast(f.n.m.next, f.rest, p, end);
    }
  }

  lemma {:induction false} LastAppend(f: Forest, n: Node, kids: Forest)
    ensures var g := Append(f, Cons(n, kids, Nil)); g.Cons? && Last(g) == Cons(n, kids, Nil)
  {
    if f.Cons? {
      LastAppend(f.rest, n, kids);
    }
  }

  /** Gives all siblings from `first` on a new parent and finds the last of them. */
  method Adopt(first: Menu, parent: Menu, ghost kids: Forest, ghost was: Menu) returns (last: Menu)
    requires Linked(first, kids, was, null) && Distinct(kids)
    modifies Nodes(kids)`parent
    ensures Linked(first, kids, parent, null)
    ensures kids.Cons? && last == Last(kids).n.m
  {
    hide Preorder;
    last := first;
    ghost var done, todo := Nil, kids;
    last.parent := parent;
    while last.next != null
      invariant todo.Cons? && Append(done, todo) == kids
      invariant Linked(first, done, parent, last)
      invariant last == todo.n.m && Stores(todo.n) && last.parent == parent
      invariant Linked(last.list, todo.kids, last, null) && Linked(last.next, todo.rest, was, null)
      decreases Count(todo)
    {
      LinkedSnoc(first, done, parent, todo.n, todo.kids);
      AppendAssoc(done, Cons(todo.n, todo.kids, Nil), todo.rest);
      done := Append(done, Cons(todo.n, todo.kids, Nil));
      todo := todo.rest;
      AppendFacts(done, todo);
      last := last.next;
      last.parent := parent;
    }
    LinkedAppend(first, done, parent, last, todo, null);
    LastAppend(done, todo.n, todo.kids);
  }

  /** Makes the siblings `rest` follow the siblings f, whose last one is `last`. */
  method LinkAfter(last: Menu, next: Menu?, ghost first: Menu?, ghost f: Forest, ghost p: Menu, ghost end: Menu?, ghost rest: Forest)
    requires f.Cons? && last == Last(f).n.m && Distinct(f) && Nodes(f) !! Nodes(rest)
    requires Linked(first, f, p, end) && Linked(next, rest, p, null)
    modifies last`next
    ensures last.next == next && Linked(first, Append(f, rest), p, null)
  {
    hide Preorder, Count;
    InitLast(first, f, p, end);
    ghost var l := Last(f);
    AppendFacts(Init(f), l);
    AppendAssoc(Init(f), l, rest);
    assert Append(l, rest) == Cons(l.n, l.kids, rest);
    last.next := next;
    LinkedAppend(first, Init(f), p, last, Cons(l.n, l.kids, rest), null);
  }

  /** Moves the children of menu up, between menu and its next sibling. */
  method SpliceUp(parent: Menu, menu: Menu, ghost kids: Forest, ghost rest: Forest)
    requires menu.list != null && Linked(menu.list, kids, menu, null) && Linked(menu.next, rest, parent, null)
    requires Distinct(kids) && menu !in Nodes(kids) && menu !in Nodes(rest) && Nodes(kids) !! Nodes(rest)
    modifies menu`next, menu`list, Nodes(kids)
    ensures menu.list == null && Linked(menu.next, Append(kids, rest), parent, null)
  {
    NodesExist(rest);
    var last := Adopt(menu.list, parent, kids, menu);
    LinkAfter(last, menu.next, menu.list, kids, parent, null, rest);
    AppendFacts(kids, rest);
    menu.next := menu.list;
    menu.list := null;
  }

  lemma FlattenNext(f: Forest, done: Forest)
    ensures f.Nil? ==> Flatten(f) == Nil && Append(done, Nil) == done
    ensures f.Cons? ==>
      var lift := f.kids.Cons? && !f.n.m.hasText;
      var kids, rest := if lift then Nil else f.kids, if lift then Append(f.kids, f.rest) else f.rest;
      && Append(done, Flatten(f)) == Append(Append(done, Cons(f.n, kids, Nil)), Flatten(rest))
      && Count(rest) < Count(f)
  {
    AppendAssoc(done, Nil, Nil);
    if f.Cons? {
      var lift := f.kids.Cons? && !f.n.m.hasText;
      var kids, rest := if lift then Nil else f.kids, if lift then Append(f.kids, f.rest) else f.rest;
      AppendFacts(f.kids, f.rest);
      AppendAssoc(done, Cons(f.n, kids, Nil), Flatten(rest));
    }
  }

  method FlattenChildren(parent: Menu, ghost f: Forest)
    requires Linked(parent.list, f, parent, null) && Distinct(f) && parent !in Nodes(f)
    modifies Nodes(f)
    ensures Linked(parent.list, Flatten(f), parent, null)
  {
    hide Preorder, Distinct, Nodes, Count, Linked, Flatten, Append;
    AppendAssoc(Nil, Nil, Flatten(f));
    PeelLinked(parent.list, Nil, parent, parent.list);
    var menu := parent.list;
    ghost var done, todo := Nil, f;
    while menu != null
      invariant Append(done, Flatten(todo)) == Flatten(f)
      invariant Linked(parent.list, done, parent, menu) && Linked(menu, todo, parent, null)
      decreases Count(todo)
    {
      DoneAndTodo(f, Flatten(f), done, todo, Flatten(todo));
      NodesExist(Append(done, todo));
      PeelLinked(menu, todo, parent, null);
      Peel(todo);
      FlattenNext(todo, done);
      PeelLinked(menu.list, todo.kids, menu, null);
      ghost var n, kids, rest := todo.n, todo.kids, todo.rest;
      if menu.list != null && !menu.hasText {
        SpliceUp(parent, menu, kids, rest);
        kids, rest := Nil, Append(kids, rest);
      }
      LinkedSnoc(parent.list, done, parent, n, kids);
      done := Append(done, Cons(n, kids, Nil));
      todo := rest;
      menu := menu.next;
    }
    PeelLinked(menu, todo, parent, null);
    FlattenNext(todo, done);
  }

  method Finalize(parent: Menu, modules: Sym, ghost n: Node, ghost kids: Forest, ghost rest: Forest)
    returns (ghost calls: seq<Menu>)
    requires n.m == parent && Stores(n) && Distinct(Cons(n, kids, rest))
    requires Linked(parent.list, kids, parent, null) && Linked(parent.next, rest, parent.parent, null)
    modifies Nodes(Cons(n, kids, rest))
    ensures parent.parent == old(parent.parent) && Stores(n)
    ensures var r := MenuFinalize.Finalize(n, kids, rest, modules);
      Linked(parent.list, r.kids, parent, null) && Linked(parent.next, r.rest, parent.parent, null)
    ensures calls == Calls(n, kids, rest, modules)
    decreases Count(kids) + Count(rest), 4
  {
    hide Preorder, MenuFinalize.FinalizeList, Absorb, Flatten, InheritAll, CallsInList, CallsUnder, ParentDep;
    hide Distinct, Nodes, Linked, Count;
    Peel(Cons(n, kids, rest));
    PeelLinked(parent.list, kids, parent, null);
    NodesExist(Cons(n, kids, rest));
    calls := [parent];
    if parent.list != null {
      ghost var more := FinalizeBelow(parent, modules, n, kids);
      calls := calls + more;
    } else if parent.entry.Some? {
      ghost var a := Absorb(n, rest, modules);
      AbsorbNodes(n, rest, modules);
      ghost var more := AbsorbSiblings(parent, modules, n, rest);
      calls := calls + more;
      FlattenChildren(parent, a.kids);
    }
  }

  /** The children of parent inherit its condition, are finalized and flattened. */
  method FinalizeBelow(parent: Menu, modules: Sym, ghost n: Node, ghost kids: Forest) returns (ghost calls: seq<Menu>)
    requires n.m == parent && Stores(n)
    requires Linked(parent.list, kids, parent, null) && Distinct(kids) && parent !in Nodes(kids)
    modifies Nodes(kids)
    ensures var f := InheritAll(ParentDep(n), kids, modules);
      Linked(parent.list, Flatten(FinalizeList(f, modules)), parent, null) && calls == CallsInList(f, modules)
    decreases Count(kids), 2
  {
    hide Preorder, MenuFinalize.FinalizeList, Flatten, InheritAll, CallsInList, Distinct, Nodes, Linked, Count;
    var parentDep := if parent.entry.Some? && parent.entry.value.isChoice then Some(Symbol(parent.entry.value.sym))
                     else if parent.hasPrompt then parent.visible
                     else parent.dep;
    InheritChildren(parent, parentDep, modules, kids);
    ghost var f := InheritAll(ParentDep(n), kids, modules);
    SameNodes(f, kids);
    SameNodes(FinalizeList(f, modules), kids);
    calls := FinalizeChildren(parent, modules, f);
    FlattenChildren(parent, FinalizeList(f, modules));
  }

  /** What one more child adds, or that there is none. */
  lemma ListNext(f: Forest, done: Forest, modules: Sym)
    ensures f.Nil? ==> FinalizeList(f, modules) == Nil && CallsInList(f, modules) == [] && Append(done, Nil) == done
    ensures f.Cons? ==>
      var s := MenuFinalize.Finalize(f.n, f.kids, f.rest, modules);
      && Append(done, FinalizeList(f, modules)) == Append(Append(done, Cons(f.n, s.kids, Nil)), FinalizeList(s.rest, modules))
      && CallsInList(f, modules) == Calls(f.n, f.kids, f.rest, modules) + CallsInList(s.rest, modules)
  {
    AppendAssoc(done, Nil, Nil);
    if f.Cons? {
      var s := MenuFinalize.Finalize(f.n, f.kids, f.rest, modules);
      AppendAssoc(done, Cons(f.n, s.kids, Nil), FinalizeList(s.rest, modules));
    }
  }

  /** Finalizes the child menu, which may take in siblings behind it. */
  method FinalizeNext(parent: Menu, menu: Menu, modules: Sym, ghost first: Menu?, ghost done: Forest, ghost todo: Forest)
    returns (ghost calls: seq<Menu>)
    requires todo.Cons? && Distinct(todo) && Nodes(done) !! Nodes(todo) && parent !in Nodes(todo)
    requires Linked(first, done, parent, menu) && menu == todo.n.m && Linked(menu, todo, parent, null)
    modifies Nodes(todo)
    ensures var s := MenuFinalize.Finalize(todo.n, todo.kids, todo.rest, modules);
      && Linked(first, Append(done, Cons(todo.n, s.kids, Nil)), parent, menu.next)
      && Linked(menu.next, s.rest, parent, null)
    ensures calls == Calls(todo.n, todo.kids, todo.rest, modules)
    decreases Count(todo), 0
  {
    hide Preorder, MenuFinalize.Finalize, Calls;
    NodesExist(todo);
    NodesExist(done);
    Peel(todo);
    FinalizeNodes(todo.n, todo.kids, todo.rest, modules);
    calls := Finalize(menu, modules, todo.n, todo.kids, todo.rest);
    ghost var s := MenuFinalize.Finalize(todo.n, todo.kids, todo.rest, modules);
    LinkedSnoc(first, done, parent, todo.n, s.kids);
  }

  method FinalizeChildren(parent: Menu, modules: Sym, ghost f: Forest) returns (ghost calls: seq<Menu>)
    requires Linked(parent.list, f, parent, null) && Distinct(f) && parent !in Nodes(f)
    modifies Nodes(f)
    ensures Linked(parent.list, FinalizeList(f, modules), parent, null)
    ensures calls == CallsInList(f, modules)
    decreases Count(f), 1
  {
    hide Preorder, MenuFinalize.Finalize, Calls, Distinct, Nodes, Count, Linked, FinalizeList, CallsInList, Append;
    AppendAssoc(Nil, Nil, FinalizeList(f, modules));
    PeelLinked(parent.list, Nil, parent, parent.list);
    calls := [];
    var menu := parent.list;
    ghost var done, todo := Nil, f;
    while menu != null
      invariant Append(done, FinalizeList(todo, modules)) == FinalizeList(f, modules)
      invariant calls + CallsInList(todo, modules) == CallsInList(f, modules)
      invariant Linked(parent.list, done, parent, menu) && Linked(menu, todo, parent, null)
      decreases Count(todo)
    {
      DoneAndTodo(f, FinalizeList(f, modules), done, todo, FinalizeList(todo, modules));
      NodesExist(Append(done, todo));
      PeelLinked(menu, todo, parent, null);
      Peel(todo);
      ListNext(todo, done, modules);
      ghost var s := MenuFinalize.Finalize(todo.n, todo.kids, todo.rest, modules);
      FinalizeNodes(todo.n, todo.kids, todo.rest, modules);
      ghost var more := FinalizeNext(parent, menu, modules, parent.list, done, todo);
      SumTail(calls, more, CallsInList(s.rest, modules), CallsInList(todo, modules));
      calls := calls + more;
      done := Append(done, Cons(todo.n, s.kids, Nil));
      todo := s.rest;
      menu := menu.next;
    }
    PeelLinked(menu, todo, parent, null);
    ListNext(todo, done, modules);
  }

  lemma AbsorbProgress(n: Node, f: Forest, done: Forest, todo: Forest, modules: Sym)
    requires n.m.entry.Some?
    requires Absorb(n, f, modules) ==
      Split(Append(done, Absorb(n, todo, modules).kids), Absorb(n, todo, modules).rest)
    ensures Nodes(done) + Nodes(todo) == Nodes(f) && Nodes(Append(done, todo)) == Nodes(f)
    ensures Distinct(f) ==> Distinct(done) && Distinct(todo) && Nodes(done) !! Nodes(todo)
    ensures Count(todo) <= Count(f)
  {
    hide Preorder, Absorb, Nodes, Distinct, Append, Count;
    var a := Absorb(n, todo, modules);
    assert Preorder(done) + Preorder(todo) == Preorder(f) by {
      AppendFacts(done, a.kids);
      SumTail(Preorder(done), Preorder(a.kids), Preorder(a.rest), Preorder(todo));
    }
    TwoParts(f, done, todo);
  }

  /** Cuts the run of moved siblings off and hangs it below parent. */
  method CloseSubmenu(parent: Menu, last: Menu, ghost done: Forest, ghost todo: Forest)
    requires done.Cons? && last == Last(done).n.m && Distinct(done)
    requires parent !in Nodes(done) && parent !in Nodes(todo) && Nodes(done) !! Nodes(todo)
    requires Linked(parent.next, done, parent, last.next) && Linked(last.next, todo, parent.parent, null)
    modifies parent`list, parent`next, last`next
    ensures Linked(parent.list, done, parent, null) && Linked(parent.next, todo, parent.parent, null)
  {
    NodesExist(todo);
    InitLast(parent.next, done, parent, last.next);
    parent.list := parent.next;
    parent.next := last.next;
    LinkAfter(last, null, parent.list, done, parent, parent.next, Nil);
    AppendAssoc(done, Nil, Nil);
  }

  /** The test of one sibling; `base` is what the prompt of head demands. */
  method TestSibling(menu: Menu, sym: Sym, base: Expr, ghost head: Node, ghost item: Node) returns (follows: bool)
    requires head.m.entry.Some? && sym == head.m.entry.value.sym && base == S.NonNo(PromptCondition(head))
    requires item.m == menu && Stores(item)
    ensures follows == Follows(head, item)
  {
    var dep := if menu.hasPrompt then menu.visible else menu.dep;
    if dep.None? || !S.ContainsSymbol(dep.value, sym) {
      return false;
    }
    if S.DependsSymbol(dep.value, sym) {
      return true;
    }
    var remains := E.EliminateEq(S.NonNo(dep), base);
    follows := remains.snd == Symbol(SymYes);
  }

  /** What one more sibling adds, or that there is none. */
  lemma AbsorbNext(n: Node, todo: Forest, done: Forest, modules: Sym)
    requires n.m.entry.Some?
    ensures todo.Nil? || !Follows(n, todo.n) ==> Absorb(n, todo, modules) == Split(Nil, todo) && CallsUnder(n, todo, modules) == []
    ensures todo.Cons? && Follows(n, todo.n) ==>
      var s := MenuFinalize.Finalize(todo.n, todo.kids, todo.rest, modules);
      var a := Absorb(n, s.rest, modules);
      && Append(done, Absorb(n, todo, modules).kids) == Append(Append(done, Cons(todo.n, s.kids, Nil)), a.kids)
      && Absorb(n, todo, modules).rest == a.rest
      && CallsUnder(n, todo, modules) == Calls(todo.n, todo.kids, todo.rest, modules) + CallsUnder(n, s.rest, modules)
  {
    if todo.Cons? && Follows(n, todo.n) {
      var s := MenuFinalize.Finalize(todo.n, todo.kids, todo.rest, modules);
      AppendAssoc(done, Cons(todo.n, s.kids, Nil), Absorb(n, s.rest, modules).kids);
    }
  }

  /** Finalizes the sibling menu and gives it to parent. */
  method TakeSibling(parent: Menu, menu: Menu, modules: Sym, ghost first: Menu?, ghost done: Forest, ghost todo: Forest)
    returns (ghost calls: seq<Menu>)
    requires todo.Cons? && Distinct(todo) && Nodes(done) !! Nodes(todo) && parent !in Nodes(todo)
    requires Linked(first, done, parent, menu) && menu == todo.n.m && Linked(menu, todo, parent.parent, null)
    modifies Nodes(todo)
    ensures var s := MenuFinalize.Finalize(todo.n, todo.kids, todo.rest, modules);
      && Linked(first, Append(done, Cons(todo.n, s.kids, Nil)), parent, menu.next)
      && Linked(menu.next, s.rest, parent.parent, null)
    ensures calls == Calls(todo.n, todo.kids, todo.rest, modules)
    decreases Count(todo), 0
  {
    hide Preorder, MenuFinalize.Finalize, Calls;
    NodesExist(todo);
    NodesExist(done);
    Peel(todo);
    FinalizeNodes(todo.n, todo.kids, todo.rest, modules);
    calls := Finalize(menu, modules, todo.n, todo.kids, todo.rest);
    ghost var s := MenuFinalize.Finalize(todo.n, todo.kids, todo.rest, modules);
    menu.parent := parent;
    LinkedSnoc(first, done, parent, todo.n, s.kids);
  }

  /** Does the sibling menu follow parent?  If so it is finalized and taken in. */
  method NextSibling(parent: Menu, menu: Menu, modules: Sym, base: Expr,
      ghost n: Node, ghost first: Menu?, ghost done: Forest, ghost todo: Forest)
    returns (taken: bool, ghost done2: Forest, ghost todo2: Forest, ghost calls: seq<Menu>)
    requires n.m == parent && parent.entry.Some? && base == S.NonNo(PromptCondition(n))
    requires todo.Cons? && Distinct(todo) && Nodes(done) !! Nodes(todo) && parent !in Nodes(todo)
    requires Linked(first, done, parent, menu) && menu == todo.n.m && Linked(menu, todo, parent.parent, null)
    modifies Nodes(todo)
    ensures var next := if taken then menu.next else menu;
      Linked(first, done2, parent, next) && Linked(next, todo2, parent.parent, null)
    ensures var a, a2 := Absorb(n, todo, modules), Absorb(n, todo2, modules);
      Append(done, a.kids) == Append(done2, a2.kids) && a.rest == a2.rest
    ensures CallsUnder(n, todo, modules) == calls + CallsUnder(n, todo2, modules)
    ensures taken ==> done2.Cons? && Last(done2).n.m == menu && Count(todo2) < Count(todo)
    ensures !taken ==> done2 == done && todo2 == todo && calls == []
    ensures !taken ==> Absorb(n, todo, modules) == Split(Nil, todo) && CallsUnder(n, todo, modules) == []
    decreases Count(todo), 1
  {
    hide Preorder, MenuFinalize.Finalize, Calls, Absorb, CallsUnder, Follows, S.NonNo, Append, Last, Nodes, Distinct, Linked;
    PeelLinked(menu, todo, parent.parent, null);
    AbsorbNext(n, todo, done, modules);
    NodesExist(todo);
    NodesExist(done);
    Peel(todo);
    taken := TestSibling(menu, parent.entry.value.sym, base, n, todo.n);
    done2, todo2, calls := done, todo, [];
    if taken {
      ghost var s := MenuFinalize.Finalize(todo.n, todo.kids, todo.rest, modules);
      calls := TakeSibling(parent, menu, modules, first, done, todo);
      LastAppend(done, todo.n, s.kids);
      done2, todo2 := Append(done, Cons(todo.n, s.kids, Nil)), s.rest;
    }
  }

  /** The loop over the siblings that follow parent: those taken in are finalized
      and have parent as theirs, but are still linked as its siblings. */
  method CollectSiblings(parent: Menu, modules: Sym, ghost n: Node, ghost rest: Forest)
    returns (last: Menu?, ghost done: Forest, ghost todo: Forest, ghost calls: seq<Menu>)
    requires n.m == parent && Stores(n) && Distinct(Cons(n, Nil, rest))
    requires parent.entry.Some? && Linked(parent.next, rest, parent.parent, null)
    modifies Nodes(rest)
    ensures Absorb(n, rest, modules) == Split(done, todo) && calls == CallsUnder(n, rest, modules)
    ensures last == null <==> done.Nil?
    ensures last != null ==> last == Last(done).n.m
    ensures var menu := if last == null then parent.next else last.next;
      Linked(parent.next, done, parent, menu) && Linked(menu, todo, parent.parent, null)
    decreases Count(rest), 2
  {
    hide Preorder, Absorb, CallsUnder, Distinct, Nodes, Count, Linked, Append, Last, Init;
    hide MenuFinalize.Finalize, FinalizeList, Flatten, InheritAll, Calls, CallsInList, Follows, S.NonNo;
    PeelLinked(parent.next, Nil, parent, parent.next);
    Peel(Cons(n, Nil, rest));
    AppendAssoc(Nil, Nil, Absorb(n, rest, modules).kids);
    calls, last, done, todo := [], null, Nil, rest;
    var vis := if parent.hasPrompt then parent.visible else None;
    var base := S.NonNo(vis);
    assert base == S.NonNo(PromptCondition(n));
    hide PromptCondition;
    var menu := parent.next;
    while menu != null
      invariant Absorb(n, rest, modules) ==
        Split(Append(done, Absorb(n, todo, modules).kids), Absorb(n, todo, modules).rest)
      invariant calls + CallsUnder(n, todo, modules) == CallsUnder(n, rest, modules)
      invariant Linked(parent.next, done, parent, menu) && Linked(menu, todo, parent.parent, null)
      invariant last == null <==> done.Nil?
      invariant if last == null then menu == parent.next else last == Last(done).n.m && last.next == menu
      decreases Count(todo)
    {
      PeelLinked(menu, todo, parent.parent, null);
      AbsorbProgress(n, rest, done, todo, modules);
      NodesExist(Append(done, todo));
      var taken, done2, todo2, more := NextSibling(parent, menu, modules, base, n, parent.next, done, todo);
      SumTail(calls, more, CallsUnder(n, todo2, modules), CallsUnder(n, todo, modules));
      calls, done, todo := calls + more, done2, todo2;
      if !taken {
        break;
      }
      last := menu;
      menu := menu.next;
    }
    PeelLinked(menu, todo, parent.parent, null);
    AbsorbNext(n, todo, done, modules);
    AppendAssoc(done, Nil, Nil);
  }

  method AbsorbSiblings(parent: Menu, modules: Sym, ghost n: Node, ghost rest: Forest)
    returns (ghost calls: seq<Menu>)
    requires n.m == parent && Stores(n) && Distinct(Cons(n, Nil, rest))
    requires parent.entry.Some? && parent.list == null && Linked(parent.next, rest, parent.parent, null)
    modifies parent`list, parent`next, Nodes(rest)
    ensures var r := Absorb(n, rest, modules);
      Linked(parent.list, r.kids, parent, null) && Linked(parent.next, r.rest, parent.parent, null)
    ensures calls == CallsUnder(n, rest, modules)
    decreases Count(rest), 3
  {
    hide Preorder, Absorb, CallsUnder, Distinct, Nodes, Count;
    Peel(Cons(n, Nil, rest));
    var last, done, todo, called := CollectSiblings(parent, modules, n, rest);
    calls := called;
    AbsorbNodes(n, rest, modules);
    if last != null {
      CloseSubmenu(parent, last, done, todo);
    }
  }

  lemma FinalizeRoot(n: Node, f: Forest, modules: Sym)
    requires Distinct(Cons(n, f, Nil))
    ensures var r := MenuFinalize.Finalize(n, f, Nil, modules);
      r.rest == Nil && Preorder(r.kids) == Preorder(f) && Distinct(r.kids)
  {
    hide FinalizeList, Flatten, InheritAll, Absorb;
    var r := MenuFinalize.Finalize(n, f, Nil, modules);
    SumTail([], Preorder(r.kids), [], Preorder(f));
    SameNodes(r.kids, f);
  }

  /** The whole run from the root: same nodes in the same preorder, each one
      finalized once, every child's parent pointer right (Linked), and no entry
      without prompt text left with children. */
  method FinalizeTree(root: Menu, modules: Sym, ghost n: Node, ghost f: Forest) returns (ghost calls: seq<Menu>)
    requires n.m == root && Stores(n) && Distinct(Cons(n, f, Nil))
    requires root.next == null && Linked(root.list, f, root, null)
    modifies Nodes(Cons(n, f, Nil))
    ensures var r := MenuFinalize.Finalize(n, f, Nil, modules).kids;
      && Linked(root.list, r, root, null) && root.next == null && Distinct(r)
      && Preorder(r) == Preorder(f)
      && Flat(r)
      && multiset(calls) == multiset{root} + multiset(Preorder(f))
  {
    hide MenuFinalize.Finalize, Preorder, Calls, Flat, Distinct;
    calls := Finalize(root, modules, n, f, Nil);
    FinalizeRoot(n, f, modules);
    FinalizeFlat(n, f, Nil, modules);
    CallsOnce(n, f, Nil, modules);
  }
}
