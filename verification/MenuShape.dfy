/**
  What a whole run leaves alone: an entry with prompt text that has children keeps
  exactly those below it.
 */
module MenuShape {
  import opened Expressions
  import opened Menus
  import opened MenuFinalize

  /** The nodes below m in f, in preorder; none if m does not occur. */
  ghost function Below(f: Forest, m: Menu): seq<Menu> {
    match f
    case Nil => []
    case Cons(n, kids, rest) => (if n.m == m then Preorder(kids) else []) + Below(kids, m) + Below(rest, m)
  }

  lemma {:induction false} Absent(f: Forest, m: Menu)
    ensures m !in Nodes(f) ==> Below(f, m) == []
  {
    if f.Cons? {
      Absent(f.kids, m);
      Absent(f.rest, m);
    }
  }

  lemma {:induction false} BelowAppend(f: Forest, g: Forest, m: Menu)
    ensures Below(Append(f, g), m) == Below(f, m) + Below(g, m)
  {
    if f.Cons? {
      BelowAppend(f.rest, g, m);
      SumTail((if f.n.m == m then Preorder(f.kids) else []) + Below(f.kids, m),
        Below(f.rest, m), Below(g, m), Below(Append(f.rest, g), m));
    }
  }

  /** Flattening takes children away only from entries without text. */
  lemma {:induction false} FlattenBelow(f: Forest, m: Menu)
    requires m.hasText
    ensures Below(Flatten(f), m) == Below(f, m)
    decreases Count(f)
  {
    hide Preorder;
    if f.Cons? {
      AppendFacts(f.kids, f.rest);
      if f.kids.Cons? && !f.n.m.hasText {
        BelowAppend(f.kids, f.rest, m);
        FlattenBelow(Append(f.kids, f.rest), m);
      } else {
        FlattenBelow(f.rest, m);
      }
    }
  }

  lemma {:induction false} InheritBelow(parentDep: Option<Expr>, f: Forest, modules: Sym, m: Menu)
    ensures Below(InheritAll(parentDep, f, modules), m) == Below(f, m)
  {
    hide Inherit, Preorder;
    if f.Cons? {
      InheritBelow(parentDep, f.rest, modules, m);
      assert Inherit(parentDep, f.n, modules).m == f.n.m by {
        InheritNode(parentDep, f.n, modules);
      }
    }
  }

  lemma InheritNode(parentDep: Option<Expr>, n: Node, modules: Sym)
    ensures Inherit(parentDep, n, modules).m == n.m
  {
  }

  /** In two disjoint forests only one has anything below m. */
  lemma OneSide(f: Forest, g: Forest, m: Menu)
    requires Nodes(f) !! Nodes(g)
    ensures Below(f, m) == [] || (Below(g, m) == [] && m !in Nodes(g))
  {
    Absent(f, m);
    Absent(g, m);
  }

  /** Finalizing p changes nothing below an entry with text that has children. */
  lemma {:induction false} FinalizeKeeps(p: Node, kids: Forest, rest: Forest, modules: Sym, m: Menu)
    requires m.hasText && Distinct(kids) && Distinct(rest) && Nodes(kids) !! Nodes(rest)
    requires Below(kids, m) != [] || Below(rest, m) != []
    ensures var r := Finalize(p, kids, rest, modules);
      Below(r.kids, m) + Below(r.rest, m) == Below(kids, m) + Below(rest, m)
    decreases Count(kids) + Count(rest), 2
  {
    hide FinalizeList, Absorb, Flatten, InheritAll, Preorder, ParentDep, Distinct, Nodes, Below;
    if kids.Cons? {
      var f := InheritAll(ParentDep(p), kids, modules);
      var g := Flatten(FinalizeList(f, modules));
      InheritBelow(ParentDep(p), kids, modules, m);
      SameNodes(f, kids);
      SameNodes(g, kids);
      if Below(kids, m) != [] {
        ListKeeps(f, modules, m);
        FlattenBelow(FinalizeList(f, modules), m);
      } else {
        OneSide(rest, kids, m);
        Absent(g, m);
      }
    } else if p.m.entry.Some? {
      NothingBelow(m);
      AbsorbKeeps(p, rest, modules, m);
      FlattenBelow(Absorb(p, rest, modules).kids, m);
    } else {
      NothingBelow(m);
    }
  }

  lemma NothingBelow(m: Menu)
    ensures Below(Nil, m) == []
  {
  }

  lemma BelowCons(n: Node, kids: Forest, rest: Forest, m: Menu)
    ensures Below(Cons(n, kids, rest), m) ==
      (if n.m == m then Preorder(kids) else []) + Below(kids, m) + Below(rest, m)
  {
  }

  /** The first of the siblings. */
  lemma HeadKeeps(n: Node, kids: Forest, rest: Forest, modules: Sym, m: Menu)
    requires m.hasText && Distinct(Cons(n, kids, rest)) && Below(Cons(n, kids, rest), m) != []
    ensures var s := Finalize(n, kids, rest, modules);
      && (n.m == m ==> Preorder(s.kids) == Preorder(kids) && Below(s.kids, m) == [] && m !in Nodes(s.rest))
      && (n.m == m ==> Below(Cons(n, kids, rest), m) == Preorder(kids))
      && (n.m != m ==> Below(s.kids, m) + Below(s.rest, m) == Below(Cons(n, kids, rest), m))
      && Distinct(s.rest) && Nodes(s.kids) !! Nodes(s.rest)
    decreases Count(kids) + Count(rest), 3
  {
    hide FinalizeList, Absorb, Flatten, InheritAll, Distinct, Nodes, Below;
    Peel(Cons(n, kids, rest));
    FinalizeNodes(n, kids, rest, modules);
    BelowCons(n, kids, rest, m);
    var s := Finalize(n, kids, rest, modules);
    if n.m == m {
      Absent(kids, m);
      Absent(rest, m);
      Absent(s.kids, m);
    } else {
      FinalizeKeeps(n, kids, rest, modules, m);
    }
  }

  lemma {:induction false} ListKeeps(f: Forest, modules: Sym, m: Menu)
    requires m.hasText && Distinct(f) && Below(f, m) != []
    ensures Below(FinalizeList(f, modules), m) == Below(f, m)
    decreases Count(f), 1
  {
    hide Finalize, Preorder, Distinct, Nodes, Below;
    NothingBelow(m);
    var s := Finalize(f.n, f.kids, f.rest, modules);
    Peel(f);
    HeadKeeps(f.n, f.kids, f.rest, modules, m);
    var g := FinalizeList(s.rest, modules);
    BelowCons(f.n, s.kids, g, m);
    SameNodes(g, s.rest);
    Absent(s.rest, m);
    if Below(s.rest, m) != [] {
      ListKeeps(s.rest, modules, m);
    } else {
      OneSide(s.kids, s.rest, m);
      Absent(g, m);
    }
  }

  lemma {:induction false} AbsorbKeeps(p: Node, f: Forest, modules: Sym, m: Menu)
    requires p.m.entry.Some? && m.hasText && Distinct(f) && Below(f, m) != []
    ensures var a := Absorb(p, f, modules);
      Below(a.kids, m) + Below(a.rest, m) == Below(f, m)
    decreases Count(f), 1
  {
    hide Finalize, Preorder, Distinct, Nodes, Below, Follows;
    NothingBelow(m);
    if f.Cons? && Follows(p, f.n) {
      var s := Finalize(f.n, f.kids, f.rest, modules);
      var a := Absorb(p, s.rest, modules);
      Peel(f);
      HeadKeeps(f.n, f.kids, f.rest, modules, m);
      BelowCons(f.n, s.kids, a.kids, m);
      AbsorbNodes(p, s.rest, modules);
      Absent(s.rest, m);
      if Below(s.rest, m) != [] {
        AbsorbKeeps(p, s.rest, modules, m);
        SumTail(Below(s.kids, m), Below(a.kids, m), Below(a.rest, m), Below(s.rest, m));
      } else {
        OneSide(s.kids, s.rest, m);
        Absent(a.kids, m);
        Absent(a.rest, m);
      }
    }
  }

  /** Over a whole run from the root: whatever has text and children keeps them, with
      all that is below them. */
  lemma MenusKept(root: Node, f: Forest, modules: Sym, m: Menu)
    requires Distinct(f) && m.hasText && Below(f, m) != []
    ensures Below(Finalize(root, f, Nil, modules).kids, m) == Below(f, m)
  {
    hide FinalizeList, Flatten, InheritAll, Preorder, Distinct, Nodes, Below;
    NothingBelow(m);
    EmptyNodes();
    FinalizeKeeps(root, f, Nil, modules, m);
    var r := Finalize(root, f, Nil, modules);
    assert f.Cons? && r.rest == Nil && Below(r.kids, m) + [] == Below(r.kids, m) && Below(f, m) + [] == Below(f, m);
  }

  lemma EmptyNodes()
    ensures Nodes(Nil) == {} && Distinct(Nil)
  {
  }
}
