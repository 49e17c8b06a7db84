/**
  The menu tree: nodes linked by list (first child), next and parent.
 */
module Menus {
  import opened Expressions

  /** The symbol of an entry, and whether it heads a choice. */
  datatype EntrySym = EntrySym(sym: Sym, isChoice: bool)

  class Menu {
    var next: Menu?
    var parent: Menu?
    var list: Menu?
    const entry: Option<EntrySym>
    /** Is there a prompt, and does it have text? */
    const hasPrompt: bool
    const hasText: bool
    /** The condition of the entry, and that of its prompt. */
    var dep: Option<Expr>
    var visible: Option<Expr>

    constructor (entry: Option<EntrySym>, hasPrompt: bool, hasText: bool, dep: Option<Expr>, visible: Option<Expr>)
      ensures this.entry == entry && this.hasPrompt == hasPrompt && this.hasText == hasText
      ensures this.dep == dep && this.visible == visible
      ensures next == null && parent == null && list == null
    {
      this.entry, this.hasPrompt, this.hasText := entry, hasPrompt, hasText;
      this.dep, this.visible := dep, visible;
      next, parent, list := null, null, null;
    }
  }

  /** A node together with the conditions it holds. */
  datatype Node = Node(m: Menu, dep: Option<Expr>, visible: Option<Expr>)

  /** A list of siblings: the first one, its children, the others. */
  datatype Forest = Nil | Cons(n: Node, kids: Forest, rest: Forest)

  ghost function Nodes(f: Forest): set<Menu> {
    match f
    case Nil => {}
    case Cons(n, kids, rest) => {n.m} + Nodes(kids) + Nodes(rest)
  }

  ghost function Preorder(f: Forest): seq<Menu> {
    match f
    case Nil => []
    case Cons(n, kids, rest) => [n.m] + Preorder(kids) + Preorder(rest)
  }

  ghost function Count(f: Forest): nat {
    match f
    case Nil => 0
    case Cons(_, kids, rest) => 1 + Count(kids) + Count(rest)
  }

  /** No node occurs twice. */
  ghost predicate Distinct(f: Forest) {
    match f
    case Nil => true
    case Cons(n, kids, rest) =>
      && n.m !in Nodes(kids) && n.m !in Nodes(rest) && Nodes(kids) !! Nodes(rest)
      && Distinct(kids) && Distinct(rest)
  }

  ghost predicate Stores(n: Node)
    reads n.m
  {
    n.m.dep == n.dep && n.m.visible == n.visible
  }

  /** The nodes from `first` up to but not including `end` are linked as the
      siblings f with parent p, and their descendants likewise. */
  ghost predicate Linked(first: Menu?, f: Forest, p: Menu?, end: Menu?)
    reads Nodes(f)
  {
    match f
    case Nil => first == end
    case Cons(n, kids, rest) =>
      && first == n.m && Stores(n) && n.m.parent == p
      && Linked(n.m.list, kids, n.m, null) && Linked(n.m.next, rest, p, end)
  }

  lemma {:induction false} PreorderNodes(f: Forest)
    ensures forall m :: m in Nodes(f) <==> m in Preorder(f)
    ensures |Preorder(f)| == Count(f)
  {
    if f.Cons? {
      PreorderNodes(f.kids);
      PreorderNodes(f.rest);
    }
  }

  /** One step of the definitions above. */
  lemma Peel(f: Forest)
    requires f.Cons?
    ensures Nodes(f) == {f.n.m} + Nodes(f.kids) + Nodes(f.rest)
    ensures Count(f) == 1 + Count(f.kids) + Count(f.rest)
    ensures Distinct(f) <==>
      && f.n.m !in Nodes(f.kids) && f.n.m !in Nodes(f.rest) && Nodes(f.kids) !! Nodes(f.rest)
      && Distinct(f.kids) && Distinct(f.rest)
  {
  }

  lemma PeelLinked(first: Menu?, f: Forest, p: Menu?, end: Menu?)
    ensures f.Nil? ==> (Linked(first, f, p, end) <==> first == end)
    ensures f.Cons? ==> (Linked(first, f, p, end) <==>
      && first == f.n.m && Stores(f.n) && f.n.m.parent == p
      && Linked(f.n.m.list, f.kids, f.n.m, null) && Linked(f.n.m.next, f.rest, p, end))
  {
  }

  /** In a well-formed tree the preorder lists every node once. */
  lemma {:induction false} PreorderOnce(f: Forest, m: Menu)
    requires Distinct(f)
    ensures multiset(Preorder(f))[m] == if m in Nodes(f) then 1 else 0
  {
    if f.Cons? {
      PreorderOnce(f.kids, m);
      PreorderOnce(f.rest, m);
    }
  }

  // ---------- Concatenation of sibling lists ----------

  ghost function Append(f: Forest, g: Forest): Forest {
    match f
    case Nil => g
    case Cons(n, kids, rest) => Cons(n, kids, Append(rest, g))
  }

  lemma {:induction false} AppendFacts(f: Forest, g: Forest)
    ensures Nodes(Append(f, g)) == Nodes(f) + Nodes(g)
    ensures Preorder(Append(f, g)) == Preorder(f) + Preorder(g)
    ensures Count(Append(f, g)) == Count(f) + Count(g)
    ensures Distinct(Append(f, g)) <==> Distinct(f) && Distinct(g) && Nodes(f) !! Nodes(g)
  {
    if f.Cons? {
      AppendFacts(f.rest, g);
    }
  }

  lemma {:induction false} AppendAssoc(f: Forest, g: Forest, h: Forest)
    ensures Append(Append(f, g), h) == Append(f, Append(g, h))
    ensures Append(f, Nil) == f && Append(Nil, h) == h
  {
    if f.Cons? {
      AppendAssoc(f.rest, g, h);
    }
  }

  lemma {:induction false} LinkedAppend(first: Menu?, f: Forest, p: Menu?, mid: Menu?, g: Forest, end: Menu?)
    requires Linked(first, f, p, mid) && Linked(mid, g, p, end)
    ensures Linked(first, Append(f, g), p, end)
  {
    if f.Cons? {
      LinkedAppend(f.n.m.next, f.rest, p, mid, g, end);
    }
  }

  lemma SumRegrouped<T>(h: seq<T>, a: seq<T>, b: seq<T>, c: seq<T>, d: seq<T>)
    requires a + b == c + d
    ensures h + a + b == h + c + d
  {
    assert h + a + b == h + (a + b) && h + c + d == h + (c + d);
  }

  lemma SumTail<T>(h: seq<T>, a: seq<T>, b: seq<T>, d: seq<T>)
    requires a + b == d
    ensures h + a + b == h + d
  {
    assert h + a + b == h + (a + b);
  }

  // ---------- The preorder determines the nodes ----------

  ghost function Elements(s: seq<Menu>): set<Menu> {
    if s == [] then {} else {s[0]} + Elements(s[1..])
  }

  ghost predicate NoRepeats(s: seq<Menu>) {
    s == [] || (s[0] !in Elements(s[1..]) && NoRepeats(s[1..]))
  }

  lemma {:induction false} ElementsOfSum(a: seq<Menu>, b: seq<Menu>)
    ensures Elements(a + b) == Elements(a) + Elements(b)
    ensures NoRepeats(a + b) <==> NoRepeats(a) && NoRepeats(b) && Elements(a) !! Elements(b)
  {
    if a == [] {
      assert a + b == b;
    } else {
      assert (a + b)[1..] == a[1..] + b;
      ElementsOfSum(a[1..], b);
    }
  }

  lemma {:induction false} PreorderElements(f: Forest)
    ensures Nodes(f) == Elements(Preorder(f))
    ensures Distinct(f) <==> NoRepeats(Preorder(f))
  {
    if f.Cons? {
      var h, a, b := [f.n.m], Preorder(f.kids), Preorder(f.rest);
      assert Elements(h) == {f.n.m} && NoRepeats(h);
      hide Elements, NoRepeats;
      PreorderElements(f.kids);
      PreorderElements(f.rest);
      ElementsOfSum(h + a, b);
      ElementsOfSum(h, a);
    }
  }

  /** Forests with the same preorder have the same nodes. */
  lemma SameNodes(f: Forest, g: Forest)
    requires Preorder(f) == Preorder(g)
    ensures Nodes(f) == Nodes(g) && Count(f) == Count(g) && (Distinct(f) <==> Distinct(g))
  {
    hide Preorder, Nodes, Count, Distinct;
    PreorderNodes(f);
    PreorderNodes(g);
    PreorderElements(f);
    PreorderElements(g);
  }

  /** The same for a forest that two others make up. */
  lemma SameNodesSplit(f1: Forest, f2: Forest, g1: Forest, g2: Forest)
    requires Preorder(f1) + Preorder(f2) == Preorder(g1) + Preorder(g2)
    ensures Nodes(f1) + Nodes(f2) == Nodes(g1) + Nodes(g2) && Count(f1) + Count(f2) == Count(g1) + Count(g2)
    ensures Distinct(f1) && Distinct(f2) && Nodes(f1) !! Nodes(f2) <==>
      Distinct(g1) && Distinct(g2) && Nodes(g1) !! Nodes(g2)
  {
    hide Preorder, Nodes, Count, Distinct, Append;
    AppendFacts(f1, f2);
    AppendFacts(g1, g2);
    SameNodes(Append(f1, f2), Append(g1, g2));
  }

  lemma TwoParts(f: Forest, a: Forest, b: Forest)
    requires Preorder(a) + Preorder(b) == Preorder(f)
    ensures Nodes(a) + Nodes(b) == Nodes(f) && Nodes(Append(a, b)) == Nodes(f)
    ensures Distinct(f) ==> Distinct(a) && Distinct(b) && Nodes(a) !! Nodes(b)
    ensures Count(b) <= Count(f)
  {
    hide Preorder, Distinct, Append, Nodes, Count;
    AppendFacts(a, b);
    SameNodes(Append(a, b), f);
  }

  /** Of a list being rebuilt from front to back, `done` and `todo` hold its nodes
      between them, if what becomes of `todo` keeps the preorder. */
  lemma DoneAndTodo(f: Forest, g: Forest, done: Forest, todo: Forest, gtodo: Forest)
    requires Append(done, gtodo) == g && Preorder(g) == Preorder(f) && Preorder(gtodo) == Preorder(todo)
    ensures Nodes(done) + Nodes(todo) == Nodes(f) && Nodes(Append(done, todo)) == Nodes(f)
    ensures Distinct(f) ==> Distinct(done) && Distinct(todo) && Nodes(done) !! Nodes(todo)
    ensures Count(todo) <= Count(f)
  {
    assert Preorder(done) + Preorder(todo) == Preorder(f) by {
      AppendFacts(done, gtodo);
    }
    hide Preorder, Distinct, Append, Nodes, Count;
    TwoParts(f, done, todo);
  }
}
