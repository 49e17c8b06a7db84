/**
  What expr_eq decides: for expressions without y or n operands, whether they are
  the same up to the order and the grouping of operands at every level.
 */
module Equality {
  import opened Expressions
  import opened Eliminate
  import opened Dups
  import opened NoRepeats

  /** An expression without the order and the grouping of its operands. */
  datatype Canonical =
    | CSymbol(sym: Sym)
    | CNot(arg: Canonical)
    | CComp(rel: Rel, lhs: Sym, rhs: Sym)
    | CLevel(op: Op, operands: multiset<Canonical>)

  ghost function Canon(e: Expr): Canonical
    decreases e, 0
  {
    match e
    case Symbol(s) => CSymbol(s)
    case Not(a) => CNot(Canon(a))
    case Comp(rel, l, r) => CComp(rel, l, r)
    case Bin(op, l, r) => CLevel(op, Operands(op, l) + Operands(op, r))
  }

  /** The operands of the `op` level rooted at e. */
  ghost function Operands(op: Op, e: Expr): multiset<Canonical>
    decreases e, 1
  {
    if IsLevel(op, e) then Operands(op, e.left) + Operands(op, e.right) else multiset{Canon(e)}
  }

  /** No operand of any level is y or n. */
  predicate Plain(e: Expr) {
    match e
    case Symbol(_) => true
    case Comp(_, _, _) => true
    case Not(a) => Plain(a)
    case Bin(_, l, r) => Plain(l) && Plain(r) && !IsYesNo(l) && !IsYesNo(r)
  }

  // ---------- Cancelling as a difference of multisets ----------

  /** Every operand is plain, or the unit that is left of a cancelled one. */
  predicate Cancelled(op: Op, e: Expr) {
    if IsLevel(op, e) then Cancelled(op, e.left) && Cancelled(op, e.right)
    else e == Symbol(UnitSym(op)) || (Plain(e) && !IsYesNo(e))
  }

  /** The operands that have not been cancelled. */
  ghost function Live(op: Op, e: Expr): multiset<Canonical> {
    if IsLevel(op, e) then Live(op, e.left) + Live(op, e.right)
    else if e == Symbol(UnitSym(op)) then multiset{}
    else multiset{Canon(e)}
  }

  lemma {:induction false} PlainIsLive(op: Op, e: Expr)
    requires Plain(e) && !IsYesNo(e)
    ensures Cancelled(op, e) && Live(op, e) == Operands(op, e)
  {
    if IsLevel(op, e) {
      PlainIsLive(op, e.left);
      PlainIsLive(op, e.right);
    }
  }

  lemma Differences(a: multiset<Canonical>, b: multiset<Canonical>, t: multiset<Canonical>)
    ensures (a - t) + (b - (t - a)) == (a + b) - t
    ensures (t - a) - b == t - (a + b)
  {
  }

  /** The greedy comparison of all pairs takes out exactly what both have. */
  lemma {:induction false} CancelTakesCommon(op: Op, e1: Expr, e2: Expr)
    requires Cancelled(op, e1) && Cancelled(op, e2)
    ensures var p := CancelLevel(op, e1, e2);
      && Cancelled(op, p.fst) && Live(op, p.fst) == Live(op, e1) - Live(op, e2)
      && Cancelled(op, p.snd) && Live(op, p.snd) == Live(op, e2) - Live(op, e1)
    decreases Size(e1) + Size(e2), if IsLevel(op, e1) || IsLevel(op, e2) then 1 else 5
  {
    hide ExprEq, Plain;
    if IsLevel(op, e1) {
      CancelTakesCommon(op, e1.left, e2);
      CancelTakesCommon(op, e1.right, CancelLevel(op, e1.left, e2).snd);
      Differences(Live(op, e1.left), Live(op, e1.right), Live(op, e2));
    } else if IsLevel(op, e2) {
      CancelTakesCommon(op, e1, e2.left);
      CancelTakesCommon(op, CancelLevel(op, e1, e2.left).fst, e2.right);
      Differences(Live(op, e2.left), Live(op, e2.right), Live(op, e1));
    } else {
      CancelPair(op, e1, e2);
    }
  }

  lemma CancelPair(op: Op, e1: Expr, e2: Expr)
    requires Cancelled(op, e1) && Cancelled(op, e2) && !IsLevel(op, e1) && !IsLevel(op, e2)
    ensures var p := CancelLevel(op, e1, e2);
      && Cancelled(op, p.fst) && Live(op, p.fst) == Live(op, e1) - Live(op, e2)
      && Cancelled(op, p.snd) && Live(op, p.snd) == Live(op, e2) - Live(op, e1)
    decreases Size(e1) + Size(e2), 4
  {
    hide ExprEq, Canon, Plain;
    Singles(Canon(e1), Canon(e2));
    var unit := Symbol(UnitSym(op));
    if e1 == unit && e2 == unit {
      assert CancelLevel(op, e1, e2) == Pair(e1, e2, 0);
    } else if e1 == unit || e2 == unit {
      UnitEqualsNone(op, e1, e2);
      assert CancelLevel(op, e1, e2) == Pair(e1, e2, 0);
    } else {
      ExprEqDecides(e1, e2);
      CancelOne(op, e1, e2);
    }
  }

  lemma CancelOne(op: Op, x: Expr, y: Expr)
    requires !IsLevel(op, x) && !IsLevel(op, y) && !IsYesNo(x)
    ensures CancelLevel(op, x, y) ==
      if ExprEq(x, y) then Pair(Symbol(UnitSym(op)), Symbol(UnitSym(op)), 1) else Pair(x, y, 0)
  {
  }

  lemma Singles(c: Canonical, d: Canonical)
    ensures multiset{c} - multiset{d} == if c == d then multiset{} else multiset{c}
    ensures multiset{d} - multiset{c} == if c == d then multiset{} else multiset{d}
    ensures multiset{c} - multiset{} == multiset{c} && multiset{d} - multiset{} == multiset{d}
    ensures multiset{} - multiset{c} == multiset{} && multiset{} - multiset{d} == multiset{}
  {
  }

  lemma UnitEqualsNone(op: Op, e1: Expr, e2: Expr)
    requires (e1 == Symbol(UnitSym(op))) != (e2 == Symbol(UnitSym(op)))
    ensures !ExprEq(e1, e2)
  {
  }

  lemma {:induction false} PlainNotSimplified(e: Expr)
    requires Plain(e)
    ensures EliminateYn(e) == e
  {
    if e.Bin? {
      PlainNotSimplified(e.left);
      PlainNotSimplified(e.right);
    }
  }

  /** What the y/n elimination leaves of a level: the unit if nothing is live, the
      live operand if there is one. */
  lemma {:induction false} LiveRemains(op: Op, e: Expr)
    requires Cancelled(op, e)
    ensures var r := EliminateYn(e);
      && r != Symbol(ZeroSym(op))
      && (r == Symbol(UnitSym(op)) <==> Live(op, e) == multiset{})
      && (r.Symbol? && r != Symbol(UnitSym(op)) ==> Live(op, e) == multiset{Canon(r)})
  {
    if IsLevel(op, e) {
      LiveRemains(op, e.left);
      LiveRemains(op, e.right);
    } else if Plain(e) {
      PlainNotSimplified(e);
    }
  }

  /** For plain expressions expr_eq decides sameness up to order and grouping. */
  lemma {:induction false} ExprEqDecides(e1: Expr, e2: Expr)
    requires Plain(e1) && Plain(e2)
    ensures ExprEq(e1, e2) <==> Canon(e1) == Canon(e2)
    decreases Size(e1) + Size(e2), 3
  {
    match e1
    case Symbol(_) =>
    case Comp(_, _, _) =>
    case Not(a) =>
      if e2.Not? {
        ExprEqDecides(a, e2.arg);
      }
    case Bin(op, _, _) =>
      if IsLevel(op, e2) {
        LevelsDecide(op, e1, e2);
      }
  }

  lemma LevelsDecide(op: Op, e1: Expr, e2: Expr)
    requires Plain(e1) && Plain(e2) && IsLevel(op, e1) && IsLevel(op, e2)
    ensures ExprEq(e1, e2) <==> Operands(op, e1) == Operands(op, e2)
    decreases Size(e1) + Size(e2), 2
  {
    hide Canon, EliminateYn, CancelLevel;
    PlainIsLive(op, e1);
    PlainIsLive(op, e2);
    CancelTakesCommon(op, e1, e2);
    var a, b := Operands(op, e1), Operands(op, e2);
    var p := CancelLevel(op, e1, e2);
    LiveRemains(op, p.fst);
    LiveRemains(op, p.snd);
    hide Live, Operands, Cancelled, Plain;
    Disjoint(a, b);
    assert EliminateEq(e1, e2) == Pair(EliminateYn(p.fst), EliminateYn(p.snd), p.count);
  }

  lemma Disjoint(a: multiset<Canonical>, b: multiset<Canonical>)
    ensures a - b == b - a ==> a == b
    ensures a - b == multiset{} && b - a == multiset{} ==> a == b
  {
    if a - b == b - a {
      forall c: Canonical
        ensures a[c] == b[c]
      {
        assert (a - b)[c] == (b - a)[c];
      }
    }
  }

  /** On a negation normal form removing the y and n operands leaves it plain. */
  lemma {:induction false} EliminatedIsPlain(e: Expr)
    requires Nnf(e)
    ensures Plain(EliminateYn(e))
  {
    if e.Bin? {
      EliminatedIsPlain(e.left);
      EliminatedIsPlain(e.right);
    }
  }

  /** So there it is an equivalence, and blind to order and grouping. */
  lemma PlainEquivalence(e1: Expr, e2: Expr, e3: Expr)
    requires Plain(e1) && Plain(e2) && Plain(e3)
    ensures ExprEq(e1, e2) <==> ExprEq(e2, e1)
    ensures ExprEq(e1, e2) && ExprEq(e2, e3) ==> ExprEq(e1, e3)
  {
    hide ExprEq, Canon, Plain;
    ExprEqDecides(e1, e2);
    ExprEqDecides(e2, e1);
    ExprEqDecides(e2, e3);
    ExprEqDecides(e1, e3);
  }

  lemma OrderAndGrouping(op: Op, a: Expr, b: Expr, c: Expr)
    requires Plain(Bin(op, a, b)) && Plain(Bin(op, b, c))
    ensures ExprEq(Bin(op, a, b), Bin(op, b, a))
    ensures ExprEq(Bin(op, Bin(op, a, b), c), Bin(op, a, Bin(op, b, c)))
  {
    var ab, bc := Bin(op, a, b), Bin(op, b, c);
    Regrouped(op, a, b, c);
    hide ExprEq, Plain, Operands;
    LevelsDecide(op, ab, Bin(op, b, a));
    LevelsDecide(op, Bin(op, ab, c), Bin(op, a, bc));
  }

  lemma Regrouped(op: Op, a: Expr, b: Expr, c: Expr)
    ensures Plain(Bin(op, a, b)) && Plain(Bin(op, b, c)) ==>
      Plain(Bin(op, b, a)) && Plain(Bin(op, Bin(op, a, b), c)) && Plain(Bin(op, a, Bin(op, b, c)))
    ensures Operands(op, Bin(op, a, b)) == Operands(op, Bin(op, b, a))
    ensures Operands(op, Bin(op, Bin(op, a, b), c)) == Operands(op, Bin(op, a, Bin(op, b, c)))
  {
    hide Operands;
    var ab, bc := Bin(op, a, b), Bin(op, b, c);
    OperandsOfLevel(op, a, b);
    OperandsOfLevel(op, b, a);
    OperandsOfLevel(op, b, c);
    OperandsOfLevel(op, ab, c);
    OperandsOfLevel(op, a, bc);
    SumsRegrouped(Operands(op, a), Operands(op, b), Operands(op, c));
  }

  lemma OperandsOfLevel(op: Op, l: Expr, r: Expr)
    ensures Operands(op, Bin(op, l, r)) == Operands(op, l) + Operands(op, r)
  {
  }

  lemma SumsRegrouped(a: multiset<Canonical>, b: multiset<Canonical>, c: multiset<Canonical>)
    ensures a + b == b + a && (a + b) + c == a + (b + c)
  {
  }

  // ---------- What the comment on expr_eq says ----------

  predicate Has(t: seq<Expr>, x: Expr) {
    exists y <- t :: ExprEq(x, y)
  }

  /** Every one of these operands equals some one of those. */
  predicate Found(s: seq<Expr>, t: seq<Expr>) {
    forall x <- s :: Has(t, x)
  }

  /** How many of the operands equal x. */
  function Occurs(x: Expr, s: seq<Expr>): nat {
    if s == [] then 0 else (if ExprEq(x, s[0]) then 1 else 0) + Occurs(x, s[1..])
  }

  ghost function Canons(s: seq<Expr>): multiset<Canonical> {
    if s == [] then multiset{} else multiset{Canon(s[0])} + Canons(s[1..])
  }

  lemma {:induction false} CanonsSum(s: seq<Expr>, t: seq<Expr>)
    ensures Canons(s + t) == Canons(s) + Canons(t)
  {
    if s == [] {
      assert s + t == t;
    } else {
      assert (s + t)[1..] == s[1..] + t;
      CanonsSum(s[1..], t);
    }
  }

  lemma {:induction false} OperandsAreLeaves(op: Op, e: Expr)
    requires Plain(e)
    ensures Operands(op, e) == Canons(Leaves(op, e))
    ensures forall x <- Leaves(op, e) :: Plain(x)
  {
    if IsLevel(op, e) {
      OperandsAreLeaves(op, e.left);
      OperandsAreLeaves(op, e.right);
      CanonsSum(Leaves(op, e.left), Leaves(op, e.right));
    } else {
      assert Canons([e]) == multiset{Canon(e)} + Canons([e][1..]);
    }
  }

  lemma {:induction false} OccursCounts(x: Expr, s: seq<Expr>)
    requires Plain(x) && forall y <- s :: Plain(y)
    ensures Occurs(x, s) == Canons(s)[Canon(x)]
    ensures Occurs(x, s) > 0 <==> Has(s, x)
  {
    hide ExprEq, Canon, Plain;
    if s != [] {
      assert s[0] in s;
      ExprEqDecides(x, s[0]);
      OccursCounts(x, s[1..]);
      assert forall y :: y in s <==> y == s[0] || y in s[1..];
    }
  }

  lemma {:induction false} CanonsFrom(s: seq<Expr>, c: Canonical)
    ensures Canons(s)[c] > 0 ==> exists x <- s :: Canon(x) == c
  {
    hide Canon;
    if s != [] {
      if Canon(s[0]) == c {
        assert s[0] in s;
      } else if Canons(s)[c] > 0 {
        CanonsFrom(s[1..], c);
        var x :| x in s[1..] && Canon(x) == c;
        assert x in s;
      }
    }
  }

  /** Two levels are equal if and only if every operand has as many equals on one
      side as on the other. */
  lemma ExprEqCounts(op: Op, e1: Expr, e2: Expr)
    requires Plain(e1) && Plain(e2) && IsLevel(op, e1) && IsLevel(op, e2)
    ensures var s, t := Leaves(op, e1), Leaves(op, e2);
      ExprEq(e1, e2) <==> forall x <- s + t :: Occurs(x, s) == Occurs(x, t)
  {
    hide ExprEq, Canon, Plain, Operands, Occurs, Canons;
    var s, t := Leaves(op, e1), Leaves(op, e2);
    LevelsDecide(op, e1, e2);
    OperandsAreLeaves(op, e1);
    OperandsAreLeaves(op, e2);
    forall x <- s + t
      ensures Occurs(x, s) == Canons(s)[Canon(x)] && Occurs(x, t) == Canons(t)[Canon(x)]
    {
      OccursCounts(x, s);
      OccursCounts(x, t);
    }
    if forall x <- s + t :: Occurs(x, s) == Occurs(x, t) {
      forall c: Canonical
        ensures Canons(s)[c] == Canons(t)[c]
      {
        CanonsFrom(s, c);
        CanonsFrom(t, c);
        if x :| x in s + t && Canon(x) == c {
          assert Occurs(x, s) == Occurs(x, t);
        }
      }
    }
  }

  /** Where no side repeats an operand the comment is right: levels are equal if and
      only if every operand of each side equals some operand of the other. */
  lemma CommentHolds(op: Op, e1: Expr, e2: Expr)
    requires Plain(e1) && Plain(e2) && IsLevel(op, e1) && IsLevel(op, e2)
    requires forall x <- Leaves(op, e1) :: Occurs(x, Leaves(op, e1)) == 1
    requires forall x <- Leaves(op, e2) :: Occurs(x, Leaves(op, e2)) == 1
    ensures var s, t := Leaves(op, e1), Leaves(op, e2);
      ExprEq(e1, e2) <==> Found(s, t) && Found(t, s)
  {
    hide ExprEq, Plain, Occurs, Canons, Canon, Has;
    var s, t := Leaves(op, e1), Leaves(op, e2);
    ExprEqCounts(op, e1, e2);
    OperandsAreLeaves(op, e1);
    OperandsAreLeaves(op, e2);
    forall x <- s + t
      ensures (Occurs(x, s) > 0 <==> Has(s, x)) && (Occurs(x, t) > 0 <==> Has(t, x))
      ensures Occurs(x, s) <= 1 && Occurs(x, t) <= 1
    {
      OccursCounts(x, s);
      OccursCounts(x, t);
      OccursOnce(x, s);
      OccursOnce(x, t);
    }
    if Found(s, t) && Found(t, s) {
      forall x <- s + t
        ensures Occurs(x, s) == Occurs(x, t)
      {
        assert x in s || x in t;
      }
    } else {
      var x :| (x in s && !Has(t, x)) || (x in t && !Has(s, x));
      assert x in s + t;
    }
  }

  /** If no operand is repeated, nothing equals two of them. */
  lemma OccursOnce(x: Expr, s: seq<Expr>)
    requires Plain(x) && forall y <- s :: Plain(y) && Occurs(y, s) == 1
    ensures Occurs(x, s) <= 1
  {
    hide ExprEq, Canon, Plain, Occurs, Canons;
    OccursCounts(x, s);
    if Occurs(x, s) > 0 {
      CanonsFrom(s, Canon(x));
      var y :| y in s && Canon(y) == Canon(x);
      OccursCounts(y, s);
    }
  }

  /** Repeated operands are the exception: A && A && B and A && B have the same
      operands, but not equally often. */
  lemma ExprEqCountsOperands(op: Op, a: Sym, b: Sym)
    requires !IsYesNo(Symbol(a)) && !IsYesNo(Symbol(b))
    ensures var x, y := Symbol(a), Symbol(b);
      var e1, e2 := Bin(op, Bin(op, x, x), y), Bin(op, x, y);
      && Found(Leaves(op, e1), Leaves(op, e2)) && Found(Leaves(op, e2), Leaves(op, e1))
      && !ExprEq(e1, e2)
  {
    var x, y := Symbol(a), Symbol(b);
    var e1, e2 := Bin(op, Bin(op, x, x), y), Bin(op, x, y);
    hide ExprEq, Leaves, Plain, Operands, Canon, Found;
    RepeatedOperand(op, a, b);
    RepeatedFound(x, y);
    LevelsDecide(op, e1, e2);
  }

  lemma RepeatedFound(x: Expr, y: Expr)
    ensures Found([x, x, y], [x, y]) && Found([x, y], [x, x, y])
  {
    hide ExprEq;
    ExprEqReflexive(x);
    ExprEqReflexive(y);
    assert [x, x, y][0] == x && [x, x, y][2] == y && [x, y][0] == x && [x, y][1] == y;
  }

  lemma RepeatedOperand(op: Op, a: Sym, b: Sym)
    requires !IsYesNo(Symbol(a)) && !IsYesNo(Symbol(b))
    ensures var x, y := Symbol(a), Symbol(b);
      var e1, e2 := Bin(op, Bin(op, x, x), y), Bin(op, x, y);
      && Plain(e1) && Plain(e2)
      && Leaves(op, e1) == [x, x, y] && Leaves(op, e2) == [x, y]
      && Operands(op, e1) != Operands(op, e2)
  {
    hide Canon;
    var x, y := Symbol(a), Symbol(b);
    var xx := Bin(op, x, x);
    assert Plain(x) && Plain(y) && Plain(xx) && !IsYesNo(xx);
    assert Leaves(op, x) == [x] && Leaves(op, y) == [y] && Leaves(op, xx) == [x, x];
    assert |Operands(op, x)| == 1 && |Operands(op, y)| == 1;
    hide Operands;
    OperandsOfLevel(op, x, x);
    OperandsOfLevel(op, xx, y);
    OperandsOfLevel(op, x, y);
    assert |Operands(op, Bin(op, xx, y))| == 3 && |Operands(op, Bin(op, x, y))| == 2;
  }

  /** The four comparisons between two levels of two operands. */
  lemma CancelTwo(op: Op, a: Expr, b: Expr, c: Expr, d: Expr)
    requires forall x <- [a, b, c, d] :: !IsLevel(op, x)
    ensures var ac := CancelLevel(op, a, c);
      var ad := CancelLevel(op, ac.fst, d);
      var bc := CancelLevel(op, b, ac.snd);
      var bd := CancelLevel(op, bc.fst, ad.snd);
      CancelLevel(op, Bin(op, a, b), Bin(op, c, d)) ==
        Pair(Bin(op, ad.fst, bd.fst), Bin(op, bc.snd, bd.snd), ac.count + ad.count + bc.count + bd.count)
  {
    hide CancelLevel;
    assert [a, b, c, d][0] == a && [a, b, c, d][1] == b;
    var ac := CancelLevel(op, a, c);
    var ad := CancelLevel(op, ac.fst, d);
    CancelLeft(op, a, b, Bin(op, c, d));
    CancelRight(op, a, c, d);
    CancelRight(op, b, ac.snd, ad.snd);
  }

  lemma CancelLeft(op: Op, l: Expr, r: Expr, e: Expr)
    ensures var a := CancelLevel(op, l, e);
      var b := CancelLevel(op, r, a.snd);
      CancelLevel(op, Bin(op, l, r), e) == Pair(Bin(op, a.fst, b.fst), b.snd, a.count + b.count)
  {
  }

  lemma CancelRight(op: Op, e: Expr, l: Expr, r: Expr)
    requires !IsLevel(op, e)
    ensures var a := CancelLevel(op, e, l);
      var b := CancelLevel(op, a.fst, r);
      CancelLevel(op, e, Bin(op, l, r)) == Pair(b.fst, Bin(op, a.snd, b.snd), a.count + b.count)
  {
  }

  /** So are operands that are y or n, which are dropped in some comparisons and
      not in others: equality is not even transitive then. */
  lemma YesNoOperandsBreak(s: Sym, r: Sym)
    requires s.Named? && r.Named? && s != r
    ensures var no, x, y := Symbol(SymNo), Symbol(s), Symbol(r);
      var a, b := Bin(OpOr, no, x), Bin(OpOr, no, y);
      var u, v, w := Bin(OpAnd, a, b), Bin(OpAnd, a, y), Bin(OpAnd, x, y);
      ExprEq(u, v) && ExprEq(v, w) && !ExprEq(u, w)
  {
    var no, yes, x, y := Symbol(SymNo), Symbol(SymYes), Symbol(s), Symbol(r);
    var a, b := Bin(OpOr, no, x), Bin(OpOr, no, y);
    var u, v, w := Bin(OpAnd, a, b), Bin(OpAnd, a, y), Bin(OpAnd, x, y);
    ExprEqReflexive(a);
    ExprEqReflexive(y);
    NoOrSymbol(s);
    NoOrSymbol(r);
    hide ExprEq, CancelLevel;
    SymbolsDiffer(OpOr, no, x, s);
    SymbolsDiffer(OpOr, no, x, r);
    SymbolsDiffer(OpOr, no, y, s);
    SymbolsDiffer(OpOr, no, y, r);
    SymbolsDiffer(OpOr, no, y, SymYes);
    TwoSymbols(r, s);
    CancelOne(OpAnd, a, a);
    CancelOne(OpAnd, a, x);
    CancelOne(OpAnd, a, y);
    CancelOne(OpAnd, b, x);
    CancelOne(OpAnd, b, y);
    CancelOne(OpAnd, b, yes);
    CancelOne(OpAnd, y, x);
    CancelOne(OpAnd, y, y);
    YesNoCancelsNothing(OpAnd, yes, y);
    CancelTwo(OpAnd, a, b, a, y);
    CancelTwo(OpAnd, a, y, x, y);
    CancelTwo(OpAnd, a, b, x, y);
    assert CancelLevel(OpAnd, u, v) == Pair(Bin(OpAnd, yes, b), Bin(OpAnd, yes, y), 1);
    assert CancelLevel(OpAnd, v, w) == Pair(Bin(OpAnd, a, yes), Bin(OpAnd, x, yes), 1);
    assert CancelLevel(OpAnd, u, w) == Pair(u, w, 0);
    EqualIfReduced(u, v);
    EqualIfReduced(v, w);
    EqualIfReduced(u, w);
  }

  lemma NoOrSymbol(s: Sym)
    requires s.Named?
    ensures EliminateYn(Bin(OpOr, Symbol(SymNo), Symbol(s))) == Symbol(s)
    ensures EliminateYn(Bin(OpAnd, Symbol(SymYes), Symbol(s))) == Symbol(s)
    ensures EliminateYn(Symbol(SymYes)) == Symbol(SymYes) && EliminateYn(Symbol(s)) == Symbol(s)
  {
    assert EliminateYn(Symbol(SymNo)) == Symbol(SymNo);
  }

  lemma SymbolsDiffer(op: Op, l: Expr, r: Expr, s: Sym)
    ensures !ExprEq(Bin(op, l, r), Symbol(s))
  {
  }

  lemma TwoSymbols(s: Sym, r: Sym)
    ensures ExprEq(Symbol(s), Symbol(r)) <==> s == r
  {
  }

  lemma EqualIfReduced(u: Expr, v: Expr)
    requires IsLevel(OpAnd, u) && IsLevel(OpAnd, v)
    ensures var p := CancelLevel(OpAnd, u, v);
      var l, r := EliminateYn(p.fst), EliminateYn(p.snd);
      ExprEq(u, v) <==> l.Symbol? && r.Symbol? && l.sym == r.sym
  {
  }
}
