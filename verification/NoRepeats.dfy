/**
  expr_eq recognises every expression as equal to itself, and therefore a
  simplified expression repeats no operand.
 */
module NoRepeats {
  import opened Expressions
  import opened Eliminate
  import opened Joins
  import opened Dups

  predicate IsYesNo(e: Expr) {
    e == Symbol(SymYes) || e == Symbol(SymNo)
  }

  predicate AllYesNo(s: seq<Expr>) {
    forall k :: 0 <= k < |s| ==> IsYesNo(s[k])
  }

  lemma SplitYesNo(s: seq<Expr>, t: seq<Expr>)
    requires AllYesNo(s + t)
    ensures AllYesNo(s) && AllYesNo(t)
  {
    assert forall k :: 0 <= k < |s| ==> (s + t)[k] == s[k];
    assert forall k :: 0 <= k < |t| ==> (s + t)[|s| + k] == t[k];
  }

  /** What an operand becomes when it is cancelled against itself. */
  function Erased(op: Op, x: Expr): Expr {
    if IsYesNo(x) then x else Symbol(UnitSym(op))
  }

  lemma {:induction false} YesNoCancelsNothing(op: Op, x: Expr, t: Expr)
    requires IsYesNo(x)
    ensures CancelLevel(op, x, t) == Pair(x, t, 0)
  {
    if IsLevel(op, t) {
      YesNoCancelsNothing(op, x, t.left);
      YesNoCancelsNothing(op, x, t.right);
    }
  }

  lemma {:induction false} CancelsNothingInYesNo(op: Op, x: Expr, t: Expr)
    requires !IsLevel(op, x) && AllYesNo(Leaves(op, t))
    ensures CancelLevel(op, x, t) == Pair(x, t, 0)
  {
    if IsLevel(op, t) {
      SplitYesNo(Leaves(op, t.left), Leaves(op, t.right));
      CancelsNothingInYesNo(op, x, t.left);
      CancelsNothingInYesNo(op, x, t.right);
    } else {
      assert Leaves(op, t)[0] == t;
    }
  }

  lemma SplitAround(l: seq<Expr>, r: seq<Expr>, before: seq<Expr>, x: Expr, after: seq<Expr>)
    requires l + r == before + [x] + after
    ensures |before| < |l| ==>
      var rest := l[|before| + 1..];
      l == before + [x] + rest && after == rest + r &&
      forall y :: before + [y] + rest + r == before + [y] + after
    ensures |before| >= |l| ==>
      var rest := before[|l|..];
      l == before[..|l|] && r == rest + [x] + after &&
      forall y :: l + (rest + [y] + after) == before + [y] + after
  {
    var s := before + [x] + after;
    assert l == s[..|l|] && r == s[|l|..];
    if |before| < |l| {
      var rest := l[|before| + 1..];
      assert l == before + [x] + rest;
      assert after == s[|before| + 1..] == rest + r;
    } else {
      assert l == before[..|l|] && r == before[|l|..] + [x] + after;
    }
  }

  /** An operand meets its own copy first, if all operands before it are y or n. */
  lemma {:induction false} CancelOperand(op: Op, x: Expr, t: Expr, before: seq<Expr>, after: seq<Expr>)
    requires Leaves(op, t) == before + [x] + after
    requires !IsLevel(op, x) && ExprEq(x, x) && AllYesNo(before)
    ensures var p := CancelLevel(op, x, t);
      p.fst == Erased(op, x) && Leaves(op, p.snd) == before + [Erased(op, x)] + after
  {
    if IsYesNo(x) {
      YesNoCancelsNothing(op, x, t);
    } else if IsLevel(op, t) {
      var l, r := Leaves(op, t.left), Leaves(op, t.right);
      SplitAround(l, r, before, x, after);
      if |before| < |l| {
        CancelOperand(op, x, t.left, before, l[|before| + 1..]);
        YesNoCancelsNothing(op, Erased(op, x), t.right);
        assert Leaves(op, CancelLevel(op, x, t).snd) == before + [Erased(op, x)] + l[|before| + 1..] + r;
      } else {
        CancelsNothingInYesNo(op, x, t.left);
        CancelOperand(op, x, t.right, before[|l|..], after);
        assert Leaves(op, CancelLevel(op, x, t).snd) == l + (before[|l|..] + [Erased(op, x)] + after);
      }
    } else {
      assert |before + [x] + after| == 1;
      assert before == [] && after == [] && t == (before + [x] + after)[0];
    }
  }

  function AllErased(op: Op, s: seq<Expr>): (r: seq<Expr>)
    ensures |r| == |s|
  {
    seq(|s|, k requires 0 <= k < |s| => Erased(op, s[k]))
  }

  lemma Regroup(op: Op, before: seq<Expr>, l: seq<Expr>, r: seq<Expr>, after: seq<Expr>)
    ensures before + (l + r) + after == before + l + (r + after)
    ensures AllErased(op, l + r) == AllErased(op, l) + AllErased(op, r)
    ensures before + AllErased(op, l) + (r + after) == before + AllErased(op, l) + r + after
    ensures before + AllErased(op, l) + AllErased(op, r) + after == before + AllErased(op, l + r) + after
  {
    assert AllErased(op, l + r) == AllErased(op, l) + AllErased(op, r);
  }

  lemma AppendYesNo(op: Op, before: seq<Expr>, l: seq<Expr>)
    requires AllYesNo(before)
    ensures AllYesNo(before + AllErased(op, l))
  {
    var s := before + AllErased(op, l);
    forall k | 0 <= k < |s|
      ensures IsYesNo(s[k])
    {
      if k >= |before| {
        assert s[k] == Erased(op, l[k - |before|]);
      }
    }
  }

  /** Cancelling a level against one that holds the same operands after
      `before` erases them on both sides. */
  lemma {:induction false} CancelWindow(op: Op, e: Expr, t: Expr, before: seq<Expr>, after: seq<Expr>)
    requires Leaves(op, t) == before + Leaves(op, e) + after
    requires AllYesNo(before)
    requires forall k :: 0 <= k < |Leaves(op, e)| ==> ExprEq(Leaves(op, e)[k], Leaves(op, e)[k])
    ensures var p, w := CancelLevel(op, e, t), Leaves(op, e);
      Leaves(op, p.fst) == AllErased(op, w) && Leaves(op, p.snd) == before + AllErased(op, w) + after
  {
    var w := Leaves(op, e);
    if IsLevel(op, e) {
      var l, r := Leaves(op, e.left), Leaves(op, e.right);
      assert forall k :: 0 <= k < |l| ==> w[k] == l[k];
      assert forall k :: 0 <= k < |r| ==> w[|l| + k] == r[k];
      Regroup(op, before, l, r, after);
      CancelWindow(op, e.left, t, before, r + after);
      var a := CancelLevel(op, e.left, t);
      AppendYesNo(op, before, l);
      CancelWindow(op, e.right, a.snd, before + AllErased(op, l), after);
    } else {
      assert w == [e] && w[0] == e;
      CancelOperand(op, e, t, before, after);
      assert AllErased(op, w) == [Erased(op, e)];
    }
  }

  /** A level of y and n operands collapses to one of them. */
  function Collapsed(op: Op, s: seq<Expr>): Expr {
    if Symbol(ZeroSym(op)) in s then Symbol(ZeroSym(op)) else Symbol(UnitSym(op))
  }

  lemma {:induction false} YesNoLevelCollapses(op: Op, e: Expr)
    requires AllYesNo(Leaves(op, e))
    ensures EliminateYn(e) == Collapsed(op, Leaves(op, e))
  {
    if IsLevel(op, e) {
      SplitYesNo(Leaves(op, e.left), Leaves(op, e.right));
      YesNoLevelCollapses(op, e.left);
      YesNoLevelCollapses(op, e.right);
    } else {
      assert Leaves(op, e)[0] == e;
    }
  }

  lemma {:induction false} ExprEqReflexive(e: Expr)
    ensures ExprEq(e, e)
    decreases Size(e)
  {
    match e
    case Symbol(_) =>
    case Comp(_, _, _) =>
    case Not(a) => ExprEqReflexive(a);
    case Bin(op, _, _) =>
      var s := Leaves(op, e);
      forall k | 0 <= k < |s|
        ensures ExprEq(s[k], s[k])
      {
        LeafSmaller(e, k);
        ExprEqReflexive(s[k]);
      }
      CancelWindow(op, e, e, [], []);
      var p := CancelLevel(op, e, e);
      assert Leaves(op, p.fst) == Leaves(op, p.snd);
      YesNoLevelCollapses(op, p.fst);
      YesNoLevelCollapses(op, p.snd);
  }

  /** No operand is repeated at any level. */
  ghost predicate NoRepeats(e: Expr)
    decreases Size(e)
  {
    e.Bin? ==>
      var s := Leaves(e.op, e);
      && (forall i, j :: 0 <= i < j < |s| ==> !ExprEq(s[i], s[j]) && s[i] != s[j])
      && (forall k :: 0 <= k < |s| ==> (LeafSmaller(e, k); NoRepeats(s[k])))
  }

  lemma {:induction false} SettledNoRepeats(e: Expr)
    requires Settled(e)
    ensures NoRepeats(e)
    decreases Size(e)
  {
    if e.Bin? {
      var s := Leaves(e.op, e);
      forall i, j | 0 <= i < j < |s|
        ensures !ExprEq(s[i], s[j]) && s[i] != s[j]
      {
        assert Join(e.op, s[i], s[j]).None?;
        ExprEqReflexive(s[i]);
      }
      forall k | 0 <= k < |s|
        ensures Size(s[k]) < Size(e) && NoRepeats(s[k])
      {
        LeafSmaller(e, k);
        SettledNoRepeats(s[k]);
      }
    }
  }

  lemma EliminateDupsNoRepeats(e: Expr)
    ensures NoRepeats(EliminateDups(e))
  {
    EliminateDupsSettled(e);
    SettledNoRepeats(EliminateDups(e));
  }
}
