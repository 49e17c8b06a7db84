/**
  expr_eliminate_dups: repeated passes that compare every operand of a level
  with every other operand of the same level and join the pairs that can be.
 */
module Dups {
  import opened Expressions
  import opened Eliminate
  import opened Joins

  // ---------- A level and its operands ----------

  /** The operands of the `op` level rooted at e, left to right. */
  function Leaves(op: Op, e: Expr): (s: seq<Expr>)
    ensures |s| >= 1
    ensures forall k :: 0 <= k < |s| ==> !IsLevel(op, s[k])
    ensures !IsLevel(op, e) ==> s == [e]
  {
    if IsLevel(op, e) then Leaves(op, e.left) + Leaves(op, e.right) else [e]
  }

  /** The level of the shape of e with the given operands. */
  function Refill(op: Op, e: Expr, s: seq<Expr>): Expr
    requires |s| == |Leaves(op, e)|
  {
    if IsLevel(op, e) then
      var n := |Leaves(op, e.left)|;
      Bin(op, Refill(op, e.left, s[..n]), Refill(op, e.right, s[n..]))
    else s[0]
  }

  function Total(s: seq<Expr>): nat {
    if s == [] then 0 else Size(s[0]) + Total(s[1..])
  }

  lemma TotalUpdate(s: seq<Expr>, k: nat, e: Expr)
    requires k < |s|
    ensures Total(s[k := e]) == Total(s) - Size(s[k]) + Size(e)
    ensures Size(s[k]) <= Total(s)
  {
    if k > 0 {
      assert s[k := e][1..] == s[1..][k - 1 := e];
      TotalUpdate(s[1..], k - 1, e);
    } else {
      assert s[0 := e][1..] == s[1..];
    }
  }

  lemma TotalPair(s: seq<Expr>, i: nat, j: nat)
    requires i < |s| && j < |s| && i != j
    ensures Size(s[i]) + Size(s[j]) <= Total(s)
  {
    if i > 0 && j > 0 {
      TotalPair(s[1..], i - 1, j - 1);
    } else {
      var k := if i == 0 then j else i;
      TotalUpdate(s[1..], k - 1, s[k]);
    }
  }

  lemma TotalTwo(s: seq<Expr>, i: nat, j: nat, a: Expr, b: Expr)
    requires i < |s| && j < |s| && i != j
    ensures Total(s[i := a][j := b]) == Total(s) - Size(s[i]) - Size(s[j]) + Size(a) + Size(b)
  {
    TotalUpdate(s, i, a);
    TotalUpdate(s[i := a], j, b);
  }

  lemma TotalConcat(s: seq<Expr>, t: seq<Expr>)
    ensures Total(s + t) == Total(s) + Total(t)
  {
    if s == [] {
      assert s + t == t;
    } else {
      assert (s + t)[1..] == s[1..] + t;
      TotalConcat(s[1..], t);
    }
  }

  lemma LeavesTotal(op: Op, e: Expr)
    ensures Size(e) == Total(Leaves(op, e)) + |Leaves(op, e)| - 1
  {
    if IsLevel(op, e) {
      LeavesTotal(op, e.left);
      LeavesTotal(op, e.right);
      TotalConcat(Leaves(op, e.left), Leaves(op, e.right));
    } else {
      assert Leaves(op, e) == [e];
      assert Total([e]) == Size(e) + Total([e][1..]);
    }
  }

  lemma RefillLeaves(op: Op, e: Expr, s: seq<Expr>)
    requires |s| == |Leaves(op, e)|
    requires forall k :: 0 <= k < |s| ==> !IsLevel(op, s[k])
    ensures Leaves(op, Refill(op, e, s)) == s
    ensures IsLevel(op, Refill(op, e, s)) <==> IsLevel(op, e)
  {
    if IsLevel(op, e) {
      var n := |Leaves(op, e.left)|;
      RefillLeaves(op, e.left, s[..n]);
      RefillLeaves(op, e.right, s[n..]);
      assert s[..n] + s[n..] == s;
    }
  }

  lemma RefillSame(op: Op, e: Expr)
    ensures Refill(op, e, Leaves(op, e)) == e
  {
    if IsLevel(op, e) {
      var n := |Leaves(op, e.left)|;
      assert Leaves(op, e)[..n] == Leaves(op, e.left) && Leaves(op, e)[n..] == Leaves(op, e.right);
      RefillSame(op, e.left);
      RefillSame(op, e.right);
    }
  }

  // ---------- One pass ----------

  datatype Level = Level(leaves: seq<Expr>, count: nat)

  /** Compares operand i with operand j: operand i is first reduced itself if
      it is a level of the other operator, then the two are joined if possible,
      leaving the unit of `op` in i and the joined operand in j. */
  function Step(op: Op, s: seq<Expr>, i: nat, j: nat): (r: Level)
    requires i < |s| && j < |s|
    requires forall k :: 0 <= k < |s| ==> !IsLevel(op, s[k])
    ensures |r.leaves| == |s| && Total(r.leaves) <= Total(s)
    ensures forall k :: 0 <= k < |s| ==> !IsLevel(op, r.leaves[k])
    decreases Total(s), 0
  {
    if i == j then Level(s, 0)
    else
      TotalPair(s, i, j);
      var a := if s[i].Bin? then Pass(s[i]) else Reduced(s[i], 0);
      TotalUpdate(s, i, a.expr);
      var t := Join(op, a.expr, s[j]);
      if t.None? then Level(s[i := a.expr], a.count)
      else
        TotalTwo(s, i, j, Symbol(UnitSym(op)), t.value);
        Level(s[i := Symbol(UnitSym(op))][j := t.value], a.count + 1)
  }

  /** Operand i against the operands j, j + 1, ..., hi - 1. */
  function Row(op: Op, s: seq<Expr>, i: nat, j: nat, hi: nat): (r: Level)
    requires i < |s| && j <= hi <= |s|
    requires forall k :: 0 <= k < |s| ==> !IsLevel(op, s[k])
    ensures |r.leaves| == |s| && Total(r.leaves) <= Total(s)
    ensures forall k :: 0 <= k < |s| ==> !IsLevel(op, r.leaves[k])
    decreases Total(s), 1, hi - j
  {
    if j == hi then Level(s, 0)
    else
      var a := Step(op, s, i, j);
      var b := Row(op, a.leaves, i, j + 1, hi);
      Level(b.leaves, a.count + b.count)
  }

  /** The operands i, i + 1, ..., hi - 1 against the operands lo, ..., top - 1. */
  function Rows(op: Op, s: seq<Expr>, i: nat, hi: nat, lo: nat, top: nat): (r: Level)
    requires i <= hi <= |s| && lo <= top <= |s|
    requires forall k :: 0 <= k < |s| ==> !IsLevel(op, s[k])
    ensures |r.leaves| == |s| && Total(r.leaves) <= Total(s)
    ensures forall k :: 0 <= k < |s| ==> !IsLevel(op, r.leaves[k])
    decreases Total(s), 2, hi - i
  {
    if i == hi then Level(s, 0)
    else
      var a := Row(op, s, i, lo, top);
      var b := Rows(op, a.leaves, i + 1, hi, lo, top);
      Level(b.leaves, a.count + b.count)
  }

  function AllRows(op: Op, s: seq<Expr>): (r: Level)
    requires forall k :: 0 <= k < |s| ==> !IsLevel(op, s[k])
    ensures |r.leaves| == |s| && Total(r.leaves) <= Total(s)
    ensures forall k :: 0 <= k < |s| ==> !IsLevel(op, r.leaves[k])
    decreases Total(s), 3
  {
    Rows(op, s, 0, |s|, 0, |s|)
  }

  datatype Reduced = Reduced(expr: Expr, count: nat)

  /** One pass over the level rooted at e, and the levels below it. */
  function Pass(e: Expr): (r: Reduced)
    requires e.Bin?
    ensures IsLevel(e.op, r.expr) && Size(r.expr) <= Size(e)
    decreases Size(e), 4
  {
    LeavesTotal(e.op, e);
    assert |Leaves(e.op, e)| >= 2;
    var a := AllRows(e.op, Leaves(e.op, e));
    RefillLeaves(e.op, e, a.leaves);
    LeavesTotal(e.op, Refill(e.op, e, a.leaves));
    Reduced(Refill(e.op, e, a.leaves), a.count)
  }

  // ---------- Termination of the outer loop ----------

  /** Some && has a y operand, or some || an n operand. */
  predicate HasUnit(e: Expr) {
    e.Bin? &&
    (e.left == Symbol(UnitSym(e.op)) || e.right == Symbol(UnitSym(e.op)) || HasUnit(e.left) || HasUnit(e.right))
  }

  predicate IsUnitLeaf(op: Op, x: Expr) {
    x == Symbol(UnitSym(op)) || HasUnit(x)
  }

  lemma {:induction false} HasUnitShrinks(e: Expr)
    requires HasUnit(e)
    ensures Size(EliminateYn(e)) < Size(e)
  {
    if HasUnit(e.left) {
      HasUnitShrinks(e.left);
    }
    if HasUnit(e.right) {
      HasUnitShrinks(e.right);
    }
  }

  lemma LeafOfSide(op: Op, e: Expr, k: nat)
    requires IsLevel(op, e) && k < |Leaves(op, e)|
    ensures var n := |Leaves(op, e.left)|;
      Leaves(op, e)[k] == if k < n then Leaves(op, e.left)[k] else Leaves(op, e.right)[k - n]
  {
  }

  /** A unit operand anywhere in the level makes HasUnit true ... */
  lemma {:induction false} UnitLeafGivesHasUnit(op: Op, e: Expr, k: nat)
    requires k < |Leaves(op, e)| && IsUnitLeaf(op, Leaves(op, e)[k])
    ensures IsLevel(op, e) ==> HasUnit(e)
    ensures !IsLevel(op, e) ==> IsUnitLeaf(op, e)
  {
    if IsLevel(op, e) {
      var n := |Leaves(op, e.left)|;
      LeafOfSide(op, e, k);
      if k < n {
        UnitLeafGivesHasUnit(op, e.left, k);
      } else {
        UnitLeafGivesHasUnit(op, e.right, k - n);
      }
    }
  }

  /** ... and only a unit operand does. */
  lemma {:induction false} HasUnitGivesUnitLeaf(op: Op, e: Expr) returns (k: nat)
    requires if IsLevel(op, e) then HasUnit(e) else IsUnitLeaf(op, e)
    ensures k < |Leaves(op, e)| && IsUnitLeaf(op, Leaves(op, e)[k])
  {
    if !IsLevel(op, e) {
      k := 0;
    } else if IsUnitLeaf(op, e.left) {
      k := HasUnitGivesUnitLeaf(op, e.left);
      LeafOfSide(op, e, k);
    } else {
      k := HasUnitGivesUnitLeaf(op, e.right);
      k := k + |Leaves(op, e.left)|;
      LeafOfSide(op, e, k);
    }
  }

  ghost predicate HasUnitIn(op: Op, s: seq<Expr>) {
    exists k :: 0 <= k < |s| && IsUnitLeaf(op, s[k])
  }

  /** Once a unit operand is there it stays, and every join leaves one. */
  lemma {:induction false} StepUnit(op: Op, s: seq<Expr>, i: nat, j: nat)
    requires i < |s| && j < |s|
    requires forall k :: 0 <= k < |s| ==> !IsLevel(op, s[k])
    ensures var r := Step(op, s, i, j);
      r.count > 0 || HasUnitIn(op, s) ==> HasUnitIn(op, r.leaves)
    decreases Total(s), 0
  {
    var r := Step(op, s, i, j);
    if i != j {
      TotalPair(s, i, j);
      var a := if s[i].Bin? then Pass(s[i]) else Reduced(s[i], 0);
      if s[i].Bin? {
        PassUnit(s[i]);
      }
      if Join(op, a.expr, s[j]).Some? {
        assert IsUnitLeaf(op, r.leaves[i]);
      } else if a.count > 0 {
        assert IsUnitLeaf(op, r.leaves[i]);
      } else if HasUnitIn(op, s) {
        var k :| 0 <= k < |s| && IsUnitLeaf(op, s[k]);
        assert IsUnitLeaf(op, r.leaves[k]);
      }
    }
  }

  lemma {:induction false} RowUnit(op: Op, s: seq<Expr>, i: nat, j: nat, hi: nat)
    requires i < |s| && j <= hi <= |s|
    requires forall k :: 0 <= k < |s| ==> !IsLevel(op, s[k])
    ensures var r := Row(op, s, i, j, hi);
      r.count > 0 || HasUnitIn(op, s) ==> HasUnitIn(op, r.leaves)
    decreases Total(s), 1, hi - j
  {
    if j < hi {
      StepUnit(op, s, i, j);
      RowUnit(op, Step(op, s, i, j).leaves, i, j + 1, hi);
    }
  }

  lemma {:induction false} RowsUnit(op: Op, s: seq<Expr>, i: nat, hi: nat, lo: nat, top: nat)
    requires i <= hi <= |s| && lo <= top <= |s|
    requires forall k :: 0 <= k < |s| ==> !IsLevel(op, s[k])
    ensures var r := Rows(op, s, i, hi, lo, top);
      r.count > 0 || HasUnitIn(op, s) ==> HasUnitIn(op, r.leaves)
    decreases Total(s), 2, hi - i
  {
    if i < hi {
      RowUnit(op, s, i, lo, top);
      RowsUnit(op, Row(op, s, i, lo, top).leaves, i + 1, hi, lo, top);
    }
  }

  lemma {:induction false} PassUnit(e: Expr)
    requires e.Bin?
    ensures Pass(e).count > 0 || HasUnit(e) ==> HasUnit(Pass(e).expr)
    decreases Size(e), 4
  {
    var s := Leaves(e.op, e);
    LeavesTotal(e.op, e);
    RowsUnit(e.op, s, 0, |s|, 0, |s|);
    var r := AllRows(e.op, s);
    RefillLeaves(e.op, e, r.leaves);
    if HasUnit(e) {
      var k := HasUnitGivesUnitLeaf(e.op, e);
      assert HasUnitIn(e.op, s);
    }
    if r.count > 0 || HasUnit(e) {
      var k :| 0 <= k < |r.leaves| && IsUnitLeaf(e.op, r.leaves[k]);
      UnitLeafGivesHasUnit(e.op, Pass(e).expr, k);
    }
  }

  /** The whole simplification. */
  function EliminateDups(e: Expr): (r: Expr)
    ensures Size(r) <= Size(e)
    decreases Size(e)
  {
    if !e.Bin? || Pass(e).count == 0 then e
    else
      PassUnit(e);
      HasUnitShrinks(Pass(e).expr);
      EliminateDups(EliminateYn(Pass(e).expr))
  }

  // ---------- The value ----------

  function LevelVal(op: Op, s: seq<Expr>, env: Env): Tri {
    if s == [] then env.tri(UnitSym(op)) else Ap(op, Val(s[0], env), LevelVal(op, s[1..], env))
  }

  lemma LevelValConcat(op: Op, s: seq<Expr>, t: seq<Expr>, env: Env)
    requires ConstsFixed(env)
    ensures LevelVal(op, s + t, env) == Ap(op, LevelVal(op, s, env), LevelVal(op, t, env))
  {
    if s == [] {
      assert s + t == t;
    } else {
      assert (s + t)[1..] == s[1..] + t;
      LevelValConcat(op, s[1..], t, env);
    }
  }

  lemma LeavesVal(op: Op, e: Expr, env: Env)
    requires ConstsFixed(env)
    ensures Val(e, env) == LevelVal(op, Leaves(op, e), env)
  {
    if IsLevel(op, e) {
      LeavesVal(op, e.left, env);
      LeavesVal(op, e.right, env);
      LevelValConcat(op, Leaves(op, e.left), Leaves(op, e.right), env);
    } else {
      assert LevelVal(op, [e], env) == Ap(op, Val(e, env), LevelVal(op, [e][1..], env));
    }
  }

  /** An outer value and one operand may be exchanged for another pair with
      the same combined value. */
  lemma {:induction false} LevelValExchange(op: Op, s: seq<Expr>, k: nat, x: Expr, a: Tri, b: Tri, env: Env)
    requires k < |s|
    requires Ap(op, a, Val(s[k], env)) == Ap(op, b, Val(x, env))
    ensures Ap(op, a, LevelVal(op, s, env)) == Ap(op, b, LevelVal(op, s[k := x], env))
  {
    hide Val, Ap;
    var t := s[k := x];
    if k > 0 {
      assert t[1..] == s[1..][k - 1 := x];
      LevelValExchange(op, s[1..], k - 1, x, a, b, env);
      ApLaws(op, a, Val(s[0], env), LevelVal(op, s[1..], env));
      ApLaws(op, b, Val(s[0], env), LevelVal(op, t[1..], env));
    } else {
      assert t[1..] == s[1..];
      ApLaws(op, a, Val(s[0], env), LevelVal(op, s[1..], env));
      ApLaws(op, b, Val(x, env), LevelVal(op, s[1..], env));
    }
  }

  lemma {:induction false} LevelValUpdate(op: Op, s: seq<Expr>, k: nat, x: Expr, env: Env)
    requires k < |s| && Val(s[k], env) == Val(x, env)
    ensures LevelVal(op, s, env) == LevelVal(op, s[k := x], env)
  {
    if k > 0 {
      assert s[k := x][1..] == s[1..][k - 1 := x];
      LevelValUpdate(op, s[1..], k - 1, x, env);
    } else {
      assert s[k := x][1..] == s[1..];
    }
  }

  lemma LevelValHead(op: Op, s: seq<Expr>, env: Env)
    requires s != []
    ensures LevelVal(op, s, env) == Ap(op, Val(s[0], env), LevelVal(op, s[1..], env))
  {
  }

  /** The first operand and a later one are replaced together. */
  lemma LevelValFirst(op: Op, s: seq<Expr>, k: nat, a: Expr, b: Expr, env: Env)
    requires 0 < k < |s|
    requires Ap(op, Val(s[0], env), Val(s[k], env)) == Ap(op, Val(a, env), Val(b, env))
    ensures LevelVal(op, s, env) == LevelVal(op, [a] + s[1..][k - 1 := b], env)
  {
    hide Val, Ap, LevelVal;
    var t := [a] + s[1..][k - 1 := b];
    LevelValHead(op, s, env);
    LevelValHead(op, t, env);
    assert t[1..] == s[1..][k - 1 := b];
    LevelValExchange(op, s[1..], k - 1, b, Val(s[0], env), Val(a, env), env);
  }

  lemma {:induction false} LevelValTwo(op: Op, s: seq<Expr>, i: nat, j: nat, a: Expr, b: Expr, env: Env)
    requires i < |s| && j < |s| && i != j
    requires Ap(op, Val(s[i], env), Val(s[j], env)) == Ap(op, Val(a, env), Val(b, env))
    ensures LevelVal(op, s, env) == LevelVal(op, s[i := a][j := b], env)
  {
    hide Val, Ap, LevelVal;
    var t := s[i := a][j := b];
    if i > 0 && j > 0 {
      assert t[1..] == s[1..][i - 1 := a][j - 1 := b] && t[0] == s[0];
      LevelValTwo(op, s[1..], i - 1, j - 1, a, b, env);
      LevelValHead(op, s, env);
      LevelValHead(op, t, env);
    } else if i == 0 {
      LevelValFirst(op, s, j, a, b, env);
      assert t == [a] + s[1..][j - 1 := b];
    } else {
      ApLaws(op, Val(s[i], env), Val(s[0], env), NO);
      ApLaws(op, Val(a, env), Val(b, env), NO);
      LevelValFirst(op, s, i, b, a, env);
      assert t == [b] + s[1..][i - 1 := a];
    }
  }

  ghost predicate AllForm(s: seq<Expr>, form: Keep) {
    forall k :: 0 <= k < |s| ==> Form(s[k], form)
  }

  lemma {:induction false} LeavesForm(op: Op, e: Expr, form: Keep)
    ensures Form(e, form) <==> AllForm(Leaves(op, e), form)
  {
    if IsLevel(op, e) {
      LeavesForm(op, e.left, form);
      LeavesForm(op, e.right, form);
      var s, l, r := Leaves(op, e), Leaves(op, e.left), Leaves(op, e.right);
      assert forall k :: 0 <= k < |l| ==> s[k] == l[k];
      assert forall k :: 0 <= k < |r| ==> s[|l| + k] == r[k];
    } else {
      assert Leaves(op, e)[0] == e;
    }
  }

  lemma {:induction false} StepVal(op: Op, s: seq<Expr>, i: nat, j: nat, env: Env, form: Keep)
    requires i < |s| && j < |s|
    requires forall k :: 0 <= k < |s| ==> !IsLevel(op, s[k])
    requires Sane(env) && AllForm(s, form)
    ensures var r := Step(op, s, i, j);
      AllForm(r.leaves, form) && LevelVal(op, r.leaves, env) == LevelVal(op, s, env)
    decreases Total(s), 0
  {
    hide Join, Pass, Leaves, AllRows, Refill, Size, LevelVal;
    if i != j {
      TotalPair(s, i, j);
      var a := if s[i].Bin? then Pass(s[i]) else Reduced(s[i], 0);
      if s[i].Bin? {
        PassVal(s[i], env, form);
      }
      if Join(op, a.expr, s[j]).Some? {
        JoinVal(op, a.expr, s[j], env);
        JoinKeepsForm(op, a.expr, s[j], form);
        LevelValTwo(op, s, i, j, Symbol(UnitSym(op)), Join(op, a.expr, s[j]).value, env);
      } else {
        LevelValUpdate(op, s, i, a.expr, env);
      }
    }
  }

  lemma {:induction false} RowVal(op: Op, s: seq<Expr>, i: nat, j: nat, hi: nat, env: Env, form: Keep)
    requires i < |s| && j <= hi <= |s|
    requires forall k :: 0 <= k < |s| ==> !IsLevel(op, s[k])
    requires Sane(env) && AllForm(s, form)
    ensures var r := Row(op, s, i, j, hi);
      AllForm(r.leaves, form) && LevelVal(op, r.leaves, env) == LevelVal(op, s, env)
    decreases Total(s), 1, hi - j
  {
    if j < hi {
      StepVal(op, s, i, j, env, form);
      RowVal(op, Step(op, s, i, j).leaves, i, j + 1, hi, env, form);
    }
  }

  lemma {:induction false} RowsVal(op: Op, s: seq<Expr>, i: nat, hi: nat, lo: nat, top: nat, env: Env, form: Keep)
    requires i <= hi <= |s| && lo <= top <= |s|
    requires forall k :: 0 <= k < |s| ==> !IsLevel(op, s[k])
    requires Sane(env) && AllForm(s, form)
    ensures var r := Rows(op, s, i, hi, lo, top);
      AllForm(r.leaves, form) && LevelVal(op, r.leaves, env) == LevelVal(op, s, env)
    decreases Total(s), 2, hi - i
  {
    if i < hi {
      RowVal(op, s, i, lo, top, env, form);
      RowsVal(op, Row(op, s, i, lo, top).leaves, i + 1, hi, lo, top, env, form);
    }
  }

  lemma {:induction false} PassVal(e: Expr, env: Env, form: Keep)
    requires e.Bin? && Sane(env) && Form(e, form)
    ensures Val(Pass(e).expr, env) == Val(e, env) && Form(Pass(e).expr, form)
    decreases Size(e), 4
  {
    var s := Leaves(e.op, e);
    LeavesTotal(e.op, e);
    LeavesForm(e.op, e, form);
    RowsVal(e.op, s, 0, |s|, 0, |s|, env, form);
    RefillLeaves(e.op, e, AllRows(e.op, s).leaves);
    LeavesForm(e.op, Pass(e).expr, form);
    LeavesVal(e.op, e, env);
    LeavesVal(e.op, Pass(e).expr, env);
  }

  /** The simplification keeps the value in every sane environment, and the form. */
  lemma {:induction false} EliminateDupsVal(e: Expr, env: Env, form: Keep)
    requires Sane(env) && Form(e, form)
    ensures Val(EliminateDups(e), env) == Val(e, env)
    ensures Form(EliminateDups(e), form)
    decreases Size(e)
  {
    if e.Bin? && Pass(e).count != 0 {
      PassVal(e, env, form);
      EliminateYnVal(Pass(e).expr, env);
      EliminateYnKeepsForm(Pass(e).expr, form);
      PassUnit(e);
      HasUnitShrinks(Pass(e).expr);
      EliminateDupsVal(EliminateYn(Pass(e).expr), env, form);
    }
  }

  // ---------- The exit condition ----------

  /** No two distinct operands of any level can be joined. */
  ghost predicate Settled(e: Expr)
    decreases Size(e)
  {
    e.Bin? ==>
      var s := Leaves(e.op, e);
      && (forall i, j :: 0 <= i < |s| && 0 <= j < |s| && i != j ==> Join(e.op, s[i], s[j]).None?)
      && (forall k :: 0 <= k < |s| ==> (LeafSmaller(e, k); Settled(s[k])))
  }

  lemma LeafSmaller(e: Expr, k: nat)
    requires e.Bin? && k < |Leaves(e.op, e)|
    ensures Size(Leaves(e.op, e)[k]) < Size(e)
  {
    LeavesTotal(e.op, e);
    var s := Leaves(e.op, e);
    assert |s| >= 2;
    TotalPair(s, k, if k == 0 then 1 else 0);
  }

  ghost predicate QuietPair(op: Op, s: seq<Expr>, i: nat, j: nat)
    requires i < |s| && j < |s|
  {
    i == j || (Join(op, s[i], s[j]).None? && Settled(s[i]))
  }

  lemma {:induction false} StepQuiet(op: Op, s: seq<Expr>, i: nat, j: nat)
    requires i < |s| && j < |s|
    requires forall k :: 0 <= k < |s| ==> !IsLevel(op, s[k])
    ensures Step(op, s, i, j).count == 0 <==> QuietPair(op, s, i, j)
    ensures QuietPair(op, s, i, j) ==> Step(op, s, i, j).leaves == s
    decreases Total(s), 0
  {
    if i != j {
      TotalPair(s, i, j);
      if s[i].Bin? {
        PassQuiet(s[i]);
      }
    }
  }

  lemma {:induction false} RowQuiet(op: Op, s: seq<Expr>, i: nat, j: nat, hi: nat)
    requires i < |s| && j <= hi <= |s|
    requires forall k :: 0 <= k < |s| ==> !IsLevel(op, s[k])
    ensures Row(op, s, i, j, hi).count == 0 <==> forall k :: j <= k < hi ==> QuietPair(op, s, i, k)
    ensures Row(op, s, i, j, hi).count == 0 ==> Row(op, s, i, j, hi).leaves == s
    decreases Total(s), 1, hi - j
  {
    if j < hi {
      StepQuiet(op, s, i, j);
      RowQuiet(op, Step(op, s, i, j).leaves, i, j + 1, hi);
    }
  }

  lemma {:induction false} RowsQuiet(op: Op, s: seq<Expr>, i: nat, hi: nat, lo: nat, top: nat)
    requires i <= hi <= |s| && lo <= top <= |s|
    requires forall k :: 0 <= k < |s| ==> !IsLevel(op, s[k])
    ensures Rows(op, s, i, hi, lo, top).count == 0 <==>
      forall h, k :: i <= h < hi && lo <= k < top ==> QuietPair(op, s, h, k)
    ensures Rows(op, s, i, hi, lo, top).count == 0 ==> Rows(op, s, i, hi, lo, top).leaves == s
    decreases Total(s), 2, hi - i
  {
    if i < hi {
      RowQuiet(op, s, i, lo, top);
      RowsQuiet(op, Row(op, s, i, lo, top).leaves, i + 1, hi, lo, top);
    }
  }

  /** A pass counts nothing exactly when nothing can be joined, and then it
      leaves the expression as it was. */
  lemma {:induction false} PassQuiet(e: Expr)
    requires e.Bin?
    ensures Pass(e).count == 0 <==> Settled(e)
    ensures Pass(e).count == 0 ==> Pass(e).expr == e
    decreases Size(e), 4
  {
    var s := Leaves(e.op, e);
    LeavesTotal(e.op, e);
    RowsQuiet(e.op, s, 0, |s|, 0, |s|);
    RefillSame(e.op, e);
    assert |s| >= 2;
    if Pass(e).count == 0 {
      assert AllRows(e.op, s) == Rows(e.op, s, 0, |s|, 0, |s|);
      assert forall h, k :: 0 <= h < |s| && 0 <= k < |s| ==> QuietPair(e.op, s, h, k);
      forall k | 0 <= k < |s|
        ensures Settled(s[k])
      {
        assert QuietPair(e.op, s, k, if k == 0 then 1 else 0);
      }
      forall i, j | 0 <= i < |s| && 0 <= j < |s| && i != j
        ensures Join(e.op, s[i], s[j]).None?
      {
        assert QuietPair(e.op, s, i, j);
      }
    }
  }

  /** On exit no level has two operands that can be joined ... */
  lemma {:induction false} EliminateDupsSettled(e: Expr)
    ensures Settled(EliminateDups(e))
    decreases Size(e)
  {
    if e.Bin? {
      PassQuiet(e);
      if Pass(e).count != 0 {
        PassUnit(e);
        HasUnitShrinks(Pass(e).expr);
        EliminateDupsSettled(EliminateYn(Pass(e).expr));
      }
    }
  }

  /** ... so a second call changes nothing. */
  lemma EliminateDupsIdempotent(e: Expr)
    ensures EliminateDups(EliminateDups(e)) == EliminateDups(e)
  {
    EliminateDupsSettled(e);
    if EliminateDups(e).Bin? {
      PassQuiet(EliminateDups(e));
    }
  }
}
