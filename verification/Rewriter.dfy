/**
  The passes of expr.c as they run: in place, through slots, counting in one
  shared counter.

  A slot (a pointer to the pointer that holds an expression) is a path into an
  owned tree, so two slots of one tree may coincide or lie inside one another.
 */
module Rewriting {
  import opened Expressions
  import E = Eliminate
  import T = Transforms
  import V = Visibility
  import opened Joins
  import opened Dups

  /** false: the left operand, or the operand of a negation; true: the right operand. */
  type Path = seq<bool>

  predicate HasSide(e: Expr, side: bool) {
    e.Bin? || (e.Not? && !side)
  }

  function Side(e: Expr, side: bool): (r: Expr)
    requires HasSide(e, side)
    ensures Size(r) < Size(e)
  {
    if e.Not? then e.arg else if side then e.right else e.left
  }

  function WithSide(e: Expr, side: bool, x: Expr): (r: Expr)
    requires HasSide(e, side)
    ensures HasSide(r, side) && Side(r, side) == x
    ensures e.Bin? ==> r.Bin? && r.op == e.op && Side(r, !side) == Side(e, !side)
    ensures x == Side(e, side) ==> r == e
  {
    if e.Not? then Not(x) else if side then Bin(e.op, e.left, x) else Bin(e.op, x, e.right)
  }

  predicate HasSlot(e: Expr, p: Path) {
    p == [] || (HasSide(e, p[0]) && HasSlot(Side(e, p[0]), p[1..]))
  }

  function Get(e: Expr, p: Path): (r: Expr)
    requires HasSlot(e, p)
    ensures Size(r) <= Size(e)
  {
    if p == [] then e else Get(Side(e, p[0]), p[1..])
  }

  function Put(e: Expr, p: Path, x: Expr): (r: Expr)
    requires HasSlot(e, p)
    ensures HasSlot(r, p) && Get(r, p) == x
    ensures x == Get(e, p) ==> r == e
  {
    if p == [] then x else WithSide(e, p[0], Put(Side(e, p[0]), p[1..], x))
  }

  lemma {:induction false} PutPut(e: Expr, p: Path, x: Expr, y: Expr)
    requires HasSlot(e, p)
    ensures Put(Put(e, p, x), p, y) == Put(e, p, y)
  {
    if p != [] {
      PutPut(Side(e, p[0]), p[1..], x, y);
    }
  }

  /** A slot below a slot. */
  lemma {:induction false} SlotBelow(e: Expr, p: Path, q: Path, x: Expr)
    requires HasSlot(e, p) && HasSlot(Get(e, p), q)
    ensures HasSlot(e, p + q) && Get(e, p + q) == Get(Get(e, p), q)
    ensures Put(e, p + q, x) == Put(e, p, Put(Get(e, p), q, x))
  {
    if p == [] {
      assert p + q == q;
    } else {
      assert (p + q)[1..] == p[1..] + q && (p + q)[0] == p[0];
      SlotBelow(Side(e, p[0]), p[1..], q, x);
    }
  }

  lemma SideSlot(e: Expr, p: Path, side: bool, x: Expr)
    requires HasSlot(e, p) && HasSide(Get(e, p), side)
    ensures HasSlot(e, p + [side]) && Get(e, p + [side]) == Side(Get(e, p), side)
    ensures Put(e, p + [side], x) == Put(e, p, WithSide(Get(e, p), side, x))
  {
    var b := Get(e, p);
    assert [side][1..] == [];
    assert Get(b, [side]) == Get(Side(b, side), [side][1..]);
    assert HasSlot(b, [side]) && Get(b, [side]) == Side(b, side);
    assert Put(b, [side], x) == WithSide(b, side, x);
    SlotBelow(e, p, [side], x);
  }

  // ---------- Slots of one level ----------

  /** q leads from b to a node or operand of its `op` level. */
  predicate InLevel(op: Op, b: Expr, q: Path)
    ensures InLevel(op, b, q) ==> HasSlot(b, q)
  {
    q == [] || (IsLevel(op, b) && InLevel(op, Side(b, q[0]), q[1..]))
  }

  /** The number of the first operand below q. */
  function At(op: Op, b: Expr, q: Path): nat
    requires InLevel(op, b, q)
  {
    if q == [] then 0
    else (if q[0] then |Leaves(op, b.left)| else 0) + At(op, Side(b, q[0]), q[1..])
  }

  function Width(op: Op, b: Expr, q: Path): nat
    requires InLevel(op, b, q)
  {
    |Leaves(op, Get(b, q))|
  }

  /** The same tree of `op` nodes, whatever the operands. */
  predicate SameLevel(op: Op, a: Expr, b: Expr)
    ensures SameLevel(op, a, b) ==> |Leaves(op, a)| == |Leaves(op, b)|
  {
    if IsLevel(op, a) then IsLevel(op, b) && SameLevel(op, a.left, b.left) && SameLevel(op, a.right, b.right)
    else !IsLevel(op, b)
  }

  lemma {:induction false} SlotSpan(op: Op, b: Expr, q: Path)
    requires InLevel(op, b, q)
    ensures At(op, b, q) + Width(op, b, q) <= |Leaves(op, b)|
    ensures !IsLevel(op, Get(b, q)) ==> Leaves(op, b)[At(op, b, q)] == Get(b, q) && Width(op, b, q) == 1
  {
    if q != [] {
      SlotSpan(op, Side(b, q[0]), q[1..]);
    }
  }

  lemma {:induction false} SameSlot(op: Op, a: Expr, b: Expr, q: Path)
    requires SameLevel(op, a, b) && InLevel(op, a, q)
    ensures InLevel(op, b, q) && At(op, a, q) == At(op, b, q)
    ensures SameLevel(op, Get(a, q), Get(b, q))
  {
    if q != [] {
      SameSlot(op, Side(a, q[0]), Side(b, q[0]), q[1..]);
    }
  }

  lemma {:induction false} SideInLevel(op: Op, b: Expr, q: Path, side: bool)
    requires InLevel(op, b, q) && IsLevel(op, Get(b, q))
    ensures InLevel(op, b, q + [side])
    ensures At(op, b, q + [side]) == At(op, b, q) + if side then |Leaves(op, Get(b, q).left)| else 0
    ensures Get(b, q + [side]) == Side(Get(b, q), side)
    ensures Width(op, b, q + [side]) < Width(op, b, q)
    ensures side ==> At(op, b, q + [side]) + Width(op, b, q + [side]) == At(op, b, q) + Width(op, b, q)
    ensures !side ==> At(op, b, q + [side]) + Width(op, b, q + [side]) == At(op, b, q) + |Leaves(op, Get(b, q).left)|
  {
    hide Size;
    SideSlot(b, q, side, b);
    if q == [] {
      assert [side][1..] == [] && InLevel(op, Side(b, side), []);
    } else {
      assert (q + [side])[1..] == q[1..] + [side] && (q + [side])[0] == q[0];
      SideInLevel(op, Side(b, q[0]), q[1..], side);
    }
  }

  /** Different slots hold different operands of the level. */
  lemma {:induction false} SlotsDiffer(op: Op, b: Expr, q1: Path, q2: Path)
    requires InLevel(op, b, q1) && InLevel(op, b, q2)
    requires !IsLevel(op, Get(b, q1)) && !IsLevel(op, Get(b, q2))
    ensures At(op, b, q1) == At(op, b, q2) <==> q1 == q2
  {
    if q1 != [] && q2 != [] {
      if q1[0] == q2[0] {
        SlotsDiffer(op, Side(b, q1[0]), q1[1..], q2[1..]);
        assert q1 == [q1[0]] + q1[1..] && q2 == [q2[0]] + q2[1..];
      } else {
        SlotSpan(op, Side(b, q1[0]), q1[1..]);
        SlotSpan(op, Side(b, q2[0]), q2[1..]);
      }
    }
  }

  lemma {:induction false} PutOperand(op: Op, b: Expr, q: Path, x: Expr)
    requires InLevel(op, b, q) && !IsLevel(op, Get(b, q)) && !IsLevel(op, x)
    requires At(op, b, q) < |Leaves(op, b)|
    ensures SameLevel(op, b, Put(b, q, x))
    ensures Leaves(op, Put(b, q, x)) == Leaves(op, b)[At(op, b, q) := x]
  {
    if q != [] {
      hide Size;
      SlotSpan(op, Side(b, q[0]), q[1..]);
      PutOperand(op, Side(b, q[0]), q[1..], x);
      SameLevelReflexive(op, Side(b, !q[0]));
      UpdateConcat(Leaves(op, b.left), Leaves(op, b.right), At(op, b, q), x);
    }
  }

  lemma UpdateConcat<T>(l: seq<T>, r: seq<T>, k: nat, x: T)
    requires k < |l| + |r|
    ensures (l + r)[k := x] == if k < |l| then l[k := x] + r else l + r[k - |l| := x]
  {
  }

  lemma {:induction false} SameLevelReflexive(op: Op, b: Expr)
    ensures SameLevel(op, b, b)
  {
    if IsLevel(op, b) {
      SameLevelReflexive(op, b.left);
      SameLevelReflexive(op, b.right);
    }
  }

  lemma {:induction false} SameLevelTransitive(op: Op, a: Expr, b: Expr, c: Expr)
    requires SameLevel(op, a, b) && SameLevel(op, b, c)
    ensures SameLevel(op, a, c)
  {
    if IsLevel(op, a) {
      SameLevelTransitive(op, a.left, b.left, c.left);
      SameLevelTransitive(op, a.right, b.right, c.right);
    }
  }

  /** A level is its shape and its operands. */
  lemma {:induction false} LevelDetermined(op: Op, a: Expr, b: Expr)
    requires SameLevel(op, a, b)
    ensures b == Refill(op, a, Leaves(op, b))
  {
    if IsLevel(op, a) {
      LevelDetermined(op, a.left, b.left);
      LevelDetermined(op, a.right, b.right);
      var s, n := Leaves(op, b), |Leaves(op, b.left)|;
      assert s[..n] == Leaves(op, b.left) && s[n..] == Leaves(op, b.right);
    }
  }

  lemma {:induction false} RowSplit(op: Op, s: seq<Expr>, i: nat, lo: nat, mid: nat, hi: nat)
    requires i < |s| && lo <= mid <= hi <= |s|
    requires forall k :: 0 <= k < |s| ==> !IsLevel(op, s[k])
    ensures var a := Row(op, s, i, lo, mid);
      var b := Row(op, a.leaves, i, mid, hi);
      Row(op, s, i, lo, hi) == Level(b.leaves, a.count + b.count)
    decreases mid - lo
  {
    if lo < mid {
      RowSplit(op, Step(op, s, i, lo).leaves, i, lo + 1, mid, hi);
    }
  }

  lemma {:induction false} RowsSplit(op: Op, s: seq<Expr>, i: nat, mid: nat, hi: nat, lo: nat, top: nat)
    requires i <= mid <= hi <= |s| && lo <= top <= |s|
    requires forall k :: 0 <= k < |s| ==> !IsLevel(op, s[k])
    ensures var a := Rows(op, s, i, mid, lo, top);
      var b := Rows(op, a.leaves, mid, hi, lo, top);
      Rows(op, s, i, hi, lo, top) == Level(b.leaves, a.count + b.count)
    decreases mid - i
  {
    if i < mid {
      RowsSplit(op, Row(op, s, i, lo, top).leaves, i + 1, mid, hi, lo, top);
    }
  }

  lemma OneRow(op: Op, s: seq<Expr>, i: nat, lo: nat, top: nat)
    requires i < |s| && lo <= top <= |s|
    requires forall k :: 0 <= k < |s| ==> !IsLevel(op, s[k])
    ensures Rows(op, s, i, i + 1, lo, top) == Row(op, s, i, lo, top)
    ensures top == lo + 1 ==> Row(op, s, i, lo, top) == Step(op, s, i, lo)
  {
    var r := Row(op, s, i, lo, top);
    assert Rows(op, r.leaves, i + 1, i + 1, lo, top) == Level(r.leaves, 0);
    if top == lo + 1 {
      var a := Step(op, s, i, lo);
      assert Row(op, a.leaves, i, top, top) == Level(a.leaves, 0);
    }
  }

  /** The rectangle of comparisons rows i..hi by columns lo..top on the level e. */
  function Run(op: Op, e: Expr, i: nat, hi: nat, lo: nat, top: nat): (r: Reduced)
    requires i <= hi <= |Leaves(op, e)| && lo <= top <= |Leaves(op, e)|
    ensures SameLevel(op, e, r.expr) && Size(r.expr) <= Size(e)
    ensures Leaves(op, r.expr) == Rows(op, Leaves(op, e), i, hi, lo, top).leaves
  {
    var r := Rows(op, Leaves(op, e), i, hi, lo, top);
    RefillShape(op, e, r.leaves);
    RefillLeaves(op, e, r.leaves);
    LeavesTotal(op, e);
    LeavesTotal(op, Refill(op, e, r.leaves));
    Reduced(Refill(op, e, r.leaves), r.count)
  }

  lemma {:induction false} RefillShape(op: Op, e: Expr, s: seq<Expr>)
    requires |s| == |Leaves(op, e)| && forall k :: 0 <= k < |s| ==> !IsLevel(op, s[k])
    ensures SameLevel(op, e, Refill(op, e, s))
  {
    if IsLevel(op, e) {
      var n := |Leaves(op, e.left)|;
      RefillShape(op, e.left, s[..n]);
      RefillShape(op, e.right, s[n..]);
    }
  }

  /** Two trees of one shape with the same operands are the same. */
  lemma SameLevelSameLeaves(op: Op, a: Expr, b: Expr, c: Expr)
    requires SameLevel(op, a, b) && SameLevel(op, a, c) && Leaves(op, b) == Leaves(op, c)
    ensures b == c
  {
    LevelDetermined(op, a, b);
    LevelDetermined(op, a, c);
  }

  lemma StepResult(op: Op, s: seq<Expr>, i: nat, j: nat)
    requires i < |s| && j < |s| && forall k :: 0 <= k < |s| ==> !IsLevel(op, s[k])
    ensures i == j ==> Step(op, s, i, j) == Level(s, 0)
    ensures i != j ==>
      var a := if s[i].Bin? then Pass(s[i]) else Reduced(s[i], 0);
      var t := Join(op, a.expr, s[j]);
      Step(op, s, i, j) ==
        if t.None? then Level(s[i := a.expr], a.count)
        else Level(s[i := Symbol(UnitSym(op))][j := t.value], a.count + 1)
  {
  }

  lemma RunEmptyStep(op: Op, e: Expr, i: nat)
    requires i < |Leaves(op, e)|
    ensures Run(op, e, i, i + 1, i, i + 1) == Reduced(e, 0)
  {
    hide Rows, Row, Step, Leaves, Refill, SameLevel, Size, Total;
    StepResult(op, Leaves(op, e), i, i);
    OneRow(op, Leaves(op, e), i, i, i + 1);
    RefillSame(op, e);
  }

  lemma RunRows(op: Op, e: Expr, i: nat, mid: nat, hi: nat, lo: nat, top: nat)
    requires i <= mid <= hi <= |Leaves(op, e)| && lo <= top <= |Leaves(op, e)|
    ensures var a := Run(op, e, i, mid, lo, top);
      var b := Run(op, a.expr, mid, hi, lo, top);
      Run(op, e, i, hi, lo, top) == Reduced(b.expr, a.count + b.count)
  {
    hide Rows, Row, Step;
    var a := Run(op, e, i, mid, lo, top);
    var b := Run(op, a.expr, mid, hi, lo, top);
    RowsSplit(op, Leaves(op, e), i, mid, hi, lo, top);
    SameLevelTransitive(op, e, a.expr, b.expr);
    SameLevelSameLeaves(op, e, b.expr, Run(op, e, i, hi, lo, top).expr);
  }

  /** A run of one row. */
  lemma RunRow(op: Op, e: Expr, i: nat, lo: nat, top: nat)
    requires i < |Leaves(op, e)| && lo <= top <= |Leaves(op, e)|
    ensures var r, row := Run(op, e, i, i + 1, lo, top), Row(op, Leaves(op, e), i, lo, top);
      Leaves(op, r.expr) == row.leaves && r.count == row.count
  {
    hide Rows, Row, Step, Leaves, Refill, SameLevel, Size, Total;
    OneRow(op, Leaves(op, e), i, lo, top);
  }

  lemma RunColumns(op: Op, e: Expr, i: nat, lo: nat, mid: nat, top: nat)
    requires i < |Leaves(op, e)| && lo <= mid <= top <= |Leaves(op, e)|
    ensures var a := Run(op, e, i, i + 1, lo, mid);
      var b := Run(op, a.expr, i, i + 1, mid, top);
      Run(op, e, i, i + 1, lo, top) == Reduced(b.expr, a.count + b.count)
  {
    hide Run, Rows, Row, Step, Leaves, Refill, SameLevel, Size, Total, Join, Pass;
    var a := Run(op, e, i, i + 1, lo, mid);
    var b := Run(op, a.expr, i, i + 1, mid, top);
    RunRow(op, e, i, lo, mid);
    RunRow(op, a.expr, i, mid, top);
    RunRow(op, e, i, lo, top);
    RowSplit(op, Leaves(op, e), i, lo, mid, top);
    SameLevelTransitive(op, e, a.expr, b.expr);
    SameLevelSameLeaves(op, e, b.expr, Run(op, e, i, i + 1, lo, top).expr);
  }

  /** The operand in slot q and how it is replaced. */
  lemma WriteOperand(op: Op, e: Expr, q: Path, x: Expr)
    requires InLevel(op, e, q) && !IsLevel(op, Get(e, q)) && !IsLevel(op, x)
    ensures At(op, e, q) < |Leaves(op, e)| && Get(e, q) == Leaves(op, e)[At(op, e, q)]
    ensures SameLevel(op, e, Put(e, q, x))
    ensures Leaves(op, Put(e, q, x)) == Leaves(op, e)[At(op, e, q) := x]
  {
    SlotSpan(op, e, q);
    PutOperand(op, e, q, x);
  }

  /** The run on two slots of the level e. */
  function RunAt(op: Op, e: Expr, q1: Path, q2: Path): (r: Reduced)
    requires InLevel(op, e, q1) && InLevel(op, e, q2)
    ensures SameLevel(op, e, r.expr) && Size(r.expr) <= Size(e)
    ensures IsLevel(op, r.expr) <==> IsLevel(op, e)
  {
    SlotSpan(op, e, q1);
    SlotSpan(op, e, q2);
    Run(op, e, At(op, e, q1), At(op, e, q1) + Width(op, e, q1), At(op, e, q2), At(op, e, q2) + Width(op, e, q2))
  }

  lemma RunAtSelf(op: Op, e: Expr, q: Path)
    requires InLevel(op, e, q) && !IsLevel(op, Get(e, q))
    ensures RunAt(op, e, q, q) == Reduced(e, 0)
  {
    hide Run, Get, At, InLevel, SameLevel, Size, HasSlot;
    SlotSpan(op, e, q);
    RunEmptyStep(op, e, At(op, e, q));
  }

  /** Writing one slot leaves the operand in another one alone. */
  lemma WriteOneOfTwo(op: Op, e: Expr, q1: Path, q2: Path, x: Expr)
    requires InLevel(op, e, q1) && InLevel(op, e, q2) && q1 != q2 && !IsLevel(op, x)
    requires !IsLevel(op, Get(e, q1)) && !IsLevel(op, Get(e, q2))
    ensures At(op, e, q1) != At(op, e, q2)
    ensures At(op, e, q1) < |Leaves(op, e)| && At(op, e, q2) < |Leaves(op, e)|
    ensures Get(e, q1) == Leaves(op, e)[At(op, e, q1)] && Get(e, q2) == Leaves(op, e)[At(op, e, q2)]
    ensures var f := Put(e, q1, x);
      && SameLevel(op, e, f) && Leaves(op, f) == Leaves(op, e)[At(op, e, q1) := x]
      && InLevel(op, f, q1) && InLevel(op, f, q2)
      && At(op, f, q1) == At(op, e, q1) && At(op, f, q2) == At(op, e, q2)
      && Get(f, q1) == x && Get(f, q2) == Get(e, q2)
  {
    SlotSpan(op, e, q1);
    SlotSpan(op, e, q2);
    SlotsDiffer(op, e, q1, q2);
    WriteOperand(op, e, q1, x);
    var f := Put(e, q1, x);
    SameSlot(op, e, f, q1);
    SameSlot(op, e, f, q2);
    SlotSpan(op, f, q2);
  }

  lemma RunAtOperands(op: Op, e: Expr, q1: Path, q2: Path)
    requires InLevel(op, e, q1) && InLevel(op, e, q2)
    requires !IsLevel(op, Get(e, q1)) && !IsLevel(op, Get(e, q2))
    ensures At(op, e, q1) < |Leaves(op, e)| && At(op, e, q2) < |Leaves(op, e)|
    ensures var r := Step(op, Leaves(op, e), At(op, e, q1), At(op, e, q2));
      Leaves(op, RunAt(op, e, q1, q2).expr) == r.leaves && RunAt(op, e, q1, q2).count == r.count
  {
    hide Rows, Row, Step, Leaves, Refill, At, InLevel, Get, SameLevel, Size, Total, HasSlot;
    SlotSpan(op, e, q1);
    SlotSpan(op, e, q2);
    OneRow(op, Leaves(op, e), At(op, e, q1), At(op, e, q2), At(op, e, q2) + 1);
  }

  /** One comparison, written through two slots. */
  lemma RunStep(op: Op, e: Expr, q1: Path, q2: Path, a: Reduced)
    requires InLevel(op, e, q1) && InLevel(op, e, q2) && q1 != q2
    requires !IsLevel(op, Get(e, q1)) && !IsLevel(op, Get(e, q2))
    requires a == if Get(e, q1).Bin? then Pass(Get(e, q1)) else Reduced(Get(e, q1), 0)
    ensures var f := Put(e, q1, a.expr);
      && HasSlot(f, q1) && HasSlot(f, q2)
      && var joined := Join(op, a.expr, Get(f, q2));
        if joined.None? then RunAt(op, e, q1, q2) == Reduced(f, a.count)
        else
          && HasSlot(Put(f, q1, Symbol(UnitSym(op))), q2)
          && RunAt(op, e, q1, q2) == Reduced(Put(Put(f, q1, Symbol(UnitSym(op))), q2, joined.value), a.count + 1)
  {
    hide Rows, Row, Step, Run, RunAt, Pass, Leaves, Refill, SameLevel, Join, Put, Get, At, HasSlot, InLevel, Size, Total;
    var i, j := At(op, e, q1), At(op, e, q2);
    var unit := Symbol(UnitSym(op));
    RunAtOperands(op, e, q1, q2);
    StepResult(op, Leaves(op, e), i, j);
    WriteOneOfTwo(op, e, q1, q2, a.expr);
    var f := Put(e, q1, a.expr);
    var joined := Join(op, a.expr, Get(f, q2));
    var r := RunAt(op, e, q1, q2);
    if joined.None? {
      SameLevelSameLeaves(op, e, f, r.expr);
    } else {
      var g := Put(f, q1, unit);
      WriteOneOfTwo(op, f, q1, q2, unit);
      WriteOperand(op, g, q2, joined.value);
      var h := Put(g, q2, joined.value);
      SameLevelTransitive(op, e, f, g);
      SameLevelTransitive(op, e, g, h);
      assert Leaves(op, h) == Leaves(op, e)[i := unit][j := joined.value];
      SameLevelSameLeaves(op, e, h, r.expr);
    }
  }

  lemma RunKeepsSlot(op: Op, e: Expr, f: Expr, q: Path)
    requires SameLevel(op, e, f) && InLevel(op, e, q)
    ensures InLevel(op, f, q) && At(op, f, q) == At(op, e, q) && Width(op, f, q) == Width(op, e, q)
    ensures At(op, e, q) + Width(op, e, q) <= |Leaves(op, e)| == |Leaves(op, f)|
    ensures IsLevel(op, Get(f, q)) <==> IsLevel(op, Get(e, q))
  {
    SlotSpan(op, e, q);
    SameSlot(op, e, f, q);
  }

  lemma RunAtFirst(op: Op, e: Expr, q1: Path, q2: Path)
    requires InLevel(op, e, q1) && InLevel(op, e, q2) && IsLevel(op, Get(e, q1))
    ensures InLevel(op, e, q1 + [false]) && Width(op, e, q1 + [false]) < Width(op, e, q1)
    ensures var a := RunAt(op, e, q1 + [false], q2);
      && InLevel(op, a.expr, q1 + [true]) && InLevel(op, a.expr, q2)
      && Width(op, a.expr, q1 + [true]) < Width(op, e, q1) && Width(op, a.expr, q2) == Width(op, e, q2)
      && var b := RunAt(op, a.expr, q1 + [true], q2);
        RunAt(op, e, q1, q2) == Reduced(b.expr, a.count + b.count)
  {
    hide Rows, Run, Get, At, InLevel, SameLevel, Size, Total, HasSlot, Leaves;
    SideInLevel(op, e, q1, false);
    SideInLevel(op, e, q1, true);
    var a := RunAt(op, e, q1 + [false], q2);
    RunKeepsSlot(op, e, a.expr, q1);
    RunKeepsSlot(op, e, a.expr, q1 + [true]);
    RunKeepsSlot(op, e, a.expr, q2);
    var i, j := At(op, e, q1), At(op, e, q2);
    RunRows(op, e, i, At(op, e, q1 + [true]), i + Width(op, e, q1), j, j + Width(op, e, q2));
  }

  lemma RunAtSecond(op: Op, e: Expr, q1: Path, q2: Path)
    requires InLevel(op, e, q1) && InLevel(op, e, q2)
    requires !IsLevel(op, Get(e, q1)) && IsLevel(op, Get(e, q2))
    ensures InLevel(op, e, q2 + [false]) && Width(op, e, q2 + [false]) < Width(op, e, q2)
    ensures var a := RunAt(op, e, q1, q2 + [false]);
      && InLevel(op, a.expr, q1) && InLevel(op, a.expr, q2 + [true])
      && Width(op, a.expr, q2 + [true]) < Width(op, e, q2) && Width(op, a.expr, q1) == Width(op, e, q1)
      && var b := RunAt(op, a.expr, q1, q2 + [true]);
        RunAt(op, e, q1, q2) == Reduced(b.expr, a.count + b.count)
  {
    hide Rows, Run, InLevel, At, Get, SameLevel, Size, Total, HasSlot, Leaves;
    SideInLevel(op, e, q2, false);
    SideInLevel(op, e, q2, true);
    var a := RunAt(op, e, q1, q2 + [false]);
    RunKeepsSlot(op, e, a.expr, q1);
    RunKeepsSlot(op, e, a.expr, q2);
    RunKeepsSlot(op, e, a.expr, q2 + [true]);
    var i, j := At(op, e, q1), At(op, e, q2);
    SlotSpan(op, e, q1);
    SlotSpan(op, a.expr, q1);
    RunColumns(op, e, i, j, At(op, e, q2 + [true]), j + Width(op, e, q2));
  }

  lemma RootSlot(op: Op, e: Expr)
    ensures InLevel(op, e, []) && At(op, e, []) == 0 && Width(op, e, []) == |Leaves(op, e)|
  {
    hide Leaves;
    assert Get(e, []) == e;
  }

  /** A run on the whole level is one pass. */
  lemma RunWhole(e: Expr)
    requires e.Bin?
    ensures InLevel(e.op, e, []) && RunAt(e.op, e, [], []) == Pass(e)
  {
    hide Rows, Row, Step, Leaves, Refill, At, Width, Get, InLevel, SameLevel, Size, Total, HasSlot;
    RootSlot(e.op, e);
  }

  lemma OperandSmaller(op: Op, e: Expr, q: Path)
    requires IsLevel(op, e) && InLevel(op, e, q) && !IsLevel(op, Get(e, q))
    ensures Size(Get(e, q)) < Size(e)
  {
    assert q != [] && Get(e, q) == Get(Side(e, q[0]), q[1..]);
  }

  /** An expression tree with one owner. */
  class Root {
    var e: Expr

    constructor (e: Expr)
      ensures this.e == e
    {
      this.e := e;
    }
  }

  class Rewriter {
    var transCount: nat

    constructor ()
      ensures transCount == 0
    {
      transCount := 0;
    }

    method EliminateYn(t: Root, p: Path)
      requires HasSlot(t.e, p)
      modifies t
      ensures t.e == Put(old(t.e), p, E.EliminateYn(Get(old(t.e), p)))
      decreases Size(Get(t.e, p))
    {
      ghost var e0, b0 := t.e, Get(t.e, p);
      var op := OpAnd;
      if Get(t.e, p).Bin? {
        op := Get(t.e, p).op;
        SideSlot(t.e, p, false, E.EliminateYn(b0.left));
        EliminateYn(t, p + [false]);
        ghost var b1 := Bin(op, E.EliminateYn(b0.left), b0.right);
        SideSlot(t.e, p, true, E.EliminateYn(b0.right));
        EliminateYn(t, p + [true]);
        ghost var b2 := Bin(op, b1.left, E.EliminateYn(b0.right));
        PutPut(e0, p, b1, b2);
        PutPut(e0, p, b2, E.EliminateYn(b0));
        var b := Get(t.e, p);
        if b.left == Symbol(ZeroSym(op)) {
          t.e := Put(t.e, p, Symbol(ZeroSym(op)));
        } else if b.left == Symbol(UnitSym(op)) {
          t.e := Put(t.e, p, b.right);
        } else if b.right == Symbol(ZeroSym(op)) {
          t.e := Put(t.e, p, Symbol(ZeroSym(op)));
        } else if b.right == Symbol(UnitSym(op)) {
          t.e := Put(t.e, p, b.left);
        }
      }
    }

    method TransBool(t: Root, p: Path)
      requires HasSlot(t.e, p)
      modifies t
      ensures t.e == Put(old(t.e), p, V.TransBool(Get(old(t.e), p)))
      decreases Size(Get(t.e, p))
    {
      ghost var e0, b0 := t.e, Get(t.e, p);
      var b := Get(t.e, p);
      if b.Bin? {
        SideSlot(t.e, p, false, V.TransBool(b0.left));
        TransBool(t, p + [false]);
        ghost var b1 := Bin(b0.op, V.TransBool(b0.left), b0.right);
        SideSlot(t.e, p, true, V.TransBool(b0.right));
        TransBool(t, p + [true]);
        PutPut(e0, p, b1, V.TransBool(b0));
      } else if b.Not? {
        SideSlot(t.e, p, false, V.TransBool(b0.arg));
        TransBool(t, p + [false]);
      } else if b.Comp? && b.rel.Neq? && b.lhs.Type().Tristate? && b.rhs.SymNo? {
        t.e := Put(t.e, p, Symbol(b.lhs));
      }
    }

    method Transform(t: Root, p: Path)
      requires HasSlot(t.e, p)
      modifies t
      ensures t.e == Put(old(t.e), p, T.Transform(Get(old(t.e), p)))
      decreases T.Weight(Get(t.e, p))
    {
      ghost var e0, b0 := t.e, Get(t.e, p);
      var b := Get(t.e, p);
      if b.Bin? {
        SideSlot(t.e, p, false, T.Transform(b0.left));
        Transform(t, p + [false]);
        ghost var b1 := Bin(b0.op, T.Transform(b0.left), b0.right);
        SideSlot(t.e, p, true, T.Transform(b0.right));
        Transform(t, p + [true]);
        PutPut(e0, p, b1, T.Transform(b0));
      } else if b.Comp? {
        t.e := Put(t.e, p, T.TransformComp(b.rel, b.lhs, b.rhs));
      } else if b.Not? {
        SideSlot(t.e, p, false, T.Transform(b0.arg));
        Transform(t, p + [false]);
        var a := Get(t.e, p).arg;
        PutPut(e0, p, Not(a), T.Transform(b0));
        match a
        case Not(c) =>
          t.e := Put(t.e, p, c);
          PutPut(e0, p, Not(a), c);
          PutPut(e0, p, c, T.Transform(c));
          Transform(t, p);
        case Comp(rel, l, r) =>
          t.e := Put(t.e, p, Comp(T.Opposite(rel), l, r));
        case Bin(op, l, r) =>
          ghost var pushed := T.PushNot(op, l, r);
          t.e := Put(t.e, p, Bin(T.Dual(op), Not(l), Not(r)));
          PutPut(e0, p, Not(a), pushed);
          PutPut(e0, p, pushed, T.Transform(pushed));
          Transform(t, p);
        case Symbol(s) =>
          if s.SymYes? {
            t.e := Put(t.e, p, Symbol(SymNo));
          } else if s.SymMod? {
            t.e := Put(t.e, p, Symbol(SymMod));
          } else if s.SymNo? {
            t.e := Put(t.e, p, Symbol(SymYes));
          }
      }
    }

    // ---------- Cancelling between two trees ----------

    ghost predicate Cancelled(op: Op, e1: Expr, p1: Path, e2: Expr, p2: Path, f1: Expr, f2: Expr, count: nat)
      requires HasSlot(e1, p1) && HasSlot(e2, p2)
    {
      var r := E.CancelLevel(op, Get(e1, p1), Get(e2, p2));
      f1 == Put(e1, p1, r.fst) && f2 == Put(e2, p2, r.snd) && count == r.count
    }

    method CancelLevel(op: Op, t1: Root, p1: Path, t2: Root, p2: Path)
      requires t1 != t2 && HasSlot(t1.e, p1) && HasSlot(t2.e, p2)
      modifies this, t1, t2
      ensures transCount >= old(transCount)
      ensures Cancelled(op, old(t1.e), p1, old(t2.e), p2, t1.e, t2.e, transCount - old(transCount))
      decreases Size(Get(t1.e, p1)) + Size(Get(t2.e, p2)),
        if IsLevel(op, Get(t1.e, p1)) || IsLevel(op, Get(t2.e, p2)) then 1 else 5
    {
      if IsLevel(op, Get(t1.e, p1)) {
        CancelFirstLevel(op, t1, p1, t2, p2);
      } else if IsLevel(op, Get(t2.e, p2)) {
        CancelSecondLevel(op, t1, p1, t2, p2);
      } else {
        CancelOperands(op, t1, p1, t2, p2);
      }
    }

    method CancelFirstLevel(op: Op, t1: Root, p1: Path, t2: Root, p2: Path)
      requires t1 != t2 && HasSlot(t1.e, p1) && HasSlot(t2.e, p2)
      requires IsLevel(op, Get(t1.e, p1))
      modifies this, t1, t2
      ensures transCount >= old(transCount)
      ensures Cancelled(op, old(t1.e), p1, old(t2.e), p2, t1.e, t2.e, transCount - old(transCount))
      decreases Size(Get(t1.e, p1)) + Size(Get(t2.e, p2)), 0
    {
      ghost var e1, e2 := Get(t1.e, p1), Get(t2.e, p2);
      ghost var a := E.CancelLevel(op, e1.left, e2);
      ghost var b := E.CancelLevel(op, e1.right, a.snd);
      SideSlot(t1.e, p1, false, a.fst);
      CancelLevel(op, t1, p1 + [false], t2, p2);
      assert t1.e == Put(old(t1.e), p1, Bin(op, a.fst, e1.right));
      SideSlot(t1.e, p1, true, b.fst);
      PutPut(old(t1.e), p1, Bin(op, a.fst, e1.right), Bin(op, a.fst, b.fst));
      PutPut(old(t2.e), p2, a.snd, b.snd);
      CancelLevel(op, t1, p1 + [true], t2, p2);
    }

    method CancelSecondLevel(op: Op, t1: Root, p1: Path, t2: Root, p2: Path)
      requires t1 != t2 && HasSlot(t1.e, p1) && HasSlot(t2.e, p2)
      requires !IsLevel(op, Get(t1.e, p1)) && IsLevel(op, Get(t2.e, p2))
      modifies this, t1, t2
      ensures transCount >= old(transCount)
      ensures Cancelled(op, old(t1.e), p1, old(t2.e), p2, t1.e, t2.e, transCount - old(transCount))
      decreases Size(Get(t1.e, p1)) + Size(Get(t2.e, p2)), 0
    {
      ghost var e1, e2 := Get(t1.e, p1), Get(t2.e, p2);
      ghost var a := E.CancelLevel(op, e1, e2.left);
      ghost var b := E.CancelLevel(op, a.fst, e2.right);
      SideSlot(t2.e, p2, false, a.snd);
      CancelLevel(op, t1, p1, t2, p2 + [false]);
      assert t2.e == Put(old(t2.e), p2, Bin(op, a.snd, e2.right));
      SideSlot(t2.e, p2, true, b.snd);
      PutPut(old(t2.e), p2, Bin(op, a.snd, e2.right), Bin(op, a.snd, b.snd));
      PutPut(old(t1.e), p1, a.fst, b.fst);
      CancelLevel(op, t1, p1, t2, p2 + [true]);
    }

    method CancelOperands(op: Op, t1: Root, p1: Path, t2: Root, p2: Path)
      requires t1 != t2 && HasSlot(t1.e, p1) && HasSlot(t2.e, p2)
      requires !IsLevel(op, Get(t1.e, p1)) && !IsLevel(op, Get(t2.e, p2))
      modifies this, t1, t2
      ensures transCount >= old(transCount)
      ensures Cancelled(op, old(t1.e), p1, old(t2.e), p2, t1.e, t2.e, transCount - old(transCount))
      decreases Size(Get(t1.e, p1)) + Size(Get(t2.e, p2)), 4
    {
      var e1, e2 := Get(t1.e, p1), Get(t2.e, p2);
      if !E.SameYesNo(e1, e2) {
        var equal := ExprEq(e1, e2);
        if equal {
          transCount := transCount + 1;
          t1.e := Put(t1.e, p1, Symbol(UnitSym(op)));
          t2.e := Put(t2.e, p2, Symbol(UnitSym(op)));
        }
      }
    }

    method EliminateEq(t1: Root, t2: Root)
      requires t1 != t2
      modifies this, t1, t2
      ensures var r := E.EliminateEq(old(t1.e), old(t2.e));
        t1.e == r.fst && t2.e == r.snd && transCount == old(transCount) + r.count
      decreases Size(t1.e) + Size(t2.e), 2
    {
      if t1.e.Bin? {
        CancelLevel(t1.e.op, t1, [], t2, []);
      }
      if t2.e.Bin? && !IsLevel(t2.e.op, t1.e) {
        CancelLevel(t2.e.op, t1, [], t2, []);
      }
      EliminateYn(t1, []);
      EliminateYn(t2, []);
    }

    /** Works on copies and restores the counter. */
    method ExprEq(e1: Expr, e2: Expr) returns (equal: bool)
      modifies this
      ensures equal == E.ExprEq(e1, e2)
      ensures transCount == old(transCount)
      decreases Size(e1) + Size(e2), 3
    {
      match e1
      case Symbol(_) => equal := e1 == e2;
      case Comp(_, _, _) => equal := e1 == e2;
      case Not(a) =>
        equal := false;
        if e2.Not? {
          equal := ExprEq(a, e2.arg);
        }
      case Bin(op, _, _) =>
        equal := false;
        if IsLevel(op, e2) {
          var c1 := new Root(e1);
          var c2 := new Root(e2);
          var oldCount := transCount;
          EliminateEq(c1, c2);
          equal := c1.e.Symbol? && c2.e.Symbol? && c1.e.sym == c2.e.sym;
          transCount := oldCount;
        }
    }

    // ---------- Joining within one tree ----------

    /** The level of `op` is the whole tree t; p1 and p2 are two of its slots. */
    method EliminateDups1(op: Op, t: Root, p1: Path, p2: Path)
      requires IsLevel(op, t.e) && InLevel(op, t.e, p1) && InLevel(op, t.e, p2)
      modifies this, t
      ensures var r := RunAt(op, old(t.e), p1, p2);
        t.e == r.expr && transCount == old(transCount) + r.count
      decreases Size(t.e), Width(op, t.e, p1) + Width(op, t.e, p2)
    {
      hide RunAt, Leaves, Get, At, InLevel, SameLevel, Size, HasSlot;
      if IsLevel(op, Get(t.e, p1)) {
        RunAtFirst(op, t.e, p1, p2);
        EliminateDups1(op, t, p1 + [false], p2);
        EliminateDups1(op, t, p1 + [true], p2);
      } else if IsLevel(op, Get(t.e, p2)) {
        RunAtSecond(op, t.e, p1, p2);
        EliminateDups1(op, t, p1, p2 + [false]);
        EliminateDups1(op, t, p1, p2 + [true]);
      } else if p1 == p2 {
        RunAtSelf(op, t.e, p1);
      } else {
        DupsOperands(op, t, p1, p2);
      }
    }

    method DupsOperands(op: Op, t: Root, p1: Path, p2: Path)
      requires IsLevel(op, t.e) && InLevel(op, t.e, p1) && InLevel(op, t.e, p2) && p1 != p2
      requires !IsLevel(op, Get(t.e, p1)) && !IsLevel(op, Get(t.e, p2))
      modifies this, t
      ensures var r := RunAt(op, old(t.e), p1, p2);
        t.e == r.expr && transCount == old(transCount) + r.count
      decreases Size(t.e), 0
    {
      hide RunAt, Rows, Row, Step, Leaves, Refill;
      var e1 := Get(t.e, p1);
      ghost var a := if e1.Bin? then Pass(e1) else Reduced(e1, 0);
      RunStep(op, t.e, p1, p2, a);
      if e1.Bin? {
        OperandSmaller(op, t.e, p1);
        RunWhole(e1);
        var operand := new Root(e1);
        EliminateDups1(e1.op, operand, [], []);
        t.e := Put(t.e, p1, operand.e);
      }
      var joined := Join(op, Get(t.e, p1), Get(t.e, p2));
      if joined.Some? {
        t.e := Put(t.e, p1, Symbol(UnitSym(op)));
        t.e := Put(t.e, p2, joined.value);
        transCount := transCount + 1;
      }
    }

    /** Passes until one of them joins nothing; the counter is restored. */
    method EliminateDups(t: Root)
      modifies this, t
      ensures t.e == Dups.EliminateDups(old(t.e))
      ensures transCount == old(transCount)
    {
      var oldCount := transCount;
      while true
        invariant Dups.EliminateDups(t.e) == Dups.EliminateDups(old(t.e))
        decreases Size(t.e)
      {
        ghost var e0 := t.e;
        transCount := 0;
        if t.e.Bin? {
          RunWhole(e0);
          EliminateDups1(t.e.op, t, [], []);
          PassQuiet(e0);
        }
        if transCount == 0 {
          break;
        }
        PassUnit(e0);
        HasUnitShrinks(t.e);
        EliminateYn(t, []);
      }
      transCount := oldCount;
    }
  }
}
