/**
  Kconfig dependency expressions and their tristate meaning.

  A symbol used as an operand contributes its tristate value; a comparison
  contributes yes or no, decided by an integer ordering of the two symbols'
  string values.  A missing expression (a null pointer in the program) is
  `None` and means yes.
 */
module Expressions {

  /** no < mod < yes */
  type Tri = t: int | 0 <= t <= 2

  const NO: Tri := 0
  const MOD: Tri := 1
  const YES: Tri := 2

  datatype SymType = Unknown | Boolean | Tristate | Int | Hex | String

  /** The three constant symbols, any other quoted constant, and the named symbols. */
  datatype Sym = SymYes | SymMod | SymNo | Quoted(text: string) | Named(name: string, typ: SymType) {

    function Type(): SymType {
      if Named? then typ else Unknown
    }

    predicate IsConst() {
      !Named?
    }

    predicate IsTriConst() {
      SymYes? || SymMod? || SymNo?
    }

    predicate IsTri() {
      Type().Boolean? || Type().Tristate?
    }
  }

  datatype Rel = Eq | Neq | Lth | Leq | Gth | Geq

  datatype Op = OpOr | OpAnd

  datatype Expr =
    | Symbol(sym: Sym)
    | Not(arg: Expr)
    | Comp(rel: Rel, lhs: Sym, rhs: Sym)
    | Bin(op: Op, left: Expr, right: Expr)

  datatype Option<+T> = None | Some(value: T)

  /** What one state of the configuration says about every symbol. */
  datatype Env = Env(tri: Sym -> Tri, ord: (Sym, Sym) -> int)

  function TriNot(a: Tri): Tri {
    2 - a
  }

  function Ap(op: Op, a: Tri, b: Tri): Tri {
    match op
    case OpOr => if a > b then a else b
    case OpAnd => if a < b then a else b
  }

  lemma ApLaws(op: Op, a: Tri, b: Tri, c: Tri)
    ensures Ap(op, a, b) == Ap(op, b, a)
    ensures Ap(op, Ap(op, a, b), c) == Ap(op, a, Ap(op, b, c))
    ensures Ap(op, a, Ap(op, b, c)) == Ap(op, b, Ap(op, a, c))
  {
    match op
    case OpOr =>
    case OpAnd =>
  }

  function Holds(rel: Rel, res: int): bool {
    match rel
    case Eq => res == 0
    case Neq => res != 0
    case Lth => res < 0
    case Leq => res <= 0
    case Gth => res > 0
    case Geq => res >= 0
  }

  function TriOf(b: bool): Tri {
    if b then YES else NO
  }

  function Val(e: Expr, env: Env): Tri {
    match e
    case Symbol(s) => env.tri(s)
    case Not(a) => TriNot(Val(a, env))
    case Comp(rel, l, r) => TriOf(Holds(rel, env.ord(l, r)))
    case Bin(op, l, r) => Ap(op, Val(l, env), Val(r, env))
  }

  function ValOpt(e: Option<Expr>, env: Env): Tri {
    if e.None? then YES else Val(e.value, env)
  }

  /** The operand that changes nothing at a level of `op`, and the one that decides it. */
  function UnitSym(op: Op): Sym {
    if op.OpOr? then SymNo else SymYes
  }

  function ZeroSym(op: Op): Sym {
    if op.OpOr? then SymYes else SymNo
  }

  ghost predicate ConstsFixed(env: Env) {
    env.tri(SymYes) == YES && env.tri(SymMod) == MOD && env.tri(SymNo) == NO
  }

  ghost predicate BoolsTwoValued(env: Env) {
    forall s: Sym :: s.Type().Boolean? ==> env.tri(s) != MOD
  }

  /** Comparing a bool, a tristate or one of y, m, n with one of y, m, n
      finds them equal exactly when their values are. */
  ghost predicate TriComparisonsExact(env: Env) {
    forall s: Sym, c: Sym :: (s.IsTri() || s.IsTriConst()) && c.IsTriConst() ==>
      (env.ord(s, c) == 0 <==> env.tri(s) == env.tri(c))
  }

  /** What the evaluator guarantees about the states it produces. */
  ghost predicate Sane(env: Env) {
    ConstsFixed(env) && BoolsTwoValued(env) && TriComparisonsExact(env)
  }

  /** There are sane states: here every named symbol is n. */
  function AllNoTri(s: Sym): Tri {
    if s.SymYes? then YES else if s.SymMod? then MOD else NO
  }

  lemma SaneExists() returns (env: Env)
    ensures Sane(env)
  {
    env := Env(AllNoTri, (a: Sym, b: Sym) => AllNoTri(a) - AllNoTri(b));
  }

  /** A bool or tristate compared with a constant is compared with y, m or n. */
  predicate TriCompsOk(e: Expr) {
    match e
    case Symbol(_) => true
    case Not(a) => TriCompsOk(a)
    case Comp(_, l, r) => l.IsTri() && r.IsConst() ==> r.IsTriConst()
    case Bin(_, l, r) => TriCompsOk(l) && TriCompsOk(r)
  }

  /** Plain operands are bools, tristates or y, m, n. */
  predicate OperandsTri(e: Expr) {
    match e
    case Symbol(s) => s.IsTri() || s.IsTriConst()
    case Not(a) => OperandsTri(a)
    case Comp(_, _, _) => true
    case Bin(_, l, r) => OperandsTri(l) && OperandsTri(r)
  }

  /** Negation normal form: ! only above symbols other than y, m, n, and no
      bool tested for being or not being y, m or n. */
  predicate Nnf(e: Expr) {
    match e
    case Symbol(_) => true
    case Not(a) => a.Symbol? && !a.sym.IsTriConst()
    case Comp(rel, l, r) => !((rel.Eq? || rel.Neq?) && l.Type().Boolean? && r.IsTriConst())
    case Bin(_, l, r) => Nnf(l) && Nnf(r)
  }

  function Size(e: Expr): (n: nat)
    ensures n >= 1
  {
    match e
    case Symbol(_) => 1
    case Not(a) => 1 + Size(a)
    case Comp(_, _, _) => 1
    case Bin(_, l, r) => 1 + Size(l) + Size(r)
  }

  predicate IsLevel(op: Op, e: Expr) {
    e.Bin? && e.op == op
  }

  function AllocAnd(a: Option<Expr>, b: Option<Expr>): Option<Expr> {
    if a.None? then b else if b.None? then a else Some(Bin(OpAnd, a.value, b.value))
  }
}
