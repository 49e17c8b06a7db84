/**
  What the value of a symbol is: a cache-free evaluation over an acyclic
  dependency graph, for symbols outside choices.
 */
module Evaluation {
  import opened Expressions
  import opened Compare
  import opened Ranges
  import opened Numbers
  import V = Visibility

  /** The string and the tristate part of a value. */
  datatype Value = Value(text: string, tri: Tri)

  /** What is calculated for a symbol: its value and the limits on it. */
  datatype SymState = SymState(curr: Value, visible: Tri, dirDep: Tri, revDep: Tri, implied: Tri)

  datatype Default = Default(cond: Option<Expr>, value: Expr)
  datatype Range = Range(cond: Option<Expr>, lo: Sym, hi: Sym)

  datatype SymDef = SymDef(
    prompts: seq<Option<Expr>>, defaults: seq<Default>, ranges: seq<Range>,
    dirDep: Option<Expr>, revDep: Option<Expr>, implied: Option<Expr>)

  /** The states of all symbols. */
  type Look = Sym -> SymState

  function Idle(text: string, tri: Tri): SymState {
    SymState(Value(text, tri), NO, NO, NO, NO)
  }

  function ConstText(s: Sym): string {
    match s
    case SymYes => "y"
    case SymMod => "m"
    case SymNo => "n"
    case Quoted(t) => t
    case Named(name, _) => name
  }

  function TextOf(s: Sym, v: Value): string {
    if s.IsTri() then TriText(v.tri) else v.text
  }

  function EnvOf(look: Look): Env {
    Env((s: Sym) => look(s).curr.tri,
        (a: Sym, b: Sym) => CompareValues(a.Type(), TextOf(a, look(a).curr), b.Type(), TextOf(b, look(b).curr)))
  }

  /** sym_get_type: without modules a tristate is a bool. */
  function GetType(typ: SymType, modulesVal: Tri): SymType {
    if typ.Tristate? && modulesVal == NO then Boolean else typ
  }

  function Rounded(typ: SymType, modulesVal: Tri, t: Tri): Tri {
    if t == MOD && GetType(typ, modulesVal).Boolean? then YES else t
  }

  function FirstDefault(defaults: seq<Default>, env: Env): (r: Option<Default>)
    ensures r.Some? ==> r.value in defaults && ValOpt(r.value.cond, env) != NO
  {
    if defaults == [] then None
    else if ValOpt(defaults[0].cond, env) != NO then Some(defaults[0])
    else FirstDefault(defaults[1..], env)
  }

  function FirstRange(ranges: seq<Range>, env: Env): (r: Option<Range>)
    ensures r.Some? ==> r.value in ranges && ValOpt(r.value.cond, env) != NO
  {
    if ranges == [] then None
    else if ValOpt(ranges[0].cond, env) != NO then Some(ranges[0])
    else FirstRange(ranges[1..], env)
  }

  function PromptVals(prompts: seq<Option<Expr>>, env: Env): seq<Tri> {
    seq(|prompts|, k requires 0 <= k < |prompts| => ValOpt(prompts[k], env))
  }

  /** A user value, if the symbol has one. */
  datatype User = User(text: string, tri: Tri)

  function VisibleIn(typ: SymType, modulesVal: Tri, def: SymDef, env: Env): Tri {
    V.VisibleOf(typ, modulesVal, PromptVals(def.prompts, env))
  }

  function DirDepIn(typ: SymType, modulesVal: Tri, def: SymDef, env: Env): Tri {
    Rounded(typ, modulesVal, ValOpt(def.dirDep, env))
  }

  function RevDepIn(typ: SymType, modulesVal: Tri, def: SymDef, env: Env): Tri {
    Rounded(typ, modulesVal, if def.revDep.None? then NO else Val(def.revDep.value, env))
  }

  function ImpliedIn(typ: SymType, modulesVal: Tri, def: SymDef, env: Env): Tri {
    Rounded(typ, modulesVal,
      if def.implied.None? || DirDepIn(typ, modulesVal, def, env) == NO then NO else Val(def.implied.value, env))
  }

  /** What the default properties give a bool or tristate. */
  function DefaultOf(defaults: seq<Default>, env: Env): Tri {
    var d := FirstDefault(defaults, env);
    if d.Some? then Ap(OpAnd, Val(d.value.value, env), ValOpt(d.value.cond, env)) else NO
  }

  /** The default raised by what implies the symbol. */
  function DefaultTri(def: SymDef, implied: Tri, env: Env): Tri {
    Ap(OpOr, DefaultOf(def.defaults, env), implied)
  }

  /** The last step for a bool or tristate: at least what selects it, and no m
      where there is none. */
  function Finish(typ: SymType, modulesVal: Tri, base: Tri, revDep: Tri, implied: Tri): Tri {
    var t := Ap(OpOr, base, revDep);
    if t == MOD && (GetType(typ, modulesVal).Boolean? || implied == YES) then YES else t
  }

  function TriIn(typ: SymType, modulesVal: Tri, def: SymDef, user: Option<User>, env: Env): Tri {
    var visible, implied := VisibleIn(typ, modulesVal, def, env), ImpliedIn(typ, modulesVal, def, env);
    var base := if visible != NO && user.Some? then Ap(OpAnd, user.value.tri, visible) else DefaultTri(def, implied, env);
    Finish(typ, modulesVal, base, RevDepIn(typ, modulesVal, def, env), implied)
  }

  function RangeVal(s: Sym, look: Look, base: nat): int
    requires base == 10 || base == 16
  {
    StrToLL(BaseOf(s.Type(), base), look(s).curr.text)
  }

  /** The text of an int, hex or string symbol before its range is applied. */
  function RawTextIn(def: SymDef, visible: Tri, user: Option<User>, look: Look): string {
    if visible != NO && user.Some? then user.value.text
    else
      var d := FirstDefault(def.defaults, EnvOf(look));
      if d.Some? && d.value.value.Symbol? then look(d.value.value.sym).curr.text else ""
  }

  function TextIn(typ: SymType, def: SymDef, visible: Tri, user: Option<User>, look: Look): string {
    var raw := RawTextIn(def, visible, user, look);
    var r := FirstRange(def.ranges, EnvOf(look));
    if (typ.Int? || typ.Hex?) && r.Some? then
      Clamp(typ, raw, RangeVal(r.value.lo, look, BaseOf(typ, 10)), RangeVal(r.value.hi, look, BaseOf(typ, 10)))
    else raw
  }

  /** Everything calculated for a symbol of a known type. */
  function Compute(typ: SymType, modulesVal: Tri, def: SymDef, user: Option<User>, look: Look): SymState {
    var env := EnvOf(look);
    var visible := VisibleIn(typ, modulesVal, def, env);
    SymState(
      if typ.Boolean? || typ.Tristate? then Value("n", TriIn(typ, modulesVal, def, user, env))
      else Value(TextIn(typ, def, visible, user, look), NO),
      visible,
      DirDepIn(typ, modulesVal, def, env),
      RevDepIn(typ, modulesVal, def, env),
      ImpliedIn(typ, modulesVal, def, env))
  }

  // ---------- Evaluation by recursion over the dependencies ----------

  /** The definitions, the user's values, whether modules exist, and a rank
      that goes down along every dependency. */
  datatype Config = Config(defs: Sym -> SymDef, user: map<Sym, User>, modulesVal: Tri, rank: Sym -> nat)

  function UserOf(c: Config, s: Sym): Option<User> {
    if s in c.user then Some(c.user[s]) else None
  }

  ghost function EvalSym(c: Config, s: Sym): SymState
    decreases c.rank(s), 1
  {
    if s.Type().Unknown? then
      Idle(ConstText(s), if s.SymYes? then YES else if s.SymMod? then MOD else NO)
    else Compute(s.typ, c.modulesVal, c.defs(s), UserOf(c, s), Below(c, c.rank(s)))
  }

  ghost function Below(c: Config, b: nat): Look
    decreases b, 0
  {
    (t: Sym) => if c.rank(t) < b then EvalSym(c, t) else Idle("", NO)
  }

  ghost function All(c: Config): Look {
    (t: Sym) => EvalSym(c, t)
  }

  // ---------- What an evaluation consults ----------

  function Syms(e: Expr): set<Sym> {
    match e
    case Symbol(s) => {s}
    case Not(a) => Syms(a)
    case Comp(_, l, r) => {l, r}
    case Bin(_, l, r) => Syms(l) + Syms(r)
  }

  function SymsOpt(e: Option<Expr>): set<Sym> {
    if e.Some? then Syms(e.value) else {}
  }

  ghost predicate Consults(def: SymDef, t: Sym) {
    || (exists p <- def.prompts :: t in SymsOpt(p))
    || (exists d <- def.defaults :: t in SymsOpt(d.cond) || t in Syms(d.value))
    || (exists r <- def.ranges :: t in SymsOpt(r.cond) || t == r.lo || t == r.hi)
    || t in SymsOpt(def.dirDep) || t in SymsOpt(def.revDep) || t in SymsOpt(def.implied)
  }

  ghost predicate Acyclic(defs: Sym -> SymDef, rank: Sym -> nat) {
    forall s: Sym, t: Sym :: !s.Type().Unknown? && Consults(defs(s), t) ==> rank(t) < rank(s)
  }

  ghost predicate Agree(def: SymDef, a: Look, b: Look) {
    forall t: Sym :: Consults(def, t) ==> a(t) == b(t)
  }

  lemma {:induction false} ValAgrees(e: Expr, a: Look, b: Look)
    requires forall t <- Syms(e) :: a(t) == b(t)
    ensures Val(e, EnvOf(a)) == Val(e, EnvOf(b))
  {
    match e
    case Not(x) => ValAgrees(x, a, b);
    case Bin(_, l, r) =>
      ValAgrees(l, a, b);
      ValAgrees(r, a, b);
    case Symbol(_) =>
    case Comp(_, _, _) =>
  }

  lemma ValOptAgrees(e: Option<Expr>, a: Look, b: Look)
    requires forall t <- SymsOpt(e) :: a(t) == b(t)
    ensures ValOpt(e, EnvOf(a)) == ValOpt(e, EnvOf(b))
  {
    if e.Some? {
      ValAgrees(e.value, a, b);
    }
  }

  lemma {:induction false} FirstDefaultAgrees(defaults: seq<Default>, a: Look, b: Look)
    requires forall d <- defaults, t <- SymsOpt(d.cond) :: a(t) == b(t)
    ensures FirstDefault(defaults, EnvOf(a)) == FirstDefault(defaults, EnvOf(b))
  {
    if defaults != [] {
      ValOptAgrees(defaults[0].cond, a, b);
      FirstDefaultAgrees(defaults[1..], a, b);
    }
  }

  lemma {:induction false} FirstRangeAgrees(ranges: seq<Range>, a: Look, b: Look)
    requires forall r <- ranges, t <- SymsOpt(r.cond) :: a(t) == b(t)
    ensures FirstRange(ranges, EnvOf(a)) == FirstRange(ranges, EnvOf(b))
  {
    if ranges != [] {
      ValOptAgrees(ranges[0].cond, a, b);
      FirstRangeAgrees(ranges[1..], a, b);
    }
  }

  lemma AgreeParts(def: SymDef, a: Look, b: Look)
    requires Agree(def, a, b)
    ensures forall p <- def.prompts, t <- SymsOpt(p) :: a(t) == b(t)
    ensures forall d <- def.defaults, t <- SymsOpt(d.cond) :: a(t) == b(t)
    ensures forall d <- def.defaults, t <- Syms(d.value) :: a(t) == b(t)
    ensures forall r <- def.ranges, t <- SymsOpt(r.cond) :: a(t) == b(t)
    ensures forall r <- def.ranges :: a(r.lo) == b(r.lo) && a(r.hi) == b(r.hi)
    ensures forall t <- SymsOpt(def.dirDep) + SymsOpt(def.revDep) + SymsOpt(def.implied) :: a(t) == b(t)
  {
    assert forall t: Sym :: Consults(def, t) ==> a(t) == b(t);
  }

  lemma LimitsAgree(typ: SymType, modulesVal: Tri, def: SymDef, a: Look, b: Look)
    requires Agree(def, a, b)
    ensures VisibleIn(typ, modulesVal, def, EnvOf(a)) == VisibleIn(typ, modulesVal, def, EnvOf(b))
    ensures DirDepIn(typ, modulesVal, def, EnvOf(a)) == DirDepIn(typ, modulesVal, def, EnvOf(b))
    ensures RevDepIn(typ, modulesVal, def, EnvOf(a)) == RevDepIn(typ, modulesVal, def, EnvOf(b))
    ensures ImpliedIn(typ, modulesVal, def, EnvOf(a)) == ImpliedIn(typ, modulesVal, def, EnvOf(b))
  {
    hide Val, V.VisibleOf, Rounded, Syms, EnvOf, Agree, ValOpt;
    AgreeParts(def, a, b);
    forall k | 0 <= k < |def.prompts|
      ensures ValOpt(def.prompts[k], EnvOf(a)) == ValOpt(def.prompts[k], EnvOf(b))
    {
      assert def.prompts[k] in def.prompts;
      ValOptAgrees(def.prompts[k], a, b);
    }
    assert PromptVals(def.prompts, EnvOf(a)) == PromptVals(def.prompts, EnvOf(b));
    ValOptAgrees(def.dirDep, a, b);
    if def.revDep.Some? {
      ValAgrees(def.revDep.value, a, b);
    }
    if def.implied.Some? {
      ValAgrees(def.implied.value, a, b);
    }
  }

  lemma DefaultsAgree(def: SymDef, a: Look, b: Look)
    requires Agree(def, a, b)
    ensures FirstRange(def.ranges, EnvOf(a)) == FirstRange(def.ranges, EnvOf(b))
    ensures var d := FirstDefault(def.defaults, EnvOf(a));
      && d == FirstDefault(def.defaults, EnvOf(b))
      && (d.Some? ==>
        && ValOpt(d.value.cond, EnvOf(a)) == ValOpt(d.value.cond, EnvOf(b))
        && Val(d.value.value, EnvOf(a)) == Val(d.value.value, EnvOf(b))
        && (d.value.value.Symbol? ==> a(d.value.value.sym) == b(d.value.value.sym)))
  {
    hide Val, EnvOf, Agree, ValOpt;
    AgreeParts(def, a, b);
    FirstRangeAgrees(def.ranges, a, b);
    FirstDefaultAgrees(def.defaults, a, b);
    var d := FirstDefault(def.defaults, EnvOf(a));
    if d.Some? {
      ValOptAgrees(d.value.cond, a, b);
      ValAgrees(d.value.value, a, b);
    }
  }

  /** Only the consulted symbols matter. */
  lemma ComputeAgrees(typ: SymType, modulesVal: Tri, def: SymDef, user: Option<User>, a: Look, b: Look)
    requires Agree(def, a, b)
    ensures Compute(typ, modulesVal, def, user, a) == Compute(typ, modulesVal, def, user, b)
  {
    hide Val, ValOpt, V.VisibleOf, Clamp, StrToLL, EnvOf, VisibleIn, DirDepIn, RevDepIn, ImpliedIn, Finish, Agree;
    hide FirstDefault, FirstRange, Syms;
    AgreeParts(def, a, b);
    LimitsAgree(typ, modulesVal, def, a, b);
    DefaultsAgree(def, a, b);
    var r := FirstRange(def.ranges, EnvOf(a));
    if r.Some? {
      assert RangeVal(r.value.lo, a, 10) == RangeVal(r.value.lo, b, 10);
    }
  }

  /** On an acyclic graph a symbol's state follows from those of all symbols. */
  lemma EvalUnfold(c: Config, s: Sym)
    requires Acyclic(c.defs, c.rank) && !s.Type().Unknown?
    ensures EvalSym(c, s) == Compute(s.typ, c.modulesVal, c.defs(s), UserOf(c, s), All(c))
  {
    ComputeAgrees(s.typ, c.modulesVal, c.defs(s), UserOf(c, s), Below(c, c.rank(s)), All(c));
  }

  // ---------- What every calculated state satisfies ----------

  /** A symbol is never below what selects it, never m where it has no m, and a
      visible symbol set by the user never above its limits. */
  lemma ValueBounds(c: Config, s: Sym)
    requires Acyclic(c.defs, c.rank) && s.IsTri()
    ensures var st := EvalSym(c, s);
      && st.curr.tri >= st.revDep
      && (GetType(s.typ, c.modulesVal).Boolean? ==> st.curr.tri != MOD)
      && (st.visible != NO && s in c.user ==>
        st.curr.tri <= Ap(OpOr, st.visible, Ap(OpOr, st.revDep, st.implied)))
  {
    hide EvalSym, VisibleIn, DirDepIn, RevDepIn, ImpliedIn, DefaultTri;
    EvalUnfold(c, s);
    LimitsRounded(s.typ, c.modulesVal, c.defs(s), EnvOf(All(c)));
  }

  lemma LimitsRounded(typ: SymType, modulesVal: Tri, def: SymDef, env: Env)
    ensures GetType(typ, modulesVal).Boolean? ==>
      && VisibleIn(typ, modulesVal, def, env) != MOD && RevDepIn(typ, modulesVal, def, env) != MOD
      && ImpliedIn(typ, modulesVal, def, env) != MOD && DirDepIn(typ, modulesVal, def, env) != MOD
  {
    hide Val, ValOpt, PromptVals;
  }

  lemma EvalIdle(c: Config, s: Sym)
    requires s.Type().Unknown?
    ensures EvalSym(c, s) == Idle(ConstText(s), if s.SymYes? then YES else if s.SymMod? then MOD else NO)
  {
  }

  lemma EvalConst(c: Config, s: Sym)
    requires s.Type().Unknown?
    ensures EvalSym(c, s).curr == Value(ConstText(s), if s.SymYes? then YES else if s.SymMod? then MOD else NO)
  {
  }

  /** The environment the evaluator presents to conditions is a sane one, so
      everything proved about the simplifier applies to it. */
  lemma EvalSane(c: Config)
    requires Acyclic(c.defs, c.rank)
    ensures Sane(EnvOf(All(c)))
  {
    var env := EnvOf(All(c));
    EvalConst(c, SymYes);
    EvalConst(c, SymMod);
    EvalConst(c, SymNo);
    forall s: Sym | s.Type().Boolean?
      ensures env.tri(s) != MOD
    {
      ValueBounds(c, s);
    }
    forall s: Sym, t: Sym | (s.IsTri() || s.IsTriConst()) && t.IsTriConst()
      ensures env.ord(s, t) == 0 <==> env.tri(s) == env.tri(t)
    {
      TriCompareExact(s.Type(), env.tri(s), env.tri(t));
      assert TextOf(s, EvalSym(c, s).curr) == TriText(env.tri(s));
      assert TextOf(t, EvalSym(c, t).curr) == TriText(env.tri(t));
    }
  }

  // ---------- What a change of one user value can reach ----------

  /** Closed under consulting. */
  ghost predicate Closed(defs: Sym -> SymDef, cone: set<Sym>) {
    forall s <- cone :: !s.Type().Unknown? ==> forall t: Sym :: Consults(defs(s), t) ==> t in cone
  }

  ghost predicate SameBelow(c: Config, d: Config, s: Sym) {
    forall t: Sym :: Consults(c.defs(s), t) ==> EvalSym(c, t) == EvalSym(d, t)
  }

  lemma EvalSame(c: Config, d: Config, s: Sym)
    requires c.defs == d.defs && c.rank == d.rank && Acyclic(c.defs, c.rank)
    requires !s.Type().Unknown? ==> UserOf(c, s) == UserOf(d, s) && SameBelow(c, d, s)
    requires c.modulesVal == d.modulesVal || !s.Type().Tristate?
    ensures EvalSym(c, s) == EvalSym(d, s)
  {
    if !s.Type().Unknown? {
      EvalUnfold(c, s);
      EvalUnfold(d, s);
      ComputeAgrees(s.typ, c.modulesVal, c.defs(s), UserOf(c, s), All(c), All(d));
      ComputeNoModules(s.typ, c.modulesVal, d.modulesVal, c.defs(s), UserOf(c, s), All(d));
    }
  }

  /** Only tristates look at whether there are modules. */
  lemma ComputeNoModules(typ: SymType, m1: Tri, m2: Tri, def: SymDef, user: Option<User>, look: Look)
    requires m1 == m2 || !typ.Tristate?
    ensures Compute(typ, m1, def, user, look) == Compute(typ, m2, def, user, look)
  {
    hide Val, ValOpt, PromptVals, FirstDefault, FirstRange, Clamp, EnvOf;
  }

  /** A closed set without tristates does not notice, up to a rank, a change of
      the modules value or of user values of higher rank. */
  lemma {:induction false} ConeUnchanged(c: Config, d: Config, cone: set<Sym>, s: Sym, bound: nat)
    requires c.defs == d.defs && c.rank == d.rank && Acyclic(c.defs, c.rank) && Closed(c.defs, cone)
    requires forall t <- cone :: !t.Type().Tristate? && (c.rank(t) <= bound ==> UserOf(c, t) == UserOf(d, t))
    requires s in cone && c.rank(s) <= bound
    ensures EvalSym(c, s) == EvalSym(d, s)
    decreases c.rank(s)
  {
    hide EvalSym, UserOf;
    if !s.Type().Unknown? {
      forall t: Sym | Consults(c.defs(s), t)
        ensures EvalSym(c, t) == EvalSym(d, t)
      {
        ConeUnchanged(c, d, cone, t, bound);
      }
    }
    EvalSame(c, d, s);
  }

  /** Symbols of lower rank than every changed one keep their state. */
  lemma {:induction false} LowerUnchanged(c: Config, d: Config, s: Sym, b: nat)
    requires c.defs == d.defs && c.rank == d.rank && Acyclic(c.defs, c.rank) && c.modulesVal == d.modulesVal
    requires forall t: Sym :: c.rank(t) < b ==> UserOf(c, t) == UserOf(d, t)
    requires c.rank(s) < b
    ensures EvalSym(c, s) == EvalSym(d, s)
    decreases c.rank(s)
  {
    hide EvalSym, UserOf;
    if !s.Type().Unknown? {
      forall t: Sym | Consults(c.defs(s), t)
        ensures EvalSym(c, t) == EvalSym(d, t)
      {
        LowerUnchanged(c, d, t, b);
      }
    }
    EvalSame(c, d, s);
  }

  /** If the changed symbol itself keeps its state, all symbols do. */
  lemma {:induction false} RestUnchanged(c: Config, d: Config, changed: Sym, s: Sym)
    requires c.defs == d.defs && c.rank == d.rank && Acyclic(c.defs, c.rank) && c.modulesVal == d.modulesVal
    requires forall t: Sym :: t != changed ==> UserOf(c, t) == UserOf(d, t)
    requires EvalSym(c, changed) == EvalSym(d, changed)
    ensures EvalSym(c, s) == EvalSym(d, s)
    decreases c.rank(s)
  {
    hide EvalSym, UserOf;
    if s != changed {
      if !s.Type().Unknown? {
        forall t: Sym | Consults(c.defs(s), t)
          ensures EvalSym(c, t) == EvalSym(d, t)
        {
          RestUnchanged(c, d, changed, t);
        }
      }
      EvalSame(c, d, s);
    }
  }

  // ---------- Assignments ----------

  /** sym_tristate_within_range, for a symbol outside choices. */
  predicate WithinRange(typ: SymType, modulesVal: Tri, st: SymState, val: Tri) {
    && st.visible != NO
    && (GetType(typ, modulesVal).Boolean? || GetType(typ, modulesVal).Tristate?)
    && !(GetType(typ, modulesVal).Boolean? && val == MOD)
    && st.visible > st.revDep
    && !(st.implied == YES && val == MOD)
    && st.revDep <= val <= st.visible
  }

  predicate Accepts(typ: SymType, modulesVal: Tri, st: SymState, val: Tri) {
    st.curr.tri == val || WithinRange(typ, modulesVal, st, val)
  }

  /** The one case in which an accepted assignment is not taken up: y for a
      symbol that is only visible as m and that nothing else raises to y. */
  predicate TooHigh(st: SymState, val: Tri) {
    val == YES && st.visible == MOD && st.revDep != YES && st.implied != YES
  }

  /** Two configurations that differ in the user value of s, now val. */
  ghost predicate Assigned(c: Config, d: Config, s: Sym, val: Tri) {
    && c.defs == d.defs && c.rank == d.rank
    && (forall t: Sym :: t != s ==> UserOf(c, t) == UserOf(d, t))
    && s in d.user && d.user[s].tri == val
    && (c.modulesVal == d.modulesVal || !s.Type().Tristate?)
    && SameBelow(c, d, s)
  }

  /** What the assignment of val makes of a symbol in the state `before`. */
  function AfterAssign(typ: SymType, modulesVal: Tri, before: SymState, val: Tri): Tri {
    if before.visible == NO then before.curr.tri
    else Finish(typ, modulesVal, Ap(OpAnd, val, before.visible), before.revDep, before.implied)
  }

  /** When that is the value asked for. */
  predicate Reaches(typ: SymType, modulesVal: Tri, before: SymState, val: Tri) {
    if before.visible == NO then before.curr.tri == val
    else if val == NO then before.revDep == NO
    else if val == MOD then GetType(typ, modulesVal).Tristate? && before.revDep != YES && before.implied != YES
    else before.visible == YES || before.revDep == YES || before.implied == YES
  }

  /** The user value val over the same dependencies changes the value alone, and gives
      the value asked for if and only if the symbol as it really was could reach it. */
  lemma EnteredValue(c: Config, d: Config, s: Sym, val: Tri)
    requires Acyclic(c.defs, c.rank) && c.defs == d.defs && c.rank == d.rank && SameBelow(c, d, s)
    requires s.IsTri() && s in d.user && d.user[s].tri == val && (c.modulesVal == d.modulesVal || !s.Type().Tristate?)
    ensures var before, after := EvalSym(c, s), EvalSym(d, s);
      && after == before.(curr := before.curr.(tri := AfterAssign(s.typ, c.modulesVal, before, val)))
      && (after.curr.tri == val <==> Reaches(s.typ, c.modulesVal, before, val))
  {
    hide EvalSym, VisibleIn, DirDepIn, RevDepIn, ImpliedIn, DefaultTri;
    EvalUnfold(c, s);
    EvalUnfold(d, s);
    ComputeAgrees(s.typ, d.modulesVal, c.defs(s), UserOf(d, s), All(c), All(d));
    ComputeNoModules(s.typ, c.modulesVal, d.modulesVal, c.defs(s), UserOf(d, s), All(c));
    LimitsRounded(s.typ, c.modulesVal, c.defs(s), EnvOf(All(c)));
    UserIgnoredWhenInvisible(s.typ, c.modulesVal, c.defs(s), UserOf(c, s), UserOf(d, s), EnvOf(All(c)));
  }

  /** An accepted assignment gives exactly the value asked for, unless it is
      too high; then it gives m. */
  lemma AssignmentTakesEffect(c: Config, d: Config, s: Sym, val: Tri)
    requires Acyclic(c.defs, c.rank) && s.IsTri() && Assigned(c, d, s, val)
    requires Accepts(s.typ, c.modulesVal, EvalSym(c, s), val)
    ensures var before, after := EvalSym(c, s), EvalSym(d, s);
      && (after.curr.tri == val <==> !TooHigh(before, val))
      && (TooHigh(before, val) ==> after.curr.tri == MOD)
      && after == before.(curr := before.curr.(tri := after.curr.tri))
  {
    hide EvalSym, VisibleIn, DirDepIn, RevDepIn, ImpliedIn, DefaultTri;
    EvalUnfold(c, s);
    EvalUnfold(d, s);
    ComputeAgrees(s.typ, d.modulesVal, c.defs(s), UserOf(d, s), All(c), All(d));
    ComputeNoModules(s.typ, c.modulesVal, d.modulesVal, c.defs(s), UserOf(d, s), All(c));
    LimitsRounded(s.typ, c.modulesVal, c.defs(s), EnvOf(All(c)));
    UserIgnoredWhenInvisible(s.typ, c.modulesVal, c.defs(s), UserOf(c, s), UserOf(d, s), EnvOf(All(c)));
  }

  /** Entering the value a symbol has changes nothing at all, unless it is too high. */
  lemma SameValueSame(c: Config, d: Config, s: Sym)
    requires Acyclic(c.defs, c.rank) && c.defs == d.defs && c.rank == d.rank && c.modulesVal == d.modulesVal
    requires s.IsTri() && s in d.user && forall t: Sym :: t != s ==> UserOf(c, t) == UserOf(d, t)
    requires d.user[s].tri == EvalSym(c, s).curr.tri && !TooHigh(EvalSym(c, s), d.user[s].tri)
    ensures forall t: Sym :: EvalSym(c, t) == EvalSym(d, t)
  {
    hide EvalSym, Acyclic, TooHigh, WithinRange;
    forall t: Sym | Consults(c.defs(s), t)
      ensures EvalSym(c, t) == EvalSym(d, t)
    {
      MentionedBelow(c, s, t);
      LowerUnchanged(c, d, t, c.rank(s));
    }
    AssignmentTakesEffect(c, d, s, d.user[s].tri);
    forall t: Sym
      ensures EvalSym(c, t) == EvalSym(d, t)
    {
      RestUnchanged(c, d, s, t);
    }
  }

  lemma MentionedBelow(c: Config, s: Sym, t: Sym)
    requires Acyclic(c.defs, c.rank) && !s.Type().Unknown? && Consults(c.defs(s), t)
    ensures c.rank(t) < c.rank(s)
  {
  }

  /** What the state of the evaluation itself accepts is reached unless too high. */
  lemma AcceptedReaches(c: Config, s: Sym, val: Tri)
    requires Acyclic(c.defs, c.rank) && s.IsTri() && Accepts(s.typ, c.modulesVal, EvalSym(c, s), val)
    ensures Reaches(s.typ, c.modulesVal, EvalSym(c, s), val) <==> !TooHigh(EvalSym(c, s), val)
  {
    hide EvalSym, VisibleIn, DirDepIn, RevDepIn, ImpliedIn, DefaultTri;
    EvalUnfold(c, s);
    LimitsRounded(s.typ, c.modulesVal, c.defs(s), EnvOf(All(c)));
  }

  lemma UserIgnoredWhenInvisible(typ: SymType, modulesVal: Tri, def: SymDef, u1: Option<User>, u2: Option<User>, env: Env)
    ensures VisibleIn(typ, modulesVal, def, env) == NO ==>
      TriIn(typ, modulesVal, def, u1, env) == TriIn(typ, modulesVal, def, u2, env)
  {
  }

  const DRIVER := SymDef([Some(Symbol(SymMod))], [Default(None, Symbol(SymYes))], [], None, None, None)

  const DRIVEN := Named("DRIVER", Tristate)

  /** A tristate that is y by default, with a prompt that is shown only as m; nothing
      else is defined. */
  function DriverConfig(user: map<Sym, User>): Config {
    Config((t: Sym) => if t == DRIVEN then DRIVER else SymDef([], [], [], None, None, None),
      user, YES, (t: Sym) => if t == DRIVEN then 1 else 0)
  }

  /** Before and after y is assigned to it. */
  lemma DriverAssigned()
    ensures var c, d := DriverConfig(map[]), DriverConfig(map[DRIVEN := User("", YES)]);
      Acyclic(c.defs, c.rank) && Assigned(c, d, DRIVEN, YES)
  {
    hide EvalSym;
    var c, d := DriverConfig(map[]), DriverConfig(map[DRIVEN := User("", YES)]);
    assert Acyclic(c.defs, c.rank);
    hide Acyclic;
    forall t: Sym | Consults(c.defs(DRIVEN), t)
      ensures EvalSym(c, t) == EvalSym(d, t)
    {
      LowerUnchanged(c, d, t, 1);
    }
  }

  lemma DriverState(look: Look)
    requires look(SymYes).curr.tri == YES && look(SymMod).curr.tri == MOD
    ensures var st := Compute(Tristate, YES, DRIVER, None, look);
      st.curr.tri == YES && TooHigh(st, YES)
  {
    hide CompareValues, TextIn;
    var env := EnvOf(look);
    assert PromptVals(DRIVER.prompts, env) == [MOD];
    V.MaxOfSnoc([], MOD);
    assert [] + [MOD] == [MOD];
  }

  /** There is such a case: the assignment is accepted and gives m. */
  lemma AcceptedButLost()
    ensures var c, d := DriverConfig(map[]), DriverConfig(map[DRIVEN := User("", YES)]);
      && Acyclic(c.defs, c.rank) && Assigned(c, d, DRIVEN, YES)
      && TooHigh(EvalSym(c, DRIVEN), YES)
      && EvalSym(c, DRIVEN).curr.tri == YES && Accepts(Tristate, c.modulesVal, EvalSym(c, DRIVEN), YES)
      && EvalSym(d, DRIVEN).curr.tri == MOD
  {
    hide EvalSym, Compute, TooHigh, Acyclic, Assigned, WithinRange;
    var c, d := DriverConfig(map[]), DriverConfig(map[DRIVEN := User("", YES)]);
    DriverAssigned();
    EvalUnfold(c, DRIVEN);
    EvalConst(c, SymYes);
    EvalConst(c, SymMod);
    DriverState(All(c));
    AssignmentTakesEffect(c, d, DRIVEN, YES);
  }

  /** A bool with one prompt and nothing else. */
  function Asked(prompt: Option<Expr>): SymDef {
    SymDef([prompt], [], [], None, None, None)
  }

  lemma AskedState(prompt: Option<Expr>, user: Option<User>, look: Look)
    ensures var st, v := Compute(Boolean, NO, Asked(prompt), user, look), ValOpt(prompt, EnvOf(look));
      && st.visible == (if v == NO then NO else YES) && st.revDep == NO && st.implied == NO
      && st.curr.tri == (if v == NO || user.None? || user.value.tri == NO then NO else YES)
  {
    hide TextIn;
    var def, env := Asked(prompt), EnvOf(look);
    assert PromptVals(def.prompts, env) == [ValOpt(prompt, env)];
    V.MaxOfSnoc([], ValOpt(prompt, env));
    assert [] + [ValOpt(prompt, env)] == [ValOpt(prompt, env)];
  }

  const SWITCH := Named("R", Boolean)
  const SWITCHED := Named("S", Boolean)

  /** R is always asked about, S only if R is not n. */
  function SwitchConfig(user: map<Sym, User>): Config {
    Config(
      (t: Sym) => if t == SWITCH then Asked(None) else if t == SWITCHED then Asked(Some(Symbol(SWITCH)))
                  else SymDef([], [], [], None, None, None),
      user, NO, (t: Sym) => if t == SWITCH then 1 else if t == SWITCHED then 2 else 0)
  }

  lemma SwitchStates(user: map<Sym, User>)
    requires SWITCH in user
    ensures var c := SwitchConfig(user);
      var r, s := EvalSym(c, SWITCH), EvalSym(c, SWITCHED);
      && Acyclic(c.defs, c.rank)
      && r.visible == YES && r.revDep == NO && r.curr.tri == (if user[SWITCH].tri == NO then NO else YES)
      && s.visible == r.curr.tri && s.revDep == NO && s.implied == NO
      && (SWITCHED !in user || user[SWITCH].tri == NO ==> s.curr.tri == NO)
  {
    hide EvalSym, Compute, Asked;
    var c := SwitchConfig(user);
    AskedSyms(None);
    AskedSyms(Some(Symbol(SWITCH)));
    assert Acyclic(c.defs, c.rank);
    EvalUnfold(c, SWITCH);
    EvalUnfold(c, SWITCHED);
    AskedState(None, UserOf(c, SWITCH), All(c));
    AskedState(Some(Symbol(SWITCH)), UserOf(c, SWITCHED), All(c));
  }

  lemma AskedSyms(prompt: Option<Expr>)
    ensures forall t: Sym :: Consults(Asked(prompt), t) <==> t in SymsOpt(prompt)
  {
    assert Asked(prompt).prompts[0] == prompt;
  }

  /** An assignment is judged by the state kept from the last calculation: S is
      calculated while R is y, then R is set to n; y for S is still accepted, and
      not too high by what is kept, but gives n. */
  lemma KeptStateMisleads()
    ensures var y, n := User("", YES), User("", NO);
      var c, m, d := SwitchConfig(map[SWITCH := y]), SwitchConfig(map[SWITCH := n]), SwitchConfig(map[SWITCH := n, SWITCHED := y]);
      && Acyclic(c.defs, c.rank)
      && Assigned(c, m, SWITCH, NO) && Accepts(Boolean, c.modulesVal, EvalSym(c, SWITCH), NO)
      && Assigned(m, d, SWITCHED, YES) && Accepts(Boolean, m.modulesVal, EvalSym(c, SWITCHED), YES)
      && !TooHigh(EvalSym(c, SWITCHED), YES) && EvalSym(d, SWITCHED).curr.tri == NO
  {
    hide EvalSym, Acyclic, Asked;
    var y, n := User("", YES), User("", NO);
    var c, m, d := SwitchConfig(map[SWITCH := y]), SwitchConfig(map[SWITCH := n]), SwitchConfig(map[SWITCH := n, SWITCHED := y]);
    SwitchStates(c.user);
    SwitchStates(m.user);
    SwitchStates(d.user);
    AskedSyms(None);
    AskedSyms(Some(Symbol(SWITCH)));
    LowerUnchanged(m, d, SWITCH, 2);
  }
}
