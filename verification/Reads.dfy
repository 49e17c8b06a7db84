/**
  What a calculation actually looks at: not all that a definition mentions, but
  defaults and ranges up to the first active one, `implied` only where the direct
  dependencies hold, the upper bound only where the lower one does.
 */
module Reads {
  import opened Expressions
  import opened Evaluation
  import opened Ranges
  import opened Numbers
  import V = Visibility

  function PromptSyms(prompts: seq<Option<Expr>>): (r: set<Sym>)
    ensures forall p <- prompts :: SymsOpt(p) <= r
    ensures forall t <- r :: exists p <- prompts :: t in SymsOpt(p)
  {
    if prompts == [] then {} else SymsOpt(prompts[0]) + PromptSyms(prompts[1..])
  }

  /** The largest value among the first i prompts' conditions. */
  function MaxUpTo(prompts: seq<Option<Expr>>, env: Env, i: nat): Tri
    requires i <= |prompts|
  {
    V.MaxOf(PromptVals(prompts, env)[..i])
  }

  lemma PromptsNext(prompts: seq<Option<Expr>>, env: Env, i: nat)
    requires i < |prompts|
    ensures MaxUpTo(prompts, env, i + 1) == Ap(OpOr, MaxUpTo(prompts, env, i), ValOpt(prompts[i], env))
    ensures PromptSyms(prompts[..i + 1]) == PromptSyms(prompts[..i]) + SymsOpt(prompts[i])
  {
    hide SymsOpt, ValOpt, V.MaxOf;
    var vals := PromptVals(prompts, env);
    assert vals[..i + 1] == vals[..i] + [vals[i]];
    V.MaxOfSnoc(vals[..i], vals[i]);
    assert prompts[..i + 1] == prompts[..i] + [prompts[i]];
  }

  lemma PromptsEnds(prompts: seq<Option<Expr>>, env: Env)
    ensures MaxUpTo(prompts, env, 0) == NO && PromptSyms(prompts[..0]) == {}
    ensures MaxUpTo(prompts, env, |prompts|) == V.MaxOf(PromptVals(prompts, env)) && prompts[..|prompts|] == prompts
  {
    hide ValOpt;
    var vals := PromptVals(prompts, env);
    assert vals[..|prompts|] == vals;
  }

  /** The conditions up to the first one that is not n. */
  function DefaultConds(defaults: seq<Default>, env: Env): set<Sym> {
    if defaults == [] then {}
    else if ValOpt(defaults[0].cond, env) != NO then SymsOpt(defaults[0].cond)
    else SymsOpt(defaults[0].cond) + DefaultConds(defaults[1..], env)
  }

  function RangeConds(ranges: seq<Range>, env: Env): set<Sym> {
    if ranges == [] then {}
    else if ValOpt(ranges[0].cond, env) != NO then SymsOpt(ranges[0].cond)
    else SymsOpt(ranges[0].cond) + RangeConds(ranges[1..], env)
  }

  /** Of the active default a bool or tristate evaluates the expression, any other
      symbol the one symbol it consists of. */
  function DefaultSyms(typ: SymType, defaults: seq<Default>, env: Env): set<Sym> {
    var d := FirstDefault(defaults, env);
    if d.None? || (!typ.Boolean? && !typ.Tristate? && !d.value.value.Symbol?) then DefaultConds(defaults, env)
    else DefaultConds(defaults, env) + Syms(d.value.value)
  }

  /** The bounds looked at for the text raw. */
  function BoundSyms(typ: SymType, r: Range, raw: string, look: Look): set<Sym>
    requires typ.Int? || typ.Hex?
  {
    if StrToLL(BaseOf(typ, 10), raw) >= RangeVal(r.lo, look, BaseOf(typ, 10)) then {r.lo, r.hi} else {r.lo}
  }

  function RangeSyms(typ: SymType, ranges: seq<Range>, raw: string, look: Look): set<Sym>
    requires typ.Int? || typ.Hex?
  {
    var r := FirstRange(ranges, EnvOf(look));
    RangeConds(ranges, EnvOf(look)) + (if r.Some? then BoundSyms(typ, r.value, raw, look) else {})
  }

  /** What the visibility and the other limits are calculated from. */
  function LimitSyms(def: SymDef, dirDep: Tri): set<Sym> {
    PromptSyms(def.prompts) + SymsOpt(def.dirDep) + SymsOpt(def.revDep) +
    (if dirDep != NO then SymsOpt(def.implied) else {})
  }

  /** What the value is calculated from, once the limits are known. */
  function ValueSyms(typ: SymType, def: SymDef, user: Option<User>, look: Look, visible: Tri): set<Sym> {
    (if visible != NO && user.Some? then {} else DefaultSyms(typ, def.defaults, EnvOf(look))) +
    (if typ.Int? || typ.Hex? then RangeSyms(typ, def.ranges, RawTextIn(def, visible, user, look), look) else {})
  }

  /** All that is looked at on the way to the state st. */
  function ReadsOf(typ: SymType, def: SymDef, user: Option<User>, look: Look, st: SymState): set<Sym> {
    LimitSyms(def, st.dirDep) + ValueSyms(typ, def, user, look, st.visible)
  }

  // ---------- Only what is looked at matters ----------

  lemma {:induction false} DefaultsRead(defaults: seq<Default>, a: Look, b: Look)
    requires forall t <- DefaultConds(defaults, EnvOf(a)) :: a(t) == b(t)
    ensures FirstDefault(defaults, EnvOf(a)) == FirstDefault(defaults, EnvOf(b))
    ensures DefaultConds(defaults, EnvOf(a)) == DefaultConds(defaults, EnvOf(b))
    ensures var d := FirstDefault(defaults, EnvOf(a));
      d.Some? ==> ValOpt(d.value.cond, EnvOf(a)) == ValOpt(d.value.cond, EnvOf(b))
  {
    hide ValOpt, EnvOf, SymsOpt;
    if defaults != [] {
      ValOptAgrees(defaults[0].cond, a, b);
      if ValOpt(defaults[0].cond, EnvOf(a)) == NO {
        DefaultsRead(defaults[1..], a, b);
      }
    }
  }

  lemma {:induction false} RangesRead(ranges: seq<Range>, a: Look, b: Look)
    requires forall t <- RangeConds(ranges, EnvOf(a)) :: a(t) == b(t)
    ensures FirstRange(ranges, EnvOf(a)) == FirstRange(ranges, EnvOf(b))
    ensures RangeConds(ranges, EnvOf(a)) == RangeConds(ranges, EnvOf(b))
  {
    hide ValOpt, EnvOf, SymsOpt;
    if ranges != [] {
      ValOptAgrees(ranges[0].cond, a, b);
      if ValOpt(ranges[0].cond, EnvOf(a)) == NO {
        RangesRead(ranges[1..], a, b);
      }
    }
  }

  /** The limits, where what they were calculated from is the same. */
  lemma LimitsRead(typ: SymType, modulesVal: Tri, def: SymDef, a: Look, b: Look)
    requires forall t <- LimitSyms(def, DirDepIn(typ, modulesVal, def, EnvOf(a))) :: a(t) == b(t)
    ensures VisibleIn(typ, modulesVal, def, EnvOf(a)) == VisibleIn(typ, modulesVal, def, EnvOf(b))
    ensures DirDepIn(typ, modulesVal, def, EnvOf(a)) == DirDepIn(typ, modulesVal, def, EnvOf(b))
    ensures RevDepIn(typ, modulesVal, def, EnvOf(a)) == RevDepIn(typ, modulesVal, def, EnvOf(b))
    ensures ImpliedIn(typ, modulesVal, def, EnvOf(a)) == ImpliedIn(typ, modulesVal, def, EnvOf(b))
  {
    hide Val, V.VisibleOf, Rounded, Syms, EnvOf, ValOpt, PromptSyms;
    forall k | 0 <= k < |def.prompts|
      ensures ValOpt(def.prompts[k], EnvOf(a)) == ValOpt(def.prompts[k], EnvOf(b))
    {
      assert def.prompts[k] in def.prompts;
      ValOptAgrees(def.prompts[k], a, b);
    }
    assert PromptVals(def.prompts, EnvOf(a)) == PromptVals(def.prompts, EnvOf(b));
    ValOptAgrees(def.dirDep, a, b);
    if def.revDep.Some? {
      ValAgrees(def.revDep.value, a, b);
    }
    if def.implied.Some? && DirDepIn(typ, modulesVal, def, EnvOf(a)) != NO {
      ValAgrees(def.implied.value, a, b);
    }
  }

  /** The default, read as far as a symbol of the type does. */
  lemma DefaultRead(typ: SymType, def: SymDef, a: Look, b: Look)
    requires forall t <- DefaultSyms(typ, def.defaults, EnvOf(a)) :: a(t) == b(t)
    ensures DefaultSyms(typ, def.defaults, EnvOf(a)) == DefaultSyms(typ, def.defaults, EnvOf(b))
    ensures typ.Boolean? || typ.Tristate? ==> DefaultOf(def.defaults, EnvOf(a)) == DefaultOf(def.defaults, EnvOf(b))
    ensures !typ.Boolean? && !typ.Tristate? ==>
      forall visible, user :: RawTextIn(def, visible, user, a) == RawTextIn(def, visible, user, b)
  {
    hide Val, ValOpt, EnvOf, FirstDefault, DefaultConds;
    DefaultsRead(def.defaults, a, b);
    var d := FirstDefault(def.defaults, EnvOf(a));
    if d.Some? && (typ.Boolean? || typ.Tristate?) {
      ValAgrees(d.value.value, a, b);
    }
  }

  lemma RangeRead(typ: SymType, ranges: seq<Range>, raw: string, a: Look, b: Look)
    requires typ.Int? || typ.Hex?
    requires forall t <- RangeSyms(typ, ranges, raw, a) :: a(t) == b(t)
    ensures RangeSyms(typ, ranges, raw, a) == RangeSyms(typ, ranges, raw, b)
    ensures var r := FirstRange(ranges, EnvOf(a));
      && r == FirstRange(ranges, EnvOf(b))
      && (r.Some? ==>
        var base := BaseOf(typ, 10);
        Clamp(typ, raw, RangeVal(r.value.lo, a, base), RangeVal(r.value.hi, a, base)) ==
        Clamp(typ, raw, RangeVal(r.value.lo, b, base), RangeVal(r.value.hi, b, base)))
  {
    hide ValOpt, EnvOf, FirstRange, RangeConds, StrToLL, Print;
    RangesRead(ranges, a, b);
  }

  lemma ValueRead(typ: SymType, modulesVal: Tri, def: SymDef, user: Option<User>, a: Look, b: Look, visible: Tri)
    requires visible == VisibleIn(typ, modulesVal, def, EnvOf(a)) == VisibleIn(typ, modulesVal, def, EnvOf(b))
    requires RevDepIn(typ, modulesVal, def, EnvOf(a)) == RevDepIn(typ, modulesVal, def, EnvOf(b))
    requires ImpliedIn(typ, modulesVal, def, EnvOf(a)) == ImpliedIn(typ, modulesVal, def, EnvOf(b))
    requires forall t <- ValueSyms(typ, def, user, a, visible) :: a(t) == b(t)
    ensures ValueSyms(typ, def, user, a, visible) == ValueSyms(typ, def, user, b, visible)
    ensures typ.Boolean? || typ.Tristate? ==>
      TriIn(typ, modulesVal, def, user, EnvOf(a)) == TriIn(typ, modulesVal, def, user, EnvOf(b))
    ensures !typ.Boolean? && !typ.Tristate? ==> TextIn(typ, def, visible, user, a) == TextIn(typ, def, visible, user, b)
  {
    hide VisibleIn, RevDepIn, ImpliedIn, EnvOf, DefaultSyms, RangeSyms, DefaultOf, Clamp, RangeVal, Finish, FirstRange, FirstDefault;
    if visible == NO || user.None? {
      DefaultRead(typ, def, a, b);
    }
    if typ.Int? || typ.Hex? {
      RangeRead(typ, def.ranges, RawTextIn(def, visible, user, a), a, b);
    }
  }

  /** A calculation that finds the same in all that it looks at looks at the same
      and comes to the same. */
  lemma ReadsDecide(typ: SymType, modulesVal: Tri, def: SymDef, user: Option<User>, a: Look, b: Look)
    requires var st := Compute(typ, modulesVal, def, user, a);
      forall t <- ReadsOf(typ, def, user, a, st) :: a(t) == b(t)
    ensures var st := Compute(typ, modulesVal, def, user, a);
      && Compute(typ, modulesVal, def, user, b) == st
      && ReadsOf(typ, def, user, b, st) == ReadsOf(typ, def, user, a, st)
  {
    hide VisibleIn, DirDepIn, RevDepIn, ImpliedIn, TriIn, TextIn, EnvOf, LimitSyms, ValueSyms;
    LimitsRead(typ, modulesVal, def, a, b);
    ValueRead(typ, modulesVal, def, user, a, b, VisibleIn(typ, modulesVal, def, EnvOf(a)));
  }

  /** A bool or tristate with a user value looks at no more than without. */
  lemma UserReadsLess(typ: SymType, def: SymDef, u1: Option<User>, u2: Option<User>, look: Look, st: SymState)
    requires (typ.Boolean? || typ.Tristate?) && u2.Some?
    ensures ReadsOf(typ, def, u2, look, st) <= ReadsOf(typ, def, u1, look, st)
  {
    hide LimitSyms, DefaultSyms;
  }

  // ---------- It is all mentioned ----------

  lemma {:induction false} CondsMentioned(defaults: seq<Default>, ranges: seq<Range>, env: Env)
    ensures forall t <- DefaultConds(defaults, env) :: exists d <- defaults :: t in SymsOpt(d.cond)
    ensures forall t <- RangeConds(ranges, env) :: exists r <- ranges :: t in SymsOpt(r.cond)
    decreases |defaults| + |ranges|
  {
    hide ValOpt, SymsOpt;
    if defaults != [] {
      CondsMentioned(defaults[1..], [], env);
      assert defaults[0] in defaults;
    }
    if ranges != [] {
      CondsMentioned([], ranges[1..], env);
      assert ranges[0] in ranges;
    }
  }

  lemma ReadsMentioned(typ: SymType, def: SymDef, user: Option<User>, look: Look, st: SymState, t: Sym)
    requires t in ReadsOf(typ, def, user, look, st)
    ensures Consults(def, t)
  {
    hide ValOpt, EnvOf, Syms, StrToLL, RawTextIn, RangeVal;
    CondsMentioned(def.defaults, def.ranges, EnvOf(look));
  }

  // ---------- What is reached from a set of calculated symbols ----------

  /** What the evaluation of t looks at. */
  ghost function ReadsAt(c: Config, t: Sym): set<Sym>
    requires !t.Type().Unknown?
  {
    ReadsOf(t.typ, c.defs(t), UserOf(c, t), All(c), EvalSym(c, t))
  }

  /** It all has a lower rank. */
  lemma ReadsBelow(c: Config, t: Sym, u: Sym)
    requires Acyclic(c.defs, c.rank) && !t.Type().Unknown? && u in ReadsAt(c, t)
    ensures Consults(c.defs(t), u) && c.rank(u) < c.rank(t)
  {
    hide EvalSym, ReadsOf;
    ReadsMentioned(t.typ, c.defs(t), UserOf(c, t), All(c), EvalSym(c, t), u);
  }

  predicate KnownIn(known: set<Sym>, t: Sym) {
    t.IsTriConst() || t in known
  }

  /** The symbols are known with all that their evaluation looks at. */
  ghost predicate ReadsKnown(c: Config, known: set<Sym>, t: Sym) {
    !t.Type().Unknown? ==> forall u <- ReadsAt(c, t) :: KnownIn(known, u)
  }

  /** What the evaluation of s looks at is the same in both configurations. */
  lemma SameReads(c: Config, d: Config, s: Sym)
    requires c.defs == d.defs && Acyclic(c.defs, c.rank) && !s.Type().Unknown? && UserOf(c, s) == UserOf(d, s)
    requires forall u <- ReadsAt(c, s) :: EvalSym(c, u) == EvalSym(d, u)
    requires EvalSym(c, s) == EvalSym(d, s) || (c.modulesVal == d.modulesVal && c.rank == d.rank)
    ensures EvalSym(c, s) == EvalSym(d, s) && ReadsAt(c, s) == ReadsAt(d, s)
  {
    hide EvalSym, Compute, ReadsOf;
    EvalUnfold(c, s);
    ReadsDecide(s.typ, c.modulesVal, c.defs(s), UserOf(c, s), All(c), All(d));
    if EvalSym(c, s) != EvalSym(d, s) {
      EvalUnfold(d, s);
    }
  }

  /** A user value outside such a set changes nothing in it. */
  lemma {:induction false} KnownUnchanged(c: Config, d: Config, known: set<Sym>, s: Sym)
    requires c.defs == d.defs && c.rank == d.rank && Acyclic(c.defs, c.rank) && c.modulesVal == d.modulesVal
    requires forall t <- known :: ReadsKnown(c, known, t) && UserOf(c, t) == UserOf(d, t)
    requires KnownIn(known, s)
    ensures EvalSym(c, s) == EvalSym(d, s) && ReadsKnown(d, known, s)
    decreases c.rank(s)
  {
    hide EvalSym, UserOf, Compute, ReadsOf;
    if s.Type().Unknown? {
      EvalIdle(c, s);
      EvalIdle(d, s);
    } else {
      forall u <- ReadsAt(c, s)
        ensures EvalSym(c, u) == EvalSym(d, u)
      {
        ReadsBelow(c, s, u);
        KnownUnchanged(c, d, known, u);
      }
      SameReads(c, d, s);
    }
  }
}
