/**
  The memoising evaluator: sym_calc_value and what it calls, with the calculated
  states and the valid marks kept between calls, and sym_set_tristate_value.
 */
module Evaluator {
  import opened Expressions
  import opened Evaluation
  import opened Reads
  import opened Compare
  import opened Ranges
  import opened Numbers
  import V = Visibility

  /** What the front ends ask for. */
  datatype Request = Ask(s: Sym) | Assign(s: Sym, val: Tri) | ClearAll

  class SymbolTable {
    const defs: Sym -> SymDef
    /** The symbol that turns modules on; n where there is none. */
    const modules: Sym
    /** Why the dependencies are acyclic, and all that the modules symbol needs. */
    ghost const rank: Sym -> nat
    ghost const cone: set<Sym>

    var user: map<Sym, User>
    /** The user values that the valid symbols were calculated from. */
    ghost var seen: map<Sym, User>
    var valid: set<Sym>
    var states: map<Sym, SymState>
    var modulesVal: Tri

    constructor (defs: Sym -> SymDef, modules: Sym, ghost rank: Sym -> nat, ghost cone: set<Sym>)
      ensures this.defs == defs && this.modules == modules && this.rank == rank && this.cone == cone
      ensures user == seen == map[] && valid == {} && states == map[] && modulesVal == NO
    {
      this.defs, this.modules, this.rank, this.cone := defs, modules, rank, cone;
      user, valid, states, modulesVal := map[], {}, map[], NO;
      seen := map[];
    }

    /** Dependencies are acyclic, and the modules symbol depends on no tristate. */
    ghost predicate WellFounded() {
      && Acyclic(defs, rank) && Closed(defs, cone) && modules in cone
      && forall t <- cone :: !t.Type().Tristate? && (t == modules || rank(t) < rank(modules))
    }

    function State(s: Sym): SymState
      reads this`states
    {
      if s.IsTriConst() then Idle(ConstText(s), if s.SymYes? then YES else if s.SymMod? then MOD else NO)
      else if s in states then states[s]
      else Idle("", NO)
    }

    /** y, m and n are always valid. */
    predicate Known(s: Sym)
      reads this`valid
    {
      s.IsTriConst() || s in valid
    }

    /** What the valid symbols reflect. */
    ghost function Current(): Config
      reads this`seen, this`modulesVal
    {
      Config(defs, seen, modulesVal, rank)
    }

    /** What the user has entered. */
    ghost function Entered(): Config
      reads this`user, this`modulesVal
    {
      Config(defs, user, modulesVal, rank)
    }

    ghost function World(): Env
      reads this`seen, this`modulesVal
    {
      EnvOf(All(Current()))
    }

    ghost predicate ModulesDone(busy: set<Sym>)
      reads this`valid
    {
      Known(modules) && modules !in busy
    }

    ghost predicate AllKnown(ts: set<Sym>)
      reads this`valid
    {
      forall t <- ts :: Known(t)
    }

    /** Every valid symbol that is not being calculated holds its value, and all
        that was looked at for it is valid as well. */
    ghost predicate CacheRight(busy: set<Sym>)
      reads this
    {
      forall t: Sym :: Known(t) && t !in busy ==>
        State(t) == EvalSym(Current(), t) && ReadsKnown(Current(), valid, t)
    }

    /** The valid symbol t has been assigned the y it had by default, although a user
        value counts only as m. */
    ghost predicate Lags(t: Sym)
      reads this
    {
      && t in valid && t.IsTri() && State(t).curr.tri == YES && TooHigh(State(t), YES)
      && t in user && user[t].tri == YES
    }

    ghost predicate Consistent(busy: set<Sym>)
      reads this
    {
      && CacheRight(busy)
      && (forall t: Sym :: t.Type().Unknown? ==> State(t) == Idle(State(t).curr.text, State(t).curr.tri))
      && (forall t: Sym :: UserOf(Entered(), t) != UserOf(Current(), t) ==> t !in busy && Lags(t))
      && (modules !in busy ==> modulesVal == State(modules).curr.tri)
      && (ModulesDone(busy) || valid <= cone)
    }

    /** What a calculation leaves alone. */
    twostate predicate Advanced(busy: set<Sym>, except: set<Sym>)
      reads this
    {
      && modulesVal == old(modulesVal)
      && old(valid) <= valid && (Known(modules) <==> old(Known(modules)))
      && (forall t: Sym :: old(Known(t)) && t !in except ==> State(t) == old(State(t)))
      && (!old(ModulesDone(busy)) && old(valid) <= cone ==> valid <= cone)
    }

    /** May these symbols be asked for now? Either the modules value is settled,
        or they belong to what it depends on. */
    ghost predicate Askable(ts: set<Sym>, busy: set<Sym>, b: nat)
      reads this`valid
    {
      && (forall t <- ts :: rank(t) < b)
      && (forall x <- busy :: b <= rank(x))
      && (ModulesDone(busy) || forall t <- ts :: t in cone && t != modules)
    }

    lemma WorldIs()
      ensures World() == EnvOf(All(Current()))
    {
    }

    lemma WorldTri(s: Sym)
      ensures World().tri(s) == EvalSym(Current(), s).curr.tri
    {
      hide EvalSym;
    }

    lemma WorldOrd(a: Sym, b: Sym)
      ensures World().ord(a, b) == CompareValues(
        a.Type(), TextOf(a, EvalSym(Current(), a).curr), b.Type(), TextOf(b, EvalSym(Current(), b).curr))
    {
      hide EvalSym, CompareValues, TextOf;
    }

    method CalcExpr(e: Expr, ghost busy: set<Sym>, ghost b: nat) returns (r: Tri)
      requires WellFounded() && Consistent(busy) && Askable(Syms(e), busy, b)
      modifies this`valid, this`states, this`modulesVal
      ensures Consistent(busy) && Advanced(busy, {})
      ensures AllKnown(Syms(e))
      ensures r == Val(e, World())
      decreases b, 1, e
    {
      hide EvalSym, World, CompareValues, TextOf, Acyclic, Closed, Consistent;
      match e
      case Symbol(s) =>
        WorldTri(s);
        CalcValue(s, busy);
        ValidIsRight(s, busy);
        r := State(s).curr.tri;
      case Not(a) =>
        r := CalcExpr(a, busy, b);
        r := TriNot(r);
      case Bin(op, left, right) =>
        var v1 := CalcExpr(left, busy, b);
        var v2 := CalcExpr(right, busy, b);
        r := Ap(op, v1, v2);
      case Comp(rel, left, right) =>
        WorldOrd(left, right);
        CalcValue(left, busy);
        CalcValue(right, busy);
        var text1 := StringValue(left, busy);
        var text2 := StringValue(right, busy);
        r := TriOf(Holds(rel, CompareValues(left.Type(), text1, right.Type(), text2)));
    }

    /** sym_get_string_value of a calculated symbol. */
    method StringValue(s: Sym, ghost busy: set<Sym>) returns (text: string)
      requires WellFounded() && Consistent(busy) && Known(s) && s !in busy
      requires ModulesDone(busy) || s in cone
      ensures text == TextOf(s, EvalSym(Current(), s).curr)
    {
      if s.IsTri() {
        match State(s).curr.tri
        case 0 => text := "n";
        case 1 =>
          ValueBounds(Current(), s);
          assert ModulesDone(busy) && State(modules).curr.tri != NO;
          text := if State(modules).curr.tri == NO then "n" else "m";
        case 2 => text := "y";
      } else {
        text := State(s).curr.text;
      }
    }

    method CalcOpt(e: Option<Expr>, ghost busy: set<Sym>, ghost b: nat) returns (r: Tri)
      requires WellFounded() && Consistent(busy) && Askable(SymsOpt(e), busy, b)
      modifies this`valid, this`states, this`modulesVal
      ensures Consistent(busy) && Advanced(busy, {})
      ensures AllKnown(SymsOpt(e))
      ensures r == ValOpt(e, World())
      decreases b, 2
    {
      r := YES;
      if e.Some? {
        r := CalcExpr(e.value, busy, b);
      }
    }

    lemma ValidIsRight(s: Sym, busy: set<Sym>)
      requires Consistent(busy) && Known(s) && s !in busy
      ensures State(s) == EvalSym(Current(), s) && ReadsKnown(Current(), valid, s)
    {
    }

    /** All that the definition of s mentions may be asked for while s is busy. */
    ghost predicate DefAskable(s: Sym, busy: set<Sym>)
      reads this`valid
    {
      && s in busy && (forall x <- busy :: rank(s) <= rank(x))
      && !s.Type().Unknown?
      && (ModulesDone(busy) || s in cone)
    }

    lemma DefParts(s: Sym, busy: set<Sym>)
      requires WellFounded() && DefAskable(s, busy)
      ensures forall p <- defs(s).prompts :: Askable(SymsOpt(p), busy, rank(s))
      ensures forall d <- defs(s).defaults ::
        Askable(SymsOpt(d.cond), busy, rank(s)) && Askable(Syms(d.value), busy, rank(s))
      ensures forall r <- defs(s).ranges ::
        && Askable(SymsOpt(r.cond), busy, rank(s))
        && Askable({r.lo}, busy, rank(s)) && Askable({r.hi}, busy, rank(s))
      ensures Askable(SymsOpt(defs(s).dirDep), busy, rank(s))
      ensures Askable(SymsOpt(defs(s).revDep), busy, rank(s))
      ensures Askable(SymsOpt(defs(s).implied), busy, rank(s))
    {
      var def := defs(s);
      forall t: Sym | Consults(def, t)
        ensures rank(t) < rank(s) && (ModulesDone(busy) || (t in cone && t != modules))
      {
      }
    }

    /** sym_get_default_prop: the first default whose condition is not n. */
    method FindDefault(s: Sym, ghost busy: set<Sym>) returns (r: Option<Default>, cond: Tri)
      requires WellFounded() && Consistent(busy) && DefAskable(s, busy)
      modifies this`valid, this`states, this`modulesVal
      ensures Consistent(busy) && Advanced(busy, {})
      ensures AllKnown(DefaultConds(defs(s).defaults, World()))
      ensures r == FirstDefault(defs(s).defaults, World())
      ensures r.Some? ==> cond == ValOpt(r.value.cond, World())
      decreases rank(s), 3
    {
      hide EvalSym, World, Acyclic, Closed, ValOpt, Syms, Consistent, Consults;
      var todo := defs(s).defaults;
      r, cond := None, NO;
      while todo != []
        invariant Consistent(busy) && Advanced(busy, {}) && DefAskable(s, busy)
        invariant forall d <- todo :: d in defs(s).defaults
        invariant FirstDefault(todo, World()) == FirstDefault(defs(s).defaults, World())
        invariant forall t <- DefaultConds(defs(s).defaults, World()) :: Known(t) || t in DefaultConds(todo, World())
        decreases |todo|
      {
        DefParts(s, busy);
        cond := CalcOpt(todo[0].cond, busy, rank(s));
        if cond != NO {
          return Some(todo[0]), cond;
        }
        todo := todo[1..];
      }
    }

    /** sym_get_range_prop. */
    method FindRange(s: Sym, ghost busy: set<Sym>) returns (r: Option<Range>)
      requires WellFounded() && Consistent(busy) && DefAskable(s, busy)
      modifies this`valid, this`states, this`modulesVal
      ensures Consistent(busy) && Advanced(busy, {})
      ensures AllKnown(RangeConds(defs(s).ranges, World()))
      ensures r == FirstRange(defs(s).ranges, World())
      decreases rank(s), 3
    {
      hide EvalSym, World, Acyclic, Closed, ValOpt, Syms, Consistent, Consults;
      var todo := defs(s).ranges;
      while todo != []
        invariant Consistent(busy) && Advanced(busy, {}) && DefAskable(s, busy)
        invariant forall r <- todo :: r in defs(s).ranges
        invariant FirstRange(todo, World()) == FirstRange(defs(s).ranges, World())
        invariant forall t <- RangeConds(defs(s).ranges, World()) :: Known(t) || t in RangeConds(todo, World())
        decreases |todo|
      {
        DefParts(s, busy);
        var cond := CalcOpt(todo[0].cond, busy, rank(s));
        if cond != NO {
          return Some(todo[0]);
        }
        todo := todo[1..];
      }
      r := None;
    }

    /** The largest value among the prompts' conditions. */
    method CalcPrompts(s: Sym, ghost busy: set<Sym>) returns (tri: Tri)
      requires WellFounded() && Consistent(busy) && DefAskable(s, busy)
      modifies this`valid, this`states, this`modulesVal
      ensures Consistent(busy) && Advanced(busy, {})
      ensures AllKnown(PromptSyms(defs(s).prompts))
      ensures tri == V.MaxOf(PromptVals(defs(s).prompts, World()))
      decreases rank(s), 3
    {
      hide EvalSym, World, Acyclic, Closed, ValOpt, Syms, SymsOpt, PromptSyms, PromptVals, MaxUpTo, Consistent, Consults, Askable;
      tri := NO;
      var prompts := defs(s).prompts;
      PromptsEnds(prompts, World());
      for i := 0 to |prompts|
        invariant Consistent(busy) && Advanced(busy, {}) && DefAskable(s, busy)
        invariant tri == MaxUpTo(prompts, World(), i) && AllKnown(PromptSyms(prompts[..i]))
      {
        DefParts(s, busy);
        assert prompts[i] in prompts;
        var t := CalcOpt(prompts[i], busy, rank(s));
        PromptsNext(prompts, World(), i);
        tri := Ap(OpOr, tri, t);
      }
    }

    /** A symbol that is not valid, or not yet, is calculated from what the user has
        entered. */
    lemma BusyAgrees(s: Sym, busy: set<Sym>)
      requires Consistent(busy) && (s in busy || !Known(s))
      ensures UserOf(Entered(), s) == UserOf(Current(), s)
    {
    }

    /** Writes to the symbol that is being calculated. */
    method SetState(s: Sym, state: SymState, ghost busy: set<Sym>)
      requires Consistent(busy) && s in busy && !s.Type().Unknown?
      modifies this`states
      ensures State(s) == state && forall t: Sym :: t != s ==> State(t) == old(State(t))
      ensures Consistent(busy) && Advanced(busy, {s})
    {
      states := states[s := state];
    }

    /** A limit other than the visibility; `otherwise` where the symbol has none. */
    method CalcLimit(s: Sym, e: Option<Expr>, otherwise: Tri, ghost busy: set<Sym>) returns (tri: Tri)
      requires WellFounded() && Consistent(busy) && DefAskable(s, busy) && Askable(SymsOpt(e), busy, rank(s))
      modifies this`valid, this`states, this`modulesVal
      ensures Consistent(busy) && Advanced(busy, {})
      ensures AllKnown(SymsOpt(e))
      ensures tri == Rounded(s.typ, modulesVal, if e.None? then otherwise else Val(e.value, World()))
      decreases rank(s), 3
    {
      hide EvalSym, World, Acyclic, Closed, Syms;
      tri := otherwise;
      if e.Some? {
        tri := CalcExpr(e.value, busy, rank(s));
      }
      if tri == MOD && GetType(s.typ, modulesVal).Boolean? {
        tri := YES;
      }
    }

    method CalcVisible(s: Sym, ghost busy: set<Sym>)
      requires WellFounded() && Consistent(busy) && DefAskable(s, busy) && Known(s)
      modifies this`valid, this`states, this`modulesVal
      ensures Consistent(busy) && Advanced(busy, {s})
      ensures AllKnown(PromptSyms(defs(s).prompts))
      ensures State(s) == old(State(s)).(visible := VisibleIn(s.typ, modulesVal, defs(s), World()))
      decreases rank(s), 4
    {
      hide EvalSym, World, Acyclic, Closed, V.MaxOf, PromptVals, Consistent, Consults;
      var tri := CalcPrompts(s, busy);
      if tri == MOD && (!s.typ.Tristate? || modulesVal == NO) {
        tri := YES;
      }
      SetState(s, State(s).(visible := tri), busy);
    }

    /** The dependencies that limit the value from below. */
    method CalcDeps(s: Sym, ghost busy: set<Sym>)
      requires WellFounded() && Consistent(busy) && DefAskable(s, busy) && Known(s)
      modifies this`valid, this`states, this`modulesVal
      ensures Consistent(busy) && Advanced(busy, {s})
      ensures AllKnown(SymsOpt(defs(s).dirDep)) && AllKnown(SymsOpt(defs(s).revDep))
      ensures State(s) == old(State(s)).(dirDep := DirDepIn(s.typ, modulesVal, defs(s), World()),
        revDep := RevDepIn(s.typ, modulesVal, defs(s), World()))
      decreases rank(s), 4
    {
      hide EvalSym, World, Acyclic, Closed, Syms, Rounded, Consistent, Consults;
      DefParts(s, busy);
      var tri := CalcLimit(s, defs(s).dirDep, YES, busy);
      SetState(s, State(s).(dirDep := tri), busy);
      DefParts(s, busy);
      tri := CalcLimit(s, defs(s).revDep, NO, busy);
      SetState(s, State(s).(revDep := tri), busy);
    }

    method CalcImplied(s: Sym, ghost busy: set<Sym>)
      requires WellFounded() && Consistent(busy) && DefAskable(s, busy) && Known(s)
      requires State(s).dirDep == DirDepIn(s.typ, modulesVal, defs(s), World())
      modifies this`valid, this`states, this`modulesVal
      ensures Consistent(busy) && Advanced(busy, {s})
      ensures State(s).dirDep != NO ==> AllKnown(SymsOpt(defs(s).implied))
      ensures State(s) == old(State(s)).(implied := ImpliedIn(s.typ, modulesVal, defs(s), World()))
      decreases rank(s), 4
    {
      hide EvalSym, World, Acyclic, Closed, Syms, DirDepIn, Consistent, Consults;
      DefParts(s, busy);
      var e := if State(s).dirDep != NO then defs(s).implied else None;
      var tri := CalcLimit(s, e, NO, busy);
      SetState(s, State(s).(implied := tri), busy);
    }

    method CalcVisibility(s: Sym, ghost busy: set<Sym>)
      requires WellFounded() && Consistent(busy) && DefAskable(s, busy) && Known(s)
      modifies this`valid, this`states, this`modulesVal
      ensures Consistent(busy) && Advanced(busy, {s})
      ensures AllKnown(LimitSyms(defs(s), State(s).dirDep))
      ensures var env := World();
        State(s) == SymState(old(State(s)).curr,
          VisibleIn(s.typ, modulesVal, defs(s), env), DirDepIn(s.typ, modulesVal, defs(s), env),
          RevDepIn(s.typ, modulesVal, defs(s), env), ImpliedIn(s.typ, modulesVal, defs(s), env))
      decreases rank(s), 5
    {
      hide EvalSym, World, Acyclic, Closed, VisibleIn, DirDepIn, RevDepIn, ImpliedIn;
      CalcVisible(s, busy);
      CalcDeps(s, busy);
      CalcImplied(s, busy);
    }

    /** What the active default gives a bool or tristate. */
    method CalcDefault(s: Sym, ghost busy: set<Sym>) returns (tri: Tri)
      requires WellFounded() && Consistent(busy) && DefAskable(s, busy) && s.IsTri()
      modifies this`valid, this`states, this`modulesVal
      ensures Consistent(busy) && Advanced(busy, {})
      ensures AllKnown(DefaultSyms(s.typ, defs(s).defaults, World()))
      ensures tri == DefaultOf(defs(s).defaults, World())
      decreases rank(s), 4
    {
      hide EvalSym, World, Acyclic, Closed, ValOpt, Syms, FirstDefault, DefaultConds, Consistent, Consults;
      tri := NO;
      var d, cond := FindDefault(s, busy);
      if d.Some? {
        DefParts(s, busy);
        var v := CalcExpr(d.value.value, busy, rank(s));
        tri := Ap(OpAnd, v, cond);
      }
    }

    method CalcTri(s: Sym, ghost busy: set<Sym>) returns (tri: Tri)
      requires WellFounded() && Consistent(busy) && DefAskable(s, busy) && Known(s) && s.IsTri()
      requires State(s).visible == VisibleIn(s.typ, modulesVal, defs(s), World())
      requires State(s).revDep == RevDepIn(s.typ, modulesVal, defs(s), World())
      requires State(s).implied == ImpliedIn(s.typ, modulesVal, defs(s), World())
      modifies this`valid, this`states, this`modulesVal
      ensures Consistent(busy) && Advanced(busy, {})
      ensures AllKnown(ValueSyms(s.typ, defs(s), UserOf(Current(), s), All(Current()), old(State(s)).visible))
      ensures tri == TriIn(s.typ, modulesVal, defs(s), UserOf(Current(), s), World())
      decreases rank(s), 5
    {
      hide EvalSym, World, Acyclic, Closed, VisibleIn, RevDepIn, ImpliedIn, Consistent, Consults, DefaultSyms, DefaultOf;
      var visible, revDep, implied := State(s).visible, State(s).revDep, State(s).implied;
      BusyAgrees(s, busy);
      WorldIs();
      tri := NO;
      if visible != NO && s in user {
        tri := Ap(OpAnd, user[s].tri, visible);
      } else {
        tri := CalcDefault(s, busy);
        if implied != NO {
          tri := Ap(OpOr, tri, implied);
        }
      }
      tri := Ap(OpOr, tri, revDep);
      if tri == MOD && (GetType(s.typ, modulesVal).Boolean? || implied == YES) {
        tri := YES;
      }
    }

    /** sym_get_range_val. */
    method RangeBound(t: Sym, base: nat, ghost s: Sym, ghost busy: set<Sym>) returns (n: int)
      requires base == 10 || base == 16
      requires WellFounded() && Consistent(busy) && Askable({t}, busy, rank(s))
      modifies this`valid, this`states, this`modulesVal
      ensures Consistent(busy) && Advanced(busy, {})
      ensures Known(t)
      ensures n == RangeVal(t, All(Current()), base) && InLongLong(n)
      decreases rank(s), 0
    {
      hide EvalSym, World, Acyclic, Closed, StrToLL;
      assert t in {t};
      CalcValue(t, busy);
      n := StrToLL(BaseOf(t.Type(), base), State(t).curr.text);
    }

    method CalcText(s: Sym, ghost busy: set<Sym>) returns (text: string)
      requires WellFounded() && Consistent(busy) && DefAskable(s, busy) && Known(s) && !s.IsTri()
      requires State(s).visible == VisibleIn(s.typ, modulesVal, defs(s), World())
      modifies this`valid, this`states, this`modulesVal
      ensures Consistent(busy) && Advanced(busy, {})
      ensures old(State(s)).visible == NO || UserOf(Current(), s).None? ==>
        AllKnown(DefaultSyms(s.typ, defs(s).defaults, EnvOf(All(Current()))))
      ensures text == RawTextIn(defs(s), State(s).visible, UserOf(Current(), s), All(Current()))
      decreases rank(s), 4
    {
      hide EvalSym, Acyclic, Closed, ValOpt, FirstDefault, VisibleIn, EnvOf, Consults;
      BusyAgrees(s, busy);
      text := "";
      if State(s).visible != NO && s in user {
        text := user[s].text;
      } else {
        var d, _ := FindDefault(s, busy);
        if d.Some? && d.value.value.Symbol? {
          DefParts(s, busy);
          var ds := d.value.value.sym;
          assert ds in Syms(d.value.value);
          CalcValue(ds, busy);
          text := State(ds).curr.text;
        }
      }
    }

    /** The text of s within the range r: the second bound is looked at only
        if the first one holds. */
    method TextInRange(s: Sym, r: Range, ghost busy: set<Sym>) returns (text: string)
      requires WellFounded() && Consistent(busy) && DefAskable(s, busy) && Known(s)
      requires (s.typ.Int? || s.typ.Hex?) && r in defs(s).ranges
      modifies this`valid, this`states, this`modulesVal
      ensures Consistent(busy) && Advanced(busy, {})
      ensures AllKnown(BoundSyms(s.typ, r, old(State(s)).curr.text, All(Current())))
      ensures var look, base := All(Current()), BaseOf(s.typ, 10);
        text == Clamp(s.typ, old(State(s)).curr.text, RangeVal(r.lo, look, base), RangeVal(r.hi, look, base))
      decreases rank(s), 4
    {
      hide EvalSym, Acyclic, Closed, StrToLL, RangeVal, PrintInt, PrintHex, Consults, Consistent, State;
      text := State(s).curr.text;
      var base := if s.typ.Int? then 10 else 16;
      var val := StrToLL(base, text);
      DefParts(s, busy);
      var val2 := RangeBound(r.lo, base, s, busy);
      if val >= val2 {
        DefParts(s, busy);
        val2 := RangeBound(r.hi, base, s, busy);
        if val <= val2 {
          return;
        }
      }
      text := if s.typ.Int? then PrintInt(val2) else PrintHex(val2);
    }

    /** sym_validate_range on the value just stored. */
    method ValidateRange(s: Sym, ghost busy: set<Sym>)
      requires WellFounded() && Consistent(busy) && DefAskable(s, busy) && Known(s)
      requires s.typ.Int? || s.typ.Hex?
      modifies this`valid, this`states, this`modulesVal
      ensures Consistent(busy) && Advanced(busy, {s})
      ensures AllKnown(RangeSyms(s.typ, defs(s).ranges, old(State(s)).curr.text, All(Current())))
      ensures var look, raw := All(Current()), old(State(s).curr.text);
        var r := FirstRange(defs(s).ranges, EnvOf(look));
        State(s) == old(State(s)).(curr := Value(
          if r.None? then raw
          else
            var lo, hi := RangeVal(r.value.lo, look, BaseOf(s.typ, 10)), RangeVal(r.value.hi, look, BaseOf(s.typ, 10));
            Clamp(s.typ, raw, lo, hi),
          old(State(s).curr.tri)))
      decreases rank(s), 5
    {
      hide EvalSym, Acyclic, Closed, ValOpt, FirstRange, EnvOf, Clamp, RangeVal, Consults, Consistent;
      var r := FindRange(s, busy);
      if r.Some? {
        var text := TextInRange(s, r.value, busy);
        SetState(s, State(s).(curr := Value(text, State(s).curr.tri)), busy);
      }
    }

    /** What is stored for an int, hex or string symbol. */
    method CalcTextValue(s: Sym, ghost busy: set<Sym>)
      requires WellFounded() && Consistent(busy) && DefAskable(s, busy) && Known(s) && !s.IsTri()
      requires State(s).visible == VisibleIn(s.typ, modulesVal, defs(s), World())
      modifies this`valid, this`states, this`modulesVal
      ensures Consistent(busy) && Advanced(busy, {s})
      ensures AllKnown(ValueSyms(s.typ, defs(s), UserOf(Current(), s), All(Current()), old(State(s)).visible))
      ensures State(s) == old(State(s)).(curr :=
        Value(TextIn(s.typ, defs(s), old(State(s).visible), UserOf(Current(), s), All(Current())), NO))
      decreases rank(s), 6
    {
      hide EvalSym, Acyclic, Closed, VisibleIn, RawTextIn, FirstRange, RangeVal, EnvOf, Consults, Consistent, Askable, Clamp;
      hide DefaultSyms, RangeSyms;
      SetState(s, State(s).(curr := Value("", NO)), busy);
      var text := CalcText(s, busy);
      SetState(s, State(s).(curr := Value(text, NO)), busy);
      if s.typ.Int? || s.typ.Hex? {
        ValidateRange(s, busy);
      }
    }

    /** The value of a symbol of a known type, already marked valid. */
    method CalcKnownType(s: Sym, ghost busy: set<Sym>)
      requires WellFounded() && Consistent(busy) && DefAskable(s, busy) && Known(s)
      modifies this`valid, this`states, this`modulesVal
      ensures Consistent(busy) && Advanced(busy, {s})
      ensures AllKnown(ReadsOf(s.typ, defs(s), UserOf(Current(), s), All(Current()), State(s)))
      ensures State(s) == Compute(s.typ, modulesVal, defs(s), UserOf(Current(), s), All(Current()))
      decreases rank(s), 7
    {
      hide EvalSym, Acyclic, Closed, VisibleIn, DirDepIn, RevDepIn, ImpliedIn, TriIn, TextIn, EnvOf;
      hide Consults, Consistent, Askable, LimitSyms, ValueSyms;
      CalcVisibility(s, busy);
      if s.IsTri() {
        SetState(s, State(s).(curr := Value("n", NO)), busy);
        var tri := CalcTri(s, busy);
        SetState(s, State(s).(curr := Value("n", tri)), busy);
      } else {
        CalcTextValue(s, busy);
      }
    }

    /** A symbol is marked valid as soon as its calculation begins. */
    method MarkValid(s: Sym, ghost busy: set<Sym>)
      requires Consistent(busy) && !Known(s) && s !in busy && (ModulesDone(busy) || s in cone)
      modifies this`valid
      ensures valid == old(valid) + {s} && Consistent(busy + {s})
    {
      hide EvalSym, ReadsAt;
      BusyAgrees(s, busy);
      valid := valid + {s};
    }

    /** The calculation proper of a symbol that is marked. */
    method CalcMarked(s: Sym, ghost busy: set<Sym>)
      requires WellFounded() && Consistent(busy) && Known(s) && !s.IsTriConst()
      requires s in busy && forall x <- busy :: rank(s) <= rank(x)
      requires ModulesDone(busy) || s in cone
      modifies this`valid, this`states, this`modulesVal
      ensures Consistent(busy) && Advanced(busy, {s})
      ensures State(s) == EvalSym(Current(), s) && ReadsKnown(Current(), valid, s)
      decreases rank(s), 8
    {
      hide EvalSym, World, Acyclic, Closed, Compute, Consistent, ReadsOf;
      if s.Type().Unknown? {
        EvalIdle(Current(), s);
        NameState(s, busy);
      } else {
        CalcKnownType(s, busy);
        EvalUnfold(Current(), s);
      }
    }

    /** A symbol of no type has its name as its value. */
    method NameState(s: Sym, ghost busy: set<Sym>)
      requires Consistent(busy) && s in busy && s.Type().Unknown? && !s.IsTriConst()
      modifies this`states
      ensures State(s) == Idle(ConstText(s), NO)
      ensures Consistent(busy) && Advanced(busy, {s})
    {
      hide EvalSym, ReadsKnown;
      states := states[s := State(s).(curr := Value(ConstText(s), NO))];
    }

    /** The calculation proper, up to the value of the modules symbol. */
    method CalcUnmarked(s: Sym, ghost busy: set<Sym>) returns (oldval: Value)
      requires WellFounded() && Consistent(busy) && !Known(s)
      requires s !in busy && forall x <- busy :: rank(s) < rank(x)
      requires ModulesDone(busy) || s in cone
      modifies this`valid, this`states, this`modulesVal
      ensures Known(s) && State(s) == EvalSym(Current(), s) && oldval == old(State(s).curr)
      ensures ReadsKnown(Current(), valid, s)
      ensures s != modules ==> Consistent(busy) && Advanced(busy, {})
      ensures s == modules ==> Consistent(busy + {s}) && modulesVal == old(modulesVal) && valid <= cone
      decreases rank(s), 9
    {
      hide EvalSym, World, Acyclic, Closed, Compute, ReadsKnown;
      oldval := State(s).curr;
      MarkValid(s, busy);
      CalcMarked(s, busy + {s});
    }

    lemma ConeReads(before: Config, now: Config, t: Sym)
      requires WellFounded() && Known(t) && valid <= cone
      requires before.defs == now.defs == defs && before.rank == now.rank == rank && before.user == now.user
      ensures EvalSym(before, t) == EvalSym(now, t)
      ensures ReadsKnown(before, valid, t) ==> ReadsKnown(now, valid, t)
    {
      hide EvalSym, ReadsOf;
      if t.IsTriConst() {
        EvalIdle(before, t);
        EvalIdle(now, t);
      } else {
        ConeUnchanged(before, now, cone, t, rank(t));
        if !t.Type().Unknown? {
          forall u <- ReadsAt(before, t)
            ensures EvalSym(before, u) == EvalSym(now, u)
          {
            ReadsBelow(before, t, u);
            ConeUnchanged(before, now, cone, u, rank(u));
          }
          SameReads(before, now, t);
        }
      }
    }

    /** A new modules value reaches nothing that has been calculated so far. */
    twostate lemma ModulesReachNothing(busy: set<Sym>)
      requires WellFounded() && old(Consistent(busy + {modules})) && modules !in busy
      requires unchanged(`valid, `states, `user, `seen) && old(valid <= cone)
      requires old(State(modules) == EvalSym(Current(), modules) && ReadsKnown(Current(), valid, modules))
      requires modulesVal == State(modules).curr.tri && Known(modules)
      ensures Consistent(busy)
    {
      hide EvalSym, Acyclic, Closed, ReadsAt;
      var before, now := old(Current()), Current();
      forall t: Sym | Known(t)
        ensures EvalSym(before, t) == EvalSym(now, t)
        ensures ReadsKnown(before, valid, t) ==> ReadsKnown(now, valid, t)
      {
        ConeReads(before, now, t);
      }
      assert CacheRight(busy);
      assert forall t: Sym :: UserOf(Entered(), t) != UserOf(Current(), t) ==> old(Lags(t)) && Lags(t) && t !in busy;
    }

    /** sym_calc_value: a valid symbol is left alone; any other one is calculated,
        after everything it consults. */
    method CalcValue(s: Sym, ghost busy: set<Sym>)
      requires WellFounded() && Consistent(busy)
      requires s !in busy && forall x <- busy :: rank(s) < rank(x)
      requires ModulesDone(busy) || s in cone
      modifies this`valid, this`states, this`modulesVal
      ensures Consistent(busy) && Known(s)
      ensures s != modules || old(Known(s)) ==> Advanced(busy, {})
      decreases rank(s), 10
    {
      if Known(s) {
        return;
      }
      hide EvalSym, World, Acyclic, Closed;
      var oldval := CalcUnmarked(s, busy);
      if s == modules {
        label done:
        if oldval != State(s).curr {
          modulesVal := State(modules).curr.tri;
        }
        ModulesReachNothing@done(busy);
      }
    }

    /** What holds between calls even when nothing is valid. */
    ghost predicate Settled()
      reads this
    {
      && (forall t: Sym :: t.Type().Unknown? ==> State(t) == Idle(State(t).curr.text, State(t).curr.tri))
      && modulesVal == State(modules).curr.tri
    }

    /** sym_clear_all_valid. */
    method ClearAllValid()
      requires WellFounded() && Settled()
      modifies this`seen, this`valid, this`states, this`modulesVal
      ensures Consistent({}) && Known(modules) && seen == user
    {
      valid := {};
      seen := user;
      forall t: Sym | t.IsTriConst()
        ensures State(t) == EvalSym(Current(), t)
      {
        EvalIdle(Current(), t);
      }
      CalcValue(modules, {});
    }

    /** With a user value no more is looked at than without. */
    lemma AssignedReads(c: Config, d: Config, s: Sym)
      requires WellFounded() && s.IsTri() && s in d.user && c.defs == d.defs == defs && c.rank == d.rank == rank
      requires forall t: Sym :: EvalSym(c, t) == EvalSym(d, t)
      requires ReadsKnown(c, valid, s)
      ensures ReadsKnown(d, valid, s)
    {
      hide EvalSym, Compute, ReadsOf, Closed;
      EvalUnfold(c, s);
      ReadsDecide(s.typ, c.modulesVal, defs(s), UserOf(c, s), All(c), All(d));
      UserReadsLess(s.typ, defs(s), UserOf(c, s), UserOf(d, s), All(d), EvalSym(d, s));
    }

    /** Everything s consults is as it was before s got its new user value. */
    lemma AssignedBelow(c: Config, d: Config, s: Sym, val: Tri)
      requires WellFounded() && s.IsTri()
      requires c.defs == d.defs == defs && c.rank == d.rank == rank
      requires forall t: Sym :: t != s ==> UserOf(c, t) == UserOf(d, t)
      requires s in d.user && d.user[s].tri == val
      requires c.modulesVal == EvalSym(c, modules).curr.tri && d.modulesVal == EvalSym(d, modules).curr.tri
      ensures Assigned(c, d, s, val)
      ensures s !in cone ==> c.modulesVal == d.modulesVal
    {
      hide EvalSym;
      if s in cone {
        forall t: Sym | Consults(defs(s), t)
          ensures EvalSym(c, t) == EvalSym(d, t)
        {
          ConeUnchanged(c, d, cone, t, rank(s) - 1);
        }
      } else {
        ConeUnchanged(c, d, cone, modules, rank(modules));
        forall t: Sym | Consults(defs(s), t)
          ensures EvalSym(c, t) == EvalSym(d, t)
        {
          LowerUnchanged(c, d, t, rank(s));
        }
      }
    }

    /** No valid symbol lags. */
    ghost predicate Fresh()
      reads this
    {
      forall t: Sym :: !Lags(t)
    }

    lemma LagsTristate(t: Sym)
      requires WellFounded() && Consistent({}) && Lags(t)
      ensures t.Type().Tristate? && modulesVal != NO && t !in cone
    {
      hide EvalSym, Closed;
      EvalUnfold(Current(), t);
      LimitsRounded(t.typ, modulesVal, defs(t), World());
    }

    /** The modules value is right for what the user has entered. */
    lemma ModulesRight()
      requires WellFounded() && Consistent({}) && Known(modules)
      ensures modulesVal == EvalSym(Entered(), modules).curr.tri
    {
      hide EvalSym, Closed, Lags;
      forall t <- cone
        ensures UserOf(Current(), t) == UserOf(Entered(), t)
      {
        if UserOf(Current(), t) != UserOf(Entered(), t) {
          LagsTristate(t);
        }
      }
      ConeUnchanged(Current(), Entered(), cone, modules, rank(modules));
    }

    /** Exactly the lagging symbols were calculated from another user value than the
        one entered. */
    lemma LagsIff()
      requires WellFounded() && Consistent({})
      ensures forall t: Sym :: Lags(t) <==> UserOf(Entered(), t) != UserOf(Current(), t)
    {
      hide EvalSym, Closed, Acyclic;
      forall t: Sym | Lags(t)
        ensures UserOf(Entered(), t) != UserOf(Current(), t)
      {
        ValueBounds(Current(), t);
      }
    }

    /** The valid marks are right, that is every valid symbol has the value that
        evaluation gives it from what the user has entered, if and only if none lags. */
    lemma FreshIff()
      requires WellFounded() && Consistent({})
      ensures Fresh() <==> forall t: Sym :: Known(t) ==> State(t) == EvalSym(Entered(), t)
    {
      hide EvalSym, Closed, Acyclic;
      LagsIff();
      if Fresh() {
        forall t: Sym | Known(t)
          ensures State(t) == EvalSym(Entered(), t)
        {
          LowerUnchanged(Current(), Entered(), t, rank(t) + 1);
        }
      } else {
        var t :| Lags(t);
        ValueBounds(Entered(), t);
      }
    }

    // ---------- Setting the value a symbol seems to have ----------

    /** On a symbol that is not valid: no valid one has looked at it. */
    twostate lemma UnmarkedNoticed(s: Sym)
      requires WellFounded() && old(Consistent({})) && old(Known(modules)) && !Known(s)
      requires unchanged(`valid, `states, `modulesVal) && s in user
      requires forall t: Sym :: t != s ==> UserOf(Entered(), t) == UserOf(old(Entered()), t)
      requires seen == old(seen)[s := user[s]]
      ensures Consistent({})
    {
      hide EvalSym, Closed, ReadsAt;
      forall t: Sym | Known(t)
        ensures EvalSym(old(Current()), t) == EvalSym(Current(), t) && ReadsKnown(Current(), valid, t)
      {
        KnownUnchanged(old(Current()), Current(), valid, t);
      }
    }

    /** On a valid symbol: it keeps its state, if the value is not too high. */
    twostate lemma MarkedNoticed(s: Sym)
      requires WellFounded() && old(Consistent({})) && old(Known(modules)) && Known(s) && s.IsTri()
      requires unchanged(`valid, `states, `modulesVal) && s in user
      requires user[s].tri == State(s).curr.tri && !TooHigh(State(s), user[s].tri)
      requires forall t: Sym :: t != s ==> UserOf(Entered(), t) == UserOf(old(Entered()), t)
      requires seen == old(seen)[s := user[s]]
      ensures Consistent({})
    {
      hide EvalSym, Closed, ReadsOf;
      var c, d := old(Current()), Current();
      SameValueSame(c, d, s);
      forall t: Sym | Known(t)
        ensures ReadsKnown(d, valid, t)
      {
        if t == s {
          AssignedReads(c, d, s);
        } else if !t.Type().Unknown? {
          SameReads(c, d, t);
        }
      }
    }

    /** Setting the value that is kept drops no valid mark. */
    twostate lemma SameValueNoticed(s: Sym)
      requires WellFounded() && old(Consistent({})) && old(Known(modules)) && s.IsTri()
      requires unchanged(`valid, `states, `modulesVal)
      requires s in user && user[s].tri == State(s).curr.tri
      requires forall t: Sym :: t != s ==> UserOf(Entered(), t) == UserOf(old(Entered()), t)
      requires seen == if Known(s) && TooHigh(State(s), user[s].tri) then old(seen) else old(seen)[s := user[s]]
      ensures Consistent({})
      ensures forall t: Sym :: Lags(t) <==> old(Lags(t)) || (t == s && Known(s) && TooHigh(State(s), user[s].tri))
    {
      hide EvalSym, Closed, ReadsAt;
      if !Known(s) {
        UnmarkedNoticed(s);
      } else if !TooHigh(State(s), user[s].tri) {
        MarkedNoticed(s);
      }
    }

    /** What is accepted on a valid symbol, where none lags, is reached unless it is
        too high. */
    lemma FreshReaches(s: Sym, val: Tri)
      requires WellFounded() && Consistent({}) && Known(s) && Fresh() && s.IsTri()
      requires Accepts(s.typ, modulesVal, State(s), val)
      ensures Reaches(s.typ, modulesVal, EvalSym(Entered(), s), val) <==> !TooHigh(State(s), val)
    {
      hide EvalSym, Closed;
      FreshIff();
      AcceptedReaches(Entered(), s, val);
    }

    /** sym_set_tristate_value for a symbol outside choices.  It judges by the state
        kept from the last calculation, valid or not, and drops the valid marks only
        if the value kept is another one. */
    method SetTristateValue(s: Sym, val: Tri) returns (ok: bool)
      requires WellFounded() && Consistent({}) && Known(modules) && s.IsTri()
      modifies this`user, this`seen, this`valid, this`states, this`modulesVal
      ensures Consistent({}) && Known(modules)
      ensures ok <==> old(Accepts(s.typ, modulesVal, State(s), val))
      ensures !ok ==> user == old(user) && valid == old(valid) && states == old(states)
      ensures ok ==> s in user && user[s].tri == val
      ensures forall t: Sym :: t != s ==> UserOf(Entered(), t) == UserOf(old(Entered()), t)
      ensures ok ==>
        var before, after := EvalSym(old(Entered()), s), EvalSym(Entered(), s);
        && after == before.(curr := before.curr.(tri := AfterAssign(s.typ, old(modulesVal), before, val)))
        && (after.curr.tri == val <==> Reaches(s.typ, old(modulesVal), before, val))
      ensures ok && old(Known(s) && Fresh()) ==>
        (EvalSym(Entered(), s).curr.tri == val <==> !old(TooHigh(State(s), val)))
      ensures ok && old(State(s).curr.tri) != val ==> Fresh()
      ensures old(State(s).curr.tri) == val ==> valid == old(valid) && states == old(states)
      ensures ok && old(State(s).curr.tri) == val ==>
        forall t: Sym :: Lags(t) <==> old(Lags(t)) || (t == s && Known(s) && TooHigh(State(s), val))
      ensures !ok ==> seen == old(seen)
    {
      hide EvalSym, Closed, Acyclic, Consistent, Lags, AfterAssign, Reaches, SameBelow;
      label start:
      ghost var before := Entered();
      ModulesRight();
      if Known(s) && Fresh() && Accepts(s.typ, modulesVal, State(s), val) {
        FreshReaches(s, val);
      }
      var oldval := State(s).curr.tri;
      if oldval != val && !WithinRange(s.typ, modulesVal, State(s), val) {
        return false;
      }
      NowSettled();
      user := user[s := User(if s in user then user[s].text else "", val)];
      if oldval != val {
        ClearAllValid();
        LagsIff();
      } else {
        seen := if Known(s) && TooHigh(State(s), val) then seen else seen[s := user[s]];
        SameValueNoticed@start(s);
      }
      ok := true;
      ModulesRight();
      AssignedBelow(before, Entered(), s, val);
      EnteredValue(before, Entered(), s, val);
    }

    /** Any run of requests, from any state in which the cache is right: it stays right
        for what was last noticed of the user's values, and lags behind them only where
        y was entered. */
    method Run(requests: seq<Request>)
      requires WellFounded() && Consistent({}) && Known(modules)
      requires forall r <- requests :: r.Assign? ==> r.s.IsTri()
      modifies this`user, this`seen, this`valid, this`states, this`modulesVal
      ensures Consistent({}) && Known(modules)
      ensures Fresh() <==> forall t: Sym :: Known(t) ==> State(t) == EvalSym(Entered(), t)
      ensures forall t: Sym :: Lags(t) ==> old(Lags(t)) || Assign(t, YES) in requests
    {
      hide EvalSym, Consistent, WellFounded, Lags;
      LagsIff();
      for i := 0 to |requests|
        invariant Consistent({}) && Known(modules)
        invariant forall t: Sym :: Lags(t) <==> UserOf(Entered(), t) != UserOf(Current(), t)
        invariant forall t: Sym :: Lags(t) ==> old(Lags(t)) || Assign(t, YES) in requests[..i]
      {
        assert requests[i] in requests && requests[..i + 1] == requests[..i] + [requests[i]];
        match requests[i] {
          case Ask(s) => CalcValue(s, {});
          case ClearAll =>
            NowSettled();
            ClearAllValid();
          case Assign(s, val) =>
            var _ := SetTristateValue(s, val);
        }
        LagsIff();
      }
      FreshIff();
    }

    lemma NowSettled()
      requires Consistent({})
      ensures Settled()
    {
    }
  }
}
