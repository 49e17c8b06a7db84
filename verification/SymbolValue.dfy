/**
  The value of a symbol in terms of the values of what its definition mentions.
 */
module SymbolValue {
  import opened Expressions
  import opened Evaluation
  import opened Numbers
  import V = Visibility

  /** The k-th default is the first one whose condition is not n. */
  ghost predicate FirstActive(defaults: seq<Default>, k: nat, env: Env) {
    && k < |defaults| && ValOpt(defaults[k].cond, env) != NO
    && forall j :: 0 <= j < k ==> ValOpt(defaults[j].cond, env) == NO
  }

  ghost predicate NoneActive(defaults: seq<Default>, env: Env) {
    forall j :: 0 <= j < |defaults| ==> ValOpt(defaults[j].cond, env) == NO
  }

  ghost predicate FirstRangeAt(ranges: seq<Range>, k: nat, env: Env) {
    && k < |ranges| && ValOpt(ranges[k].cond, env) != NO
    && forall j :: 0 <= j < k ==> ValOpt(ranges[j].cond, env) == NO
  }

  lemma {:induction false} FirstDefaultAt(defaults: seq<Default>, k: nat, env: Env)
    ensures FirstActive(defaults, k, env) ==> FirstDefault(defaults, env) == Some(defaults[k])
    ensures NoneActive(defaults, env) ==> FirstDefault(defaults, env) == None
  {
    hide ValOpt;
    if defaults != [] && ValOpt(defaults[0].cond, env) == NO {
      if FirstActive(defaults, k, env) {
        assert defaults[1..][k - 1] == defaults[k];
        assert FirstActive(defaults[1..], k - 1, env);
      }
      FirstDefaultAt(defaults[1..], if k > 0 then k - 1 else 0, env);
    }
  }

  lemma {:induction false} FirstRangeIs(ranges: seq<Range>, k: nat, env: Env)
    ensures FirstRangeAt(ranges, k, env) ==> FirstRange(ranges, env) == Some(ranges[k])
    ensures (forall j :: 0 <= j < |ranges| ==> ValOpt(ranges[j].cond, env) == NO) ==> FirstRange(ranges, env) == None
  {
    hide ValOpt;
    if ranges != [] && ValOpt(ranges[0].cond, env) == NO {
      if FirstRangeAt(ranges, k, env) {
        assert ranges[1..][k - 1] == ranges[k];
        assert FirstRangeAt(ranges[1..], k - 1, env);
      }
      FirstRangeIs(ranges[1..], if k > 0 then k - 1 else 0, env);
    }
  }

  function Smaller(a: Tri, b: Tri): Tri {
    if a < b then a else b
  }

  function Larger(a: Tri, b: Tri): Tri {
    if a < b then b else a
  }

  /** A negation exchanges y and n and keeps m; && is the smaller value and || the
      larger one. */
  lemma ConnectiveValues(l: Expr, r: Expr, env: Env)
    ensures Val(Bin(OpAnd, l, r), env) == Smaller(Val(l, env), Val(r, env))
    ensures Val(Bin(OpOr, l, r), env) == Larger(Val(l, env), Val(r, env))
    ensures Val(Not(l), env) == if Val(l, env) == NO then YES else if Val(l, env) == YES then NO else MOD
  {
  }

  /** What the defaults of a bool or tristate give. */
  lemma DefaultIs(defaults: seq<Default>, k: nat, env: Env)
    ensures FirstActive(defaults, k, env) ==>
      DefaultOf(defaults, env) == Smaller(Val(defaults[k].value, env), ValOpt(defaults[k].cond, env))
    ensures NoneActive(defaults, env) ==> DefaultOf(defaults, env) == NO
  {
    hide Val, ValOpt, FirstDefault;
    FirstDefaultAt(defaults, k, env);
  }

  /** Has the symbol no m of its own: a bool, or a tristate without modules? */
  predicate TwoValued(c: Config, s: Sym) {
    s.Type().Boolean? || (s.Type().Tristate? && c.modulesVal == NO)
  }

  /** m becomes y where there is no m, or where y is implied. */
  ghost function Raised(c: Config, s: Sym, t: Tri): Tri {
    if t == MOD && (TwoValued(c, s) || EvalSym(c, s).implied == YES) then YES else t
  }

  /** A default in effect: the smaller of its value and its condition, but at least what
      implies and what selects the symbol. */
  lemma DefaultedValue(c: Config, s: Sym, k: nat)
    requires Acyclic(c.defs, c.rank) && s.IsTri() && (EvalSym(c, s).visible == NO || s !in c.user)
    requires FirstActive(c.defs(s).defaults, k, EnvOf(All(c)))
    ensures var st, d, env := EvalSym(c, s), c.defs(s).defaults[k], EnvOf(All(c));
      st.curr.tri == Raised(c, s,
        Larger(Smaller(Val(d.value, env), ValOpt(d.cond, env)), Larger(st.implied, st.revDep)))
  {
    hide EvalSym, VisibleIn, DirDepIn, RevDepIn, ImpliedIn, Val, ValOpt;
    EvalUnfold(c, s);
    FirstDefaultAt(c.defs(s).defaults, k, EnvOf(All(c)));
  }

  /** Without one: what implies and what selects it. */
  lemma UndefaultedValue(c: Config, s: Sym)
    requires Acyclic(c.defs, c.rank) && s.IsTri() && (EvalSym(c, s).visible == NO || s !in c.user)
    requires NoneActive(c.defs(s).defaults, EnvOf(All(c)))
    ensures var st := EvalSym(c, s); st.curr.tri == Raised(c, s, Larger(st.implied, st.revDep))
  {
    hide EvalSym, VisibleIn, DirDepIn, RevDepIn, ImpliedIn, Val, ValOpt;
    EvalUnfold(c, s);
    FirstDefaultAt(c.defs(s).defaults, 0, EnvOf(All(c)));
  }

  /** A visible user value: cut to the visibility, but at least what selects it; what
      implies it does not count. */
  lemma UserValue(c: Config, s: Sym)
    requires Acyclic(c.defs, c.rank) && s.IsTri() && EvalSym(c, s).visible != NO && s in c.user
    ensures var st := EvalSym(c, s);
      st.curr.tri == Raised(c, s, Larger(Smaller(c.user[s].tri, st.visible), st.revDep))
  {
    hide EvalSym, VisibleIn, DirDepIn, RevDepIn, ImpliedIn, DefaultTri;
    EvalUnfold(c, s);
  }

  /** The limits: a missing dependency is y, a missing select or imply n, and without
      its dependencies nothing is implied. */
  lemma LimitValues(c: Config, s: Sym)
    requires Acyclic(c.defs, c.rank) && !s.Type().Unknown?
    ensures var st, def, env := EvalSym(c, s), c.defs(s), EnvOf(All(c));
      var cut := (t: Tri) => if t == MOD && TwoValued(c, s) then YES else t;
      && st.dirDep == (if def.dirDep.None? then YES else cut(Val(def.dirDep.value, env)))
      && st.revDep == (if def.revDep.None? then NO else cut(Val(def.revDep.value, env)))
      && st.implied == (if def.implied.None? || st.dirDep == NO then NO else cut(Val(def.implied.value, env)))
  {
    hide EvalSym, VisibleIn, TriIn, TextIn, Val;
    EvalUnfold(c, s);
  }

  /** Visible as far as the best prompt; only a tristate, and only with modules, can
      be visible as m. */
  lemma VisibleValue(c: Config, s: Sym, k: nat)
    requires Acyclic(c.defs, c.rank) && !s.Type().Unknown?
    ensures var prompts, env, visible := c.defs(s).prompts, EnvOf(All(c)), EvalSym(c, s).visible;
      && (visible == NO <==> forall j :: 0 <= j < |prompts| ==> ValOpt(prompts[j], env) == NO)
      && (k < |prompts| && (forall j :: 0 <= j < |prompts| ==> ValOpt(prompts[j], env) <= ValOpt(prompts[k], env)) ==>
        var best := ValOpt(prompts[k], env);
        visible == if best == MOD && !(s.Type().Tristate? && c.modulesVal != NO) then YES else best)
  {
    hide EvalSym, DirDepIn, RevDepIn, ImpliedIn, TriIn, TextIn, ValOpt;
    EvalUnfold(c, s);
    var prompts, env := c.defs(s).prompts, EnvOf(All(c));
    var vals := PromptVals(prompts, env);
    assert forall j :: 0 <= j < |prompts| ==> vals[j] == ValOpt(prompts[j], env);
    if vals != [] {
      var m :| 0 <= m < |vals| && vals[m] == V.MaxOf(vals);
    }
  }

  // ---------- Ints, hexes and strings ----------

  /** What a text symbol has before its range is applied. */
  ghost predicate IsRaw(c: Config, s: Sym, raw: string) {
    var st, defaults, env := EvalSym(c, s), c.defs(s).defaults, EnvOf(All(c));
    if st.visible != NO && s in c.user then raw == c.user[s].text
    else
      && (NoneActive(defaults, env) ==> raw == "")
      && forall k: nat :: FirstActive(defaults, k, env) ==>
          raw == if defaults[k].value.Symbol? then EvalSym(c, defaults[k].value.sym).curr.text else ""
  }

  lemma RawIs(c: Config, s: Sym)
    requires Acyclic(c.defs, c.rank) && !s.Type().Unknown? && !s.IsTri()
    ensures IsRaw(c, s, RawTextIn(c.defs(s), EvalSym(c, s).visible, UserOf(c, s), All(c)))
  {
    hide EvalSym, ValOpt, FirstDefault, EnvOf;
    var defaults, env := c.defs(s).defaults, EnvOf(All(c));
    FirstDefaultAt(defaults, 0, env);
    forall k: nat | FirstActive(defaults, k, env)
      ensures FirstDefault(defaults, env) == Some(defaults[k])
    {
      FirstDefaultAt(defaults, k, env);
    }
  }

  /** The number that a bound stands for: read in its own base if it is an int or a
      hex, else in that of the symbol. */
  ghost function Bound(c: Config, s: Sym, bound: Sym): int {
    var hex := bound.Type().Hex? || (!bound.Type().Int? && s.Type().Hex?);
    StrToLL(if hex then 16 else 10, EvalSym(c, bound).curr.text)
  }

  /** Without an active range the raw text; with one the raw text if its number lies in
      the range, else the bound that it misses, printed. */
  lemma TextValue(c: Config, s: Sym, raw: string, k: nat)
    requires Acyclic(c.defs, c.rank) && !s.Type().Unknown? && !s.IsTri() && IsRaw(c, s, raw)
    ensures var st, ranges, env := EvalSym(c, s), c.defs(s).ranges, EnvOf(All(c));
      && st.curr.tri == NO
      && (s.Type().String? || (forall j :: 0 <= j < |ranges| ==> ValOpt(ranges[j].cond, env) == NO) ==>
        st.curr.text == raw)
      && (!s.Type().String? && FirstRangeAt(ranges, k, env) ==>
        var v := StrToLL(if s.Type().Hex? then 16 else 10, raw);
        var lo, hi := Bound(c, s, ranges[k].lo), Bound(c, s, ranges[k].hi);
        var bound := if v < lo then lo else hi;
        st.curr.text == if lo <= v <= hi then raw else if s.Type().Hex? then PrintHex(bound) else PrintInt(bound))
  {
    hide EvalSym, ValOpt, FirstRange, EnvOf, StrToLL, PrintInt, PrintHex, FirstRangeAt, IsRaw;
    hide VisibleIn, DirDepIn, RevDepIn, ImpliedIn, RawTextIn;
    EvalUnfold(c, s);
    RawIs(c, s);
    RawUnique(c, s, raw, RawTextIn(c.defs(s), EvalSym(c, s).visible, UserOf(c, s), All(c)));
    FirstRangeIs(c.defs(s).ranges, k, EnvOf(All(c)));
  }

  lemma RawUnique(c: Config, s: Sym, a: string, b: string)
    requires IsRaw(c, s, a) && IsRaw(c, s, b)
    ensures a == b
  {
    hide EvalSym, ValOpt;
    SomeOrNone(c.defs(s).defaults, EnvOf(All(c)));
  }

  lemma {:induction false} SomeOrNone(defaults: seq<Default>, env: Env)
    ensures NoneActive(defaults, env) || exists k: nat :: FirstActive(defaults, k, env)
  {
    hide ValOpt;
    if defaults != [] {
      if ValOpt(defaults[0].cond, env) != NO {
        assert FirstActive(defaults, 0, env);
      } else {
        SomeOrNone(defaults[1..], env);
        if k: nat :| FirstActive(defaults[1..], k, env) {
          assert FirstActive(defaults, k + 1, env);
        } else {
          forall j | 0 <= j < |defaults|
            ensures ValOpt(defaults[j].cond, env) == NO
          {
            assert j > 0 ==> defaults[j] == defaults[1..][j - 1];
          }
        }
      }
    }
  }

  // ---------- What an assignment accepts ----------

  /** Of a symbol that is visible above what selects it, the values accepted are those
      up to its visibility that it would really get; m for a tristate visible as y, say,
      unless it is selected or implied to y.  No other symbol accepts a new value. */
  lemma AcceptedIff(c: Config, s: Sym, val: Tri)
    requires Acyclic(c.defs, c.rank) && s.IsTri()
    ensures var st := EvalSym(c, s);
      Accepts(s.typ, c.modulesVal, st, val) <==>
        || st.curr.tri == val
        || (st.visible > st.revDep && val <= st.visible && AfterAssign(s.typ, c.modulesVal, st, val) == val)
  {
    hide EvalSym, VisibleIn, DirDepIn, RevDepIn, ImpliedIn, DefaultTri;
    EvalUnfold(c, s);
    LimitsRounded(s.typ, c.modulesVal, c.defs(s), EnvOf(All(c)));
  }

  lemma MAccepted(c: Config, s: Sym)
    requires Acyclic(c.defs, c.rank) && s.Type().Tristate? && c.modulesVal != NO
    requires var st := EvalSym(c, s); st.visible == YES && st.revDep != YES && st.implied != YES
    ensures Accepts(s.typ, c.modulesVal, EvalSym(c, s), MOD)
  {
    hide EvalSym;
    AcceptedIff(c, s, MOD);
  }
}
