/**
  Choice groups: sym_calc_choice, sym_choice_default and the value of a choice
  and of its members.
 */
module Choices {
  import opened Expressions
  import E = Evaluation
  import V = Visibility

  /** A prompt that is only m does not show a tristate member of a choice that is y. */
  function PromptTri(typ: SymType, choiceTri: Tri, t: Tri): Tri {
    if typ.Tristate? && t == MOD && choiceTri == YES then NO else t
  }

  function MemberPrompts(typ: SymType, prompts: seq<Option<Expr>>, choiceTri: Tri, env: Env): seq<Tri> {
    seq(|prompts|, k requires 0 <= k < |prompts| => PromptTri(typ, choiceTri, ValOpt(prompts[k], env)))
  }

  function MemberVisible(typ: SymType, prompts: seq<Option<Expr>>, choiceTri: Tri, modulesVal: Tri, env: Env): Tri {
    V.VisibleOf(typ, modulesVal, MemberPrompts(typ, prompts, choiceTri, env))
  }

  /** While the choice is y, a member is either fully visible or not at all. */
  lemma VisibleTwoValued(typ: SymType, prompts: seq<Option<Expr>>, modulesVal: Tri, env: Env)
    ensures MemberVisible(typ, prompts, YES, modulesVal, env) != MOD
  {
    var vals := MemberPrompts(typ, prompts, YES, env);
    assert typ.Tristate? ==> forall k :: 0 <= k < |vals| ==> vals[k] != MOD;
  }

  /** A prompt as it counts for a member: one that is only m does not for a tristate,
      while the choice is y. */
  predicate Counts(typ: SymType, choiceTri: Tri, t: Tri) {
    t == YES || (t == MOD && !(typ.Tristate? && choiceTri == YES))
  }

  /** A member is visible if a prompt counts: as y if one is y or the member can only
      be y or n, else as m. */
  lemma MemberVisibleIff(typ: SymType, prompts: seq<Option<Expr>>, choiceTri: Tri, modulesVal: Tri, env: Env)
    ensures var visible := MemberVisible(typ, prompts, choiceTri, modulesVal, env);
      var counts := exists p <- prompts :: Counts(typ, choiceTri, ValOpt(p, env));
      && (visible == NO <==> !counts)
      && (visible == YES <==>
          counts && (!typ.Tristate? || modulesVal == NO || exists p <- prompts :: ValOpt(p, env) == YES))
  {
    hide ValOpt, PromptTri, V.MaxOf;
    var vals := MemberPrompts(typ, prompts, choiceTri, env);
    forall p <- prompts
      ensures PromptTri(typ, choiceTri, ValOpt(p, env)) in vals
    {
      var k :| 0 <= k < |prompts| && prompts[k] == p;
      assert vals[k] == PromptTri(typ, choiceTri, ValOpt(p, env));
    }
    forall v <- vals
      ensures exists p <- prompts :: v == PromptTri(typ, choiceTri, ValOpt(p, env))
    {
      var k :| 0 <= k < |vals| && vals[k] == v;
      assert prompts[k] in prompts;
    }
    PromptCounts(typ, choiceTri);
    LargestOf(vals);
  }

  lemma PromptCounts(typ: SymType, choiceTri: Tri)
    ensures forall t: Tri :: Counts(typ, choiceTri, t) <==> PromptTri(typ, choiceTri, t) != NO
    ensures forall t: Tri :: PromptTri(typ, choiceTri, t) == YES <==> t == YES
  {
  }

  lemma LargestOf(vals: seq<Tri>)
    ensures V.MaxOf(vals) == NO <==> forall v <- vals :: v == NO
    ensures V.MaxOf(vals) == YES <==> YES in vals
  {
    if vals != [] {
      assert V.MaxOf(vals) in vals;
    }
    forall v <- vals
      ensures v <= V.MaxOf(vals)
    {
      var k :| 0 <= k < |vals| && vals[k] == v;
    }
  }

  /** What decides the value of a member. */
  datatype MemberView = MemberView(typ: SymType, visible: Tri, user: Option<Tri>, default: Tri)

  /** The value of a member; a fully visible tristate member counts as a bool. */
  function MemberValue(v: MemberView, chosen: bool, modulesVal: Tri): Tri {
    if v.visible == YES then TriOf(chosen)
    else
      var t := if v.visible != NO && v.user.Some? then Ap(OpAnd, v.user.value, v.visible) else v.default;
      E.Rounded(v.typ, modulesVal, t)
  }

  class Member {
    const typ: SymType
    const prompts: seq<Option<Expr>>
    const defaults: seq<E.Default>
    /** The value assigned by the user, and whether it counts. */
    var hasUser: bool
    var userTri: Tri
    var visible: Tri
    var tri: Tri

    constructor (typ: SymType, prompts: seq<Option<Expr>>, defaults: seq<E.Default>)
      requires typ.Boolean? || typ.Tristate?
      ensures this.typ == typ && this.prompts == prompts && this.defaults == defaults
      ensures !hasUser && visible == NO && tri == NO
    {
      this.typ, this.prompts, this.defaults := typ, prompts, defaults;
      hasUser, userTri, visible, tri := false, NO, NO, NO;
    }

    function View(env: Env): MemberView
      reads this
    {
      MemberView(typ, visible, if hasUser then Some(userTri) else None, E.DefaultOf(defaults, env))
    }

    /** sym_calc_visibility of a member, which ends after the prompts. */
    method CalcVisibility(choiceTri: Tri, modulesVal: Tri, env: Env)
      modifies this`visible
      ensures visible == MemberVisible(typ, prompts, choiceTri, modulesVal, env)
    {
      hide V.MaxOf;
      var max: Tri := NO;
      ghost var vals := MemberPrompts(typ, prompts, choiceTri, env);
      V.MaxOfSnoc([], NO);
      for i := 0 to |prompts|
        invariant max == V.MaxOf(vals[..i])
      {
        var t := ValOpt(prompts[i], env);
        if typ.Tristate? && t == MOD && choiceTri == YES {
          t := NO;
        }
        V.MaxOfSnoc(vals[..i], vals[i]);
        assert vals[..i + 1] == vals[..i] + [vals[i]];
        max := Ap(OpOr, max, t);
      }
      assert vals[..|prompts|] == vals;
      if max == MOD && (!typ.Tristate? || modulesVal == NO) {
        max := YES;
      }
      visible := max;
    }

    /** sym_calc_value of a member; `isChosen` tells whether the choice holds it. */
    method CalcValue(isChosen: bool, choiceTri: Tri, modulesVal: Tri, env: Env)
      modifies this`visible, this`tri
      ensures visible == MemberVisible(typ, prompts, choiceTri, modulesVal, env)
      ensures tri == MemberValue(View(env), isChosen, modulesVal)
    {
      hide MemberVisible, Val, ValOpt, E.FirstDefault;
      CalcVisibility(choiceTri, modulesVal, env);
      var newTri: Tri := NO;
      if visible == YES {
        newTri := if isChosen then YES else NO;
      } else if visible != NO && hasUser {
        newTri := Ap(OpAnd, userTri, visible);
      } else {
        var d := E.FirstDefault(defaults, env);
        if d.Some? {
          newTri := Ap(OpAnd, Val(d.value.value, env), ValOpt(d.value.cond, env));
        }
      }
      if newTri == MOD && (typ.Boolean? || (typ.Tristate? && (visible == YES || modulesVal == NO))) {
        newTri := YES;
      }
      tri := newTri;
    }
  }

  /** May a member take val?  (sym_tristate_within_range and the test before it) */
  predicate MemberAccepts(typ: SymType, visible: Tri, tri: Tri, modulesVal: Tri, val: Tri) {
    || tri == val
    || ((typ.Boolean? || typ.Tristate?) && visible == YES && val == YES)
    || (typ.Boolean? && visible == MOD && val == NO)
    || (typ.Tristate? && visible == MOD && val <= (if modulesVal == NO then NO else MOD))
  }

  /** Accepted are the value held, y for a fully visible member, and for one visible as m
      what it would get on its own, up to m. */
  lemma MemberAcceptsIff(typ: SymType, visible: Tri, tri: Tri, modulesVal: Tri, val: Tri, default: Tri)
    requires typ.Boolean? || typ.Tristate?
    ensures MemberAccepts(typ, visible, tri, modulesVal, val) <==>
      || tri == val
      || (visible == YES && val == YES)
      || (visible == MOD && val <= MOD && MemberValue(MemberView(typ, visible, Some(val), default), false, modulesVal) == val)
  {
  }

  /** A default of the choice: under a condition, a member. */
  datatype ChoiceDefault = ChoiceDefault(cond: Option<Expr>, member: Member)

  class Choice {
    const typ: SymType
    const def: E.SymDef
    const members: seq<Member>
    const defaults: seq<ChoiceDefault>
    /** Was the choice or one of its members set by the user, and which member? */
    var hasUser: bool
    var userTri: Tri
    var pick: Member?
    var tri: Tri
    var chosen: Member?

    constructor (typ: SymType, def: E.SymDef, members: seq<Member>, defaults: seq<ChoiceDefault>)
      ensures this.typ == typ && this.def == def && this.members == members && this.defaults == defaults
      ensures !hasUser && pick == null && tri == NO && chosen == null
    {
      this.typ, this.def, this.members, this.defaults := typ, def, members, defaults;
      hasUser, userTri, pick, tri, chosen := false, NO, null, NO, null;
    }

    /** Whatever can be chosen is a member. */
    ghost predicate Closed()
      reads this`pick
    {
      && (forall d <- defaults :: d.member in members)
      && (pick == null || pick in members)
    }

    ghost predicate Applies(k: nat, env: Env)
      requires k < |defaults|
      reads defaults[k].member`visible
    {
      ValOpt(defaults[k].cond, env) != NO && defaults[k].member.visible != NO
    }

    /** The first default that applies, else the first visible member, if any. */
    ghost predicate IsDefault(r: Member?, env: Env)
      requires forall d <- defaults :: d.member in members
      reads (set m <- members)`visible
    {
      if exists k: nat :: k < |defaults| && Applies(k, env) then
        exists k: nat :: k < |defaults| && Applies(k, env) && r == defaults[k].member
          && forall j: nat :: j < k ==> !Applies(j, env)
      else if exists k: nat :: k < |members| && members[k].visible != NO then
        exists k: nat :: k < |members| && members[k].visible != NO && r == members[k]
          && forall j: nat :: j < k ==> members[j].visible == NO
      else r == null
    }

    /** The member the user picked if it is visible, else the default. */
    ghost predicate IsChosen(r: Member?, env: Env)
      requires Closed()
      reads this`pick, (set m <- members)`visible
    {
      if pick != null && pick.visible != NO then r == pick else IsDefault(r, env)
    }

    /** sym_choice_default */
    method Default(env: Env) returns (r: Member?)
      requires Closed()
      ensures IsDefault(r, env)
    {
      for i := 0 to |defaults|
        invariant forall j: nat :: j < i ==> !Applies(j, env)
      {
        assert defaults[i] in defaults;
        if ValOpt(defaults[i].cond, env) == NO {
          continue;
        }
        if defaults[i].member.visible != NO {
          assert Applies(i, env);
          return defaults[i].member;
        }
      }
      for i := 0 to |members|
        invariant forall j: nat :: j < i ==> members[j].visible == NO
      {
        if members[i].visible != NO {
          return members[i];
        }
      }
      r := null;
    }

    /** The visibility of every member, as it is for the choice at choiceTri. */
    ghost predicate AllVisible(choiceTri: Tri, modulesVal: Tri, env: Env)
      reads (set m <- members)`visible
    {
      forall m <- members :: m.visible == MemberVisible(m.typ, m.prompts, choiceTri, modulesVal, env)
    }

    /** sym_calc_choice: the choice counts as set by the user only as long as all
        its visible members do. */
    method CalcChoice(modulesVal: Tri, env: Env) returns (r: Member?)
      requires Closed()
      modifies this`hasUser, this`tri, (set m <- members)`visible
      ensures AllVisible(old(tri), modulesVal, env) && IsChosen(r, env)
      ensures hasUser <==> old(hasUser) && forall m <- members :: m.visible != NO ==> m.hasUser
      ensures tri == if r == null then NO else old(tri)
    {
      hide MemberVisible;
      var flag := hasUser;
      for i := 0 to |members|
        invariant forall j: nat :: j < i ==>
          members[j].visible == MemberVisible(members[j].typ, members[j].prompts, tri, modulesVal, env)
        invariant flag <==> hasUser && forall j: nat :: j < i && members[j].visible != NO ==> members[j].hasUser
        invariant tri == old(tri) && hasUser == old(hasUser)
      {
        members[i].CalcVisibility(tri, modulesVal, env);
        if members[i].visible != NO {
          flag := flag && members[i].hasUser;
        }
      }
      hasUser := flag;
      r := pick;
      if r == null || r.visible == NO {
        r := Default(env);
        if r == null {
          tri := NO;
        }
      }
    }

    /** The value of the choice before it is known whether anything can be chosen. */
    function OwnTri(modulesVal: Tri, env: Env): Tri
      reads this`hasUser, this`userTri
    {
      var visible := E.VisibleIn(typ, modulesVal, def, env);
      E.Finish(typ, modulesVal, if visible != NO && hasUser then Ap(OpAnd, userTri, visible) else NO,
        E.RevDepIn(typ, modulesVal, def, env), E.ImpliedIn(typ, modulesVal, def, env))
    }

    /** sym_calc_value of the choice: neither its defaults nor what implies it
        count towards its value. */
    method CalcValue(modulesVal: Tri, env: Env)
      requires Closed()
      modifies this`hasUser, this`tri, this`chosen, (set m <- members)`visible
      ensures var own := old(OwnTri(modulesVal, env)); own != YES ==> tri == own && chosen == null
      ensures old(OwnTri(modulesVal, env)) == YES ==> AllVisible(YES, modulesVal, env) && IsChosen(chosen, env)
      ensures old(OwnTri(modulesVal, env)) == YES ==> tri == if chosen == null then NO else YES
      ensures old(OwnTri(modulesVal, env)) == YES ==>
        (hasUser <==> old(hasUser) && forall m <- members :: m.visible != NO ==> m.hasUser)
      ensures old(OwnTri(modulesVal, env)) != YES ==> hasUser == old(hasUser)
    {
      hide MemberVisible, E.VisibleIn, E.RevDepIn, E.ImpliedIn, IsChosen;
      var visible := E.VisibleIn(typ, modulesVal, def, env);
      var revDep := E.RevDepIn(typ, modulesVal, def, env);
      var implied := E.ImpliedIn(typ, modulesVal, def, env);
      var newTri: Tri := NO;
      if visible != NO && hasUser {
        newTri := Ap(OpAnd, userTri, visible);
      }
      newTri := Ap(OpOr, newTri, revDep);
      if newTri == MOD && (E.GetType(typ, modulesVal).Boolean? || implied == YES) {
        newTri := YES;
      }
      tri, chosen := newTri, null;
      if newTri == YES {
        chosen := CalcChoice(modulesVal, env);
      }
    }

    lemma ChosenVisible(r: Member?, env: Env)
      requires Closed() && IsChosen(r, env)
      ensures r == null ==> forall m <- members :: m.visible == NO
      ensures r != null ==> r in members && r.visible != NO
    {
      assert forall d <- defaults :: d.member in members;
      if r == null {
        forall m <- members
          ensures m.visible == NO
        {
          var k :| 0 <= k < |members| && members[k] == m;
          assert members[k].visible == NO;
        }
      }
    }

    /** Is there no m for the choice: a bool, or no modules, or is y implied? */
    ghost predicate OnlyYes(modulesVal: Tri, env: Env) {
      || typ.Boolean? || (typ.Tristate? && modulesVal == NO)
      || (def.implied.Some? && ValOpt(def.dirDep, env) != NO && Val(def.implied.value, env) == YES)
    }

    /** What selects the choice, or the user's value as far as the choice is visible,
        whichever is larger. */
    ghost function Wanted(modulesVal: Tri, env: Env): Tri
      reads this`hasUser, this`userTri
    {
      var r := if def.revDep.None? then NO else Val(def.revDep.value, env);
      var visible := E.VisibleIn(typ, modulesVal, def, env);
      var u := if !hasUser then NO else if userTri < visible then userTri else visible;
      if r < u then u else r
    }

    lemma OwnIsWanted(modulesVal: Tri, env: Env)
      ensures var wanted := Wanted(modulesVal, env);
        OwnTri(modulesVal, env) == if wanted == MOD && OnlyYes(modulesVal, env) then YES else wanted
    {
      hide Val, ValOpt, V.VisibleOf;
    }

    ghost predicate Shown(modulesVal: Tri, env: Env) {
      exists m <- members :: MemberVisible(m.typ, m.prompts, YES, modulesVal, env) != NO
    }

    /** The value of a member that is not fully visible: the user's as far as it is
        visible, else its default; y for m where it has no m. */
    ghost predicate OnItsOwn(m: Member, modulesVal: Tri, env: Env)
      reads m
    {
      var t := if m.visible != NO && m.hasUser then (if m.userTri < m.visible then m.userTri else m.visible)
               else E.DefaultOf(m.defaults, env);
      m.tri == if t == MOD && (m.typ.Boolean? || (m.typ.Tristate? && modulesVal == NO)) then YES else t
    }

    /** The choice and then all its members.  The choice has the value wanted, y for m
        where it has no m, but n instead of y if no member can be seen.  If it is y,
        exactly one visible member is y: the user's pick if that is visible, else the
        default; all other fully visible members are n.  Those that are not fully
        visible, as while the choice is m, have values of their own. */
    method CalcGroup(modulesVal: Tri, env: Env)
      requires Closed()
      modifies this`hasUser, this`tri, this`chosen, (set m <- members)`visible, (set m <- members)`tri
      ensures var wanted := old(Wanted(modulesVal, env));
        var own := if wanted == MOD && OnlyYes(modulesVal, env) then YES else wanted;
        tri == if own == YES && !Shown(modulesVal, env) then NO else own
      ensures AllVisible(tri, modulesVal, env)
      ensures tri == YES ==>
        chosen != null && chosen in members && IsChosen(chosen, env) && chosen.visible == YES && chosen.tri == YES
      ensures tri != YES ==> chosen == null
      ensures forall m <- members :: m.visible == YES && m != chosen ==> m.tri == NO
      ensures forall m <- members :: m.visible != YES ==> OnItsOwn(m, modulesVal, env)
      ensures tri == YES && old(hasUser) && (forall m <- members :: m.visible != NO ==> m.hasUser) ==> hasUser
    {
      hide MemberVisible, MemberValue, IsChosen, OwnTri, Wanted, OnlyYes, OnItsOwn, E.DefaultOf;
      OwnIsWanted(modulesVal, env);
      CalcValue(modulesVal, env);
      if old(OwnTri(modulesVal, env)) == YES {
        ChosenVisible(chosen, env);
        assert forall m <- members :: m.visible == MemberVisible(m.typ, m.prompts, YES, modulesVal, env);
      }
      assert tri == if old(OwnTri(modulesVal, env)) == YES && !Shown(modulesVal, env) then NO else old(OwnTri(modulesVal, env));
      label counted:
      for i := 0 to |members|
        invariant tri == old@counted(tri) && chosen == old@counted(chosen) && hasUser == old@counted(hasUser)
        invariant tri == YES ==> IsChosen(chosen, env) && AllVisible(YES, modulesVal, env)
        invariant tri == YES ==> forall m <- members :: m.visible == old@counted(m.visible)
        invariant forall j :: 0 <= j < i ==> Calculated(members[j], modulesVal, env)
      {
        members[i].CalcValue(members[i] == chosen, tri, modulesVal, env);
      }
      forall m <- members
        ensures Calculated(m, modulesVal, env)
      {
        var k :| 0 <= k < |members| && members[k] == m;
      }
      MembersCalculated(modulesVal, env);
      if tri == YES {
        VisibleTwoValued(chosen.typ, chosen.prompts, modulesVal, env);
      }
    }

    ghost predicate Calculated(m: Member, modulesVal: Tri, env: Env)
      reads this`chosen, this`tri, m
    {
      && m.visible == MemberVisible(m.typ, m.prompts, tri, modulesVal, env)
      && m.tri == MemberValue(m.View(env), m == chosen, modulesVal)
    }

    lemma MembersCalculated(modulesVal: Tri, env: Env)
      requires forall m <- members :: Calculated(m, modulesVal, env)
      ensures AllVisible(tri, modulesVal, env)
      ensures forall m <- members :: m.visible == YES ==> m.tri == TriOf(m == chosen)
      ensures forall m <- members :: m.visible != YES ==> OnItsOwn(m, modulesVal, env)
    {
      hide MemberVisible, E.DefaultOf;
    }

    /** sym_set_tristate_value of a member: y makes it the pick, and the choice and
        everything visible in it set by the user. */
    method SetMember(m: Member, val: Tri, modulesVal: Tri) returns (ok: bool)
      requires m in members && Closed()
      modifies this`hasUser, this`pick, (set x <- members)`hasUser, m`userTri
      ensures Closed()
      ensures ok <==> MemberAccepts(m.typ, m.visible, m.tri, modulesVal, val)
      ensures !ok ==> unchanged(this) && forall x <- members :: unchanged(x)
      ensures ok ==> m.hasUser && m.userTri == val
      ensures ok && val == YES ==> pick == m && hasUser && forall x <- members :: x.visible != NO ==> x.hasUser
      ensures val != YES ==> unchanged(this) && forall x <- members :: x != m ==> unchanged(x)
    {
      if m.tri != val && !WithinRange(m, val, modulesVal) {
        return false;
      }
      m.hasUser := true;
      if val == YES {
        pick := m;
        hasUser := true;
        for i := 0 to |members|
          invariant m.hasUser && forall j :: 0 <= j < i && members[j].visible != NO ==> members[j].hasUser
          invariant hasUser && pick == m
        {
          if members[i].visible != NO {
            members[i].hasUser := true;
          }
        }
      }
      m.userTri := val;
      ok := true;
    }

    /** sym_tristate_within_range of a member; nothing selects or implies it. */
    predicate WithinRange(m: Member, val: Tri, modulesVal: Tri)
      reads m`visible
    {
      var asBool := m.typ.Boolean? || (m.typ.Tristate? && (m.visible == YES || modulesVal == NO));
      if m.visible == NO || !(m.typ.Boolean? || m.typ.Tristate?) || (asBool && val == MOD) then false
      else if m.visible == YES then val == YES
      else val <= m.visible
    }

    /** An assignment and the recalculation after it: a member accepted as y is the
        chosen one whenever the choice is y and the member fully visible, and the
        choice still counts as set by the user. */
    method PickAndCalc(m: Member, modulesVal: Tri, env: Env) returns (ok: bool)
      requires m in members && Closed()
      modifies this`hasUser, this`pick, this`tri, this`chosen
      modifies (set x <- members)`hasUser, (set x <- members)`visible, (set x <- members)`tri, m`userTri
      ensures ok <==> old(MemberAccepts(m.typ, m.visible, m.tri, modulesVal, YES))
      ensures ok && tri == YES && m.visible == YES ==>
        chosen == m && m.tri == YES && forall x <- members :: x != m && x.visible == YES ==> x.tri == NO
    {
      ok := SetMember(m, YES, modulesVal);
      if ok {
        CalcGroup(modulesVal, env);
      }
    }
  }
}
