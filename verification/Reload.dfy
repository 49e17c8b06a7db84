/**
  Writing a configuration and reading it back: which values survive, for symbols
  outside choices.
 */
module Reload {
  import opened Expressions
  import opened Evaluation
  import opened Ranges
  import opened Numbers
  import opened ConfigText
  import V = SymbolValue

  // ---------- What is written, and what is read back ----------

  /** SYMBOL_WRITE: is there a line for s? */
  ghost predicate Written(c: Config, s: Sym)
    requires !s.Type().Unknown?
  {
    var st, defaults := EvalSym(c, s), c.defs(s).defaults;
    var d := FirstDefault(defaults, EnvOf(All(c)));
    || st.visible != NO
    || (s.IsTri() && (st.revDep != NO || st.implied != NO || DefaultOf(defaults, EnvOf(All(c))) != NO))
    || (!s.IsTri() && d.Some? && d.value.value.Symbol?)
  }

  /** A bool or tristate has a line if it is visible or not n: selected, implied or by
      default. */
  lemma WrittenIff(c: Config, s: Sym)
    requires Acyclic(c.defs, c.rank) && s.IsTri()
    ensures Written(c, s) <==> EvalSym(c, s).visible != NO || EvalSym(c, s).curr.tri != NO
  {
    hide EvalSym, VisibleIn, DirDepIn, RevDepIn, ImpliedIn, DefaultOf, FirstDefault;
    EvalUnfold(c, s);
  }

  /** Any other symbol has one if it is visible or its first active default is a symbol. */
  lemma TextWrittenIff(c: Config, s: Sym, k: nat)
    requires !s.Type().Unknown? && !s.IsTri()
    ensures V.NoneActive(c.defs(s).defaults, EnvOf(All(c))) ==> (Written(c, s) <==> EvalSym(c, s).visible != NO)
    ensures V.FirstActive(c.defs(s).defaults, k, EnvOf(All(c))) ==>
      (Written(c, s) <==> EvalSym(c, s).visible != NO || c.defs(s).defaults[k].value.Symbol?)
  {
    hide EvalSym, FirstDefault;
    V.FirstDefaultAt(c.defs(s).defaults, k, EnvOf(All(c)));
  }

  /** The text written. */
  ghost function Shown(c: Config, s: Sym): string {
    TextOf(s, EvalSym(c, s).curr)
  }

  /** The user value that its line gives; a number that is none is refused. */
  function ReadBack(typ: SymType, text: string): Option<User> {
    if (typ.Int? || typ.Hex?) && !StringValid(typ, text) then None else Some(Saved(typ, text))
  }

  /** d has the user values read back from what is written in c. */
  ghost predicate Reloaded(c: Config, d: Config) {
    && d.defs == c.defs && d.rank == c.rank
    && forall s: Sym :: !s.Type().Unknown? ==>
        UserOf(d, s) == if Written(c, s) then ReadBack(s.typ, Shown(c, s)) else None
  }

  /** No number has been entered that is none: all ways to enter one check it. */
  ghost predicate NumbersEntered(c: Config) {
    forall s <- c.user :: (s.Type().Int? || s.Type().Hex?) ==> StringValid(s.Type(), c.user[s].text)
  }

  // ---------- When a symbol keeps its value ----------

  /** The text left by clamping to lo..hi is left alone if clamped again: where both
      bounds can be printed, if the range is not empty. */
  predicate Settled(typ: SymType, text: string, lo: int, hi: int)
    requires (typ.Int? || typ.Hex?) && InLongLong(lo) && InLongLong(hi)
  {
    if Printable(typ, lo) && Printable(typ, hi) then lo <= hi else Clamp(typ, text, lo, hi) == text
  }

  /** A visible bool or tristate must not be y where a user value counts only as m, and
      a visible number must have no empty range. */
  ghost predicate Keeps(c: Config, s: Sym)
    requires !s.Type().Unknown?
  {
    var st := EvalSym(c, s);
    st.visible != NO ==>
      if s.IsTri() then !TooHigh(st, st.curr.tri)
      else if s.typ.String? then true
      else
        var r, base := FirstRange(c.defs(s).ranges, EnvOf(All(c))), BaseOf(s.typ, 10);
        r.Some? ==> Settled(s.typ, st.curr.text, RangeVal(r.value.lo, All(c), base), RangeVal(r.value.hi, All(c), base))
  }

  ghost predicate AllKeep(c: Config) {
    forall s: Sym :: !s.Type().Unknown? ==> Keeps(c, s)
  }

  ghost predicate SameStates(c: Config, d: Config) {
    forall s: Sym :: EvalSym(c, s) == EvalSym(d, s)
  }

  lemma ClampedIsValid(typ: SymType, raw: string, lo: int, hi: int)
    requires (typ.Int? || typ.Hex?) && InLongLong(lo) && InLongLong(hi)
    ensures var text := Clamp(typ, raw, lo, hi);
      && (text != raw || StringValid(typ, raw) ==> StringValid(typ, text))
      && (Settled(typ, text, lo, hi) <==> Clamp(typ, text, lo, hi) == text)
  {
    hide StrToLL, PrintInt, PrintHex, IntText, HexText;
    if typ.Int? {
      PrintIntValid(lo);
      PrintIntValid(hi);
    } else {
      PrintHexValid(lo);
      PrintHexValid(hi);
    }
    if Printable(typ, lo) && Printable(typ, hi) {
      ClampSettles(typ, raw, lo, hi);
    }
  }

  /** The saved text of a number, in place of what gave it. */
  lemma NumberKept(typ: SymType, def: SymDef, visible: Tri, user: Option<User>, look: Look)
    requires (typ.Int? || typ.Hex?) && visible != NO && (user.Some? ==> StringValid(typ, user.value.text))
    ensures var text := TextIn(typ, def, visible, user, look);
      var r, base := FirstRange(def.ranges, EnvOf(look)), BaseOf(typ, 10);
      TextIn(typ, def, visible, ReadBack(typ, text), look) == text <==>
        (r.Some? ==> Settled(typ, text, RangeVal(r.value.lo, look, base), RangeVal(r.value.hi, look, base)))
  {
    hide StringValid, StrToLL, Clamp, Settled, FirstRange, FirstDefault, EnvOf;
    var raw := RawTextIn(def, visible, user, look);
    var r, base := FirstRange(def.ranges, EnvOf(look)), BaseOf(typ, 10);
    if r.Some? {
      ClampedIsValid(typ, raw, RangeVal(r.value.lo, look, base), RangeVal(r.value.hi, look, base));
    }
  }

  lemma TextRead(s: Sym, v: Value)
    requires s.IsTri() && (s.Type().Boolean? ==> v.tri != MOD)
    ensures ReadBack(s.Type(), TextOf(s, v)) == Some(User("", v.tri))
  {
  }

  /** Of one symbol, if all it consults is as before. */
  lemma OneKept(c: Config, d: Config, s: Sym)
    requires Acyclic(c.defs, c.rank) && Reloaded(c, d) && NumbersEntered(c)
    requires !s.Type().Unknown? && SameBelow(c, d, s) && (c.modulesVal == d.modulesVal || !s.Type().Tristate?)
    ensures EvalSym(d, s) == EvalSym(c, s) <==> Keeps(c, s)
  {
    hide EvalSym, VisibleIn, DirDepIn, RevDepIn, ImpliedIn, TextIn, Settled, StringValid, FirstRange, FirstDefault;
    var def, st := c.defs(s), EvalSym(c, s);
    EvalUnfold(c, s);
    EvalUnfold(d, s);
    ComputeAgrees(s.typ, d.modulesVal, def, UserOf(d, s), All(c), All(d));
    ComputeNoModules(s.typ, c.modulesVal, d.modulesVal, def, UserOf(d, s), All(c));
    if s.IsTri() {
      ValueBounds(c, s);
      TextRead(s, st.curr);
      UserIgnoredWhenInvisible(s.typ, c.modulesVal, def, UserOf(c, s), UserOf(d, s), EnvOf(All(c)));
      if st.visible != NO {
        EnteredValue(c, d, s, st.curr.tri);
        AcceptedReaches(c, s, st.curr.tri);
      }
    } else {
      TextKept(s.typ, def, st.visible, UserOf(c, s), UserOf(d, s), All(c));
    }
  }

  lemma TextKept(typ: SymType, def: SymDef, visible: Tri, u1: Option<User>, u2: Option<User>, look: Look)
    requires typ.Int? || typ.Hex? || typ.String?
    requires u1.Some? && !typ.String? ==> StringValid(typ, u1.value.text)
    requires visible != NO ==> u2 == ReadBack(typ, TextIn(typ, def, visible, u1, look))
    ensures var text := TextIn(typ, def, visible, u1, look);
      var r, base := FirstRange(def.ranges, EnvOf(look)), BaseOf(typ, 10);
      TextIn(typ, def, visible, u2, look) == text <==>
        visible == NO || typ.String? || r.None? ||
        Settled(typ, text, RangeVal(r.value.lo, look, base), RangeVal(r.value.hi, look, base))
  {
    hide StringValid, StrToLL, Clamp, Settled, FirstRange, FirstDefault, EnvOf;
    if visible != NO && !typ.String? {
      NumberKept(typ, def, visible, u1, look);
    }
  }

  lemma {:induction false} AllKept(c: Config, d: Config, cone: set<Sym>, s: Sym)
    requires Acyclic(c.defs, c.rank) && Reloaded(c, d) && NumbersEntered(c)
    requires AllKeep(c)
    requires Closed(c.defs, cone) && forall t <- cone :: !t.Type().Tristate?
    requires c.modulesVal == d.modulesVal || s in cone
    ensures EvalSym(d, s) == EvalSym(c, s)
    decreases c.rank(s)
  {
    hide EvalSym, Keeps, Reloaded, NumbersEntered;
    if s.Type().Unknown? {
      EvalIdle(c, s);
      EvalIdle(d, s);
    } else {
      forall t: Sym | Consults(c.defs(s), t)
        ensures EvalSym(c, t) == EvalSym(d, t)
      {
        AllKept(c, d, cone, t);
      }
      OneKept(c, d, s);
    }
  }

  /** Reading back what was written leaves every symbol as it was, its value and all
      limits on it, if and only if each visible one can keep its value. */
  lemma ReloadKeeps(c: Config, d: Config, modules: Sym, cone: set<Sym>)
    requires Acyclic(c.defs, c.rank) && Reloaded(c, d) && NumbersEntered(c)
    requires Closed(c.defs, cone) && modules in cone && forall t <- cone :: !t.Type().Tristate?
    requires c.modulesVal == EvalSym(c, modules).curr.tri && d.modulesVal == EvalSym(d, modules).curr.tri
    ensures SameStates(c, d) <==> AllKeep(c)
  {
    hide EvalSym, Keeps, Reloaded, NumbersEntered, Acyclic, Closed;
    if SameStates(c, d) {
      forall s: Sym | !s.Type().Unknown?
        ensures Keeps(c, s)
      {
        OneKept(c, d, s);
      }
    } else if AllKeep(c) {
      AllKept(c, d, cone, modules);
      forall s: Sym
        ensures EvalSym(d, s) == EvalSym(c, s)
      {
        AllKept(c, d, cone, s);
      }
    }
  }

  lemma NothingWritten(c: Config, s: Sym)
    requires Acyclic(c.defs, c.rank) && !s.Type().Unknown? && c.defs(s) == SymDef([], [], [], None, None, None)
    ensures !Written(c, s)
  {
    hide Compute, TriIn, TextIn, EvalSym;
    EvalUnfold(c, s);
    NothingVisible(s.typ, c.modulesVal, UserOf(c, s), All(c));
  }

  lemma NothingVisible(typ: SymType, modulesVal: Tri, user: Option<User>, look: Look)
    ensures var st := Compute(typ, modulesVal, SymDef([], [], [], None, None, None), user, look);
      st.visible == NO && st.revDep == NO && st.implied == NO
  {
    hide TriIn, TextIn;
  }

  /** There is a symbol that does not: y by default and visible only as m, it is
      written as y and comes back as m. */
  lemma SavedYLost()
    ensures var c, d := DriverConfig(map[]), DriverConfig(map[DRIVEN := User("", YES)]);
      && Acyclic(c.defs, c.rank) && Reloaded(c, d) && NumbersEntered(c)
      && EvalSym(c, DRIVEN).curr.tri == YES && EvalSym(d, DRIVEN).curr.tri == MOD
      && c.modulesVal == EvalSym(c, SymYes).curr.tri && d.modulesVal == EvalSym(d, SymYes).curr.tri
  {
    hide EvalSym, TooHigh, Acyclic, Accepts, Assigned;
    var c, d := DriverConfig(map[]), DriverConfig(map[DRIVEN := User("", YES)]);
    AcceptedButLost();
    EvalConst(c, SymYes);
    EvalConst(d, SymYes);
    TooHighVisible(EvalSym(c, DRIVEN));
    TextRead(DRIVEN, EvalSym(c, DRIVEN).curr);
    forall t: Sym | t != DRIVEN && !t.Type().Unknown?
      ensures !Written(c, t)
    {
      NothingWritten(c, t);
    }
  }

  lemma TooHighVisible(st: SymState)
    ensures TooHigh(st, YES) ==> st.visible != NO
  {
  }

  // ---------- Through the text of the file ----------

  /** The text of a value can stand on one line. */
  predicate OneLine(typ: SymType, text: string) {
    && '\n' !in text && '\0' !in text
    && ((typ.Int? || typ.Hex?) && text != "" ==> text[|text| - 1] != '\r')
  }

  /** s can be written, and its name finds it again. */
  predicate HasLine(find: Find, s: Sym) {
    s.Named? && NameText(s.name) && s.name != "" && find(s.name) == Some(s)
  }

  predicate Readable(find: Find, item: Item) {
    && HasLine(find, item.s) && OneLine(item.s.typ, item.value)
    && (Possible(item.s.typ, item.value) || item.s.typ.Int? || item.s.typ.Hex?)
  }

  function ReadOne(user: map<Sym, User>, item: Item): map<Sym, User> {
    var r := ReadBack(item.s.Type(), item.value);
    if r.Some? then user[item.s := r.value] else user
  }

  function ReadAll(user: map<Sym, User>, items: seq<Item>): map<Sym, User>
    decreases |items|
  {
    if items == [] then user else ReadAll(ReadOne(user, items[0]), items[1..])
  }

  /** One line, also of a number that is none. */
  lemma LineReads(prefix: string, find: Find, user: map<Sym, User>, item: Item, rest: string)
    requires NameText(prefix) && Readable(find, item)
    ensures var line := WriteSymbol(prefix, item.s, item.value);
      && line != "" && FirstLine(line + rest) == line
      && ApplyLine(find, user, ParseLine(prefix, line)) == ReadOne(user, item)
  {
    hide ParseLine, StringValid, FirstLine, NameText;
    if Possible(item.s.typ, item.value) {
      LineRestores(prefix, find, user, item);
      WrittenIsLine(prefix, item, rest);
    } else {
      ParseAssign(prefix, item.s.name, item.value);
      NumberLine(prefix, item.s.name, item.value, rest);
    }
  }

  lemma NumberLine(prefix: string, name: string, value: string, rest: string)
    requires NameText(prefix) && NameText(name) && '\n' !in value
    ensures var line := prefix + name + "=" + value + "\n";
      line != "" && FirstLine(line + rest) == line
  {
    var front := prefix + name + "=" + value;
    assert '\n' !in prefix && '\n' !in name;
    FirstOfTwo(front, rest);
    assert front + "\n" + rest == (front + "\n") + rest;
  }

  lemma {:induction false} FileReads(prefix: string, find: Find, user: map<Sym, User>, items: seq<Item>)
    requires NameText(prefix) && forall item <- items :: Readable(find, item)
    ensures ReadFrom(prefix, find, user, WriteAll(prefix, items)) == ReadAll(user, items)
    decreases |items|
  {
    hide ParseLine, ApplyLine, WriteSymbol, FirstLine, ReadOne, Readable, NameText;
    if items != [] {
      var line, rest := WriteSymbol(prefix, items[0].s, items[0].value), WriteAll(prefix, items[1..]);
      assert items[0] in items;
      LineReads(prefix, find, user, items[0], rest);
      assert (line + rest)[|line|..] == rest;
      FileReads(prefix, find, ReadOne(user, items[0]), items[1..]);
    }
  }

  /** Without a symbol twice each line has its own effect. */
  lemma {:induction false} ReadAllOf(user: map<Sym, User>, items: seq<Item>, s: Sym)
    requires forall i, j :: 0 <= i < j < |items| ==> items[i].s != items[j].s
    ensures var r := ReadAll(user, items);
      && ((forall item <- items :: item.s != s) ==> (s in r <==> s in user) && (s in r ==> r[s] == user[s]))
      && forall item <- items :: item.s == s && s !in user ==>
          (s in r <==> ReadBack(s.Type(), item.value).Some?) && (s in r ==> ReadBack(s.Type(), item.value) == Some(r[s]))
    decreases |items|
  {
    hide ReadBack;
    if items != [] {
      ReadAllOf(ReadOne(user, items[0]), items[1..], s);
      forall item <- items[1..]
        ensures item.s != items[0].s
      {
        var k :| 0 <= k < |items| - 1 && items[1..][k] == item;
        assert items[k + 1] == item;
      }
    }
  }

  ghost function Items(c: Config, syms: seq<Sym>): seq<Item> {
    seq(|syms|, k requires 0 <= k < |syms| => Item(syms[k], Shown(c, syms[k])))
  }

  /** All symbols that are written, once each, with values that fit a line. */
  ghost predicate Saves(c: Config, syms: seq<Sym>, find: Find) {
    && (forall i, j :: 0 <= i < j < |syms| ==> syms[i] != syms[j])
    && (forall s: Sym :: s in syms <==> !s.Type().Unknown? && Written(c, s))
    && (forall s <- syms :: HasLine(find, s) && OneLine(s.typ, Shown(c, s)))
  }

  /** The file of a configuration, read into an empty one, gives what was assumed. */
  lemma FileReloads(prefix: string, find: Find, c: Config, d: Config, syms: seq<Sym>)
    requires Acyclic(c.defs, c.rank) && NameText(prefix) && Saves(c, syms, find)
    requires d.defs == c.defs && d.rank == c.rank
    requires d.user == ReadFrom(prefix, find, map[], WriteAll(prefix, Items(c, syms)))
    ensures Reloaded(c, d)
  {
    hide Written, NameText, OneLine, StringValid, EvalSym, Acyclic, ReadBack;
    var items := Items(c, syms);
    forall item <- items
      ensures Readable(find, item)
    {
      assert item.s in syms;
      ShownPossible(c, item.s);
    }
    FileReads(prefix, find, map[], items);
    forall s: Sym | !s.Type().Unknown?
      ensures UserOf(d, s) == if Written(c, s) then ReadBack(s.typ, Shown(c, s)) else None
    {
      ReadAllOf(map[], items, s);
      if s in syms {
        var k :| 0 <= k < |syms| && syms[k] == s;
        assert items[k] == Item(s, Shown(c, s));
      }
    }
  }

  lemma ShownPossible(c: Config, s: Sym)
    requires Acyclic(c.defs, c.rank) && !s.Type().Unknown?
    ensures s.IsTri() ==> Possible(s.typ, Shown(c, s))
    ensures s.typ.String? && OneLine(s.typ, Shown(c, s)) ==> Possible(s.typ, Shown(c, s))
  {
    hide EvalSym;
    if s.IsTri() {
      ValueBounds(c, s);
    }
  }

  /** Saving and loading: every symbol is as before if and only if each visible one can
      keep its value. */
  lemma SaveAndLoad(prefix: string, find: Find, c: Config, d: Config, syms: seq<Sym>, modules: Sym, cone: set<Sym>)
    requires Acyclic(c.defs, c.rank) && NumbersEntered(c) && NameText(prefix) && Saves(c, syms, find)
    requires d.defs == c.defs && d.rank == c.rank
    requires d.user == ReadFrom(prefix, find, map[], WriteAll(prefix, Items(c, syms)))
    requires Closed(c.defs, cone) && modules in cone && forall t <- cone :: !t.Type().Tristate?
    requires c.modulesVal == EvalSym(c, modules).curr.tri && d.modulesVal == EvalSym(d, modules).curr.tri
    ensures SameStates(c, d) <==> AllKeep(c)
  {
    hide EvalSym, Acyclic, Reloaded, NumbersEntered, Closed, Saves, SameStates, AllKeep;
    FileReloads(prefix, find, c, d, syms);
    ReloadKeeps(c, d, modules, cone);
  }
}
