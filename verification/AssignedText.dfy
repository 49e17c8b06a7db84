/**
  What a line "NAME=text" sets, whatever the text: also texts that the program itself
  would not write.
 */
module AssignedText {
  import opened Expressions
  import opened Ranges
  import opened ConfigText
  import opened Compare
  import E = Evaluation

  // ---------- Quoted strings ----------

  /** s with a backslash before the characters marked. */
  function Spelled(s: string, marked: seq<bool>): string
    requires |s| == |marked|
  {
    if s == "" then ""
    else (if marked[0] then ['\\', s[0]] else [s[0]]) + Spelled(s[1..], marked[1..])
  }

  /** At least the quotes and backslashes are marked. */
  predicate Spells(s: string, marked: seq<bool>) {
    |s| == |marked| && forall i :: 0 <= i < |s| && (s[i] == '"' || s[i] == '\\') ==> marked[i]
  }

  /** Backslashes may stand before any character; the first quote without one ends
      the string. */
  lemma {:induction false} SpelledIsRead(s: string, marked: seq<bool>, tail: string)
    requires Spells(s, marked)
    ensures Unescape(Spelled(s, marked) + (['"'] + tail)) == Some(s)
  {
    var end := ['"'] + tail;
    if s == "" {
      assert Spelled(s, marked) + end == end;
    } else {
      var rest := Spelled(s[1..], marked[1..]) + end;
      assert Spelled(s, marked) + end == (if marked[0] then ['\\', s[0]] else [s[0]]) + rest;
      SpelledIsRead(s[1..], marked[1..], tail);
      assert [s[0]] + s[1..] == s;
      hide Unescape, Spelled;
      ReadNext(s[0], rest, marked[0]);
    }
  }

  lemma ReadNext(c: char, rest: string, marked: bool)
    requires Special(c) ==> marked
    ensures Unescape((if marked then ['\\', c] else [c]) + rest) == Prepend(c, Unescape(rest))
  {
    assert (['\\', c] + rest)[2..] == rest && ([c] + rest)[1..] == rest;
  }

  /** Nothing else is accepted. */
  lemma {:induction false} OnlySpelledIsRead(t: string) returns (marked: seq<bool>, tail: string)
    requires Unescape(t).Some?
    ensures var s := Unescape(t).value;
      Spells(s, marked) && t == Spelled(s, marked) + (['"'] + tail)
  {
    var s := Unescape(t).value;
    if t[0] == '"' {
      marked, tail := [], t[1..];
      assert t == "" + (['"'] + tail);
    } else if t[0] != '\\' {
      marked, tail := OnlySpelledIsRead(t[1..]);
      SpelledMore(s, marked, false, t[1..], tail);
      marked := [false] + marked;
      assert t == [t[0]] + t[1..];
    } else {
      marked, tail := OnlySpelledIsRead(t[2..]);
      SpelledMore(s, marked, true, t[2..], tail);
      marked := [true] + marked;
      assert t == ['\\', t[1]] + t[2..];
    }
  }

  lemma SpelledMore(s: string, marked: seq<bool>, first: bool, t: string, tail: string)
    requires s != "" && Spells(s[1..], marked) && t == Spelled(s[1..], marked) + (['"'] + tail)
    requires Special(s[0]) ==> first
    ensures Spells(s, [first] + marked)
    ensures Spelled(s, [first] + marked) + (['"'] + tail) == (if first then ['\\', s[0]] else [s[0]]) + t
  {
    var all := [first] + marked;
    assert all[1..] == marked && all[0] == first;
    assert Spelled(s, all) == (if first then ['\\', s[0]] else [s[0]]) + Spelled(s[1..], marked);
    forall i | 0 <= i < |s| && Special(s[i])
      ensures all[i]
    {
      assert i > 0 ==> s[i] == s[1..][i - 1];
    }
  }

  // ---------- Lines ----------

  /** A value text that ends its line plainly. */
  predicate EndsPlainly(text: string) {
    '\n' !in text && (text != "" ==> text[|text| - 1] != '\r')
  }

  predicate LineOf(prefix: string, find: Find, s: Sym) {
    NameText(prefix) && s.Named? && NameText(s.name) && s.name != "" && find(s.name) == Some(s)
  }

  lemma LineGives(prefix: string, find: Find, user: map<Sym, E.User>, s: Sym, text: string)
    requires LineOf(prefix, find, s) && EndsPlainly(text)
    ensures ApplyLine(find, user, ParseLine(prefix, prefix + s.name + "=" + text + "\n")) ==
      var v := ParseValue(s.typ, text);
      if v.Some? then user[s := v.value] else user
  {
    hide ParseLine, ParseValue, NameText;
    ParseAssign(prefix, s.name, text);
  }

  /** The first letter decides: y and n for both types, m for a tristate only; any other
      text changes nothing. */
  lemma TriLine(prefix: string, find: Find, user: map<Sym, E.User>, s: Sym, text: string)
    requires LineOf(prefix, find, s) && EndsPlainly(text) && s.IsTri()
    ensures var r := ApplyLine(find, user, ParseLine(prefix, prefix + s.name + "=" + text + "\n"));
      && (text == "" || text[0] !in ['y', 'm', 'n'] ==> r == user)
      && (text != "" && text[0] == 'y' ==> r == user[s := E.User("", YES)])
      && (text != "" && text[0] == 'n' ==> r == user[s := E.User("", NO)])
      && (text != "" && text[0] == 'm' ==> r == if s.typ.Tristate? then user[s := E.User("", MOD)] else user)
  {
    hide ParseLine;
    LineGives(prefix, find, user, s, text);
  }

  /** "NAME=y", "NAME=m" and "NAME=n" set these values. */
  lemma TriValueLine(prefix: string, find: Find, user: map<Sym, E.User>, s: Sym, t: Tri)
    requires LineOf(prefix, find, s) && s.IsTri() && (s.typ.Boolean? ==> t != MOD)
    ensures ApplyLine(find, user, ParseLine(prefix, prefix + s.name + "=" + TriText(t) + "\n")) ==
      user[s := E.User("", t)]
  {
    hide ParseLine, ApplyLine;
    TriLine(prefix, find, user, s, TriText(t));
  }

  /** An int or hex takes every text that is a number of its kind, and no other. */
  lemma NumberLine(prefix: string, find: Find, user: map<Sym, E.User>, s: Sym, text: string)
    requires LineOf(prefix, find, s) && EndsPlainly(text) && (s.typ.Int? || s.typ.Hex?)
    ensures ApplyLine(find, user, ParseLine(prefix, prefix + s.name + "=" + text + "\n")) ==
      if (s.typ.Int? && IntText(text)) || (s.typ.Hex? && HexText(text)) then user[s := E.User(text, NO)] else user
  {
    hide ParseLine, IntText, HexText;
    LineGives(prefix, find, user, s, text);
  }

  /** A string is set by what stands between an opening and a closing quote, whatever
      follows. */
  lemma StringLine(prefix: string, find: Find, user: map<Sym, E.User>, s: Sym, value: string, marked: seq<bool>, tail: string)
    requires LineOf(prefix, find, s) && s.typ.String? && Spells(value, marked)
    requires EndsPlainly("\"" + (Spelled(value, marked) + (['"'] + tail)))
    ensures var text := "\"" + (Spelled(value, marked) + (['"'] + tail));
      ApplyLine(find, user, ParseLine(prefix, prefix + s.name + "=" + text + "\n")) == user[s := E.User(value, NO)]
  {
    hide ParseLine, Unescape;
    var body := Spelled(value, marked) + (['"'] + tail);
    SpelledIsRead(value, marked, tail);
    assert ("\"" + body)[1..] == body;
    LineGives(prefix, find, user, s, "\"" + body);
  }

  /** Without an opening quote, or a closing one behind it, nothing changes. */
  lemma UnquotedLine(prefix: string, find: Find, user: map<Sym, E.User>, s: Sym, text: string)
    requires LineOf(prefix, find, s) && s.typ.String? && EndsPlainly(text)
    requires forall value: string, marked: seq<bool>, tail: string ::
      Spells(value, marked) ==> text != "\"" + (Spelled(value, marked) + (['"'] + tail))
    ensures ApplyLine(find, user, ParseLine(prefix, prefix + s.name + "=" + text + "\n")) == user
  {
    hide ParseLine, Unescape, Spelled, Spells;
    LineGives(prefix, find, user, s, text);
    assert text != "" ==> text == [text[0]] + text[1..];
    if text != "" && text[0] == '"' && Unescape(text[1..]).Some? {
      var marked, tail := OnlySpelledIsRead(text[1..]);
    }
  }

  /** "# NAME is not set" makes a bool or tristate n and leaves all others alone. */
  lemma NotSetLine(prefix: string, find: Find, user: map<Sym, E.User>, s: Sym)
    requires LineOf(prefix, find, s)
    ensures ApplyLine(find, user, ParseLine(prefix, "# " + prefix + s.name + " is not set\n")) ==
      if s.IsTri() then user[s := E.User("", NO)] else user
  {
    hide ParseLine, NameText;
    ParseUnset(prefix, s.name);
  }

  /** A line for a name that no symbol has changes nothing. */
  lemma UnknownLine(prefix: string, find: Find, user: map<Sym, E.User>, name: string, text: string)
    requires NameText(prefix) && NameText(name) && name != "" && find(name) == None && EndsPlainly(text)
    ensures ApplyLine(find, user, ParseLine(prefix, prefix + name + "=" + text + "\n")) == user
    ensures ApplyLine(find, user, ParseLine(prefix, "# " + prefix + name + " is not set\n")) == user
  {
    hide ParseLine, NameText;
    ParseAssign(prefix, name, text);
    ParseUnset(prefix, name);
  }

  /** A carriage return at the end of a line does not count. */
  lemma ReturnIgnored(prefix: string, s: Sym, text: string)
    requires NameText(prefix) && s.Named? && NameText(s.name) && s.name != "" && EndsPlainly(text)
    ensures ParseLine(prefix, prefix + s.name + "=" + (text + "\r" + "\n")) ==
      ParseLine(prefix, prefix + s.name + "=" + (text + "\n"))
  {
    hide ParseLine, NameText, Chomp;
    ParseNameIs(prefix, s.name, text + "\r" + "\n");
    ParseNameIs(prefix, s.name, text + "\n");
    ChompReturn(text);
    ChompLine(text);
  }

  /** Neither does a line without the prefix, nor a comment without it. */
  lemma ForeignLine(prefix: string, find: Find, user: map<Sym, E.User>, line: string)
    requires line != "" && if line[0] == '#' then |line| < 2 || !StartsWith(line[2..], prefix) else !StartsWith(line, prefix)
    ensures ApplyLine(find, user, ParseLine(prefix, line)) == user
  {
  }

  // ---------- What is written ----------

  /** The lines the program writes: n as a comment, a string in quotes. */
  lemma WrittenLines(prefix: string, s: Sym, text: string)
    requires s.Named?
    ensures s.IsTri() ==>
      && WriteSymbol(prefix, s, TriText(NO)) == "# " + prefix + s.name + " is not set\n"
      && WriteSymbol(prefix, s, TriText(MOD)) == prefix + s.name + "=m\n"
      && WriteSymbol(prefix, s, TriText(YES)) == prefix + s.name + "=y\n"
    ensures s.typ.Int? || s.typ.Hex? ==> WriteSymbol(prefix, s, text) == prefix + s.name + "=" + text + "\n"
    ensures s.typ.String? && '"' !in text && '\\' !in text ==>
      WriteSymbol(prefix, s, text) == prefix + s.name + "=" + (['"'] + text + ['"']) + "\n"
  {
    if '"' !in text && '\\' !in text {
      PlainUnescaped(text);
    }
    assert prefix + s.name + "=" + "m" + "\n" == prefix + s.name + "=m\n";
    assert prefix + s.name + "=" + "y" + "\n" == prefix + s.name + "=y\n";
  }

  lemma {:induction false} PlainUnescaped(text: string)
    requires forall c <- text :: !Special(c)
    ensures EscapeBody(text) == text
  {
    if text != "" {
      PlainUnescaped(text[1..]);
      assert text == [text[0]] + text[1..];
    }
  }
}
