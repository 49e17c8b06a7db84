/**
  String values that hold newlines, read back over all the lines they fall into.
 */
module BrokenStrings {
  import opened Expressions
  import opened ConfigText
  import E = Evaluation

  /** Every quote is escaped, but for one right before the newline at the end. */
  predicate Tame(t: string) {
    && (t != "" ==> t[|t| - 1] == '\n')
    && forall i :: 0 <= i < |t| && t[i] == '"' ==> (i > 0 && t[i - 1] == '\\') || i + 2 == |t|
  }

  predicate EscapedAt(b: string, i: nat)
    requires i < |b|
  {
    b[i] == '"' ==> i > 0 && b[i - 1] == '\\'
  }

  lemma {:induction false} EscapedQuotes(s: string, i: nat)
    requires i < |EscapeBody(s)|
    ensures EscapedAt(EscapeBody(s), i)
  {
    var head := if Special(s[0]) then ['\\', s[0]] else [s[0]];
    var b, tail := EscapeBody(s), EscapeBody(s[1..]);
    assert b == head + tail;
    if i >= |head| {
      EscapedQuotes(s[1..], i - |head|);
      assert b[i] == tail[i - |head|];
      if i > |head| {
        assert b[i - 1] == tail[i - |head| - 1];
      }
    }
  }

  lemma EscapedIsTame(s: string)
    ensures Tame(EscapeBody(s) + ['"'] + "\n")
  {
    var b, t := EscapeBody(s), EscapeBody(s) + ['"'] + "\n";
    forall i | 0 <= i < |t| && t[i] == '"'
      ensures (i > 0 && t[i - 1] == '\\') || i + 2 == |t|
    {
      if i < |b| {
        EscapedQuotes(s, i);
      }
    }
  }

  /** The string symbols have the same values in both. */
  ghost predicate SameStrings(a: map<Sym, E.User>, b: map<Sym, E.User>) {
    forall s: Sym :: s.Type().String? ==> (s in a <==> s in b) && (s in a ==> a[s] == b[s])
  }

  /** No line of such a text gives a value to a string symbol. */
  lemma TameLine(prefix: string, find: Find, user: map<Sym, E.User>, t: string)
    requires Tame(t) && t != "" && '"' !in prefix
    ensures SameStrings(ApplyLine(find, user, ParseLine(prefix, FirstLine(t))), user)
    ensures Tame(t[|FirstLine(t)|..])
  {
    hide ParseLine, FirstLine, ApplyLine, Tame, SameStrings;
    var l := FirstLine(t);
    var line := ParseLine(prefix, l);
    if line.Assign? && line.text != "" && line.text[0] == '"' {
      ClosingQuote(prefix, t);
    }
    NoStringSet(find, user, line);
    FirstLineEnds(t);
    TameRest(t, |l|);
  }

  /** A single quote is no string. */
  lemma NoStringSet(find: Find, user: map<Sym, E.User>, line: LineKind)
    requires line.Assign? && line.text != "" && line.text[0] == '"' ==> line.text == "\""
    ensures SameStrings(ApplyLine(find, user, line), user)
  {
    assert Unescape("") == None;
  }

  lemma FirstLineEnds(t: string)
    ensures var n := |FirstLine(t)|; 0 < n < |t| ==> t[n - 1] == '\n'
  {
  }

  lemma TameRest(t: string, n: nat)
    requires Tame(t) && 0 < n <= |t| && (n < |t| ==> t[n - 1] == '\n')
    ensures Tame(t[n..])
  {
    var rest := t[n..];
    forall i | 0 <= i < |rest| && rest[i] == '"'
      ensures (i > 0 && rest[i - 1] == '\\') || i + 2 == |rest|
    {
      assert t[n + i] == '"';
      if i > 0 {
        assert rest[i - 1] == t[n + i - 1];
      }
    }
  }

  /** A value that starts with a quote starts with the one at the end, and is empty
      behind it. */
  lemma ClosingQuote(prefix: string, t: string)
    requires Tame(t) && t != ""
    requires var line := ParseLine(prefix, FirstLine(t));
      line.Assign? && line.text != "" && line.text[0] == '"'
    ensures ParseLine(prefix, FirstLine(t)).text == "\""
  {
    var l := FirstLine(t);
    var body := l[|prefix|..];
    var i := IndexOf(body, '=');
    var q := |prefix| + i + 1;
    var tail := body[i + 1..];
    assert tail != "" && tail[0] == Chomp(tail)[0] by {
      assert IndexOf(tail, '\n') <= |tail|;
    }
    assert t[q] == l[q] == tail[0] == '"' && t[q - 1] == l[q - 1] == body[i] == '=';
    assert q + 2 == |t|;
    NoNewlineBefore(t, q);
    assert l == t && tail == "\"" + "\n";
    ChompLine("\"");
  }

  lemma NoNewlineBefore(t: string, q: nat)
    requires q < |FirstLine(t)| && q + 2 == |t| && t[q] != '\n'
    ensures FirstLine(t) == t
  {
  }

  lemma {:induction false} TameText(prefix: string, find: Find, user: map<Sym, E.User>, t: string)
    requires Tame(t) && '"' !in prefix
    ensures SameStrings(ReadFrom(prefix, find, user, t), user)
    decreases |t|
  {
    hide ParseLine, ApplyLine, FirstLine, Tame;
    if t != "" {
      var l := FirstLine(t);
      TameLine(prefix, find, user, t);
      TameText(prefix, find, ApplyLine(find, user, ParseLine(prefix, l)), t[|l|..]);
    }
  }

  /** A broken value falls into its first line and a tame rest. */
  lemma BrokenText(prefix: string, name: string, value: string) returns (after: string)
    requires NameText(prefix) && NameText(name) && '\n' in value
    ensures var text := PrintSymbol(prefix, name, String, Escape(value));
      text != "" && text[|FirstLine(text)|..] == EscapeBody(after) + ['"'] + "\n"
  {
    hide EscapeBody, FirstLine, Escape;
    var part;
    part, after := AtNewline(value);
    var b, c := ['"'] + EscapeBody(part), EscapeBody(after) + ['"'];
    FirstOfBroken(prefix, name, value, part, after);
    EscapeBroken(value, part, after);
    BrokenLine(prefix + name + "=", b, c);
  }

  /** A string value comes back from the lines it was written to if and only if it
      holds no newline; otherwise the symbol gets no value at all, and nor does any
      other string symbol. */
  lemma StringRestoredIff(prefix: string, find: Find, user: map<Sym, E.User>, s: Sym, value: string)
    requires NameText(prefix) && s.Named? && s.typ.String? && NameText(s.name) && s.name != ""
    requires '\0' !in value && find(s.name) == Some(s) && s !in user
    ensures var r := ReadFrom(prefix, find, user, WriteSymbol(prefix, s, value));
      && (s in r && r[s] == Saved(String, value) <==> '\n' !in value)
      && ('\n' in value ==> SameStrings(r, user))
  {
    hide ParseLine, EscapeBody, FirstLine, Tame;
    var text := WriteSymbol(prefix, s, value);
    if '\n' in value {
      var part := BrokenValue(prefix, s.name, value);
      UnescapeUnclosed(part);
      assert (['"'] + EscapeBody(part))[1..] == EscapeBody(part);
      var after := BrokenText(prefix, s.name, value);
      EscapedIsTame(after);
      assert '"' !in prefix;
      TameText(prefix, find, user, text[|FirstLine(text)|..]);
    } else {
      WrittenIsLine(prefix, Item(s, value), "");
      assert text + "" == text && text[|text|..] == "";
      LineRestores(prefix, find, user, Item(s, value));
    }
  }

  /** A line inside the value is read as any other: it can set another symbol. */
  lemma EmbeddedLineSets(prefix: string, find: Find, user: map<Sym, E.User>, s: Sym, o: Sym)
    requires NameText(prefix) && s.Named? && s.typ.String? && NameText(s.name) && s.name != ""
    requires o.Named? && o.typ.Boolean? && NameText(o.name) && o.name != ""
    requires find(s.name) == Some(s) && find(o.name) == Some(o)
    ensures var value := "\n" + (prefix + o.name + "=" + "y");
      ReadFrom(prefix, find, user, WriteSymbol(prefix, s, value)) == user[o := E.User("", YES)]
  {
    hide ParseLine, FirstLine, EscapeBody, ReadFrom, ApplyLine;
    var line := prefix + o.name + "=" + "y";
    var value := "\n" + line;
    var first, second := prefix + s.name + "=" + "\"", line + "\"";
    EmbeddedText(prefix, s.name, line);
    ReadLine(prefix, find, user, first, second + "\n");
    ParseAssign(prefix, s.name, "\"");
    LoneQuote(find, user, s);
    Assoc(second, "\n", "");
    ReadLine(prefix, find, user, second, "");
    Assoc(prefix + o.name + "=", "y", "\"");
    ParseAssign(prefix, o.name, "y\"");
    assert "y" + "\"" == "y\"";
    YesAssigned(find, user, o);
    ReadNothing(prefix, find, user[o := E.User("", YES)]);
    assert second + "\n" + "" == second + "\n";
  }

  lemma ReadLine(prefix: string, find: Find, user: map<Sym, E.User>, front: string, rest: string)
    requires '\n' !in front
    ensures ReadFrom(prefix, find, user, front + "\n" + rest) ==
      ReadFrom(prefix, find, ApplyLine(find, user, ParseLine(prefix, front + "\n")), rest)
  {
    hide ParseLine, ApplyLine, FirstLine;
    FirstOfTwo(front, rest);
    assert (front + "\n" + rest)[|front + "\n"|..] == rest;
  }

  lemma ReadNothing(prefix: string, find: Find, user: map<Sym, E.User>)
    ensures ReadFrom(prefix, find, user, "") == user
  {
  }

  lemma LoneQuote(find: Find, user: map<Sym, E.User>, s: Sym)
    requires s.Named? && s.typ.String? && find(s.name) == Some(s)
    ensures ApplyLine(find, user, Assign(s.name, "\"")) == user
  {
    assert "\""[1..] == "";
  }

  lemma YesAssigned(find: Find, user: map<Sym, E.User>, o: Sym)
    requires o.Named? && o.typ.Boolean? && find(o.name) == Some(o)
    ensures ApplyLine(find, user, Assign(o.name, "y\"")) == user[o := E.User("", YES)]
  {
  }

  /** The two lines that such a value falls into. */
  lemma EmbeddedText(prefix: string, name: string, line: string)
    requires forall c <- line :: !Special(c)
    ensures PrintSymbol(prefix, name, String, Escape("\n" + line)) ==
      prefix + name + "=" + "\"" + "\n" + (line + "\"" + "\n")
  {
    hide EscapeBody;
    EmptyEscape();
    EscapePlain("", line);
    assert "" + line == line && "" + ("\n" + line) == "\n" + line;
    EscapeBroken("\n" + line, "", line);
    hide Escape;
    assert ['"'] + "" == "\"" && line + ['"'] == line + "\"";
    BrokenLine(prefix + name + "=", "\"", line + "\"");
  }
}
