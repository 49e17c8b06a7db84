/**
  The text of a configuration file: how values are escaped, what a line means,
  and that reading what was written restores the values.
 */
module ConfigText {
  import opened Expressions
  import opened Ranges
  import E = Evaluation

  // ---------- Strings in quotes ----------

  predicate Special(c: char) {
    c == '"' || c == '\\'
  }

  function EscapeBody(s: string): string {
    if s == "" then ""
    else if Special(s[0]) then ['\\', s[0]] + EscapeBody(s[1..])
    else [s[0]] + EscapeBody(s[1..])
  }

  function Escape(s: string): string {
    ['"'] + EscapeBody(s) + ['"']
  }

  function Prepend(c: char, r: Option<string>): Option<string> {
    if r.Some? then Some([c] + r.value) else None
  }

  /** The string up to the closing quote; None if there is no closing quote. */
  function Unescape(s: string): Option<string> {
    if s == "" then None
    else if s[0] == '"' then Some("")
    else if s[0] != '\\' then Prepend(s[0], Unescape(s[1..]))
    else if |s| == 1 then None
    else Prepend(s[1], Unescape(s[2..]))
  }

  lemma UnescapeNext(c: char, rest: string)
    ensures Special(c) ==> Unescape(['\\', c] + rest) == Prepend(c, Unescape(rest))
    ensures !Special(c) ==> Unescape([c] + rest) == Prepend(c, Unescape(rest))
  {
    assert (['\\', c] + rest)[2..] == rest && ([c] + rest)[1..] == rest;
  }

  lemma {:induction false} UnescapeEscape(s: string, tail: string)
    ensures Unescape(EscapeBody(s) + (['"'] + tail)) == Some(s)
  {
    var end := ['"'] + tail;
    if s == "" {
      assert EscapeBody(s) + end == end;
    } else {
      var rest := EscapeBody(s[1..]) + end;
      assert EscapeBody(s) + end == (if Special(s[0]) then ['\\', s[0]] else [s[0]]) + rest;
      UnescapeEscape(s[1..], tail);
      assert [s[0]] + s[1..] == s;
      hide Unescape, EscapeBody;
      UnescapeNext(s[0], rest);
    }
  }

  /** Escaping adds no characters but quotes and backslashes. */
  lemma {:induction false} EscapeAddsNone(s: string, c: char)
    requires !Special(c) && c !in s
    ensures c !in EscapeBody(s)
  {
    if s != "" {
      EscapeAddsNone(s[1..], c);
    }
  }

  lemma {:induction false} EscapeSnoc(s: string, c: char)
    ensures EscapeBody(s + [c]) == EscapeBody(s) + if Special(c) then ['\\', c] else [c]
  {
    if s == "" {
      assert s + [c] == [c] && [c][1..] == "";
    } else {
      assert (s + [c])[1..] == s[1..] + [c];
      EscapeSnoc(s[1..], c);
    }
  }

  lemma {:induction false} EscapePlain(a: string, b: string)
    requires forall c <- b :: !Special(c)
    ensures EscapeBody(a + b) == EscapeBody(a) + b
  {
    if b == "" {
      assert a + b == a;
    } else {
      EscapePlain(a, b[..|b| - 1]);
      EscapeSnoc(a + b[..|b| - 1], b[|b| - 1]);
      assert a + b == a + b[..|b| - 1] + [b[|b| - 1]];
    }
  }

  lemma EscapeUpTo(s: string, p: nat, l: nat)
    requires p + l <= |s| && forall k :: p <= k < p + l ==> !Special(s[k])
    ensures EscapeBody(s[..p + l]) == EscapeBody(s[..p]) + s[p..p + l]
    ensures p + l < |s| && Special(s[p + l]) ==>
      EscapeBody(s[..p + l + 1]) == EscapeBody(s[..p + l]) + ['\\', s[p + l]]
  {
    hide EscapeBody;
    EscapePlain(s[..p], s[p..p + l]);
    assert s[..p + l] == s[..p] + s[p..p + l];
    if p + l < |s| {
      EscapeSnoc(s[..p + l], s[p + l]);
      assert s[..p + l + 1] == s[..p + l] + [s[p + l]];
    }
  }

  /** strcspn from position i: how far the next quote or backslash is. */
  method Span(s: string, i: nat) returns (n: nat)
    requires i <= |s|
    ensures i + n <= |s| && forall k :: i <= k < i + n ==> !Special(s[k])
    ensures i + n < |s| ==> Special(s[i + n])
  {
    n := 0;
    while i + n < |s| && !Special(s[i + n])
      invariant i + n <= |s| && forall k :: i <= k < i + n ==> !Special(s[k])
    {
      n := n + 1;
    }
  }

  /** sym_escape_string_value: the length is counted first; what is then written
      fills it up to the terminating NUL. */
  method SymEscapeStringValue(s: string) returns (res: string, reslen: nat)
    ensures res == Escape(s) && reslen == |res| + 1
  {
    hide EscapeBody;
    reslen := |s| + 2 + 1;
    var p := 0;
    EmptyEscape();
    assert s[..0] == "" && s[..|s|] == s;
    while true
      invariant p <= |s| && reslen == |EscapeBody(s[..p])| + (|s| - p) + 3
      decreases |s| - p
    {
      var l := Span(s, p);
      EscapeUpTo(s, p, l);
      p := p + l;
      if p == |s| {
        break;
      }
      reslen := reslen + 1;
      p := p + 1;
    }
    res := "\"";
    p := 0;
    while true
      invariant p <= |s| && res == ['"'] + EscapeBody(s[..p])
      invariant reslen == |EscapeBody(s)| + 3
      decreases |s| - p
    {
      var l := Span(s, p);
      EscapeUpTo(s, p, l);
      res := res + s[p..p + l];
      p := p + l;
      if p == |s| {
        break;
      }
      res := res + "\\" + [s[p]];
      p := p + 1;
    }
    res := res + "\"";
  }

  lemma EmptyEscape()
    ensures EscapeBody("") == ""
  {
  }

  // ---------- Values ----------

  /** What conf_set_sym_val makes of the text after the = sign; None if it is
      rejected or, for a string without a quote, ignored. */
  function ParseValue(typ: SymType, text: string): Option<E.User> {
    match typ
    case Tristate | Boolean =>
      if text == "" then None
      else if text[0] == 'm' && typ.Tristate? then Some(E.User("", MOD))
      else if text[0] == 'y' then Some(E.User("", YES))
      else if text[0] == 'n' then Some(E.User("", NO))
      else None
    case String =>
      if text == "" || text[0] != '"' then None
      else
        var r := Unescape(text[1..]);
        if r.Some? then Some(E.User(r.value, NO)) else None
    case Int | Hex => if StringValid(typ, text) then Some(E.User(text, NO)) else None
    case Unknown => None
  }

  // ---------- Lines ----------

  function IndexOf(s: string, c: char): (i: nat)
    ensures i <= |s| && (i < |s| ==> s[i] == c)
    ensures forall k :: 0 <= k < i ==> s[k] != c
  {
    if s == "" || s[0] == c then 0 else 1 + IndexOf(s[1..], c)
  }

  datatype LineKind = Skip | Unset(name: string) | Assign(name: string, text: string)

  const IS_NOT_SET := "is not set"

  predicate StartsWith(s: string, t: string) {
    |s| >= |t| && s[..|t|] == t
  }

  /** The value text without the end of the line. */
  function Chomp(text: string): string {
    var i := IndexOf(text, '\n');
    if i == |text| then text
    else if i > 0 && text[i - 1] == '\r' then text[..i - 1]
    else text[..i]
  }

  function ParseLine(prefix: string, line: string): LineKind {
    if line != "" && line[0] == '#' then
      if |line| < 2 || !StartsWith(line[2..], prefix) then Skip
      else
        var body := line[2 + |prefix|..];
        var i := IndexOf(body, ' ');
        if i < |body| && StartsWith(body[i + 1..], IS_NOT_SET) then Unset(body[..i]) else Skip
    else if StartsWith(line, prefix) then
      var body := line[|prefix|..];
      var i := IndexOf(body, '=');
      if i < |body| then Assign(body[..i], Chomp(body[i + 1..])) else Skip
    else Skip
  }

  type Find = string -> Option<Sym>

  function ApplyLine(find: Find, user: map<Sym, E.User>, line: LineKind): map<Sym, E.User> {
    if line.Skip? || find(line.name).None? then user
    else
      var s := find(line.name).value;
      if line.Unset? then (if s.IsTri() then user[s := E.User("", NO)] else user)
      else
        var v := ParseValue(s.Type(), line.text);
        if v.Some? then user[s := v.value] else user
  }

  /** The first line with its newline; the last one may have none. */
  function FirstLine(s: string): (l: string)
    ensures |l| <= |s| && l == s[..|l|] && (s != "" ==> l != "")
  {
    var i := IndexOf(s, '\n');
    if i == |s| then s else s[..i + 1]
  }

  lemma FirstLineIs(s: string, n: nat)
    requires n <= |s| && (forall k :: 0 <= k < n ==> s[k] != '\n') && (n < |s| ==> s[n] == '\n')
    ensures FirstLine(s) == if n < |s| then s[..n + 1] else s[..n]
  {
    IndexIs(s, '\n', n);
  }

  /** The user values after the rest of the file. */
  function ReadFrom(prefix: string, find: Find, user: map<Sym, E.User>, s: string): map<Sym, E.User>
    decreases |s|
  {
    if s == "" then user
    else
      var l := FirstLine(s);
      ReadFrom(prefix, find, ApplyLine(find, user, ParseLine(prefix, l)), s[|l|..])
  }

  // ---------- Writing ----------

  function PrintSymbol(prefix: string, name: string, typ: SymType, value: string): string {
    if (typ.Boolean? || typ.Tristate?) && value != "" && value[0] == 'n' then
      "# " + prefix + name + " is not set\n"
    else prefix + name + "=" + value + "\n"
  }

  function WriteSymbol(prefix: string, s: Sym, value: string): string {
    match s.Type()
    case Unknown => ""
    case String => PrintSymbol(prefix, NameOf(s), String, Escape(value))
    case _ => PrintSymbol(prefix, NameOf(s), s.Type(), value)
  }

  function NameOf(s: Sym): string {
    if s.Named? then s.name else ""
  }

  datatype Item = Item(s: Sym, value: string)

  function WriteAll(prefix: string, items: seq<Item>): string {
    if items == [] then "" else WriteSymbol(prefix, items[0].s, items[0].value) + WriteAll(prefix, items[1..])
  }

  // ---------- Reading back ----------

  predicate NameChar(c: char) {
    'A' <= c <= 'Z' || 'a' <= c <= 'z' || '0' <= c <= '9' || c == '_'
  }

  predicate NameText(s: string) {
    forall c <- s :: NameChar(c)
  }

  /** The values a symbol of the type can have. */
  predicate Possible(typ: SymType, value: string) {
    match typ
    case Boolean => value == "n" || value == "y"
    case Tristate => value == "n" || value == "m" || value == "y"
    case String => '\n' !in value && '\0' !in value
    case Int | Hex => StringValid(typ, value)
    case Unknown => false
  }

  /** The user value that stands for the symbol's value. */
  function Saved(typ: SymType, value: string): E.User {
    if typ.Boolean? || typ.Tristate? then
      E.User("", if value == "y" then YES else if value == "m" then MOD else NO)
    else E.User(value, NO)
  }

  lemma IndexOfFirst(a: string, c: char, b: string)
    requires c !in a
    ensures IndexOf(a + [c] + b, c) == |a|
  {
    var s := a + [c] + b;
    assert s[|a|] == c;
    assert forall k :: 0 <= k < |a| ==> s[k] == a[k];
  }

  lemma {:induction false} IndexIs(s: string, c: char, i: nat)
    requires i <= |s| && (forall k :: 0 <= k < i ==> s[k] != c) && (i < |s| ==> s[i] == c)
    ensures IndexOf(s, c) == i
  {
    if s != "" && i > 0 {
      IndexIs(s[1..], c, i - 1);
    }
  }

  /** A line that unsets a symbol is read as such. */
  lemma ParseUnset(prefix: string, name: string)
    requires NameText(prefix) && NameText(name)
    ensures ParseLine(prefix, "# " + prefix + name + " is not set\n") == Unset(name)
  {
    hide IndexOf;
    var line := "# " + prefix + name + " is not set\n";
    var body := name + [' '] + "is not set\n";
    assert line == "# " + (prefix + body) by {
      assert body == name + " is not set\n";
    }
    assert line[2..] == prefix + body && line[0] == '#';
    assert (prefix + body)[..|prefix|] == prefix;
    assert line[2 + |prefix|..] == (prefix + body)[|prefix|..] == body;
    assert ' ' !in name;
    IndexOfFirst(name, ' ', "is not set\n");
    assert body[..|name|] == name && body[|name| + 1..] == "is not set\n";
    assert ("is not set\n")[..10] == IS_NOT_SET;
  }

  lemma ChompLine(value: string)
    requires '\n' !in value && (value != "" ==> value[|value| - 1] != '\r')
    ensures Chomp(value + "\n") == value
  {
    IndexOfFirst(value, '\n', "");
    assert value + ['\n'] + "" == value + "\n";
    assert (value + "\n")[..|value|] == value;
  }

  lemma ParseBody(prefix: string, body: string)
    requires NameText(prefix) && body != "" && body[0] != '#'
    ensures ParseLine(prefix, prefix + body) ==
      var i := IndexOf(body, '=');
      if i < |body| then Assign(body[..i], Chomp(body[i + 1..])) else Skip
  {
    hide IndexOf, Chomp;
    var line := prefix + body;
    assert line[..|prefix|] == prefix && line[|prefix|..] == body;
    assert line[0] != '#' by {
      if prefix != "" {
        assert line[0] == prefix[0] && prefix[0] in prefix;
      }
    }
  }

  lemma Assoc(a: string, b: string, c: string)
    ensures a + b + c == a + (b + c)
  {
  }

  lemma ParseNameIs(prefix: string, name: string, tail: string)
    requires NameText(prefix) && NameText(name) && name != ""
    ensures ParseLine(prefix, prefix + name + "=" + tail) == Assign(name, Chomp(tail))
  {
    hide ParseLine, Chomp;
    var body := name + "=" + tail;
    Assoc(prefix, name, "=");
    Assoc(prefix, name + "=", tail);
    assert body[0] == name[0] && name[0] in name && '=' !in name;
    ParseBody(prefix, body);
    IndexOfFirst(name, '=', tail);
    assert body[..|name|] == name && body[|name| + 1..] == tail;
  }

  lemma ParseAssign(prefix: string, name: string, value: string)
    requires NameText(prefix) && NameText(name) && name != ""
    requires '\n' !in value && (value != "" ==> value[|value| - 1] != '\r')
    ensures ParseLine(prefix, prefix + name + "=" + value + "\n") == Assign(name, value)
  {
    hide ParseLine, Chomp;
    ParseNameIs(prefix, name, value + "\n");
    ChompLine(value);
    Assoc(prefix + name + "=", value, "\n");
  }

  lemma NumberText(typ: SymType, value: string)
    requires (typ.Int? || typ.Hex?) && StringValid(typ, value)
    ensures forall c <- value :: c != '\n' && c != '\r'
  {
    forall c <- value
      ensures c != '\n' && c != '\r'
    {
      var k :| 0 <= k < |value| && value[k] == c;
      if typ.Int? {
        if WithoutSign(value) != value && k > 0 {
          assert WithoutSign(value)[k - 1] == c;
        }
      } else if WithoutHexPrefix(value) != value && k >= 2 {
        assert WithoutHexPrefix(value)[k - 2] == c;
      }
    }
  }

  /** One line: what was written for a symbol gives it its value back. */
  lemma LineRestores(prefix: string, find: Find, user: map<Sym, E.User>, item: Item)
    requires NameText(prefix) && item.s.Named? && NameText(item.s.name) && item.s.name != ""
    requires Possible(item.s.typ, item.value) && find(item.s.name) == Some(item.s)
    ensures var line := WriteSymbol(prefix, item.s, item.value);
      && ApplyLine(find, user, ParseLine(prefix, line)) == user[item.s := Saved(item.s.typ, item.value)]
  {
    hide ParseLine, StringValid, EscapeBody;
    var s, value := item.s, item.value;
    match s.typ
    case Boolean | Tristate =>
      if value == "n" {
        ParseUnset(prefix, s.name);
      } else {
        assert value == "y" || value == "m";
        ParseAssign(prefix, s.name, value);
      }
    case String =>
      EscapeAddsNone(value, '\n');
      ParseAssign(prefix, s.name, Escape(value));
      UnescapeEscape(value, "");
      assert Escape(value)[1..] == EscapeBody(value) + (['"'] + "");
    case Int | Hex =>
      NumberText(s.typ, value);
      assert value != "" ==> value[|value| - 1] in value;
      ParseAssign(prefix, s.name, value);
  }

  /** Without a closing quote nothing is accepted. */
  lemma {:induction false} UnescapeUnclosed(s: string)
    ensures Unescape(EscapeBody(s)) == None
  {
    if s != "" {
      var rest := EscapeBody(s[1..]);
      UnescapeUnclosed(s[1..]);
      assert EscapeBody(s) == (if Special(s[0]) then ['\\', s[0]] else [s[0]]) + rest;
      hide Unescape, EscapeBody;
      UnescapeNext(s[0], rest);
    }
  }

  lemma {:induction false} EscapeSplit(a: string, b: string)
    ensures EscapeBody(a + b) == EscapeBody(a) + EscapeBody(b)
  {
    if a == "" {
      assert a + b == b;
    } else {
      assert (a + b)[1..] == a[1..] + b;
      EscapeSplit(a[1..], b);
    }
  }

  lemma QuoteBroken(x: string, y: string)
    ensures ['"'] + (x + ("\n" + y)) + ['"'] == (['"'] + x) + "\n" + (y + ['"'])
  {
  }

  lemma EscapeBroken(value: string, part: string, after: string)
    requires value == part + ("\n" + after)
    ensures Escape(value) == (['"'] + EscapeBody(part)) + "\n" + (EscapeBody(after) + ['"'])
  {
    hide EscapeBody;
    EscapeSplit(part, "\n" + after);
    EscapeSplit("\n", after);
    NewlineEscape();
    QuoteBroken(EscapeBody(part), EscapeBody(after));
  }

  /** What the first line of a string value that holds a newline parses as. */
  lemma BrokenValue(prefix: string, name: string, value: string) returns (part: string)
    requires NameText(prefix) && NameText(name) && name != "" && '\n' in value
    ensures ParseLine(prefix, FirstLine(PrintSymbol(prefix, name, String, Escape(value)))) ==
      Assign(name, ['"'] + EscapeBody(part))
  {
    hide ParseLine, EscapeBody, Escape, PrintSymbol, FirstLine, Chomp;
    var before, after := AtNewline(value);
    FirstOfBroken(prefix, name, value, before, after);
    part := ParseBroken(prefix, name, before);
  }

  lemma AtNewline(value: string) returns (part: string, after: string)
    requires '\n' in value
    ensures value == part + ("\n" + after) && '\n' !in part
  {
    var i := IndexOf(value, '\n');
    part, after := value[..i], value[i + 1..];
  }

  lemma ParseBroken(prefix: string, name: string, before: string) returns (part: string)
    requires NameText(prefix) && NameText(name) && name != "" && '\n' !in before
    ensures ParseLine(prefix, prefix + name + "=" + (['"'] + EscapeBody(before)) + "\n") ==
      Assign(name, ['"'] + EscapeBody(part))
  {
    hide ParseLine, EscapeBody, Chomp;
    EscapeAddsNone(before, '\n');
    if before != "" && before[|before| - 1] == '\r' {
      part := before[..|before| - 1];
      assert before == part + ['\r'];
      ParseAssignReturn(prefix, name, part);
    } else {
      EscapeEnd(before);
      ParseAssign(prefix, name, ['"'] + EscapeBody(before));
      part := before;
    }
  }

  lemma FirstOfBroken(prefix: string, name: string, value: string, part: string, after: string)
    requires NameText(prefix) && NameText(name) && value == part + ("\n" + after) && '\n' !in part
    ensures FirstLine(PrintSymbol(prefix, name, String, Escape(value))) ==
      prefix + name + "=" + (['"'] + EscapeBody(part)) + "\n"
  {
    hide EscapeBody, FirstLine, Escape;
    var b, c := ['"'] + EscapeBody(part), EscapeBody(after) + ['"'];
    EscapeBroken(value, part, after);
    EscapeAddsNone(part, '\n');
    assert '\n' !in prefix && '\n' !in name;
    hide NameText;
    BrokenLine(prefix + name + "=", b, c);
    FirstOfTwo(prefix + name + "=" + b, c + "\n");
  }

  lemma BrokenLine(a: string, b: string, c: string)
    ensures a + (b + "\n" + c) + "\n" == (a + b) + "\n" + (c + "\n")
  {
  }

  lemma FirstOfTwo(front: string, rest: string)
    requires '\n' !in front
    ensures FirstLine(front + "\n" + rest) == front + "\n"
  {
    IndexOfFirst(front, '\n', rest);
    assert front + ['\n'] + rest == front + "\n" + rest;
    assert (front + "\n" + rest)[..|front| + 1] == front + "\n";
  }

  lemma NewlineEscape()
    ensures EscapeBody("\n") == "\n"
  {
    assert "\n"[1..] == "" && EscapeBody("") == "";
  }

  /** The last character stays the last one. */
  lemma EscapeEnd(part: string)
    ensures part == "" ==> EscapeBody(part) == ""
    ensures part != "" ==> EscapeBody(part) != "" && EscapeBody(part)[|EscapeBody(part)| - 1] == part[|part| - 1]
  {
    if part != "" {
      EscapeSnoc(part[..|part| - 1], part[|part| - 1]);
      assert part == part[..|part| - 1] + [part[|part| - 1]];
    }
  }

  /** A carriage return before the newline is cut off as well. */
  lemma ParseAssignReturn(prefix: string, name: string, less: string)
    requires NameText(prefix) && NameText(name) && name != "" && '\n' !in less
    ensures ParseLine(prefix, prefix + name + "=" + (['"'] + EscapeBody(less + ['\r'])) + "\n") ==
      Assign(name, ['"'] + EscapeBody(less))
  {
    hide EscapeBody, ParseLine, Chomp;
    var value, text := ['"'] + EscapeBody(less), ['"'] + EscapeBody(less + ['\r']);
    EscapeReturn(less);
    EscapeAddsNone(less, '\n');
    ChompReturn(value);
    ParseNameIs(prefix, name, text + "\n");
    Assoc(prefix + name + "=", text, "\n");
  }

  lemma EscapeReturn(less: string)
    ensures ['"'] + EscapeBody(less + ['\r']) == ['"'] + EscapeBody(less) + "\r"
  {
    EscapeSnoc(less, '\r');
    hide EscapeBody;
    Assoc(['"'], EscapeBody(less), "\r");
  }

  lemma ChompReturn(value: string)
    requires '\n' !in value
    ensures Chomp(value + "\r" + "\n") == value
  {
    var text := value + "\r";
    IndexOfFirst(text, '\n', "");
    assert text + ['\n'] + "" == text + "\n";
    assert (text + "\n")[..|value|] == value;
  }

  /** What is written for a symbol is one line. */
  lemma WrittenIsLine(prefix: string, item: Item, rest: string)
    requires NameText(prefix) && item.s.Named? && NameText(item.s.name)
    requires Possible(item.s.typ, item.value)
    ensures var line := WriteSymbol(prefix, item.s, item.value);
      line != "" && FirstLine(line + rest) == line
  {
    hide StringValid, EscapeBody;
    var s, value := item.s, item.value;
    var line := WriteSymbol(prefix, s, value);
    if s.typ.String? {
      EscapeAddsNone(value, '\n');
    } else if s.typ.Int? || s.typ.Hex? {
      NumberText(s.typ, value);
    }
    assert '\n' !in prefix && '\n' !in s.name;
    var front := line[..|line| - 1];
    assert line == front + ['\n'] && '\n' !in front;
    IndexOfFirst(front, '\n', rest);
    assert line + rest == front + ['\n'] + rest;
  }

  function SavedAll(user: map<Sym, E.User>, items: seq<Item>): map<Sym, E.User>
    decreases |items|
  {
    if items == [] then user
    else SavedAll(user[items[0].s := Saved(items[0].s.Type(), items[0].value)], items[1..])
  }

  /** Every item can be written, and its name finds it again. */
  predicate Findable(find: Find, item: Item) {
    && item.s.Named? && NameText(item.s.name) && item.s.name != "" && Possible(item.s.typ, item.value)
    && find(item.s.name) == Some(item.s)
  }

  /** Reading the whole file restores every value that was written. */
  lemma {:induction false} FileRestores(prefix: string, find: Find, user: map<Sym, E.User>, items: seq<Item>)
    requires NameText(prefix) && forall item <- items :: Findable(find, item)
    ensures ReadFrom(prefix, find, user, WriteAll(prefix, items)) == SavedAll(user, items)
    decreases |items|
  {
    hide ParseLine, ApplyLine, WriteSymbol, FirstLine, Saved, Possible;
    if items != [] {
      var line := WriteSymbol(prefix, items[0].s, items[0].value);
      var rest := WriteAll(prefix, items[1..]);
      assert Findable(find, items[0]);
      WrittenIsLine(prefix, items[0], rest);
      LineRestores(prefix, find, user, items[0]);
      assert (line + rest)[|line|..] == rest;
      FileRestores(prefix, find, user[items[0].s := Saved(items[0].s.Type(), items[0].value)], items[1..]);
    }
  }

  /** No symbol twice: then each one has exactly the value written for it, and
      no other symbol has one. */
  lemma {:induction false} SavedExactly(user: map<Sym, E.User>, items: seq<Item>, k: nat)
    requires forall i, j :: 0 <= i < j < |items| ==> items[i].s != items[j].s
    requires k < |items|
    ensures var r := SavedAll(user, items);
      items[k].s in r && r[items[k].s] == Saved(items[k].s.Type(), items[k].value)
    ensures forall s: Sym :: (forall item <- items :: item.s != s) ==>
      (s in SavedAll(user, items) <==> s in user)
    decreases |items|
  {
    var now := user[items[0].s := Saved(items[0].s.Type(), items[0].value)];
    if |items| > 1 {
      SavedExactly(now, items[1..], if k == 0 then 0 else k - 1);
      if k == 0 {
        SavedKeeps(now, items[1..], items[0].s);
      }
    }
  }

  lemma {:induction false} SavedKeeps(user: map<Sym, E.User>, items: seq<Item>, s: Sym)
    requires s in user && forall item <- items :: item.s != s
    ensures s in SavedAll(user, items) && SavedAll(user, items)[s] == user[s]
    decreases |items|
  {
    if items != [] {
      SavedKeeps(user[items[0].s := Saved(items[0].s.Type(), items[0].value)], items[1..], s);
    }
  }
}
