/**
  Reading a configuration file in place: the growing line buffer, the NULs
  written into a line, and the unescaping of a value where it stands.
 */
module ConfigReader {
  import opened Expressions
  import opened ConfigText
  import R = Ranges
  import E = Evaluation

  /** The text that starts at p ends with the NUL at e. */
  ghost predicate CStr(b: array<char>, p: nat, e: nat)
    reads b
  {
    p <= e < b.Length && b[e] == '\0' && forall k :: p <= k < e ==> b[k] != '\0'
  }

  lemma Unchanged(b: array<char>, p: nat, t: string)
    requires p + |t| <= b.Length && forall k :: 0 <= k < |t| ==> b[p + k] == t[k]
    ensures b[p..p + |t|] == t
  {
  }

  lemma Snoc(s: string, k: nat)
    requires k < |s|
    ensures s[..k + 1] == s[..k] + [s[k]]
  {
  }

  lemma Rest(s: string, p: nat)
    requires p <= |s|
    ensures forall k :: 0 <= k < |s| - p ==> s[p..][k] == s[p + k]
    ensures forall c :: c !in s ==> c !in s[p..]
  {
  }

  /** A text written with a NUL behind it. */
  lemma Terminated(b: array<char>, t: string)
    requires |t| < b.Length && b[..|t| + 1] == t + ['\0'] && '\0' !in t
    ensures CStr(b, 0, |t|) && b[..|t|] == t
  {
    assert forall k :: 0 <= k <= |t| ==> b[k] == b[..|t| + 1][k];
  }

  /** strchr, but at the end of the text where c does not occur */
  method StrChr(b: array<char>, p: nat, c: char, ghost e: nat) returns (i: nat)
    requires CStr(b, p, e) && c != '\0'
    ensures i - p == IndexOf(b[p..e], c) && p <= i <= e
    ensures b[i] == '\0' <==> i == e
  {
    i := p;
    while b[i] != '\0' && b[i] != c
      invariant p <= i <= e && forall k :: p <= k < i ==> b[k] != c
      decreases e - i
    {
      i := i + 1;
    }
    IndexIs(b[p..e], c, i - p);
  }

  /** strpbrk for a quote or a backslash */
  method NextSpecial(b: array<char>, p: nat, ghost e: nat) returns (i: nat)
    requires CStr(b, p, e)
    ensures p <= i <= e && (b[i] == '\0' <==> i == e)
    ensures (forall k :: p <= k < i ==> !Special(b[k])) && (i < e ==> Special(b[i]))
  {
    i := p;
    while b[i] != '\0' && !Special(b[i])
      invariant p <= i <= e && forall k :: p <= k < i ==> !Special(b[k])
      decreases e - i
    {
      i := i + 1;
    }
  }

  /** A copy of the text, as by strdup. */
  method Copy(b: array<char>, p: nat, ghost e: nat) returns (s: string)
    requires CStr(b, p, e)
    ensures s == b[p..e]
  {
    var i := p;
    s := "";
    while b[i] != '\0'
      invariant p <= i <= e && s == b[p..i]
      decreases e - i
    {
      s := s + [b[i]];
      i := i + 1;
    }
  }

  /** memmove(p, p + 1, strlen(p)): the text loses its first character. */
  method DropFirst(b: array<char>, p: nat, ghost e: nat)
    requires CStr(b, p, e) && p < e
    modifies b
    ensures forall k :: 0 <= k < b.Length ==> b[k] == old(if p <= k < e then b[k + 1] else b[k])
  {
    var i := p;
    while b[i] != '\0'
      invariant p <= i <= e
      invariant forall k :: 0 <= k < b.Length ==> b[k] == old(if p <= k < i then b[k + 1] else b[k])
      decreases e - i
    {
      b[i] := b[i + 1];
      i := i + 1;
    }
  }

  // ---------- Unescaping ----------

  function PrependAll(v: string, r: Option<string>): Option<string> {
    if r.Some? then Some(v + r.value) else None
  }

  lemma PrependNothing(r: Option<string>)
    ensures PrependAll("", r) == r
  {
    if r.Some? {
      assert "" + r.value == r.value;
    }
  }

  lemma {:induction false} UnescapeSpan(a: string, r: string)
    requires forall c <- a :: !Special(c)
    ensures Unescape(a + r) == PrependAll(a, Unescape(r))
  {
    if a == "" {
      assert a + r == r;
      PrependNothing(Unescape(r));
    } else {
      assert a + r == [a[0]] + (a[1..] + r);
      UnescapeNext(a[0], a[1..] + r);
      UnescapeSpan(a[1..], r);
      if Unescape(r).Some? {
        assert [a[0]] + (a[1..] + Unescape(r).value) == a + Unescape(r).value;
      }
    }
  }

  /** How the loop stands: up to p2 the buffer holds what has been decoded, from p2
      to t what is still to be. */
  ghost predicate Decoding(b: array<char>, p: nat, p2: nat, t: nat, text: string)
    reads b
  {
    && p <= p2 && CStr(b, p2, t)
    && Unescape(text) == PrependAll(b[p..p2], Unescape(b[p2..t]))
    && (Unescape(b[p2..t]).Some? ==> forall k :: p <= k < p2 ==> b[k] != '\0')
  }

  /** One backslash: it goes, and the character behind it is skipped. */
  method DropBackslash(b: array<char>, p: nat, p2: nat, ghost t: nat, ghost text: string) returns (ghost t2: nat)
    requires Decoding(b, p, p2, t, text) && p2 < t && b[p2] == '\\'
    modifies b
    ensures Decoding(b, p, p2 + 1, t2, text) && t2 <= t && t2 - (p2 + 1) < t - p2
    ensures forall k :: 0 <= k < b.Length && !(p2 <= k < t) ==> b[k] == old(b[k])
  {
    ghost var done, rest := b[p..p2], b[p2..t];
    DropFirst(b, p2, t);
    t2 := if p2 + 1 < t then t - 1 else t;
    assert b[p..p2] == done;
    if p2 + 1 < t {
      assert b[p..p2 + 1] == done + [rest[1]];
      assert b[p2 + 1..t2] == rest[2..];
      assert rest[0] == '\\' && Unescape(rest) == Prepend(rest[1], Unescape(rest[2..]));
      if Unescape(rest[2..]).Some? {
        assert done + ([rest[1]] + Unescape(rest[2..]).value) == done + [rest[1]] + Unescape(rest[2..]).value;
      }
    } else {
      assert rest == ['\\'] && b[p2 + 1..t2] == "";
    }
  }

  /** The loop of conf_set_sym_val over a string: what stands between the quotes is
      decoded where it is and ends with a NUL. */
  method UnescapeInPlace(b: array<char>, p: nat, ghost e: nat) returns (ok: bool, ghost end: nat)
    requires CStr(b, p, e)
    modifies b
    ensures ok <==> old(Unescape(b[p..e])).Some?
    ensures ok ==> CStr(b, p, end) && end <= e && b[p..end] == old(Unescape(b[p..e])).value
    ensures forall k :: 0 <= k < b.Length && !(p <= k < e) ==> b[k] == old(b[k])
  {
    ghost var text := b[p..e];
    var p2 := p;
    ghost var t := e;
    assert b[p..p] == "";
    PrependNothing(Unescape(text));
    end := e;
    while true
      invariant p2 <= t <= e && Decoding(b, p, p2, t, text)
      invariant forall k :: 0 <= k < b.Length && !(p <= k < e) ==> b[k] == old(b[k])
      decreases t - p2
    {
      var q := NextSpecial(b, p2, t);
      Spanned(b, p, p2, q, t, text);
      p2 := q;
      if b[p2] == '\0' {
        return false, e;
      }
      if b[p2] == '"' {
        assert b[p2..t][0] == '"';
        ghost var done := b[p..p2];
        b[p2] := '\0';
        assert b[p..p2] == done;
        return true, p2;
      }
      t := DropBackslash(b, p, p2, t, text);
      p2 := p2 + 1;
    }
  }

  /** Ordinary characters stand for themselves. */
  lemma Spanned(b: array<char>, p: nat, p2: nat, q: nat, t: nat, text: string)
    requires Decoding(b, p, p2, t, text) && p2 <= q <= t
    requires forall k :: p2 <= k < q ==> !Special(b[k])
    ensures Decoding(b, p, q, t, text)
  {
    var span, rest := b[p2..q], b[q..t];
    assert b[p2..t] == span + rest;
    UnescapeSpan(span, rest);
    assert b[p..q] == b[p..p2] + span;
    if Unescape(rest).Some? {
      assert b[p..p2] + (span + Unescape(rest).value) == b[p..p2] + span + Unescape(rest).value;
    }
  }

  // ---------- The reader ----------

  lemma UnsetKind(prefix: string, text: string)
    requires text != "" && text[0] == '#'
    ensures |text| < 2 || !StartsWith(text[2..], prefix) ==> ParseLine(prefix, text) == Skip
    ensures |text| >= 2 && StartsWith(text[2..], prefix) ==>
      var start := 2 + |prefix|;
      var p := start + IndexOf(text[start..], ' ');
      ParseLine(prefix, text) ==
        if p < |text| && StartsWith(text[p + 1..], IS_NOT_SET) then Unset(text[start..p]) else Skip
  {
    if |text| >= 2 && StartsWith(text[2..], prefix) {
      var start := 2 + |prefix|;
      var body := text[start..];
      var i := IndexOf(body, ' ');
      assert body[..i] == text[start..start + i];
      assert i < |body| ==> body[i + 1..] == text[start + i + 1..];
    }
  }

  lemma AssignKind(prefix: string, text: string)
    requires StartsWith(text, prefix) && (text != "" ==> text[0] != '#')
    ensures var start := |prefix|;
      var p := start + IndexOf(text[start..], '=');
      ParseLine(prefix, text) == if p < |text| then Assign(text[start..p], Chomp(text[p + 1..])) else Skip
  {
    hide Chomp;
    var start := |prefix|;
    var body := text[start..];
    var i := IndexOf(body, '=');
    assert body[..i] == text[start..start + i];
    assert i < |body| ==> body[i + 1..] == text[start + i + 1..];
  }

  const LINE_GROWTH := 16

  class Reader {
    const prefix: string
    const find: Find
    /** The file, and how much of it has been read. */
    const stream: string
    var pos: nat
    /** The line buffer. */
    var line: array<char>
    var user: map<Sym, E.User>

    constructor (prefix: string, find: Find, stream: string)
      requires '\0' !in prefix && '\0' !in stream
      ensures this.prefix == prefix && this.find == find && this.stream == stream
      ensures Valid() && pos == 0 && user == map[] && fresh(line)
    {
      this.prefix, this.find, this.stream := prefix, find, stream;
      pos, user := 0, map[];
      line := new char[0];
    }

    ghost predicate Valid()
      reads this`pos
    {
      pos <= |stream| && '\0' !in stream && '\0' !in prefix
    }

    /** add_byte: the buffer grows when the byte does not fit. */
    method AddByte(c: char, slen: nat)
      requires slen <= line.Length
      modifies this`line, line
      ensures line == old(line) || fresh(line)
      ensures slen < line.Length && line[..slen + 1] == old(line[..slen]) + [c]
    {
      var newSize := slen + 1;
      if newSize > line.Length {
        newSize := (newSize + LINE_GROWTH - 1) * 2;
        var bigger, was := new char[newSize], line;
        for i := 0 to was.Length
          invariant line == was && was[..] == old(was[..])
          invariant forall k :: 0 <= k < i ==> bigger[k] == was[k]
        {
          bigger[i] := was[i];
        }
        line := bigger;
      }
      line[slen] := c;
    }

    /** compat_getline: the next line and a NUL, or -1 at the end of the file. */
    method GetLine() returns (n: int)
      requires Valid()
      modifies this`pos, this`line, line
      ensures Valid() && (line == old(line) || fresh(line))
      ensures n == -1 <==> old(pos) == |stream|
      ensures n == -1 ==> pos == old(pos)
      ensures n != -1 ==> 0 < n == pos - old(pos) && CStr(line, 0, n) && line[..n] == FirstLine(stream[old(pos)..])
    {
      hide FirstLine, CStr;
      ghost var rest := stream[pos..];
      Rest(stream, pos);
      var slen := 0;
      while pos < |stream| && stream[pos] != '\n'
        invariant slen == pos - old(pos) && old(pos) <= pos <= |stream| && slen <= line.Length
        invariant line == old(line) || fresh(line)
        invariant line[..slen] == rest[..slen]
        invariant forall k :: 0 <= k < slen ==> rest[k] != '\n'
        decreases |stream| - pos
      {
        AddByte(stream[pos], slen);
        Snoc(rest, slen);
        slen, pos := slen + 1, pos + 1;
      }
      FirstLineIs(rest, slen);
      if pos < |stream| {
        AddByte('\n', slen);
        Snoc(rest, slen);
        slen, pos := slen + 1, pos + 1;
      }
      AddByte('\0', slen);
      assert '\0' !in rest[..slen];
      Terminated(line, rest[..slen]);
      n := if slen == 0 then -1 else slen;
    }

    /** memcmp(line + i, prefix, strlen(prefix)) == 0 */
    method PrefixAt(i: nat, ghost e: nat) returns (same: bool)
      requires CStr(line, i, e) && '\0' !in prefix
      ensures same <==> StartsWith(line[i..e], prefix)
    {
      var k := 0;
      while k < |prefix|
        invariant k <= |prefix| && i + k <= e && forall j :: 0 <= j < k ==> line[i + j] == prefix[j]
      {
        assert prefix[k] in prefix;
        if line[i + k] != prefix[k] {
          assert i + k < e ==> line[i..e][k] != prefix[k];
          return false;
        }
        k := k + 1;
      }
      assert line[i..e][..|prefix|] == prefix;
      same := true;
    }

    /** strncmp(line + i, "is not set", 10) == 0 */
    method IsNotSetAt(i: nat, ghost e: nat) returns (same: bool)
      requires CStr(line, i, e)
      ensures same <==> StartsWith(line[i..e], IS_NOT_SET)
    {
      var k := 0;
      while k < 10
        invariant k <= 10 && i + k <= e && forall j :: 0 <= j < k ==> line[i + j] == IS_NOT_SET[j]
      {
        if line[i + k] != IS_NOT_SET[k] {
          assert i + k < e ==> line[i..e][k] != IS_NOT_SET[k];
          return false;
        }
        k := k + 1;
      }
      assert line[i..e][..10] == IS_NOT_SET;
      same := true;
    }

    /** conf_set_sym_val: the text at p becomes the user value of s, or is refused. */
    method SetSymVal(s: Sym, p: nat, ghost e: nat) returns (refused: bool)
      requires CStr(line, p, e)
      modifies this`user, line
      ensures var v := old(ParseValue(s.Type(), line[p..e]));
        && user == (if v.Some? then old(user)[s := v.value] else old(user))
        && (refused ==> v.None?)
    {
      ghost var text := line[p..e];
      assert text == "" <==> p == e;
      assert text != "" ==> text[0] == line[p];
      refused := false;
      if s.IsTri() {
        if line[p] == 'm' && s.Type().Tristate? {
          user := user[s := E.User("", MOD)];
        } else if line[p] == 'y' {
          user := user[s := E.User("", YES)];
        } else if line[p] == 'n' {
          user := user[s := E.User("", NO)];
        } else {
          return true;
        }
      } else if s.Type().String? {
        if line[p] != '"' {
          return false;
        }
        assert line[p + 1..e] == text[1..];
        var ok, end := UnescapeInPlace(line, p + 1, e);
        if !ok {
          return true;
        }
        var value := Copy(line, p + 1, end);
        user := user[s := E.User(value, NO)];
      } else if s.Type().Int? || s.Type().Hex? {
        var value := Copy(line, p, e);
        assert '\0' !in value;
        var valid := R.SymStringValid(s.Type(), value);
        if !valid {
          return true;
        }
        user := user[s := E.User(value, NO)];
      }
    }

    /** The name between start and the NUL written at p. */
    method NameAt(start: nat, p: nat) returns (s: Option<Sym>)
      requires CStr(line, start, p)
      ensures s == find(line[start..p])
    {
      var name := Copy(line, start, p);
      s := find(name);
    }

    /** Cuts the value at p off at the end of the line. */
    method CutLine(p: nat, ghost e: nat) returns (ghost end: nat)
      requires 0 < p && CStr(line, p, e) && line[p - 1] == '\0'
      modifies line
      ensures CStr(line, p, end) && line[p..end] == Chomp(old(line[p..e]))
      ensures forall k :: 0 <= k < line.Length && !(p <= k < e) ==> line[k] == old(line[k])
    {
      hide IndexOf;
      ghost var text := line[p..e];
      var p2 := StrChr(line, p, '\n', e);
      end := p2;
      assert text == old(line[p..e]) && forall k :: 0 <= k < |text| ==> text[k] == line[p + k];
      if line[p2] != '\0' {
        line[p2] := '\0';
        p2 := p2 - 1;
        if line[p2] == '\r' {
          line[p2] := '\0';
          end := p2;
        }
      }
      Unchanged(line, p, text[..end - p]);
    }

    /** Writes a NUL over the first c behind start, if there is one before n. */
    method CutAt(start: nat, c: char, n: nat) returns (p: nat)
      requires CStr(line, start, n) && c != '\0'
      modifies line
      ensures p == start + old(IndexOf(line[start..n], c)) && p <= n && CStr(line, start, p)
      ensures line[start..p] == old(line[start..n])[..p - start]
      ensures p < n ==> CStr(line, p + 1, n) && line[p + 1..n] == old(line[start..n])[p + 1 - start..]
    {
      ghost var text := line[start..n];
      p := StrChr(line, start, c, n);
      line[p] := '\0';
      assert line[start..p] == text[..p - start];
      assert p < n ==> line[p + 1..n] == text[p + 1 - start..];
    }

    /** What follows the name at start and its NUL decides whether it is unset. */
    method ApplyUnset(start: nat, p: nat, ghost n: nat)
      requires CStr(line, start, p) && CStr(line, p + 1, n)
      modifies this`user
      ensures user == ApplyLine(find, old(user),
        if StartsWith(line[p + 1..n], IS_NOT_SET) then Unset(line[start..p]) else Skip)
    {
      var unset := IsNotSetAt(p + 1, n);
      if !unset {
        return;
      }
      var s := NameAt(start, p);
      if s.Some? && (s.value.Type().Boolean? || s.value.Type().Tristate?) {
        user := user[s.value := E.User("", NO)];
      }
    }

    /** The name at start and its NUL are followed by a value. */
    method ApplyAssign(start: nat, p: nat, ghost n: nat)
      requires CStr(line, start, p) && CStr(line, p + 1, n)
      modifies this`user, line
      ensures user == ApplyLine(find, old(user), Assign(old(line[start..p]), Chomp(old(line[p + 1..n]))))
    {
      hide ParseValue, Chomp;
      ghost var name := line[start..p];
      ghost var e := CutLine(p + 1, n);
      assert line[start..p] == name;
      var s := NameAt(start, p);
      if s.Some? {
        var _ := SetSymVal(s.value, p + 1, e);
      }
    }

    /** A line that starts with #. */
    method UnsetLine(n: nat)
      requires 0 < n && CStr(line, 0, n) && line[0] == '#' && '\0' !in prefix
      modifies this`user, line
      ensures user == ApplyLine(find, old(user), ParseLine(prefix, old(line[..n])))
    {
      hide ParseLine, ApplyLine, IndexOf;
      ghost var text := line[..n];
      UnsetKind(prefix, text);
      SkipLine(find, user);
      if n < 2 {
        return;
      }
      assert line[2..n] == text[2..];
      var same := PrefixAt(2, n);
      if !same {
        return;
      }
      var start := 2 + |prefix|;
      assert line[start..n] == text[start..];
      var p := CutAt(start, ' ', n);
      if p == n {
        return;
      }
      assert text[start..][..p - start] == text[start..p] && text[start..][p + 1 - start..] == text[p + 1..];
      ApplyUnset(start, p, n);
    }

    /** A line that sets a value. */
    method AssignLine(n: nat)
      requires CStr(line, 0, n) && StartsWith(line[..n], prefix) && (n > 0 ==> line[0] != '#')
      modifies this`user, line
      ensures user == ApplyLine(find, old(user), ParseLine(prefix, old(line[..n])))
    {
      hide ParseLine, ApplyLine, IndexOf, Chomp;
      ghost var text := line[..n];
      AssignKind(prefix, text);
      SkipLine(find, user);
      var start := |prefix|;
      assert line[start..n] == text[start..];
      var p := CutAt(start, '=', n);
      if p == n {
        return;
      }
      assert text[start..][..p - start] == text[start..p] && text[start..][p + 1 - start..] == text[p + 1..];
      ApplyAssign(start, p, n);
    }

    /** One line of the file. */
    method ProcessLine(n: nat)
      requires 0 < n && CStr(line, 0, n) && '\0' !in prefix
      modifies this`user, line
      ensures user == ApplyLine(find, old(user), ParseLine(prefix, old(line[..n])))
    {
      hide ApplyLine;
      ghost var text := line[..n];
      assert line[0..n] == text && text[0] == line[0];
      if line[0] == '#' {
        UnsetLine(n);
      } else {
        var same := PrefixAt(0, n);
        if same {
          AssignLine(n);
        } else {
          SkipLine(find, user);
        }
      }
    }

    /** conf_read_simple, from the point where all user values have been dropped. */
    method ReadSimple()
      requires Valid() && pos == 0
      modifies this`pos, this`line, this`user, line
      ensures user == ReadFrom(prefix, find, map[], stream)
    {
      hide ApplyLine, ParseLine, FirstLine;
      user := map[];
      assert stream[0..] == stream;
      while true
        invariant Valid() && (line == old(line) || fresh(line))
        invariant ReadFrom(prefix, find, user, stream[pos..]) == ReadFrom(prefix, find, map[], stream)
        decreases |stream| - pos
      {
        ghost var rest := stream[pos..];
        var n := GetLine();
        if n == -1 {
          break;
        }
        assert line[0..n] == line[..n];
        ProcessLine(n);
        assert rest[n..] == stream[pos..];
      }
    }
  }

  lemma SkipLine(find: Find, user: map<Sym, E.User>)
    ensures ApplyLine(find, user, Skip) == user
  {
  }
}
