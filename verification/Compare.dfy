/**
  How two symbol values are compared, and why comparing a bool or tristate with
  y, m or n decides equality of their values.
 */
module Compare {
  import opened Expressions
  import opened Numbers

  datatype Parsed = Text | Signed(n: int) | Unsigned(n: int)

  function StrCmp(a: string, b: string): (r: int)
    ensures r == 0 <==> a == b
  {
    if a == "" then (if b == "" then 0 else -1)
    else if b == "" then 1
    else if a[0] != b[0] then (a[0] as int) - (b[0] as int)
    else
      assert a == [a[0]] + a[1..] && b == [b[0]] + b[1..];
      StrCmp(a[1..], b[1..])
  }

  function Pattern64(n: int): nat {
    n % (ULLONG_MAX + 1)
  }

  /** The text is a number if the whole of it was read and it ends in a hex digit. */
  predicate ReadWhole(s: string, end: nat) {
    end == |s| && end > 0 && IsXDigit(s[end - 1])
  }

  function ParseString(s: string, typ: SymType): Parsed {
    match typ
    case Boolean | Tristate => Signed(if s == "n" then 0 else if s == "m" then 1 else if s == "y" then 2 else -1)
    case Hex =>
      var r := ScanInt(16, s);
      if ReadWhole(s, r.end) && -ULLONG_MAX <= r.value <= ULLONG_MAX then Unsigned(Pattern64(r.value)) else Text
    case Int =>
      var r := ScanInt(10, s);
      if ReadWhole(s, r.end) && InLongLong(r.value) then Signed(r.value) else Text
    case String | Unknown =>
      var r := ScanInt(0, s);
      if ReadWhole(s, r.end) && InLongLong(r.value) then Signed(r.value) else Text
  }

  /** Negative, zero or positive. */
  function CompareValues(t1: SymType, s1: string, t2: SymType, s2: string): int {
    var p1 := if t1.String? && t2.String? then Text else ParseString(s1, t1);
    var p2 := if t1.String? && t2.String? then Text else ParseString(s2, t2);
    if p1.Text? || p2.Text? then StrCmp(s1, s2)
    else if p1.Unsigned? || p2.Unsigned? then Pattern64(p1.n) - Pattern64(p2.n)
    else p1.n - p2.n
  }

  function TriText(t: Tri): string {
    if t == NO then "n" else if t == MOD then "m" else "y"
  }

  lemma LetterIsText(t: Tri)
    ensures ParseString(TriText(t), Unknown) == Text
  {
    var s := TriText(t);
    assert s[0..] == s && SkipSpace(s) == 0;
    assert DigitRun(10, s) == 0;
  }

  lemma TriCompareExact(t1: SymType, a: Tri, c: Tri)
    requires t1.Boolean? || t1.Tristate? || t1.Unknown?
    ensures CompareValues(t1, TriText(a), Unknown, TriText(c)) == 0 <==> a == c
  {
    hide ScanInt, ParseString;
    LetterIsText(c);
  }

  /** The order is that of the letters: m comes before n, and n before y. */
  lemma TriOrderIsAlphabetical(t1: SymType)
    requires t1.Boolean? || t1.Tristate?
    ensures CompareValues(t1, TriText(MOD), Unknown, TriText(NO)) < 0
    ensures CompareValues(t1, TriText(NO), Unknown, TriText(YES)) < 0
  {
    hide ScanInt, ParseString;
    LetterIsText(NO);
    LetterIsText(YES);
    assert StrCmp("m", "n") < 0 && StrCmp("n", "y") < 0;
  }

  /** A quoted number is compared by value instead: "2" equals y. */
  lemma TriEqualsNumber(t1: SymType)
    requires t1.Boolean? || t1.Tristate?
    ensures CompareValues(t1, TriText(YES), Unknown, "2") == 0
  {
    hide ScanInt;
    TwoIsNumber();
  }

  lemma TwoIsNumber()
    ensures ScanInt(0, "2") == Scan(2, 1)
  {
    var s := "2";
    assert s[0..] == s && SkipSpace(s) == 0;
    assert s[1..] == "" && DigitRun(10, s[1..]) == 0 && DigitRun(10, s) == 1;
    assert s[..1] == s && s[..0] == "";
    assert NumberOf(10, s) == NumberOf(10, s[..0]) * 10 + 2;
    assert ScanMagnitude(0, s) == Scan(2, 1);
  }
}
