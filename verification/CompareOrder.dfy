/**
  The order of two values: numbers by size, strings by their first difference.
 */
module CompareOrder {
  import opened Expressions
  import opened Evaluation
  import opened Compare
  import opened Numbers

  // ---------- Numbers ----------

  /** A decimal number is read whole, also where the base is chosen by its looks. */
  lemma DecimalScanned(n: int, base: nat)
    requires base == 0 || base == 10
    ensures ScanInt(base, PrintInt(n)) == Scan(n, |PrintInt(n)|) && ReadWhole(PrintInt(n), |PrintInt(n)|)
  {
    var s, digits := PrintInt(n), PrintNat(10, if n < 0 then -n else n);
    DigitsScanned(digits, base);
    assert IsDigit(digits[0]) && IsXDigit(digits[|digits| - 1]);
    hide ScanMagnitude;
    if n < 0 {
      assert s[0] == '-' && s[1..] == digits && SkipSpace(s) == 0;
    } else {
      assert s == digits && s[0..] == s && SkipSpace(s) == 0;
    }
  }

  /** Decimal digits without a leading zero. */
  lemma DigitsScanned(digits: string, base: nat)
    requires digits != "" && AllDigits(10, digits) && (digits[0] == '0' ==> digits == "0")
    requires base == 0 || base == 10
    ensures ScanMagnitude(base, digits) == Scan(NumberOf(10, digits), |digits|)
  {
    assert !HexPrefix(digits);
    assert digits[0..] == digits && digits[..|digits|] == digits;
    DigitRunAll(10, digits);
    if digits == "0" {
      DigitRunAll(8, digits);
      assert digits[..0] == "";
      assert NumberOf(8, digits) == NumberOf(8, digits[..0]) * 8 + 0;
      assert NumberOf(10, digits) == NumberOf(10, digits[..0]) * 10 + 0;
    }
  }

  lemma HexScanned(n: int, base: nat)
    requires 0 <= n <= LLONG_MAX && (base == 0 || base == 16)
    ensures ScanInt(base, PrintHex(n)) == Scan(n, |PrintHex(n)|) && ReadWhole(PrintHex(n), |PrintHex(n)|)
  {
    var s, digits := PrintHex(n), PrintNat(16, n);
    DigitRunAll(16, digits);
    assert s[2..] == digits && digits[..|digits|] == digits && s[0..] == s;
    assert s[2] == digits[0] && HexPrefix(s) && SkipSpace(s) == 0;
    assert s[|s| - 1] == digits[|digits| - 1];
  }

  /** How a value that is a number is written: in decimal for an int, in hexadecimal for
      a hex, either way for a constant. */
  predicate Writes(t: SymType, s: string, n: int) {
    InLongLong(n) &&
    match t
    case Int => s == PrintInt(n)
    case Hex => n >= 0 && s == PrintHex(n)
    case Unknown => s == PrintInt(n) || (n >= 0 && s == PrintHex(n))
    case _ => false
  }

  lemma WrittenParses(t: SymType, s: string, n: int)
    requires Writes(t, s, n)
    ensures ParseString(s, t) == if t.Hex? then Unsigned(n) else Signed(n)
  {
    hide ScanInt, PrintInt, PrintHex;
    if s == PrintInt(n) && !t.Hex? {
      DecimalScanned(n, if t.Int? then 10 else 0);
    } else {
      HexScanned(n, if t.Hex? then 16 else 0);
    }
  }

  /** Numbers are ordered by size, if not a hex is compared with a negative number. */
  lemma NumberOrder(t1: SymType, s1: string, a: int, t2: SymType, s2: string, b: int)
    requires Writes(t1, s1, a) && Writes(t2, s2, b)
    requires t1.Hex? || t2.Hex? ==> a >= 0 && b >= 0
    ensures var r := CompareValues(t1, s1, t2, s2);
      (r < 0 <==> a < b) && (r == 0 <==> a == b)
  {
    hide ParseString, Writes;
    WrittenParses(t1, s1, a);
    WrittenParses(t2, s2, b);
    WrittenTypes(t1, s1, a);
    WrittenTypes(t2, s2, b);
  }

  lemma WrittenTypes(t: SymType, s: string, n: int)
    requires Writes(t, s, n)
    ensures !t.String? && InLongLong(n)
  {
  }

  /** A hex takes a negative number for a very large one. */
  lemma NegativeAboveHex(s1: string, a: int, s2: string, b: int)
    requires Writes(Hex, s1, a) && Writes(Int, s2, b) && b < 0
    ensures CompareValues(Hex, s1, Int, s2) < 0 < CompareValues(Int, s2, Hex, s1)
  {
    hide ParseString, PrintInt, PrintHex;
    WrittenParses(Hex, s1, a);
    WrittenParses(Int, s2, b);
  }

  // ---------- Strings ----------

  /** a comes before b: it differs first by a smaller character, or is a part of b. */
  ghost predicate Before(a: string, b: string) {
    exists k: nat :: k <= |a| && k <= |b| && a[..k] == b[..k] &&
      if k < |a| then k < |b| && a[k] < b[k] else k < |b|
  }

  lemma {:induction false} StringOrder(a: string, b: string)
    ensures StrCmp(a, b) < 0 <==> Before(a, b)
    ensures StrCmp(a, b) > 0 <==> Before(b, a)
  {
    if a != "" && b != "" && a[0] == b[0] {
      StringOrder(a[1..], b[1..]);
      OneMore(a, b);
      OneMore(b, a);
    } else {
      FirstDiffers(a, b);
      FirstDiffers(b, a);
    }
  }

  lemma OneMore(a: string, b: string)
    requires a != "" && b != "" && a[0] == b[0]
    ensures Before(a, b) <==> Before(a[1..], b[1..])
  {
    if Before(a[1..], b[1..]) {
      var k: nat :| k < |a| && k < |b| && a[1..][..k] == b[1..][..k] &&
        if k < |a| - 1 then k < |b| - 1 && a[1..][k] < b[1..][k] else k < |b| - 1;
      assert a[..k + 1] == [a[0]] + a[1..][..k] && b[..k + 1] == [b[0]] + b[1..][..k];
    }
    if Before(a, b) {
      var k: nat :| k <= |a| && k <= |b| && a[..k] == b[..k] && if k < |a| then k < |b| && a[k] < b[k] else k < |b|;
      assert a[..k][1..] == a[1..][..k - 1] && b[..k][1..] == b[1..][..k - 1];
    }
  }

  lemma FirstDiffers(a: string, b: string)
    requires a == "" || b == "" || a[0] != b[0]
    ensures Before(a, b) <==> b != "" && (a == "" || a[0] < b[0])
  {
    assert a[..0] == b[..0];
    if Before(a, b) {
      var k: nat :| k <= |a| && k <= |b| && a[..k] == b[..k] && if k < |a| then k < |b| && a[k] < b[k] else k < |b|;
      PrefixFirst(a, b, k);
    }
  }

  lemma PrefixFirst(a: string, b: string, k: nat)
    requires k <= |a| && k <= |b| && a[..k] == b[..k]
    ensures k > 0 ==> a[0] == b[0]
  {
    assert k > 0 ==> a[..k][0] == a[0] && b[..k][0] == b[0];
  }

  /** Two strings are compared as text, even where both look like numbers. */
  lemma StringsCompared(a: string, b: string)
    ensures var r := CompareValues(String, a, String, b);
      (r < 0 <==> Before(a, b)) && (r == 0 <==> a == b) && (r > 0 <==> Before(b, a))
  {
    hide Before, ScanInt;
    StringOrder(a, b);
  }

  // ---------- Comparisons in conditions ----------

  predicate Related(rel: Rel, before: bool, same: bool) {
    match rel
    case Eq => same
    case Neq => !same
    case Lth => before
    case Leq => before || same
    case Gth => !before && !same
    case Geq => !before
  }

  /** A comparison of two numbers is y or n, as the numbers are. */
  lemma NumberComparison(c: Config, rel: Rel, l: Sym, r: Sym, a: int, b: int)
    requires Writes(l.Type(), EvalSym(c, l).curr.text, a) && Writes(r.Type(), EvalSym(c, r).curr.text, b)
    requires l.Type().Hex? || r.Type().Hex? ==> a >= 0 && b >= 0
    ensures Val(Comp(rel, l, r), EnvOf(All(c))) == if Related(rel, a < b, a == b) then YES else NO
  {
    hide EvalSym, CompareValues, PrintInt, PrintHex;
    assert TextOf(l, EvalSym(c, l).curr) == EvalSym(c, l).curr.text;
    assert TextOf(r, EvalSym(c, r).curr) == EvalSym(c, r).curr.text;
    NumberOrder(l.Type(), EvalSym(c, l).curr.text, a, r.Type(), EvalSym(c, r).curr.text, b);
  }

  lemma StringComparison(c: Config, rel: Rel, l: Sym, r: Sym)
    requires l.Type().String? && r.Type().String?
    ensures var a, b := EvalSym(c, l).curr.text, EvalSym(c, r).curr.text;
      Val(Comp(rel, l, r), EnvOf(All(c))) == if Related(rel, Before(a, b), a == b) then YES else NO
  {
    hide EvalSym, CompareValues, Before;
    StringsCompared(EvalSym(c, l).curr.text, EvalSym(c, r).curr.text);
  }

  // ---------- Other pairs ----------

  /** Two bools or tristates are ordered n, m, y. */
  lemma TriComparison(c: Config, rel: Rel, l: Sym, r: Sym)
    requires l.IsTri() && r.IsTri()
    ensures var a, b := EvalSym(c, l).curr.tri, EvalSym(c, r).curr.tri;
      Val(Comp(rel, l, r), EnvOf(All(c))) == if Related(rel, a < b, a == b) then YES else NO
  {
    hide EvalSym, ScanInt;
  }

  /** A text that starts with neither space, sign nor digit is no number. */
  lemma NoNumber(s: string, t: SymType)
    requires t.Int? || t.Hex? || t.String? || t.Unknown?
    requires s == "" || !(IsSpace(s[0]) || s[0] == '-' || s[0] == '+' || IsXDigit(s[0]))
    ensures ParseString(s, t) == Text
  {
    assert SkipSpace(s) == 0 && s[0..] == s;
    forall base: nat | base == 0 || base == 10 || base == 16
      ensures ScanInt(base, s).end == 0
    {
      assert !HexPrefix(s);
      assert DigitRun(10, s) == 0 && DigitRun(16, s) == 0 && DigitRun(8, s) == 0;
    }
  }

  /** As soon as one of the two is no number, both are compared as text. */
  lemma TextComparison(c: Config, rel: Rel, l: Sym, r: Sym)
    requires !l.IsTri() && !r.IsTri()
    requires ParseString(EvalSym(c, l).curr.text, l.Type()) == Text || ParseString(EvalSym(c, r).curr.text, r.Type()) == Text
    ensures var a, b := EvalSym(c, l).curr.text, EvalSym(c, r).curr.text;
      Val(Comp(rel, l, r), EnvOf(All(c))) == if Related(rel, Before(a, b), a == b) then YES else NO
  {
    hide EvalSym, ParseString, Before;
    var a, b := EvalSym(c, l).curr.text, EvalSym(c, r).curr.text;
    assert TextOf(l, EvalSym(c, l).curr) == a && TextOf(r, EvalSym(c, r).curr) == b;
    StringOrder(a, b);
    assert CompareValues(l.Type(), a, r.Type(), b) == StrCmp(a, b);
  }
}
