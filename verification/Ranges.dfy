/**
  Validity and range of int and hex values: sym_string_valid and the clamping
  of sym_validate_range.
 */
module Ranges {
  import opened Expressions
  import opened Numbers

  function WithoutSign(s: string): string {
    if s != "" && s[0] == '-' then s[1..] else s
  }

  function WithoutHexPrefix(s: string): string {
    if |s| >= 2 && s[0] == '0' && (s[1] == 'x' || s[1] == 'X') then s[2..] else s
  }

  predicate IntText(s: string) {
    var d := WithoutSign(s);
    d != "" && (forall k :: 0 <= k < |d| ==> IsDigit(d[k])) && (d[0] == '0' ==> |d| == 1)
  }

  predicate HexText(s: string) {
    var d := WithoutHexPrefix(s);
    d != "" && forall k :: 0 <= k < |d| ==> IsXDigit(d[k])
  }

  /** The int texts are the decimal numbers as they are printed, and "-0". */
  lemma IntTextIff(s: string)
    ensures IntText(s) <==> s == "-0" || exists n: int :: s == PrintInt(n)
  {
    if IntText(s) {
      var d := WithoutSign(s);
      DigitsPrinted(d);
      assert d == s || s == "-" + d;
      var n: int := NumberOf(10, d);
      assert d == s ==> s == PrintInt(n);
      assert d != s && d != "0" ==> s == PrintInt(-n);
    }
    if n: int :| s == PrintInt(n) {
      PrintIntValid(n);
    }
    assert WithoutSign("-0") == "0";
  }

  predicate XDigits(d: string) {
    d != "" && forall k :: 0 <= k < |d| ==> '0' <= d[k] <= '9' || 'a' <= d[k] <= 'f' || 'A' <= d[k] <= 'F'
  }

  /** The hex texts are hexadecimal digits in either case, alone or behind 0x or 0X. */
  lemma HexTextIff(s: string)
    ensures HexText(s) <==>
      XDigits(s) || exists d: string :: XDigits(d) && (s == ['0', 'x'] + d || s == ['0', 'X'] + d)
  {
    var d := WithoutHexPrefix(s);
    assert HexText(s) <==> XDigits(d);
    assert d == s || s == ['0', 'x'] + d || s == ['0', 'X'] + d;
    if XDigits(s) {
      assert d == s;
    } else if d: string :| XDigits(d) && (s == ['0', 'x'] + d || s == ['0', 'X'] + d) {
      assert s[2..] == d;
    }
  }

  lemma {:induction false} DigitsPrinted(d: string)
    requires d != "" && (forall k :: 0 <= k < |d| ==> IsDigit(d[k])) && (d[0] == '0' ==> |d| == 1)
    ensures AllDigits(10, d) && PrintNat(10, NumberOf(10, d)) == d && (d != "0" ==> NumberOf(10, d) > 0)
  {
    var front, last := d[..|d| - 1], d[|d| - 1];
    DigitBack(last);
    assert AllDigits(10, d) && d == front + [last];
    if front != "" {
      assert front[0] == d[0];
      DigitsPrinted(front);
      hide PrintNat, DigitValue, DigitChar;
      PrintedNext(NumberOf(10, front), last);
    }
  }

  lemma DigitBack(c: char)
    requires IsDigit(c)
    ensures DigitValue(c) < 10 && DigitChar(DigitValue(c)) == c && (c != '0' ==> DigitValue(c) > 0)
  {
  }

  lemma PrintedNext(n: nat, c: char)
    requires n > 0 && IsDigit(c) && DigitValue(c) < 10 && DigitChar(DigitValue(c)) == c
    ensures PrintNat(10, n * 10 + DigitValue(c)) == PrintNat(10, n) + [c]
  {
    var m := n * 10 + DigitValue(c);
    assert m / 10 == n && m % 10 == DigitValue(c);
  }

  predicate StringValid(typ: SymType, s: string) {
    match typ
    case String => true
    case Int => IntText(s)
    case Hex => HexText(s)
    case Boolean | Tristate => s != "" && s[0] in "yYmMnN"
    case Unknown => false
  }

  /** The character at i of a text that ends in a NUL. */
  function At(s: string, i: nat): char {
    if i < |s| then s[i] else '\0'
  }

  /** The digits of an int begin behind the sign. */
  lemma IntTextAt(s: string)
    ensures var first := if s != "" && s[0] == '-' then 1 else 0;
      IntText(s) <==>
        && first < |s| && (forall k :: first <= k < |s| ==> IsDigit(s[k]))
        && (s[first] == '0' ==> |s| == first + 1)
  {
    var first, d := if s != "" && s[0] == '-' then 1 else 0, WithoutSign(s);
    assert |d| == |s| - first && forall k :: 0 <= k < |d| ==> d[k] == s[k + first];
    assert forall k :: first <= k < |s| ==> s[k] == d[k - first];
  }

  /** The digits of a hex begin behind the prefix. */
  lemma HexTextAt(s: string)
    ensures var first := if |s| >= 2 && s[0] == '0' && (s[1] == 'x' || s[1] == 'X') then 2 else 0;
      HexText(s) <==> first < |s| && forall k :: first <= k < |s| ==> IsXDigit(s[k])
  {
    var first, d := if |s| >= 2 && s[0] == '0' && (s[1] == 'x' || s[1] == 'X') then 2 else 0, WithoutHexPrefix(s);
    assert |d| == |s| - first && forall k :: 0 <= k < |d| ==> d[k] == s[k + first];
    assert forall k :: first <= k < |s| ==> s[k] == d[k - first];
  }

  /** sym_string_valid, one character after the other; '\0' ends the text. */
  method SymStringValid(typ: SymType, s: string) returns (valid: bool)
    requires '\0' !in s
    ensures valid == StringValid(typ, s)
  {
    hide IntText, HexText;
    match typ
    case String => valid := true;
    case Unknown => valid := false;
    case Boolean | Tristate => valid := At(s, 0) in "yYmMnN";
    case Int =>
      var i := 0;
      var ch := At(s, i);
      i := i + 1;
      if ch == '-' {
        ch := At(s, i);
        i := i + 1;
      }
      ghost var first := i - 1;
      IntTextAt(s);
      if !IsDigit(ch) {
        return false;
      }
      if ch == '0' && At(s, i) != '\0' {
        return false;
      }
      ch := At(s, i);
      i := i + 1;
      while ch != '\0'
        invariant first < i <= |s| + 1 && ch == At(s, i - 1)
        invariant forall k :: first <= k < i - 1 ==> IsDigit(s[k])
        decreases |s| + 1 - i
      {
        if !IsDigit(ch) {
          return false;
        }
        ch := At(s, i);
        i := i + 1;
      }
      valid := true;
    case Hex =>
      var i := 0;
      if At(s, 0) == '0' && (At(s, 1) == 'x' || At(s, 1) == 'X') {
        i := 2;
      }
      ghost var first := i;
      HexTextAt(s);
      var ch := At(s, i);
      i := i + 1;
      while true
        invariant first < i <= |s| + 1 && ch == At(s, i - 1)
        invariant forall k :: first <= k < i - 1 ==> IsXDigit(s[k])
        invariant i > first + 1 ==> ch != '\0'
        decreases |s| + 1 - i
      {
        if !IsXDigit(ch) {
          return false;
        }
        ch := At(s, i);
        i := i + 1;
        if ch == '\0' {
          break;
        }
      }
      valid := true;
  }

  // ---------- Clamping ----------

  function BaseOf(typ: SymType, otherwise: nat): nat {
    if typ.Int? then 10 else if typ.Hex? then 16 else otherwise
  }

  function Print(typ: SymType, n: int): string
    requires InLongLong(n)
  {
    if typ.Int? then PrintInt(n) else PrintHex(n)
  }

  /** The text left behind for a value with the range lo..hi. */
  function Clamp(typ: SymType, val: string, lo: int, hi: int): string
    requires (typ.Int? || typ.Hex?) && InLongLong(lo) && InLongLong(hi)
  {
    var v := StrToLL(BaseOf(typ, 0), val);
    if v < lo then Print(typ, lo) else if v > hi then Print(typ, hi) else val
  }

  /** A bound that the type can print and read back. */
  predicate Printable(typ: SymType, n: int) {
    InLongLong(n) && (typ.Hex? ==> n >= 0)
  }

  function Nearest(v: int, lo: int, hi: int): int {
    if v < lo then lo else if v > hi then hi else v
  }

  lemma PrintIntValid(n: int)
    ensures IntText(PrintInt(n))
  {
    hide ScanInt;
    var digits := PrintNat(10, if n < 0 then -n else n);
    assert IsDigit(digits[0]);
    if n < 0 {
      assert ("-" + digits)[1..] == digits;
    }
  }

  lemma PrintHexValid(n: int)
    requires InLongLong(n)
    ensures HexText(PrintHex(n))
  {
    hide ScanInt;
    var digits := PrintNat(16, if n < 0 then n + ULLONG_MAX + 1 else n);
    assert ("0x" + digits)[2..] == digits;
  }

  lemma PrintReadsBack(typ: SymType, n: int)
    requires (typ.Int? || typ.Hex?) && Printable(typ, n)
    ensures StrToLL(BaseOf(typ, 0), Print(typ, n)) == n
    ensures StringValid(typ, Print(typ, n))
  {
    hide StrToLL, PrintInt, PrintHex, IntText, HexText;
    if typ.Int? {
      PrintIntParses(n);
      PrintIntValid(n);
    } else {
      PrintHexParses(n);
      PrintHexValid(n);
    }
  }

  /** With a proper range the text left reads as the nearest number in the
      range; it is the old text exactly when that was in range, and otherwise
      it is valid. */
  lemma ClampExact(typ: SymType, val: string, lo: int, hi: int)
    requires (typ.Int? || typ.Hex?) && Printable(typ, lo) && Printable(typ, hi) && lo <= hi
    ensures var v := StrToLL(BaseOf(typ, 0), val);
      var r := Clamp(typ, val, lo, hi);
      && StrToLL(BaseOf(typ, 0), r) == Nearest(v, lo, hi)
      && (r == val <==> lo <= v <= hi)
      && (r != val ==> StringValid(typ, r))
  {
    hide StrToLL, Print, StringValid;
    PrintReadsBack(typ, lo);
    PrintReadsBack(typ, hi);
  }

  /** A second call changes nothing, whatever the value, if and only if the
      range is not empty. */
  lemma ClampSettles(typ: SymType, val: string, lo: int, hi: int)
    requires (typ.Int? || typ.Hex?) && Printable(typ, lo) && Printable(typ, hi)
    ensures Clamp(typ, Clamp(typ, val, lo, hi), lo, hi) == Clamp(typ, val, lo, hi) <==> lo <= hi
  {
    hide StrToLL, Print, StringValid;
    PrintReadsBack(typ, lo);
    PrintReadsBack(typ, hi);
  }

  /** A negative bound of a hex symbol is not read back: it prints as its
      two's complement, which is beyond every bound. */
  lemma NegativeHexBound(lo: int)
    requires LLONG_MIN <= lo < 0
    ensures StrToLL(16, Print(Hex, lo)) == LLONG_MAX
  {
    var n := lo + ULLONG_MAX + 1;
    var s, digits := PrintHex(lo), PrintNat(16, n);
    DigitRunAll(16, digits);
    assert s[2..] == digits && digits[..|digits|] == digits && s[0..] == s;
    assert s[2] == digits[0] && HexPrefix(s);
    assert SkipSpace(s) == 0;
  }
}
