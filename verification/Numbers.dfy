/**
  The C library's number conversions as the program uses them: strtoll with
  base 0, 10 or 16, and printing with %lld and 0x%llx.
 */
module Numbers {

  const LLONG_MIN: int := -0x8000_0000_0000_0000
  const LLONG_MAX: int := 0x7fff_ffff_ffff_ffff
  const ULLONG_MAX: int := 0xffff_ffff_ffff_ffff

  predicate InLongLong(n: int) {
    LLONG_MIN <= n <= LLONG_MAX
  }

  predicate IsDigit(c: char) {
    '0' <= c <= '9'
  }

  predicate IsXDigit(c: char) {
    IsDigit(c) || 'a' <= c <= 'f' || 'A' <= c <= 'F'
  }

  predicate IsSpace(c: char) {
    c == ' ' || '\t' <= c <= '\r'
  }

  /** The value of a digit in the larger bases too; 99 for other characters. */
  function DigitValue(c: char): nat {
    if '0' <= c <= '9' then (c as int) - ('0' as int)
    else if 'a' <= c <= 'f' then (c as int) - ('a' as int) + 10
    else if 'A' <= c <= 'F' then (c as int) - ('A' as int) + 10
    else 99
  }

  function DigitChar(d: nat): (c: char)
    requires d < 16
    ensures DigitValue(c) == d && IsXDigit(c) && (d < 10 ==> IsDigit(c))
    ensures c == '0' <==> d == 0
  {
    if d < 10 then (d + 48) as char else (d + 87) as char
  }

  type Base = b: nat | b == 8 || b == 10 || b == 16 witness 10

  /** How many leading characters are digits. */
  function DigitRun(base: Base, s: string): (n: nat)
    ensures n <= |s|
    ensures forall k :: 0 <= k < n ==> DigitValue(s[k]) < base
    ensures n < |s| ==> DigitValue(s[n]) >= base
  {
    if s == "" || DigitValue(s[0]) >= base then 0 else 1 + DigitRun(base, s[1..])
  }

  predicate AllDigits(base: Base, s: string) {
    forall k :: 0 <= k < |s| ==> DigitValue(s[k]) < base
  }

  function NumberOf(base: Base, s: string): nat
    requires AllDigits(base, s)
  {
    if s == "" then 0 else NumberOf(base, s[..|s| - 1]) * base + DigitValue(s[|s| - 1])
  }

  /** The result of strtoll before it is limited, and where it stopped. */
  datatype Scan = Scan(value: int, end: nat)

  function SkipSpace(s: string): (n: nat)
    ensures n <= |s|
  {
    if s != "" && IsSpace(s[0]) then 1 + SkipSpace(s[1..]) else 0
  }

  predicate HexPrefix(s: string) {
    |s| > 2 && s[0] == '0' && (s[1] == 'x' || s[1] == 'X') && DigitValue(s[2]) < 16
  }

  /** After space and sign. */
  function ScanMagnitude(base: nat, s: string): (r: Scan)
    requires base == 0 || base == 10 || base == 16
    ensures r.value >= 0 && r.end <= |s|
  {
    var prefix := if base != 10 && HexPrefix(s) then 2 else 0;
    var b: Base := if prefix == 2 then 16 else if base != 0 then base else if s != "" && s[0] == '0' then 8 else 10;
    var n := DigitRun(b, s[prefix..]);
    Scan(NumberOf(b, s[prefix..][..n]), if n == 0 then 0 else prefix + n)
  }

  function ScanInt(base: nat, s: string): (r: Scan)
    requires base == 0 || base == 10 || base == 16
    ensures r.end <= |s|
  {
    var skip := SkipSpace(s);
    var signed := skip < |s| && (s[skip] == '-' || s[skip] == '+');
    var start := if signed then skip + 1 else skip;
    var m := ScanMagnitude(base, s[start..]);
    Scan(if signed && s[skip] == '-' then -m.value else m.value, if m.end == 0 then 0 else start + m.end)
  }

  function Limit(n: int): (r: int)
    ensures InLongLong(r)
    ensures InLongLong(n) ==> r == n
  {
    if n < LLONG_MIN then LLONG_MIN else if n > LLONG_MAX then LLONG_MAX else n
  }

  function StrToLL(base: nat, s: string): (r: int)
    requires base == 0 || base == 10 || base == 16
    ensures InLongLong(r)
  {
    Limit(ScanInt(base, s).value)
  }

  // ---------- Printing ----------

  function PrintNat(base: Base, n: nat): (s: string)
    ensures s != "" && AllDigits(base, s) && NumberOf(base, s) == n
    ensures s[0] == '0' <==> n == 0
    ensures n == 0 ==> s == "0"
    ensures forall k :: 0 <= k < |s| ==> IsXDigit(s[k]) && (base <= 10 ==> IsDigit(s[k]))
  {
    if n < base then
      var s := [DigitChar(n)];
      assert s[..0] == "" && NumberOf(base, s) == NumberOf(base, s[..0]) * base + DigitValue(s[0]);
      s
    else
      DivMod(base, n);
      var front := PrintNat(base, n / base);
      PrintStep(base, n, front);
      front + [DigitChar(n % base)]
  }

  lemma DivMod(base: Base, n: nat)
    ensures n / base * base + n % base == n && n % base < base
    ensures n >= base ==> 0 < n / base < n
  {
    if base == 8 {
    } else if base == 10 {
    } else {
      assert base == 16;
    }
  }

  lemma PrintStep(base: Base, n: nat, front: string)
    requires n >= base && front != "" && AllDigits(base, front) && NumberOf(base, front) == n / base
    requires front[0] != '0' && forall k :: 0 <= k < |front| ==> IsXDigit(front[k]) && (base <= 10 ==> IsDigit(front[k]))
    ensures n % base < base
    ensures var s := front + [DigitChar(n % base)];
      && AllDigits(base, s) && NumberOf(base, s) == n && s[0] != '0'
      && forall k :: 0 <= k < |s| ==> IsXDigit(s[k]) && (base <= 10 ==> IsDigit(s[k]))
  {
    hide NumberOf, DigitValue, IsXDigit, IsDigit;
    DivMod(base, n);
    AppendDigit(base, front, DigitChar(n % base));
  }

  lemma AppendDigit(base: Base, front: string, c: char)
    requires AllDigits(base, front) && DigitValue(c) < base
    ensures AllDigits(base, front + [c]) && NumberOf(base, front + [c]) == NumberOf(base, front) * base + DigitValue(c)
    ensures front != "" ==> (front + [c])[0] == front[0]
  {
    var s := front + [c];
    assert s[..|s| - 1] == front && s[|s| - 1] == c;
  }

  /** %lld */
  function PrintInt(n: int): string {
    if n < 0 then "-" + PrintNat(10, -n) else PrintNat(10, n)
  }

  /** 0x%llx, of the two's complement pattern */
  function PrintHex(n: int): string
    requires InLongLong(n)
  {
    "0x" + PrintNat(16, if n < 0 then n + ULLONG_MAX + 1 else n)
  }

  lemma {:induction false} DigitRunAll(base: Base, s: string)
    requires AllDigits(base, s)
    ensures DigitRun(base, s) == |s|
  {
    if s != "" {
      DigitRunAll(base, s[1..]);
    }
  }

  /** Reading back what was printed. */
  lemma PrintIntParses(n: int)
    requires InLongLong(n)
    ensures StrToLL(10, PrintInt(n)) == n
    ensures ScanInt(10, PrintInt(n)).end == |PrintInt(n)|
  {
    var s := PrintInt(n);
    var digits := PrintNat(10, if n < 0 then -n else n);
    DigitRunAll(10, digits);
    assert digits[..|digits|] == digits && digits[0..] == digits;
    assert IsDigit(digits[0]);
    if n < 0 {
      assert s[0] == '-' && s[1..] == digits;
      assert SkipSpace(s) == 0;
    } else {
      assert s == digits && s[0..] == s;
      assert SkipSpace(s) == 0;
    }
  }

  lemma PrintHexParses(n: int)
    requires 0 <= n <= LLONG_MAX
    ensures StrToLL(16, PrintHex(n)) == n
  {
    var s, digits := PrintHex(n), PrintNat(16, n);
    DigitRunAll(16, digits);
    assert s[2..] == digits && digits[..|digits|] == digits && s[0..] == s;
    assert s[2] == digits[0] && HexPrefix(s);
    assert SkipSpace(s) == 0;
  }

  // ---------- Texts that are not printed ----------

  /** Upper-case letters and X are read like lower-case ones. */
  function Upper(s: string): (r: string)
    ensures |r| == |s|
  {
    if s == "" then ""
    else [if 'a' <= s[0] <= 'f' || s[0] == 'x' then (s[0] as int - 32) as char else s[0]] + Upper(s[1..])
  }

  lemma {:induction false} UpperAt(s: string, k: nat)
    requires k < |s|
    ensures Upper(s)[k] == if 'a' <= s[k] <= 'f' || s[k] == 'x' then (s[k] as int - 32) as char else s[k]
    ensures Upper(s)[..k] == Upper(s[..k]) && Upper(s)[k..] == Upper(s[k..])
  {
    if k > 0 {
      UpperAt(s[1..], k - 1);
      assert s[..k][1..] == s[1..][..k - 1];
      assert Upper(s)[..k] == [Upper(s)[0]] + Upper(s[1..])[..k - 1];
    }
  }

  lemma {:induction false} UpperNumber(s: string)
    requires AllDigits(16, s)
    ensures AllDigits(16, Upper(s)) && NumberOf(16, Upper(s)) == NumberOf(16, s)
  {
    UpperDigits(s);
    if s != "" {
      hide DigitValue, Upper, AllDigits;
      var u, front := Upper(s), s[..|s| - 1];
      UpperAt(s, |s| - 1);
      FrontDigits(s);
      UpperNumber(front);
      assert u[..|u| - 1] == Upper(front);
      DigitKept(s, |s| - 1);
    }
  }

  lemma FrontDigits(s: string)
    requires s != "" && AllDigits(16, s)
    ensures AllDigits(16, s[..|s| - 1])
  {
  }

  lemma DigitKept(s: string, k: nat)
    requires k < |s| && DigitValue(s[k]) < 16
    ensures DigitValue(Upper(s)[k]) == DigitValue(s[k])
  {
    UpperAt(s, k);
  }

  lemma UpperDigits(s: string)
    requires AllDigits(16, s)
    ensures AllDigits(16, Upper(s))
  {
    forall k | 0 <= k < |s|
      ensures DigitValue(Upper(s)[k]) < 16
    {
      DigitKept(s, k);
    }
  }

  lemma UpperHexParses(n: int)
    requires 0 <= n <= LLONG_MAX
    ensures StrToLL(16, Upper(PrintHex(n))) == n
  {
    var s, digits := PrintHex(n), PrintNat(16, n);
    var u, d := Upper(s), Upper(digits);
    UpperNumber(digits);
    DigitRunAll(16, d);
    UpperAt(s, 0);
    UpperAt(s, 1);
    UpperAt(s, 2);
    assert s[2..] == digits && u[2..] == d && u[0] == '0' && u[1] == 'X';
    assert d[..|d|] == d && u[0..] == u && u[2] == d[0];
    assert HexPrefix(u) && SkipSpace(u) == 0;
  }

  /** The digits 0 to 9, and a to f in both cases, have the values 0 to 15 in order. */
  lemma DigitsInOrder(d: nat)
    ensures d < 10 ==> DigitValue(('0' as int + d) as char) == d
    ensures d < 6 ==> DigitValue(('a' as int + d) as char) == DigitValue(('A' as int + d) as char) == 10 + d
  {
  }

  /** No other character is a digit. */
  lemma OnlyDigits(c: char)
    ensures DigitValue(c) < 16 <==> '0' <= c <= '9' || 'a' <= c <= 'f' || 'A' <= c <= 'F'
  {
  }

  /** The lower-case ones are printed. */
  lemma DigitsPrintedLower(d: nat)
    ensures d < 10 ==> DigitChar(d) == ('0' as int + d) as char
    ensures 10 <= d < 16 ==> DigitChar(d) == ('a' as int + (d - 10)) as char
  {
  }

  predicate AllSpace(w: string) {
    forall k :: 0 <= k < |w| ==> IsSpace(w[k])
  }

  lemma {:induction false} SpaceSkipped(w: string, rest: string)
    requires AllSpace(w) && rest != "" && !IsSpace(rest[0])
    ensures SkipSpace(w + rest) == |w|
  {
    if w == "" {
      assert w + rest == rest;
    } else {
      assert (w + rest)[1..] == w[1..] + rest;
      SpaceSkipped(w[1..], rest);
    }
  }

  lemma {:induction false} DigitRunTo(base: Base, digits: string, tail: string)
    requires AllDigits(base, digits) && (tail != "" ==> DigitValue(tail[0]) >= base)
    ensures DigitRun(base, digits + tail) == |digits|
  {
    if digits == "" {
      assert digits + tail == tail;
    } else {
      assert (digits + tail)[1..] == digits[1..] + tail;
      DigitRunTo(base, digits[1..], tail);
    }
  }

  lemma SignRead(base: nat, w: string, sign: string, body: string)
    requires base == 0 || base == 10 || base == 16
    requires AllSpace(w) && sign in ["", "+", "-"] && body != "" && DigitValue(body[0]) < 16
    ensures var m, r := ScanMagnitude(base, body), ScanInt(base, w + (sign + body));
      && r.value == (if sign == "-" then -m.value else m.value)
      && r.end == if m.end == 0 then 0 else |w| + |sign| + m.end
  {
    hide ScanMagnitude;
    var rest := sign + body;
    var s := w + rest;
    assert !IsSpace(body[0]) && body[0] != '-' && body[0] != '+';
    SpaceSkipped(w, rest);
    if sign == "" {
      assert rest == body && s[|w|..] == body && s[|w|] == body[0];
    } else {
      assert s[|w|] == sign[0] && s[|w| + 1..] == body;
    }
  }

  /** Leading space, a sign and digits, up to the first character that is none; with base
      0 a leading zero makes the digits octal. */
  lemma DigitsRead(base: nat, b: Base, w: string, sign: string, digits: string, tail: string)
    requires base == 0 || base == 10 || base == 16
    requires AllSpace(w) && sign in ["", "+", "-"] && digits != "" && AllDigits(b, digits)
    requires b == if base != 0 then base else if digits[0] == '0' then 8 else 10
    requires (tail != "" ==> DigitValue(tail[0]) >= b) && (base != 10 ==> !HexPrefix(digits + tail))
    ensures var n: int := NumberOf(b, digits);
      ScanInt(base, w + (sign + (digits + tail))) == Scan(if sign == "-" then -n else n, |w| + |sign| + |digits|)
  {
    hide ScanMagnitude, ScanInt, AllSpace, NumberOf, DigitRun, HexPrefix;
    PlainMagnitude(base, b, digits, tail);
    SignRead(base, w, sign, digits + tail);
  }

  lemma PlainMagnitude(base: nat, b: Base, digits: string, tail: string)
    requires base == 0 || base == 10 || base == 16
    requires digits != "" && AllDigits(b, digits) && (tail != "" ==> DigitValue(tail[0]) >= b)
    requires b == if base != 0 then base else if digits[0] == '0' then 8 else 10
    requires base != 10 ==> !HexPrefix(digits + tail)
    ensures ScanMagnitude(base, digits + tail) == Scan(NumberOf(b, digits), |digits|)
  {
    hide DigitRun, NumberOf, HexPrefix, DigitValue;
    var body := digits + tail;
    assert body[0] == digits[0] && body[0..] == body && body[..|digits|] == digits;
    DigitRunTo(b, digits, tail);
  }

  /** With base 16 or 0 the digits may also have 0x before them, and are hexadecimal. */
  lemma PrefixRead(base: nat, w: string, sign: string, body: string, digits: string, tail: string)
    requires (base == 0 || base == 16) && AllSpace(w) && sign in ["", "+", "-"]
    requires digits != "" && AllDigits(16, digits) && (tail != "" ==> DigitValue(tail[0]) >= 16)
    requires |body| >= 2 && body[0] == '0' && (body[1] == 'x' || body[1] == 'X') && body[2..] == digits + tail
    ensures var n: int := NumberOf(16, digits);
      ScanInt(base, w + (sign + body)) == Scan(if sign == "-" then -n else n, |w| + |sign| + 2 + |digits|)
  {
    hide ScanMagnitude, ScanInt, AllSpace, NumberOf, AllDigits;
    PrefixMagnitude(base, body, digits, tail);
    SignRead(base, w, sign, body);
  }

  lemma PrefixMagnitude(base: nat, body: string, digits: string, tail: string)
    requires (base == 0 || base == 16) && digits != "" && AllDigits(16, digits)
    requires tail != "" ==> DigitValue(tail[0]) >= 16
    requires |body| >= 2 && body[0] == '0' && (body[1] == 'x' || body[1] == 'X') && body[2..] == digits + tail
    ensures ScanMagnitude(base, body) == Scan(NumberOf(16, digits), 2 + |digits|)
  {
    var rest := digits + tail;
    assert body[2] == rest[0] == digits[0] && HexPrefix(body);
    DigitRunTo(16, digits, tail);
    assert rest[..|digits|] == digits;
    hide DigitRun, NumberOf;
  }

  /** A number beyond the range is read as the end of the range that it is beyond. */
  lemma NumberLimited(n: int)
    ensures StrToLL(10, PrintInt(n)) == if n < LLONG_MIN then LLONG_MIN else if n > LLONG_MAX then LLONG_MAX else n
  {
    var digits := PrintNat(10, if n < 0 then -n else n);
    assert "" + ("" + (digits + "")) == digits && "" + ("-" + (digits + "")) == "-" + digits;
    if n < 0 {
      DigitsRead(10, 10, "", "-", digits, "");
    } else {
      DigitsRead(10, 10, "", "", digits, "");
    }
  }
}
