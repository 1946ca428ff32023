/**
 * The parts of Python's `str`, `int()` and `float()` that the import command and
 * the explanation labels rely on: `strip()`, `lower()`, `title()`, `str(int)`,
 * `int(text)` and `float(text)`.
 */
module PyStr {
  import opened Common

  /** The characters `str.isspace()` accepts, which `str.strip()` removes. */
  predicate IsSpace(c: char) {
    c == ' ' || ('\t' <= c <= '\r') || ('\U{1C}' <= c <= '\U{1F}') ||
    c == '\U{85}' || c == '\U{A0}' || c == '\U{1680}' || ('\U{2000}' <= c <= '\U{200A}') ||
    c == '\U{2028}' || c == '\U{2029}' || c == '\U{202F}' || c == '\U{205F}' || c == '\U{3000}'
  }

  predicate IsDigit(c: char) { '0' <= c <= '9' }

  predicate IsUpper(c: char) { 'A' <= c <= 'Z' }

  predicate IsLower(c: char) { 'a' <= c <= 'z' }

  /** A cased character in the sense of `str.title()` (ASCII letters only). */
  predicate IsCased(c: char) { IsUpper(c) || IsLower(c) }

  predicate AllDigits(s: string) { forall k :: 0 <= k < |s| ==> IsDigit(s[k]) }

  // ---------------------------------------------------------------- strip

  /** Number of whitespace characters at the start of `s`. */
  function LeadingSpaces(s: string): (n: nat)
    ensures n <= |s|
    ensures forall k :: 0 <= k < n ==> IsSpace(s[k])
    ensures n < |s| ==> !IsSpace(s[n])
  {
    if s == [] || !IsSpace(s[0]) then 0 else 1 + LeadingSpaces(s[1..])
  }

  /** Number of whitespace characters at the end of `s`. */
  function TrailingSpaces(s: string): (n: nat)
    ensures n <= |s|
    ensures forall k :: |s| - n <= k < |s| ==> IsSpace(s[k])
    ensures n < |s| ==> !IsSpace(s[|s| - 1 - n])
  {
    if s == [] || !IsSpace(s[|s| - 1]) then 0 else 1 + TrailingSpaces(s[..|s| - 1])
  }

  /** `s.strip()`: `s` without its leading and trailing whitespace. */
  function Strip(s: string): (r: string)
    ensures r == [] || (!IsSpace(r[0]) && !IsSpace(r[|r| - 1]))
    ensures var i := LeadingSpaces(s);
      i + |r| <= |s| && r == s[i..i + |r|] &&
      forall k :: i + |r| <= k < |s| ==> IsSpace(s[k])
  {
    var t := s[LeadingSpaces(s)..];
    t[..|t| - TrailingSpaces(t)]
  }

  /** A string that neither starts nor ends with whitespace is its own `strip()`. */
  lemma StripTrimmed(s: string)
    requires s == [] || (!IsSpace(s[0]) && !IsSpace(s[|s| - 1]))
    ensures Strip(s) == s
  {
  }

  // ---------------------------------------------------------------- case

  function LowerChar(c: char): (d: char)
    ensures IsSpace(d) == IsSpace(c) && IsCased(d) == IsCased(c) && IsDigit(d) == IsDigit(c)
    ensures !IsUpper(d)
  {
    if IsUpper(c) then (c as int + 32) as char else c
  }

  function UpperChar(c: char): (d: char)
    ensures IsSpace(d) == IsSpace(c) && IsCased(d) == IsCased(c)
    ensures !IsLower(d)
  {
    if IsLower(c) then (c as int - 32) as char else c
  }

  /** `s.lower()`, for ASCII letters. */
  function Lower(s: string): (r: string)
    ensures |r| == |s|
    ensures forall k :: 0 <= k < |s| ==> r[k] == LowerChar(s[k])
  {
    seq(|s|, k requires 0 <= k < |s| => LowerChar(s[k]))
  }

  lemma LowerIdempotent(s: string)
    ensures Lower(Lower(s)) == Lower(s)
  {
  }

  /** `Lower(Strip(s))` is already stripped and lower-cased: normalising twice changes nothing. */
  lemma {:induction false} NormaliseIdempotent(s: string)
    ensures Lower(Strip(Lower(Strip(s)))) == Lower(Strip(s))
  {
    var t := Strip(s);
    var u := Lower(t);
    if u != [] {
      assert u[0] == LowerChar(t[0]) && u[|u| - 1] == LowerChar(t[|t| - 1]);
    }
    StripTrimmed(u);
    LowerIdempotent(t);
  }

  /**
   * `str.title()` from a given state: a cased character right after a cased
   * character is lower-cased, every other one is upper-cased.
   */
  function TitleFrom(s: string, prevCased: bool): (r: string)
    ensures |r| == |s|
    decreases |s|
  {
    if s == [] then []
    else [TitleChar(prevCased, s[0])] + TitleFrom(s[1..], IsCased(s[0]))
  }

  /** One character of `title()`: lower-cased after a cased character, upper-cased otherwise. */
  function TitleChar(prevCased: bool, c: char): (d: char)
    ensures IsCased(d) == IsCased(c) && LowerChar(d) == LowerChar(c)
  {
    if prevCased then LowerChar(c) else UpperChar(c)
  }

  /**
   * `s.title()`, for ASCII letters: only the case of letters changes, and a
   * leading letter comes out upper-case.
   */
  function Title(s: string): (r: string)
    ensures |r| == |s|
    ensures forall k :: 0 <= k < |s| ==> LowerChar(r[k]) == LowerChar(s[k])
    ensures s != [] ==> !IsLower(r[0])
  {
    TitleCases(s);
    TitleFrom(s, false)
  }

  /** `title()` changes only the case of letters, and upper-cases a leading one. */
  lemma {:induction false} TitleCases(s: string)
    ensures forall k :: 0 <= k < |s| ==> LowerChar(TitleFrom(s, false)[k]) == LowerChar(s[k])
    ensures s != [] ==> !IsLower(TitleFrom(s, false)[0])
  {
    forall k | 0 <= k < |s|
      ensures LowerChar(TitleFrom(s, false)[k]) == LowerChar(s[k])
    {
      TitleAt(s, false, k);
    }
    if s != [] {
      TitleAt(s, false, 0);
    }
  }

  /**
   * The character-wise meaning of `title()`: a character that starts a word
   * (first, or after a non-cased character) is upper-cased, every other one
   * lower-cased.
   */
  lemma {:induction false} TitleAt(s: string, prevCased: bool, k: nat)
    requires k < |s|
    ensures TitleFrom(s, prevCased)[k] ==
      TitleChar(if k == 0 then prevCased else IsCased(s[k - 1]), s[k])
  {
    if k > 0 {
      TitleAt(s[1..], IsCased(s[0]), k - 1);
    }
  }

  /** Title-casing a title-cased string changes nothing. */
  lemma {:induction false} TitleIdempotent(s: string)
    ensures Title(Title(s)) == Title(s)
  {
    var t := Title(s);
    forall k | 0 <= k < |s|
      ensures Title(t)[k] == t[k]
    {
      TitleAt(t, false, k);
      TitleAt(s, false, k);
      if k > 0 {
        TitleAt(s, false, k - 1);
      }
    }
  }

  // ---------------------------------------------------------------- str(int)

  function DigitChar(d: nat): (c: char)
    requires d < 10
    ensures IsDigit(c)
  {
    ('0' as int + d) as char
  }

  function DigitOf(c: char): (d: nat)
    requires IsDigit(c)
    ensures d < 10 && DigitChar(d) == c
  {
    c as int - '0' as int
  }

  /** The value of a run of decimal digits (empty run: 0). */
  function DigitsValue(s: string): nat
    requires AllDigits(s)
  {
    if s == [] then 0 else 10 * DigitsValue(s[..|s| - 1]) + DigitOf(s[|s| - 1])
  }

  /** `str(n)` for a natural number: its shortest decimal form. */
  function NatToStr(n: nat): (r: string)
    ensures |r| >= 1 && AllDigits(r)
    ensures r[0] == '0' ==> n == 0
  {
    if n < 10 then [DigitChar(n)] else NatToStr(n / 10) + [DigitChar(n % 10)]
  }

  /** `str(i)` for a Python int. */
  function IntToStr(i: int): (r: string)
    ensures |r| >= 1 && (r[0] == '-' <==> i < 0)
  {
    if i < 0 then "-" + NatToStr(-i) else NatToStr(i)
  }

  /** Reading back the decimal form of `n` gives `n`. */
  lemma {:induction false} NatToStrValue(n: nat)
    ensures DigitsValue(NatToStr(n)) == n
  {
    if n >= 10 {
      var p := NatToStr(n / 10);
      var r := NatToStr(n);
      assert r[..|r| - 1] == p;
      NatToStrValue(n / 10);
    }
  }

  /** Distinct numbers have distinct decimal forms. */
  lemma NatToStrInjective(m: nat, n: nat)
    requires NatToStr(m) == NatToStr(n)
    ensures m == n
  {
    NatToStrValue(m);
    NatToStrValue(n);
  }

  // ---------------------------------------------------------------- int(text)

  /** Length of the run of digits at the start of `s`. */
  function DigitRun(s: string): (n: nat)
    ensures n <= |s| && AllDigits(s[..n])
    ensures n < |s| ==> !IsDigit(s[n])
  {
    if s == [] || !IsDigit(s[0]) then 0 else 1 + DigitRun(s[1..])
  }

  /** An optional `+`/`-` sign followed by one or more digits and nothing else. */
  function ParseSignedDigits(s: string): (r: Option<int>)
    ensures r.Some? ==> s != []
  {
    var neg := s != [] && s[0] == '-';
    var body := if s != [] && (s[0] == '-' || s[0] == '+') then s[1..] else s;
    if body != [] && AllDigits(body) then
      var v: int := DigitsValue(body);
      Some(if neg then -v else v)
    else None
  }

  /** `int(text)` in base 10: `None` where Python raises `ValueError`. */
  function ParseInt(s: string): (r: Option<int>)
    ensures Strip(s) == [] ==> r.None?
  {
    ParseSignedDigits(Strip(s))
  }

  /** Text holding a decimal point is no integer: `int("54.0")` raises. */
  lemma ParseIntRejectsPoint(s: string, k: nat)
    requires k < |s| && s[k] == '.'
    ensures ParseInt(s).None?
  {
    var t := Strip(s);
    var i := LeadingSpaces(s);
    assert i <= k < i + |t|;
    assert t[k - i] == '.';
    var body := if t != [] && (t[0] == '-' || t[0] == '+') then t[1..] else t;
    if body == t {
      assert !IsDigit(body[k - i]);
    } else if k - i > 0 {
      assert !IsDigit(body[k - i - 1]);
    }
  }

  /** `int(str(i)) == i`. */
  lemma ParseIntRoundTrip(i: int)
    ensures ParseInt(IntToStr(i)) == Some(i)
  {
    var r := IntToStr(i);
    var d := NatToStr(if i < 0 then -i else i);
    assert r[|r| - 1] == d[|d| - 1];
    StripTrimmed(r);
    NatToStrValue(if i < 0 then -i else i);
    if i < 0 {
      assert r[1..] == d;
    }
  }

  /** Whitespace around a text that neither starts nor ends with whitespace is what `strip()` removes. */
  lemma StripPadded(pre: string, t: string, post: string)
    requires forall k :: 0 <= k < |pre| ==> IsSpace(pre[k])
    requires forall k :: 0 <= k < |post| ==> IsSpace(post[k])
    requires t != [] && !IsSpace(t[0]) && !IsSpace(t[|t| - 1])
    ensures Strip(pre + t + post) == t
  {
    var s := pre + t + post;
    var i := LeadingSpaces(s);
    assert s[|pre|] == t[0];
    assert forall k :: 0 <= k < |pre| ==> s[k] == pre[k];
    assert i == |pre|;
    var r := Strip(s);
    assert s[|pre| + |t| - 1] == t[|t| - 1];
    assert forall k :: |pre| + |t| <= k < |s| ==> IsSpace(s[k]) by {
      forall k | |pre| + |t| <= k < |s|
        ensures IsSpace(s[k])
      {
        assert s[k] == post[k - |pre| - |t|];
      }
    }
    assert |r| == |t|;
    assert r == s[|pre|..|pre| + |t|] == t;
  }

  /** A sign (or none) and a run of digits: the integer the digits spell, negated after `-`. */
  lemma SignedDigitsValue(sign: string, d: string)
    requires sign == "" || sign == "+" || sign == "-"
    requires d != [] && AllDigits(d)
    ensures ParseSignedDigits(sign + d).Some?
    ensures ParseSignedDigits(sign + d).value == if sign == "-" then -(DigitsValue(d) as int) else DigitsValue(d) as int
  {
    var s := sign + d;
    if sign == "" {
      assert s == d && IsDigit(s[0]);
    } else {
      assert s[0] == sign[0] && s[1..] == d;
    }
  }

  /**
   * `int()` accepts an optional sign and a run of digits, with whitespace
   * around them and leading zeros allowed: `int(" +054 ") == 54`.
   */
  lemma ParseIntDigits(pre: string, sign: string, d: string, post: string)
    requires forall k :: 0 <= k < |pre| ==> IsSpace(pre[k])
    requires forall k :: 0 <= k < |post| ==> IsSpace(post[k])
    requires sign == "" || sign == "+" || sign == "-"
    requires d != [] && AllDigits(d)
    ensures ParseInt(pre + sign + d + post).Some?
    ensures ParseInt(pre + sign + d + post).value == if sign == "-" then -(DigitsValue(d) as int) else DigitsValue(d) as int
  {
    var t := sign + d;
    assert t[0] == (if sign == "" then d[0] else sign[0]) && t[|t| - 1] == d[|d| - 1];
    assert IsDigit(d[0]) && IsDigit(d[|d| - 1]);
    assert pre + sign + d + post == pre + t + post;
    StripPadded(pre, t, post);
    SignedDigitsValue(sign, d);
  }

  // ---------------------------------------------------------------- float(text)

  /** A Python float as far as comparisons with 0.5 can tell. */
  datatype PyFloat = Finite(x: real) | Infinity(negative: bool) | NaN

  /** `f >= 0.5` in Python: false for NaN and for negative infinity. */
  predicate AtLeastHalf(f: PyFloat) {
    match f
    case Finite(x) => x >= 0.5
    case Infinity(negative) => !negative
    case NaN => false
  }

  function Pow10(e: nat): (p: nat)
    ensures p >= 1
  {
    if e == 0 then 1 else 10 * Pow10(e - 1)
  }

  /** `m * 10^e` as an exact real. */
  function Scale(m: nat, e: int): real {
    if e >= 0 then (m * Pow10(e)) as real else (m as real) / (Pow10(-e) as real)
  }

  /** The optional exponent part `e[sign]digits` (after lower-casing). */
  function ParseExponent(s: string): Option<int> {
    if s == [] then Some(0)
    else if s[0] == 'e' then ParseSignedDigits(s[1..])
    else None
  }

  /**
   * An unsigned decimal literal: digits, an optional `.` with more digits (at
   * least one digit in all), and an optional exponent.
   */
  function ParseDecimal(s: string): Option<real> {
    var a := DigitRun(s);
    var rest := s[a..];
    var hasPoint := rest != [] && rest[0] == '.';
    var afterPoint := if hasPoint then rest[1..] else [];
    var b := DigitRun(afterPoint);
    var tail := if hasPoint then afterPoint[b..] else rest;
    if a + b == 0 then None
    else
      match ParseExponent(tail)
      case None => None
      case Some(e) => Some(Scale(DigitsValue(s[..a] + afterPoint[..b]), e - b))
  }

  /** A decimal literal, `inf`, `infinity` or `nan`, negated when `neg`. */
  function ParseUnsigned(body: string, neg: bool): Option<PyFloat> {
    if body == "inf" || body == "infinity" then Some(Infinity(neg))
    else if body == "nan" then Some(NaN)
    else
      match ParseDecimal(body)
      case None => None
      case Some(x) => Some(Finite(if neg then -x else x))
  }

  /** A decimal literal, `inf`, `infinity` or `nan`, after an optional sign. */
  function ParseLowered(t: string): Option<PyFloat> {
    var neg := t != [] && t[0] == '-';
    var body := if t != [] && (t[0] == '-' || t[0] == '+') then t[1..] else t;
    ParseUnsigned(body, neg)
  }

  /**
   * `float(text)`: surrounding whitespace is ignored and letters are read
   * without regard to case; `None` where Python raises `ValueError`.
   */
  function ParseFloat(s: string): (r: Option<PyFloat>)
    ensures Strip(s) == [] ==> r.None?
  {
    ParseLowered(Lower(Strip(s)))
  }

  /** `float()` reads text and its trimmed, lower-cased form alike. */
  lemma ParseFloatNormalised(s: string)
    ensures ParseFloat(Lower(Strip(s))) == ParseFloat(s)
  {
    NormaliseIdempotent(s);
  }

  /** `float()` of text that is already trimmed and lower-case. */
  lemma ParseFloatOfNormal(t: string)
    requires t != [] && !IsSpace(t[0]) && !IsSpace(t[|t| - 1])
    requires forall k :: 0 <= k < |t| ==> !IsUpper(t[k])
    ensures ParseFloat(t) == ParseLowered(t)
  {
    NormalFixed(t);
  }

  /** Text without surrounding whitespace or upper-case letters is its own normal form. */
  lemma NormalFixed(t: string)
    requires t != [] && !IsSpace(t[0]) && !IsSpace(t[|t| - 1])
    requires forall k :: 0 <= k < |t| ==> !IsUpper(t[k])
    ensures Lower(Strip(t)) == t
  {
    StripTrimmed(t);
    assert Lower(t) == t;
  }

  /** `inf` and `infinity` read as infinity, negative after a `-`. */
  lemma ParseFloatInfinity()
    ensures ParseFloat("inf") == Some(Infinity(false))
    ensures ParseFloat("-infinity") == Some(Infinity(true))
  {
    ParseFloatOfNormal("inf");
    ParseFloatOfNormal("-infinity");
    assert "-infinity"[1..] == "infinity";
  }

  /** `nan` reads as NaN in any case. */
  lemma ParseFloatNaN()
    ensures ParseFloat("NaN") == Some(NaN)
  {
    StripTrimmed("NaN");
    assert Lower("NaN") == "nan";
  }

  /** The decimal form of an int has no upper-case letter to lower. */
  lemma LowerIntToStr(i: int)
    ensures Lower(IntToStr(i)) == IntToStr(i)
  {
    var r := IntToStr(i);
    forall k | 0 <= k < |r|
      ensures !IsUpper(r[k])
    {
      if i < 0 && k > 0 {
        assert r[k] == NatToStr(-i)[k - 1];
      }
    }
  }

  lemma {:induction false} DigitRunAll(s: string)
    requires AllDigits(s)
    ensures DigitRun(s) == |s|
  {
    if s != [] {
      DigitRunAll(s[1..]);
    }
  }

  /** A plain run of digits reads as the integer it spells. */
  lemma ParseDecimalDigits(d: string)
    requires d != [] && AllDigits(d)
    ensures ParseDecimal(d) == Some(DigitsValue(d) as real)
  {
    DigitRunAll(d);
    assert d[..|d|] + [] == d;
  }

  /** A run of digits is neither `inf`, `infinity` nor `nan`. */
  lemma DigitsNotSpecial(d: string)
    requires d != [] && AllDigits(d)
    ensures d != "inf" && d != "infinity" && d != "nan"
  {
    assert IsDigit(d[0]);
    assert "inf"[0] == 'i' && "infinity"[0] == 'i' && "nan"[0] == 'n';
  }

  /** A run of digits reads as the integer it spells, negated when `neg`. */
  lemma ParseUnsignedDigits(d: string, neg: bool)
    requires d != [] && AllDigits(d)
    ensures ParseUnsigned(d, neg) == Some(Finite(if neg then -(DigitsValue(d) as real) else DigitsValue(d) as real))
  {
    DigitsNotSpecial(d);
    ParseDecimalDigits(d);
  }

  /** A run of digits, with or without a minus sign, reads as the integer it spells. */
  lemma ParseLoweredDigits(neg: bool, d: string)
    requires d != [] && AllDigits(d)
    ensures ParseLowered(if neg then "-" + d else d) ==
      Some(Finite(if neg then -(DigitsValue(d) as real) else DigitsValue(d) as real))
  {
    ParseUnsignedDigits(d, neg);
    var t := if neg then "-" + d else d;
    assert IsDigit(d[0]);
    if neg {
      assert t[0] == '-' && t[1..] == d;
    }
  }

  /** The decimal form of an int is its own stripped, lower-cased form. */
  lemma {:induction false} IntToStrNormal(i: int)
    ensures Lower(Strip(IntToStr(i))) == IntToStr(i)
  {
    var r := IntToStr(i);
    var d := NatToStr(if i < 0 then -i else i);
    assert r[|r| - 1] == d[|d| - 1];
    StripTrimmed(r);
    LowerIntToStr(i);
  }

  /** The decimal form of an int, once normalised, reads as that int. */
  lemma {:induction false} ParseLoweredOfInt(i: int)
    ensures ParseLowered(IntToStr(i)) == Some(Finite(i as real))
  {
    var n: nat := if i < 0 then -i else i;
    var d := NatToStr(n);
    assert IntToStr(i) == if i < 0 then "-" + d else d;
    NatToStrValue(n);
    ParseLoweredDigits(i < 0, d);
  }

  /** `float(str(i)) == i` for every Python int. */
  lemma {:induction false} ParseFloatOfInt(i: int)
    ensures ParseFloat(IntToStr(i)) == Some(Finite(i as real))
  {
    IntToStrNormal(i);
    ParseLoweredOfInt(i);
  }

  /** The digit run at the start of `a + rest` is `a` when `rest` starts with no digit. */
  lemma {:induction false} DigitRunPrefix(a: string, rest: string)
    requires AllDigits(a)
    requires rest == [] || !IsDigit(rest[0])
    ensures DigitRun(a + rest) == |a|
  {
    if a != [] {
      assert (a + rest)[1..] == a[1..] + rest;
      DigitRunPrefix(a[1..], rest);
    }
  }

  /** An unsigned numeral with a decimal point reads as its digits scaled down by the fraction's length. */
  lemma ParseDecimalPoint(a: string, b: string)
    requires AllDigits(a) && AllDigits(b) && |a| + |b| > 0
    ensures ParseDecimal(a + "." + b) == Some(DigitsValue(a + b) as real / Pow10(|b|) as real)
  {
    var s := a + "." + b;
    assert s == a + ("." + b);
    DigitRunPrefix(a, "." + b);
    assert DigitRun(s) == |a|;
    DigitRunAll(b);
    var rest := s[|a|..];
    assert rest == "." + b && rest[0] == '.';
    var afterPoint := rest[1..];
    assert afterPoint == b;
    assert afterPoint[|b|..] == [];
    assert ParseExponent([]) == Some(0);
    var m := DigitsValue(s[..|a|] + afterPoint[..|b|]);
    assert s[..|a|] + afterPoint[..|b|] == a + b;
    assert ParseDecimal(s) == Some(Scale(m, 0 - |b|));
    ScaleDown(m, |b|);
  }

  /** Scaling by a negative power of ten divides. */
  lemma ScaleDown(m: nat, n: nat)
    ensures Scale(m, 0 - n) == m as real / Pow10(n) as real
  {
    if n == 0 {
      assert Pow10(0) == 1;
    }
  }

  /**
   * `float()` of a decimal numeral `a.b` (either side may be empty, not both)
   * is the exact value it spells: `float("0.7") == 7/10`.
   */
  lemma ParseFloatDecimal(a: string, b: string)
    requires AllDigits(a) && AllDigits(b) && |a| + |b| > 0
    ensures ParseFloat(a + "." + b) == Some(Finite(DigitsValue(a + b) as real / Pow10(|b|) as real))
  {
    var t := a + "." + b;
    var x := DigitsValue(a + b) as real / Pow10(|b|) as real;
    PointNumeralNormal(a, b);
    ParseFloatOfNormal(t);
    ParseDecimalPoint(a, b);
    ParseUnsignedPoint(t, |a|, x);
  }

  /** A numeral `a.b` is trimmed, has no upper-case letter and starts with no sign. */
  lemma PointNumeralNormal(a: string, b: string)
    requires AllDigits(a) && AllDigits(b)
    ensures var t := a + "." + b;
      && t[|a|] == '.'
      && !IsSpace(t[0]) && !IsSpace(t[|t| - 1])
      && t[0] != '-' && t[0] != '+'
      && forall k :: 0 <= k < |t| ==> !IsUpper(t[k])
  {
    var t := a + "." + b;
    assert forall k :: 0 <= k < |t| ==> t[k] == '.' || IsDigit(t[k]);
  }

  /** A numeral with a point is no special value, so it reads as its decimal value. */
  lemma ParseUnsignedPoint(t: string, k: nat, x: real)
    requires k < |t| && t[k] == '.' && t[0] != '-' && t[0] != '+'
    requires ParseDecimal(t) == Some(x)
    ensures ParseLowered(t) == Some(Finite(x))
  {
    assert '.' in t && '.' !in "inf" && '.' !in "infinity" && '.' !in "nan";
    assert ParseLowered(t) == ParseUnsigned(t, false);
  }
}
