/** JavaScript's number/string conversions as far as the scripts use them:
    `Number.prototype.toString` on integers (`id.toString()`, the
    `${runtime} min` template) and the implicit `ToNumber` coercion of a
    string that the sort comparators' subtraction performs. */
module Numbers {
  import opened Wrappers
  import Strings

  predicate IsDigit(c: char) {
    '0' <= c <= '9'
  }

  predicate IsDigits(s: string) {
    forall i :: 0 <= i < |s| ==> IsDigit(s[i])
  }

  function DigitChar(d: nat): (c: char)
    requires d < 10
    ensures IsDigit(c) && c as int - '0' as int == d
  {
    ('0' as int + d) as char
  }

  /** The value of a string of decimal digits; the empty string is 0. */
  function DigitsValue(s: string): nat
    requires IsDigits(s)
  {
    if s == [] then 0
    else DigitsValue(s[..|s| - 1]) * 10 + (s[|s| - 1] as int - '0' as int)
  }

  /** The decimal text of `n`, without leading zeros. */
  function NatToString(n: nat): (r: string)
    ensures r != [] && IsDigits(r)
    ensures r[0] == '0' ==> n == 0
  {
    if n < 10 then [DigitChar(n)] else NatToString(n / 10) + [DigitChar(n % 10)]
  }

  /** `n.toString()` for an integer below 10^21 in magnitude, which
      JavaScript writes in plain decimal (larger ones take the exponent
      form, and integers beyond 2^53 are not held exactly). */
  function IntToString(n: int): (r: string)
    ensures r != []
    ensures n >= 0 <==> IsDigits(r)
    ensures n >= 0 && r[0] == '0' ==> n == 0 && r == "0"
    ensures n < 0 ==> r[0] == '-' && |r| > 1 && IsDigits(r[1..]) && r[1] != '0'
  {
    if n < 0 then
      var d := NatToString(-n);
      var r := "-" + d;
      assert !IsDigit(r[0]) && r[1..] == d;
      r
    else NatToString(n)
  }

  /** Reading the digits back gives the number that was written. */
  lemma {:induction false} NatToStringRoundTrip(n: nat)
    ensures DigitsValue(NatToString(n)) == n
  {
    var r := NatToString(n);
    if n >= 10 {
      NatToStringRoundTrip(n / 10);
      assert r[..|r| - 1] == NatToString(n / 10);
    }
  }

  function Pow10(n: nat): (r: nat)
    ensures r >= 1
  {
    if n == 0 then 1 else 10 * Pow10(n - 1)
  }

  /** A digit string without leading zeros has a positive value unless it
      is "0". */
  lemma {:induction false} LeadingDigitPositive(d: string)
    requires d != [] && IsDigits(d) && d[0] != '0'
    ensures DigitsValue(d) >= 1
  {
    if |d| > 1 {
      var p := d[..|d| - 1];
      assert p[0] == d[0];
      LeadingDigitPositive(p);
    }
  }

  /** Conversely, writing out the value of a digit string without leading
      zeros gives that string back: each integer has exactly one such text. */
  lemma {:induction false} DigitsToStringRoundTrip(d: string)
    requires d != [] && IsDigits(d) && (d[0] == '0' ==> |d| == 1)
    ensures NatToString(DigitsValue(d)) == d
  {
    if |d| > 1 {
      var p := d[..|d| - 1];
      assert p[0] == d[0];
      LeadingDigitPositive(p);
      DigitsToStringRoundTrip(p);
      var c := d[|d| - 1] as int - '0' as int;
      var n := DigitsValue(d);
      assert n == DigitsValue(p) * 10 + c && 0 <= c < 10;
      assert n / 10 == DigitsValue(p) && n % 10 == c;
      assert d == p + [d[|d| - 1]];
    }
  }

  /** `n` digits denote less than 10^n. */
  lemma {:induction false} DigitsBelowPow10(s: string)
    requires IsDigits(s)
    ensures DigitsValue(s) < Pow10(|s|)
  {
    if s != [] {
      DigitsBelowPow10(s[..|s| - 1]);
    }
  }

  lemma ProperFraction(num: real, den: real)
    requires 0.0 <= num < den
    ensures 0.0 <= num / den < 1.0
  {
    assert num / den * den == num;
  }

  /** The value of the literal `w.f`: the whole part plus a fraction below
      one. */
  function DecimalValue(w: string, f: string): (r: real)
    requires IsDigits(w) && IsDigits(f)
    ensures DigitsValue(w) as real <= r < DigitsValue(w) as real + 1.0
  {
    DigitsBelowPow10(f);
    ProperFraction(DigitsValue(f) as real, Pow10(|f|) as real);
    DigitsValue(w) as real + DigitsValue(f) as real / Pow10(|f|) as real
  }

  /** A plain decimal literal without sign: digits, optionally a `.` and
      more digits, at least one digit in all. `None` for anything else. */
  function ParseUnsignedDecimal(s: string): (r: Option<real>)
    ensures IsDigits(s) && s != [] ==> r == Some(DigitsValue(s) as real)
    ensures r.Some? ==> r.value >= 0.0
  {
    var whole := Strings.PrefixBefore(s, '.');
    if |whole| == |s| then
      if s != [] && IsDigits(s) then Some(DigitsValue(s) as real) else None
    else
      var fraction := s[|whole| + 1..];
      if IsDigits(whole) && IsDigits(fraction) && |whole| + |fraction| > 0 then
        Some(DecimalValue(whole, fraction))
      else None
  }

  /** Unary minus on a number. */
  function Negate(x: real): (r: real)
    ensures r + x == 0.0
  {
    -x
  }

  /** JavaScript's `ToNumber` applied to a string (section 7.1.4.1.1 of
      ECMAScript 2023): surrounding white space is ignored, a blank string is
      0, and a signed decimal literal is its value. `None` stands for NaN and
      for the literal forms this model does not read (exponents, hex,
      `Infinity`). */
  function JsToNumber(s: string): (r: Option<real>)
    ensures Strings.AllWhitespace(s) ==> r == Some(0.0)
    ensures IsDigits(s) && s != [] ==> r == Some(DigitsValue(s) as real)
  {
    Strings.TrimEmptyIffAllWhitespace(s);
    DigitsAreTrimmed(s);
    var t := Strings.Trim(s);
    if t == [] then Some(0.0)
    else if t[0] == '-' then
      match ParseUnsignedDecimal(t[1..])
      case Some(v) => Some(Negate(v))
      case None => None
    else if t[0] == '+' then ParseUnsignedDecimal(t[1..])
    else ParseUnsignedDecimal(t)
  }

  /** The text of an unsigned decimal literal: digits with at most one `.`
      among them, and at least one digit. */
  predicate IsUnsignedLiteral(u: string) {
    && (forall i :: 0 <= i < |u| ==> IsDigit(u[i]) || u[i] == '.')
    && (forall i, j :: 0 <= i < j < |u| && u[i] == '.' ==> u[j] != '.')
    && (exists i :: 0 <= i < |u| && IsDigit(u[i]))
  }

  /** An unsigned decimal literal, optionally after one `-` or `+`. */
  predicate IsNumericLiteral(t: string) {
    t != [] && IsUnsignedLiteral(if t[0] == '-' || t[0] == '+' then t[1..] else t)
  }

  /** `ParseUnsignedDecimal` reads exactly the unsigned literals. */
  lemma UnsignedLiteralIff(u: string)
    ensures ParseUnsignedDecimal(u).Some? <==> IsUnsignedLiteral(u)
  {
    var whole := Strings.PrefixBefore(u, '.');
    if |whole| == |u| {
      assert whole == u;
      if IsUnsignedLiteral(u) {
        assert IsDigits(u) by {
          forall i | 0 <= i < |u| ensures IsDigit(u[i]) {
            assert u[i] == whole[i];
          }
        }
      }
      if ParseUnsignedDecimal(u).Some? {
        assert IsDigit(u[0]);
      }
    } else {
      var fraction := u[|whole| + 1..];
      assert u == whole + ['.'] + fraction;
      DottedLiteralIff(whole, fraction);
    }
  }

  /** A text with one `.` after a dot-free part is a literal exactly when
      both parts are digits and there is at least one digit. */
  lemma DottedLiteralIff(whole: string, fraction: string)
    requires '.' !in whole
    ensures IsDigits(whole) && IsDigits(fraction) && |whole| + |fraction| > 0
      <==> IsUnsignedLiteral(whole + ['.'] + fraction)
  {
    var u := whole + ['.'] + fraction;
    if IsDigits(whole) && IsDigits(fraction) && |whole| + |fraction| > 0 {
      forall i | 0 <= i < |u| ensures IsDigit(u[i]) || u[i] == '.' {
        if i > |whole| {
          assert u[i] == fraction[i - |whole| - 1];
        }
      }
      if whole != [] {
        assert IsDigit(u[0]);
      } else {
        assert IsDigit(u[|whole| + 1]);
      }
    }
    if IsUnsignedLiteral(u) {
      forall i | 0 <= i < |whole| ensures IsDigit(whole[i]) {
        assert whole[i] == u[i];
      }
      assert u[|whole|] == '.';
      forall i | 0 <= i < |fraction| ensures IsDigit(fraction[i]) {
        assert fraction[i] == u[|whole| + 1 + i] != '.';
      }
      var k :| 0 <= k < |u| && IsDigit(u[k]);
      assert k != |whole|;
    }
  }

  /** `ToNumber` gives a number exactly for blank text and for a signed
      decimal literal between white space; everything else is NaN. */
  lemma {:induction false} ToNumberDefinedIff(s: string)
    ensures JsToNumber(s).Some? <==> Strings.AllWhitespace(s) || IsNumericLiteral(Strings.Trim(s))
  {
    Strings.TrimEmptyIffAllWhitespace(s);
    var t := Strings.Trim(s);
    if t != [] {
      if t[0] == '-' || t[0] == '+' {
        UnsignedLiteralIff(t[1..]);
      } else {
        UnsignedLiteralIff(t);
      }
    }
  }

  /** The sentinel "N/A" coerces to NaN. */
  lemma NotAvailableIsNaN()
    ensures JsToNumber("N/A").None?
  {
    ToNumberDefinedIff("N/A");
    assert !Strings.IsJsWhitespace('N') && !Strings.IsJsWhitespace('A');
    Strings.TrimOfTrimmed("N/A");
    assert !IsDigit("N/A"[0]);
  }

  lemma DigitsAreTrimmed(s: string)
    ensures IsDigits(s) && s != [] ==> Strings.Trim(s) == s
  {
    if IsDigits(s) && s != [] {
      assert !Strings.IsJsWhitespace(s[0]) && !Strings.IsJsWhitespace(s[|s| - 1]);
      Strings.TrimOfTrimmed(s);
    }
  }

  /** A digit string after `-` reads as its value negated. */
  lemma NegativeToNumber(d: string)
    requires d != [] && IsDigits(d)
    ensures JsToNumber("-" + d) == Some(Negate(DigitsValue(d) as real))
  {
    var v := DigitsValue(d) as real;
    assert ParseUnsignedDecimal(d) == Some(v);
    assert IsDigit(d[|d| - 1]);
    SignPrefixToNumber(d, v, '-');
    assert ['-'] + d == "-" + d;
  }

  /** A digit string after `+` reads as its value. */
  lemma PositiveToNumber(d: string)
    requires d != [] && IsDigits(d)
    ensures JsToNumber("+" + d) == Some(DigitsValue(d) as real)
  {
    var v := DigitsValue(d) as real;
    assert ParseUnsignedDecimal(d) == Some(v);
    assert IsDigit(d[|d| - 1]);
    SignPrefixToNumber(d, v, '+');
    assert ['+'] + d == "+" + d;
  }

  /** A literal `w.f` (at least one digit in all) parses to its value. */
  lemma ParseDecimal(w: string, f: string)
    requires IsDigits(w) && IsDigits(f) && |w| + |f| > 0
    ensures ParseUnsignedDecimal(w + "." + f) == Some(DecimalValue(w, f))
  {
    var u := w + "." + f;
    assert '.' !in w;
    Strings.PrefixBeforeSeparated(w, '.', f);
    assert u == w + ['.'] + f;
    assert u[|w| + 1..] == f;
  }

  /** `ToNumber` reads a decimal literal `w.f` as its value. */
  lemma DecimalToNumber(w: string, f: string)
    requires IsDigits(w) && IsDigits(f) && |w| + |f| > 0
    ensures JsToNumber(w + "." + f) == Some(DecimalValue(w, f))
  {
    var u := w + "." + f;
    ParseDecimal(w, f);
    assert u[0] == (if w == [] then '.' else w[0]);
    assert u[|u| - 1] == (if f == [] then '.' else f[|f| - 1]);
    UnsignedToNumber(u, DecimalValue(w, f));
  }

  /** ... and after `-` as its value negated. */
  lemma NegativeDecimalToNumber(w: string, f: string)
    requires IsDigits(w) && IsDigits(f) && |w| + |f| > 0
    ensures JsToNumber("-" + (w + "." + f)) == Some(Negate(DecimalValue(w, f)))
  {
    var u := w + "." + f;
    ParseDecimal(w, f);
    assert u[|u| - 1] == (if f == [] then '.' else f[|f| - 1]);
    NegatedToNumber(u, DecimalValue(w, f));
  }

  /** ... and after `+` as its value. */
  lemma PositiveDecimalToNumber(w: string, f: string)
    requires IsDigits(w) && IsDigits(f) && |w| + |f| > 0
    ensures JsToNumber("+" + (w + "." + f)) == Some(DecimalValue(w, f))
  {
    var u := w + "." + f;
    ParseDecimal(w, f);
    assert u[|u| - 1] == (if f == [] then '.' else f[|f| - 1]);
    SignPrefixToNumber(u, DecimalValue(w, f), '+');
    assert ['+'] + u == "+" + u;
  }

  lemma UnsignedToNumber(u: string, v: real)
    requires u != [] && ParseUnsignedDecimal(u) == Some(v)
    requires u[0] == '.' || IsDigit(u[0])
    requires u[|u| - 1] == '.' || IsDigit(u[|u| - 1])
    ensures JsToNumber(u) == Some(v)
  {
    Strings.TrimOfTrimmed(u);
  }

  lemma NegatedToNumber(u: string, v: real)
    requires u != [] && ParseUnsignedDecimal(u) == Some(v)
    requires u[|u| - 1] == '.' || IsDigit(u[|u| - 1])
    ensures JsToNumber("-" + u) == Some(Negate(v))
  {
    SignPrefixToNumber(u, v, '-');
    assert ['-'] + u == "-" + u;
  }

  lemma SignPrefixToNumber(u: string, v: real, sign: char)
    requires u != [] && ParseUnsignedDecimal(u) == Some(v)
    requires u[|u| - 1] == '.' || IsDigit(u[|u| - 1])
    requires sign == '-' || sign == '+'
    ensures JsToNumber([sign] + u) == Some(if sign == '-' then Negate(v) else v)
  {
    SignPrefixTrimmed(u, sign);
  }

  lemma SignPrefixTrimmed(u: string, sign: char)
    requires u != [] && (u[|u| - 1] == '.' || IsDigit(u[|u| - 1]))
    requires sign == '-' || sign == '+'
    ensures Strings.Trim([sign] + u) == [sign] + u
    ensures ([sign] + u)[0] == sign && ([sign] + u)[1..] == u
  {
    var n := [sign] + u;
    assert n[|n| - 1] == u[|u| - 1];
    Strings.TrimOfTrimmed(n);
  }

  /** The text `toString` gives an integer coerces back to that integer:
      a converted record's `imdbID` still denotes the provider's id. */
  lemma IntToStringRoundTrip(n: int)
    ensures JsToNumber(IntToString(n)) == Some(n as real)
  {
    var d := NatToString(if n < 0 then -n else n);
    NatToStringRoundTrip(if n < 0 then -n else n);
    if n < 0 {
      assert IntToString(n) == "-" + d;
      NegativeToNumber(d);
    } else {
      assert IntToString(n) == d;
      assert JsToNumber(d) == Some(DigitsValue(d) as real);
    }
  }

  /** Distinct ids give distinct `imdbID` strings. */
  lemma IntToStringInjective(a: int, b: int)
    requires IntToString(a) == IntToString(b)
    ensures a == b
  {
    IntToStringRoundTrip(a);
    IntToStringRoundTrip(b);
  }
}
