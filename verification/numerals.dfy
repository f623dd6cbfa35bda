/** Python's `int(tok)` and `float(tok)` on a token (a string with no
    surrounding whitespace), and decimal renderings they read back. */
module Numerals {
  import opened Outcomes
  import opened Text

  /** A Python float, exactly: the decimal value of the literal, or one of the
      IEEE special values. Binary rounding is not modelled. */
  datatype Float = Finite(value: real) | Infinite(negative: bool) | NaN

  predicate IsDigit(c: char) {
    '0' <= c <= '9'
  }

  predicate AllDigits(s: string) {
    forall i :: 0 <= i < |s| ==> IsDigit(s[i])
  }

  function DigitValue(c: char): (d: nat)
    requires IsDigit(c)
    ensures d < 10
  {
    c as int - '0' as int
  }

  function DigitChar(d: nat): (c: char)
    requires d < 10
    ensures IsDigit(c) && DigitValue(c) == d
  {
    ('0' as int + d) as char
  }

  function Pow10(k: nat): (p: nat)
    ensures p > 0
  {
    if k == 0 then 1 else 10 * Pow10(k - 1)
  }

  /** The number a run of decimal digits denotes (leading zeros allowed). */
  function DigitsValue(s: string): nat
    requires AllDigits(s)
    decreases |s|
  {
    if |s| == 0 then 0 else 10 * DigitsValue(s[..|s| - 1]) + DigitValue(s[|s| - 1])
  }

  lemma {:induction false} DigitsValueAppend(a: string, b: string)
    requires AllDigits(a) && AllDigits(b)
    ensures AllDigits(a + b)
    ensures DigitsValue(a + b) == DigitsValue(a) * Pow10(|b|) + DigitsValue(b)
    decreases |b|
  {
    var ab := a + b;
    if |b| == 0 {
      assert ab == a;
    } else {
      var b' := b[..|b| - 1];
      var last := DigitValue(b[|b| - 1]);
      assert ab[..|ab| - 1] == a + b';
      assert ab[|ab| - 1] == b[|b| - 1];
      DigitsValueAppend(a, b');
      assert DigitsValue(ab) == 10 * DigitsValue(a + b') + last;
      assert DigitsValue(b) == 10 * DigitsValue(b') + last;
      ShiftDigit(DigitsValue(a), Pow10(|b'|), DigitsValue(b'), last);
    }
  }

  lemma ShiftDigit(x: nat, p: nat, y: nat, z: nat)
    ensures 10 * (x * p + y) + z == x * (10 * p) + (10 * y + z)
  {
  }

  /** The number whose digits are those of `high` followed by `k` digits worth `low`. */
  function Shifted(high: nat, k: nat, low: nat): nat {
    high * Pow10(k) + low
  }

  /** `value * 10^exponent` for a non-negative integer `value`. */
  function Scale(value: nat, exponent: int): (r: real)
    ensures r >= 0.0
    ensures r == 0.0 <==> value == 0
  {
    if exponent >= 0 then (value * Pow10(exponent)) as real
    else value as real / Pow10(-exponent) as real
  }

  /** The underscore pass `int()` and `float()` make before reading a literal
      (PEP 515 grouping): every underscore is dropped, and each must come right
      after a digit and right before one. `afterDigit` and `afterUnderscore`
      describe the character in front of `s`. */
  function Ungroup(s: string, afterDigit: bool, afterUnderscore: bool): (r: Option<string>)
    ensures r.Some? ==> '_' !in r.value
    ensures '_' !in s && !afterUnderscore ==> r == Some(s)
    decreases |s|
  {
    if |s| == 0 then (if afterUnderscore then None else Some(""))
    else if s[0] == '_' then (if afterDigit then Ungroup(s[1..], false, true) else None)
    else if afterUnderscore && !IsDigit(s[0]) then None
    else
      assert s == [s[0]] + s[1..];
      match Ungroup(s[1..], IsDigit(s[0]), false)
      case None => None
      case Some(t) => Some([s[0]] + t)
  }

  /** An optional leading `+` or `-`, and what follows it. */
  function SplitSign(s: string): (r: (bool, string))
    ensures |r.1| <= |s| && r.1 == s[|s| - |r.1|..]
    ensures r.0 ==> |s| > 0 && s[0] == '-'
  {
    if |s| > 0 && (s[0] == '+' || s[0] == '-') then (s[0] == '-', s[1..]) else (false, s)
  }

  function Negate(negative: bool, x: int): int {
    if negative then -x else x
  }

  /** `int()` on an underscore-free string: a sign, then one or more digits. */
  function ParseIntPlain(s: string): Option<int> {
    var (negative, digits) := SplitSign(s);
    if |digits| > 0 && AllDigits(digits) then Some(Negate(negative, DigitsValue(digits))) else None
  }

  /** `int(tok)` in base 10. */
  function ParseInt(tok: string): (r: Option<int>)
    ensures r.Some? ==> |tok| > 0
  {
    match Ungroup(tok, false, false)
    case None => None
    case Some(t) => ParseIntPlain(t)
  }

  /** Index of the first character of `s` in `targets`, or `|s|`. */
  function FindChar(s: string, targets: set<char>): (k: nat)
    ensures k <= |s|
    ensures forall i :: 0 <= i < k ==> s[i] !in targets
    ensures k < |s| ==> s[k] in targets
  {
    if |s| == 0 || s[0] in targets then 0 else 1 + FindChar(s[1..], targets)
  }

  function ToLower(c: char): char {
    if 'A' <= c <= 'Z' then (c as int + 32) as char else c
  }

  /** ASCII case-insensitive equality with a lower-case word. */
  predicate EqualsIgnoreCase(s: string, lower: string) {
    |s| == |lower| && forall i :: 0 <= i < |s| ==> ToLower(s[i]) == lower[i]
  }

  /** The digits of a literal without its exponent: digits with an optional
      point, and at least one digit on some side of the point. */
  function ParseMantissa(mantissa: string, exponent: int): (r: Option<real>)
    ensures r.Some? ==> r.value >= 0.0
  {
    var p := FindChar(mantissa, {'.'});
    var whole := mantissa[..p];
    var frac := if p == |mantissa| then "" else mantissa[p + 1..];
    if AllDigits(whole) && AllDigits(frac) && |whole| + |frac| > 0 then
      Some(Scale(Shifted(DigitsValue(whole), |frac|, DigitsValue(frac)), exponent - |frac|))
    else None
  }

  /** An unsigned decimal literal: a mantissa, then an optional `e`/`E` and a
      signed integer exponent. */
  function ParseDecimal(body: string): (r: Option<real>)
    ensures r.Some? ==> r.value >= 0.0
  {
    var e := FindChar(body, {'e', 'E'});
    var exponent := if e == |body| then Some(0) else ParseIntPlain(body[e + 1..]);
    if exponent.None? then None else ParseMantissa(body[..e], exponent.value)
  }

  lemma FindCharAbsent(s: string, targets: set<char>)
    requires forall i :: 0 <= i < |s| ==> s[i] !in targets
    ensures FindChar(s, targets) == |s|
  {
  }

  lemma FindCharAt(s: string, targets: set<char>, k: nat)
    requires k < |s| && s[k] in targets
    requires forall i :: 0 <= i < k ==> s[i] !in targets
    ensures FindChar(s, targets) == k
  {
  }

  lemma DigitsAreNotSpecial(s: string)
    requires AllDigits(s)
    ensures forall i :: 0 <= i < |s| ==> s[i] !in {'e', 'E', '.', '_'}
  {
  }

  /** `float()` on an underscore-free string: a sign, then `inf`, `infinity`,
      `nan` in any case, or a decimal literal. */
  function ParseFloatPlain(s: string): Option<Float> {
    var (negative, body) := SplitSign(s);
    if EqualsIgnoreCase(body, "inf") || EqualsIgnoreCase(body, "infinity") then Some(Infinite(negative))
    else if EqualsIgnoreCase(body, "nan") then Some(NaN)
    else match ParseDecimal(body)
      case None => None
      case Some(v) => Some(Finite(if negative then -v else v))
  }

  /** `float(tok)`. */
  function ParseFloat(tok: string): (r: Option<Float>)
    ensures r.Some? ==> |tok| > 0
  {
    match Ungroup(tok, false, false)
    case None => None
    case Some(t) => ParseFloatPlain(t)
  }

  /** PEP 515 grouping: every underscore sits between two digits. */
  predicate Grouped(s: string) {
    forall i :: 0 <= i < |s| && s[i] == '_' ==> 0 < i < |s| - 1 && IsDigit(s[i - 1]) && IsDigit(s[i + 1])
  }

  /** `s` with every underscore removed. */
  function DropUnderscores(s: string): (r: string)
    ensures '_' !in r
    ensures |r| <= |s|
    decreases |s|
  {
    if |s| == 0 then ""
    else (if s[0] == '_' then "" else [s[0]]) + DropUnderscores(s[1..])
  }

  /** The two flags of `Ungroup` written as text placed in front of the
      string it reads, so that its result can be stated through `Grouped`
      alone: `"0"` after a digit, `"0_"` after an underscore that followed a
      digit, and `""` otherwise. `Grouped` only looks at an underscore's two
      neighbours, so these stand-ins behave like any text that ends the same
      way. */
  function Context(afterDigit: bool, afterUnderscore: bool): string {
    if afterUnderscore then "0_" else if afterDigit then "0" else ""
  }

  /** The underscore pass accepts exactly the grouped strings, and drops
      their underscores. */
  lemma {:induction false} UngroupGrammar(s: string, afterDigit: bool, afterUnderscore: bool)
    requires !(afterDigit && afterUnderscore)
    ensures Ungroup(s, afterDigit, afterUnderscore)
      == if Grouped(Context(afterDigit, afterUnderscore) + s) then Some(DropUnderscores(s)) else None
    decreases |s|
  {
    var c := Context(afterDigit, afterUnderscore);
    if |s| == 0 {
      assert c + s == c;
      if afterUnderscore {
        assert c[1] == '_';
      }
    } else if s[0] == '_' {
      if afterDigit {
        UngroupGrammar(s[1..], false, true);
        assert Ungroup(s, afterDigit, afterUnderscore) == Ungroup(s[1..], false, true);
        assert c == "0";
        assert "0_" + s[1..] == c + s;
        assert DropUnderscores(s) == "" + DropUnderscores(s[1..]);
        assert "" + DropUnderscores(s[1..]) == DropUnderscores(s[1..]);
      } else if afterUnderscore {
        assert (c + s)[1] == '_' && (c + s)[2] == s[0];
      } else {
        assert (c + s)[0] == '_';
      }
    } else if afterUnderscore && !IsDigit(s[0]) {
      assert (c + s)[1] == '_' && (c + s)[2] == s[0];
    } else {
      UngroupGrammar(s[1..], IsDigit(s[0]), false);
      assert c + s == c + [s[0]] + s[1..];
      GroupedStep(c, s[0], s[1..], Context(IsDigit(s[0]), false));
    }
  }

  /** Reading one non-underscore character moves the context along without
      changing whether the whole string is grouped. */
  lemma GroupedStep(c: string, x: char, t: string, d: string)
    requires x != '_'
    requires c == "" || c == "0" || c == "0_"
    requires c == "0_" ==> IsDigit(x)
    requires d == if IsDigit(x) then "0" else ""
    ensures Grouped(c + [x] + t) <==> Grouped(d + t)
  {
    if Grouped(c + [x] + t) {
      GroupedStepForward(c, x, t, d);
    }
    if Grouped(d + t) {
      GroupedStepBack(c, x, t, d);
    }
  }

  lemma GroupedStepForward(c: string, x: char, t: string, d: string)
    requires d == if IsDigit(x) then "0" else ""
    requires Grouped(c + [x] + t)
    ensures Grouped(d + t)
  {
    var u := c + [x] + t;
    var v := d + t;
    var off := |c| + 1;
    forall i | 0 <= i < |v| && v[i] == '_'
      ensures 0 < i < |v| - 1 && IsDigit(v[i - 1]) && IsDigit(v[i + 1])
    {
      var j := i - |d|;
      assert v[i] == t[j];
      assert u[off + j] == t[j];
      if j == 0 {
        assert u[off - 1] == x;
      } else {
        assert u[off + j - 1] == t[j - 1] == v[i - 1];
      }
      assert u[off + j + 1] == t[j + 1] == v[i + 1];
    }
  }

  lemma GroupedStepBack(c: string, x: char, t: string, d: string)
    requires x != '_'
    requires c == "" || c == "0" || c == "0_"
    requires c == "0_" ==> IsDigit(x)
    requires d == "" || d == "0"
    requires d == "0" ==> IsDigit(x)
    requires Grouped(d + t)
    ensures Grouped(c + [x] + t)
  {
    var u := c + [x] + t;
    var v := d + t;
    var off := |c| + 1;
    forall k | 0 <= k < |u| && u[k] == '_'
      ensures 0 < k < |u| - 1 && IsDigit(u[k - 1]) && IsDigit(u[k + 1])
    {
      if k < |c| {
        assert k == 1 && u[0] == '0' && u[2] == x;
      } else {
        assert k != |c|;
        var j := k - off;
        assert u[k] == t[j] == v[|d| + j];
        if j == 0 {
          assert u[k - 1] == x;
        } else {
          assert u[k - 1] == t[j - 1] == v[|d| + j - 1];
        }
        assert u[k + 1] == t[j + 1] == v[|d| + j + 1];
      }
    }
  }

  /** `int(tok)` accepts a grouped token whose underscore-free form is a
      signed run of digits, and rejects every other token. */
  lemma ParseIntGrammar(tok: string)
    ensures ParseInt(tok) == if Grouped(tok) then ParseIntPlain(DropUnderscores(tok)) else None
  {
    UngroupGrammar(tok, false, false);
    assert "" + tok == tok;
  }

  /** `float(tok)` accepts a grouped token whose underscore-free form is a
      signed `inf`, `infinity`, `nan` or decimal literal, and rejects every
      other token. */
  lemma ParseFloatGrammar(tok: string)
    ensures ParseFloat(tok) == if Grouped(tok) then ParseFloatPlain(DropUnderscores(tok)) else None
  {
    UngroupGrammar(tok, false, false);
    assert "" + tok == tok;
  }

  lemma DropUnderscoresHead(s: string)
    requires |s| > 0 && s[0] != '_'
    ensures |DropUnderscores(s)| > 0 && DropUnderscores(s)[0] == s[0]
  {
  }

  /** A token that starts with a letter or other non-numeric character is
      not an integer literal (`int('Tc')` raises). */
  lemma WordTokenIsNotInt(tok: string)
    requires |tok| > 0 && !IsDigit(tok[0]) && tok[0] !in {'+', '-', '_'}
    ensures ParseInt(tok) == None
  {
    ParseIntGrammar(tok);
    DropUnderscoresHead(tok);
    var t := DropUnderscores(tok);
    assert SplitSign(t) == (false, t);
    assert !AllDigits(t);
  }

  /** A token that starts with a character no float literal can start with
      is not a float literal. */
  lemma WordTokenIsNotFloat(tok: string)
    requires |tok| > 0 && !IsDigit(tok[0]) && tok[0] !in {'+', '-', '_', '.'}
    requires ToLower(tok[0]) != 'i' && ToLower(tok[0]) != 'n'
    ensures ParseFloat(tok) == None
  {
    ParseFloatGrammar(tok);
    DropUnderscoresHead(tok);
    var t := DropUnderscores(tok);
    assert SplitSign(t) == (false, t);
    assert !EqualsIgnoreCase(t, "inf") && !EqualsIgnoreCase(t, "infinity") && !EqualsIgnoreCase(t, "nan");
    DecimalRejectsHead(t);
  }

  lemma DecimalRejectsHead(body: string)
    requires |body| > 0 && !IsDigit(body[0]) && body[0] != '.'
    ensures ParseDecimal(body) == None
  {
    var e := FindChar(body, {'e', 'E'});
    if e > 0 {
      var mantissa := body[..e];
      assert mantissa[0] == body[0];
      var p := FindChar(mantissa, {'.'});
      assert p > 0;
      assert mantissa[..p][0] == body[0];
    } else {
      assert body[..e] == "";
    }
  }

  /** Every `int()` literal is a `float()` literal with the same value. */
  lemma IntLiteralIsFloatLiteral(tok: string)
    requires ParseInt(tok).Some?
    ensures ParseFloat(tok) == Some(Finite(ParseInt(tok).value as real))
  {
    var s := Ungroup(tok, false, false).value;
    assert ParseInt(tok) == ParseIntPlain(s);
    assert ParseFloat(tok) == ParseFloatPlain(s);
    var (negative, body) := SplitSign(s);
    assert |body| > 0 && AllDigits(body);
    DigitsAreDecimal(body);
  }

  /** A run of digits is an ordinary decimal literal, worth its digits. */
  lemma DigitsAreDecimal(body: string)
    requires |body| > 0 && AllDigits(body)
    ensures !EqualsIgnoreCase(body, "inf") && !EqualsIgnoreCase(body, "infinity") && !EqualsIgnoreCase(body, "nan")
    ensures ParseDecimal(body) == Some(DigitsValue(body) as real)
  {
    assert IsDigit(body[0]);
    DigitFirstIsNotSpecial(body);
    DigitsAreNotSpecial(body);
    NoExponentMarker(body);
    FindCharAbsent(body, {'.'});
    assert body[..|body|] == body;
    assert Shifted(DigitsValue(body), 0, DigitsValue("")) == DigitsValue(body);
  }

  /** Canonical decimal digits of a natural number. */
  function NatDigits(n: nat): (s: string)
    ensures |s| > 0 && AllDigits(s)
    ensures DigitsValue(s) == n
  {
    if n < 10 then [DigitChar(n)]
    else
      var s := NatDigits(n / 10) + [DigitChar(n % 10)];
      assert s[..|s| - 1] == NatDigits(n / 10);
      s
  }

  /** How Python's `str()` renders an integer. */
  function FormatInt(n: int): string {
    if n < 0 then "-" + NatDigits(-n) else NatDigits(n)
  }

  lemma NoUnderscoreInDigits(s: string)
    requires AllDigits(s)
    ensures '_' !in s
  {
    DigitsAreNotSpecial(s);
  }

  lemma IntRoundTrip(n: int)
    ensures ParseInt(FormatInt(n)) == Some(n)
  {
    var s := FormatInt(n);
    var d := NatDigits(if n < 0 then -n else n);
    NoUnderscoreInDigits(d);
    assert '_' !in s by {
      if n < 0 {
        assert s == "-" + d;
      }
    }
    if n < 0 {
      assert SplitSign(s) == (true, d);
    } else {
      assert IsDigit(s[0]);
      assert SplitSign(s) == (false, d);
    }
  }

  /** The number `mantissa / 10^places`, as a fixed-point rendering prints it. */
  datatype Fixed = Fixed(mantissa: int, places: nat)

  function FixedValue(f: Fixed): real {
    f.mantissa as real / Pow10(f.places) as real
  }

  /** `s` with leading zeros added until it has at least `width` characters. */
  function ZeroPad(s: string, width: nat): (t: string)
    requires AllDigits(s)
    ensures AllDigits(t) && |t| >= width && |t| >= |s|
    ensures DigitsValue(t) == DigitsValue(s)
    decreases width - |s|
  {
    if |s| >= width then s
    else
      DigitsValueAppend("0", s);
      ZeroPad("0" + s, width)
  }

  /** The digits of `|mantissa|`, zero-padded so that there is at least one
      digit in front of the point. */
  function FixedDigits(f: Fixed): (d: string)
    ensures AllDigits(d) && |d| > f.places
    ensures DigitsValue(d) == if f.mantissa < 0 then -f.mantissa else f.mantissa
  {
    ZeroPad(NatDigits(if f.mantissa < 0 then -f.mantissa else f.mantissa), f.places + 1)
  }

  /** A `%.<places>f`-style rendering: exactly `places` digits after the point
      (and no point when `places` is 0). */
  function FormatFixed(f: Fixed): string {
    if f.places == 0 then FormatInt(f.mantissa)
    else
      var d := FixedDigits(f);
      var k := |d| - f.places;
      (if f.mantissa < 0 then "-" else "") + d[..k] + "." + d[k..]
  }

  lemma DigitsSplit(d: string, k: nat)
    requires AllDigits(d) && k <= |d|
    ensures AllDigits(d[..k]) && AllDigits(d[k..])
    ensures Shifted(DigitsValue(d[..k]), |d| - k, DigitsValue(d[k..])) == DigitsValue(d)
  {
    DigitsValueAppend(d[..k], d[k..]);
    assert d[..k] + d[k..] == d;
  }

  lemma NoExponentMarker(body: string)
    requires forall i :: 0 <= i < |body| ==> body[i] !in {'e', 'E'}
    ensures ParseDecimal(body) == ParseMantissa(body, 0)
  {
    FindCharAbsent(body, {'e', 'E'});
    assert body[..|body|] == body;
  }

  lemma PointedMantissa(whole: string, frac: string)
    requires AllDigits(whole) && AllDigits(frac) && |whole| > 0
    ensures ParseMantissa(whole + "." + frac, 0)
         == Some(Scale(Shifted(DigitsValue(whole), |frac|, DigitsValue(frac)), -|frac|))
  {
    var m := whole + "." + frac;
    DigitsAreNotSpecial(whole);
    assert forall i :: 0 <= i < |whole| ==> m[i] !in {'.'} by {
      forall i | 0 <= i < |whole|
        ensures m[i] !in {'.'}
      {
        assert m[i] == whole[i];
      }
    }
    FindCharAt(m, {'.'}, |whole|);
    assert m[..|whole|] == whole;
    assert m[|whole| + 1..] == frac;
  }

  lemma FixedBodyParses(whole: string, frac: string)
    requires AllDigits(whole) && AllDigits(frac) && |whole| > 0
    ensures ParseDecimal(whole + "." + frac)
         == Some(Scale(Shifted(DigitsValue(whole), |frac|, DigitsValue(frac)), -|frac|))
  {
    var body := whole + "." + frac;
    DigitsAreNotSpecial(whole);
    DigitsAreNotSpecial(frac);
    forall i | 0 <= i < |body|
      ensures body[i] !in {'e', 'E'}
    {
      if i < |whole| {
        assert body[i] == whole[i];
      } else if i > |whole| {
        assert body[i] == frac[i - |whole| - 1];
      }
    }
    NoExponentMarker(body);
    PointedMantissa(whole, frac);
  }

  lemma PointedHasNoUnderscore(whole: string, frac: string)
    requires AllDigits(whole) && AllDigits(frac)
    ensures '_' !in whole + "." + frac
  {
    NoUnderscoreInDigits(whole);
    NoUnderscoreInDigits(frac);
  }

  lemma DigitFirstIsNotSpecial(body: string)
    requires |body| > 0 && IsDigit(body[0])
    ensures !EqualsIgnoreCase(body, "inf") && !EqualsIgnoreCase(body, "infinity") && !EqualsIgnoreCase(body, "nan")
  {
  }

  /** A signed literal with a decimal point parses to the value of its digits. */
  lemma SignedPointedParses(negative: bool, whole: string, frac: string)
    requires AllDigits(whole) && AllDigits(frac) && |whole| > 0
    ensures var v := Scale(Shifted(DigitsValue(whole), |frac|, DigitsValue(frac)), -|frac|);
      ParseFloat((if negative then "-" else "") + whole + "." + frac) == Some(Finite(if negative then -v else v))
  {
    var sign := if negative then "-" else "";
    var body := whole + "." + frac;
    var s := sign + body;
    assert s == sign + whole + "." + frac;
    PointedHasNoUnderscore(whole, frac);
    assert '_' !in s;
    assert body[0] == whole[0];
    assert SplitSign(s) == (negative, body);
    DigitFirstIsNotSpecial(body);
    FixedBodyParses(whole, frac);
  }

  lemma SignedQuotient(m: int, p: nat)
    requires p > 0
    ensures m < 0 ==> m as real / p as real == -((-m) as real / p as real)
  {
  }

  lemma FixedValueSign(f: Fixed)
    ensures var v := (if f.mantissa < 0 then -f.mantissa else f.mantissa) as real / Pow10(f.places) as real;
      FixedValue(f) == if f.mantissa < 0 then -v else v
  {
    SignedQuotient(f.mantissa, Pow10(f.places));
  }

  lemma ScaleDown(a: nat, k: nat)
    ensures Scale(a, -(k as int)) == a as real / Pow10(k) as real
  {
  }

  /** `float()` reads a fixed-point rendering back as exactly the number it renders. */
  lemma FixedRoundTrip(f: Fixed)
    ensures ParseFloat(FormatFixed(f)) == Some(Finite(FixedValue(f)))
  {
    if f.places == 0 {
      WholeRoundTrip(f);
    } else {
      PointedRoundTrip(f);
      FixedValueSign(f);
    }
  }

  lemma WholeRoundTrip(f: Fixed)
    requires f.places == 0
    ensures ParseFloat(FormatFixed(f)) == Some(Finite(FixedValue(f)))
  {
    var s := FormatInt(f.mantissa);
    assert FormatFixed(f) == s;
    assert FixedValue(f) == f.mantissa as real by {
      assert Pow10(0) == 1;
    }
    IntRoundTrip(f.mantissa);
    IntLiteralIsFloatLiteral(s);
  }

  lemma PointedRoundTrip(f: Fixed)
    requires f.places > 0
    ensures var v := (if f.mantissa < 0 then -f.mantissa else f.mantissa) as real / Pow10(f.places) as real;
      ParseFloat(FormatFixed(f)) == Some(Finite(if f.mantissa < 0 then -v else v))
  {
    var d := FixedDigits(f);
    var k := |d| - f.places;
    var whole, frac := d[..k], d[k..];
    PointedDigits(f, d, k);
    SignedPointedParses(f.mantissa < 0, whole, frac);
    assert FormatFixed(f) == (if f.mantissa < 0 then "-" else "") + whole + "." + frac;
  }

  /** The two halves of a fixed-point rendering around its point, and their value. */
  lemma PointedDigits(f: Fixed, d: string, k: nat)
    requires f.places > 0 && d == FixedDigits(f) && k == |d| - f.places
    ensures AllDigits(d[..k]) && AllDigits(d[k..]) && |d[..k]| > 0
    ensures Scale(Shifted(DigitsValue(d[..k]), |d[k..]|, DigitsValue(d[k..])), -|d[k..]|)
         == (if f.mantissa < 0 then -f.mantissa else f.mantissa) as real / Pow10(f.places) as real
  {
    var a := if f.mantissa < 0 then -f.mantissa else f.mantissa;
    DigitsSplit(d, k);
    assert |d[k..]| == f.places;
    assert Shifted(DigitsValue(d[..k]), |d[k..]|, DigitsValue(d[k..])) == a;
    ScaleDown(a, f.places);
  }

  /** Renderings contain no separator, so each is one `str.split()` token. */
  lemma FormatIntIsWord(n: int)
    ensures IsWord(FormatInt(n))
  {
    var d := NatDigits(if n < 0 then -n else n);
    DigitsSpaceFree(d);
    if n < 0 {
      SpaceFreeConcat("-", d);
    }
  }

  lemma FormatFixedIsWord(f: Fixed)
    ensures IsWord(FormatFixed(f))
  {
    if f.places == 0 {
      FormatIntIsWord(f.mantissa);
    } else {
      var d := FixedDigits(f);
      var k := |d| - f.places;
      var sign := if f.mantissa < 0 then "-" else "";
      assert FormatFixed(f) == sign + d[..k] + "." + d[k..];
      DigitsSplit(d, k);
      DigitsSpaceFree(d[..k]);
      DigitsSpaceFree(d[k..]);
      SpaceFreeConcat(sign, d[..k]);
      SpaceFreeConcat(sign + d[..k], ".");
      SpaceFreeConcat(sign + d[..k] + ".", d[k..]);
    }
  }

  predicate SpaceFree(s: string) {
    forall i :: 0 <= i < |s| ==> !IsSpace(s[i])
  }

  lemma DigitsSpaceFree(s: string)
    requires AllDigits(s)
    ensures SpaceFree(s)
  {
    forall i | 0 <= i < |s|
      ensures !IsSpace(s[i])
    {
      assert IsDigit(s[i]);
    }
  }

  lemma SpaceFreeConcat(a: string, b: string)
    requires SpaceFree(a) && SpaceFree(b)
    ensures SpaceFree(a + b)
  {
    forall i | 0 <= i < |a + b|
      ensures !IsSpace((a + b)[i])
    {
      if i < |a| {
        assert (a + b)[i] == a[i];
      } else {
        assert (a + b)[i] == b[i - |a|];
      }
    }
  }
}
