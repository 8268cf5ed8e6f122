/**
 * The `MathUtils` namespace of main.js: `parseEquation` and
 * `getTransformationType`.  The two regular expressions of `parseEquation`
 * are written out as scanners, and each scanner is shown to agree with a
 * declarative statement of what its regular expression matches.
 */
module MathUtils {
  import opened Strings

  /** A JavaScript number as the parser can produce it: a value, or NaN. */
  datatype Num = Value(v: real) | NaN

  // ---------------------------------------------------------------------------
  // The decimal token `\d*\.?\d*`
  // ---------------------------------------------------------------------------

  /** Strings matched by `\d*\.?\d*`: digits, with at most one '.' among them. */
  predicate IsDecimalToken(t: string) {
    (forall k :: 0 <= k < |t| ==> IsDigit(t[k]) || t[k] == '.') &&
    (forall k, l :: 0 <= k < l < |t| && t[k] == '.' ==> t[l] != '.')
  }

  /** The number of digits in `s` from position `i` on. */
  function DigitRun(s: string, i: nat): (n: nat)
    requires i <= |s|
    ensures i + n <= |s| && AllDigits(s[i..i + n])
    ensures i + n == |s| || !IsDigit(s[i + n])
    decreases |s| - i
  {
    if i < |s| && IsDigit(s[i]) then
      var n := DigitRun(s, i + 1);
      assert s[i..i + 1 + n] == [s[i]] + s[i + 1..i + 1 + n];
      1 + n
    else 0
  }

  /**
   * The end of the longest `\d*\.?\d*` match at position `i`: the digits, then
   * a '.' and more digits if a '.' follows.  This is the match a greedy
   * regular-expression engine tries first.
   */
  function TokenEnd(s: string, i: nat): (e: nat)
    requires i <= |s|
    ensures i <= e <= |s| && IsDecimalToken(s[i..e])
    ensures e < |s| ==> !IsDecimalToken(s[i..e + 1])
  {
    var d := i + DigitRun(s, i);
    if d < |s| && s[d] == '.' then
      var e := d + 1 + DigitRun(s, d + 1);
      TokenShape(s, i, d, e);
      assert e < |s| ==> s[i..e + 1][d - i] == '.' && s[i..e + 1][e - i] == s[e];
      e
    else
      TokenShape(s, i, d, d);
      assert d < |s| ==> s[i..d + 1][d - i] == s[d];
      d
  }

  /** Digits, then optionally a '.' and more digits, form a decimal token. */
  lemma TokenShape(s: string, i: nat, d: nat, e: nat)
    requires i <= d <= e <= |s| && AllDigits(s[i..d])
    requires d < e ==> s[d] == '.' && AllDigits(s[d + 1..e])
    ensures IsDecimalToken(s[i..e])
  {
    var t := s[i..e];
    forall k | 0 <= k < |t| ensures IsDigit(t[k]) || (t[k] == '.' && k == d - i) {
      if i + k < d {
        assert t[k] == s[i..d][k];
      } else if i + k > d {
        assert t[k] == s[d + 1..e][i + k - d - 1];
      }
    }
  }

  lemma DecimalTokenPrefix(t: string, n: nat)
    requires IsDecimalToken(t) && n <= |t|
    ensures IsDecimalToken(t[..n])
  {
  }

  /** No `\d*\.?\d*` match at `i` ends after the greedy one. */
  lemma TokenEndLongest(s: string, i: nat, e': nat)
    requires i <= e' <= |s| && IsDecimalToken(s[i..e'])
    ensures e' <= TokenEnd(s, i)
  {
    var e := TokenEnd(s, i);
    var m := if e' <= e then e' else e + 1;
    TokenSlicePrefix(s, i, m, e');
  }

  /** A match of `\d*\.?\d*` from `i` to `e'` is still one when cut at `m`. */
  lemma TokenSlicePrefix(s: string, i: nat, m: nat, e': nat)
    requires i <= m <= e' <= |s|
    ensures IsDecimalToken(s[i..e']) ==> IsDecimalToken(s[i..m])
  {
    assert s[i..e'][..m - i] == s[i..m];
    if IsDecimalToken(s[i..e']) {
      DecimalTokenPrefix(s[i..e'], m - i);
    }
  }

  /**
   * A `\d*\.?\d*` match at `i` followed by neither a digit nor a '.' is the
   * greedy one: backtracking to a shorter match leaves a digit or a '.' next,
   * so only the greedy match can be followed by a space, a letter, '(' or 'x'.
   */
  lemma GreedyWhenStopped(s: string, i: nat, e': nat)
    requires i <= e' < |s| && IsDecimalToken(s[i..e'])
    requires !IsDigit(s[e']) && s[e'] != '.'
    ensures e' == TokenEnd(s, i)
  {
    TokenEndLongest(s, i, e');
    TokenCharAt(s, i, TokenEnd(s, i), e');
  }

  /** Every character inside a `\d*\.?\d*` match is a digit or a '.'. */
  lemma TokenCharAt(s: string, i: nat, e: nat, j: nat)
    requires i <= e <= |s| && i <= j < |s|
    ensures IsDecimalToken(s[i..e]) && j < e ==> IsDigit(s[j]) || s[j] == '.'
  {
    if IsDecimalToken(s[i..e]) && j < e {
      assert s[i..e][j - i] == s[j];
    }
  }

  function Pow10(n: nat): (p: nat)
    ensures p >= 1
  {
    if n == 0 then 1 else 10 * Pow10(n - 1)
  }

  /**
   * `parseFloat` on a non-empty capture of `\d*\.?\d*`: the whole part plus the
   * fraction, either of which may be empty; a lone "." is not a number.
   * Results are exact: rounding to the nearest double is not modelled.
   */
  function ParseDecimal(t: string): (n: Num)
    requires IsDecimalToken(t) && t != ""
    ensures n == NaN <==> t == "."
    ensures n.Value? ==> 0.0 <= n.v
  {
    var whole, fraction := WholePart(t), FractionPart(t);
    if whole == "" && fraction == "" then
      NaN
    else
      Value(DigitsValue(whole) as real + DigitsValue(fraction) as real / Pow10(|fraction|) as real)
  }

  /** The digits of a decimal token before its '.', or all of it when it has none. */
  function WholePart(t: string): (w: string)
    requires IsDecimalToken(t)
    ensures AllDigits(w) && w <= t
  {
    var d := DigitRun(t, 0);
    assert t[0..d] == t[..d];
    t[..d]
  }

  /** The digits of a decimal token after its '.', or "" when it has none. */
  function FractionPart(t: string): (f: string)
    requires IsDecimalToken(t)
    ensures AllDigits(f)
    ensures |WholePart(t)| < |t| ==> t == WholePart(t) + "." + f
    ensures |WholePart(t)| == |t| ==> f == "" && t == WholePart(t)
  {
    var d := DigitRun(t, 0);
    if d < |t| then
      var f := t[d + 1..];
      assert AllDigits(f) by {
        forall k | 0 <= k < |f| ensures IsDigit(f[k]) {
          assert f[k] == t[d + 1 + k];
        }
      }
      assert t == t[..d] + "." + f;
      f
    else
      ""
  }

  /** `parseFloat` reads the numeral of a whole number back as that number. */
  lemma ParseDecimalOfNumeral(n: nat)
    ensures IsDecimalToken(NatToString(n))
    ensures ParseDecimal(NatToString(n)) == Value(n as real)
  {
    var t := NatToString(n);
    assert t[..DigitRun(t, 0)] == t;
    assert WholePart(t) == t && FractionPart(t) == "";
    DigitsValueOfNatToString(n);
  }

  /** `t` with every '.' removed, read from the end as `DigitsValue` reads. */
  function Undotted(t: string): (u: string)
    ensures (forall k :: 0 <= k < |t| ==> IsDigit(t[k]) || t[k] == '.') ==> AllDigits(u)
  {
    if t == [] then []
    else
      var u := Undotted(t[..|t| - 1]);
      if t[|t| - 1] == '.' then u else u + [t[|t| - 1]]
  }

  /** The number of characters after the first '.' of `t`; 0 when there is none. */
  function Scale(t: string): nat {
    if t == [] then 0
    else if '.' in t[..|t| - 1] then Scale(t[..|t| - 1]) + 1
    else 0
  }

  /**
   * The value `parseFloat` gives a decimal token other than ".": the integer
   * its digits spell with the '.' left out, divided by 10 once per digit after
   * the '.' (so "2.5" is 25 / 10, ".5" is 5 / 10 and "3." is 3 / 1).
   */
  lemma ParseDecimalValue(t: string)
    requires IsDecimalToken(t) && t != "" && t != "."
    ensures ParseDecimal(t) == Value(DigitsValue(Undotted(t)) as real / Pow10(Scale(t)) as real)
  {
    var whole, fraction := WholePart(t), FractionPart(t);
    UndottedValue(t);
    ShiftedFraction(ParseDecimal(t), DigitsValue(whole), DigitsValue(fraction), |fraction|,
                    DigitsValue(Undotted(t)), Scale(t));
  }

  /** The integer a token spells without its '.' is its whole part shifted past its fraction. */
  lemma UndottedValue(t: string)
    requires IsDecimalToken(t)
    ensures AllDigits(Undotted(t)) && Scale(t) == |FractionPart(t)|
    ensures DigitsValue(Undotted(t)) ==
            DigitsValue(WholePart(t)) * Pow10(|FractionPart(t)|) + DigitsValue(FractionPart(t))
  {
    TokenParts(t);
    DigitsValueAppend(WholePart(t), FractionPart(t));
  }

  /**
   * A whole part `w` plus a fraction `f` over `10^k` is the shifted sum
   * `w * 10^k + f` over `10^k`.
   */
  lemma ShiftedFraction(x: Num, w: nat, f: nat, k: nat, n: nat, s: nat)
    requires x == Value(w as real + f as real / Pow10(k) as real)
    requires n == w * Pow10(k) + f && s == k
    ensures x == Value(n as real / Pow10(s) as real)
  {
    var p := Pow10(k);
    RealOfProduct(w, p);
    assert n as real == w as real * p as real + f as real;
    DivideSum(w as real, f as real, p as real);
  }

  /** Converting to `real` commutes with multiplication. */
  lemma RealOfProduct(x: nat, y: nat)
    ensures (x * y) as real == x as real * y as real
  {
  }

  lemma DivideSum(a: real, b: real, p: real)
    requires p > 0.0
    ensures (a * p + b) / p == a + b / p
  {
  }

  /** The whole digits and the fraction digits of a token, with the '.' left out. */
  lemma TokenParts(t: string)
    requires IsDecimalToken(t)
    ensures Undotted(t) == WholePart(t) + FractionPart(t) && Scale(t) == |FractionPart(t)|
  {
    var whole, fraction := WholePart(t), FractionPart(t);
    UndottedDigits(whole);
    if |whole| < |t| {
      UndottedAppend(whole + ".", fraction);
      UndottedAppend(whole, ".");
      assert Undotted(".") == [] by {
        assert "."[..0] == [];
      }
      UndottedDigits(fraction);
      ScaleAfterDot(whole, fraction);
    } else {
      ScaleOfDigits(whole);
    }
  }

  /** Digits are kept as they are. */
  lemma {:induction false} UndottedDigits(t: string)
    requires AllDigits(t)
    ensures Undotted(t) == t
  {
    if t != [] {
      UndottedDigits(t[..|t| - 1]);
      assert t[..|t| - 1] + [t[|t| - 1]] == t;
    }
  }

  /** Removing the '.' characters works piecewise. */
  lemma {:induction false} UndottedAppend(a: string, b: string)
    ensures Undotted(a + b) == Undotted(a) + Undotted(b)
  {
    if b == [] {
      assert a + b == a;
    } else {
      var b' := b[..|b| - 1];
      assert (a + b)[..|a + b| - 1] == a + b';
      UndottedAppend(a, b');
    }
  }

  /** A string with no '.' has scale 0. */
  lemma ScaleOfDigits(t: string)
    requires AllDigits(t)
    ensures Scale(t) == 0
  {
    if t != [] {
      var prefix := t[..|t| - 1];
      assert '.' !in prefix by {
        forall k | 0 <= k < |prefix| ensures prefix[k] != '.' {
          assert prefix[k] == t[k];
        }
      }
    }
  }

  /** After the only '.', the scale is the number of digits that follow it. */
  lemma {:induction false} ScaleAfterDot(whole: string, fraction: string)
    requires AllDigits(whole) && AllDigits(fraction)
    ensures Scale(whole + "." + fraction) == |fraction|
  {
    var t := whole + "." + fraction;
    if fraction == [] {
      assert t[..|t| - 1] == whole;
      assert '.' !in whole by {
        forall k | 0 <= k < |whole| ensures whole[k] != '.' {
          assert IsDigit(whole[k]);
        }
      }
    } else {
      var f' := fraction[..|fraction| - 1];
      assert t[..|t| - 1] == whole + "." + f';
      assert (whole + "." + f')[|whole|] == '.';
      ScaleAfterDot(whole, f');
    }
  }

  /** Reading `a + b` is reading `a`, shifted by the digits of `b`, plus `b`. */
  lemma {:induction false} DigitsValueAppend(a: string, b: string)
    requires AllDigits(a) && AllDigits(b)
    ensures AllDigits(a + b)
    ensures DigitsValue(a + b) == DigitsValue(a) * Pow10(|b|) + DigitsValue(b)
  {
    if b == [] {
      assert a + b == a;
    } else {
      var b' := b[..|b| - 1];
      var last := DigitValue(b[|b| - 1]);
      assert (a + b)[..|a + b| - 1] == a + b' && (a + b)[|a + b| - 1] == b[|b| - 1];
      assert DigitsValue(a + b) == DigitsValue(a + b') * 10 + last;
      assert DigitsValue(b) == DigitsValue(b') * 10 + last;
      assert Pow10(|b|) == 10 * Pow10(|b'|);
      DigitsValueAppend(a, b');
      ShiftOneDigit(DigitsValue(a), Pow10(|b'|), DigitsValue(b'), last);
    }
  }

  lemma ShiftOneDigit(x: nat, p: nat, y: nat, d: nat)
    ensures (x * p + y) * 10 + d == x * (10 * p) + (y * 10 + d)
  {
  }

  // ---------------------------------------------------------------------------
  // The vertical factor: /^(\d*\.?\d*)\s*[a-zA-Z\(]/
  // ---------------------------------------------------------------------------

  predicate IsLetterOrParen(c: char) {
    IsLetter(c) || c == '('
  }

  /** The first position at or after `i` that does not hold a `\s` character. */
  function SkipSpaces(s: string, i: nat): (j: nat)
    requires i <= |s|
    ensures i <= j <= |s| && AllSpaces(s[i..j])
    ensures j == |s| || !IsSpace(s[j])
    decreases |s| - i
  {
    if i < |s| && IsSpace(s[i]) then SkipSpaces(s, i + 1) else i
  }

  lemma SkipSpacesStops(s: string, i: nat, k: nat)
    requires i <= k < |s| && AllSpaces(s[i..k]) && !IsSpace(s[k])
    ensures SkipSpaces(s, i) == k
    decreases k - i
  {
    if i < k {
      assert s[i..k][0] == s[i];
      assert s[i + 1..k] == s[i..k][1..];
      SkipSpacesStops(s, i + 1, k);
    }
  }

  /**
   * The first group of `equation.match(/^(\d*\.?\d*)\s*[a-zA-Z\(]/)`, or `None`
   * when the regular expression does not match.
   */
  function LeadingCapture(eq: string): (c: Option<string>)
    ensures c.Some? ==> IsDecimalToken(c.value) && c.value <= eq
  {
    var e := TokenEnd(eq, 0);
    var k := SkipSpaces(eq, e);
    assert eq[0..e] == eq[..e];
    if k < |eq| && IsLetterOrParen(eq[k]) then Some(eq[..e]) else None
  }

  /**
   * The regular expression matches `eq` with its group capturing `g`: `g` starts
   * `eq`, is a decimal token, and is followed by spaces and then a letter or
   * '('.
   */
  ghost predicate LeadingMatch(eq: string, g: string) {
    g <= eq && IsDecimalToken(g) &&
    exists k :: |g| <= k < |eq| && AllSpaces(eq[|g|..k]) && IsLetterOrParen(eq[k])
  }

  lemma LeadingCaptureSound(eq: string, g: string)
    requires LeadingCapture(eq) == Some(g)
    ensures LeadingMatch(eq, g)
  {
    var e := TokenEnd(eq, 0);
    var k := SkipSpaces(eq, e);
    assert |g| <= k < |eq| && AllSpaces(eq[|g|..k]) && IsLetterOrParen(eq[k]);
  }

  lemma LeadingCaptureComplete(eq: string, g: string)
    requires LeadingMatch(eq, g)
    ensures LeadingCapture(eq) == Some(g)
  {
    var k :| |g| <= k < |eq| && AllSpaces(eq[|g|..k]) && IsLetterOrParen(eq[k]);
    assert eq[0..|g|] == g;
    assert |g| < k ==> eq[|g|..k][0] == eq[|g|];
    GreedyWhenStopped(eq, 0, |g|);
    assert g == eq[..TokenEnd(eq, 0)];
    SkipSpacesStops(eq, |g|, k);
  }

  /** The scanner yields exactly the captures the regular expression allows. */
  lemma LeadingCaptureMeaning(eq: string, g: string)
    ensures LeadingCapture(eq) == Some(g) <==> LeadingMatch(eq, g)
  {
    if LeadingCapture(eq) == Some(g) {
      LeadingCaptureSound(eq, g);
    }
    if LeadingMatch(eq, g) {
      LeadingCaptureComplete(eq, g);
    }
  }

  // ---------------------------------------------------------------------------
  // The horizontal factor: /[a-zA-Z]\((\d*\.?\d*)[xX]/
  // ---------------------------------------------------------------------------

  predicate IsX(c: char) {
    c == 'x' || c == 'X'
  }

  /** The group of a match of the regular expression starting at `p`, if any. */
  function InnerCaptureAt(eq: string, p: nat): (c: Option<string>)
    ensures c.Some? ==> IsDecimalToken(c.value)
  {
    if p + 2 <= |eq| && IsLetter(eq[p]) && eq[p + 1] == '(' then
      var e := TokenEnd(eq, p + 2);
      if e < |eq| && IsX(eq[e]) then Some(eq[p + 2..e]) else None
    else None
  }

  /** The group of the leftmost match starting at `p` or later. */
  function InnerCaptureFrom(eq: string, p: nat): (c: Option<string>)
    requires p <= |eq|
    ensures c.Some? ==> IsDecimalToken(c.value)
    decreases |eq| - p
  {
    if p == |eq| then None
    else
      match InnerCaptureAt(eq, p)
      case Some(g) => Some(g)
      case None => InnerCaptureFrom(eq, p + 1)
  }

  /** The first group of `equation.match(/[a-zA-Z]\((\d*\.?\d*)[xX]/)`. */
  function InnerCapture(eq: string): (c: Option<string>)
    ensures c.Some? ==> IsDecimalToken(c.value)
  {
    InnerCaptureFrom(eq, 0)
  }

  /**
   * The regular expression matches at position `p` with its group capturing
   * `g`: a letter, '(', the decimal token `g`, then 'x' or 'X'.
   */
  ghost predicate InnerMatchAt(eq: string, p: nat, g: string) {
    p + 2 + |g| < |eq| && IsLetter(eq[p]) && eq[p + 1] == '(' &&
    eq[p + 2..p + 2 + |g|] == g && IsDecimalToken(g) && IsX(eq[p + 2 + |g|])
  }

  /** The match at `p` is the leftmost one at or after `from`. */
  ghost predicate LeftmostInnerMatch(eq: string, from: nat, p: nat, g: string) {
    from <= p && InnerMatchAt(eq, p, g) &&
    forall q: nat, h: string :: from <= q < p ==> !InnerMatchAt(eq, q, h)
  }

  lemma InnerCaptureAtMeaning(eq: string, p: nat, g: string)
    ensures InnerCaptureAt(eq, p) == Some(g) <==> InnerMatchAt(eq, p, g)
  {
    if InnerMatchAt(eq, p, g) {
      GreedyWhenStopped(eq, p + 2, p + 2 + |g|);
    }
  }

  lemma {:induction false} InnerCaptureFromMeaning(eq: string, from: nat, g: string)
    requires from <= |eq|
    ensures InnerCaptureFrom(eq, from) == Some(g) <==> exists p: nat :: LeftmostInnerMatch(eq, from, p, g)
    decreases |eq| - from
  {
    if from == |eq| {
      assert forall p: nat :: !LeftmostInnerMatch(eq, from, p, g);
    } else {
      InnerCaptureAtMeaning(eq, from, g);
      match InnerCaptureAt(eq, from)
      case Some(g0) =>
        InnerCaptureAtMeaning(eq, from, g0);
        if g == g0 {
          assert LeftmostInnerMatch(eq, from, from, g);
        } else {
          assert forall p: nat :: !LeftmostInnerMatch(eq, from, p, g);
        }
      case None =>
        InnerCaptureFromMeaning(eq, from + 1, g);
        forall h ensures !InnerMatchAt(eq, from, h) {
          InnerCaptureAtMeaning(eq, from, h);
        }
        if InnerCaptureFrom(eq, from + 1) == Some(g) {
          var p :| LeftmostInnerMatch(eq, from + 1, p, g);
          assert LeftmostInnerMatch(eq, from, p, g);
        }
        forall p: nat | LeftmostInnerMatch(eq, from, p, g) ensures LeftmostInnerMatch(eq, from + 1, p, g) {
        }
    }
  }

  /** The scanner yields the group of the leftmost match. */
  lemma InnerCaptureMeaning(eq: string, g: string)
    ensures InnerCapture(eq) == Some(g) <==> exists p: nat :: LeftmostInnerMatch(eq, 0, p, g)
  {
    InnerCaptureFromMeaning(eq, 0, g);
  }

  lemma {:induction false} InnerCaptureFromNone(eq: string, from: nat, p: nat, g: string)
    requires from <= p && from <= |eq| && InnerCaptureFrom(eq, from) == None
    ensures !InnerMatchAt(eq, p, g)
    decreases |eq| - from
  {
    if from < |eq| {
      InnerCaptureAtMeaning(eq, from, g);
      if p > from {
        InnerCaptureFromNone(eq, from + 1, p, g);
      }
    }
  }

  /** The scanner finds no group exactly when the regular expression does not match. */
  lemma InnerCaptureNone(eq: string)
    ensures InnerCapture(eq) == None <==> forall p: nat, g: string :: !InnerMatchAt(eq, p, g)
  {
    if InnerCapture(eq) == None {
      forall p: nat, g: string ensures !InnerMatchAt(eq, p, g) {
        InnerCaptureFromNone(eq, 0, p, g);
      }
    } else {
      var g := InnerCapture(eq).value;
      InnerCaptureMeaning(eq, g);
      var p :| LeftmostInnerMatch(eq, 0, p, g);
    }
  }

  // ---------------------------------------------------------------------------
  // parseEquation
  // ---------------------------------------------------------------------------

  /** The three parts `parseEquation` returns. */
  datatype Equation = Equation(a: Num, b: Num, funcName: string)

  /** A factor starts at 1 and is replaced by `parseFloat` of a non-empty capture. */
  function Factor(capture: Option<string>): (f: Num)
    requires capture.Some? ==> IsDecimalToken(capture.value)
    ensures f == NaN <==> capture == Some(".")
    ensures f.Value? ==> 0.0 <= f.v
    ensures capture == None || capture == Some("") ==> f == Value(1.0)
  {
    match capture
    case Some(g) => if g != "" then ParseDecimal(g) else Value(1.0)
    case None => Value(1.0)
  }

  /**
   * The function-name markers `parseEquation` tests, in the order it tests
   * them, each with the name it then reports.
   */
  const Markers: seq<(seq<string>, string)> := [
    (["sin"], "sin(x)"),
    (["cos"], "cos(x)"),
    (["x²", "x^2"], "x²"),
    (["√x"], "√x"),
    (["|x|"], "|x|"),
    (["1/x"], "1/x"),
    (["x³", "x^3"], "x³"),
    (["tan"], "tan(x)")
  ]

  /** `eq` includes one of `markers`. */
  predicate HasMarker(eq: string, markers: seq<string>) {
    exists m :: m in markers && Contains(eq, m)
  }

  /** The `includes` chain of `parseEquation`; `'sin(x)'` when no marker is present. */
  function FunctionName(eq: string): (name: string)
    ensures name in {"sin(x)", "cos(x)", "x²", "√x", "|x|", "1/x", "x³", "tan(x)"}
  {
    if Contains(eq, "sin") then "sin(x)"
    else if Contains(eq, "cos") then "cos(x)"
    else if Contains(eq, "x²") || Contains(eq, "x^2") then "x²"
    else if Contains(eq, "√x") then "√x"
    else if Contains(eq, "|x|") then "|x|"
    else if Contains(eq, "1/x") then "1/x"
    else if Contains(eq, "x³") || Contains(eq, "x^3") then "x³"
    else if Contains(eq, "tan") then "tan(x)"
    else "sin(x)"
  }

  /**
   * The chain reports the name of the first entry of `Markers` that `eq`
   * includes, and `'sin(x)'` when it includes none.
   */
  lemma FunctionNameFirstMarker(eq: string, i: nat)
    requires i < |Markers| && HasMarker(eq, Markers[i].0)
    requires forall k :: 0 <= k < i ==> !HasMarker(eq, Markers[k].0)
    ensures FunctionName(eq) == Markers[i].1
  {
    assert forall k :: 0 <= k < i ==> !HasMarker(eq, Markers[k].0);
    if i == 0 {
      assert Contains(eq, "sin");
    } else if i == 1 {
      assert !HasMarker(eq, Markers[0].0);
    } else if i == 2 {
      assert !HasMarker(eq, Markers[0].0) && !HasMarker(eq, Markers[1].0);
    } else if i == 3 {
      assert !HasMarker(eq, Markers[0].0) && !HasMarker(eq, Markers[1].0);
      assert !HasMarker(eq, Markers[2].0);
    } else if i == 4 {
      assert !HasMarker(eq, Markers[0].0) && !HasMarker(eq, Markers[1].0);
      assert !HasMarker(eq, Markers[2].0) && !HasMarker(eq, Markers[3].0);
    } else if i == 5 {
      assert !HasMarker(eq, Markers[0].0) && !HasMarker(eq, Markers[1].0);
      assert !HasMarker(eq, Markers[2].0) && !HasMarker(eq, Markers[3].0);
      assert !HasMarker(eq, Markers[4].0);
    } else if i == 6 {
      assert !HasMarker(eq, Markers[0].0) && !HasMarker(eq, Markers[1].0);
      assert !HasMarker(eq, Markers[2].0) && !HasMarker(eq, Markers[3].0);
      assert !HasMarker(eq, Markers[4].0) && !HasMarker(eq, Markers[5].0);
    } else {
      assert !HasMarker(eq, Markers[0].0) && !HasMarker(eq, Markers[1].0);
      assert !HasMarker(eq, Markers[2].0) && !HasMarker(eq, Markers[3].0);
      assert !HasMarker(eq, Markers[4].0) && !HasMarker(eq, Markers[5].0);
      assert !HasMarker(eq, Markers[6].0);
    }
  }

  lemma FunctionNameDefault(eq: string)
    requires forall k :: 0 <= k < |Markers| ==> !HasMarker(eq, Markers[k].0)
    ensures FunctionName(eq) == "sin(x)"
  {
    assert !HasMarker(eq, Markers[0].0) && !HasMarker(eq, Markers[1].0);
    assert !HasMarker(eq, Markers[2].0) && !HasMarker(eq, Markers[3].0);
    assert !HasMarker(eq, Markers[4].0) && !HasMarker(eq, Markers[5].0);
    assert !HasMarker(eq, Markers[6].0) && !HasMarker(eq, Markers[7].0);
  }

  /** `parseEquation(equation)`. */
  function ParseEquation(eq: string): (r: Equation)
    ensures r.a.Value? ==> 0.0 <= r.a.v
    ensures r.b.Value? ==> 0.0 <= r.b.v
    ensures r.a == NaN <==> LeadingCapture(eq) == Some(".")
    ensures r.b == NaN <==> InnerCapture(eq) == Some(".")
    ensures r.funcName in {"sin(x)", "cos(x)", "x²", "√x", "|x|", "1/x", "x³", "tan(x)"}
  {
    Equation(Factor(LeadingCapture(eq)), Factor(InnerCapture(eq)), FunctionName(eq))
  }

  /**
   * The vertical factor is `parseFloat` of the leading token when the token is
   * non-empty and followed by spaces and a letter or '(', and 1 otherwise.
   */
  lemma ParseEquationVertical(eq: string, g: string)
    requires LeadingMatch(eq, g)
    ensures ParseEquation(eq).a == if g == "" then Value(1.0) else ParseDecimal(g)
  {
    LeadingCaptureMeaning(eq, g);
  }

  lemma ParseEquationVerticalDefault(eq: string)
    requires forall g :: !LeadingMatch(eq, g)
    ensures ParseEquation(eq).a == Value(1.0)
  {
    if LeadingCapture(eq).Some? {
      LeadingCaptureMeaning(eq, LeadingCapture(eq).value);
    }
  }

  /**
   * The horizontal factor is `parseFloat` of the token of the leftmost
   * `letter(` ... `x` match when that token is non-empty, and 1 otherwise.
   */
  lemma ParseEquationHorizontal(eq: string, p: nat, g: string)
    requires LeftmostInnerMatch(eq, 0, p, g)
    ensures ParseEquation(eq).b == if g == "" then Value(1.0) else ParseDecimal(g)
  {
    InnerCaptureMeaning(eq, g);
  }

  lemma ParseEquationHorizontalDefault(eq: string)
    requires forall p: nat, g: string :: !InnerMatchAt(eq, p, g)
    ensures ParseEquation(eq).b == Value(1.0)
  {
    InnerCaptureNone(eq);
  }

  /**
   * A lone '.' before the function name is captured, is non-empty and so goes
   * to `parseFloat`, which yields NaN; this is the only way to get NaN.
   */
  lemma ParseEquationVerticalNaN(eq: string)
    ensures ParseEquation(eq).a == NaN <==> LeadingMatch(eq, ".")
  {
    LeadingCaptureMeaning(eq, ".");
  }

  /** A leading minus sign stops the vertical regular expression from matching. */
  lemma ParseEquationMinusSign(eq: string)
    requires |eq| > 0 && eq[0] == '-'
    ensures ParseEquation(eq).a == Value(1.0)
  {
    assert DigitRun(eq, 0) == 0;
    assert SkipSpaces(eq, 0) == 0;
  }

  lemma ParseEquationExampleSin()
    ensures ParseEquation("3sin(2x)") == Equation(Value(3.0), Value(2.0), "sin(x)")
  {
    var eq := "3sin(2x)";
    SinExampleLeading();
    SinExampleInner();
    assert NatToString(3) == "3" && NatToString(2) == "2";
    ParseDecimalOfNumeral(3);
    ParseDecimalOfNumeral(2);
    assert eq[1..][..3] == "sin";
    assert Contains(eq, "sin");
  }

  /** The leading capture of the example `"3sin(2x)"` is "3". */
  lemma SinExampleLeading()
    ensures LeadingCapture("3sin(2x)") == Some("3")
  {
    var eq := "3sin(2x)";
    assert DigitRun(eq, 1) == 0;
    assert TokenEnd(eq, 0) == 1 && SkipSpaces(eq, 1) == 1;
    assert eq[..1] == "3";
  }

  /** The capture inside `sin(…x` of the example `"3sin(2x)"` is "2". */
  lemma SinExampleInner()
    ensures InnerCapture("3sin(2x)") == Some("2")
  {
    var eq := "3sin(2x)";
    assert InnerCaptureAt(eq, 0) == None && InnerCaptureAt(eq, 1) == None;
    assert InnerCaptureAt(eq, 2) == None;
    assert DigitRun(eq, 6) == 0;
    assert TokenEnd(eq, 5) == 6;
    assert eq[5..6] == "2";
    assert InnerCaptureAt(eq, 3) == Some("2");
  }

  lemma ParseEquationExampleCos()
    ensures ParseEquation("cos(x)") == Equation(Value(1.0), Value(1.0), "cos(x)")
  {
    var eq := "cos(x)";
    assert TokenEnd(eq, 0) == 0 && SkipSpaces(eq, 0) == 0;
    assert LeadingCapture(eq) == Some("");
    assert InnerCaptureAt(eq, 0) == None && InnerCaptureAt(eq, 1) == None;
    assert TokenEnd(eq, 4) == 4;
    assert InnerCaptureAt(eq, 2) == Some("");
    assert InnerCapture(eq) == Some("");
    assert !Contains("", "sin");
    assert ")"[1..] == "" && !Contains(")", "sin");
    assert "x)"[1..] == ")" && !Contains("x)", "sin");
    assert "(x)"[..3][0] != "sin"[0];
    assert "(x)"[1..] == "x)" && !Contains("(x)", "sin");
    assert "s(x)"[1..] == "(x)" && !Contains("s(x)", "sin");
    assert "os(x)"[1..] == "s(x)" && !Contains("os(x)", "sin");
    assert eq[1..] == "os(x)" && !Contains(eq, "sin");
    assert "cos" <= eq;
  }

  // ---------------------------------------------------------------------------
  // getTransformationType
  // ---------------------------------------------------------------------------

  /** 'stretch', 'shrink' or 'none'. */
  datatype Scaling = Stretch | Shrink | NoScaling {
    function Name(): string {
      match this
      case Stretch => "stretch"
      case Shrink => "shrink"
      case NoScaling => "none"
    }

    /** Stretch and shrink swapped. */
    function Inverse(): Scaling {
      match this
      case Stretch => Shrink
      case Shrink => Stretch
      case NoScaling => NoScaling
    }
  }

  datatype Transformation = Transformation(verticalType: Scaling, horizontalType: Scaling)

  /**
   * `getTransformationType(a, b)`: comparisons with NaN are false, so NaN,
   * zero, negative factors and exactly 1 all give 'none'.
   */
  function GetTransformationType(a: Num, b: Num): (t: Transformation)
    ensures t.verticalType == Stretch <==> a.Value? && a.v > 1.0
    ensures t.verticalType == Shrink <==> a.Value? && 0.0 < a.v < 1.0
    ensures t.horizontalType == Shrink <==> b.Value? && b.v > 1.0
    ensures t.horizontalType == Stretch <==> b.Value? && 0.0 < b.v < 1.0
  {
    var vertical :=
      if a.Value? && a.v > 1.0 then Stretch
      else if a.Value? && a.v > 0.0 && a.v < 1.0 then Shrink
      else NoScaling;
    var horizontal :=
      if b.Value? && b.v > 1.0 then Shrink
      else if b.Value? && b.v > 0.0 && b.v < 1.0 then Stretch
      else NoScaling;
    Transformation(vertical, horizontal)
  }

  /** The same factor reads the opposite way on the two axes. */
  lemma HorizontalIsInverseOfVertical(x: Num)
    ensures GetTransformationType(x, x).horizontalType == GetTransformationType(x, x).verticalType.Inverse()
  {
  }
}
