/** PHP's `is_numeric` on strings, as the grammar of a numeric string in PHP 8:
    optional leading whitespace, an optional sign, a decimal mantissa with at least
    one digit (`12`, `12.`, `.5`, `12.5`), an optional exponent, and optional trailing
    whitespace. The `(float)` conversion that follows it is not modelled: a numeric
    cell keeps its parsed literal instead of a floating-point number. */
module Numeric {
  import opened Wrappers

  /** The whitespace PHP skips around a numeric string: space, and tab, LF, VT, FF, CR
      (the contiguous range from `\t` to `\r`). */
  predicate IsSpace(c: char)
  {
    c == ' ' || '\t' <= c <= '\r'
  }

  predicate IsDigit(c: char)
  {
    '0' <= c <= '9'
  }

  predicate IsSignChar(c: char)
  {
    c == '+' || c == '-'
  }

  predicate IsMarker(c: char)
  {
    c == 'e' || c == 'E'
  }

  datatype CharClass = Space | Digit

  predicate InClass(c: char, k: CharClass)
  {
    match k
    case Space => IsSpace(c)
    case Digit => IsDigit(c)
  }

  /** Every character of `s` is in class `k`. */
  predicate AllIn(s: string, k: CharClass)
    decreases |s|
  {
    |s| == 0 || (InClass(s[0], k) && AllIn(s[1..], k))
  }

  /** Length of the longest prefix of `s` drawn from class `k`. */
  function Span(s: string, k: CharClass): (n: nat)
    ensures n <= |s|
    ensures AllIn(s[..n], k)
    ensures n < |s| ==> !InClass(s[n], k)
  {
    if |s| > 0 && InClass(s[0], k) then
      var n := 1 + Span(s[1..], k);
      assert s[..n][1..] == s[1..][..n - 1];
      n
    else 0
  }

  /** Digits before and after an optional decimal point; at least one digit in all. */
  datatype Mantissa = Mantissa(whole: string, fraction: Option<string>)

  /** The exponent part: `e` or `E`, an optional sign, digits. */
  datatype Exponent = Exponent(marker: char, sign: string, digits: string)

  /** A numeric string taken apart: whitespace, sign, mantissa, the exponent when
      there is one, whitespace. */
  datatype NumLit = NumLit(lead: string, sign: string, mantissa: Mantissa,
                           exponent: Option<Exponent>, trail: string)

  /** Empty, `+` or `-`. */
  predicate IsSign(s: string)
  {
    |s| <= 1 && (|s| == 1 ==> IsSignChar(s[0]))
  }

  predicate MantissaOk(m: Mantissa)
  {
    && AllIn(m.whole, Digit)
    && (m.fraction.Some? ==> AllIn(m.fraction.value, Digit))
    && (|m.whole| > 0 || (m.fraction.Some? && |m.fraction.value| > 0))
  }

  predicate ExponentOk(e: Exponent)
  {
    IsMarker(e.marker) && IsSign(e.sign) && |e.digits| > 0 && AllIn(e.digits, Digit)
  }

  /** The literals PHP accepts as numeric strings. */
  predicate WellFormed(n: NumLit)
  {
    && AllIn(n.lead, Space)
    && IsSign(n.sign)
    && MantissaOk(n.mantissa)
    && (n.exponent.Some? ==> ExponentOk(n.exponent.value))
    && AllIn(n.trail, Space)
  }

  function MantissaText(m: Mantissa): string
  {
    match m.fraction
    case None => m.whole
    case Some(d) => m.whole + ("." + d)
  }

  function ExponentText(e: Option<Exponent>): string
  {
    match e
    case None => ""
    case Some(x) => [x.marker] + (x.sign + x.digits)
  }

  /** The text a literal was read from. */
  function Render(n: NumLit): string
  {
    n.lead + (n.sign + (MantissaText(n.mantissa) + (ExponentText(n.exponent) + n.trail)))
  }

  /** A leading `+` or `-`, if there is one, and the rest. */
  function ReadSign(s: string): (r: (string, string))
    ensures IsSign(r.0) && r.0 + r.1 == s
  {
    if |s| > 0 && IsSignChar(s[0]) then
      assert s == s[..1] + s[1..];
      (s[..1], s[1..])
    else ("", s)
  }

  /** Reads a mantissa at the start of `s`: digits, then `.` and digits. */
  function ReadMantissa(s: string): (r: Option<(Mantissa, string)>)
    ensures r.Some? ==> MantissaOk(r.value.0) && MantissaText(r.value.0) + r.value.1 == s
  {
    var b := Span(s, Digit);
    var s3 := s[b..];
    if |s3| > 0 && s3[0] == '.' then
      var t := s3[1..];
      var f := Span(t, Digit);
      if b == 0 && f == 0 then None
      else
        FractionFound(s, b, f);
        Some((Mantissa(s[..b], Some(t[..f])), t[f..]))
    else if b == 0 then None
    else
      assert s == s[..b] + s3;
      Some((Mantissa(s[..b], None), s3))
  }

  /** A mantissa with a decimal point at index `b` and `f` digits after it. */
  lemma FractionFound(s: string, b: nat, f: nat)
    requires b < |s| && s[b] == '.' && f <= |s| - b - 1
    requires AllIn(s[..b], Digit) && AllIn(s[b..][1..][..f], Digit) && (b > 0 || f > 0)
    ensures MantissaOk(Mantissa(s[..b], Some(s[b..][1..][..f])))
    ensures MantissaText(Mantissa(s[..b], Some(s[b..][1..][..f]))) + s[b..][1..][f..] == s
  {
    DotSplit(s, b, f);
  }

  /** `s` cut before the point at `b` and `f` characters after it. */
  lemma DotSplit(s: string, b: nat, f: nat)
    requires b < |s| && s[b] == '.' && f <= |s| - b - 1
    ensures (s[..b] + ("." + s[b..][1..][..f])) + s[b..][1..][f..] == s
  {
    var t := s[b..][1..];
    var d := t[..f];
    var rest := t[f..];
    assert t == d + rest;
    assert s[b..] == "." + t;
    assert s[b..] == ("." + d) + rest;
    assert s == s[..b] + s[b..];
  }

  /** An exponent found at the start of `s`: marker, sign `s[1..j]`, `n` digits. */
  lemma ExponentFound(s: string, j: nat, n: nat)
    requires 1 <= j <= 2 && j + n <= |s| && 0 < n
    requires IsMarker(s[0]) && (j == 2 ==> IsSignChar(s[1]))
    requires AllIn(s[j..][..n], Digit)
    ensures ExponentOk(Exponent(s[0], s[1..j], s[j..j + n]))
    ensures ExponentText(Some(Exponent(s[0], s[1..j], s[j..j + n]))) + s[j + n..] == s
  {
    assert s[j..][..n] == s[j..j + n];
    assert |s[1..j]| == j - 1;
    assert j == 2 ==> s[1..j][0] == s[1];
    Split3(s, j, j + n);
  }

  /** `s` cut after its first character and at `j` and `k`. */
  lemma Split3(s: string, j: nat, k: nat)
    requires 1 <= j <= k <= |s|
    ensures ([s[0]] + (s[1..j] + s[j..k])) + s[k..] == s
  {
    assert s[1..k] == s[1..j] + s[j..k];
    assert s[..k] == [s[0]] + s[1..k];
    assert s == s[..k] + s[k..];
  }

  /** Reads an exponent at the start of `s`; a marker without digits is no exponent. */
  function ReadExponent(s: string): (r: (Option<Exponent>, string))
    ensures ExponentText(r.0) + r.1 == s
    ensures r.0.Some? ==> ExponentOk(r.0.value)
  {
    if |s| > 0 && IsMarker(s[0]) then
      var j := if |s| > 1 && IsSignChar(s[1]) then 2 else 1;
      var n := Span(s[j..], Digit);
      if n > 0 then
        ExponentFound(s, j, n);
        (Some(Exponent(s[0], s[1..j], s[j..j + n])), s[j + n..])
      else (None, s)
    else (None, s)
  }

  /** The pieces `Parse` reads, put back together, give a well-formed literal of `s`. */
  lemma Assembled(s: string, a: nat, sign: string, m: Mantissa, e: Option<Exponent>, trail: string, s2: string, s4: string)
    requires a <= |s| && AllIn(s[..a], Space)
    requires IsSign(sign) && sign + s2 == s[a..]
    requires MantissaOk(m) && MantissaText(m) + s4 == s2
    requires e.Some? ==> ExponentOk(e.value)
    requires ExponentText(e) + trail == s4
    requires Span(trail, Space) >= |trail|
    ensures WellFormed(NumLit(s[..a], sign, m, e, trail))
    ensures Render(NumLit(s[..a], sign, m, e, trail)) == s
  {
    assert AllIn(trail, Space) by {
      assert trail[..Span(trail, Space)] == trail;
    }
    var lead := s[..a];
    assert Render(NumLit(lead, sign, m, e, trail)) == lead + (sign + s2);
    assert s == lead + s[a..];
  }

  /** Reads `s` as a numeric string, scanning left to right as PHP does. */
  function Parse(s: string): (r: Option<NumLit>)
    ensures r.Some? ==> WellFormed(r.value) && Render(r.value) == s
  {
    var a := Span(s, Space);
    var rs := ReadSign(s[a..]);
    var rm := ReadMantissa(rs.1);
    if rm.None? then None
    else
      var re := ReadExponent(rm.value.1);
      var trail := re.1;
      if Span(trail, Space) < |trail| then None
      else
        Assembled(s, a, rs.0, rm.value.0, re.0, trail, rs.1, rm.value.1);
        Some(NumLit(s[..a], rs.0, rm.value.0, re.0, trail))
  }

  /** `is_numeric(s)` for a string `s`. */
  predicate IsNumeric(s: string)
  {
    Parse(s).Some?
  }

  /** Span stops exactly at the end of a prefix from the class when the next character is not in it. */
  lemma {:induction false} SpanOf(x: string, y: string, k: CharClass)
    requires AllIn(x, k)
    requires |y| == 0 || !InClass(y[0], k)
    ensures Span(x + y, k) == |x|
    decreases |x|
  {
    if |x| > 0 {
      assert (x + y)[0] == x[0];
      assert (x + y)[1..] == x[1..] + y;
      SpanOf(x[1..], y, k);
    } else {
      assert x + y == y;
    }
  }

  lemma ReadSignOf(sign: string, rest: string)
    requires IsSign(sign)
    requires |rest| > 0 && rest[0] != '+' && rest[0] != '-'
    ensures ReadSign(sign + rest) == (sign, rest)
  {
    if |sign| > 0 {
      assert (sign + rest)[1..] == rest;
    } else {
      assert sign + rest == rest;
    }
  }

  lemma ReadMantissaOf(m: Mantissa, rest: string)
    requires MantissaOk(m)
    requires |rest| == 0 || (!IsDigit(rest[0]) && rest[0] != '.')
    ensures ReadMantissa(MantissaText(m) + rest) == Some((m, rest))
  {
    match m.fraction
    case None =>
      ReadWholeOf(m.whole, rest);
    case Some(d) =>
      ReadFractionOf(m.whole, d, rest);
      assert MantissaText(m) + rest == m.whole + ("." + (d + rest));
  }

  lemma ReadWholeOf(w: string, rest: string)
    requires AllIn(w, Digit) && |w| > 0
    requires |rest| == 0 || (!IsDigit(rest[0]) && rest[0] != '.')
    ensures ReadMantissa(w + rest) == Some((Mantissa(w, None), rest))
  {
    var s := w + rest;
    SpanOf(w, rest, Digit);
    assert s[..|w|] == w && s[|w|..] == rest;
  }

  lemma ReadFractionOf(w: string, d: string, rest: string)
    requires AllIn(w, Digit) && AllIn(d, Digit) && |w| + |d| > 0
    requires |rest| == 0 || !IsDigit(rest[0])
    ensures ReadMantissa(w + ("." + (d + rest))) == Some((Mantissa(w, Some(d)), rest))
  {
    var s3 := "." + (d + rest);
    var s := w + s3;
    SpanOf(w, s3, Digit);
    assert s[..|w|] == w && s[|w|..] == s3;
    assert s3[1..] == d + rest;
    SpanOf(d, rest, Digit);
    assert (d + rest)[..|d|] == d && (d + rest)[|d|..] == rest;
  }

  /** Where the parts of `[a] + (b + (c + d))` sit. */
  lemma Parts(a: char, b: string, c: string, d: string)
    ensures var s := [a] + (b + (c + d));
            && s[0] == a && s[1..1 + |b|] == b && s[1 + |b|..] == c + d
            && s[1 + |b|..1 + |b| + |c|] == c && s[1 + |b| + |c|..] == d
  {
    var s := [a] + (b + (c + d));
    assert s[1..] == b + (c + d);
    assert s[1..][|b|..] == c + d;
  }

  /** The character after an exponent marker is a sign character exactly when the exponent has a sign. */
  lemma SignAfterMarker(x: Exponent, rest: string)
    requires ExponentOk(x)
    ensures var s := [x.marker] + (x.sign + (x.digits + rest));
            |s| > 1 && IsSignChar(s[1]) <==> |x.sign| == 1
  {
    var s := [x.marker] + (x.sign + (x.digits + rest));
    Parts(x.marker, x.sign, x.digits, rest);
    if |x.sign| == 0 {
      assert s[1] == s[1..][0] == x.digits[0];
    } else {
      assert s[1] == s[1..1 + |x.sign|][0];
    }
  }

  lemma ReadExponentOfSome(x: Exponent, rest: string)
    requires ExponentOk(x)
    requires |rest| == 0 || !IsDigit(rest[0])
    ensures ReadExponent([x.marker] + (x.sign + (x.digits + rest))) == (Some(x), rest)
  {
    var s := [x.marker] + (x.sign + (x.digits + rest));
    SignAfterMarker(x, rest);
    ExponentSlices(x, rest);
    SpanOf(x.digits, rest, Digit);
    ReadExponentAt(s, 1 + |x.sign|, |x.digits|);
  }

  /** Where the sign, the digits and the rest sit after an exponent's marker. */
  lemma ExponentSlices(x: Exponent, rest: string)
    ensures var s := [x.marker] + (x.sign + (x.digits + rest));
            var j := 1 + |x.sign|;
            var n := |x.digits|;
            && s[0] == x.marker && s[j..] == x.digits + rest && s[1..j] == x.sign
            && s[j..j + n] == x.digits && s[j + n..] == rest
  {
    var s := [x.marker] + (x.sign + (x.digits + rest));
    Parts(x.marker, x.sign, x.digits, rest);
    var j := 1 + |x.sign|;
    var n := |x.digits|;
    assert (x.digits + rest)[n..] == rest;
    assert s[j + n..] == s[j..][n..];
  }

  /** `ReadExponent` on a string whose marker, sign length and digit count are known. */
  lemma ReadExponentAt(s: string, j: nat, n: nat)
    requires |s| > 0 && IsMarker(s[0])
    requires j == if |s| > 1 && IsSignChar(s[1]) then 2 else 1
    requires j <= |s| && Span(s[j..], Digit) == n && n > 0
    ensures ReadExponent(s) == (Some(Exponent(s[0], s[1..j], s[j..j + n])), s[j + n..])
  {
  }

  lemma ReadExponentOf(e: Option<Exponent>, rest: string)
    requires e.Some? ==> ExponentOk(e.value)
    requires |rest| == 0 || (!IsDigit(rest[0]) && !IsMarker(rest[0]))
    ensures ReadExponent(ExponentText(e) + rest) == (e, rest)
  {
    match e
    case None =>
      assert ExponentText(e) + rest == rest;
    case Some(x) =>
      ReadExponentOfSome(x, rest);
  }

  /** A mantissa starts with a digit or the decimal point. */
  lemma MantissaStart(m: Mantissa, rest: string)
    requires MantissaOk(m)
    ensures var s := MantissaText(m) + rest; |s| > 0 && (IsDigit(s[0]) || s[0] == '.')
  {
    if |m.whole| > 0 {
      assert (MantissaText(m) + rest)[0] == m.whole[0];
    } else {
      assert (MantissaText(m) + rest)[0] == '.';
    }
  }

  /** What follows a mantissa, an exponent or trailing whitespace, starts with no digit and no `.`. */
  lemma AfterMantissa(e: Option<Exponent>, trail: string)
    requires e.Some? ==> ExponentOk(e.value)
    requires AllIn(trail, Space)
    ensures var s := ExponentText(e) + trail; |s| == 0 || (!IsDigit(s[0]) && s[0] != '.')
  {
    var s := ExponentText(e) + trail;
    if e.Some? {
      assert s[0] == e.value.marker;
    } else if |trail| > 0 {
      assert s[0] == trail[0];
    }
  }

  /** Parsing the text of a well-formed literal gives that literal back. */
  lemma ParseRender(n: NumLit)
    requires WellFormed(n)
    ensures Parse(Render(n)) == Some(n)
  {
    var s4 := ExponentText(n.exponent) + n.trail;
    var s2 := MantissaText(n.mantissa) + s4;
    var s1 := n.sign + s2;
    MantissaStart(n.mantissa, s4);
    assert |s1| > 0 && !IsSpace(s1[0]) by {
      if |n.sign| > 0 {
        assert s1[0] == n.sign[0];
      } else {
        assert s1[0] == s2[0];
      }
    }
    SpanOf(n.lead, s1, Space);
    LeadSlices(n.lead, s1);
    ReadSignOf(n.sign, s2);
    AfterMantissa(n.exponent, n.trail);
    ReadMantissaOf(n.mantissa, s4);
    assert |n.trail| == 0 || (!IsDigit(n.trail[0]) && !IsMarker(n.trail[0])) by {
      if |n.trail| > 0 {
        assert IsSpace(n.trail[0]);
      }
    }
    ReadExponentOf(n.exponent, n.trail);
    SpanOf(n.trail, "", Space);
    assert n.trail + "" == n.trail;
    ParseOf(Render(n), n.lead, n.sign, s2, n.mantissa, s4, n.exponent, n.trail);
  }

  lemma LeadSlices(lead: string, rest: string)
    ensures (lead + rest)[..|lead|] == lead && (lead + rest)[|lead|..] == rest
  {
  }

  /** `Parse` once each reading step is known. */
  lemma ParseOf(s: string, lead: string, sign: string, s2: string, m: Mantissa, s4: string,
                e: Option<Exponent>, trail: string)
    requires Span(s, Space) == |lead| && s[..|lead|] == lead
    requires ReadSign(s[|lead|..]) == (sign, s2)
    requires ReadMantissa(s2) == Some((m, s4))
    requires ReadExponent(s4) == (e, trail)
    requires Span(trail, Space) == |trail|
    ensures Parse(s) == Some(NumLit(lead, sign, m, e, trail))
  {
  }

  /** `is_numeric` accepts exactly the texts of well-formed literals. */
  lemma IsNumericIffLiteral(s: string)
    ensures IsNumeric(s) <==> exists n :: WellFormed(n) && Render(n) == s
  {
    if exists n :: WellFormed(n) && Render(n) == s {
      var n :| WellFormed(n) && Render(n) == s;
      ParseRender(n);
    }
  }
}
