/**
  Java's fixed-width integers and the numeric conversions the servers use:
  `Integer.parseInt`, `Long.parseLong`, `%d` formatting, `Double.parseDouble`,
  `%.2f` formatting, and the IEEE comparisons `<` and `>=` on doubles.
*/
module JavaNumbers {
  import opened Wrappers
  import JavaText

  // ---------------------------------------------------------------------
  // Fixed-width integers
  // ---------------------------------------------------------------------

  const Int32Min: int := -0x8000_0000
  const Int32Max: int := 0x7fff_ffff
  const Int64Min: int := -0x8000_0000_0000_0000
  const Int64Max: int := 0x7fff_ffff_ffff_ffff

  predicate IsInt32(x: int) { Int32Min <= x <= Int32Max }

  predicate IsInt64(x: int) { Int64Min <= x <= Int64Max }

  /** The values of a Java `int`. */
  type Int32 = x: int | IsInt32(x)

  /** The values of a Java `long`. */
  type Int64 = x: int | IsInt64(x)

  /** `x++` on a Java `int`: wraps from the largest value to the smallest. */
  function Inc32(x: Int32): (r: Int32)
    ensures x < Int32Max ==> r == x + 1
    ensures x == Int32Max ==> r == Int32Min
  {
    if x == Int32Max then Int32Min else assert IsInt32(x); x + 1
  }

  /** `x++` on a Java `long`. */
  function Inc64(x: Int64): (r: Int64)
    ensures x < Int64Max ==> r == x + 1
    ensures x == Int64Max ==> r == Int64Min
  {
    if x == Int64Max then Int64Min else assert IsInt64(x); x + 1
  }

  // ---------------------------------------------------------------------
  // Decimal integers
  // ---------------------------------------------------------------------

  predicate IsDigit(c: char) { '0' <= c <= '9' }

  predicate AllDigits(s: string)
  {
    forall i | 0 <= i < |s| :: IsDigit(s[i])
  }

  /** The value of a string of ASCII decimal digits, read most significant first. */
  function DigitsValue(s: string): nat
    requires AllDigits(s)
  {
    if |s| == 0 then 0
    else DigitsValue(s[..|s| - 1]) * 10 + (s[|s| - 1] as int - '0' as int)
  }

  function DigitChar(d: nat): (c: char)
    requires d < 10
    ensures IsDigit(c) && c as int - '0' as int == d
  {
    ('0' as int + d) as char
  }

  /** The decimal digits of `n` without leading zeros. */
  function NatToString(n: nat): (s: string)
    ensures |s| > 0 && AllDigits(s)
    ensures |s| > 1 ==> s[0] != '0'
    decreases n
  {
    if n < 10 then [DigitChar(n)] else NatToString(n / 10) + [DigitChar(n % 10)]
  }

  /** `%d` (and `Integer.toString`): an optional minus sign, then the digits. */
  function FormatInt(n: int): (s: string)
    ensures |s| > 0
    ensures forall i | 0 <= i < |s| :: IsDigit(s[i]) || (i == 0 && s[i] == '-')
    ensures IsDigit(s[|s| - 1])
    ensures n < 0 <==> s[0] == '-'
  {
    if n < 0 then "-" + NatToString(-n) else NatToString(n)
  }

  /** Reading back the digits of `n` gives `n`. */
  lemma {:induction false} DigitsValueOfNat(n: nat)
    ensures DigitsValue(NatToString(n)) == n
    decreases n
  {
    if n >= 10 {
      var s := NatToString(n);
      DigitsValueOfNat(n / 10);
      assert s[..|s| - 1] == NatToString(n / 10);
    }
  }

  /** `Integer.parseInt(s)` (`lo`, `hi` the `int` range) and `Long.parseLong(s)`
      (the `long` range): an optional `+` or `-` followed by at least one
      digit, and a value within range; `None` is a `NumberFormatException`. */
  function ParseDecimal(s: string, lo: int, hi: int): (r: Option<int>)
    ensures r.Some? ==> lo <= r.value <= hi
    ensures r.Some? ==> |s| > 0 && AllDigits(s[1..])
    ensures r.Some? && |s| > 0 && s[0] == '-' ==> r.value <= 0
  {
    if |s| == 0 then None
    else
      var signed := s[0] == '-' || s[0] == '+';
      var digits := if signed then s[1..] else s;
      if |digits| == 0 || !AllDigits(digits) then None
      else
        var magnitude: int := DigitsValue(digits);
        var v := if s[0] == '-' then -magnitude else magnitude;
        if lo <= v <= hi then Some(v) else None
  }

  function ParseInt32(s: string): (r: Option<int>)
    ensures r.Some? ==> IsInt32(r.value)
  {
    ParseDecimal(s, Int32Min, Int32Max)
  }

  function ParseInt64(s: string): (r: Option<int>)
    ensures r.Some? ==> IsInt64(r.value)
  {
    ParseDecimal(s, Int64Min, Int64Max)
  }

  /** Parsing what `%d` printed gives the number back, for any value in range. */
  lemma ParseFormatInt(n: int, lo: int, hi: int)
    requires lo <= n <= hi
    ensures ParseDecimal(FormatInt(n), lo, hi) == Some(n)
  {
    var s := FormatInt(n);
    if n < 0 {
      DigitsValueOfNat(-n);
      assert s[1..] == NatToString(-n);
    } else {
      DigitsValueOfNat(n);
    }
  }

  // ---------------------------------------------------------------------
  // Doubles
  // ---------------------------------------------------------------------

  /** A Java `double`, its finite values taken as exact reals. */
  datatype Double = Finite(value: real) | NaN | Infinity(negative: bool)

  const Zero: Double := Finite(0.0)

  /** Java's `a < b`: false whenever either side is NaN. */
  predicate Lt(a: Double, b: Double)
  {
    match (a, b)
    case (NaN, _) => false
    case (_, NaN) => false
    case (Infinity(na), Infinity(nb)) => na && !nb
    case (Infinity(na), Finite(_)) => na
    case (Finite(_), Infinity(nb)) => !nb
    case (Finite(x), Finite(y)) => x < y
  }

  /** Java's `a >= b`: also false whenever either side is NaN. */
  predicate Ge(a: Double, b: Double)
  {
    !a.NaN? && !b.NaN? && !Lt(a, b)
  }

  /** `>=` is a total preorder on the non-NaN values. */
  lemma GeTransitive(a: Double, b: Double, c: Double)
    requires Ge(a, b) && Ge(b, c)
    ensures Ge(a, c)
  {
  }

  function Pow10(e: int): (r: real)
    ensures r > 0.0
    decreases if e >= 0 then e else -e
  {
    if e == 0 then 1.0 else if e > 0 then 10.0 * Pow10(e - 1) else Pow10(e + 1) / 10.0
  }

  /** The number of leading ASCII digits of `s`. */
  function LeadingDigits(s: string): (n: nat)
    ensures n <= |s| && AllDigits(s[..n])
    ensures n < |s| ==> !IsDigit(s[n])
  {
    if |s| > 0 && IsDigit(s[0]) then
      var n := 1 + LeadingDigits(s[1..]);
      assert s[..n] == [s[0]] + s[1..][..n - 1];
      n
    else 0
  }

  /** The exponent after `e` or `E`: an optional sign and at least one digit. */
  function ParseExponent(s: string): Option<int>
  {
    var signed := |s| > 0 && (s[0] == '-' || s[0] == '+');
    var digits := if signed then s[1..] else s;
    if |digits| == 0 || !AllDigits(digits) then None
    else
      var magnitude: int := DigitsValue(digits);
      Some(if signed && s[0] == '-' then -magnitude else magnitude)
  }

  /** An unsigned decimal literal: digits, an optional fraction, an optional
      exponent and an optional `f`/`F`/`d`/`D` suffix, with at least one
      digit before the exponent. */
  function ParseDecimalLiteral(u: string): (r: Option<real>)
    ensures r.Some? ==> r.value >= 0.0
  {
    var body := if |u| > 0 && u[|u| - 1] in {'f', 'F', 'd', 'D'} then u[..|u| - 1] else u;
    var i := LeadingDigits(body);
    ParseAfterWhole(body[..i], body[i..])
  }

  /** The rest of a literal once its whole-number digits are read. */
  function ParseAfterWhole(whole: string, rest: string): (r: Option<real>)
    requires AllDigits(whole)
    ensures r.Some? ==> r.value >= 0.0
  {
    if |rest| > 0 && rest[0] == '.' then
      var afterPoint := rest[1..];
      var j := LeadingDigits(afterPoint);
      ParseAfterFraction(whole, afterPoint[..j], afterPoint[j..])
    else ParseAfterFraction(whole, "", rest)
  }

  /** The value of `whole.fraction` scaled by the exponent in `tail`. */
  function ParseAfterFraction(whole: string, fraction: string, tail: string): (r: Option<real>)
    requires AllDigits(whole) && AllDigits(fraction)
    ensures r.Some? ==> r.value >= 0.0
  {
    if |whole| + |fraction| == 0 then None
    else
      var exponent :=
        if |tail| == 0 then Some(0)
        else if tail[0] == 'e' || tail[0] == 'E' then ParseExponent(tail[1..])
        else None;
      match exponent
      case None => None
      case Some(e) =>
        assert AllDigits(whole + fraction);
        Some(DigitsValue(whole + fraction) as real / Pow10(|fraction|) * Pow10(e))
  }

  /** `Double.parseDouble(s)`: leading and trailing blanks are trimmed, then
      an optional sign and `NaN`, `Infinity` or a decimal literal; `None` is
      a `NumberFormatException`. */
  function ParseDouble(s: string): (r: Option<Double>)
    ensures JavaText.Trim(s) == "NaN" ==> r == Some(NaN)
    ensures r.Some? ==> (|JavaText.Trim(s)| > 0
      && (r.value.Finite? && JavaText.Trim(s)[0] != '-' ==> r.value.value >= 0.0))
  {
    var t := JavaText.Trim(s);
    if |t| == 0 then None
    else
      var negative := t[0] == '-';
      var u := if t[0] == '-' || t[0] == '+' then t[1..] else t;
      if u == "NaN" then Some(NaN)
      else if u == "Infinity" then Some(Infinity(negative))
      else
        match ParseDecimalLiteral(u)
        case None => None
        case Some(v) => Some(Finite(if negative then -v else v))
  }

  /** The number of points in the run of digits and points that `s`
      starts with: the run `parseDouble` scans before it looks for an
      exponent. */
  function PointsInRun(s: string): nat
    decreases |s|
  {
    if |s| == 0 || !(IsDigit(s[0]) || s[0] == '.') then 0
    else (if s[0] == '.' then 1 else 0) + PointsInRun(s[1..])
  }

  /** The text after an optional sign. */
  function Unsigned(t: string): string
  {
    if |t| > 0 && (t[0] == '-' || t[0] == '+') then t[1..] else t
  }

  /** `parseDouble` of the trimmed text `t` meets a second point in that
      run and throws `NumberFormatException("multiple points")`. */
  predicate HasMultiplePoints(t: string)
  {
    PointsInRun(Unsigned(t)) >= 2
  }

  /** Digits at the front of the run carry no point. */
  lemma {:induction false} RunSkipDigits(s: string, i: nat)
    requires i <= |s| && AllDigits(s[..i])
    ensures PointsInRun(s) == PointsInRun(s[i..])
    decreases i
  {
    if i > 0 {
      assert IsDigit(s[..i][0]);
      assert s[1..][..i - 1] == s[..i][1..];
      RunSkipDigits(s[1..], i - 1);
      assert s[1..][i - 1..] == s[i..];
    }
  }

  /** A last character outside the run (a suffix `f` or `d`) is not part
      of it. */
  lemma {:induction false} RunDropLast(s: string)
    requires |s| > 0 && !(IsDigit(s[|s| - 1]) || s[|s| - 1] == '.')
    ensures PointsInRun(s[..|s| - 1]) == PointsInRun(s)
    decreases |s|
  {
    if |s| > 1 && (IsDigit(s[0]) || s[0] == '.') {
      assert s[..|s| - 1][1..] == s[1..][..|s[1..]| - 1];
      RunDropLast(s[1..]);
    }
  }

  /** Once the whole digits are read, a run with two points fails. */
  lemma AfterWholeRejectsPoints(whole: string, rest: string)
    requires AllDigits(whole) && PointsInRun(rest) >= 2
    requires |rest| > 0 ==> !IsDigit(rest[0])
    ensures ParseAfterWhole(whole, rest) == None
  {
    assert rest[0] == '.';
    var afterPoint := rest[1..];
    var j := LeadingDigits(afterPoint);
    RunSkipDigits(afterPoint, j);
    var tail := afterPoint[j..];
    assert |tail| > 0 && tail[0] == '.';
  }

  /** A literal whose run holds two points does not parse. */
  lemma DecimalRejectsPoints(u: string)
    requires PointsInRun(u) >= 2
    ensures ParseDecimalLiteral(u) == None
  {
    var body := if |u| > 0 && u[|u| - 1] in {'f', 'F', 'd', 'D'} then u[..|u| - 1] else u;
    if body != u {
      RunDropLast(u);
    }
    var i := LeadingDigits(body);
    RunSkipDigits(body, i);
    AfterWholeRejectsPoints(body[..i], body[i..]);
  }

  /** Every text on which `parseDouble` throws `multiple points` is
      one the model rejects too. */
  lemma MultiplePointsRejected(s: string)
    requires HasMultiplePoints(JavaText.Trim(s))
    ensures ParseDouble(s) == None
  {
    var t := JavaText.Trim(s);
    var u := Unsigned(t);
    assert u[0] != 'N' && u[0] != 'I';
    assert u != "NaN" && u != "Infinity";
    DecimalRejectsPoints(u);
  }

  /** `%.2f`: the value rounded half-up to two decimals, with a minus sign
      for negative values; NaN and the infinities print their names. */
  function FormatFixed2(d: Double): string
  {
    match d
    case NaN => "NaN"
    case Infinity(negative) => if negative then "-Infinity" else "Infinity"
    case Finite(r) =>
      var magnitude := if r < 0.0 then -r else r;
      var cents := (magnitude * 100.0 + 0.5).Floor;
      assert cents >= 0;
      var sign := if r < 0.0 then "-" else "";
      sign + NatToString(cents / 100) + "." + [DigitChar(cents % 100 / 10), DigitChar(cents % 10)]
  }

  /** `%.2f` rounds half up: 0.125 prints as `0.13` and -0.125 as `-0.13`
      (the tie goes away from zero), 2.5 keeps two decimals and 0.004
      rounds down to zero. */
  lemma FormatFixed2HalfUp()
    ensures FormatFixed2(Finite(0.125)) == "0.13"
    ensures FormatFixed2(Finite(-0.125)) == "-0.13"
    ensures FormatFixed2(Finite(2.5)) == "2.50"
    ensures FormatFixed2(Finite(0.004)) == "0.00"
  {
    FixedParts(0.125, 13);
    FixedParts(-0.125, 13);
    FixedParts(2.5, 250);
    FixedParts(0.004, 0);
    assert NatToString(0) == "0" && NatToString(2) == "2";
    assert DigitChar(0) == '0' && DigitChar(1) == '1' && DigitChar(3) == '3' && DigitChar(5) == '5';
  }

  /** The text of a finite value, given its rounded number of cents. */
  lemma FixedParts(r: real, cents: nat)
    requires ((if r < 0.0 then -r else r) * 100.0 + 0.5).Floor == cents
    ensures FormatFixed2(Finite(r))
      == (if r < 0.0 then "-" else "") + NatToString(cents / 100) + "." + [DigitChar(cents % 100 / 10), DigitChar(cents % 10)]
  {
  }

  /** The sign is printed exactly for negative values. */
  lemma FormatFixed2Sign(r: real)
    ensures |FormatFixed2(Finite(r))| > 0
    ensures FormatFixed2(Finite(r))[0] == '-' <==> r < 0.0
  {
    var magnitude := if r < 0.0 then -r else r;
    var cents := (magnitude * 100.0 + 0.5).Floor;
    assert cents >= 0;
    var digits := NatToString(cents / 100);
    assert IsDigit(digits[0]);
  }
}
