// openzl_promote and openzl_restore: which text columns become numbers, and why nothing is lost.
module Promote {
  import opened Wrappers
  import opened Decimal

  // ---- the patterns ----

  /** The text after an optional minus sign. */
  function Unsigned(s: string): string {
    if |s| > 0 && s[0] == '-' then s[1..] else s
  }

  predicate Negative(s: string) { |s| > 0 && s[0] == '-' }

  /** [1-9][0-9]{0,max-1} */
  predicate StartsNonZero(d: string, max: nat) {
    1 <= |d| <= max && AllDigits(d) && d[0] != '0'
  }

  /** (0|-?[1-9][0-9]{0,max-1}) */
  predicate MatchesInteger(s: string, max: nat) {
    s == "0" || StartsNonZero(Unsigned(s), max)
  }

  /** What follows the integer digits of a decimal. */
  function AfterDigits(u: string): string { u[|LeadingDigits(u)|..] }

  /** -?((0|[1-9][0-9]{0,intDigits-1})(\.[0-9]{1,scale})?|\.[0-9]{1,scale}) */
  predicate MatchesDecimal(s: string, intDigits: nat, scale: nat) {
    var u := Unsigned(s);
    var whole, rest := LeadingDigits(u), AfterDigits(u);
    var wholeOk := whole == "0" || StartsNonZero(whole, intDigits);
    if rest == "" then wholeOk
    else rest[0] == '.' && 2 <= |rest| <= scale + 1 && AllDigits(rest[1..]) && (whole == "" || wholeOk)
  }

  /** [0-9]+ */
  predicate MatchesDigits(s: string) { |s| >= 1 && AllDigits(s) }

  // ---- casts ----

  function PrintInt(v: int): string { if v < 0 then "-" + Print(-v) else Print(v) }

  function Abs(v: int): nat { if v < 0 then -v else v }

  const INT64_LIMIT: int := 0x8000_0000_0000_0000

  /** CAST(text AS BIGINT), None on a conversion error. */
  function CastBigint(s: string): Option<int> {
    if !MatchesDigits(Unsigned(s)) then None
    else
      var v: int := if Negative(s) then 0 - Value(Unsigned(s)) else Value(Unsigned(s));
      if -INT64_LIMIT <= v < INT64_LIMIT then Some(v) else None
  }

  /** Decimal text: digits, a point and digits, or one of them missing. */
  predicate DecimalText(s: string) {
    var u := Unsigned(s);
    var rest := AfterDigits(u);
    if rest == "" then u != "" else rest[0] == '.' && AllDigits(rest[1..]) && |u| >= 2
  }

  function FractionDigits(s: string): string
    requires DecimalText(s)
    ensures AllDigits(FractionDigits(s))
  {
    var rest := AfterDigits(Unsigned(s));
    if rest == "" then "" else rest[1..]
  }

  /** Decimal text denotes Numerator / 10^|FractionDigits|. */
  function Numerator(s: string): int
    requires DecimalText(s)
  {
    var digits := LeadingDigits(Unsigned(s)) + FractionDigits(s);
    if Negative(s) then 0 - Value(digits) else Value(digits)
  }

  /** Division rounding half away from zero. */
  function RoundedQuotient(n: int, d: nat): int
    requires d > 0
  {
    if n < 0 then -((2 * -n + d) / (2 * d)) else (2 * n + d) / (2 * d)
  }

  /** CAST(text AS DECIMAL(precision, scale)) as an unscaled integer, None on a conversion error or overflow. */
  function CastDecimal(s: string, precision: nat, scale: nat): Option<int> {
    if !DecimalText(s) then None
    else
      var places := |FractionDigits(s)|;
      var unscaled := if places <= scale then Numerator(s) * Pow10(scale - places)
                      else RoundedQuotient(Numerator(s), Pow10(places - scale));
      if Abs(unscaled) < Pow10(precision) then Some(unscaled) else None
  }

  // ---- integers are lossless ----

  lemma Pow10Of18(n: nat)
    requires n <= 18
    ensures Pow10(n) <= 1_000_000_000_000_000_000 < INT64_LIMIT
  {
    Pow10Grows(n, 18);
    var k := n - n;
    assert Pow10(k + 6) == 1_000_000 by {
      assert Pow10(k + 3) == 10 * Pow10(k + 2) == 100 * Pow10(k + 1) == 1000 * Pow10(k);
      assert Pow10(k + 6) == 10 * Pow10(k + 5) == 100 * Pow10(k + 4) == 1000 * Pow10(k + 3);
    }
    Pow10Sum(6, 6);
    Pow10Sum(12, 6);
  }

  /** Text the integer pattern accepts fits in 64 bits and prints back to itself. */
  lemma IntegerRoundTrip(s: string, max: nat)
    requires 1 <= max <= 18 && MatchesInteger(s, max)
    ensures CastBigint(s).Some? && PrintInt(CastBigint(s).value) == s
    ensures Abs(CastBigint(s).value) < Pow10(max)
  {
    var u := Unsigned(s);
    PrintOfValue(u);
    ValueBound(u);
    Pow10Grows(|u|, max);
    Pow10Of18(max);
    if u == "0" {
      assert Value("0") == 10 * Value("0"[..0]) + DigitValue('0') == 0;
    } else {
      PositiveValue(u);
    }
    hide Value, Pow10, AllDigits, StartsNonZero, Print;
  }

  lemma {:induction false} PositiveValue(u: string)
    requires StartsNonZero(u, |u|)
    ensures Value(u) > 0
  {
    if |u| > 1 {
      PositiveValue(u[..|u| - 1]);
    }
  }

  /** The integer pattern accepts exactly the decimal texts of the integers with at most `max` digits. */
  lemma IntegerPatternIsExact(s: string, max: nat)
    requires 1 <= max <= 18
    ensures MatchesInteger(s, max) <==> exists v: int :: Abs(v) < Pow10(max) && PrintInt(v) == s
  {
    if MatchesInteger(s, max) {
      IntegerRoundTrip(s, max);
    }
    if v: int :| Abs(v) < Pow10(max) && PrintInt(v) == s {
      ValueOfPrint(Abs(v));
      PrintLength(Abs(v), max);
      if v >= 0 {
        assert IsDigit(s[0]);
      }
      if v == 0 {
        assert s == "0";
      }
    }
  }

  // ---- what the other patterns accept ----

  /** Nothing, or the print of a number with at most `intDigits` digits. */
  ghost predicate WholePart(whole: string, intDigits: nat) {
    whole == "" || exists n: nat :: n < Pow10(intDigits) && whole == Print(n)
  }

  /** Nothing, or a point and one to `scale` digits. */
  predicate FractionPart(fraction: string, scale: nat) {
    fraction == "" || (fraction[0] == '.' && AllDigits(fraction[1..]) && 1 <= |fraction[1..]| <= scale)
  }

  /** An optional minus sign and the two parts, at least one of them present. */
  ghost predicate DecimalShape(s: string, neg: bool, whole: string, fraction: string, intDigits: nat, scale: nat) {
    && s == (if neg then "-" else "") + whole + fraction
    && WholePart(whole, intDigits) && FractionPart(fraction, scale)
    && (whole != "" || fraction != "")
  }

  lemma WholePartDigits(whole: string, intDigits: nat)
    requires intDigits >= 1 && whole != ""
    ensures WholePart(whole, intDigits) <==> whole == "0" || StartsNonZero(whole, intDigits)
  {
    if whole == "0" {
      assert Print(0) == "0" && 0 < Pow10(intDigits);
    } else if StartsNonZero(whole, intDigits) {
      PrintOfValue(whole);
      ValueBound(whole);
      Pow10Grows(|whole|, intDigits);
      assert Value(whole) < Pow10(intDigits) && whole == Print(Value(whole));
    }
    if n: nat :| n < Pow10(intDigits) && whole == Print(n) {
      ValueOfPrint(n);
      PrintLength(n, intDigits);
    }
  }

  lemma MatchesDecimalShape(s: string, intDigits: nat, scale: nat)
    requires intDigits >= 1 && MatchesDecimal(s, intDigits, scale)
    ensures
      var u := Unsigned(s);
      DecimalShape(s, Negative(s), LeadingDigits(u), AfterDigits(u), intDigits, scale)
  {
    var u := Unsigned(s);
    SignAndDigits(s);
    MatchedWhole(s, intDigits, scale);
    hide *;
    ShapeOfParts(s, Negative(s), LeadingDigits(u), AfterDigits(u), intDigits, scale);
  }

  lemma ShapeOfParts(s: string, neg: bool, whole: string, fraction: string, intDigits: nat, scale: nat)
    requires s == (if neg then "-" else "") + whole + fraction
    requires WholePart(whole, intDigits) && FractionPart(fraction, scale) && (whole != "" || fraction != "")
    ensures DecimalShape(s, neg, whole, fraction, intDigits, scale)
  {
  }

  lemma SignAndDigits(s: string)
    ensures s == (if Negative(s) then "-" else "") + LeadingDigits(Unsigned(s)) + AfterDigits(Unsigned(s))
  {
    hide LeadingDigits;
    var u := Unsigned(s);
    LeadingDigitsLength(u);
    assert u == LeadingDigits(u) + AfterDigits(u);
    assert s == (if Negative(s) then "-" else "") + u;
  }

  lemma MatchedWhole(s: string, intDigits: nat, scale: nat)
    requires intDigits >= 1 && MatchesDecimal(s, intDigits, scale)
    ensures
      var whole, fraction := LeadingDigits(Unsigned(s)), AfterDigits(Unsigned(s));
      WholePart(whole, intDigits) && FractionPart(fraction, scale) && (whole != "" || fraction != "")
  {
    hide LeadingDigits, AfterDigits, WholePart, AllDigits;
    var whole := LeadingDigits(Unsigned(s));
    if whole != "" {
      WholePartDigits(whole, intDigits);
    } else {
      NoWholePart(intDigits);
    }
  }

  lemma NoWholePart(intDigits: nat)
    ensures WholePart("", intDigits)
  {
  }

  lemma ShapeMatchesDecimal(s: string, neg: bool, whole: string, fraction: string, intDigits: nat, scale: nat)
    requires intDigits >= 1 && DecimalShape(s, neg, whole, fraction, intDigits, scale)
    ensures MatchesDecimal(s, intDigits, scale)
  {
    var u := whole + fraction;
    assert whole != "" ==> AllDigits(whole);
    hide LeadingDigits, WholePart, Print;
    assert s == (if neg then "-" else "") + u;
    assert Unsigned(s) == u by {
      assert u != "" && (whole != "" ==> u[0] == whole[0] && IsDigit(u[0])) && (whole == "" ==> u[0] == '.');
    }
    LeadingDigitsStop(whole, fraction);
    assert AfterDigits(u) == fraction;
    if whole != "" {
      WholePartDigits(whole, intDigits);
    }
  }

  /**
   * The decimal pattern accepts exactly: an optional minus, the print of a number with at most `intDigits` digits or
   * nothing, a point with one to `scale` digits or nothing, but not nothing twice.
   */
  lemma DecimalPatternIsExact(s: string, intDigits: nat, scale: nat)
    requires intDigits >= 1
    ensures MatchesDecimal(s, intDigits, scale)
       <==> exists neg, whole, fraction :: DecimalShape(s, neg, whole, fraction, intDigits, scale)
  {
    if MatchesDecimal(s, intDigits, scale) {
      MatchesDecimalShape(s, intDigits, scale);
    }
    if neg, whole, fraction :| DecimalShape(s, neg, whole, fraction, intDigits, scale) {
      ShapeMatchesDecimal(s, neg, whole, fraction, intDigits, scale);
    }
  }

  /** A number padded with zeros to the width. */
  ghost predicate PaddedText(s: string, width: nat) {
    exists n: nat :: n < Pow10(width) && s == LeftPad(Print(n), width)
  }

  /** The digit pattern accepts exactly the zero-padded prints, to the text's length, of the numbers that fit it. */
  lemma DigitsPatternIsExact(s: string, width: nat)
    ensures MatchesDigits(s) && |s| == width
       <==> width >= 1 && PaddedText(s, width)
  {
    if MatchesDigits(s) && |s| == width {
      LeftPadRestores(s);
      ValueBound(s);
      assert Value(s) < Pow10(width) && s == LeftPad(Print(Value(s)), width);
    }
    if width >= 1 && PaddedText(s, width) {
      var n: nat :| n < Pow10(width) && s == LeftPad(Print(n), width);
      PrintLength(n, width);
    }
  }

  // ---- decimals are exact ----

  lemma {:induction false} LeadingDigitsLength(s: string)
    ensures s[..|LeadingDigits(s)|] == LeadingDigits(s)
  {
    if |s| > 0 && IsDigit(s[0]) {
      LeadingDigitsLength(s[1..]);
    }
  }

  lemma MulKeepsOrder(a: nat, b: nat, c: nat)
    requires a < b && 0 < c
    ensures a * c < b * c
  {
    assert (b - a) * c > 0;
  }

  lemma ScaledBelow(n: nat, digits: nat, up: nat)
    requires n < Pow10(digits)
    ensures n * Pow10(up) < Pow10(digits + up)
  {
    hide Pow10;
    Pow10Sum(digits, up);
    MulKeepsOrder(n, Pow10(digits), Pow10(up));
  }

  lemma DecimalParts(s: string, intDigits: nat, scale: nat)
    requires intDigits >= 1 && MatchesDecimal(s, intDigits, scale)
    ensures DecimalText(s)
    ensures |FractionDigits(s)| <= scale
    ensures |LeadingDigits(Unsigned(s))| <= intDigits
  {
    hide LeadingDigits;
    var u := Unsigned(s);
    LeadingDigitsLength(u);
    assert u == LeadingDigits(u) + AfterDigits(u);
  }

  /** Scaling up by the missing fraction digits, on the absolute values. */
  lemma ScaleUp(value: nat, whole: nat, fraction: nat, scale: nat)
    requires fraction <= scale && value < Pow10(whole + fraction)
    ensures value * Pow10(scale - fraction) < Pow10(whole + scale)
    ensures value * Pow10(scale - fraction) * Pow10(fraction) == value * Pow10(scale)
  {
    hide Pow10;
    var up := scale - fraction;
    ScaledBelow(value, whole + fraction, up);
    Pow10Sum(up, fraction);
    MulAssociates(value, Pow10(up), Pow10(fraction));
  }

  lemma MulAssociates(x: int, y: int, z: int)
    ensures x * y * z == x * (y * z)
  {
  }

  /** The same with a sign: scaling is exact and keeps the magnitude in bounds. */
  lemma ScaleUpSigned(n: int, value: nat, whole: nat, fraction: nat, scale: nat)
    requires n == value || n + value == 0
    requires fraction <= scale && value < Pow10(whole + fraction)
    ensures Abs(n * Pow10(scale - fraction)) < Pow10(whole + scale)
    ensures n * Pow10(scale - fraction) * Pow10(fraction) == n * Pow10(scale)
  {
    hide Pow10, Abs;
    var up := Pow10(scale - fraction);
    ScaleUp(value, whole, fraction, scale);
    SignedScale(n, value, up);
    SignedEquality(n, value, up, Pow10(fraction), Pow10(scale));
  }

  /** Up to its sign, the numerator is the number the digits around the point spell. */
  lemma NumeratorDigits(s: string)
    requires DecimalText(s)
    ensures
      var whole, fraction := LeadingDigits(Unsigned(s)), FractionDigits(s);
      var digits := whole + fraction;
      && AllDigits(digits) && Value(digits) < Pow10(|whole| + |fraction|)
      && (Numerator(s) == Value(digits) || Numerator(s) + Value(digits) == 0)
  {
    hide DecimalText, LeadingDigits, FractionDigits, Pow10, Value, AllDigits;
    var whole, fraction := LeadingDigits(Unsigned(s)), FractionDigits(s);
    ValueOfConcat(whole, fraction);
    ValueBound(whole + fraction);
  }

  /** With few enough fraction digits and a fitting magnitude, the cast scales up without rounding. */
  lemma CastScalesUp(s: string, precision: nat, scale: nat)
    requires DecimalText(s) && |FractionDigits(s)| <= scale
    requires Abs(Numerator(s) * Pow10(scale - |FractionDigits(s)|)) < Pow10(precision)
    ensures CastDecimal(s, precision, scale) == Some(Numerator(s) * Pow10(scale - |FractionDigits(s)|))
  {
    hide DecimalText, Numerator, FractionDigits, Pow10, RoundedQuotient, Abs;
  }

  /**
   * Text the decimal pattern accepts is cast without rounding and without overflow: the unscaled value at scale
   * `scale` denotes the same rational as the text, and its magnitude stays below 10^(integer digits + scale).
   */
  lemma DecimalIsExact(s: string, intDigits: nat, scale: nat)
    requires intDigits >= 1 && scale >= 1 && intDigits + scale <= 18
    requires MatchesDecimal(s, intDigits, scale)
    ensures DecimalText(s) && |FractionDigits(s)| <= scale
    ensures
      var cast := CastDecimal(s, intDigits + scale, scale);
      && cast.Some?
      && cast.value * Pow10(|FractionDigits(s)|) == Numerator(s) * Pow10(scale)
      && Abs(cast.value) < Pow10(|LeadingDigits(Unsigned(s))| + scale) <= Pow10(intDigits + scale) < INT64_LIMIT
  {
    hide *;
    DecimalParts(s, intDigits, scale);
    NumeratorDigits(s);
    var whole, fraction := LeadingDigits(Unsigned(s)), FractionDigits(s);
    ScaleUpSigned(Numerator(s), Value(whole + fraction), |whole|, |fraction|, scale);
    Pow10Grows(|whole| + scale, intDigits + scale);
    Pow10Of18(intDigits + scale);
    CastScalesUp(s, intDigits + scale, scale);
  }

  lemma SignedScale(n: int, m: nat, k: nat)
    requires n == m || n + m == 0
    ensures Abs(n * k) == m * k
  {
    if n + m == 0 {
      assert n * k + m * k == (n + m) * k == 0;
    }
  }

  lemma SignedEquality(n: int, m: nat, up: nat, down: nat, full: nat)
    requires n == m || n + m == 0
    requires m * up * down == m * full
    ensures n * up * down == n * full
  {
    if n + m == 0 {
      assert n * up == -(m * up);
      assert n * up * down == -(m * up * down);
      assert n * full == -(m * full);
    }
  }

  /** A digit string of length at most 18 is cast to DECIMAL(length, 0) exactly, leading zeros or not. */
  lemma DigitsAreExact(s: string)
    requires MatchesDigits(s)
    ensures CastDecimal(s, |s|, 0) == Some(Value(s))
  {
    LeadingDigitsOfDigits(s);
    assert s + "" == s;
    ValueBound(s);
    assert Unsigned(s) == s && FractionDigits(s) == "";
    assert Value(s) * Pow10(0) == Value(s);
  }

  // ---- type names ----

  function TypeName(precision: nat, scale: nat): string {
    "DECIMAL(" + Print(precision) + "," + Print(scale) + ")"
  }

  /** How openzl_restore reads a width out of a type name; 0 when the type is left alone. */
  function RestoreWidth(typeName: string): nat {
    if |typeName| > 11 && typeName[..8] == "DECIMAL(" && typeName[|typeName| - 3..] == ",0)"
    then Atoi(typeName[8..|typeName| - 3])
    else 0
  }

  /** The type parser recognizes scale 0, whatever the precision, and is never misled by another scale. */
  lemma RestoreWidthOfType(precision: nat, scale: nat)
    ensures RestoreWidth(TypeName(precision, scale)) == if scale == 0 then precision else 0
  {
    var p, d := Print(precision), Print(scale);
    var name := TypeName(precision, scale);
    assert name == "DECIMAL(" + p + "," + d + ")";
    hide *;
    Regroup("DECIMAL(", p, ",", d, ")");
    SuffixOfScale("DECIMAL(" + p, d);
    RestoreWidthMeans(name);
    ValueOfPrint(precision);
    ZeroPrints(scale);
    WidthOfParts(name, p, "," + d + ")");
  }

  lemma Regroup(a: string, b: string, c: string, d: string, e: string)
    ensures a + b + c + d + e == (a + b) + (c + d + e) == a + (b + (c + d + e))
  {
  }

  /** The instance of what RestoreWidthMeans says. */
  lemma WidthOfParts(typeName: string, digits: string, rest: string)
    requires typeName == "DECIMAL(" + (digits + rest) && AllDigits(digits) && |digits| >= 1
    requires |rest| >= 3 && rest[0] == ','
    ensures RestoreWidth(typeName) == if typeName[|typeName| - 3..] == ",0)" then Value(digits) else 0
  {
    assert |typeName| > 11;
    RestoreWidthMeans(typeName);
    hide RestoreWidth, Value;
  }

  lemma ZeroPrints(n: nat)
    ensures Print(n) == "0" <==> n == 0
  {
    if Print(n) == "0" {
      PrintIsInjective(n, 0);
    }
  }

  /** Only the scale 0 ends a type name in ",0)". */
  lemma SuffixOfScale(front: string, d: string)
    requires |d| >= 1 && AllDigits(d)
    ensures
      var name := front + ("," + d + ")");
      name[|name| - 3..] == ",0)" <==> d == "0"
  {
    var rest := "," + d + ")";
    var name := front + rest;
    assert name[|name| - 3..] == rest[|rest| - 3..];
    if |d| == 1 {
      assert rest[|rest| - 3..] == rest && rest[1] == d[0];
    } else {
      assert rest[|rest| - 3] == d[|d| - 2] && IsDigit(d[|d| - 2]);
      assert rest[|rest| - 3..][0] != ',';
    }
  }

  /** Types that do not read DECIMAL(...,0) are left alone; of the others, the digits after the parenthesis count. */
  lemma RestoreWidthMeans(typeName: string)
    ensures RestoreWidth(typeName) > 0 ==>
        |typeName| > 11 && typeName[..8] == "DECIMAL(" && typeName[|typeName| - 3..] == ",0)"
    ensures forall digits: string, rest: string |
        typeName == "DECIMAL(" + (digits + rest) && AllDigits(digits) && rest != "" && !IsDigit(rest[0]) ::
          RestoreWidth(typeName) == if |typeName| > 11 && typeName[|typeName| - 3..] == ",0)" then Value(digits) else 0
  {
    forall digits: string, rest: string |
        typeName == "DECIMAL(" + (digits + rest) && AllDigits(digits) && rest != "" && !IsDigit(rest[0])
      ensures RestoreWidth(typeName)
           == if |typeName| > 11 && typeName[|typeName| - 3..] == ",0)" then Value(digits) else 0
    {
      if |typeName| > 11 && typeName[|typeName| - 3..] == ",0)" {
        RestoreWidthDigits(typeName, digits, rest);
      }
    }
  }

  lemma RestoreWidthDigits(typeName: string, digits: string, rest: string)
    requires typeName == "DECIMAL(" + (digits + rest) && AllDigits(digits) && rest != "" && !IsDigit(rest[0])
    requires |typeName| > 11 && typeName[|typeName| - 3..] == ",0)"
    ensures RestoreWidth(typeName) == Value(digits)
  {
    var n := |typeName|;
    assert typeName[..8] == "DECIMAL(";
    assert !IsDigit(typeName[n - 3..][0]) && typeName[n - 3] == ',';
    assert forall j | 0 <= j < |digits| :: typeName[8 + j] == digits[j] && IsDigit(typeName[8 + j]);
    assert |digits| <= n - 11;
    var middle := typeName[8..n - 3];
    assert typeName[8..] == digits + rest && middle == (digits + rest)[..n - 11];
    assert middle[..|digits|] == digits && middle == digits + middle[|digits|..];
    assert middle[|digits|..] != "" ==> middle[|digits|..][0] == rest[0];
    LeadingDigitsStop(digits, middle[|digits|..]);
  }
}
