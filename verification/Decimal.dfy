// Decimal text: std::to_string, std::stoull, std::atoi, CAST AS VARCHAR and lpad.
module Decimal {
  predicate IsDigit(c: char) { '0' <= c <= '9' }

  predicate AllDigits(s: string) { forall i | 0 <= i < |s| :: IsDigit(s[i]) }

  function DigitValue(c: char): (d: nat)
    requires IsDigit(c)
    ensures d < 10
  {
    c as int - '0' as int
  }

  function DigitChar(d: nat): (c: char)
    requires d < 10
    ensures IsDigit(c) && DigitValue(c) == d
  {
    ('0' as int + d) as char
  }

  function Pow10(n: nat): (p: nat)
    ensures p >= 1
  {
    if n == 0 then 1 else 10 * Pow10(n - 1)
  }

  /** The number a digit string denotes. */
  function Value(s: string): nat
    requires AllDigits(s)
  {
    if |s| == 0 then 0 else 10 * Value(s[..|s| - 1]) + DigitValue(s[|s| - 1])
  }

  /** The decimal text of a number. */
  function Print(n: nat): (s: string)
    ensures |s| >= 1 && AllDigits(s)
  {
    if n < 10 then [DigitChar(n)] else Print(n / 10) + [DigitChar(n % 10)]
  }

  /** Digit strings as printing produces them: no leading zero, except for zero itself. */
  predicate Canonical(s: string) {
    |s| >= 1 && AllDigits(s) && (|s| > 1 ==> s[0] != '0')
  }

  lemma {:induction false} ValueOfPrint(n: nat)
    ensures Value(Print(n)) == n
    ensures Canonical(Print(n))
    ensures n > 0 ==> Print(n)[0] != '0'
  {
    if n < 10 {
      assert Print(n)[..0] == [];
    } else {
      ValueOfPrint(n / 10);
      assert Print(n)[..|Print(n)| - 1] == Print(n / 10);
    }
  }

  lemma {:induction false} PrintOfValue(s: string)
    requires Canonical(s)
    ensures Print(Value(s)) == s
    ensures |s| > 1 ==> Value(s) > 0
  {
    var front := s[..|s| - 1];
    if |s| == 1 {
      assert Value(front) == 0;
    } else {
      PrintOfValue(front);
      if |front| == 1 {
        assert Value(front[..0]) == 0;
        assert Value(front) == DigitValue(s[0]) > 0;
      }
      assert s == front + [s[|s| - 1]];
      assert Value(s) == 10 * Value(front) + DigitValue(s[|s| - 1]);
      hide Value;
    }
  }

  /** Different numbers have different decimal text. */
  lemma PrintIsInjective(m: nat, n: nat)
    requires Print(m) == Print(n)
    ensures m == n
  {
    ValueOfPrint(m);
    ValueOfPrint(n);
  }

  lemma {:induction false} ValueBound(s: string)
    requires AllDigits(s)
    ensures Value(s) < Pow10(|s|)
  {
    if |s| > 0 {
      ValueBound(s[..|s| - 1]);
    }
  }

  /** A number fits in k digits exactly when its text has at most k characters. */
  lemma {:induction false} PrintLength(n: nat, k: nat)
    requires k >= 1
    ensures |Print(n)| <= k <==> n < Pow10(k)
  {
    if n < 10 {
      Pow10Grows(1, k);
    } else if k == 1 {
      assert |Print(n)| == |Print(n / 10)| + 1;
      assert Pow10(1) == 10 * Pow10(0);
    } else {
      PrintLength(n / 10, k - 1);
    }
  }

  lemma {:induction false} Pow10Grows(m: nat, n: nat)
    requires m <= n
    ensures Pow10(m) <= Pow10(n)
  {
    if m < n {
      Pow10Grows(m, n - 1);
    }
  }

  lemma {:induction false} Pow10Sum(m: nat, n: nat)
    ensures Pow10(m + n) == Pow10(m) * Pow10(n)
  {
    if m > 0 {
      Pow10Sum(m - 1, n);
      TenTimes(Pow10(n), Pow10(m - 1));
    }
  }

  lemma TenTimes(x: nat, y: nat)
    ensures 10 * (x * y) == x * (10 * y)
  {
  }

  lemma {:induction false} ValueOfConcat(a: string, b: string)
    requires AllDigits(a) && AllDigits(b)
    ensures AllDigits(a + b)
    ensures Value(a + b) == Value(a) * Pow10(|b|) + Value(b)
  {
    hide Print;
    if |b| == 0 {
      assert a + b == a;
    } else {
      var front := b[..|b| - 1];
      ValueOfConcat(a, front);
      assert (a + b)[..|a + b| - 1] == a + front;
      assert Value(a + b) == 10 * Value(a + front) + DigitValue(b[|b| - 1]);
      TenTimes(Value(a), Pow10(|front|));
    }
  }

  function ZeroChars(n: nat): (s: string)
    ensures |s| == n
    ensures forall i | 0 <= i < n :: s[i] == '0'
  {
    seq(n, i => '0')
  }

  /** SQL lpad(s, width, '0'): pads on the left, and keeps only the first `width` characters of a longer text. */
  function LeftPad(s: string, width: nat): (padded: string)
    ensures |padded| == width
    ensures |s| >= width ==> padded == s[..width]
  {
    if |s| >= width then s[..width] else ZeroChars(width - |s|) + s
  }

  /** Padding the printed value back to its width restores any digit string, leading zeros included. */
  lemma {:induction false} LeftPadRestores(s: string)
    requires |s| >= 1 && AllDigits(s)
    ensures LeftPad(Print(Value(s)), |s|) == s
  {
    if Canonical(s) {
      PrintOfValue(s);
    } else {
      var rest := s[1..];
      ValueOfConcat(s[..1], rest);
      assert s == s[..1] + rest;
      assert Value(s[..1]) == 10 * Value(s[..1][..0]) + DigitValue(s[0]) == 0;
      assert Value(s) == Value(rest);
      LeftPadRestores(rest);
      ValueBound(rest);
      PrintLength(Value(s), |rest|);
      assert ZeroChars(|s| - |Print(Value(s))|) == ['0'] + ZeroChars(|rest| - |Print(Value(s))|);
    }
  }

  /** std::atoi on text that starts with a digit: the value of the leading digits. */
  function LeadingDigits(s: string): (d: string)
    ensures AllDigits(d) && |d| <= |s|
  {
    if |s| == 0 || !IsDigit(s[0]) then [] else [s[0]] + LeadingDigits(s[1..])
  }

  function Atoi(s: string): nat { Value(LeadingDigits(s)) }

  lemma {:induction false} LeadingDigitsOfDigits(s: string)
    requires AllDigits(s)
    ensures LeadingDigits(s) == s
  {
    if |s| > 0 {
      LeadingDigitsOfDigits(s[1..]);
    }
  }

  /** The leading digits end where something else begins. */
  lemma {:induction false} LeadingDigitsStop(digits: string, rest: string)
    requires AllDigits(digits) && (rest == "" || !IsDigit(rest[0]))
    ensures LeadingDigits(digits + rest) == digits
  {
    if digits == "" {
      assert digits + rest == rest;
    } else {
      assert (digits + rest)[1..] == digits[1..] + rest;
      LeadingDigitsStop(digits[1..], rest);
    }
  }

  lemma AtoiOfPrint(n: nat)
    ensures Atoi(Print(n)) == n
  {
    LeadingDigitsOfDigits(Print(n));
    ValueOfPrint(n);
  }
}
