/** Decimal strings as the credit-share helper sees them: the integer an
    amount is rendered as (`BigInt.prototype.toString`), the shape a winston
    amount must have (`^(\d*\.\d+|\d+)$`) and the number such a string
    denotes (`Number(s)`), computed exactly. */
module Decimal {
  import opened Results

  predicate IsDigit(c: char) {
    '0' <= c <= '9'
  }

  predicate AllDigits(s: string) {
    forall i :: 0 <= i < |s| ==> IsDigit(s[i])
  }

  function DigitValue(c: char): nat
    requires IsDigit(c)
  {
    c as int - '0' as int
  }

  function DigitChar(d: nat): (c: char)
    requires d < 10
    ensures IsDigit(c) && DigitValue(c) == d
  {
    ('0' as int + d) as char
  }

  /** Some digit of `s` is not `0`. */
  predicate HasNonZeroDigit(s: string) {
    exists i :: 0 <= i < |s| && '1' <= s[i] <= '9'
  }

  /** The integer a digit string denotes (the empty string denotes 0). */
  function NatValue(s: string): nat
    requires AllDigits(s)
  {
    if |s| == 0 then 0
    else NatValue(s[..|s| - 1]) * 10 + DigitValue(s[|s| - 1])
  }

  /** The fraction a digit string denotes when written after a decimal point. */
  function FractionValue(s: string): real
    requires AllDigits(s)
  {
    if |s| == 0 then 0.0
    else (DigitValue(s[0]) as real + FractionValue(s[1..])) / 10.0
  }

  /** The shortest decimal rendering of a natural number. */
  function NatToDecimal(n: nat): (r: string)
    ensures |r| > 0 && AllDigits(r)
  {
    if n < 10 then [DigitChar(n)]
    else NatToDecimal(n / 10) + [DigitChar(n % 10)]
  }

  /** `BigInt.prototype.toString()`: a minus sign before negative values. */
  function IntToDecimal(n: int): string {
    if n < 0 then "-" + NatToDecimal(-n) else NatToDecimal(n)
  }

  /** Reading back the rendering of `n` gives `n`. */
  lemma {:induction false} NatToDecimalRoundTrip(n: nat)
    ensures NatValue(NatToDecimal(n)) == n
  {
    if n >= 10 {
      var r := NatToDecimal(n);
      assert r[..|r| - 1] == NatToDecimal(n / 10);
      NatToDecimalRoundTrip(n / 10);
    }
  }

  /** A digit string denotes a positive integer exactly when one of its
      digits is not `0`. */
  lemma {:induction false} NatValuePositive(s: string)
    requires AllDigits(s)
    ensures NatValue(s) > 0 <==> HasNonZeroDigit(s)
  {
    if |s| > 0 {
      var n := |s| - 1;
      var init := s[..n];
      NatValuePositive(init);
      if HasNonZeroDigit(init) {
        var i :| 0 <= i < |init| && '1' <= init[i] <= '9';
        assert s[i] == init[i];
      }
      if HasNonZeroDigit(s) && s[n] == '0' {
        var i :| 0 <= i < |s| && '1' <= s[i] <= '9';
        assert init[i] == s[i];
      }
    }
  }

  /** A fraction is never negative, and is positive exactly when one of its
      digits is not `0`. */
  lemma {:induction false} FractionValuePositive(s: string)
    requires AllDigits(s)
    ensures FractionValue(s) >= 0.0
    ensures FractionValue(s) > 0.0 <==> HasNonZeroDigit(s)
  {
    if |s| > 0 {
      var rest := s[1..];
      FractionValuePositive(rest);
      if HasNonZeroDigit(rest) {
        var i :| 0 <= i < |rest| && '1' <= rest[i] <= '9';
        assert s[i + 1] == rest[i];
      }
      if HasNonZeroDigit(s) && s[0] == '0' {
        var i :| 0 <= i < |s| && '1' <= s[i] <= '9';
        assert rest[i - 1] == s[i];
      }
    }
  }

  /** Position of the first `.` in `s`, or `|s|` when there is none. */
  function DotIndex(s: string): (i: nat)
    ensures i <= |s|
    ensures i < |s| ==> s[i] == '.'
    ensures forall j :: 0 <= j < i ==> s[j] != '.'
  {
    if |s| == 0 then 0
    else if s[0] == '.' then 0
    else 1 + DotIndex(s[1..])
  }

  /** `s` matches `^(\d*\.\d+|\d+)$`: digits, or optional digits, a point and
      at least one digit. */
  predicate IsAmountPattern(s: string) {
    var i := DotIndex(s);
    if i == |s| then |s| > 0 && AllDigits(s)
    else AllDigits(s[..i]) && i + 1 < |s| && AllDigits(s[i + 1..])
  }

  /** `Number(s)` for a string of that shape, as an exact rational. */
  function AmountValue(s: string): real
    requires IsAmountPattern(s)
  {
    var i := DotIndex(s);
    if i == |s| then NatValue(s) as real
    else NatValue(s[..i]) as real + FractionValue(s[i + 1..])
  }

  /** A string of the amount shape denotes a positive number exactly when one
      of its digits is not `0`: "0", "0.0" and ".00" denote zero, while ".5"
      and "007" are positive. */
  lemma AmountPositiveIffNonZeroDigit(s: string)
    requires IsAmountPattern(s)
    ensures AmountValue(s) > 0.0 <==> HasNonZeroDigit(s)
  {
    var i := DotIndex(s);
    if i == |s| {
      NatValuePositive(s);
    } else {
      var whole, frac := s[..i], s[i + 1..];
      NatValuePositive(whole);
      FractionValuePositive(frac);
      if HasNonZeroDigit(whole) {
        var k :| 0 <= k < |whole| && '1' <= whole[k] <= '9';
        assert s[k] == whole[k];
      }
      if HasNonZeroDigit(frac) {
        var k :| 0 <= k < |frac| && '1' <= frac[k] <= '9';
        assert s[i + 1 + k] == frac[k];
      }
      if HasNonZeroDigit(s) {
        var k :| 0 <= k < |s| && '1' <= s[k] <= '9';
        if k < i {
          assert whole[k] == s[k];
        } else {
          assert k != i;
          assert frac[k - i - 1] == s[k];
        }
      }
    }
  }

  /** A string made of digits only contains no point. */
  lemma DigitsHaveNoDot(s: string)
    requires AllDigits(s)
    ensures DotIndex(s) == |s|
  {
    assert forall j :: 0 <= j < |s| ==> IsDigit(s[j]) && s[j] != '.';
  }

  /** The rendering of an integer has the amount shape exactly when the
      integer is not negative, and then denotes that integer. */
  lemma IntToDecimalAmount(n: int)
    ensures IsAmountPattern(IntToDecimal(n)) <==> n >= 0
    ensures n >= 0 ==> IsAmountPattern(IntToDecimal(n)) && AmountValue(IntToDecimal(n)) == n as real
  {
    if n >= 0 {
      DigitsHaveNoDot(NatToDecimal(n));
      NatToDecimalRoundTrip(n);
    } else {
      var s := IntToDecimal(n);
      var digits := NatToDecimal(-n);
      assert s == "-" + digits;
      DigitsHaveNoDot(digits);
      assert s[1..] == digits;
      assert DotIndex(s) == |s|;
      assert !IsDigit(s[0]);
    }
  }

  /** Length of the run of digits that `s` starts with. */
  function LeadingDigits(s: string): (n: nat)
    ensures n <= |s| && AllDigits(s[..n])
    ensures n < |s| ==> !IsDigit(s[n])
  {
    if |s| == 0 || !IsDigit(s[0]) then 0
    else
      var k := LeadingDigits(s[1..]);
      assert s[..1 + k] == [s[0]] + s[1..][..k];
      1 + k
  }

  /** The run of leading digits is determined by where the first non-digit
      sits. */
  lemma LeadingDigitsAt(s: string, i: nat)
    requires i <= |s| && AllDigits(s[..i])
    requires i < |s| ==> !IsDigit(s[i])
    ensures LeadingDigits(s) == i
  {
    var n := LeadingDigits(s);
    forall j | 0 <= j < i
      ensures IsDigit(s[j])
    {
      assert s[..i][j] == s[j];
    }
    forall j | 0 <= j < n
      ensures IsDigit(s[j])
    {
      assert s[..n][j] == s[j];
    }
  }

  /** `parseFloat` on a string whose numeric prefix has no exponent: an
      optional sign, then the longest prefix of the form digits, optionally a
      point and more digits, with at least one digit in all; `None` stands
      for NaN. */
  function ParseFloatString(s: string): Option<real> {
    var negative := |s| > 0 && s[0] == '-';
    var t := if |s| > 0 && (s[0] == '-' || s[0] == '+') then s[1..] else s;
    var i := LeadingDigits(t);
    var frac := if i < |t| && t[i] == '.' then t[i + 1..][..LeadingDigits(t[i + 1..])] else "";
    if i + |frac| == 0 then None
    else
      var magnitude := NatValue(t[..i]) as real + FractionValue(frac);
      Some(if negative then -magnitude else magnitude)
  }

  /** On a string of the amount shape `parseFloat` agrees with the exact
      value of the string. */
  lemma ParseFloatOfAmount(s: string)
    requires IsAmountPattern(s)
    ensures ParseFloatString(s) == Some(AmountValue(s))
  {
    var i := DotIndex(s);
    assert s[0] != '-' && s[0] != '+' by {
      if i == |s| {
        assert IsDigit(s[0]);
      } else if i > 0 {
        assert s[..i][0] == s[0];
      }
    }
    if i == |s| {
      assert s[..|s|] == s;
      LeadingDigitsAt(s, |s|);
    } else {
      LeadingDigitsAt(s, i);
      var rest := s[i + 1..];
      LeadingDigitsAt(rest, |rest|);
      assert rest[..|rest|] == rest;
    }
  }

  /** A minus sign before a string of the amount shape negates its value. */
  lemma ParseFloatOfNegatedAmount(s: string)
    requires IsAmountPattern(s)
    ensures ParseFloatString("-" + s) == Some(-AmountValue(s))
  {
    ParseFloatOfAmount(s);
    assert ("-" + s)[1..] == s;
  }

  /** Amounts are never negative. */
  lemma AmountValueNonNegative(s: string)
    requires IsAmountPattern(s)
    ensures AmountValue(s) >= 0.0
  {
    var i := DotIndex(s);
    if i < |s| {
      FractionValuePositive(s[i + 1..]);
    }
  }
}
