/**
 * Decimal rendering of integers, as Kotlin string templates print an `Int`
 * or a `Long`: a minus sign for negatives, no leading zeros, "0" for zero.
 */
module Decimal {
  import opened Wrappers

  predicate IsDigit(c: char) {
    '0' <= c <= '9'
  }

  function DigitChar(d: int): char
    requires 0 <= d < 10
  {
    ('0' as int + d) as char
  }

  /** The digits of `n`, most significant first. */
  function Digits(n: nat): string {
    if n < 10 then [DigitChar(n)] else Digits(n / 10) + [DigitChar(n % 10)]
  }

  /** `n.toString()`. */
  function FromInt(n: int): string {
    if n < 0 then "-" + Digits(-n) else Digits(n)
  }

  /** The value of a string of digits. */
  function Value(s: string): nat
    requires forall i :: 0 <= i < |s| ==> IsDigit(s[i])
  {
    if s == [] then 0
    else
      assert IsDigit(s[|s| - 1]);
      Value(s[..|s| - 1]) * 10 + (s[|s| - 1] as int - '0' as int)
  }

  /** `String.toIntOrNull()` for unbounded integers. */
  function Parse(s: string): Option<int> {
    if s != [] && s[0] == '-' then
      if |s| > 1 && forall i :: 1 <= i < |s| ==> IsDigit(s[i]) then Some(0 - Value(s[1..]) as int) else None
    else if s != [] && forall i :: 0 <= i < |s| ==> IsDigit(s[i]) then Some(Value(s))
    else None
  }

  /** The digits are non-empty digit characters with no leading zero. */
  lemma {:induction false} DigitsShape(n: nat)
    ensures Digits(n) != []
    ensures forall i :: 0 <= i < |Digits(n)| ==> IsDigit(Digits(n)[i])
    ensures Digits(n)[0] == '0' ==> n == 0
  {
    if n >= 10 {
      DigitsShape(n / 10);
    }
  }

  /** Reading the digits back gives the number. */
  lemma {:induction false} ValueDigits(n: nat)
    ensures forall i :: 0 <= i < |Digits(n)| ==> IsDigit(Digits(n)[i])
    ensures Value(Digits(n)) == n
  {
    DigitsShape(n);
    if n >= 10 {
      ValueDigits(n / 10);
      var d := Digits(n);
      assert d[..|d| - 1] == Digits(n / 10);
    }
  }

  /** The printed form of an integer parses back to it. */
  lemma ParseFromInt(n: int)
    ensures Parse(FromInt(n)) == Some(n)
  {
    if n < 0 {
      ValueDigits(-n);
      assert FromInt(n)[1..] == Digits(-n);
    } else {
      ValueDigits(n);
    }
  }

  /** Printed integers hold only digits and a leading minus sign; in particular no line break. */
  lemma FromIntAlphabet(n: int)
    ensures forall i :: 0 <= i < |FromInt(n)| ==> IsDigit(FromInt(n)[i]) || (i == 0 && FromInt(n)[i] == '-')
    ensures '\n' !in FromInt(n)
  {
    if n < 0 {
      DigitsShape(-n);
      assert forall i :: 1 <= i < |FromInt(n)| ==> FromInt(n)[i] == Digits(-n)[i - 1];
    } else {
      DigitsShape(n);
    }
  }
}
