/** Decimal digits and what they denote. */
module Decimals {
  import opened Words

  /** The number a string of decimal digits denotes. */
  function DigitsValue(s: string): int {
    if s == [] then 0 else 10 * DigitsValue(s[..|s| - 1]) + (s[|s| - 1] as int - '0' as int)
  }

  predicate IsDigit(c: char) {
    '0' <= c <= '9'
  }

  function DigitChar(d: nat): (c: char)
    requires d < 10
    ensures IsDigit(c)
  {
    '0' + d as char
  }

  predicate AllDigits(data: string) {
    forall i :: 0 <= i < |data| ==> IsDigit(data[i])
  }

  /** `x * 10^j` */
  ghost function Times(x: int, j: nat): int {
    if j == 0 then x else 10 * Times(x, j - 1)
  }

  lemma {:induction false} TimesAdd(x: int, y: int, j: nat)
    ensures Times(x + y, j) == Times(x, j) + Times(y, j)
  {
    if j == 0 {
    } else {
      TimesAdd(x, y, j - 1);
    }
  }

  /** Replacing the digit at `i` changes the number by the difference at its place. */
  lemma {:induction false} DigitsUpdate(s: string, i: nat, c: char)
    requires i < |s|
    ensures DigitsValue(s[i := c]) == DigitsValue(s) + Times(c as int - s[i] as int, |s| - 1 - i)
  {
    var n := |s| - 1;
    if i < n {
      DigitsUpdate(s[..n], i, c);
      assert s[i := c][..n] == s[..n][i := c];
    } else {
      assert s[i := c][..n] == s[..n];
    }
  }

  lemma {:induction false} TimesIsPow(x: int, j: nat)
    ensures Times(x, j) == x * Pow(10, j)
  {
    if j == 0 {
    } else {
      TimesIsPow(x, j - 1);
      MulAssoc(10, x, Pow(10, j - 1));
      MulAssoc(x, 10, Pow(10, j - 1));
    }
  }

  /** A number with a zero in front is smaller than any of as many digits without. */
  lemma {:induction false} LeadingZero(s: string)
    requires s != "" && AllDigits(s)
    ensures s[0] == '0' <==> DigitsValue(s) < Pow(10, |s| - 1)
    ensures 0 <= DigitsValue(s) < Pow(10, |s|)
  {
    var t := s[..|s| - 1];
    if t == "" {
      assert DigitsValue(t) == 0 && Pow(10, 0) == 1 && Pow(10, 1) == 10;
    } else {
      LeadingZero(t);
    }
  }

  /** A digit followed by zeros. */
  lemma {:induction false} RoundNumber(s: string)
    requires s != [] && forall i :: 1 <= i < |s| ==> s[i] == '0'
    ensures DigitsValue(s) == Times(s[0] as int - '0' as int, |s| - 1)
  {
    if |s| > 1 {
      RoundNumber(s[..|s| - 1]);
    } else {
      assert s[..0] == [];
    }
  }
}
