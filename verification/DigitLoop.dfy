/** The digit loop of fmt's `fallback_format`: Steele and White's free-format printing over `bigint`s. */
module DigitLoop {
  import opened Words
  import opened Decimals
  import opened BigNat
  import opened BigintLemmas
  import opened BigintModel

  /** The scaled problem: `num / den` is to be printed, to within `lower` below and `upper` above;
      the ends themselves count when `even`. But a remainder equal to `lower` is noticed only when the
      numbers are stored so that `tight`. */
  datatype Scaled = Scaled(num: int, den: int, lower: int, upper: int, even: bool, tight: bool) {
    /** The number has not much more than one digit before the point, and its gap is not too wide. */
    ghost predicate Estimated() {
      && 0 < lower && 0 < upper && 0 < den && 2 * lower <= num
      && num + upper <= 20 * den && (even ==> num + upper < 20 * den)
    }

    /** The upper end reaches `x` units. */
    predicate Reaches(x: int) {
      if even then num + upper >= x * den else num + upper > x * den
    }

    /** `m` of the units that are left after `j` further digits is a number to be printed. */
    ghost predicate Admits(m: int, j: nat) {
      && (if even && tight then Times(num - lower, j) <= m * den else Times(num - lower, j) < m * den)
      && (if even then m * den <= Times(num + upper, j) else m * den < Times(num + upper, j))
    }
  }

  lemma TimesNear(p: Scaled, j: nat)
    ensures Times(p.num - p.lower, j) == Times(p.num, j) - Times(p.lower, j)
    ensures Times(p.num + p.upper, j) == Times(p.num, j) + Times(p.upper, j)
  {
    TimesAdd(p.num, p.upper, j);
    TimesAdd(p.num - p.lower, p.lower, j);
  }

  /** Digits, but for the first character, which may stand for 10 and more. */
  predicate Digits(data: string) {
    data != "" ==> data[0] >= '0' && forall i :: 0 < i < |data| ==> IsDigit(data[i])
  }

  /** The first character is a digit, but not zero, when the number has one digit before the point. */
  predicate Leading(p: Scaled, c: char) {
    && (c == '0' <==> !p.Reaches(1))
    && (!p.Reaches(10) ==> c <= '9')
    && (p.Reaches(10) && 20 * p.lower <= p.num && 20 * p.upper <= p.num ==> c > '9')
  }

  /** What is promised of the printed digits. */
  ghost predicate Printed(p: Scaled, data: string) {
    && data != [] && Digits(data) && Leading(p, data[0])
    && p.Admits(DigitsValue(data), |data| - 1)
    && Shortest(p, |data| - 1)
    && Nearest(p, DigitsValue(data), |data| - 1)
  }

  /** No number of fewer digits will do. */
  ghost predicate Shortest(p: Scaled, n: nat) {
    forall m: int, j: nat {:trigger p.Admits(m, j)} :: j < n ==> !p.Admits(m, j)
  }

  /** Of all numbers of this many digits, the nearest is taken, and the even one of two equally near. */
  ghost predicate Nearest(p: Scaled, m: int, j: nat) {
    forall m' {:trigger p.Admits(m', j)} :: m' != m && p.Admits(m', j) && p.Admits(m, j) ==>
      var d, d' := Distance(p, m, j), Distance(p, m', j);
      d < d' || (d == d' && m % 2 == 0)
  }

  ghost function Distance(p: Scaled, m: int, j: nat): int {
    var d := m * p.den - Times(p.num, j);
    if d < 0 then -d else d
  }

  predicate Separate(numerator: Bigint, denominator: Bigint, lower: Bigint, upper: Bigint) {
    && numerator != denominator && numerator != lower && numerator != upper
    && denominator != lower && denominator != upper
  }

  /** However often it is multiplied by ten, the numerator is not equal to the denominator while it is
      stored in fewer bigits. */
  ghost predicate Comparable(numerator: Bigint, denominator: Bigint)
    reads numerator, denominator
  {
    || numerator.exp <= denominator.exp
    || |denominator.bigits| == 1
    || forall j: nat :: Times(numerator.Value(), j) != denominator.Value()
  }

  /** How the four `bigint`s of the loop are stored; `upper` may be `lower` itself. */
  ghost predicate Shapes(numerator: Bigint, denominator: Bigint, lower: Bigint, upper: Bigint, tight: bool)
    reads numerator, denominator, lower, upper
  {
    && Separate(numerator, denominator, lower, upper)
    && Top(denominator.bigits) && Top(lower.bigits) && Top(upper.bigits)
    && Operand(numerator.bigits, numerator.exp, denominator.exp)
    && numerator.exp <= lower.exp && Comparable(numerator, denominator)
    && Alike(numerator, denominator, lower, tight)
  }

  /** When `tight`, numerator and lower gap keep the same exponent. Otherwise that of the numerator is
      lower from the first subtraction on, and before that the numerator is larger than the gap. */
  ghost predicate Alike(numerator: Bigint, denominator: Bigint, lower: Bigint, tight: bool)
    reads numerator, denominator, lower
  {
    if tight then numerator.exp == lower.exp <= denominator.exp
    else numerator.exp < lower.exp || (denominator.exp < numerator.exp && numerator.Value() > lower.Value())
  }

  lemma ComparableLengths(numerator: Bigint, denominator: Bigint)
    requires Comparable(numerator, denominator) && Top(denominator.bigits)
    requires Operand(numerator.bigits, numerator.exp, denominator.exp)
    ensures numerator.Value() == denominator.Value() ==> |numerator.bigits| >= |denominator.bigits|
  {
    if numerator.exp <= denominator.exp {
      StoredAtLeast(numerator.bigits, numerator.exp, denominator.bigits, denominator.exp);
    } else if |denominator.bigits| != 1 {
      assert Times(numerator.Value(), 0) != denominator.Value();
    }
  }

  /** One digit and the two tests for the end. */
  method NextDigit(numerator: Bigint, denominator: Bigint, lower: Bigint, upper: Bigint, even: bool,
                   ghost tight: bool)
    returns (digit: nat, low: bool, high: bool)
    requires Shapes(numerator, denominator, lower, upper, tight)
    requires numerator.Value() < 20 * denominator.Value()
    modifies numerator
    ensures digit * denominator.Value() + numerator.Value() == old(numerator.Value())
    ensures 0 <= numerator.Value() < denominator.Value()
    ensures Shapes(numerator, denominator, lower, upper, tight)
    ensures low <==> numerator.Value() < lower.Value()
                     || (tight && even && numerator.Value() == lower.Value())
    ensures high <==> if even then numerator.Value() + upper.Value() >= denominator.Value()
                              else numerator.Value() + upper.Value() > denominator.Value()
  {
    ComparableLengths(numerator, denominator);
    NotZero(denominator.bigits, denominator.exp);
    digit := numerator.DivmodAssign(denominator);
    var carry := if even then 1 else 0;
    var c := Bigint.Compare(numerator, lower);
    StoredAtLeast(numerator.bigits, numerator.exp, lower.bigits, lower.exp);
    if tight {
      StoredAlike(numerator.bigits, lower.bigits, lower.exp);
    } else {
      StoredLonger(numerator.bigits, numerator.exp, lower.bigits, lower.exp);
    }
    low := c - carry < 0;
    var c' := Bigint.AddCompare(numerator, upper, denominator);
    high := c' + carry > 0;
  }

  /** Equal numbers stored at a lower exponent take at least as many bigits. */
  lemma StoredAtLeast(s: seq<u32>, e: nat, t: seq<u32>, f: nat)
    requires Operand(s, e, f) && Top(t) && e <= f
    ensures Shift(Val(s), e) == Shift(Val(t), f) ==> |s| >= |t|
  {
    CompareDecides(s, e, t, f);
  }

  /** Equal numbers stored at a lower exponent take more bigits. */
  lemma StoredLonger(s: seq<u32>, e: nat, t: seq<u32>, f: nat)
    requires Operand(s, e, f) && Top(t) && e <= f
    ensures e < f && Shift(Val(s), e) == Shift(Val(t), f) ==> |s| > |t|
  {
    if |s| <= |t| && e < f {
      LongerIsLarger(t, f, s, e);
    }
  }

  /** Equal numbers stored at the same exponent take equally many. */
  lemma StoredAlike(s: seq<u32>, t: seq<u32>, e: nat)
    requires Operand(s, e, e) && Top(t)
    ensures Shift(Val(s), e) == Shift(Val(t), e) ==> |s| == |t|
  {
    if |s| > |t| && Top(s) {
      LongerIsLarger(s, e, t, e);
    } else if |t| > |s| {
      LongerIsLarger(t, e, s, e);
    }
  }

  /** Before digit `j`: `q` is what the digits so far denote, `n` is the numerator. */
  ghost predicate Reached(p: Scaled, j: nat, q: int, n: int) {
    && Times(p.num, j) == (10 * q) * p.den + n && 0 <= n
    && (if j == 0 then n + Times(p.upper, j) <= 20 * p.den else n + Times(p.upper, j) <= 10 * p.den)
    && (j > 0 && p.even ==> n + Times(p.upper, j) < 10 * p.den)
    && Shortest(p, j)
  }

  /** After the division: the digits up to digit `j` denote `m`, and `r` is left over. */
  ghost predicate Divided(p: Scaled, j: nat, m: int, r: int) {
    && Times(p.num, j) == m * p.den + r && 0 <= r < p.den
    && 0 < Times(p.lower, j) && 0 < Times(p.upper, j) && Shortest(p, j)
  }

  lemma {:induction false} TimesPositive(x: int, j: nat)
    requires x > 0
    ensures Times(x, j) >= x
  {
    if j == 0 {
    } else {
      TimesPositive(x, j - 1);
    }
  }

  /** What the tests say of the rest `r`. */
  ghost predicate Flagged(p: Scaled, j: nat, r: int, low: bool, high: bool) {
    && (low <==> r < Times(p.lower, j) || (p.tight && p.even && r == Times(p.lower, j)))
    && (high <==> if p.even then r + Times(p.upper, j) >= p.den else r + Times(p.upper, j) > p.den)
  }

  lemma DivideStep(p: Scaled, j: nat, q: int, n: int, digit: nat, r: int)
    requires p.Estimated() && Reached(p, j, q, n) && digit * p.den + r == n && 0 <= r < p.den
    ensures Divided(p, j, 10 * q + digit, r) && digit < 20
    ensures j > 0 ==> digit < 10
    ensures j > 0 && (if p.even then r + Times(p.upper, j) >= p.den else r + Times(p.upper, j) > p.den)
            ==> digit < 9
  {
    TimesPositive(p.lower, j);
    TimesPositive(p.upper, j);
    MulAdd(10 * q, digit, p.den);
    if digit >= 20 {
      MulMonotone(20, digit, p.den);
    } else if digit >= 10 {
      MulMonotone(10, digit, p.den);
    } else if digit >= 9 {
      MulMonotone(9, digit, p.den);
    }
  }

  /** The first digit, and what it becomes when the loop ends with it, by `up`. */
  lemma FirstDigit(p: Scaled, digit: nat, r: int, low: bool, high: bool, up: bool)
    requires p.Estimated() && digit * p.den + r == p.num && 0 <= r < p.den && digit < 20
    requires Flagged(p, 0, r, low, high) && (if up then high else low || !high) && (high && !low ==> up)
    ensures Leading(p, '0' + (if up then digit + 1 else digit) as char)
  {
    var d := if up then digit + 1 else digit;
    assert d == 0 <==> !p.Reaches(1) by {
      if digit > 0 {
        MulMonotone(1, digit, p.den);
      }
    }
    assert !p.Reaches(10) ==> d <= 9 by {
      if digit >= 10 {
        MulMonotone(10, digit, p.den);
      }
    }
    assert p.Reaches(10) && 20 * p.lower <= p.num && 20 * p.upper <= p.num ==> d > 9 by {
      if digit < 9 {
        MulMonotone(digit, 8, p.den);
      }
    }
  }

  /** With neither bound reached, no number of this many digits will do, and the loop goes on. */
  lemma GoOn(p: Scaled, j: nat, m: int, r: int)
    requires Divided(p, j, m, r) && Flagged(p, j, r, false, false)
    ensures Reached(p, j + 1, m, 10 * r)
  {
    MulAssoc(10, m, p.den);
    forall m': int, j': nat {:trigger p.Admits(m', j')} | j' < j + 1
      ensures !p.Admits(m', j')
    {
      if j' == j {
        TimesNear(p, j);
        if m' <= m {
          MulMonotone(m', m, p.den);
        } else {
          MulMonotone(m + 1, m', p.den);
          MulAdd(m, 1, p.den);
        }
      }
    }
  }

  /** Stopping on the number below. */
  lemma StopBelow(p: Scaled, j: nat, m: int, r: int, high: bool)
    requires Divided(p, j, m, r) && Flagged(p, j, r, true, high)
    requires high ==> 2 * r < p.den || (2 * r == p.den && m % 2 == 0)
    ensures p.Admits(m, j) && Nearest(p, m, j)
  {
    TimesNear(p, j);
    forall m' | m' != m && p.Admits(m', j) && p.Admits(m, j)
      ensures Distance(p, m, j) < Distance(p, m', j) || (Distance(p, m, j) == Distance(p, m', j) && m % 2 == 0)
    {
      Apart(m, m', p.den);
    }
  }

  /** Stopping on the number above, which is `m`; `s` is what it is too large by. */
  lemma StopAbove(p: Scaled, j: nat, m: int, s: int, low: bool)
    requires Divided(p, j, m - 1, p.den - s) && Flagged(p, j, p.den - s, low, true)
    requires low ==> 2 * s < p.den || (2 * s == p.den && m % 2 == 0)
    ensures p.Admits(m, j) && Nearest(p, m, j)
  {
    TimesNear(p, j);
    MulAdd(m, -1, p.den);
    forall m' | m' != m && p.Admits(m', j) && p.Admits(m, j)
      ensures Distance(p, m, j) < Distance(p, m', j) || (Distance(p, m, j) == Distance(p, m', j) && m % 2 == 0)
    {
      Apart(m, m', p.den);
    }
  }

  /** Different multiples are at least one unit apart, and two if they are not neighbours. */
  lemma Apart(m: int, m': int, den: int)
    requires den > 0 && m != m'
    ensures m' == m + 1 ==> m' * den == m * den + den
    ensures m' > m + 1 ==> m' * den >= m * den + 2 * den
    ensures m' == m - 1 ==> m' * den == m * den - den
    ensures m' < m - 1 ==> m' * den <= m * den - 2 * den
  {
    MulAdd(m, m' - m, den);
    if m' > m + 1 {
      MulMonotone(2, m' - m, den);
    } else if m' < m - 1 {
      MulMonotone(m' - m, -2, den);
    }
  }

  /** Adds one to the last digit: `++data[num_digits - 1]`. */
  method Increment(data: string) returns (data': string)
    requires data != [] && Digits(data) && data[|data| - 1] < 'Z'
    requires |data| > 1 ==> data[|data| - 1] < '9'
    ensures |data'| == |data| && Digits(data') && DigitsValue(data') == DigitsValue(data) + 1
    ensures data'[0] == if |data| == 1 then data[0] + 1 as char else data[0]
  {
    var last := |data| - 1;
    data' := data[last := data[last] + 1 as char];
    assert data'[..last] == data[..last];
  }

  /** The digits after the division by which digit `|data| - 1` has come. */
  ghost predicate Pushed(p: Scaled, data: string, digit: nat, r: int) {
    && data != [] && Digits(data) && p.Estimated() && digit < 20
    && data[|data| - 1] == '0' + digit as char
    && Divided(p, |data| - 1, DigitsValue(data), r) && DigitsValue(data) % 2 == digit % 2
    && (if |data| == 1 then digit * p.den + r == p.num else Leading(p, data[0]))
  }

  /** Settles the last digit. */
  method RoundLast(data: string, digit: nat, low: bool, high: bool, numerator: Bigint,
                   denominator: Bigint, ghost p: Scaled)
    returns (data': string)
    requires Pushed(p, data, digit, numerator.Value()) && denominator.Value() == p.den
    requires |data| > 1 && high ==> digit < 9
    requires Operand(numerator.bigits, numerator.exp, denominator.exp) && Top(denominator.bigits)
    requires Flagged(p, |data| - 1, numerator.Value(), low, high) && (low || high)
    ensures Printed(p, data') && |data'| == |data|
  {
    ghost var j, m, r := |data| - 1, DigitsValue(data), numerator.Value();
    Parity(m, digit);
    hide Divided, Shortest, Nearest;
    if !low {
      Settle(p, data, digit, r, low, high, true);
      data' := Increment(data);
      return;
    }
    if high {
      var result := Bigint.AddCompare(numerator, numerator, denominator);
      if result > 0 || (result == 0 && digit % 2 != 0) {
        Settle(p, data, digit, r, low, high, true);
        data' := Increment(data);
        return;
      }
    }
    Settle(p, data, digit, r, low, high, false);
    data' := data;
  }

  /** Either end, with the first digit if it is the last one too. */
  lemma Settle(p: Scaled, data: string, digit: nat, r: int, low: bool, high: bool, up: bool)
    requires Pushed(p, data, digit, r) && Flagged(p, |data| - 1, r, low, high) && (low || high)
    requires if up then high && (low ==> 2 * r > p.den || (2 * r == p.den && digit % 2 != 0))
             else low && (high ==> 2 * r < p.den || (2 * r == p.den && digit % 2 == 0))
    ensures var m := DigitsValue(data) + if up then 1 else 0;
            p.Admits(m, |data| - 1) && Nearest(p, m, |data| - 1) && Shortest(p, |data| - 1)
    ensures Leading(p, if |data| == 1 && up then data[0] + 1 as char else data[0])
  {
    var j, m := |data| - 1, DigitsValue(data);
    Parity(m, digit);
    if up {
      StopAbove(p, j, m + 1, p.den - r, low);
    } else {
      StopBelow(p, j, m, r, high);
    }
    if |data| == 1 {
      FirstDigit(p, digit, r, low, high, up);
    }
  }

  /** The state at the head of the digit loop. */
  ghost predicate Running(numerator: Bigint, denominator: Bigint, lower: Bigint, upper: Bigint,
                          p: Scaled, data: string)
    reads numerator, denominator, lower, upper
  {
    && Shapes(numerator, denominator, lower, upper, p.tight) && p.Estimated() && denominator.Value() == p.den
    && lower.Value() == Times(p.lower, |data|) && upper.Value() == Times(p.upper, |data|)
    && Reached(p, |data|, DigitsValue(data), numerator.Value()) && Digits(data)
    && (data != [] ==> Leading(p, data[0]))
  }

  /** Appends one digit. */
  method AppendDigit(numerator: Bigint, denominator: Bigint, lower: Bigint, upper: Bigint,
                     even: bool, ghost p: Scaled, data: string)
    returns (data': string, digit: nat, low: bool, high: bool)
    requires Running(numerator, denominator, lower, upper, p, data) && even == p.even
    modifies numerator
    ensures |data'| == |data| + 1 && Pushed(p, data', digit, numerator.Value())
    ensures |data| > 0 && high ==> digit < 9
    ensures Flagged(p, |data|, numerator.Value(), low, high)
    ensures Shapes(numerator, denominator, lower, upper, p.tight)
  {
    hide Reached, Divided, Flagged, Digits, Leading, DigitsValue, Times, Scaled.Estimated;
    ghost var n := numerator.Value();
    Room(p, |data|, DigitsValue(data), n);
    digit, low, high := NextDigit(numerator, denominator, lower, upper, even, p.tight);
    Told(p, |data|, numerator.Value(), low, high);
    Appended(p, data, n, digit, numerator.Value(), low, high);
    data' := data + ['0' + digit as char];
  }

  lemma Room(p: Scaled, j: nat, q: int, n: int)
    requires p.Estimated() && Reached(p, j, q, n)
    ensures n < 20 * p.den
  {
    TimesPositive(p.upper, j);
  }

  lemma Told(p: Scaled, j: nat, r: int, low: bool, high: bool)
    requires low <==> r < Times(p.lower, j) || (p.tight && p.even && r == Times(p.lower, j))
    requires high <==> if p.even then r + Times(p.upper, j) >= p.den else r + Times(p.upper, j) > p.den
    ensures Flagged(p, j, r, low, high)
  {
  }

  lemma Appended(p: Scaled, data: string, n: int, digit: nat, r: int, low: bool, high: bool)
    requires p.Estimated() && Reached(p, |data|, DigitsValue(data), n) && Digits(data)
    requires data != [] ==> Leading(p, data[0])
    requires digit * p.den + r == n && 0 <= r < p.den && Flagged(p, |data|, r, low, high)
    ensures digit < 20 && Pushed(p, data + ['0' + digit as char], digit, r)
    ensures |data| > 0 && high ==> digit < 9
  {
    hide Leading, Divided, Reached, Shortest, Digits, DigitsValue, Times, Scaled.Estimated;
    DivideStep(p, |data|, DigitsValue(data), n, digit, r);
    PushDigit(data, digit);
    if data == [] {
      Nothing();
      AtFirst(p, n);
    }
  }

  lemma Nothing()
    ensures DigitsValue("") == 0
  {
  }

  lemma AtFirst(p: Scaled, n: int)
    requires Reached(p, 0, 0, n)
    ensures n == p.num
  {
  }

  lemma PushDigit(data: string, d: nat)
    requires Digits(data) && d < 20 && (data != [] ==> d < 10)
    ensures var data' := data + ['0' + d as char];
            && DigitsValue(data') == 10 * DigitsValue(data) + d && DigitsValue(data') % 2 == d % 2
            && Digits(data')
  {
    var data' := data + ['0' + d as char];
    assert data'[..|data|] == data && data'[|data|] as int - '0' as int == d;
    assert DigitsValue(data') == 10 * DigitsValue(data) + d;
    Parity(DigitsValue(data), d);
    hide DigitsValue;
    assert Digits(data');
  }

  lemma Parity(x: int, d: int)
    ensures (10 * x + d) % 2 == d % 2
    ensures (x + 1) % 2 == 1 - x % 2
  {
    assert d == 2 * (d / 2) + d % 2 && x == 2 * (x / 2) + x % 2;
    DivUnique(10 * x + d, 2, 5 * x + d / 2, d % 2);
    DivUnique(x + 1, 2, x / 2 + x % 2, 1 - x % 2);
  }

  method ScaleByTen(numerator: Bigint, denominator: Bigint, lower: Bigint, upper: Bigint, ghost tight: bool)
    requires Shapes(numerator, denominator, lower, upper, tight)
    modifies numerator, lower, upper
    ensures Shapes(numerator, denominator, lower, upper, tight)
    ensures numerator.Value() == 10 * old(numerator.Value())
    ensures lower.Value() == 10 * old(lower.Value()) && upper.Value() == 10 * old(upper.Value())
  {
    ghost var v := numerator.Value();
    numerator.Multiply32(10);
    lower.Multiply32(10);
    if upper != lower {
      upper.Multiply32(10);
    }
    if forall j: nat :: Times(v, j) != denominator.Value() {
      NeverMet(v, numerator.Value(), denominator.Value());
    }
  }

  /** One turn of the digit loop. */
  method PrintDigit(numerator: Bigint, denominator: Bigint, lower: Bigint, upper: Bigint,
                    even: bool, ghost p: Scaled, data: string)
    returns (data': string, done: bool)
    requires Running(numerator, denominator, lower, upper, p, data) && even == p.even
    modifies numerator, lower, upper
    ensures done ==> Printed(p, data')
    ensures !done ==> |data'| == |data| + 1 && Running(numerator, denominator, lower, upper, p, data')
    ensures !done ==> old(lower.Value()) < p.den && lower.Value() > old(lower.Value())
  {
    var t, digit, low, high := AppendDigit(numerator, denominator, lower, upper, even, p, data);
    done := low || high;
    if done {
      data' := RoundLast(t, digit, low, high, numerator, denominator, p);
    } else {
      GoOn(p, |data|, DigitsValue(t), numerator.Value());
      if data == [] {
        FirstDigit(p, digit, numerator.Value(), low, high, false);
      }
      ScaleByTen(numerator, denominator, lower, upper, p.tight);
      data' := t;
    }
  }

  method PrintDigits(numerator: Bigint, denominator: Bigint, lower: Bigint, upper: Bigint,
                     even: bool, exp10: int, ghost p: Scaled)
    returns (data: string, exp10': int)
    requires Shapes(numerator, denominator, lower, upper, p.tight) && p.Estimated()
    requires p == Scaled(numerator.Value(), denominator.Value(), lower.Value(), upper.Value(), even, p.tight)
    modifies numerator, lower, upper
    ensures Printed(p, data) && exp10' == exp10 - (|data| - 1)
  {
    data := "";
    var done := false;
    while !done
      invariant if done then Printed(p, data) else Running(numerator, denominator, lower, upper, p, data)
      decreases !done, p.den - lower.Value()
    {
      data, done := PrintDigit(numerator, denominator, lower, upper, even, p, data);
    }
    exp10' := exp10 - (|data| - 1);
  }

  lemma NeverMet(v: int, w: int, d: int)
    requires w == 10 * v && forall j: nat :: Times(v, j) != d
    ensures forall j: nat :: Times(w, j) != d
  {
    forall j: nat
      ensures Times(w, j) != d
    {
      TimesTenfold(v, j);
      assert Times(v, j + 1) != d;
    }
  }

  lemma {:induction false} TimesTenfold(x: int, j: nat)
    ensures Times(10 * x, j) == Times(x, j + 1)
  {
    if j == 0 {
    } else {
      TimesTenfold(x, j - 1);
    }
  }
}
