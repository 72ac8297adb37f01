/** fmt's 64-bit digit generation with a fixed number of digits, and how sure it is of the last one. */
module Grisu {
  import opened Words
  import opened Decimals

  datatype RoundDirection = Unknown | Up | Down

  /** fmt's `get_round_direction`: up or down only when every number within `error` of `remainder`
      would be rounded that way. */
  function GetRoundDirection(divisor: u64, remainder: u64, error: u64): (r: RoundDirection)
    requires remainder < divisor && error < divisor && error < divisor - error
    ensures r == Down <==> 2 * (remainder + error) <= divisor
    ensures r == Up <==> 2 * (remainder - error) >= divisor && r != Down
  {
    if remainder <= divisor - remainder && error * 2 <= divisor - remainder * 2 then Down
    else if remainder >= error && remainder - error >= divisor - (remainder - error) then Up
    else Unknown
  }

  /** Every number within `error` of `remainder` is rounded the same way. */
  ghost predicate Decided(divisor: int, remainder: int, error: int) {
    2 * error < divisor && (2 * (remainder + error) <= divisor || 2 * (remainder - error) >= divisor)
  }

  datatype Result = More | Done | Error

  function GrisuCountDigits(n: u32): (r: nat)
    ensures 1 <= r <= 10 && (n > 0 ==> Pow(10, r - 1) <= n) && n < Pow(10, r)
  {
    assert Pow(10, 4) == 10000;
    PowAdd(10, 4, 1);
    PowAdd(10, 4, 2);
    PowAdd(10, 4, 3);
    PowAdd(10, 4, 4);
    PowAdd(10, 8, 1);
    PowAdd(10, 8, 2);
    if n < 10 then 1
    else if n < 100 then 2
    else if n < 1000 then 3
    else if n < 10000 then 4
    else if n < 100000 then 5
    else if n < 1000000 then 6
    else if n < 10000000 then 7
    else if n < 100000000 then 8
    else if n < 1000000000 then 9
    else 10
  }

  /** How far `d` units of size `u` are from the number `a / b`, all scaled by `t` and by `b`. */
  ghost function Miss(d: int, u: int, a: int, b: int, t: nat): int {
    var m := (d * u) * b - a * t;
    if m < 0 then -m else m
  }

  /** `d` units are a correct rounding, to within half a unit, of every number `a / b` from `f - 1`
      to `f + 1`: of every number that `f` may stand for. */
  ghost predicate Sound(f: nat, t: nat, u: int, d: int) {
    forall a: int, b: int {:trigger Miss(d, u, a, b, t)} ::
      b > 0 && (f - 1) * b <= a <= (f + 1) * b ==> 2 * Miss(d, u, a, b, t) <= u * b
  }

  lemma SoundWhen(f: nat, t: nat, u: int, d: int, off: int)
    requires f * t == d * u + off && 2 * (off + t) <= u && 2 * (off - t) >= -u
    ensures Sound(f, t, u, d)
  {
    forall a: int, b: int {:trigger Miss(d, u, a, b, t)} | b > 0 && (f - 1) * b <= a <= (f + 1) * b
      ensures 2 * Miss(d, u, a, b, t) <= u * b
    {
      Deviation(f, t, d * u, off, a, b);
      MulMonotone(2 * (off + t), u, b);
      MulMonotone(-u, 2 * (off - t), b);
      NegateProduct(u, b);
      DoubleProduct(off + t, b);
      DoubleProduct(off - t, b);
    }
  }

  lemma NegateProduct(x: int, y: int)
    ensures (-x) * y == -(x * y)
  {
  }

  lemma DoubleProduct(x: int, y: int)
    ensures (2 * x) * y == 2 * (x * y)
  {
  }

  lemma Deviation(f: nat, t: nat, m: int, off: int, a: int, b: int)
    requires f * t == m + off && b > 0 && (f - 1) * b <= a <= (f + 1) * b
    ensures -((off + t) * b) <= m * b - a * t <= -((off - t) * b)
  {
    var e := a - f * b;
    MulAdd(f, 1, b);
    MulAdd(f, -1, b);
    MulMonotone(e, b, t);
    MulMonotone(-b, e, t);
    NegateProduct(b, t);
    assert a * t == (f * t) * b + e * t by {
      MulAdd(f * b, e, t);
      MulAssoc(f, b, t);
      MulAssoc(f, t, b);
    }
    MulAdd(m, off, b);
    MulAdd(off, t, b);
    MulAdd(off, 0 - t, b);
    NegateProduct(t, b);
  }

  /** Where the direction is not sure, no number of units is a correct rounding of all. */
  lemma NoneSound(f: nat, t: nat, u: int, d: int, rest: int)
    requires f * t == d * u + rest && 0 <= rest < u && 2 * (rest + t) > u && 2 * (rest - t) < u
    ensures forall d' :: !Sound(f, t, u, d')
  {
    hide Sound;
    forall d' ensures !Sound(f, t, u, d') {
      if Sound(f, t, u, d') {
        SoundEnds(f, t, u, d');
        MulAdd(d, d' - d, u);
        if d' > d + 1 {
          MulMonotone(2, d' - d, u);
        } else if d' < d {
          MulMonotone(d' - d, -1, u);
        }
        assert false;
      }
    }
  }

  lemma SoundEnds(f: nat, t: nat, u: int, d: int)
    requires Sound(f, t, u, d)
    ensures -u <= 2 * (d * u - f * t - t) && 2 * (d * u - f * t + t) <= u
  {
    MulAdd(f, 1, t);
    MulAdd(f, -1, t);
    assert 2 * Miss(d, u, f + 1, 1, t) <= u * 1;
    assert 2 * Miss(d, u, f - 1, 1, t) <= u * 1;
  }

  /** Rounded down or up on the strength of `GetRoundDirection`, with the error not larger than
      the scale says, the digits are a correct rounding. */
  lemma SoundRounding(f: nat, t: nat, u: nat, d: int, rest: int, up: bool)
    requires f * t == d * u + rest && 0 <= rest < u && 2 * t <= u
    requires if up then 2 * (rest - t) >= u else 2 * (rest + t) <= u
    ensures Sound(f, t, u, if up then d + 1 else d)
  {
    if up {
      MulAdd(d, 1, u);
      SoundWhen(f, t, u, d + 1, rest - u);
    } else {
      SoundWhen(f, t, u, d, rest);
    }
  }

  /** `d` units are a correct rounding of `f` itself. */
  ghost predicate Rounds(f: nat, t: nat, u: int, d: int) {
    2 * Miss(d, u, f, 1, t) <= u
  }

  lemma RoundsWhen(f: nat, t: nat, u: nat, d: int, rest: int, up: bool)
    requires f * t == d * u + rest && 0 <= rest < u
    requires if up then 2 * rest >= u else 2 * rest <= u
    ensures Rounds(f, t, u, if up then d + 1 else d)
  {
    MulAdd(d, 1, u);
  }

  predicate OnlyNines(s: string) {
    forall k :: 0 <= k < |s| ==> s[k] == '9'
  }

  /** `n` digits, the first of which is no zero; or a one and `n` zeros, when rounding has carried. */
  predicate Written(buf: string, n: nat) {
    && buf != "" && AllDigits(buf) && buf[0] != '0'
    && (|buf| == n || (|buf| == n + 1 && DigitsValue(buf) == Pow(10, n)))
  }

  /** fmt's `fixed_handler`; the first `size` characters of the buffer are `buf`. */
  class FixedHandler {
    var buf: string
    var precision: int
    const exp10: int
    const fixed: bool

    constructor (precision: int, exp10: int, fixed: bool)
      ensures buf == "" && this.precision == precision && this.exp10 == exp10 && this.fixed == fixed
    {
      buf := "";
      this.precision, this.exp10, this.fixed := precision, exp10, fixed;
    }

    method OnStart(divisor: u64, remainder: u64, error: u64, exp: int) returns (r: Result)
      requires buf == "" && remainder < divisor && error < divisor && error < divisor - error
      modifies this
      ensures precision == if fixed then old(precision) + exp + exp10 else old(precision)
      ensures r == More <==> !fixed || precision > 0
      ensures if r == Done && precision == 0 then buf == "0" || buf == "1" else buf == ""
      ensures r == Done && buf == "0" ==> 2 * (remainder + error) <= divisor
      ensures r == Done && buf == "1" ==> 2 * (remainder - error) >= divisor
      ensures r == Error <==> fixed && precision == 0 && !Decided(divisor, remainder, error)
    {
      if !fixed {
        return More;
      }
      precision := precision + exp + exp10;
      if precision > 0 {
        return More;
      }
      if precision < 0 {
        return Done;
      }
      var dir := GetRoundDirection(divisor, remainder, error);
      if dir == Unknown {
        return Error;
      }
      buf := buf + [if dir == Up then '1' else '0'];
      return Done;
    }

    method OnDigit(digit: char, divisor: u64, remainder: u64, error: u64, integral: bool)
      returns (r: Result, ghost up: bool)
      requires AllDigits(buf) && IsDigit(digit) && remainder < divisor
      requires integral ==> error == 1 && divisor > 2
      modifies this`buf
      ensures r == Error <==> |old(buf)| + 1 >= precision && !Decided(divisor, remainder, error)
      ensures r == More <==> |old(buf)| + 1 < precision
      ensures r != Done ==> buf == old(buf) + [digit] && !up
      ensures AllDigits(buf) && |old(buf)| < |buf| <= |old(buf)| + (if up then 2 else 1)
      ensures r == Done ==> DigitsValue(buf) == DigitsValue(old(buf) + [digit]) + (if up then 1 else 0)
      ensures (old(buf) + [digit])[0] != '0' ==> Written(buf, |old(buf)| + 1)
      ensures r == Done && up ==> 2 * (remainder - error) >= divisor
      ensures r == Done && !up ==> 2 * (remainder + error) <= divisor
    {
      up := false;
      buf := buf + [digit];
      if |buf| < precision {
        return More, false;
      }
      if !integral {
        if error >= divisor || error >= divisor - error {
          return Error, false;
        }
      }
      var dir := GetRoundDirection(divisor, remainder, error);
      if dir != Up {
        return if dir == Down then Done else Error, false;
      }
      up := true;
      LeadingZero(buf);
      Increment();
      LeadingZero(buf);
      return Done, true;
    }

    /** Adds one to the digits, carrying to the left, and into a new digit if they were all nines. */
    method Increment()
      requires buf != "" && AllDigits(buf)
      modifies this`buf
      ensures AllDigits(buf) && DigitsValue(buf) == DigitsValue(old(buf)) + 1
      ensures |buf| == |old(buf)| + if OnlyNines(old(buf)) then 1 else 0
      ensures old(buf)[0] != '0' ==> buf[0] != '0'
    {
      ghost var d, n := DigitsValue(buf), |buf|;
      var i := |buf| - 1;
      RaiseLast(buf);
      hide DigitsValue;
      buf := buf[i := buf[i] + 1 as char];
      while i > 0 && buf[i] > '9'
        invariant 0 <= i < n == |buf| && DigitsValue(buf) == d + 1
        invariant forall k :: 0 <= k < n && k != i ==> IsDigit(buf[k])
        invariant '0' <= buf[i] <= ':'
        invariant buf[i] == ':' ==> forall k :: i < k < n ==> buf[k] == '0'
        invariant buf[i] == old(buf)[i] + 1 as char && forall k :: 0 <= k < i ==> buf[k] == old(buf)[k]
        invariant forall k :: i < k < n ==> old(buf)[k] == '9'
      {
        CarryLeft(buf, i);
        buf := buf[i := '0'];
        buf := buf[i - 1 := buf[i - 1] + 1 as char];
        i := i - 1;
      }
      if buf[0] > '9' {
        NewDigit(buf);
        buf := buf[0 := '1'];
        buf := buf + ['0'];
      }
    }
  }

  lemma RaiseLast(s: string)
    requires s != "" && IsDigit(s[|s| - 1])
    ensures DigitsValue(s[|s| - 1 := s[|s| - 1] + 1 as char]) == DigitsValue(s) + 1
  {
    DigitsUpdate(s, |s| - 1, s[|s| - 1] + 1 as char);
  }

  lemma CarryLeft(s: string, i: nat)
    requires 0 < i < |s| && s[i] == ':' && IsDigit(s[i - 1])
    ensures DigitsValue(s[i := '0'][i - 1 := s[i - 1] + 1 as char]) == DigitsValue(s)
  {
    var s' := s[i := '0'];
    DigitsUpdate(s, i, '0');
    DigitsUpdate(s', i - 1, s[i - 1] + 1 as char);
    TimesAdd(1, -1, |s| - 1 - i);
    TimesZero(|s| - 1 - i);
    TimesTen(|s| - 1 - i);
  }

  lemma {:induction false} TimesZero(j: nat)
    ensures Times(0, j) == 0
  {
    if j == 0 {
    } else {
      TimesZero(j - 1);
    }
  }

  lemma {:induction false} TimesTen(j: nat)
    ensures Times(-10, j) == 10 * Times(-1, j) && Times(10, j) == 10 * Times(1, j)
  {
    if j == 0 {
    } else {
      TimesTen(j - 1);
    }
  }

  lemma NewDigit(s: string)
    requires s != "" && s[0] == ':' && forall k :: 0 < k < |s| ==> s[k] == '0'
    ensures DigitsValue(s[0 := '1'] + ['0']) == DigitsValue(s)
  {
    var s' := s[0 := '1'];
    RoundNumber(s);
    RoundNumber(s');
    TimesTen(|s| - 1);
    AppendZero(s');
    hide DigitsValue;
  }

  lemma AppendZero(s: string)
    ensures DigitsValue(s + ['0']) == 10 * DigitsValue(s)
  {
    assert (s + ['0'])[..|s|] == s;
  }

  // The digit generator. `one` is `2^s`, the value of the first fractional bit.

  predicate IsOne(one: nat, s: nat) {
    32 <= s <= 60 && one == Pow(2, s)
  }

  lemma OneBounds(one: nat, s: nat)
    requires IsOne(one, s)
    ensures 0x1_0000_0000 <= one <= 0x1000_0000_0000_0000
  {
    hide Pow;
    PowWord();
    PowMonotone(2, 32, s);
    PowMonotone(2, s, 60);
    PowSixty();
  }

  lemma PowSixty()
    ensures Pow(2, 60) == 0x1000_0000_0000_0000
  {
    assert Pow(2, 4) == 16;
    hide Pow;
    PowWord();
    PowAdd(2, 4, 4);
    PowAdd(2, 8, 8);
    PowAdd(2, 16, 8);
    PowAdd(2, 24, 4);
    PowAdd(2, 32, 28);
  }

  /** The digits so far, at place `10^exp`, and what is left of `f`. */
  ghost predicate Split(f: nat, one: nat, exp: nat, d: int, rest: int) {
    f == d * Times(one, exp) + rest && 0 <= rest < Times(one, exp)
  }

  /** As `Split`, after `k` digits of the fraction. */
  ghost predicate SplitFraction(f: nat, one: nat, k: nat, d: int, rest: int) {
    f * Pow(10, k) == d * one + rest && 0 <= rest < one
  }

  /** `d` units of the place `10^exp` are a correct rounding of whatever `f` may stand for. */
  ghost predicate Correct(f: nat, one: nat, exp: int, d: int) {
    if exp >= 0 then Sound(f, 1, Times(one, exp), d) else Sound(f, Pow(10, -exp), one, d)
  }

  /** They are one of `f` itself. */
  ghost predicate Near(f: nat, one: nat, exp: int, d: int) {
    if exp >= 0 then Rounds(f, 1, Times(one, exp), d) else Rounds(f, Pow(10, -exp), one, d)
  }

  /** How the digit loops end when the last digit is at place `10^exp`: with `d` when `done`, in an
      error otherwise. Down to 19 digits of the fraction they are done exactly when there is a correct
      rounding. Beyond, there never is one, but the error is known only modulo 2^64. */
  ghost predicate Outcome(f: nat, one: nat, exp: int, done: bool, d: int) {
    && one > 0 && (done ==> Near(f, one, exp, d))
    && (done && exp >= -19 ==> Correct(f, one, exp, d))
    && (!done || exp < -19 ==> forall d' :: !Correct(f, one, exp, d'))
    && (exp < -19 ==>
          (done <==> Decided(one, f * Pow(10, -exp) % one, Pow(10, -exp) % 0x1_0000_0000_0000_0000)))
    && (exp <= -64 ==> done)
  }

  lemma IntegralStep(f: nat, one: nat, exp: nat, d: int, digit: nat, integral: nat, fractional: nat)
    requires 0 < exp && 0 <= fractional < one && integral < Pow(10, exp - 1)
    requires Split(f, one, exp, d, (digit * Pow(10, exp - 1) + integral) * one + fractional)
    ensures Split(f, one, exp - 1, 10 * d + digit, integral * one + fractional)
    ensures Pow(10, exp - 1) * one == Times(one, exp - 1)
  {
    var p, u := Pow(10, exp - 1), Times(one, exp - 1);
    hide Pow, Times;
    TimesIsPow(one, exp - 1);
    SplitStep(d, u, digit, integral, p, one);
    MulMonotone(integral + 1, p, one);
    MulAdd(integral, 1, one);
    TimesNext(one, exp - 1);
  }

  lemma PowTen(n: nat)
    ensures Pow(10, n + 1) == 10 * Pow(10, n)
  {
  }

  lemma TimesNext(x: int, n: nat)
    ensures Times(x, n + 1) == 10 * Times(x, n)
  {
  }

  lemma DigitSplit(x: nat, p: nat, q: int, r: int)
    requires p > 0 && q == x / p && r == x % p
    ensures x == q * p + r && 0 <= q && 0 <= r < p && (x < 10 * p ==> q < 10)
  {
    assert x == q * p + r;
    if q >= 10 {
      MulMonotone(10, q, p);
    }
  }

  lemma SplitStep(d: int, u: int, q: int, r: int, p: int, one: int)
    requires u == one * p
    ensures d * (10 * u) + (q * p + r) * one == (10 * d + q) * u + r * one
  {
    MulAdd(q * p, r, one);
    MulAssoc(q, p, one);
    MulAdd(10 * d, q, u);
    MulAssoc(d, 10, u);
  }

  lemma FractionStep(f: nat, one: nat, k: nat, d: int, fractional: nat, q: int, r: int)
    requires SplitFraction(f, one, k, d, fractional) && fractional * 10 == q * one + r && 0 <= r < one
    ensures SplitFraction(f, one, k + 1, 10 * d + q, r)
  {
    hide Pow;
    PowTen(k);
    MulAssoc(f, 10, Pow(10, k));
    MulAssoc(10, f, Pow(10, k));
    MulAssoc(10, d, one);
    MulAdd(10 * d, q, one);
  }

  lemma FinishIntegral(f: nat, one: nat, exp: nat, d: int, rest: int, done: bool, up: bool)
    requires one > 0 && Split(f, one, exp, d, rest) && 2 < Times(one, exp)
    requires done <==> Decided(Times(one, exp), rest, 1)
    requires done ==> if up then 2 * (rest - 1) >= Times(one, exp) else 2 * (rest + 1) <= Times(one, exp)
    ensures Outcome(f, one, exp, done, if up then d + 1 else d)
  {
    hide Pow, Times, Sound, Rounds;
    if done {
      SoundRounding(f, 1, Times(one, exp), d, rest, up);
      RoundsWhen(f, 1, Times(one, exp), d, rest, up);
    } else {
      NoneSound(f, 1, Times(one, exp), d, rest);
    }
  }

  lemma FinishFraction(f: nat, one: nat, s: nat, k: nat, error: nat, d: int, rest: int, done: bool, up: bool)
    requires IsOne(one, s) && one > 0 && k > 0 && SplitFraction(f, one, k, d, rest)
    requires WrappedError(k, error) && (done <==> Decided(one, rest, error))
    requires done ==> if up then 2 * (rest - error) >= one else 2 * (rest + error) <= one
    ensures Outcome(f, one, -(k as int), done, if up then d + 1 else d)
  {
    hide Pow, Sound, Rounds, Miss;
    OneBounds(one, s);
    if done {
      RoundsWhen(f, Pow(10, k), one, d, rest, up);
    }
    DivUnique(f * Pow(10, k), one, d, rest);
    if k <= 19 && done {
      SoundRounding(f, Pow(10, k), one, d, rest, up);
    } else {
      NotHalf(k, s);
      NoneSound(f, Pow(10, k), one, d, rest);
    }
  }

  /** Twice a power of ten is no power of two. */
  lemma NotHalf(k: nat, s: nat)
    requires k > 0
    ensures 2 * Pow(10, k) != Pow(2, s)
  {
    TwoByFive(s);
    PowTen(k - 1);
    TenfoldByFive(Pow(10, k - 1));
  }

  lemma TenfoldByFive(x: nat)
    ensures (2 * (10 * x)) % 5 == 0
  {
    DivUnique(2 * (10 * x), 5, 4 * x, 0);
  }

  lemma {:induction false} TwoByFive(s: nat)
    ensures Pow(2, s) % 5 != 0
  {
    if s == 0 {
    } else {
      TwoByFive(s - 1);
      TwofoldByFive(Pow(2, s - 1));
    }
  }

  lemma TwofoldByFive(x: nat)
    requires x % 5 != 0
    ensures (2 * x) % 5 != 0
  {
    var q := 2 * x / 5;
    if (2 * x) % 5 == 0 {
      DivUnique(x, 5, 3 * q - x, 0);
    }
  }

  lemma StartSplit(f: u64, one: nat, exp: nat)
    requires one > 0 && exp > 0 && Pow(10, exp - 1) <= f / one < Pow(10, exp)
    ensures Split(f, one, exp, 0, f) && f == (f / one) * one + f % one && 0 <= f % one < one
    ensures Pow(10, exp - 1) * one == Times(one, exp - 1) <= f
    ensures f / 10 < Times(one, exp - 1)
  {
    var q, r := f / one, f % one;
    DigitSplit(f, one, q, r);
    StartBounds(f, one, q, r, exp);
  }

  lemma StartBounds(f: nat, one: nat, q: nat, r: nat, exp: nat)
    requires f == q * one + r && r < one && exp > 0 && Pow(10, exp - 1) <= q < Pow(10, exp)
    ensures Split(f, one, exp, 0, f) && Pow(10, exp - 1) * one == Times(one, exp - 1) <= f
    ensures f / 10 < Times(one, exp - 1)
  {
    hide Pow, Times;
    TimesIsPow(one, exp);
    TimesIsPow(one, exp - 1);
    TimesNext(one, exp - 1);
    MulMonotone(q + 1, Pow(10, exp), one);
    MulMonotone(Pow(10, exp - 1), q, one);
    MulAdd(q, 1, one);
  }

  /** Rounding to the place above the first digit, from a tenth of the number. */
  lemma StartSound(f: nat, u: nat, divisor: nat, up: bool)
    requires u == 10 * divisor && f < u
    requires if up then 2 * (f / 10 - 10) >= divisor else 2 * (f / 10 + 10) <= divisor
    ensures Sound(f, 1, u, if up then 1 else 0)
  {
    SoundRounding(f, 1, u, 0, f, up);
  }

  /** One step of the `switch` over the digit counts. */
  method DivmodIntegral(integral: u32, exp: nat) returns (digit: nat, rest: u32)
    requires 0 < exp && integral < Pow(10, exp)
    ensures digit < 10 && rest < Pow(10, exp - 1) && integral == digit * Pow(10, exp - 1) + rest
  {
    PowPositive(10, exp - 1);
    PowTen(exp - 1);
    var p := Pow(10, exp - 1);
    digit, rest := integral / p, integral % p;
    DigitSplit(integral, p, digit, rest);
  }

  /** What the loop over the integral digits keeps. */
  ghost predicate Integral(f: nat, one: nat, exp: nat, d: int, integral: nat, fractional: nat) {
    && 1 <= exp <= 10 && integral < Pow(10, exp) && fractional < one
    && Split(f, one, exp, d, integral * one + fractional) && Times(one, exp - 1) <= f
  }

  lemma NextIntegral(f: nat, one: nat, exp: nat, d: int, integral: nat, fractional: nat,
                     digit: nat, rest: nat)
    requires Integral(f, one, exp, d, integral, fractional)
    requires rest < Pow(10, exp - 1) && integral == digit * Pow(10, exp - 1) + rest
    ensures Split(f, one, exp - 1, 10 * d + digit, rest * one + fractional)
    ensures Pow(10, exp - 1) * one == Times(one, exp - 1) <= f && one <= Times(one, exp - 1)
    ensures 0 <= rest * one + fractional < Times(one, exp - 1)
    ensures exp > 1 ==> Integral(f, one, exp - 1, 10 * d + digit, rest, fractional)
    ensures exp == 1 ==> SplitFraction(f, one, 0, 10 * d + digit, fractional)
  {
    IntegralStep(f, one, exp, d, digit, rest, fractional);
    TimesGrows(one, exp - 1);
  }

  lemma IntegralParts(f: nat, one: nat, exp: nat, d: int, integral: nat, fractional: nat)
    requires Integral(f, one, exp, d, integral, fractional)
    ensures 1 <= exp <= 10 && integral < Pow(10, exp) && fractional < one
  {
  }

  /** One turn of the loop over the integral digits. */
  method IntegralDigit(f: u64, one: u64, ghost s: nat, integral: u32, fractional: u64, exp: nat,
                       handler: FixedHandler)
    returns (result: Result, rest: u32)
    requires IsOne(one, s) && AllDigits(handler.buf)
    requires Integral(f, one, exp, DigitsValue(handler.buf), integral, fractional)
    requires handler.buf != "" ==> handler.buf[0] != '0'
    modifies handler`buf
    ensures AllDigits(handler.buf) && Written(handler.buf, |old(handler.buf)| + 1)
    ensures handler.buf != "" && handler.buf[0] != '0'
    ensures result == More <==> |old(handler.buf)| + 1 < handler.precision
    ensures result == More ==> |handler.buf| == |old(handler.buf)| + 1
    ensures result == More && exp > 1 ==>
            Integral(f, one, exp - 1, DigitsValue(handler.buf), rest, fractional)
    ensures result == More && exp == 1 ==> SplitFraction(f, one, 0, DigitsValue(handler.buf), fractional)
    ensures result != More ==> Outcome(f, one, exp - 1, result == Done, DigitsValue(handler.buf))
  {
    hide Pow, Times, Sound, Split, SplitFraction, Outcome, Decided, DigitsValue, Integral, Written;
    OneBounds(one, s);
    ghost var d := DigitsValue(handler.buf);
    IntegralParts(f, one, exp, d, integral, fractional);
    var digit;
    digit, rest := DivmodIntegral(integral, exp);
    NextIntegral(f, one, exp, d, integral, fractional, digit, rest);
    var remainder: u64 := rest * one + fractional;
    var divisor: u64 := Pow(10, exp - 1) * one;
    PushDigits(handler.buf, digit);
    if handler.buf == "" {
      FirstNotZero(f, one, exp - 1, digit, rest, fractional);
    }
    result := PassIntegral(f, one, exp - 1, 10 * d + digit, DigitChar(digit), divisor, remainder, handler);
    WrittenFirst(handler.buf, |old(handler.buf)| + 1);
  }

  lemma WrittenFirst(buf: string, n: nat)
    requires Written(buf, n)
    ensures buf != "" && buf[0] != '0'
  {
  }

  lemma FirstNotZero(f: nat, one: nat, exp: nat, digit: nat, rest: nat, fractional: nat)
    requires Split(f, one, exp, 10 * DigitsValue("") + digit, rest * one + fractional) && Times(one, exp) <= f
    ensures digit > 0
  {
  }

  /** The call of `on_digit` for an integral digit. */
  method PassIntegral(f: u64, one: u64, ghost exp: nat, ghost d: int, digit: char, divisor: u64,
                      remainder: u64, handler: FixedHandler)
    returns (result: Result)
    requires 2 < one <= divisor == Times(one, exp) && Split(f, one, exp, d, remainder)
    requires AllDigits(handler.buf) && IsDigit(digit) && d == DigitsValue(handler.buf + [digit])
    modifies handler`buf
    ensures AllDigits(handler.buf) && ((old(handler.buf) + [digit])[0] != '0' ==>
                                       Written(handler.buf, |old(handler.buf)| + 1))
    ensures result == More <==> |old(handler.buf)| + 1 < handler.precision
    ensures result == More ==> handler.buf == old(handler.buf) + [digit]
    ensures result != More ==> Outcome(f, one, exp, result == Done, DigitsValue(handler.buf))
  {
    hide Times, Outcome, DigitsValue, Decided, Written;
    ghost var up;
    result, up := handler.OnDigit(digit, divisor, remainder, 1, true);
    if result != More {
      FinishIntegral(f, one, exp, d, remainder, result == Done, up);
    }
  }

  /** The number of digits to be written: at least one. */
  function Asked(precision: int): nat {
    if precision > 0 then precision else 1
  }

  method IntegralDigits(f: u64, one: u64, ghost s: nat, start: u32, fractional: u64, count: nat,
                        handler: FixedHandler)
    returns (result: Result, exp: nat)
    requires IsOne(one, s) && Integral(f, one, count, 0, start, fractional) && handler.buf == ""
    modifies handler`buf
    ensures AllDigits(handler.buf)
    ensures result == More ==> SplitFraction(f, one, 0, DigitsValue(handler.buf), fractional)
    ensures result == More ==> exp == 0 && |handler.buf| == count < handler.precision && handler.buf[0] != '0'
    ensures result != More ==> exp == count - Asked(handler.precision)
    ensures result != More ==> Outcome(f, one, exp, result == Done, DigitsValue(handler.buf))
    ensures result != More ==> Written(handler.buf, Asked(handler.precision))
  {
    assert DigitsValue("") == 0;
    IntegralParts(f, one, count, 0, start, fractional);
    hide Pow, Times, Sound, Split, SplitFraction, Outcome, DigitsValue, Integral, Written;
    exp := count;
    var integral: u32 := start;
    while true
      invariant exp >= 1 && AllDigits(handler.buf) && exp + |handler.buf| == count
      invariant Integral(f, one, exp, DigitsValue(handler.buf), integral, fractional)
      invariant handler.buf == "" || (|handler.buf| < handler.precision && handler.buf[0] != '0')
      decreases exp
    {
      result, integral := IntegralDigit(f, one, s, integral, fractional, exp, handler);
      exp := exp - 1;
      if result != More || exp == 0 {
        return;
      }
    }
  }

  lemma PushDigits(s: string, d: nat)
    requires d < 10
    ensures DigitsValue(s + [DigitChar(d)]) == 10 * DigitsValue(s) + d
  {
    assert (s + [DigitChar(d)])[..|s|] == s;
  }

  lemma {:induction false} TimesGrows(x: nat, n: nat)
    ensures Times(x, n) >= x && (n > 0 ==> Times(x, n - 1) <= Times(x, n))
  {
    if n == 0 {
    } else {
      TimesGrows(x, n - 1);
    }
  }

  /** The error after `k` fractional digits: it is kept in 64 bits. */
  ghost predicate WrappedError(k: nat, error: nat) {
    && error == Pow(10, k) % 0x1_0000_0000_0000_0000
    && (k <= 19 ==> error == Pow(10, k)) && (k >= 64 ==> error == 0)
    && (k >= 20 ==> Pow(10, k) > 0x2000_0000_0000_0000)
  }

  lemma StartError()
    ensures WrappedError(0, 1)
  {
  }

  lemma WrapStep(k: nat, error: nat)
    requires WrappedError(k, error)
    ensures WrappedError(k + 1, (error * 10) % 0x1_0000_0000_0000_0000)
  {
    var p := Pow(10, k);
    PowTen(k);
    PowNineteen();
    if k < 19 {
      PowMonotone(10, k + 1, 19);
    }
    if k == 63 {
      WrapsToZero();
    }
    hide Pow;
    WrapTimesTen(p, error);
  }

  lemma WrapTimesTen(p: nat, error: nat)
    requires error == p % 0x1_0000_0000_0000_0000
    ensures (error * 10) % 0x1_0000_0000_0000_0000 == (10 * p) % 0x1_0000_0000_0000_0000
  {
    var w := 0x1_0000_0000_0000_0000;
    var q, a, b := p / w, error * 10 / w, error * 10 % w;
    assert p == q * w + error && error * 10 == a * w + b;
    DivUnique(10 * p, w, 10 * q + a, b);
  }

  lemma PowNineteen()
    ensures Pow(10, 19) == 10000000000000000000
  {
    assert Pow(10, 4) == 10000 && Pow(10, 3) == 1000;
    PowAdd(10, 4, 4);
    PowAdd(10, 8, 8);
    PowAdd(10, 16, 3);
  }

  lemma WrapsToZero()
    ensures Pow(10, 64) % 0x1_0000_0000_0000_0000 == 0
  {
    PowMul(5, 2, 64);
    PowSixty();
    PowAdd(2, 60, 4);
    assert Pow(2, 4) == 16;
    MultipleOf(Pow(5, 64));
  }

  lemma MultipleOf(x: nat)
    ensures (x * 0x1_0000_0000_0000_0000) % 0x1_0000_0000_0000_0000 == 0
  {
  }

  method FractionDigits(f: u64, one: u64, ghost s: nat, start: u64, handler: FixedHandler)
    returns (result: Result, exp: int)
    requires IsOne(one, s) && start < one && AllDigits(handler.buf)
    requires SplitFraction(f, one, 0, DigitsValue(handler.buf), start)
    requires 0 < |handler.buf| < handler.precision && handler.buf[0] != '0'
    modifies handler`buf
    ensures AllDigits(handler.buf) && result != More && exp == |old(handler.buf)| - handler.precision
    ensures Outcome(f, one, exp, result == Done, DigitsValue(handler.buf))
    ensures Written(handler.buf, handler.precision)
  {
    var fractional, error: u64 := start, 1;
    ghost var k := 0;
    exp := 0;
    OneBounds(one, s);
    StartError();
    while true
      invariant exp == -k && WrappedError(k, error) && AllDigits(handler.buf) && fractional < one
      invariant SplitFraction(f, one, k, DigitsValue(handler.buf), fractional)
      invariant |handler.buf| == |old(handler.buf)| + k < handler.precision && handler.buf[0] != '0'
      decreases handler.precision - |handler.buf|
    {
      hide Pow, Sound, SplitFraction, Outcome, Decided, DigitsValue, WrappedError, Written;
      ghost var d := DigitsValue(handler.buf);
      var digit, rest := DivmodOne(fractional, one);
      FractionStep(f, one, k, d, fractional, digit, rest);
      WrapStep(k, error);
      k := k + 1;
      error := (error * 10) % 0x1_0000_0000_0000_0000;
      fractional := rest;
      exp := exp - 1;
      PushDigits(handler.buf, digit);
      ghost var up;
      result, up := handler.OnDigit(DigitChar(digit), one, fractional, error, false);
      if result != More {
        FinishFraction(f, one, s, k, error, 10 * d + digit, fractional, result == Done, up);
        return;
      }
    }
  }

  /** The next fractional digit; the product by ten fits in 64 bits. */
  method DivmodOne(fractional: u64, one: u64) returns (digit: nat, rest: u64)
    requires fractional < one <= 0x1000_0000_0000_0000
    ensures digit < 10 && rest < one && fractional * 10 == digit * one + rest
  {
    var scaled: u64 := fractional * 10;
    digit, rest := scaled / one, scaled % one;
    DigitSplit(scaled, one, digit, rest);
  }

  /** The number of digits before the point. */
  ghost function Count(f: u64, s: nat): (r: nat)
    requires 32 <= s <= 60 && f >= Pow(2, s)
    ensures 1 <= r <= 10 && Times(Pow(2, s), r - 1) <= f < Times(Pow(2, s), r)
  {
    var one := Pow(2, s);
    OneBounds(one, s);
    IntegralFits(f, one, s);
    var r := GrisuCountDigits(f / one);
    StartSplit(f, one, r);
    r
  }

  /** fmt's `grisu_gen_digits` with a `fixed_handler`. `exp` depends only on the number and on the
      precision asked for, and so does what can go wrong. */
  method GenDigits(f: u64, s: nat, handler: FixedHandler) returns (result: Result, exp: int)
    requires 32 <= s <= 60 && f >= Pow(2, s) && handler.buf == ""
    modifies handler
    ensures result != More && AllDigits(handler.buf)
    ensures handler.precision ==
            old(handler.precision) + if handler.fixed then Count(f, s) + handler.exp10 else 0
    ensures handler.fixed && handler.precision < 0 ==>
            result == Done && handler.buf == "" && exp == Count(f, s) && f < Times(Pow(2, s), exp)
    ensures handler.fixed && handler.precision == 0 ==> exp == Count(f, s)
    ensures handler.fixed && handler.precision == 0 ==>
            (result == Done <==> Decided(Times(Pow(2, s), exp - 1), f / 10, 10))
    ensures handler.fixed && handler.precision == 0 && result == Done ==>
            |handler.buf| == 1 && Correct(f, Pow(2, s), exp, DigitsValue(handler.buf))
    ensures !handler.fixed || handler.precision > 0 ==>
            && exp == Count(f, s) - Asked(handler.precision)
            && Outcome(f, Pow(2, s), exp, result == Done, DigitsValue(handler.buf))
            && Written(handler.buf, Asked(handler.precision))
  {
    var one: u64 := Pow(2, s);
    OneBounds(one, s);
    IntegralFits(f, one, s);
    var integral: u32 := f / one;
    var fractional := f % one;
    var count := GrisuCountDigits(integral);
    exp := count;
    StartSplit(f, one, count);
    TimesGrows(one, count - 1);
    TimesNext(one, count - 1);
    var divisor: u64 := Pow(10, exp - 1) * one;
    result := handler.OnStart(divisor, f / 10, 10, exp);
    if result != More {
      if result == Done && handler.buf != "" {
        assert handler.buf[..0] == [];
        StartSound(f, Times(one, exp), divisor, handler.buf == "1");
      }
      return;
    }
    result, exp := IntegralDigits(f, one, s, integral, fractional, count, handler);
    if result == More {
      result, exp := FractionDigits(f, one, s, fractional, handler);
    }
  }

  lemma IntegralFits(f: u64, one: nat, s: nat)
    requires one > 0 && IsOne(one, s) && f >= one
    ensures 1 <= f / one < 0x1_0000_0000
  {
    OneBounds(one, s);
    var q := f / one;
    assert f == q * one + f % one;
    if q >= 0x1_0000_0000 {
      MulMonotone(0x1_0000_0000, q, one);
    }
    if q < 1 {
      MulMonotone(q, 0, one);
    }
  }

  /** After 37 digits of the fraction the error, 10^37 modulo 2^64, is small enough to be missed. */
  lemma ErrorMissed(done: bool, d: int)
    requires Outcome(0x8000_0000_0000_3039, Pow(2, 60), -37, done, d)
    ensures done && !Correct(0x8000_0000_0000_3039, Pow(2, 60), -37, d)
  {
    hide Correct, Near, Pow;
    PowSixty();
    PowThirtySeven();
    Remainders();
  }

  lemma Remainders()
    ensures 10000000000000000000000000000000000000 % 0x1_0000_0000_0000_0000 == 68739955140067328
    ensures (0x8000_0000_0000_3039 * 10000000000000000000000000000000000000) % 0x1000_0000_0000_0000
         == 44518813491789824
  {
  }

  lemma PowThirtySeven()
    ensures Pow(10, 37) == 10000000000000000000000000000000000000
  {
    PowNineteen();
    assert Pow(10, 19) == 10 * Pow(10, 18);
    PowAdd(10, 19, 18);
  }

  /** When there is a correct rounding to the place above the first digit. */
  lemma CorrectAbove(f: nat, one: nat, exp: nat)
    requires f < Times(one, exp) && Times(one, exp) > 2
    ensures (exists d :: Correct(f, one, exp, d))
       <==> 2 * (f + 1) <= Times(one, exp) || 2 * (f - 1) >= Times(one, exp)
  {
    var u := Times(one, exp);
    hide Times, Sound;
    if 2 * (f + 1) <= u || 2 * (f - 1) >= u {
      var up := 2 * (f + 1) > u;
      SoundRounding(f, 1, u, 0, f, up);
      assert Correct(f, one, exp, if up then 1 else 0);
    } else {
      NoneSound(f, 1, u, 0, f);
    }
  }

  /** Before the first digit the error is taken as ten times too large: there is a correct rounding,
      but the handler is not sure of it. */
  lemma GivesUpEarly()
    ensures var f := 5 * Pow(2, 60) - 50;
            f >= 0 && Correct(f, Pow(2, 60), 1, 0) && !Decided(Times(Pow(2, 60), 0), f / 10, 10)
  {
    PowSixty();
    var f := 5 * Pow(2, 60) - 50;
    SoundWhen(f, 1, Times(Pow(2, 60), 1), 0, f);
  }
}
