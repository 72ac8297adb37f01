/** fmt's `format_float` for the shortest digits: the 64-bit generator first, and `fallback_format` where that
    gives up. The scaled numbers and the power of ten that they are scaled by are given. */
module FormatFloat {
  import opened Words
  import opened Decimals
  import opened FallbackFormat
  import opened FallbackSetup
  import opened Grisu
  import opened GrisuShortest
  import opened RealDecimals

  // Scaling by a power of ten

  ghost predicate Product(x: real, y: real, p: real) {
    p == x * y
  }

  lemma TenfoldProduct(x: real, y: real, y': real, p: real, p': real)
    requires y' == 10.0 * y && p' == 10.0 * p
    ensures Product(x, y, p) <==> Product(x, y', p')
  {
    Regroup(x, 10.0, y);
  }

  lemma {:induction false} TenAdd(a: int, b: int)
    ensures Product(Ten(a), Ten(b), Ten(a + b))
    decreases if b < 0 then -b else b
  {
    if b == 0 {
    } else {
      hide Product;
      if b > 0 {
        TenAdd(a, b - 1);
        TenStep(b - 1);
        TenStep(a + b - 1);
        TenfoldProduct(Ten(a), Ten(b - 1), Ten(b), Ten(a + b - 1), Ten(a + b));
      } else {
        TenAdd(a, b + 1);
        TenStep(b);
        TenStep(a + b);
        TenfoldProduct(Ten(a), Ten(b), Ten(b + 1), Ten(a + b), Ten(a + b + 1));
      }
    }
  }

  /** `t` is the power of ten that the numbers are scaled by. */
  lemma DecimalScaled(m: int, k: int, cached: int, t: real)
    requires t == Ten(cached)
    ensures Decimal(m, k) * t == Decimal(m, k + cached) && t > 0.0
  {
    hide Ten;
    TenPositive(cached);
    TenAdd(k, cached);
    Regroup(m as real, Ten(k), t);
  }

  lemma BetweenTimes(lo: real, hi: real, atLo: bool, atHi: bool, x: real, y: real, t: real)
    requires t > 0.0 && x * t == y
    ensures Between(lo, hi, atLo, atHi, x) <==> Between(lo * t, hi * t, atLo, atHi, y)
  {
    ScaledOrder(lo, x, t, lo * t, y);
    ScaledOrder(x, hi, t, y, hi * t);
  }

  lemma BetweenScaled(lo: real, hi: real, atLo: bool, atHi: bool, m: int, k: int, cached: int, t: real)
    requires t == Ten(cached)
    ensures Between(lo, hi, atLo, atHi, Decimal(m, k)) <==>
            Between(lo * t, hi * t, atLo, atHi, Decimal(m, k + cached))
  {
    hide Ten, Decimal, Between;
    DecimalScaled(m, k, cached, t);
    BetweenTimes(lo, hi, atLo, atHi, Decimal(m, k), Decimal(m, k + cached), t);
  }

  lemma NearerScaled(m: int, m': int, k: int, v: real, cached: int, t: real)
    requires t == Ten(cached)
    requires Gap(Decimal(m, k + cached), v * t) <= Gap(Decimal(m', k + cached), v * t)
    ensures Gap(Decimal(m, k), v) <= Gap(Decimal(m', k), v)
  {
    hide Ten, Decimal, Gap;
    DecimalScaled(m, k, cached, t);
    DecimalScaled(m', k, cached, t);
    GapTimes(Decimal(m, k), v, t, Decimal(m, k + cached), v * t);
    GapTimes(Decimal(m', k), v, t, Decimal(m', k + cached), v * t);
    ScaledOrder(Gap(Decimal(m', k), v), Gap(Decimal(m, k), v), t,
                Gap(Decimal(m', k + cached), v * t), Gap(Decimal(m, k + cached), v * t));
  }

  /** Digits that are right for the scaled number are right for the number itself. */
  lemma Unscaled(lo: real, v: real, hi: real, d: int, exp: int, cached: int, t: real)
    requires t == Ten(cached) && Between(lo * t, hi * t, false, false, Decimal(d, exp))
    requires NoShorter(lo * t, hi * t, true, true, exp) && NoneNearer(lo * t, v * t, hi * t, true, true, d, exp)
    ensures Between(lo, hi, false, false, Decimal(d, exp - cached)) && NoShorter(lo, hi, true, true, exp - cached)
    ensures NoneNearer(lo, v, hi, true, true, d, exp - cached)
  {
    hide Ten, Decimal, Between, Gap;
    BetweenScaled(lo, hi, false, false, d, exp - cached, cached, t);
    forall m: int, k: int {:trigger Decimal(m, k)} | k > exp - cached
      ensures !Between(lo, hi, true, true, Decimal(m, k))
    {
      BetweenScaled(lo, hi, true, true, m, k, cached, t);
    }
    forall m: int {:trigger Decimal(m, exp - cached)} | Between(lo, hi, true, true, Decimal(m, exp - cached))
      ensures Gap(Decimal(d, exp - cached), v) <= Gap(Decimal(m, exp - cached), v)
    {
      BetweenScaled(lo, hi, true, true, m, exp - cached, cached, t);
      NearerScaled(d, m, exp - cached, v, cached, t);
    }
  }

  /** The digits before the point of the scaled upper bound are enough for the true one. */
  lemma EnoughDigits(f: nat, one: nat, count: nat, hi: real, cached: int, t: real)
    requires t == Ten(cached) && one > 0 && f < Times(one, count) && (hi * t) * one as real < f as real
    ensures hi < Ten(count - cached)
  {
    hide Ten, Times;
    TimesIsPow(one, count);
    TenPow(count);
    CastMul(one, Pow(10, count));
    CastOrder(f, Times(one, count));
    TenPositive(cached);
    TenAdd(count - cached, cached);
    ScaledOrder(hi * t, Ten(count), one as real, (hi * t) * one as real, Times(one, count) as real);
    ScaledOrder(hi, Ten(count - cached), t, hi * t, Ten(count));
  }

  /** The digits denote a number that reads back as the double with bounds `lo` and `hi`, no shorter
      one does, and none as short is nearer. For the lower end of an even significand see `Format`. */
  ghost predicate Right(lo: real, v: real, hi: real, even: bool, data: string, exp: int) {
    && AllDigits(data) && ReadsBack(lo, hi, even, Decimal(DigitsValue(data), exp))
    && NoShorter(lo, hi, false, even, exp) && NoneNearer(lo, v, hi, false, even, DigitsValue(data), exp)
  }

  lemma RightOpen(lo: real, v: real, hi: real, even: bool, data: string, exp: int)
    requires AllDigits(data) && Between(lo, hi, false, false, Decimal(DigitsValue(data), exp))
    requires NoShorter(lo, hi, true, true, exp) && NoneNearer(lo, v, hi, true, true, DigitsValue(data), exp)
    ensures Right(lo, v, hi, even, data, exp)
  {
    hide Decimal, Gap;
  }

  lemma RightFallback(lo: real, v: real, hi: real, even: bool, atLo: bool, data: string, exp: int)
    requires AllDigits(data) && Between(lo, hi, even && atLo, even, Decimal(DigitsValue(data), exp))
    requires NoShorter(lo, hi, even && atLo, even, exp)
    requires Closest(lo, v, hi, even && atLo, even, DigitsValue(data), exp)
    ensures Right(lo, v, hi, even, data, exp)
  {
    hide Decimal, Gap;
  }

  /** Finished digits of the scaled number, for the number itself. */
  lemma Finished(f: nat, one: nat, error: nat, diff: nat, exp: int, d: int, cached: int,
                 lo: real, v: real, hi: real, t: real)
    requires t == Ten(cached) && one > 0 && TrueNumbers(f, one, error, diff, lo * t, v * t, hi * t)
    requires Ended(f, one, error, diff, exp, true, d)
    ensures Between(lo, hi, false, false, Decimal(d, exp - cached)) && NoShorter(lo, hi, true, true, exp - cached)
    ensures NoneNearer(lo, v, hi, true, true, d, exp - cached)
  {
    hide Ten, Decimal, TrueNumbers, Between, NoShorter, NoneNearer, FirstPlace, SettledAt;
    ShortestMeans(f, one, error, diff, exp, d, lo * t, v * t, hi * t);
    Unscaled(lo, v, hi, d, exp, cached, t);
  }

  /** What the fallback prints, from the estimate that it has been handed. */
  ghost predicate Fallen(significand: nat, e: int, closer: bool, data: string, exp: int) {
    var exp10, even := exp + |data| - 1, significand % 2 == 0;
    var lo, hi := Bottom(significand, e, closer), Ceiling(significand, e, closer);
    && (e >= 0 ==> exp10 >= 0)
    && var atLo := even && Tight(e, closer, exp10);
       && Between(lo, hi, atLo, even, Decimal(DigitsValue(data), exp))
       && (AllDigits(data) ==> NoShorter(lo, hi, atLo, even, exp))
       && Closest(lo, Boost(Value(significand, e), e, closer), hi, atLo, even, DigitsValue(data), exp)
  }

  lemma WhenFast(f: nat, one: nat, error: nat, diff: nat, exp: int, fast: bool, d: int)
    requires Ended(f, one, error, diff, exp, fast, d)
    ensures fast ==> SettledAt(f, one, error, diff, exp, d)
    ensures FirstPlace(f, one, error, exp) && (fast <==> exists d' :: SettledAt(f, one, error, diff, exp, d'))
  {
    hide FirstPlace, SettledAt;
  }

  /** `f`, `error` and `diff` are the numbers of a double multiplied by `t`, each less than a unit off. */
  ghost predicate ScaledBy(significand: nat, e: int, closer: bool, f: nat, one: nat, error: nat, diff: nat, t: real) {
    var v := Value(significand, e);
    TrueNumbers(f, one, error, diff, (v - Below(e, closer)) * t, v * t, (v + Above(e)) * t)
  }

  lemma ScaledNumbers(significand: nat, e: int, closer: bool, f: nat, one: nat, error: nat, diff: nat,
                      lo: real, v: real, hi: real, t: real)
    requires ScaledBy(significand, e, closer, f, one, error, diff, t)
    requires v == Value(significand, e) && lo == v - Below(e, closer) && hi == v + Above(e)
    ensures TrueNumbers(f, one, error, diff, lo * t, v * t, hi * t)
  {
    hide Value, Below, Above;
  }

  /** The estimate handed to the fallback is not too small. */
  lemma Handed(significand: nat, e: int, f: nat, one: nat, count: nat, error: nat, diff: nat, cached: int,
               lo: real, v: real, hi: real, t: real)
    requires t == Ten(cached) && one > 0 && f < Times(one, count) && hi == Value(significand, e) + Above(e)
    requires TrueNumbers(f, one, error, diff, lo * t, v * t, hi * t)
    ensures Estimate(significand, e, count - cached - 1)
  {
    hide Ten, Times, Value, Above;
    EnoughDigits(f, one, count, hi, cached, t);
  }

  /** fmt's `format_float` without a precision, for the double `significand * 2^e`, whose scaled upper bound is
      `f * 2^-s`, the lower one `error` and the double itself `diff` below it, each less than a unit from
      `10^cached` times what it stands for. It is fast when the generator is sure. Whichever way it goes,
      the digits are right, except exactly where the fallback starts from twice the number. */
  method FormatShortest(significand: nat, e: int, closer: bool, f: u64, s: nat, error: u64, diff: u64, cached: int)
    returns (data: string, exp: int, ghost fast: bool, ghost place: int)
    requires IsDouble(significand, closer) && -1000 <= cached <= 1000
    requires 32 <= s <= 60 && f >= Pow(2, s) && Given(f, error, diff)
    requires ScaledBy(significand, e, closer, f, Pow(2, s), error, diff, Ten(cached))
    ensures FirstPlace(f, Pow(2, s), error, place)
    ensures fast <==> exists d :: SettledAt(f, Pow(2, s), error, diff, place, d)
    ensures fast ==> exp == place - cached && SettledAt(f, Pow(2, s), error, diff, place, DigitsValue(data))
    ensures !fast ==> Fallen(significand, e, closer, data, exp)
    ensures data != "" && exp + |data| == Count(f, s) - cached
    ensures if fast then data[0] != '0'
            else data[0] == '0' <==>
                 !Attains(Ceiling(significand, e, closer), significand % 2 == 0, Ten(exp + |data| - 1))
    ensures fast || e < 0 || !closer ==>
              Right(Value(significand, e) - Below(e, closer), Value(significand, e), Value(significand, e) + Above(e),
                    significand % 2 == 0, data, exp)
    ensures !(fast || e < 0 || !closer) ==>
              !(AllDigits(data) &&
                ReadsBack(Value(significand, e) - Below(e, closer), Value(significand, e) + Above(e),
                          significand % 2 == 0, Decimal(DigitsValue(data), exp)))
  {
    hide Ten, Two, Decimal, Value, Below, Above, TrueNumbers, ScaledBy, Ended, FirstPlace, SettledAt, NoShorter,
      NoneNearer, Closest, Between, Right, Estimate, Tight;
    ghost var v, t := Value(significand, e), Ten(cached);
    ghost var lo, hi := v - Below(e, closer), v + Above(e);
    ghost var one := Pow(2, s);
    OneBounds(one, s);
    ScaledNumbers(significand, e, closer, f, one, error, diff, lo, v, hi, t);
    var handler := new ShortestHandler(diff);
    var result;
    result, exp := GrisuShortest.GenDigits(f, s, error, handler);
    fast, place := result == Done, exp;
    WhenFast(f, one, error, diff, exp, fast, DigitsValue(handler.buf));
    if result == Error {
      exp := exp + |handler.buf| - cached - 1;
      Handed(significand, e, f, one, Count(f, s), error, diff, cached, lo, v, hi, t);
      ghost var exp10 := exp;
      data, exp := Format(significand, e, closer, exp);
      if e < 0 || !closer {
        RightFallback(lo, v, hi, significand % 2 == 0, Tight(e, closer, exp10), data, exp);
      }
    } else {
      data := handler.buf;
      Finished(f, one, error, diff, exp, DigitsValue(data), cached, lo, v, hi, t);
      exp := exp - cached;
      RightOpen(lo, v, hi, significand % 2 == 0, data, exp);
    }
  }
}
