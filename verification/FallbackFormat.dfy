/** `fallback_format` as a whole, stated of the real numbers it prints. */
module FallbackFormat {
  import opened Words
  import opened Decimals
  import opened BigintLemmas
  import opened DigitLoop
  import opened FallbackSetup
  import opened RealDecimals

  // Between the scaled problem and the reals.

  /** `x / den * 10^exp10` is `y`. */
  ghost predicate Stands(x: int, den: int, exp10: int, y: real) {
    x as real * Ten(exp10) == y * den as real
  }

  lemma OrderScaled(x: real, m: real, y: real, u: real, d: real)
    requires u > 0.0 && d > 0.0 && x * u == y * d
    ensures x < m * d <==> y < m * u
    ensures x == m * d <==> y == m * u
  {
    Regroup(m, d, u);
    Regroup(m, u, d);
    assert (m * d) * u == (m * u) * d;
    ScaleOrder(x, m * d, u);
    ScaleOrder(y, m * u, d);
  }

  /** Comparing `x * 10^j` with `m * den` is comparing `y` with `m * 10^(exp10 - j)`. */
  lemma OrderReal(x: int, m: int, den: int, j: nat, exp10: int, y: real)
    requires den > 0 && Stands(x, den, exp10, y)
    ensures Times(x, j) < m * den <==> y < m as real * Ten(exp10 - j)
    ensures Times(x, j) == m * den <==> y == m as real * Ten(exp10 - j)
  {
    hide Ten, Times;
    TenPositive(exp10 - j);
    TimesReal(x, j, exp10);
    CastMul(m, den);
    CastOrder(Times(x, j), m * den);
    OrderScaled(Times(x, j) as real, m as real, y, Ten(exp10 - j), den as real);
  }

  /** `x` lies in the interval, whose ends belong to it when `closed`. */
  ghost predicate ReadsBack(lo: real, hi: real, closed: bool, x: real) {
    Between(lo, hi, closed, closed, x)
  }

  /** The bounds of the scaled problem are those of the interval from `lo` to `hi`. */
  lemma InsideReal(p: Scaled, exp10: int, lo: real, hi: real, m: int, j: nat)
    requires p.den > 0
    requires Stands(p.num - p.lower, p.den, exp10, lo) && Stands(p.num + p.upper, p.den, exp10, hi)
    ensures p.Admits(m, j) <==> Between(lo, hi, p.even && p.tight, p.even, Decimal(m, exp10 - j))
  {
    OrderReal(p.num - p.lower, m, p.den, j, exp10, lo);
    OrderReal(p.num + p.upper, m, p.den, j, exp10, hi);
  }

  lemma SumStands(x: int, y: int, den: int, exp10: int, v: real, w: real, less: real, more: real)
    requires Stands(x, den, exp10, v) && Stands(y, den, exp10, w)
    requires less == v - w && more == v + w
    ensures Stands(x - y, den, exp10, less) && Stands(x + y, den, exp10, more)
  {
  }

  lemma MultipleStands(x: int, k: int, y: int, den: int, exp10: int, v: real, w: real)
    requires Stands(x, den, exp10, v) && y == x * k && w == v * k as real
    ensures Stands(y, den, exp10, w)
  {
    CastMul(x, k);
    SwapLast(x as real, k as real, Ten(exp10));
    SwapLast(v, k as real, den as real);
  }

  // The double, and how far it is to the middle of the gaps on both sides.

  ghost function Value(f: nat, e: int): real { f as real * Two(e) }

  ghost function Below(e: int, closer: bool): real { Two(e) / (if closer then 4.0 else 2.0) }

  ghost function Above(e: int): real { Two(e) / 2.0 }

  /** What is printed for a double `x`: with a non-negative exponent `fallback_format` divides by 2
      even when it has shifted by 2, and prints twice the number. */
  ghost function Boost(x: real, e: int, closer: bool): real {
    if e >= 0 && closer then 2.0 * x else x
  }

  ghost predicate InGaps(p: Scaled, f: nat, closer: bool) {
    && p.num == p.lower * (f * (if closer then 4 else 2))
    && p.upper == p.lower * (if closer then 2 else 1)
    && p.even == (f % 2 == 0) && p.den > 0 && p.lower > 0
  }

  /** The numerator and the upper gap in units of the lower gap. */
  lemma StartRatios(f: nat, e: int, closer: bool, exp10: int)
    requires e >= 0 ==> exp10 >= 0
    ensures InGaps(Start(f, e, closer, exp10), f, closer)
  {
    var shift: nat := if closer then 2 else 1;
    assert Pow(2, 1) == 2 && Pow(2, 2) == 4;
    if e >= 0 {
      PowPositive(10, exp10);
      PowPositive(2, e);
    } else {
      PowPositive(2, shift - e);
      if exp10 < 0 {
        PowPositive(10, -exp10);
      } else {
        PowPositive(10, exp10);
        MulMonotone(1, Pow(10, exp10), Pow(2, shift - e));
      }
    }
  }

  // The lower gap of each of the three ways to start.

  lemma IntegralStands(e: nat, closer: bool, exp10: nat)
    ensures Stands(Pow(2, e), Pow(10, exp10) * 2, exp10, Boost(Below(e, closer), e, closer))
  {
    TwoPow(e);
    TenPow(exp10);
    CastMul(Pow(10, exp10), 2);
    Regroup(Boost(Below(e, closer), e, closer), 2.0, Ten(exp10));
  }

  lemma SmallStands(e: int, closer: bool, exp10: int)
    requires e < 0 && exp10 < 0
    ensures Stands(Pow(10, -exp10), Pow(2, (if closer then 2 else 1) - e), exp10, Below(e, closer))
  {
    TenPow(-exp10);
    ShiftedInverse(e, closer);
  }

  lemma FractionStands(e: int, closer: bool, exp10: int)
    requires e < 0 <= exp10
    ensures Stands(1, Pow(10, exp10) * Pow(2, (if closer then 2 else 1) - e), exp10, Below(e, closer))
  {
    hide Two;
    TenPow(exp10);
    ShiftedInverse(e, closer);
    var q := Pow(2, (if closer then 2 else 1) - e);
    CastMul(Pow(10, exp10), q);
    Regroup(Below(e, closer), Pow(10, exp10) as real, q as real);
  }

  lemma ShiftedInverse(e: int, closer: bool)
    requires e < 0
    ensures Below(e, closer) * Pow(2, (if closer then 2 else 1) - e) as real == 1.0
  {
    var shift: nat := if closer then 2 else 1;
    TwoPow(-e);
    assert Pow(2, 1) == 2 && Pow(2, 2) == 4;
    PowAdd(2, shift, -e);
    if closer {
      DoubleInverse(Two(e), Pow(2, -e));
      DoubleInverse(Two(e) / 2.0, 2 * Pow(2, -e));
    } else {
      DoubleInverse(Two(e), Pow(2, -e));
    }
  }

  ghost predicate StartStands(p: Scaled, f: nat, e: int, closer: bool, exp10: int) {
    && p.den > 0 && 0 < p.lower <= p.num && 0 < p.upper
    && Stands(p.num, p.den, exp10, Boost(Value(f, e), e, closer))
    && Stands(p.num - p.lower, p.den, exp10, Boost(Value(f, e) - Below(e, closer), e, closer))
    && Stands(p.num + p.upper, p.den, exp10, Boost(Value(f, e) + Above(e), e, closer))
  }

  lemma StartValue(f: nat, e: int, closer: bool, exp10: int)
    requires e >= 0 ==> exp10 >= 0
    requires f > 0
    ensures StartStands(Start(f, e, closer, exp10), f, e, closer, exp10)
  {
    hide Stands, Tight, Two, Ten;
    StartRatios(f, e, closer, exp10);
    if e >= 0 {
      IntegralStands(e, closer, exp10);
    } else if exp10 < 0 {
      SmallStands(e, closer, exp10);
    } else {
      FractionStands(e, closer, exp10);
    }
    FromGaps(Start(f, e, closer, exp10), f, e, closer, exp10);
  }

  lemma FromGaps(p: Scaled, f: nat, e: int, closer: bool, exp10: int)
    requires f > 0 && InGaps(p, f, closer)
    requires Stands(p.lower, p.den, exp10, Boost(Below(e, closer), e, closer))
    ensures StartStands(p, f, e, closer, exp10)
  {
    hide Ten, Two, Stands;
    var k, a, b := f * (if closer then 4 else 2), if closer then 2 else 1, Boost(Below(e, closer), e, closer);
    var v, w := Boost(Value(f, e), e, closer), Boost(Above(e), e, closer);
    GapsPositive(p.lower, k, a);
    ValueInGaps(f, e, closer);
    MultipleStands(p.lower, k, p.num, p.den, exp10, b, v);
    MultipleStands(p.lower, a, p.upper, p.den, exp10, b, w);
    SumStands(p.num, p.lower, p.den, exp10, v, b,
              Boost(Value(f, e) - Below(e, closer), e, closer), v + b);
    SumStands(p.num, p.upper, p.den, exp10, v, w,
              v - w, Boost(Value(f, e) + Above(e), e, closer));
  }

  lemma GapsPositive(lower: int, k: int, a: int)
    requires lower > 0 && k > 0 && a > 0
    ensures lower <= lower * k && 0 < lower * a
  {
    MulMonotone(1, k, lower);
  }

  lemma ValueInGaps(f: nat, e: int, closer: bool)
    ensures Boost(Value(f, e), e, closer)
         == Boost(Below(e, closer), e, closer) * (f * (if closer then 4 else 2)) as real
    ensures Boost(Above(e), e, closer)
         == Boost(Below(e, closer), e, closer) * (if closer then 2 else 1) as real
  {
    var x := f as real;
    CastMul(f, if closer then 4 else 2);
    Regroup(Two(e), x, 4.0);
    Regroup(Two(e), x, 2.0);
  }

  // What is printed, for a number `v` in the interval from `lo` to `hi`.

  /** Only decimals with a smaller unit than `10^k` lie above `lo` and up to `hi`. */
  ghost predicate Finer(lo: real, hi: real, k: int) {
    forall m': int, k': int {:trigger Decimal(m', k')} :: Between(lo, hi, false, true, Decimal(m', k')) ==> k' < k
  }

  /** The lower end is a decimal with a larger unit than all others in the interval. */
  ghost predicate CoarseEnd(lo: real, hi: real) {
    exists m: int, k: int {:trigger Decimal(m, k)} :: lo == Decimal(m, k) && Finer(lo, hi, k)
  }

  /** If the lower end is not looked at, what is shortest without it is shortest with it, unless the end
      itself is shorter. */
  lemma ShortestClosed(lo: real, hi: real, atLo: bool, m: int, exp: int)
    requires Between(lo, hi, atLo, true, Decimal(m, exp)) && NoShorter(lo, hi, atLo, true, exp)
    ensures NoShorter(lo, hi, true, true, exp) <==> atLo || !CoarseEnd(lo, hi)
  {
    hide Decimal;
    if !atLo {
      if CoarseEnd(lo, hi) {
        var m0: int, k0: int :| lo == Decimal(m0, k0) && Finer(lo, hi, k0);
        assert Between(lo, hi, true, true, Decimal(m0, k0)) && k0 > exp;
      } else {
        forall m1: int, k1: int {:trigger Decimal(m1, k1)} | k1 > exp
          ensures !Between(lo, hi, true, true, Decimal(m1, k1))
        {
          assert lo == Decimal(m1, k1) ==> !Finer(lo, hi, k1);
        }
      }
    }
  }

  /** Of the decimals with the same unit in the interval, `m` is nearest to `v`; of two equally near
      it is the even one. */
  ghost predicate Closest(lo: real, v: real, hi: real, atLo: bool, atHi: bool, m: int, exp: int) {
    forall m': int {:trigger Decimal(m', exp)} ::
      m' != m && Between(lo, hi, atLo, atHi, Decimal(m, exp)) && Between(lo, hi, atLo, atHi, Decimal(m', exp))
      ==> Gap(Decimal(m, exp), v) < Gap(Decimal(m', exp), v)
          || (Gap(Decimal(m, exp), v) == Gap(Decimal(m', exp), v) && m % 2 == 0)
  }

  /** The scaled problem is to print a number in the interval from `lo` to `hi`. */
  ghost predicate Framed(p: Scaled, exp10: int, lo: real, hi: real) {
    p.den > 0 && Stands(p.num - p.lower, p.den, exp10, lo) && Stands(p.num + p.upper, p.den, exp10, hi)
  }

  lemma PrintedInterval(p: Scaled, exp10: int, lo: real, hi: real, data: string)
    requires Framed(p, exp10, lo, hi) && Printed(p, data)
    ensures Between(lo, hi, p.even && p.tight, p.even, Decimal(DigitsValue(data), exp10 - (|data| - 1)))
  {
    InsideReal(p, exp10, lo, hi, DigitsValue(data), |data| - 1);
  }

  lemma PrintedShortest(p: Scaled, exp10: int, lo: real, hi: real, data: string)
    requires Framed(p, exp10, lo, hi) && Printed(p, data) && p.Estimated() && !p.Reaches(10)
    ensures NoShorter(lo, hi, p.even && p.tight, p.even, exp10 - (|data| - 1))
  {
    hide Ten, Stands, Between, Times;
    forall m: int, k: int {:trigger Decimal(m, k)} | k > exp10 - (|data| - 1)
      ensures !Between(lo, hi, p.even && p.tight, p.even, Decimal(m, k))
    {
      if k <= exp10 {
        assert !p.Admits(m, exp10 - k);
        assert exp10 - (exp10 - k) == k;
        InsideReal(p, exp10, lo, hi, m, exp10 - k);
      } else {
        TooCoarse(p, m, k - exp10);
        TimesReal(m, k - exp10, k);
        assert Decimal(Times(m, k - exp10), exp10) == Decimal(m, k);
        InsideReal(p, exp10, lo, hi, Times(m, k - exp10), 0);
      }
    }
  }

  /** A multiple of ten units is not in the interval. */
  lemma TooCoarse(p: Scaled, m: int, j: nat)
    requires p.Estimated() && !p.Reaches(10) && j > 0
    ensures !p.Admits(Times(m, j), 0)
  {
    var n := Times(m, j - 1);
    MulAssoc(10, n, p.den);
    if n > 0 {
      MulMonotone(1, n, p.den);
    } else {
      MulMonotone(n, 0, p.den);
    }
  }

  lemma PrintedClosest(p: Scaled, exp10: int, lo: real, v: real, hi: real, data: string)
    requires Framed(p, exp10, lo, hi) && Stands(p.num, p.den, exp10, v) && Printed(p, data)
    ensures Closest(lo, v, hi, p.even && p.tight, p.even, DigitsValue(data), exp10 - (|data| - 1))
  {
    hide Stands, Distance, Gap, Decimal, Between;
    var atLo, atHi := p.even && p.tight, p.even;
    var m, j, k := DigitsValue(data), |data| - 1, exp10 - (|data| - 1);
    forall m': int {:trigger Decimal(m', k)}
      | m' != m && Between(lo, hi, atLo, atHi, Decimal(m, k)) && Between(lo, hi, atLo, atHi, Decimal(m', k))
      ensures Gap(Decimal(m, k), v) < Gap(Decimal(m', k), v)
           || (Gap(Decimal(m, k), v) == Gap(Decimal(m', k), v) && m % 2 == 0)
    {
      InsideReal(p, exp10, lo, hi, m, j);
      InsideReal(p, exp10, lo, hi, m', j);
      assert p.Admits(m', j) && p.Admits(m, j);
      assert Distance(p, m, j) < Distance(p, m', j) || (Distance(p, m, j) == Distance(p, m', j) && m % 2 == 0);
      GapOrder(p, exp10, v, m, m', j);
    }
    assert Closest(lo, v, hi, atLo, atHi, m, k);
  }

  /** Distances in the scaled problem are ordered as those between the reals. */
  lemma GapOrder(p: Scaled, exp10: int, v: real, m: int, m': int, j: nat)
    requires p.den > 0 && Stands(p.num, p.den, exp10, v)
    ensures Distance(p, m, j) < Distance(p, m', j)
       <==> Gap(Decimal(m, exp10 - j), v) < Gap(Decimal(m', exp10 - j), v)
    ensures Distance(p, m, j) == Distance(p, m', j)
       <==> Gap(Decimal(m, exp10 - j), v) == Gap(Decimal(m', exp10 - j), v)
  {
    hide Stands, Distance, Gap, Decimal;
    GapScaled(p, exp10, v, m, j);
    GapScaled(p, exp10, v, m', j);
    TenPositive(exp10 - j);
    OrderTogether(Distance(p, m, j), Distance(p, m', j), Ten(exp10 - j),
                  Gap(Decimal(m, exp10 - j), v), Gap(Decimal(m', exp10 - j), v), p.den as real);
  }

  lemma OrderTogether(x: int, y: int, u: real, a: real, b: real, d: real)
    requires u > 0.0 && d > 0.0 && x as real * u == a * d && y as real * u == b * d
    ensures x < y <==> a < b
    ensures x == y <==> a == b
  {
    CastOrder(x, y);
    ScaleOrder(x as real, y as real, u);
    ScaleOrder(a, b, d);
  }

  lemma GapScaled(p: Scaled, exp10: int, v: real, m: int, j: nat)
    requires p.den > 0 && Stands(p.num, p.den, exp10, v)
    ensures Distance(p, m, j) as real * Ten(exp10 - j) == Gap(Decimal(m, exp10 - j), v) * p.den as real
  {
    hide Ten, Times;
    OrderReal(p.num, m, p.den, j, exp10, v);
    TimesReal(p.num, j, exp10);
    AbsScaled(m, p.den, Times(p.num, j), Ten(exp10 - j), v);
  }

  lemma AbsScaled(m: int, d: int, t: int, u: real, v: real)
    requires t as real * u == v * d as real && (t < m * d <==> v < m as real * u)
    requires t == m * d <==> v == m as real * u
    ensures (if m * d - t < 0 then -(m * d - t) else m * d - t) as real * u
         == Gap(m as real * u, v) * d as real
  {
    DifferenceScaled(m, d, t, u, v);
    if m * d < t {
      assert -(m * d - t) == t - m * d;
    }
  }

  lemma DifferenceScaled(m: int, d: int, t: int, u: real, v: real)
    requires t as real * u == v * d as real
    ensures (m * d - t) as real * u == (m as real * u - v) * d as real
    ensures (t - m * d) as real * u == (v - m as real * u) * d as real
  {
    CastMul(m, d);
    SwapLast(m as real, d as real, u);
    Distribute((m * d) as real, t as real, u);
    Distribute(m as real * u, v, d as real);
  }

  lemma Distribute(x: real, y: real, z: real)
    ensures (x - y) * z == x * z - y * z
    ensures (y - x) * z == y * z - x * z
  {
  }

  // The double itself.

  /** The interval of the numbers that round to the double, as far as `Boost` keeps it. */
  ghost function Bottom(f: nat, e: int, closer: bool): real {
    Boost(Value(f, e) - Below(e, closer), e, closer)
  }

  ghost function Ceiling(f: nat, e: int, closer: bool): real {
    Boost(Value(f, e) + Above(e), e, closer)
  }

  /** The interval up to `hi` reaches `y`. */
  ghost predicate Attains(hi: real, closed: bool, y: real) {
    if closed then hi >= y else hi > y
  }

  /** The caller's estimate of the decimal exponent: it is not too small for the upper end of the
      interval of the double. It may be too large. */
  ghost predicate Estimate(f: nat, e: int, exp10: int) {
    !Attains(Value(f, e) + Above(e), f % 2 == 0, Ten(exp10 + 1))
  }

  lemma StartReaches(p: Scaled, exp10: int, hi: real)
    requires p.den > 0 && Stands(p.num + p.upper, p.den, exp10, hi)
    ensures p.Reaches(1) <==> Attains(hi, p.even, Ten(exp10))
    ensures p.Reaches(10) <==> Attains(hi, p.even, Ten(exp10 + 1))
    ensures p.Reaches(20) <==> Attains(hi, p.even, 2.0 * Ten(exp10 + 1))
  {
    OrderReal(p.num + p.upper, 1, p.den, 0, exp10, hi);
    OrderReal(p.num + p.upper, 10, p.den, 0, exp10, hi);
    OrderReal(p.num + p.upper, 20, p.den, 0, exp10, hi);
    TenStep(exp10);
  }

  /** The estimate is good enough for the digit loop, even where it starts from twice the number. */
  lemma EstimatedStart(f: nat, e: int, closer: bool, exp10: int)
    requires f > 0 && Estimate(f, e, exp10) && (e >= 0 ==> exp10 >= 0)
    ensures var p := Start(f, e, closer, exp10);
            && p.Estimated()
            && (p.Reaches(1) <==> Attains(Ceiling(f, e, closer), f % 2 == 0, Ten(exp10)))
            && (p.Reaches(10) <==> Attains(Ceiling(f, e, closer), f % 2 == 0, Ten(exp10 + 1)))
    ensures e < 0 || !closer ==> !Start(f, e, closer, exp10).Reaches(10)
  {
    hide Start, Boost, Value, Above, Attains, Ten, Estimate, Stands;
    var p := Start(f, e, closer, exp10);
    StartValue(f, e, closer, exp10);
    StartRatios(f, e, closer, exp10);
    StartReaches(p, exp10, Ceiling(f, e, closer));
    CeilingBelow(f, e, closer, exp10);
    MulMonotone(2, f * (if closer then 4 else 2), p.lower);
  }

  lemma CeilingBelow(f: nat, e: int, closer: bool, exp10: int)
    requires Estimate(f, e, exp10)
    ensures !Attains(Ceiling(f, e, closer), f % 2 == 0, 2.0 * Ten(exp10 + 1))
    ensures e < 0 || !closer ==> !Attains(Ceiling(f, e, closer), f % 2 == 0, Ten(exp10 + 1))
  {
    hide Ten, Value, Above;
    TenPositive(exp10 + 1);
  }

  /** With a non-negative binary exponent such an estimate is not negative. */
  lemma EstimateSign(f: nat, e: nat, exp10: int)
    requires f > 0 && Estimate(f, e, exp10)
    ensures exp10 >= 0
  {
    if exp10 < 0 {
      ValueAtLeast(f, e);
      TenAtMostOne(-exp10 - 1);
    }
  }

  lemma ValueAtLeast(f: nat, e: nat)
    ensures Two(e) >= 1.0 && Value(f, e) >= f as real
  {
    TwoPow(e);
    PowPositive(2, e);
    CastOrder(0, Pow(2, e));
    ScaleAtLeast(f as real, Two(e));
  }

  lemma ScaleAtLeast(x: real, y: real)
    requires x >= 0.0 && y >= 1.0
    ensures x * y >= x
  {
  }

  lemma {:induction false} TenAtMostOne(n: nat)
    ensures Ten(-(n as int)) <= 1.0
  {
    if n == 0 {
    } else {
      TenAtMostOne(n - 1);
      TenPositive(1 - n);
    }
  }

  /** fmt's `fallback_format`. The digits lie in the interval of `Bottom` and `Ceiling`, which is that
      of the double except where the code starts from twice the number. Output that is all digits and
      reads back as the double comes exactly when the exponent is negative or the predecessor is not
      nearer. The lower end, which belongs to the interval of an even significand, is looked at exactly
      when the numbers are `Tight`. */
  method Format(f: nat, e: int, closer: bool, exp10: int) returns (data: string, exp10': int)
    requires IsDouble(f, closer) && -0x4000_0000 < exp10 < 0x4000_0000 && Estimate(f, e, exp10)
    ensures data != [] && exp10' == exp10 - (|data| - 1)
    ensures AllDigits(data) <==> !Attains(Ceiling(f, e, closer), f % 2 == 0, Ten(exp10 + 1))
    ensures data[0] == '0' <==> !Attains(Ceiling(f, e, closer), f % 2 == 0, Ten(exp10))
    ensures e >= 0 ==> exp10 >= 0
    ensures Between(Bottom(f, e, closer), Ceiling(f, e, closer),
                    f % 2 == 0 && Tight(e, closer, exp10), f % 2 == 0, Decimal(DigitsValue(data), exp10'))
    ensures AllDigits(data) ==>
              NoShorter(Bottom(f, e, closer), Ceiling(f, e, closer),
                        f % 2 == 0 && Tight(e, closer, exp10), f % 2 == 0, exp10')
    ensures AllDigits(data) && f % 2 == 0 ==>
              (NoShorter(Bottom(f, e, closer), Ceiling(f, e, closer), true, true, exp10')
               <==> Tight(e, closer, exp10) || !CoarseEnd(Bottom(f, e, closer), Ceiling(f, e, closer)))
    ensures Closest(Bottom(f, e, closer), Boost(Value(f, e), e, closer), Ceiling(f, e, closer),
                    f % 2 == 0 && Tight(e, closer, exp10), f % 2 == 0, DigitsValue(data), exp10')
    ensures AllDigits(data) && ReadsBack(Value(f, e) - Below(e, closer), Value(f, e) + Above(e), f % 2 == 0,
                                         Decimal(DigitsValue(data), exp10'))
       <==> e < 0 || !closer
  {
    if e >= 0 {
      EstimateSign(f, e, exp10);
    }
    ghost var p := Start(f, e, closer, exp10);
    StartValue(f, e, closer, exp10);
    EstimatedStart(f, e, closer, exp10);
    var numerator, denominator, lower, upper;
    if e >= 0 {
      numerator, denominator, lower, upper := PrepareIntegral(f, e, closer, exp10);
    } else if exp10 < 0 {
      numerator, denominator, lower, upper := PrepareSmall(f, e, closer, exp10);
    } else {
      numerator, denominator, lower, upper := PrepareFraction(f, e, closer, exp10);
    }
    data, exp10' := PrintDigits(numerator, denominator, lower, upper, f % 2 == 0, exp10, p);
    PrintedMeans(f, e, closer, exp10, data);
  }

  lemma PrintedMeans(f: nat, e: int, closer: bool, exp10: int, data: string)
    requires IsDouble(f, closer) && Estimate(f, e, exp10) && (e >= 0 ==> exp10 >= 0)
    requires Printed(Start(f, e, closer, exp10), data)
    ensures AllDigits(data) <==> !Attains(Ceiling(f, e, closer), f % 2 == 0, Ten(exp10 + 1))
    ensures data[0] == '0' <==> !Attains(Ceiling(f, e, closer), f % 2 == 0, Ten(exp10))
    ensures var x := Decimal(DigitsValue(data), exp10 - (|data| - 1));
            && Between(Bottom(f, e, closer), Ceiling(f, e, closer),
                       f % 2 == 0 && Tight(e, closer, exp10), f % 2 == 0, x)
            && (AllDigits(data) && ReadsBack(Value(f, e) - Below(e, closer), Value(f, e) + Above(e), f % 2 == 0, x)
                <==> e < 0 || !closer)
    ensures AllDigits(data) ==>
              NoShorter(Bottom(f, e, closer), Ceiling(f, e, closer),
                        f % 2 == 0 && Tight(e, closer, exp10), f % 2 == 0, exp10 - (|data| - 1))
    ensures AllDigits(data) && f % 2 == 0 ==>
              (NoShorter(Bottom(f, e, closer), Ceiling(f, e, closer), true, true, exp10 - (|data| - 1))
               <==> Tight(e, closer, exp10) || !CoarseEnd(Bottom(f, e, closer), Ceiling(f, e, closer)))
    ensures Closest(Bottom(f, e, closer), Boost(Value(f, e), e, closer), Ceiling(f, e, closer),
                    f % 2 == 0 && Tight(e, closer, exp10), f % 2 == 0, DigitsValue(data), exp10 - (|data| - 1))
  {
    var p, lo, hi := Start(f, e, closer, exp10), Bottom(f, e, closer), Ceiling(f, e, closer);
    StartValue(f, e, closer, exp10);
    EstimatedStart(f, e, closer, exp10);
    PrintedInterval(p, exp10, lo, hi, data);
    if !p.Reaches(10) {
      PrintedShortest(p, exp10, lo, hi, data);
      if f % 2 == 0 {
        ShortestClosed(lo, hi, p.tight, DigitsValue(data), exp10 - (|data| - 1));
      }
    } else {
      WideEnough(f, e, exp10);
    }
    PrintedClosest(p, exp10, lo, Boost(Value(f, e), e, closer), hi, data);
    if e >= 0 && closer {
      TwicePrinted(f, e, Decimal(DigitsValue(data), exp10 - (|data| - 1)));
    }
  }

  /** The gaps of a power of two are narrow. */
  lemma WideEnough(f: nat, e: int, exp10: int)
    requires IsDouble(f, true) && (e >= 0 ==> exp10 >= 0)
    ensures var p := Start(f, e, true, exp10); 20 * p.lower <= p.num && 20 * p.upper <= p.num
  {
    StartRatios(f, e, true, exp10);
    var p := Start(f, e, true, exp10);
    MulMonotone(40, f * 4, p.lower);
  }

  /** The invariant announced before the digit loop, `value == numerator / denominator * 10^exp10`,
      holds exactly when the exponent is negative or the predecessor is not nearer. */
  lemma LoopInvariantHolds(f: nat, e: int, closer: bool, exp10: int)
    requires f > 0 && (e >= 0 ==> exp10 >= 0)
    ensures Stands(Start(f, e, closer, exp10).num, Start(f, e, closer, exp10).den, exp10, Value(f, e))
       <==> e < 0 || !closer
  {
    StartValue(f, e, closer, exp10);
    if e >= 0 && closer {
      ValueAtLeast(f, e);
      StandsOnce(Start(f, e, closer, exp10), exp10, Value(f, e), 2.0 * Value(f, e));
    }
  }

  lemma StandsOnce(p: Scaled, exp10: int, v: real, w: real)
    requires p.den > 0 && Stands(p.num, p.den, exp10, w)
    ensures Stands(p.num, p.den, exp10, v) <==> v == w
  {
    ScaleOrder(v, w, p.den as real);
  }

  /** In the remaining case nothing in the interval reads back as the double. */
  lemma TwicePrinted(f: nat, e: nat, x: real)
    requires IsDouble(f, true) && ReadsBack(Bottom(f, e, true), Ceiling(f, e, true), f % 2 == 0, x)
    ensures x > Value(f, e) + Above(e)
  {
    ValueAtLeast(f, e);
    ScaleOrder(1.0, f as real, Two(e));
  }

  // Four doubles: one below its estimate, one with a missed lower end, and the two ways to fail.

  /** The double nearest to 10^23 is below it, but its interval ends there, so that 23 is the only
      estimate that is not too large. */
  lemma EstimatedFromAbove()
    ensures var f := 5960464477539062;
            && Value(f, 24) < Ten(23) && Attains(Ceiling(f, 24, false), true, Ten(23))
            && !Estimate(f, 24, 22) && Estimate(f, 24, 23)
  {
    hide Two, Ten;
    TwoAt24();
    TenAt23();
    TenStep(22);
    TenStep(23);
  }

  lemma TwoAt24()
    ensures Two(24) == 16777216.0 && Two(29) == 536870912.0 && Two(32) == 4294967296.0
  {
    TwoPow(24);
    TwoPow(29);
    TwoPow(32);
    assert Pow(2, 4) == 16 && Pow(2, 5) == 32;
    PowAdd(2, 4, 4);
    PowAdd(2, 8, 8);
    PowAdd(2, 16, 8);
    PowAdd(2, 24, 5);
    PowAdd(2, 24, 8);
  }

  lemma TenAt23()
    ensures Ten(23) == 100000000000000000000000.0 && Ten(9) == 1000000000.0
  {
    TenPow(23);
    TenPow(9);
    TenToEight();
    PowAdd(10, 8, 8);
    PowAdd(10, 8, 15);
    assert Pow(10, 9) == 10 * Pow(10, 8);
  }

  lemma TenToEight()
    ensures Pow(10, 8) == 100000000
  {
    assert Pow(10, 2) == 100;
    PowAdd(10, 2, 2);
    PowAdd(10, 4, 4);
  }

  ghost predicate NoneOfUnit(lo: real, hi: real, atLo: bool, atHi: bool, k: int) {
    forall n: int {:trigger Decimal(n, k)} :: !Between(lo, hi, atLo, atHi, Decimal(n, k))
  }

  /** With one decimal of a unit nearest, and none of the next larger unit, it is what is printed. */
  lemma OnlyChoice(lo: real, v: real, hi: real, atLo: bool, atHi: bool, m: int, exp: int, m': int, exp': int)
    requires Between(lo, hi, atLo, atHi, Decimal(m, exp)) && NoShorter(lo, hi, atLo, atHi, exp)
    requires Closest(lo, v, hi, atLo, atHi, m, exp) && Between(lo, hi, atLo, atHi, Decimal(m', exp'))
    requires NoneOfUnit(lo, hi, atLo, atHi, exp' + 1)
    requires forall n: int :: n != m' && Between(lo, hi, atLo, atHi, Decimal(n, exp')) ==>
               Gap(Decimal(m', exp'), v) < Gap(Decimal(n, exp'), v)
    ensures m == m' && exp == exp'
  {
    hide Between, Gap;
    if exp > exp' {
      TimesReal(m, exp - exp' - 1, exp);
      assert Decimal(Times(m, exp - exp' - 1), exp' + 1) == Decimal(m, exp);
    }
  }

  // The double nearest to 3.584 * 10^25. Its interval starts with 3584 * 10^22, which reads back.

  const MISSED: nat := 8344650268554688

  lemma MissedInterval()
    ensures Estimate(MISSED, 32, 25) && !Tight(32, false, 25)
    ensures Bottom(MISSED, 32, false) == 35840000000000000000000000.0 == Decimal(3584, 22)
    ensures Value(MISSED, 32) == 35840000000000002147483648.0
    ensures Ceiling(MISSED, 32, false) == 35840000000000004294967296.0
  {
    hide Two, Ten;
    TwoAt24();
    TenAt23();
    TenStep(22);
    TenStep(23);
    TenStep(24);
    TenStep(25);
  }

  /** The digit loop misses that, and prints 17 digits. */
  lemma LowerEndMissed(data: string)
    requires Printed(Start(MISSED, 32, false, 25), data)
    ensures DigitsValue(data) == 35840000000000002 && 25 - (|data| - 1) == 9
    ensures ReadsBack(Bottom(MISSED, 32, false), Ceiling(MISSED, 32, false), true, Decimal(3584, 22))
  {
    hide Printed, Start, Decimal, Closest, NoShorter, Tight;
    MissedInterval();
    PrintedMeans(MISSED, 32, false, 25, data);
    MissedChoice();
    OnlyChoice(Bottom(MISSED, 32, false), Value(MISSED, 32), Ceiling(MISSED, 32, false), false, true,
               DigitsValue(data), 25 - (|data| - 1), 35840000000000002, 9);
  }

  lemma MissedChoice()
    ensures var lo, v, hi := 35840000000000000000000000.0, 35840000000000002147483648.0, 35840000000000004294967296.0;
            && Between(lo, hi, false, true, Decimal(35840000000000002, 9))
            && NoneOfUnit(lo, hi, false, true, 10)
            && forall n: int :: n != 35840000000000002 && Between(lo, hi, false, true, Decimal(n, 9)) ==>
                 Gap(Decimal(35840000000000002, 9), v) < Gap(Decimal(n, 9), v)
  {
    hide Ten;
    TenAt23();
    TenStep(9);
  }

  /** Twice 2^81 has 25 digits; the 16 that are printed do not read back as 2^81. */
  lemma DigitsOfTwice(data: string)
    requires Printed(Start(IMPLICIT_BIT, 29, true, 24), data)
    ensures Estimate(IMPLICIT_BIT, 29, 24) && Attains(Value(IMPLICIT_BIT, 29), true, Ten(24))
    ensures AllDigits(data) && DigitsValue(data) == 4835703278458517 && 24 - (|data| - 1) == 9
    ensures Decimal(4835703278458517, 9) > Value(IMPLICIT_BIT, 29) + Above(29)
  {
    hide Printed, Start, Decimal, Closest, NoShorter;
    TwiceInterval();
    PrintedMeans(IMPLICIT_BIT, 29, true, 24, data);
    TwiceChoice();
    TwicePrinted(IMPLICIT_BIT, 29, Decimal(DigitsValue(data), 24 - (|data| - 1)));
    var lo, hi := Bottom(IMPLICIT_BIT, 29, true), Ceiling(IMPLICIT_BIT, 29, true);
    OnlyChoice(lo, 2.0 * Value(IMPLICIT_BIT, 29), hi, true, true,
               DigitsValue(data), 24 - (|data| - 1), 4835703278458517, 9);
  }

  lemma TwiceInterval()
    ensures Value(IMPLICIT_BIT, 29) == 2417851639229258349412352.0 && Above(29) == 268435456.0
    ensures Bottom(IMPLICIT_BIT, 29, true) == 4835703278458516430389248.0
    ensures Ceiling(IMPLICIT_BIT, 29, true) == 4835703278458517235695616.0
    ensures Ten(24) == 1000000000000000000000000.0 && Ten(25) == 10000000000000000000000000.0
  {
    hide Two, Ten;
    TwoAt24();
    TenAt23();
    TenStep(23);
    TenStep(24);
  }

  lemma TwiceChoice()
    ensures var lo, v, hi := 4835703278458516430389248.0, 4835703278458516698824704.0, 4835703278458517235695616.0;
            && Between(lo, hi, true, true, Decimal(4835703278458517, 9))
            && NoneOfUnit(lo, hi, true, true, 10)
            && forall n: int :: n != 4835703278458517 && Between(lo, hi, true, true, Decimal(n, 9)) ==>
                 Gap(Decimal(4835703278458517, 9), v) < Gap(Decimal(n, 9), v)
  {
    hide Ten;
    TenAt23();
    TenStep(9);
  }

  /** Twice 2^807 has a digit more than 2^807, and the first character is no digit. */
  lemma FirstIsNoDigit(data: string)
    requires Printed(Start(IMPLICIT_BIT, 755, true, 242), data)
    ensures Estimate(IMPLICIT_BIT, 755, 242) && Attains(Value(IMPLICIT_BIT, 755), true, Ten(242))
    ensures !AllDigits(data)
  {
    hide Printed, Start, Pow, Two, Ten;
    LargePowers();
    TwoPow(755);
    TenPow(242);
    TenStep(242);
    PrintedMeans(IMPLICIT_BIT, 755, true, 242, data);
  }

  lemma LargePowers()
    ensures var x, y := Pow(2, 755), Pow(10, 242);
            y <= IMPLICIT_BIT * x && 10 * y <= 2 * IMPLICIT_BIT * x && 2 * IMPLICIT_BIT * x + x < 20 * y
  {
    CloseEighths();
    TenToEight();
    assert Pow(2, 4) == 16 && Pow(2, 3) == 8 && Pow(10, 2) == 100;
    hide Pow;
    PowAdd(10, 8, 8);
    PowAdd(10, 16, 2);
    PowAdd(10, 224, 18);
    PowAdd(2, 4, 4);
    PowAdd(2, 8, 3);
    PowAdd(2, 744, 11);
  }

  /** The eighth powers of 2^93 and 10^28, which are close to each other. */
  lemma CloseEighths()
    ensures 21 * Pow(10, 224) <= 25 * Pow(2, 744) && 0 < Pow(2, 744) < Pow(10, 224)
  {
    hide Pow;
    ClosePowers();
    SquareRatio(Pow(2, 93), Pow(10, 28), 49, 50);
    PowAdd(2, 93, 93);
    PowAdd(10, 28, 28);
    SquareRatio(Pow(2, 186), Pow(10, 56), 24, 25);
    PowAdd(2, 186, 186);
    PowAdd(10, 56, 56);
    SquareRatio(Pow(2, 372), Pow(10, 112), 23, 25);
    PowAdd(2, 372, 372);
    PowAdd(10, 112, 112);
  }

  lemma ClosePowers()
    ensures 49 * Pow(10, 28) <= 50 * Pow(2, 93) && 0 < Pow(2, 93) < Pow(10, 28)
  {
    TenToEight();
    assert Pow(10, 4) == 10000 && Pow(2, 29) == 0x2000_0000 by {
      assert Pow(10, 2) == 100 && Pow(2, 4) == 16 && Pow(2, 5) == 32;
      PowAdd(10, 2, 2);
      PowAdd(2, 4, 4);
      PowAdd(2, 8, 8);
      PowAdd(2, 16, 8);
      PowAdd(2, 24, 5);
    }
    hide Pow;
    PowAdd(10, 8, 8);
    PowAdd(10, 16, 8);
    PowAdd(10, 24, 4);
    PowWord();
    PowAdd(2, 32, 32);
    PowAdd(2, 64, 29);
  }

  lemma SquareRatio(a: int, b: int, n: nat, m: nat)
    requires 0 < a < b && n * b <= m * a
    ensures a * a < b * b && (n * n) * (b * b) <= (m * m) * (a * a)
  {
    var x, y := n * b, m * a;
    Squared(n, b);
    Squared(m, a);
    MulMonotone(0, n, b);
    if x < y {
      SquareOrder(x, y);
    }
    SquareOrder(a, b);
  }

  lemma Squared(n: int, b: int)
    ensures (n * b) * (n * b) == (n * n) * (b * b)
  {
    MulSwap(n, b, n, b);
  }
}
