/** Decimals as real numbers, and intervals of them. */
module RealDecimals {
  import opened Words
  import opened Decimals

  ghost function Two(e: int): real
    decreases if e < 0 then -e else e
  {
    if e == 0 then 1.0 else if e > 0 then 2.0 * Two(e - 1) else Two(e + 1) / 2.0
  }

  ghost function Ten(e: int): real
    decreases if e < 0 then -e else e
  {
    if e == 0 then 1.0 else if e > 0 then 10.0 * Ten(e - 1) else Ten(e + 1) / 10.0
  }

  /** `m * 10^k` */
  ghost function Decimal(m: int, k: int): real {
    m as real * Ten(k)
  }

  lemma {:induction false} TenPositive(e: int)
    ensures Ten(e) > 0.0
    decreases if e < 0 then -e else e
  {
    if e > 0 {
      TenPositive(e - 1);
    } else if e < 0 {
      TenPositive(e + 1);
    }
  }

  lemma TenStep(e: int)
    ensures Ten(e + 1) == 10.0 * Ten(e)
  {
  }

  lemma {:induction false} TwoPow(n: nat)
    ensures Two(n) == Pow(2, n) as real && Two(-(n as int)) * Pow(2, n) as real == 1.0
  {
    if n == 0 {
    } else {
      TwoPow(n - 1);
      DoubleInverse(Two(1 - n), Pow(2, n - 1));
    }
  }

  lemma DoubleInverse(x: real, p: int)
    requires x * p as real == 1.0
    ensures (x / 2.0) * (2 * p) as real == 1.0
    ensures (x / 10.0) * (10 * p) as real == 1.0
  {
  }

  lemma {:induction false} TenPow(n: nat)
    ensures Ten(n) == Pow(10, n) as real && Ten(-(n as int)) * Pow(10, n) as real == 1.0
  {
    if n == 0 {
    } else {
      TenPow(n - 1);
      DoubleInverse(Ten(1 - n), Pow(10, n - 1));
    }
  }

  lemma CastMul(x: int, y: int)
    ensures (x * y) as real == x as real * y as real
  {
  }

  lemma CastOrder(x: int, y: int)
    ensures x < y <==> x as real < y as real
    ensures x == y <==> x as real == y as real
  {
  }

  lemma ScaleOrder(x: real, y: real, s: real)
    requires s > 0.0
    ensures x < y <==> x * s < y * s
    ensures x == y <==> x * s == y * s
  {
  }

  lemma ScaledOrder(x: real, y: real, k: real, p: real, q: real)
    requires k > 0.0 && x * k == p && y * k == q
    ensures x < y <==> p < q
    ensures x == y <==> p == q
  {
    ScaleOrder(x, y, k);
  }

  lemma Regroup(x: real, y: real, z: real)
    ensures x * (y * z) == (x * y) * z
    ensures x * (y * z) == y * (x * z)
  {
  }

  lemma {:induction false} TimesReal(x: int, j: nat, k: int)
    ensures Times(x, j) as real * Ten(k - j) == x as real * Ten(k)
  {
    if j == 0 {
    } else {
      TimesReal(x, j - 1, k);
      TenStep(k - j);
      CastMul(10, Times(x, j - 1));
      Regroup(Times(x, j - 1) as real, 10.0, Ten(k - j));
    }
  }

  lemma SwapLast(x: real, y: real, z: real)
    ensures (x * y) * z == (x * z) * y
  {
  }

  // Intervals

  /** `x` lies in the interval from `lo` to `hi`; `atLo` and `atHi` say which ends belong to it. */
  ghost predicate Between(lo: real, hi: real, atLo: bool, atHi: bool, x: real) {
    (if atLo then lo <= x else lo < x) && (if atHi then x <= hi else x < hi)
  }

  /** No decimal with a larger unit than `10^exp` lies in the interval. */
  ghost predicate NoShorter(lo: real, hi: real, atLo: bool, atHi: bool, exp: int) {
    forall m: int, k: int {:trigger Decimal(m, k)} :: k > exp ==> !Between(lo, hi, atLo, atHi, Decimal(m, k))
  }

  ghost function Gap(x: real, y: real): real {
    if x < y then y - x else x - y
  }

  lemma GapTimes(x: real, y: real, k: real, p: real, q: real)
    requires k > 0.0 && x * k == p && y * k == q
    ensures Gap(x, y) * k == Gap(p, q)
  {
    ScaleOrder(x, y, k);
    assert (x - y) * k == p - q;
    assert (y - x) * k == q - p;
  }

  /** Of the decimals with unit `10^exp` in the interval, none is nearer to `v`. */
  ghost predicate NoneNearer(lo: real, v: real, hi: real, atLo: bool, atHi: bool, m: int, exp: int) {
    forall m': int {:trigger Decimal(m', exp)} :: Between(lo, hi, atLo, atHi, Decimal(m', exp)) ==>
      Gap(Decimal(m, exp), v) <= Gap(Decimal(m', exp), v)
  }
}
