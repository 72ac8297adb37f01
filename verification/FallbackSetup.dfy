/** How `fallback_format` sets up its division, from a significand `f` and an exponent `e`. */
module FallbackSetup {
  import opened Words
  import opened Decimals
  import opened BigNat
  import opened BigintModel
  import opened DigitLoop

  const IMPLICIT_BIT: int := 0x10_0000_0000_0000

  /** A double as `fp::assign` takes it apart; `closer` when the predecessor is nearer. */
  predicate IsDouble(f: nat, closer: bool) {
    0 < f < 2 * IMPLICIT_BIT && (closer ==> f == IMPLICIT_BIT)
  }

  /** Numerator and lower gap start with the same bigit exponent. They keep it, so that a remainder
      equal to the gap is noticed, unless the numerator has to be aligned with the denominator. */
  predicate Tight(e: int, closer: bool, exp10: int)
    requires e >= 0 ==> exp10 >= 0
  {
    var shift: nat := if closer then 2 else 1;
    if e >= 0 then e / 32 <= exp10 / 32
    else if exp10 < 0 then -exp10 / 32 <= (shift - e) / 32
    else true
  }

  /** The numbers `fallback_format` starts from. In the first case it does not divide by `2^shift`
      but always by 2. */
  ghost function Start(f: nat, e: int, closer: bool, exp10: int): Scaled
    requires e >= 0 ==> exp10 >= 0
  {
    var shift: nat := if closer then 2 else 1;
    var significand := f * Pow(2, shift);
    var above := if closer then 2 else 1;
    var even, tight := f % 2 == 0, Tight(e, closer, exp10);
    if e >= 0 then
      Scaled(significand * Pow(2, e), Pow(10, exp10) * 2, Pow(2, e), Pow(2, e) * above, even, tight)
    else if exp10 < 0 then
      Scaled(Pow(10, -exp10) * significand, Pow(2, shift - e), Pow(10, -exp10), Pow(10, -exp10) * above, even, tight)
    else Scaled(significand, Pow(10, exp10) * Pow(2, shift - e), 1, above, even, tight)
  }

  ghost function ScaledOf(numerator: Bigint, denominator: Bigint, lower: Bigint, upper: Bigint,
                          even: bool, tight: bool): Scaled
    reads numerator, denominator, lower, upper
  {
    Scaled(numerator.Value(), denominator.Value(), lower.Value(), upper.Value(), even, tight)
  }

  /** A word shifted left. */
  method Shifted(n: u64, shift: nat) returns (b: Bigint)
    requires n > 0
    ensures fresh(b) && b.Value() == n * Pow(2, shift) && Top(b.bigits) && b.exp == shift / 32
    ensures Val(b.bigits) == n * Pow(2, shift % 32)
  {
    b := new Bigint();
    b.AssignU64(n);
    if shift > 0 {
      b.ShiftLeft(shift);
    }
  }

  /** A power of ten shifted left. */
  method TenShifted(exp10: nat, shift: nat) returns (b: Bigint)
    requires exp10 < 0x4000_0000
    ensures fresh(b) && b.Value() == Pow(10, exp10) * Pow(2, shift) && Top(b.bigits)
    ensures b.exp == exp10 / 32 + shift / 32
  {
    b := new Bigint();
    b.AssignPow10(exp10);
    if shift > 0 {
      b.ShiftLeft(shift);
    }
  }

  // The three ways to set up the division; `upper` is `lower` unless it differs from it.

  method PrepareIntegral(f: nat, e: nat, closer: bool, exp10: nat)
    returns (numerator: Bigint, denominator: Bigint, lower: Bigint, upper: Bigint)
    requires IsDouble(f, closer) && exp10 < 0x4000_0000
    ensures fresh(numerator) && fresh(denominator) && fresh(lower) && fresh(upper)
    ensures Shapes(numerator, denominator, lower, upper, Tight(e, closer, exp10))
    ensures Start(f, e, closer, exp10) ==
            ScaledOf(numerator, denominator, lower, upper, f % 2 == 0, Tight(e, closer, exp10))
  {
    IntegralStart(f, e, closer, exp10);
    hide Pow, Val, Shift, Times, Start, Tight;
    PowPositive(2, e);
    numerator := Shifted(f * if closer then 4 else 2, e);
    lower := Shifted(1, e);
    upper := lower;
    if closer {
      upper := Shifted(1, e + 1);
    }
    denominator := TenShifted(exp10, 1);
    Larger(Pow(2, e), f * if closer then 4 else 2);
  }

  lemma IntegralStart(f: nat, e: nat, closer: bool, exp10: nat)
    ensures var n := f * if closer then 4 else 2;
            && Start(f, e, closer, exp10) ==
               Scaled(n * Pow(2, e), Pow(10, exp10) * 2, Pow(2, e), 1 * Pow(2, if closer then e + 1 else e),
                      f % 2 == 0, Tight(e, closer, exp10))
            && (e > exp10 ==> forall j: nat :: Times(n * Pow(2, e), j) != Pow(10, exp10) * 2)
    ensures (Tight(e, closer, exp10) <==> e / 32 <= exp10 / 32) && Pow(2, 1) == 2
  {
    var n := f * if closer then 2 else 1;
    assert Pow(2, 1) == 2 && Pow(2, 2) == 4;
    MulAssoc(2, n, Pow(2, e));
    NeverEqual(n, e, exp10);
    if e > exp10 {
      assert (f * if closer then 4 else 2) * Pow(2, e) == 2 * (n * Pow(2, e));
    }
  }

  method PrepareSmall(f: nat, e: int, closer: bool, exp10: int)
    returns (numerator: Bigint, denominator: Bigint, lower: Bigint, upper: Bigint)
    requires IsDouble(f, closer) && -0x4000_0000 < exp10 < 0x4000_0000 && e < 0 && exp10 < 0
    ensures fresh(numerator) && fresh(denominator) && fresh(lower) && fresh(upper)
    ensures Shapes(numerator, denominator, lower, upper, Tight(e, closer, exp10))
    ensures Start(f, e, closer, exp10) ==
            ScaledOf(numerator, denominator, lower, upper, f % 2 == 0, Tight(e, closer, exp10))
  {
    var shift: nat := if closer then 2 else 1;
    SmallStart(f, e, closer, exp10);
    hide Pow, Val, Shift, Start, Tight;
    PowPositive(10, -exp10);
    numerator := TenShifted(-exp10, 0);
    lower := new Bigint();
    lower.Assign(numerator);
    upper := lower;
    if closer {
      upper := new Bigint();
      upper.Assign(numerator);
      upper.ShiftLeft(1);
    }
    var significand := f * if closer then 4 else 2;
    numerator.Multiply64(significand);
    denominator := Shifted(1, shift - e);
    OneBigit(denominator.bigits, (shift - e) % 32);
    Larger(Pow(10, -exp10), significand);
  }

  lemma SmallStart(f: nat, e: int, closer: bool, exp10: int)
    requires e < 0 && exp10 < 0
    ensures var shift: nat, ten := if closer then 2 else 1, Pow(10, -exp10);
            && Start(f, e, closer, exp10) ==
               Scaled(ten * (f * if closer then 4 else 2), Pow(2, shift - e), ten, ten * if closer then 2 else 1,
                      f % 2 == 0, Tight(e, closer, exp10))
            && (Tight(e, closer, exp10) <==> -exp10 / 32 <= (shift - e) / 32)
    ensures Pow(2, 0) == 1 && Pow(2, 1) == 2
  {
    assert Pow(2, 1) == 2 && Pow(2, 2) == 4;
  }

  method PrepareFraction(f: nat, e: int, closer: bool, exp10: int)
    returns (numerator: Bigint, denominator: Bigint, lower: Bigint, upper: Bigint)
    requires IsDouble(f, closer) && -0x4000_0000 < exp10 < 0x4000_0000 && e < 0 <= exp10
    ensures fresh(numerator) && fresh(denominator) && fresh(lower) && fresh(upper)
    ensures Shapes(numerator, denominator, lower, upper, Tight(e, closer, exp10))
    ensures Start(f, e, closer, exp10) ==
            ScaledOf(numerator, denominator, lower, upper, f % 2 == 0, Tight(e, closer, exp10))
  {
    var shift: nat := if closer then 2 else 1;
    assert Pow(2, 1) == 2 && Pow(2, 2) == 4;
    numerator := Shifted(f * if closer then 4 else 2, 0);
    denominator := TenShifted(exp10, shift - e);
    lower := Shifted(1, 0);
    upper := lower;
    if closer {
      upper := Shifted(2, 0);
    }
  }

  lemma Larger(gap: int, k: int)
    requires gap > 0 && k > 1
    ensures gap * k > gap && k * gap > gap
  {
    MulMonotone(2, k, gap);
  }

  /** A number with more factors of two than a power of ten never meets it by multiplying by ten. */
  lemma NeverEqual(f: nat, e: nat, k: nat)
    ensures e > k ==> forall j: nat :: Times(2 * (f * Pow(2, e)), j) != Pow(10, k) * 2
  {
    if e > k {
      forall j: nat
        ensures Times(2 * (f * Pow(2, e)), j) != Pow(10, k) * 2
      {
        var five, two := Pow(5, j), Pow(2, e);
        TimesIsPow(2 * (f * two), j);
        PowMul(5, 2, j);
        PowAdd(2, e, j);
        EqualToPowerOfTen(f * five, e + j, k);
        Reordered(f, two, five, Pow(2, j));
      }
    }
  }

  lemma Reordered(f: int, two: int, five: int, more: int)
    ensures 2 * (f * two) * (five * more) == 2 * ((f * five) * (two * more))
  {
    MulSwap(f, two, five, more);
    MulAssoc(2, f * two, five * more);
  }

  lemma OneBigit(s: seq<u32>, bits: nat)
    requires Top(s) && bits < 32 && Val(s) == Pow(2, bits)
    ensures |s| == 1
  {
    PowWord();
    PowMonotone(2, bits + 1, 32);
    PowPositive(2, bits);
    TopBound(s);
    if |s| > 1 {
      ShiftGrows(1, |s| - 1);
    }
  }

  lemma {:induction false} PowFiveOdd(k: nat)
    ensures Pow(5, k) % 2 == 1
  {
    if k == 0 {
    } else {
      PowFiveOdd(k - 1);
      FivefoldOdd(Pow(5, k - 1));
    }
  }

  lemma FivefoldOdd(x: nat)
    requires x % 2 == 1
    ensures (5 * x) % 2 == 1
  {
    DivUnique(5 * x, 2, 2 * x + x / 2, 1);
  }

  /** A power of ten has only as many factors of two as of five. */
  lemma EqualToPowerOfTen(f: nat, e: nat, k: nat)
    ensures f * Pow(2, e) == Pow(10, k) ==> e <= k
  {
    if f * Pow(2, e) == Pow(10, k) && e > k {
      var h := Pow(2, e - k - 1);
      PowAdd(2, k, e - k);
      PowMul(5, 2, k);
      PowPositive(2, k);
      PowFiveOdd(k);
      EvenFactor(f, Pow(2, k), h, Pow(5, k));
    }
  }

  lemma EvenFactor(f: int, p: int, h: int, five: int)
    requires p > 0 && f * (p * (2 * h)) == five * p
    ensures five % 2 == 0
  {
    MulAssoc(f, 2 * h, p);
    assert (f * (2 * h)) * p == five * p;
    MulCancel(f * (2 * h), five, p);
    assert five == 2 * (f * h);
  }

  lemma MulCancel(x: int, y: int, p: int)
    requires p > 0 && x * p == y * p
    ensures x == y
  {
    if x < y {
      MulMonotone(x + 1, y, p);
    } else if y < x {
      MulMonotone(y + 1, x, p);
    }
  }
}
