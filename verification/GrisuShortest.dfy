/** fmt's 64-bit digit generation for the shortest digits, which gives up where it is not sure. */
module GrisuShortest {
  import opened Words
  import opened Decimals
  import opened Grisu
  import opened RealDecimals

  // Everything is measured in units in which the upper bound is `top`, and the lower bound `width`
  // below it. `unit` is the place of the last digit.

  ghost function Multiple(m: int, unit: int): int { m * unit }

  ghost predicate Covers(top: int, width: int, x: int) {
    top - width <= x <= top
  }

  /** No multiple of the unit lies above the lower bound. */
  ghost predicate NoneIn(top: int, width: int, unit: int) {
    forall m: int {:trigger Multiple(m, unit)} :: !(top - width < Multiple(m, unit) <= top)
  }

  ghost function Distance(x: int, y: int): int {
    if x < y then y - x else x - y
  }

  /** Of the multiples within the bounds, none is nearer to `p` than `d` units are. */
  ghost predicate Best(top: int, width: int, unit: int, d: int, p: int) {
    forall m: int {:trigger Multiple(m, unit)} :: Covers(top, width, Multiple(m, unit)) ==>
      Distance(Multiple(d, unit), p) <= Distance(Multiple(m, unit), p)
  }

  /** `d` units lie safely within the bounds, and are the best for every number that the scaled one
      may stand for; `t` is the error of a scaled number. */
  ghost predicate Settled(top: int, width: int, unit: int, t: int, diff: int, d: int) {
    && top - width + 4 * t <= Multiple(d, unit) <= top - 2 * t
    && Best(top, width, unit, d, top - (diff - 1) * t) && Best(top, width, unit, d, top - (diff + 1) * t)
  }

  lemma Apart(m: int, d: int, unit: int)
    requires unit > 0
    ensures m > d ==> Multiple(m, unit) >= Multiple(d, unit) + unit
    ensures m < d ==> Multiple(m, unit) <= Multiple(d, unit) - unit
  {
    MulAdd(d, 1, unit);
    MulAdd(d, -1, unit);
    if m > d {
      MulMonotone(d + 1, m, unit);
    } else if m < d {
      MulMonotone(m, d - 1, unit);
    }
  }

  // Approaching a number from above

  /** None of the multiples above `d` units is nearer to `p`. */
  ghost predicate BestAbove(top: int, width: int, unit: int, d: int, p: int) {
    forall m: int {:trigger Multiple(m, unit)} :: m > d && Covers(top, width, Multiple(m, unit)) ==>
      Distance(Multiple(d, unit), p) <= Distance(Multiple(m, unit), p)
  }

  /** All of those below are farther from it. */
  ghost predicate WorseBelow(top: int, width: int, unit: int, d: int, p: int) {
    forall m: int {:trigger Multiple(m, unit)} :: m < d && Covers(top, width, Multiple(m, unit)) ==>
      Distance(Multiple(d, unit), p) < Distance(Multiple(m, unit), p)
  }

  /** One unit less would be nearer, at a distance of `up` below the top. */
  predicate Lowers(up: int, unit: int, rest: int, width: int) {
    rest < up && width - rest >= unit && (rest + unit < up || up - rest >= rest + unit - up)
  }

  lemma StartAbove(top: int, width: int, unit: int, d: int, rest: int, p: int)
    requires top == Multiple(d, unit) + rest && 0 <= rest < unit
    ensures BestAbove(top, width, unit, d, p)
  {
    forall m: int | m > d
      ensures Multiple(m, unit) > top
    {
      Apart(m, d, unit);
    }
  }

  lemma LowerAbove(top: int, width: int, unit: int, d: int, rest: int, up: int)
    requires unit > 0 && top == Multiple(d, unit) + rest && Lowers(up, unit, rest, width)
    requires BestAbove(top, width, unit, d, top - up)
    ensures BestAbove(top, width, unit, d - 1, top - up) && top == Multiple(d - 1, unit) + (rest + unit)
  {
    MulAdd(d, -1, unit);
    forall m: int {:trigger Multiple(m, unit)} | m > d - 1 && Covers(top, width, Multiple(m, unit))
      ensures Distance(Multiple(d - 1, unit), top - up) <= Distance(Multiple(m, unit), top - up)
    {
      assert m > d || m == d;
    }
  }

  lemma EndBelow(top: int, width: int, unit: int, d: int, rest: int, up: int)
    requires unit > 0 && top == Multiple(d, unit) + rest && !Lowers(up, unit, rest, width)
    ensures WorseBelow(top, width, unit, d, top - up)
  {
    forall m: int {:trigger Multiple(m, unit)} | m < d && Covers(top, width, Multiple(m, unit))
      ensures Distance(Multiple(d, unit), top - up) < Distance(Multiple(m, unit), top - up)
    {
      Apart(m, d, unit);
    }
  }

  /** The second test: whether one unit less would be nearer to the lowest number it may stand for. */
  predicate Weeds(down: int, unit: int, rest: int, width: int) {
    rest < down && width - rest >= unit && (rest + unit < down || down - rest > rest + unit - down)
  }

  /** Without doubt, what is the best for the highest number is it for the lowest one too. */
  lemma BestForBoth(top: int, width: int, unit: int, d: int, rest: int, up: int, down: int)
    requires unit > 0 && top == Multiple(d, unit) + rest && up < down && !Weeds(down, unit, rest, width)
    requires BestAbove(top, width, unit, d, top - up) && WorseBelow(top, width, unit, d, top - up)
    ensures Best(top, width, unit, d, top - up) && Best(top, width, unit, d, top - down)
  {
    forall m: int {:trigger Multiple(m, unit)} | Covers(top, width, Multiple(m, unit))
      ensures Distance(Multiple(d, unit), top - up) <= Distance(Multiple(m, unit), top - up)
      ensures Distance(Multiple(d, unit), top - down) <= Distance(Multiple(m, unit), top - down)
    {
      Apart(m, d, unit);
      assert m > d || m == d || m < d;
    }
  }

  /** With doubt, nothing is the best for both. */
  lemma NoneForBoth(top: int, width: int, unit: int, d: int, rest: int, up: int, down: int, d': int)
    requires unit > 0 && top == Multiple(d, unit) + rest && 0 <= rest && Weeds(down, unit, rest, width)
    requires WorseBelow(top, width, unit, d, top - up)
    requires Covers(top, width, Multiple(d', unit)) && Best(top, width, unit, d', top - up)
    ensures !Best(top, width, unit, d', top - down)
  {
    assert Covers(top, width, Multiple(d, unit));
    MulAdd(d, -1, unit);
    assert Covers(top, width, Multiple(d - 1, unit));
    Apart(d', d, unit);
    assert d' >= d;
  }

  /** There is only one. */
  lemma OneForBoth(top: int, width: int, unit: int, d: int, up: int, down: int, d': int)
    requires unit > 0 && up < down
    requires Covers(top, width, Multiple(d, unit)) && Covers(top, width, Multiple(d', unit))
    requires Best(top, width, unit, d, top - up) && Best(top, width, unit, d, top - down)
    requires Best(top, width, unit, d', top - up) && Best(top, width, unit, d', top - down)
    ensures d == d'
  {
    Apart(d', d, unit);
  }

  /** The last test decides whether anything settles the digits. */
  lemma SettledWhen(top: int, width: int, unit: int, t: int, diff: int, d: int, rest: int)
    requires unit > 0 && t > 0 && top == Multiple(d, unit) + rest && 0 <= rest <= width
    requires var p := top - (diff - 1) * t;
             BestAbove(top, width, unit, d, p) && WorseBelow(top, width, unit, d, p)
    ensures !Weeds((diff + 1) * t, unit, rest, width) && 2 * t <= rest <= width - 4 * t
            ==> Settled(top, width, unit, t, diff, d)
    ensures Weeds((diff + 1) * t, unit, rest, width) || !(2 * t <= rest <= width - 4 * t)
            ==> forall d' :: !Settled(top, width, unit, t, diff, d')
  {
    var up, down := (diff - 1) * t, (diff + 1) * t;
    hide Best, BestAbove, WorseBelow, Weeds, Multiple;
    DiffGrows(diff, t);
    if !Weeds(down, unit, rest, width) {
      BestForBoth(top, width, unit, d, rest, up, down);
    }
    forall d' | Settled(top, width, unit, t, diff, d')
      ensures !Weeds(down, unit, rest, width) && d' == d
    {
      if Weeds(down, unit, rest, width) {
        NoneForBoth(top, width, unit, d, rest, up, down, d');
      } else {
        OneForBoth(top, width, unit, d, up, down, d');
      }
    }
  }

  /** A last digit of zero does not come within the bounds, because the digits before it did not. */
  lemma LastNotZero(top: int, width: int, unit: int, buf: string, rest: int)
    requires buf != "" && AllDigits(buf) && NoneIn(top, width, 10 * unit)
    requires top == Multiple(DigitsValue(buf), unit) + rest && 0 <= rest < width
    ensures buf[|buf| - 1] != '0'
  {
    var q := DigitsValue(buf[..|buf| - 1]);
    TenfoldMultiple(q, unit);
    assert DigitsValue(buf) == 10 * q + (buf[|buf| - 1] as int - '0' as int);
    assert !(top - width < Multiple(q, 10 * unit) <= top);
  }

  lemma TenfoldMultiple(q: int, unit: int)
    ensures Multiple(q, 10 * unit) == Multiple(10 * q, unit) == 10 * Multiple(q, unit)
  {
    MulAssoc(q, 10, unit);
    MulAssoc(10, q, unit);
  }

  /** fmt's `grisu_shortest_handler`; `diff` is how far the scaled number is below the upper bound. */
  class ShortestHandler {
    var buf: string
    const diff: u64

    constructor (diff: u64)
      ensures buf == "" && this.diff == diff
    {
      buf := "";
      this.diff := diff;
    }

    /** Lowers the digits as long as that brings them nearer to the number `up` below the top. */
    method Round(up: u64, divisor: u64, remainder: u64, error: u64, ghost top: int) returns (rest: u64)
      requires buf != "" && AllDigits(buf) && 0 < divisor && remainder < divisor && remainder < error
      requires top == Multiple(DigitsValue(buf), divisor) + remainder && NoneIn(top, error, 10 * divisor)
      modifies this`buf
      ensures AllDigits(buf) && |buf| == |old(buf)|
      ensures top == Multiple(DigitsValue(buf), divisor) + rest && rest <= error
      ensures BestAbove(top, error, divisor, DigitsValue(buf), top - up)
      ensures WorseBelow(top, error, divisor, DigitsValue(buf), top - up)
    {
      hide Multiple, BestAbove, WorseBelow, NoneIn, DigitsValue;
      rest := remainder;
      StartAbove(top, error, divisor, DigitsValue(buf), rest, top - up);
      while rest < up && error - rest >= divisor && (rest + divisor < up || up - rest >= rest + divisor - up)
        invariant AllDigits(buf) && |buf| == |old(buf)| && rest <= error
        invariant top == Multiple(DigitsValue(buf), divisor) + rest
        invariant BestAbove(top, error, divisor, DigitsValue(buf), top - up)
        decreases error - rest
      {
        ghost var d, was := DigitsValue(buf), buf;
        LastNotZero(top, error, divisor, buf, rest);
        LowerAbove(top, error, divisor, d, rest, up);
        var last := |buf| - 1;
        LowerLast(buf);
        buf := buf[last := (buf[last] as int - 1) as char];
        rest := rest + divisor;
      }
      EndBelow(top, error, divisor, DigitsValue(buf), rest, up);
    }

    /** One digit. `t` is the error of a scaled number at this place: a power of ten in the fraction. */
    method OnDigit(digit: char, divisor: u64, remainder: u64, error: u64, t: u64, ghost top: int)
      returns (r: Result)
      requires AllDigits(buf) && IsDigit(digit) && remainder < divisor
      requires 0 < t && 1 <= diff && (diff + 1) * t <= error && 4 * t <= error
      requires top == Multiple(DigitsValue(buf + [digit]), divisor) + remainder
      requires NoneIn(top, error, 10 * divisor)
      modifies this`buf
      ensures AllDigits(buf) && |buf| == |old(buf)| + 1
      ensures r == More <==> remainder >= error
      ensures r == More ==> buf == old(buf) + [digit]
      ensures r == More <==> NoneIn(top, error, divisor)
      ensures r == Done ==> Settled(top, error, divisor, t, diff, DigitsValue(buf))
      ensures r == Error ==> forall d :: !Settled(top, error, divisor, t, diff, d)
    {
      hide Multiple, BestAbove, WorseBelow, NoneIn, DigitsValue, Settled;
      buf := buf + [digit];
      NoneWhen(top, error, divisor, DigitsValue(buf), remainder);
      if remainder >= error {
        return More;
      }
      DiffGrows(diff, t);
      var up: u64 := (diff - 1) * t;
      var rest := Round(up, divisor, remainder, error, top);
      var down: u64 := (diff + 1) * t;
      SettledWhen(top, error, divisor, t, diff, DigitsValue(buf), rest);
      if rest < down && error - rest >= divisor && (rest + divisor < down || down - rest > rest + divisor - down) {
        return Error;
      }
      return if 2 * t <= rest && rest <= error - 4 * t then Done else Error;
    }
  }

  lemma LowerLast(buf: string)
    requires buf != "" && AllDigits(buf) && buf[|buf| - 1] != '0'
    ensures var buf' := buf[|buf| - 1 := (buf[|buf| - 1] as int - 1) as char];
            AllDigits(buf') && DigitsValue(buf') == DigitsValue(buf) - 1
  {
    var last := |buf| - 1;
    var buf' := buf[last := (buf[last] as int - 1) as char];
    assert buf'[..last] == buf[..last];
  }

  lemma DiffGrows(diff: int, t: int)
    ensures (diff + 1) * t == (diff - 1) * t + 2 * t
    ensures diff >= 1 && t > 0 ==> 0 <= (diff - 1) * t
  {
    MulAdd(diff - 1, 2, t);
    if diff >= 1 && t > 0 {
      MulMonotone(0, diff - 1, t);
    }
  }

  /** There is no multiple within the bounds exactly when the rest is as large as their distance. */
  lemma NoneWhen(top: int, width: int, unit: int, d: int, rest: int)
    requires top == Multiple(d, unit) + rest && 0 <= rest < unit
    ensures NoneIn(top, width, unit) <==> rest >= width
  {
    if rest < width {
      assert top - width < Multiple(d, unit) <= top;
    } else {
      forall m: int {:trigger Multiple(m, unit)}
        ensures !(top - width < Multiple(m, unit) <= top)
      {
        Apart(m, d, unit);
        assert m > d || m == d || m < d;
      }
    }
  }

  // The generator. At place `10^exp` everything is scaled by `10^-exp` in the fraction.

  ghost function Scale(exp: int): nat {
    if exp >= 0 then 1 else Pow(10, -exp)
  }

  ghost function Unit(one: nat, exp: int): int {
    if exp >= 0 then Times(one, exp) else one
  }

  /** At place `10^exp` is the first multiple within the bounds. */
  ghost predicate FirstPlace(f: nat, one: nat, error: nat, exp: int) {
    && NoneIn(f * Scale(exp), error * Scale(exp), 10 * Unit(one, exp))
    && !NoneIn(f * Scale(exp), error * Scale(exp), Unit(one, exp))
  }

  ghost predicate SettledAt(f: nat, one: nat, error: nat, diff: nat, exp: int, d: int) {
    Settled(f * Scale(exp), error * Scale(exp), Unit(one, exp), Scale(exp), diff, d)
  }

  /** How the loops end: at the first place where there is a multiple, and done exactly when one is sure
      to be the best. */
  ghost predicate Ended(f: nat, one: nat, error: nat, diff: nat, exp: int, done: bool, d: int) {
    && FirstPlace(f, one, error, exp) && (done ==> SettledAt(f, one, error, diff, exp, d))
    && (!done ==> forall d' :: !SettledAt(f, one, error, diff, exp, d'))
  }

  predicate Given(f: nat, error: nat, diff: nat) {
    4 <= error <= f && 1 <= diff < error
  }

  lemma NothingAbove(f: nat, error: nat, unit: int)
    requires error <= f < unit
    ensures NoneIn(f, error, unit)
  {
    forall m: int {:trigger Multiple(m, unit)}
      ensures !(f - error < Multiple(m, unit) <= f)
    {
      Apart(m, 0, unit);
      Apart(m, 1, unit);
    }
  }

  /** The call of `on_digit` for an integral digit. */
  method PassIntegral(f: u64, one: u64, error: u64, ghost exp: nat, digit: char, divisor: u64, remainder: u64,
                      handler: ShortestHandler)
    returns (result: Result)
    requires one > 0 && Given(f, error, handler.diff) && AllDigits(handler.buf) && IsDigit(digit)
    requires divisor == Times(one, exp) && Split(f, one, exp, DigitsValue(handler.buf + [digit]), remainder)
    requires NoneIn(f, error, Times(one, exp + 1))
    modifies handler`buf
    ensures AllDigits(handler.buf) && |handler.buf| == |old(handler.buf)| + 1
    ensures result == More ==> handler.buf == old(handler.buf) + [digit] && error <= remainder
    ensures result == More ==> NoneIn(f, error, Times(one, exp))
    ensures result != More ==>
            Ended(f, one, error, handler.diff, exp, result == Done, DigitsValue(handler.buf))
  {
    hide NoneIn, Settled, Multiple, DigitsValue, Times;
    Placed(f, one, exp, DigitsValue(handler.buf + [digit]), remainder);
    result := handler.OnDigit(digit, divisor, remainder, error, 1, f);
  }

  lemma Placed(f: nat, one: nat, exp: nat, d: int, rest: int)
    requires Split(f, one, exp, d, rest)
    ensures f == Multiple(d, Times(one, exp)) + rest && Times(one, exp + 1) == 10 * Times(one, exp)
  {
  }

  /** One turn of the loop over the integral digits. */
  method IntegralDigit(f: u64, one: u64, ghost s: nat, error: u64, integral: u32, fractional: u64, exp: nat,
                       handler: ShortestHandler)
    returns (result: Result, rest: u32)
    requires IsOne(one, s) && AllDigits(handler.buf) && Given(f, error, handler.diff)
    requires Integral(f, one, exp, DigitsValue(handler.buf), integral, fractional)
    requires NoneIn(f, error, Times(one, exp))
    modifies handler`buf
    ensures AllDigits(handler.buf) && |handler.buf| == |old(handler.buf)| + 1
    ensures result == More ==> NoneIn(f, error, Times(one, exp - 1))
    ensures result == More && exp > 1 ==>
            Integral(f, one, exp - 1, DigitsValue(handler.buf), rest, fractional)
    ensures result == More && exp == 1 ==>
            SplitFraction(f, one, 0, DigitsValue(handler.buf), fractional) && error <= fractional
    ensures result != More ==>
            Ended(f, one, error, handler.diff, exp - 1, result == Done, DigitsValue(handler.buf))
  {
    hide Pow, Times, Split, SplitFraction, DigitsValue, Integral, NoneIn, Ended;
    OneBounds(one, s);
    ghost var d := DigitsValue(handler.buf);
    IntegralParts(f, one, exp, d, integral, fractional);
    var digit;
    digit, rest := DivmodIntegral(integral, exp);
    NextIntegral(f, one, exp, d, integral, fractional, digit, rest);
    var remainder: u64 := rest * one + fractional;
    var divisor: u64 := Pow(10, exp - 1) * one;
    PushDigits(handler.buf, digit);
    if exp == 1 {
      LastIntegral(rest, one);
    }
    result := PassIntegral(f, one, error, exp - 1, DigitChar(digit), divisor, remainder, handler);
  }

  lemma LastIntegral(rest: nat, one: nat)
    ensures rest < Pow(10, 0) ==> rest * one == 0
  {
  }

  method IntegralDigits(f: u64, one: u64, ghost s: nat, error: u64, start: u32, fractional: u64, count: nat,
                        handler: ShortestHandler)
    returns (result: Result, exp: nat)
    requires IsOne(one, s) && Integral(f, one, count, 0, start, fractional) && handler.buf == ""
    requires Given(f, error, handler.diff) && NoneIn(f, error, Times(one, count))
    modifies handler`buf
    ensures AllDigits(handler.buf) && exp + |handler.buf| == count && exp < count
    ensures result == More ==> exp == 0 && NoneIn(f, error, Times(one, 0)) && error <= fractional
    ensures result == More ==> SplitFraction(f, one, 0, DigitsValue(handler.buf), fractional)
    ensures result != More ==>
            Ended(f, one, error, handler.diff, exp, result == Done, DigitsValue(handler.buf))
  {
    exp := count;
    var integral: u32 := start;
    while true
      invariant exp >= 1 && AllDigits(handler.buf) && exp + |handler.buf| == count
      invariant Integral(f, one, exp, DigitsValue(handler.buf), integral, fractional)
      invariant NoneIn(f, error, Times(one, exp))
      decreases exp
    {
      hide Pow, Times, SplitFraction, Ended, DigitsValue, Integral, NoneIn;
      result, integral := IntegralDigit(f, one, s, error, integral, fractional, exp, handler);
      exp := exp - 1;
      if result != More || exp == 0 {
        return;
      }
    }
  }

  // The fraction

  /** After `k` digits of the fraction: the error has not outgrown the word. */
  ghost predicate Fraction(f: nat, one: nat, width: nat, k: nat, d: int, error: nat, fractional: nat) {
    && SplitFraction(f, one, k, d, fractional) && error == width * Pow(10, k)
    && NoneIn(f * Pow(10, k), error, one) && error <= fractional
  }

  lemma FractionNext(f: nat, one: nat, width: nat, k: nat, d: int, error: nat, fractional: nat, q: int, r: int)
    requires Fraction(f, one, width, k, d, error, fractional)
    requires fractional * 10 == q * one + r && 0 <= r < one <= 0x1000_0000_0000_0000 && 4 <= width
    ensures SplitFraction(f, one, k + 1, 10 * d + q, r) && k <= 17
    ensures error * 10 == width * Pow(10, k + 1) < 0x1_0000_0000_0000_0000
    ensures NoneIn(f * Pow(10, k + 1), error * 10, 10 * one)
  {
    FractionStep(f, one, k, d, fractional, q, r);
    FewDigits(width, k);
    PowTen(k);
    MulAssoc(width, 10, Pow(10, k));
    MulAssoc(10, width, Pow(10, k));
    MulAssoc(f, 10, Pow(10, k));
    MulAssoc(10, f, Pow(10, k));
    hide Pow;
    forall m: int {:trigger Multiple(m, 10 * one)}
      ensures !(f * Pow(10, k + 1) - error * 10 < Multiple(m, 10 * one) <= f * Pow(10, k + 1))
    {
      TenfoldMultiple(m, one);
      assert !(f * Pow(10, k) - error < Multiple(m, one) <= f * Pow(10, k));
    }
  }

  lemma FewDigits(width: nat, k: nat)
    requires 4 <= width && width * Pow(10, k) < 0x1000_0000_0000_0000
    ensures k <= 17
  {
    MulMonotone(4, width, Pow(10, k));
    PowNineteen();
    assert Pow(10, 19) == 10 * Pow(10, 18);
    if k >= 18 {
      PowMonotone(10, 18, k);
    }
  }

  /** The call of `on_digit` for a digit of the fraction; the table of powers of ten gives the unit. */
  method PassFraction(f: u64, one: u64, ghost width: u64, error: u64, k: nat, digit: char, fractional: u64,
                      handler: ShortestHandler)
    returns (result: Result)
    requires 0 < k <= 18 && 0 < one && Given(f, width, handler.diff) && AllDigits(handler.buf) && IsDigit(digit)
    requires SplitFraction(f, one, k, DigitsValue(handler.buf + [digit]), fractional)
    requires error == width * Pow(10, k) && NoneIn(f * Pow(10, k), error, 10 * one)
    modifies handler`buf
    ensures AllDigits(handler.buf) && |handler.buf| == |old(handler.buf)| + 1
    ensures result == More ==> Fraction(f, one, width, k, DigitsValue(handler.buf), error, fractional)
    ensures result != More ==>
            Ended(f, one, width, handler.diff, -(k as int), result == Done, DigitsValue(handler.buf))
  {
    hide NoneIn, Settled, DigitsValue, Pow;
    UnitFits(k, width, handler.diff);
    var unit: u64 := Pow(10, k);
    result := handler.OnDigit(digit, one, fractional, error, unit, f * Pow(10, k));
  }

  lemma UnitFits(k: nat, width: nat, diff: nat)
    requires k <= 18 && 4 <= width && diff < width
    ensures 0 < Pow(10, k) < 0x1_0000_0000_0000_0000
    ensures (diff + 1) * Pow(10, k) <= width * Pow(10, k) && 4 * Pow(10, k) <= width * Pow(10, k)
  {
    PowPositive(10, k);
    PowMonotone(10, k, 19);
    PowNineteen();
    MulMonotone(diff + 1, width, Pow(10, k));
    MulMonotone(4, width, Pow(10, k));
  }

  method FractionDigits(f: u64, one: u64, ghost s: nat, width: u64, start: u64, handler: ShortestHandler)
    returns (result: Result, exp: int)
    requires IsOne(one, s) && start < one && AllDigits(handler.buf) && Given(f, width, handler.diff)
    requires Fraction(f, one, width, 0, DigitsValue(handler.buf), width, start)
    modifies handler`buf
    ensures AllDigits(handler.buf) && result != More && -18 <= exp < 0
    ensures |handler.buf| + exp == |old(handler.buf)|
    ensures Ended(f, one, width, handler.diff, exp, result == Done, DigitsValue(handler.buf))
  {
    var fractional: u64, error: u64 := start, width;
    ghost var k := 0;
    exp := 0;
    OneBounds(one, s);
    while true
      invariant 0 <= k <= 18 && exp == -k && AllDigits(handler.buf) && fractional < one
      invariant |handler.buf| == |old(handler.buf)| + k
      invariant Fraction(f, one, width, k, DigitsValue(handler.buf), error, fractional)
      decreases 18 - k
    {
      hide Pow, Fraction, SplitFraction, Ended, DigitsValue, NoneIn;
      ghost var d := DigitsValue(handler.buf);
      var digit, rest := DivmodOne(fractional, one);
      FractionNext(f, one, width, k, d, error, fractional, digit, rest);
      k := k + 1;
      fractional, error := rest, error * 10;
      exp := exp - 1;
      PushDigits(handler.buf, digit);
      result := PassFraction(f, one, width, error, -exp, DigitChar(digit), fractional, handler);
      if result != More {
        return;
      }
    }
  }

  /** fmt's `grisu_gen_digits` with a `grisu_shortest_handler`. `f` is the upper bound and `error` its
      distance to the lower one, which is not small. */
  method GenDigits(f: u64, s: nat, error: u64, handler: ShortestHandler) returns (result: Result, exp: int)
    requires 32 <= s <= 60 && f >= Pow(2, s) && handler.buf == "" && Given(f, error, handler.diff)
    modifies handler`buf
    ensures result != More && AllDigits(handler.buf)
    ensures -18 <= exp < Count(f, s) && exp == Count(f, s) - |handler.buf|
    ensures Ended(f, Pow(2, s), error, handler.diff, exp, result == Done, DigitsValue(handler.buf))
    ensures result == Done ==> handler.buf != "" && handler.buf[0] != '0'
  {
    hide NoneIn, Ended, Integral, Fraction, Split, SplitFraction;
    var one: u64 := Pow(2, s);
    OneBounds(one, s);
    IntegralFits(f, one, s);
    var integral: u32 := f / one;
    var fractional := f % one;
    var count := GrisuCountDigits(integral);
    StartIntegral(f, one, integral, fractional, count);
    NothingAbove(f, error, Times(one, count));
    result, exp := IntegralDigits(f, one, s, error, integral, fractional, count, handler);
    if result == More {
      StartFraction(f, one, error, DigitsValue(handler.buf), fractional);
      result, exp := FractionDigits(f, one, s, error, fractional, handler);
    }
    if result == Done {
      ManyDigits(f, one, error, handler.diff, exp, |handler.buf|, DigitsValue(handler.buf));
      LeadingZero(handler.buf);
    }
  }

  /** The first place is that of the digit count, and no multiple of a larger unit lies within the
      bounds: the digits do not start with zero. */
  lemma ManyDigits(f: nat, one: nat, error: nat, diff: nat, exp: int, n: nat, d: int)
    requires one > 0 && Given(f, error, diff) && n > 0 && n + exp > 0 && Times(one, n + exp - 1) <= f
    requires Ended(f, one, error, diff, exp, true, d)
    ensures d >= Pow(10, n - 1)
  {
    hide Best, Times;
    ScalePositive(one, exp);
    var u, top, width := Unit(one, exp), f * Scale(exp), error * Scale(exp);
    var p := Pow(10, n - 1);
    MulMonotone(error, f, Scale(exp));
    UnitPositive(one, exp);
    FirstDigitPlace(f, one, exp, n);
    if n > 1 {
      var m := Pow(10, n - 2);
      TenfoldMultiple(m, u);
      assert !(top - width < Multiple(m, 10 * u) <= top);
    }
    Apart(d, p, u);
    Apart(d, 0, u);
  }

  lemma UnitPositive(one: nat, exp: int)
    requires one > 0
    ensures Unit(one, exp) > 0
  {
    if exp >= 0 {
      TimesGrows(one, exp);
    }
  }

  lemma FirstDigitPlace(f: nat, one: nat, exp: int, n: nat)
    requires n > 0 && n + exp > 0 && Times(one, n + exp - 1) <= f
    ensures Multiple(Pow(10, n - 1), Unit(one, exp)) <= f * Scale(exp)
  {
    hide Times;
    TimesIsPow(one, n + exp - 1);
    if exp >= 0 {
      TimesIsPow(one, exp);
      PowAdd(10, n - 1, exp);
      MulAssoc(one, Pow(10, n - 1), Pow(10, exp));
      MulAssoc(Pow(10, n - 1), one, Pow(10, exp));
    } else {
      PowAdd(10, n + exp - 1, -exp);
      MulMonotone(one * Pow(10, n + exp - 1), f, Pow(10, -exp));
      MulAssoc(one, Pow(10, n + exp - 1), Pow(10, -exp));
    }
  }

  lemma StartIntegral(f: u64, one: nat, integral: nat, fractional: nat, count: nat)
    requires one > 0 && integral == f / one && fractional == f % one
    requires 1 <= count <= 10 && Pow(10, count - 1) <= integral < Pow(10, count)
    ensures Integral(f, one, count, 0, integral, fractional) && f < Times(one, count)
  {
    StartSplit(f, one, count);
  }

  lemma StartFraction(f: nat, one: nat, width: nat, d: int, fractional: nat)
    requires SplitFraction(f, one, 0, d, fractional) && NoneIn(f, width, Times(one, 0)) && width <= fractional
    ensures Fraction(f, one, width, 0, d, width, fractional)
  {
  }

  // What that means for the true numbers, of which the scaled ones are less than a unit away

  /** `x` stands for a number between `low` and `high` when measured in units of `1 / one`. */
  ghost predicate TrueNumbers(f: nat, one: nat, error: nat, diff: nat, lo: real, v: real, hi: real) {
    && (f - error) as real < lo * one as real < (f - error + 2) as real
    && (f - diff - 1) as real <= v * one as real <= (f - diff + 1) as real
    && (f - 2) as real < hi * one as real < f as real
  }

  /** Decimals with unit `10^exp` are the multiples at this place. */
  lemma DecimalPlace(one: nat, exp: int, m: int)
    ensures Decimal(m, exp) * (one * Scale(exp)) as real == Multiple(m, Unit(one, exp)) as real
  {
    hide Ten;
    CastMul(m, Unit(one, exp));
    CastMul(one, Scale(exp));
    if exp >= 0 {
      TenPow(exp);
      TimesIsPow(one, exp);
      CastMul(one, Pow(10, exp));
      Regroup(m as real, Ten(exp), one as real);
      Regroup(one as real, m as real, Ten(exp));
    } else {
      TenPow(-exp);
      Inverse(m as real, Ten(exp), one as real, Scale(exp) as real);
    }
  }

  lemma Inverse(m: real, ten: real, one: real, t: real)
    requires ten * t == 1.0
    ensures (m * ten) * (one * t) == m * one
  {
    Regroup(m, ten, one * t);
    Regroup(ten, one, t);
    assert ten * (one * t) == one * (ten * t);
  }

  /** A true number at this place. */
  lemma TruePlace(x: real, one: nat, t: nat, f: int, below: int, above: int)
    requires t > 0 && (f - below) as real <= x * one as real <= (f - above) as real
    ensures var y := x * (one * t) as real;
            && (f * t - below * t) as real <= y <= (f * t - above * t) as real
            && ((f - below) as real < x * one as real ==> (f * t - below * t) as real < y)
            && (x * one as real < (f - above) as real ==> y < (f * t - above * t) as real)
  {
    CastMul(one, t);
    Regroup(x, one as real, t as real);
    ShortBy(f, below, t);
    ShortBy(f, above, t);
    ScaleOrder((f - below) as real, x * one as real, t as real);
    ScaleOrder(x * one as real, (f - above) as real, t as real);
  }

  lemma ShortBy(f: int, x: int, t: int)
    ensures (f - x) as real * t as real == (f * t - x * t) as real
  {
    CastMul(f - x, t);
    MulAdd(f, -x, t);
    MulAdd(x, -x, t);
  }

  /** The same as `TrueNumbers` at this place, with `k` for `one` and `t` together. */
  ghost predicate TrueAt(top: int, width: int, t: int, diff: int, lo: real, v: real, hi: real, k: real) {
    && (top - width) as real < lo * k < (top - width + 2 * t) as real
    && (top - (diff + 1) * t) as real <= v * k <= (top - (diff - 1) * t) as real
    && (top - 2 * t) as real < hi * k < top as real
  }

  lemma AtPlace(f: nat, one: nat, error: nat, diff: nat, t: nat, lo: real, v: real, hi: real)
    requires t > 0 && TrueNumbers(f, one, error, diff, lo, v, hi)
    ensures TrueAt(f * t, error * t, t, diff, lo, v, hi, (one * t) as real)
  {
    TruePlace(lo, one, t, f, error, error - 2);
    TruePlace(v, one, t, f, diff + 1, diff - 1);
    TruePlace(hi, one, t, f, 2, 0);
    MulAdd(error, -2, t);
  }

  lemma TrueEnds(top: int, width: int, t: int, diff: int, lo: real, v: real, hi: real, k: real)
    requires TrueAt(top, width, t, diff, lo, v, hi, k)
    ensures (top - width) as real < lo * k < (top - width + 2 * t) as real
    ensures (top - 2 * t) as real < hi * k < top as real
  {
  }

  lemma OrderEnds(lo: real, x: real, hi: real, k: real, a: int, a': int, b': int, b: int, y: int)
    requires k > 0.0 && x * k == y as real
    requires a as real < lo * k < a' as real && b' as real < hi * k < b as real
    ensures lo <= x <= hi ==> a < y < b
    ensures a' <= y <= b' ==> lo < x < hi
  {
    ScaledOrder(lo, x, k, lo * k, y as real);
    ScaledOrder(x, hi, k, y as real, hi * k);
    Ordered(lo, x, hi, lo * k, hi * k, a, a', b', b, y);
  }

  lemma Ordered(lo: real, x: real, hi: real, p: real, q: real, a: int, a': int, b': int, b: int, y: int)
    requires (lo < x <==> p < y as real) && (lo == x <==> p == y as real)
    requires (x < hi <==> y as real < q) && (x == hi <==> y as real == q)
    requires a as real < p < a' as real && b' as real < q < b as real
    ensures lo <= x <= hi ==> a < y < b
    ensures a' <= y <= b' ==> lo < x < hi
  {
  }

  /** A decimal with this unit that lies in the true interval is a multiple within the bounds. */
  lemma InBounds(top: int, width: int, unit: int, t: int, diff: int, lo: real, v: real, hi: real, k: real,
                 m: int, exp: int)
    requires k > 0.0 && TrueAt(top, width, t, diff, lo, v, hi, k)
    requires Decimal(m, exp) * k == Multiple(m, unit) as real
    ensures Between(lo, hi, true, true, Decimal(m, exp)) ==> top - width < Multiple(m, unit) < top
    ensures top - width + 2 * t <= Multiple(m, unit) <= top - 2 * t ==> Between(lo, hi, false, false, Decimal(m, exp))
  {
    hide Decimal, Multiple, TrueAt;
    TrueEnds(top, width, t, diff, lo, v, hi, k);
    OrderEnds(lo, Decimal(m, exp), hi, k, top - width, top - width + 2 * t, top - 2 * t, top, Multiple(m, unit));
  }

  /** Nearer to both ends is nearer to all between them. */
  lemma NearerBetween(a: int, b: int, q: int, p: int, x: real, y: real, v: real, k: real)
    requires k > 0.0 && x * k == a as real && y * k == b as real && q as real <= v * k <= p as real
    requires Distance(a, q) <= Distance(b, q) && Distance(a, p) <= Distance(b, p)
    ensures Gap(x, v) <= Gap(y, v)
  {
    hide Gap, Distance;
    GapTimes(x, v, k, a as real, v * k);
    GapTimes(y, v, k, b as real, v * k);
    NearerInts(a, b, q, p, v * k);
    ScaledOrder(Gap(y, v), Gap(x, v), k, Gap(b as real, v * k), Gap(a as real, v * k));
  }

  lemma NearerInts(a: int, b: int, q: int, p: int, w: real)
    requires q as real <= w <= p as real
    requires Distance(a, q) <= Distance(b, q) && Distance(a, p) <= Distance(b, p)
    ensures Gap(a as real, w) <= Gap(b as real, w)
  {
  }

  lemma DecimalBounds(f: nat, one: nat, error: nat, diff: nat, exp: int, lo: real, v: real, hi: real, m: int)
    requires one > 0 && TrueNumbers(f, one, error, diff, lo, v, hi)
    ensures var top, width, t := f * Scale(exp), error * Scale(exp), Scale(exp);
            && (Between(lo, hi, true, true, Decimal(m, exp)) ==> top - width < Multiple(m, Unit(one, exp)) < top)
            && (top - width + 2 * t <= Multiple(m, Unit(one, exp)) <= top - 2 * t
                ==> Between(lo, hi, false, false, Decimal(m, exp)))
  {
    hide Decimal, Multiple, TrueAt, TrueNumbers, Scale, Unit, Between;
    ScalePositive(one, exp);
    AtPlace(f, one, error, diff, Scale(exp), lo, v, hi);
    DecimalPlace(one, exp, m);
    InBounds(f * Scale(exp), error * Scale(exp), Unit(one, exp), Scale(exp), diff, lo, v, hi,
             (one * Scale(exp)) as real, m, exp);
  }

  lemma DecimalNearer(f: nat, one: nat, error: nat, diff: nat, exp: int, d: int, lo: real, v: real, hi: real, m: int)
    requires one > 0 && TrueNumbers(f, one, error, diff, lo, v, hi) && SettledAt(f, one, error, diff, exp, d)
    ensures Between(lo, hi, true, true, Decimal(m, exp)) ==> Gap(Decimal(d, exp), v) <= Gap(Decimal(m, exp), v)
  {
    hide *;
    var t, u := Scale(exp), Unit(one, exp);
    ScalePositive(one, exp);
    DecimalPlace(one, exp, d);
    DecimalPlace(one, exp, m);
    DecimalBounds(f, one, error, diff, exp, lo, v, hi, m);
    AtPlace(f, one, error, diff, t, lo, v, hi);
    if Between(lo, hi, true, true, Decimal(m, exp)) {
      SettledNearer(f, one, error, diff, exp, d, m);
      NearerAt(f * t, error * t, t, diff, lo, v, hi, (one * t) as real,
               Multiple(d, u), Multiple(m, u), Decimal(d, exp), Decimal(m, exp));
    }
  }

  lemma SettledNearer(f: nat, one: nat, error: nat, diff: nat, exp: int, d: int, m: int)
    requires SettledAt(f, one, error, diff, exp, d)
    requires f * Scale(exp) - error * Scale(exp) < Multiple(m, Unit(one, exp)) < f * Scale(exp)
    ensures var top, t, a, b := f * Scale(exp), Scale(exp), Multiple(d, Unit(one, exp)), Multiple(m, Unit(one, exp));
            && Distance(a, top - (diff + 1) * t) <= Distance(b, top - (diff + 1) * t)
            && Distance(a, top - (diff - 1) * t) <= Distance(b, top - (diff - 1) * t)
  {
    hide Multiple, Distance, Unit, Scale;
    assert Covers(f * Scale(exp), error * Scale(exp), Multiple(m, Unit(one, exp)));
  }

  lemma NearerAt(top: int, width: int, t: int, diff: int, lo: real, v: real, hi: real, k: real,
                 a: int, b: int, x: real, y: real)
    requires k > 0.0 && TrueAt(top, width, t, diff, lo, v, hi, k) && x * k == a as real && y * k == b as real
    requires Distance(a, top - (diff + 1) * t) <= Distance(b, top - (diff + 1) * t)
    requires Distance(a, top - (diff - 1) * t) <= Distance(b, top - (diff - 1) * t)
    ensures Gap(x, v) <= Gap(y, v)
  {
    hide Gap, Distance, TrueAt;
    TrueValue(top, width, t, diff, lo, v, hi, k);
    NearerBetween(a, b, top - (diff + 1) * t, top - (diff - 1) * t, x, y, v, k);
  }

  lemma DecimalShorter(f: nat, one: nat, error: nat, diff: nat, exp: int, lo: real, v: real, hi: real, m: int, k: int)
    requires one > 0 && TrueNumbers(f, one, error, diff, lo, v, hi) && FirstPlace(f, one, error, exp) && k > exp
    ensures !Between(lo, hi, true, true, Decimal(m, k))
  {
    hide Decimal, Multiple, TrueNumbers, Scale, Unit, Between;
    var n, u := Times(m, k - exp - 1), Unit(one, exp);
    CoarserPlace(m, k, exp);
    TenfoldMultiple(n, u);
    DecimalBounds(f, one, error, diff, exp, lo, v, hi, 10 * n);
    assert !(f * Scale(exp) - error * Scale(exp) < Multiple(n, 10 * u) <= f * Scale(exp));
  }

  /** Finished digits are what `fallback_format` would print, up to ties: strictly inside the true
      interval, with no decimal of a larger unit in it, and none of the same unit nearer. */
  lemma ShortestMeans(f: nat, one: nat, error: nat, diff: nat, exp: int, d: int, lo: real, v: real, hi: real)
    requires one > 0 && TrueNumbers(f, one, error, diff, lo, v, hi)
    requires FirstPlace(f, one, error, exp) && SettledAt(f, one, error, diff, exp, d)
    ensures Between(lo, hi, false, false, Decimal(d, exp))
    ensures NoShorter(lo, hi, true, true, exp) && NoneNearer(lo, v, hi, true, true, d, exp)
  {
    hide Decimal, Multiple, TrueNumbers, FirstPlace, Scale, Unit, Between, Best;
    DecimalBounds(f, one, error, diff, exp, lo, v, hi, d);
    forall m: int, k: int {:trigger Decimal(m, k)} | k > exp
      ensures !Between(lo, hi, true, true, Decimal(m, k))
    {
      DecimalShorter(f, one, error, diff, exp, lo, v, hi, m, k);
    }
    forall m: int {:trigger Decimal(m, exp)} | Between(lo, hi, true, true, Decimal(m, exp))
      ensures Gap(Decimal(d, exp), v) <= Gap(Decimal(m, exp), v)
    {
      DecimalNearer(f, one, error, diff, exp, d, lo, v, hi, m);
    }
  }

  lemma TrueValue(top: int, width: int, t: int, diff: int, lo: real, v: real, hi: real, k: real)
    requires TrueAt(top, width, t, diff, lo, v, hi, k)
    ensures (top - (diff + 1) * t) as real <= v * k <= (top - (diff - 1) * t) as real
  {
  }

  lemma ScalePositive(one: nat, exp: int)
    requires one > 0
    ensures Scale(exp) > 0 && one * Scale(exp) > 0 && (one * Scale(exp)) as real > 0.0
  {
    if exp < 0 {
      PowPositive(10, -exp);
    }
    MulMonotone(1, one, Scale(exp));
  }

  /** A decimal with a larger unit is ten times one with this unit. */
  lemma CoarserPlace(m: int, k: int, exp: int)
    requires k > exp
    ensures Decimal(m, k) == Decimal(10 * Times(m, k - exp - 1), exp)
  {
    TimesReal(m, k - exp, k);
  }
}
