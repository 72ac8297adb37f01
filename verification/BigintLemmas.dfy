/** What the loops of `bigint` keep from one bigit to the next, stated on sequences of bigits. */
module BigintLemmas {
  import opened Words
  import opened BigNat

  function Sign(x: int): int {
    if x < 0 then -1 else if x > 0 then 1 else 0
  }

  /** A number that may stand on the left of a comparison with one of exponent `limit`. */
  predicate Operand(s: seq<u32>, exp: nat, limit: nat) {
    Top(s) || (s == [0] && exp <= limit)
  }

  /** `compare` is right unless the values are equal and stored with different lengths. */
  ghost function CompareResult(s: seq<u32>, e: nat, t: seq<u32>, f: nat): int {
    var d := Shift(Val(s), e) - Shift(Val(t), f);
    Sign(if d != 0 then d else |s| - |t|)
  }

  /** The first `i` bigits are those of the product, but for a carry into place `i`. */
  ghost predicate Carried(s: seq<u32>, t: seq<u32>, i: nat, value: nat, carry: nat)
    requires i <= |s| && i <= |t|
  {
    Val(t[..i]) + Shift(carry, i) == Val(s[..i]) * value
  }

  lemma CarriedStep(s: seq<u32>, t: seq<u32>, i: nat, value: nat, carry: nat, d: u32, carry': nat)
    requires i < |s| && i < |t| && Carried(s, t, i, value, carry)
    requires d + B * carry' == s[i] * value + carry
    ensures Carried(s, t[i := d], i + 1, value, carry')
  {
    var t' := t[i := d];
    assert t'[..i] == t[..i];
    ValTake(t', i);
    ValTake(s, i);
    CarryStep(i, Val(t[..i]), carry, s[i], value, Val(s[..i]), d, carry');
  }

  lemma MultiplyStep(s: seq<u32>, t: seq<u32>, i: nat, value: u32, carry: u32)
    requires i < |s| == |t| && t[i..] == s[i..] && Carried(s, t, i, value, carry)
    ensures var result := t[i] * value + carry;
            0 <= result < B * B && Carried(s, t[i := result % B], i + 1, value, result / B)
  {
    assert t[i] == s[i];
    TermBound(t[i], value);
    var result := t[i] * value + carry;
    CarriedStep(s, t, i, value, carry, result % B, result / B);
  }

  lemma WideStep(s: seq<u32>, t: seq<u32>, i: nat, lower: u32, upper: u32, carry: u64)
    requires i < |s| == |t| && t[i..] == s[i..] && Carried(s, t, i, lower + B * upper, carry)
    ensures var result := t[i] * lower + carry % B;
            var carry' := t[i] * upper + result / B + carry / B;
            && 0 <= result < B * B && 0 <= carry' < B * B
            && Carried(s, t[i := result % B], i + 1, lower + B * upper, carry')
  {
    assert t[i] == s[i];
    TermBound(t[i], lower);
    TermBound(t[i], upper);
    WideProduct(t[i], lower, upper);
    var result := t[i] * lower + carry % B;
    CarriedStep(s, t, i, lower + B * upper, carry, result % B, t[i] * upper + result / B + carry / B);
  }

  lemma WideProduct(x: int, lower: int, upper: int)
    ensures x * (lower + B * upper) == x * lower + B * (x * upper)
  {
  }

  lemma PushStep(s: seq<u32>, d: u32, c: int)
    ensures Val(s + [d]) + Shift(c, |s| + 1) == Val(s) + Shift(d + B * c, |s|)
  {
    ValConcat(s, [d]);
    ShiftSplit(d, c, |s|);
  }

  lemma MultiplyEnd(s: seq<u32>, t: seq<u32>, value: nat, carry: u32, exp: nat)
    requires |s| == |t| && Carried(s, t, |s|, value, carry)
    ensures var u := if carry != 0 then t + [carry] else t;
            && Val(u) == Val(s) * value
            && Shift(Val(u), exp) == Shift(Val(s), exp) * value
            && (Top(s) && value > 0 ==> Top(u))
  {
    assert s[..|s|] == s && t[..|s|] == t;
    ValConcat(t, [carry]);
    ShiftOrder(0, 0, |s|);
    ProductEnd(s, if carry != 0 then t + [carry] else t, value, exp);
  }

  lemma ProductEnd(s: seq<u32>, t: seq<u32>, value: nat, exp: nat)
    requires Val(t) == Val(s) * value && (|t| == |s| || Top(t))
    ensures Shift(Val(t), exp) == Shift(Val(s), exp) * value
    ensures Top(s) && value > 0 ==> Top(t)
  {
    ShiftTimes(Val(s), value, exp);
    if Top(s) && value > 0 && |t| == |s| {
      MulMonotone(1, value, Val(s));
      TopBound(s);
      TopBound(t);
    }
  }

  lemma BitFactors(bits: nat)
    requires bits <= 32
    ensures Pow(2, bits) * Pow(2, 32 - bits) == B
    ensures 0 < Pow(2, bits) && 0 < Pow(2, 32 - bits)
  {
    PowAdd(2, bits, 32 - bits);
    PowWord();
    PowPositive(2, bits);
    PowPositive(2, 32 - bits);
  }

  // Subtraction.

  /** The borrow out of `o`'s bigits meets a zero, and is then taken from that place twice over:
      the loop at the end of `subtract_aligned` does not go on to the next place. */
  ghost predicate Strays(s: seq<u32>, o: seq<u32>, off: nat) {
    off + |o| < |s| && s[off + |o|] == 0 && Val(s[..off + |o|]) < Shift(Val(o), off)
  }

  /** By how much `subtract_aligned` is then wrong. */
  ghost function StrayError(s: seq<u32>, exp: nat, o: seq<u32>, oexp: nat): int
    requires exp <= oexp
  {
    if Strays(s, o, oexp - exp) then Shift(B - 1, oexp + |o|) else 0
  }

  lemma WindowFits(s: seq<u32>, exp: nat, o: seq<u32>, oexp: nat)
    requires exp <= oexp && Top(o) && Shift(Val(s), exp) >= Shift(Val(o), oexp)
    ensures oexp - exp + |o| <= |s|
  {
    if oexp + |o| > exp + |s| {
      LongerIsLarger(o, oexp, s, exp);
    }
  }

  ghost predicate Borrowed(s: seq<u32>, t: seq<u32>, o: seq<u32>, off: nat, j: nat, borrow: nat)
    requires j <= |o| && off + j <= |s| == |t|
  {
    Val(t[..off + j]) - Shift(borrow, off + j) == Val(s[..off + j]) - Shift(Val(o[..j]), off)
  }

  lemma BorrowedStep(s: seq<u32>, t: seq<u32>, o: seq<u32>, off: nat, j: nat, borrow: nat,
                     d: u32, borrow': nat)
    requires j < |o| && off + j < |s| == |t| && Borrowed(s, t, o, off, j, borrow)
    requires d - B * borrow' == s[off + j] - o[j] - borrow
    ensures Borrowed(s, t[off + j := d], o, off, j + 1, borrow')
  {
    hide Shift, Val;
    var i := off + j;
    var t' := t[i := d];
    assert t'[..i] == t[..i];
    ValTake(t', i);
    ValTake(s, i);
    ValTake(o, j);
    ShiftAdd(Val(o[..j]), Shift(o[j], j), off);
    ShiftShift(o[j], j, off);
    var x: int, y: int, b: int, b': int := s[i], o[j], borrow, borrow';
    ShiftSplit(d, -b', i);
    ShiftNeg(b', i + 1);
    ShiftAdd(x, -y, i);
    ShiftAdd(x - y, -b, i);
    ShiftNeg(y, i);
    ShiftNeg(b, i);
  }

  lemma BorrowOut(s: seq<u32>, t: seq<u32>, o: seq<u32>, off: nat, b: nat, exp: nat, oexp: nat)
    requires b <= 1 && oexp == exp + off && off + |o| <= |s| == |t|
    requires t[off + |o|..] == s[off + |o|..] && Borrowed(s, t, o, off, |o|, b)
    requires Shift(Val(s), exp) >= Shift(Val(o), oexp)
    ensures Val(t) - Shift(b, off + |o|) == Val(s) - Shift(Val(o), off)
    ensures b == 1 <==> Val(s[..off + |o|]) < Shift(Val(o), off)
    ensures b == 1 ==> off + |o| < |s|
  {
    hide Shift;
    var i := off + |o|;
    assert o[..|o|] == o;
    ValSplit(s, i);
    ValSplit(t, i);
    ValBound(t[..i]);
    ShiftOrder(0, 0, i);
    ShiftShift(Val(o), off, exp);
    ShiftOrder(Val(s), Shift(Val(o), off), exp);
    if i == |s| {
      assert s[i..] == [] && t[..i] == t && s[..i] == s;
    }
  }

  lemma ValUpdate(t: seq<u32>, i: nat, x: u32)
    requires i < |t|
    ensures Val(t[i := x]) == Val(t) + Shift(x - t[i], i)
  {
    hide Shift, Val;
    var t' := t[i := x];
    ValSplit(t, i + 1);
    ValSplit(t', i + 1);
    ValTake(t, i);
    ValTake(t', i);
    assert t'[..i] == t[..i] && t'[i + 1..] == t[i + 1..];
    ShiftAdd(t[i], x - t[i], i);
  }

  lemma SubtractEnd(s: seq<u32>, t: seq<u32>, u: seq<u32>, o: seq<u32>, off: nat, b: nat,
                    exp: nat, oexp: nat)
    requires b <= 1 && oexp == exp + off && off + |o| <= |s| == |t|
    requires t[off + |o|..] == s[off + |o|..]
    requires Val(t) - Shift(b, off + |o|) == Val(s) - Shift(Val(o), off)
    requires b == 1 <==> Val(s[..off + |o|]) < Shift(Val(o), off)
    requires b == 0 ==> u == t
    requires b == 1 ==> off + |o| < |t| &&
                        u == t[off + |o| := if t[off + |o|] == 0 then B - 2 else t[off + |o|] - 1]
    ensures Shift(Val(u), exp)
         == Shift(Val(s), exp) - Shift(Val(o), oexp) + StrayError(s, exp, o, oexp)
  {
    hide Shift, Val;
    var i := off + |o|;
    var stray := if b == 1 && t[i] == 0 then B - 1 else 0;
    if b == 1 {
      assert t[i] == s[i];
      ValUpdate(t, i, u[i]);
      ShiftAdd(stray, -1, i);
      ShiftNeg(1, i);
    }
    ShiftOrder(0, 0, i);
    assert Val(u) == Val(s) - Shift(Val(o), off) + Shift(stray, i);
    ShiftAdd(Val(s) - Shift(Val(o), off), Shift(stray, i), exp);
    ShiftAdd(Val(s), -Shift(Val(o), off), exp);
    ShiftNeg(Shift(Val(o), off), exp);
    ShiftShift(Val(o), off, exp);
    ShiftShift(stray, i, exp);
    ShiftOrder(0, 0, oexp + |o|);
  }

  // Comparison.

  /** Numbers that agree above position `i` are ordered by their bigits there. */
  lemma OrderedAt(s: seq<u32>, e: nat, t: seq<u32>, f: nat, i: nat)
    requires Low(s, e, i + 1) - Low(t, f, i + 1) == Shift(Val(s), e) - Shift(Val(t), f)
    requires Digit(s, e, i) > Digit(t, f, i)
    ensures Shift(Val(s), e) > Shift(Val(t), f)
  {
    LowBound(s, e, i);
    LowBound(t, f, i);
    PlaceOutweighs(Digit(s, e, i), Digit(t, f, i), i);
  }

  /** There is nothing below the exponent. */
  lemma {:induction false} LowUnder(s: seq<u32>, exp: nat, i: nat)
    requires i <= exp
    ensures Low(s, exp, i) == 0
  {
    if i == 0 {
    } else {
      LowUnder(s, exp, i - 1);
      ShiftOrder(0, 0, i - 1);
    }
  }

  /** The operands of `add_compare`: is `s + t` below, at or above `u`? */
  datatype Three = Three(s: seq<u32>, e: nat, t: seq<u32>, f: nat, u: seq<u32>, g: nat) {
    ghost function Difference(): int {
      Shift(Val(s), e) + Shift(Val(t), f) - Shift(Val(u), g)
    }
  }

  lemma ShorterSum(a: Three, m: nat)
    requires a.e + |a.s| <= m && a.f + |a.t| <= m && m + 1 < a.g + |a.u| && Top(a.u)
    ensures a.Difference() < 0
  {
    BelowPlace(a.s, a.e, m);
    BelowPlace(a.t, a.f, m);
    TopMagnitude(a.u, a.g);
    ShiftGrows(m + 1, a.g + |a.u| - 1);
  }

  lemma LongerSum(a: Three)
    requires Operand(a.s, a.e, a.g) && Operand(a.t, a.f, a.g) && Top(a.u)
    requires a.g + |a.u| < a.e + |a.s| || a.g + |a.u| < a.f + |a.t|
    ensures a.Difference() > 0
  {
    ShiftOrder(-1, Val(a.s), a.e);
    ShiftOrder(-1, Val(a.t), a.f);
    ShiftOrder(Val(a.s), 0, a.e);
    ShiftOrder(Val(a.t), 0, a.f);
    if a.g + |a.u| < a.e + |a.s| {
      LongerIsLarger(a.s, a.e, a.u, a.g);
    } else {
      LongerIsLarger(a.t, a.f, a.u, a.g);
    }
  }

  /** The difference still to be decided by the bigits below position `i`. */
  ghost predicate Remaining(a: Three, i: nat, lent: int) {
    a.Difference() == Low(a.s, a.e, i) + Low(a.t, a.f, i) - Low(a.u, a.g, i) - Shift(lent, i)
  }

  lemma RemainingStart(a: Three, n: nat)
    requires a.e + |a.s| <= n && a.f + |a.t| <= n && a.g + |a.u| <= n
    ensures Remaining(a, n, 0)
  {
    LowWhole(a.s, a.e, n);
    LowWhole(a.t, a.f, n);
    LowWhole(a.u, a.g, n);
    ShiftOrder(0, 0, n);
  }

  lemma RemainingEnd(a: Three, i: nat, lent: int)
    requires i <= a.e && i <= a.f && i <= a.g && Remaining(a, i, lent) && lent >= 0
    ensures Sign(a.Difference()) == Sign(-lent)
  {
    LowUnder(a.s, a.e, i);
    LowUnder(a.t, a.f, i);
    LowUnder(a.u, a.g, i);
    ShiftOrder(0, lent, i);
  }

  lemma RemainingStep(a: Three, i: nat, lent: int)
    requires Remaining(a, i + 1, lent)
    ensures Remaining(a, i, Digit(a.u, a.g, i) + B * lent - (Digit(a.s, a.e, i) + Digit(a.t, a.f, i)))
  {
    ColumnDifference(Digit(a.s, a.e, i), Digit(a.t, a.f, i), Digit(a.u, a.g, i), lent, i);
  }

  lemma ColumnDifference(x: int, y: int, z: int, lent: int, i: nat)
    ensures Shift(z + B * lent - x - y, i)
         == Shift(z, i) + Shift(lent, i + 1) - Shift(x, i) - Shift(y, i)
  {
    ShiftSplit(z - x - y, lent, i);
    ShiftAdd(z - x, -y, i);
    ShiftAdd(z, -x, i);
    ShiftNeg(x, i);
    ShiftNeg(y, i);
  }

  /** Both early exits of the loop are right: what is left below cannot change the sign. */
  lemma RemainingDecides(a: Three, i: nat, lent: int)
    requires Remaining(a, i, lent)
    ensures lent < 0 ==> a.Difference() > 0
    ensures lent > 1 ==> a.Difference() < 0
  {
    LowBound(a.s, a.e, i);
    LowBound(a.t, a.f, i);
    LowBound(a.u, a.g, i);
    ShiftOrder(0, 0, i);
    if lent < 0 {
      PlaceOutweighs(0, lent, i);
    } else if lent > 1 {
      PlaceOutweighs(lent, 1, i);
    }
  }

  /** When all common bigits agree, the one stored with more bigits counts as larger. */
  lemma CompareEnd(s: seq<u32>, e: nat, t: seq<u32>, f: nat, end: nat)
    requires e + |s| == f + |t| && end == if |s| < |t| then 0 else |s| - |t|
    requires Low(s, e, end + e) - Low(t, f, end + e) == Shift(Val(s), e) - Shift(Val(t), f)
    ensures CompareResult(s, e, t, f) == Sign(|s| - |t|)
  {
    LowBound(s, e, end + e);
    LowBound(t, f, end + e);
    if |s| >= |t| {
      LowUnder(t, f, end + e);
    }
    if |s| <= |t| {
      LowUnder(s, e, end + e);
    }
  }

  // Squaring.

  /** The first `k` bigits of `t` and the carry `sum` hold the first `k` columns of `n * n`. */
  ghost predicate Summed(n: seq<u32>, t: seq<u32>, k: nat, sum: nat)
    requires k <= |t|
  {
    Val(t[..k]) + Shift(sum, k) == Cols(n, n, |n|, k)
  }

  lemma ColumnFits(n: seq<u32>, k: int, i: nat, carry: nat)
    requires i <= |n| < 0x4000_0000 && carry <= |n| * B
    ensures carry + Col(n, n, k, i) <= |n| * B * B < 0x1_0000_0000_0000_0000_0000_0000_0000_0000
  {
    ColBound(n, n, k, i);
  }

  lemma ColumnNext(n: seq<u32>, k: nat, i: nat, j: nat, carry: nat)
    requires i < |n| && j < |n| < 0x4000_0000 && i + j == k && carry <= |n| * B
    ensures Col(n, n, k, i + 1) == Col(n, n, k, i) + n[i] as int * n[j] as int
    ensures 0 <= n[i] as int * n[j] as int < B * B
    ensures carry + Col(n, n, k, i + 1) < 0x1_0000_0000_0000_0000_0000_0000_0000_0000
  {
    TermBound(n[i], n[j]);
    ColumnFits(n, k, i + 1, carry);
    assert At(n, k - i) == n[j];
  }

  lemma SummedStep(n: seq<u32>, t: seq<u32>, k: nat, carry: nat, sum: nat)
    requires k < |t| && Summed(n, t, k, carry) && sum == carry + Col(n, n, k, |n|)
    ensures Summed(n, t[k := sum % B], k + 1, sum / B)
  {
    hide Shift, Val, Col;
    var d, c := sum % B, sum / B;
    assert t[k := d][..k + 1] == t[..k] + [d];
    PushStep(t[..k], d, c);
    ShiftAdd(carry, Col(n, n, k, |n|), k);
  }

  lemma SummedEnd(n: seq<u32>, t: seq<u32>, sum: nat, exp: nat)
    requires |t| == 2 * |n| && Summed(n, t, |t|, sum)
    ensures Val(t) == Val(n) * Val(n)
    ensures Shift(Val(t), 2 * exp) == Shift(Val(n), exp) * Shift(Val(n), exp)
  {
    hide Val, Cols, Col;
    assert t[..|t|] == t && n[..|n|] == n;
    ColsProduct(n, n, |n|, |t|);
    ShiftSquare(Val(n), exp);
    ValBound(n);
    SquareOrder(Val(n), Shift(1, |n|));
    ShiftSquare(1, |n|);
    ShiftOrder(sum, 1, |t|);
    ShiftOrder(0, 0, |t|);
  }

  lemma SquareOrder(x: nat, y: nat)
    requires x < y
    ensures x * x < y * y
  {
    MulMonotone(x, y, x);
    MulMonotone(x + 1, y, y);
  }

  lemma ShiftSquare(x: int, n: nat)
    ensures Shift(x * x, 2 * n) == Shift(x, n) * Shift(x, n)
  {
    ShiftShift(x * x, n, n);
    ShiftTimes(x, x, n);
    ShiftTimes(x, Shift(x, n), n);
    ShiftTimes(Shift(x, n), x, n);
  }

  // Powers of ten.

  /** A power of two that an `int` below `2^30` reaches. */
  lemma PowBelow(t: nat, x: nat)
    requires Pow(2, t) <= x < 0x4000_0000
    ensures t < 30
  {
    if t >= 30 {
      PowWord();
      PowAdd(2, 2, 30);
      assert Pow(2, 2) == 4;
      PowMonotone(2, 30, t);
    }
  }

  /** `v` is 5 to the number made of the bits of `x` from bit `t` on. */
  ghost predicate PoweredTo(v: nat, x: nat, t: nat) {
    PowPositive(2, t);
    v == Pow(5, x / Pow(2, t))
  }

  lemma PoweredToFive(x: nat, t: nat)
    requires Pow(2, t) <= x < 2 * Pow(2, t)
    ensures PoweredTo(5, x, t)
  {
    DivUnique(x, Pow(2, t), 1, x - Pow(2, t));
    assert Pow(5, 1) == 5;
  }

  /** One round of repeated squaring takes in one more bit of the exponent. */
  lemma NextBit(v: nat, x: nat, t: nat)
    requires PoweredTo(v, x, t + 1)
    ensures Pow(2, t) > 0 && v * v > 0
    ensures (x / Pow(2, t)) % 2 == 0 ==> PoweredTo(v * v, x, t)
    ensures (x / Pow(2, t)) % 2 != 0 ==> PoweredTo(v * v * 5, x, t)
  {
    hide Pow;
    PowNext(2, t);
    PowPositive(2, t);
    PowPositive(2, t + 1);
    var p := Pow(2, t);
    DivTwice(x, p);
    assert x / Pow(2, t + 1) == x / (2 * p);
    var q := x / p;
    assert v == Pow(5, q / 2);
    SquaredPower(v, q);
  }

  lemma SquaredPower(v: nat, q: nat)
    requires v == Pow(5, q / 2)
    ensures v * v > 0
    ensures if q % 2 == 0 then v * v == Pow(5, q) else v * v * 5 == Pow(5, q)
  {
    var h := q / 2;
    PowNext(5, 2 * h);
    hide Pow;
    PowAdd(5, h, h);
    PowPositive(5, 2 * h);
    assert h + h == 2 * h;
  }

  lemma PowNext(b: nat, n: nat)
    ensures Pow(b, n + 1) == b * Pow(b, n)
  {
  }

  lemma FewBigits(s: seq<u32>, x: nat, t: nat)
    requires Top(s) && PoweredTo(Val(s), x, t) && x < 0x4000_0000
    ensures |s| < 0x4000_0000
  {
    var n := |s| - 1;
    TopBound(s);
    ShiftIsPow(1, n);
    PowWords(n);
    PowPositive(2, t);
    var e := x / Pow(2, t);
    QuotientBelow(x, Pow(2, t));
    PowBaseMonotone(5, 8, e);
    PowPow8(e);
    if 32 * n > 3 * e {
      PowMonotone(2, 3 * e + 1, 32 * n);
      PowPositive(2, 3 * e);
    }
  }

  lemma QuotientBelow(x: nat, p: nat)
    requires p > 0
    ensures x / p <= x
  {
    MulMonotone(1, p, x / p);
  }

  lemma {:induction false} PowBaseMonotone(a: nat, b: nat, n: nat)
    requires a <= b
    ensures Pow(a, n) <= Pow(b, n)
  {
    if n == 0 {
    } else {
      PowBaseMonotone(a, b, n - 1);
      MulMonotone(a, b, Pow(a, n - 1));
      MulMonotone(Pow(a, n - 1), Pow(b, n - 1), b);
    }
  }

  lemma {:induction false} PowPow8(n: nat)
    ensures Pow(8, n) == Pow(2, 3 * n)
  {
    if n == 0 {
    } else {
      PowPow8(n - 1);
      PowAdd(2, 3, 3 * (n - 1));
    }
  }

  // Division.

  lemma AlignedValue(s: seq<u32>, difference: nat, exp: nat)
    ensures Shift(Val(Zeros(difference) + s), exp) == Shift(Val(s), exp + difference)
  {
    ValConcat(Zeros(difference), s);
    ShiftShift(Val(s), difference, exp);
  }

  lemma NotZero(s: seq<u32>, exp: nat)
    requires Top(s)
    ensures Shift(Val(s), exp) > 0
  {
    TopMagnitude(s, exp);
    ShiftOrder(0, 1, exp + |s| - 1);
  }

  lemma NotNegative(s: seq<u32>, exp: nat)
    ensures Shift(Val(s), exp) >= 0
  {
    ShiftOrder(Val(s), 0, exp);
    ShiftOrder(-1, Val(s), exp);
  }

  /** Where the dividend is stored at least as far down as the divisor, or the divisor has no
      zero at the bottom, `compare` tells less from not less. */
  lemma CompareDecides(s: seq<u32>, e: nat, t: seq<u32>, f: nat)
    requires Operand(s, e, f) && Top(t) && (e <= f || t[0] != 0)
    ensures CompareResult(s, e, t, f) < 0 <==> Shift(Val(s), e) < Shift(Val(t), f)
  {
    if Shift(Val(s), e) == Shift(Val(t), f) {
      if e + |s| > f + |t| {
        LongerIsLarger(s, e, t, f);
      } else if e + |s| < f + |t| {
        LongerIsLarger(t, f, s, e);
      }
      if e > f {
        ShiftShift(Val(s), e - f, f);
        ShiftOrder(Shift(Val(s), e - f), Val(t), f);
        ShiftOrder(Val(t), Shift(Val(s), e - f), f);
      }
    }
  }

  lemma OneBigitLonger(s: seq<u32>, e: nat, t: seq<u32>, f: nat)
    requires Operand(s, e, f)
    requires Shift(Val(s), e) < 0x8000_0000 * Shift(Val(t), f)
    ensures e + |s| <= f + |t| + 1
  {
    hide Val;
    BelowPlace(t, f, f + |t|);
    if e + |s| > f + |t| + 1 && Top(s) {
      TopMagnitude(s, e);
      ShiftGrows(f + |t| + 1, e + |s| - 1);
    }
  }

  /** A quotient that fits in an `int` leaves no room for a stray borrow. */
  lemma NeverStrays(s: seq<u32>, e: nat, t: seq<u32>, f: nat)
    requires e <= f && Top(t) && Operand(s, e, f)
    requires Shift(Val(t), f) <= Shift(Val(s), e) < 0x8000_0000 * Shift(Val(t), f)
    ensures StrayError(s, e, t, f) == 0
  {
    OneBigitLonger(s, e, t, f);
  }

  // Where `compare` and `subtract_aligned` are exact.

  lemma {:induction false} LowDetermines(s: seq<u32>, e: nat, t: seq<u32>, f: nat, n: nat)
    ensures Low(s, e, n) == Low(t, f, n)
       <==> forall i :: 0 <= i < n ==> Digit(s, e, i) == Digit(t, f, i)
  {
    if n == 0 {
    } else {
      var k := n - 1;
      LowDetermines(s, e, t, f, k);
      LowBound(s, e, k);
      LowBound(t, f, k);
      if Digit(s, e, k) > Digit(t, f, k) {
        PlaceOutweighs(Digit(s, e, k), Digit(t, f, k), k);
      } else if Digit(s, e, k) < Digit(t, f, k) {
        PlaceOutweighs(Digit(t, f, k), Digit(s, e, k), k);
      }
    }
  }

  /** `compare` gives the sign of the difference unless the same bigits are stored with a different
      number of zeros at the bottom. */
  lemma CompareExact(s: seq<u32>, e: nat, t: seq<u32>, f: nat)
    requires Operand(s, e, f) && Top(t)
    ensures CompareResult(s, e, t, f) == Sign(Shift(Val(s), e) - Shift(Val(t), f))
       <==> |s| == |t| || e + |s| != f + |t|
            || exists i :: 0 <= i < e + |s| && Digit(s, e, i) != Digit(t, f, i)
  {
    hide Val, Shift, Digit, Low;
    if e + |s| > f + |t| {
      LongerIsLarger(s, e, t, f);
    } else if e + |s| < f + |t| {
      LongerIsLarger(t, f, s, e);
    } else {
      LowWhole(s, e, e + |s|);
      LowWhole(t, f, e + |s|);
      LowDetermines(s, e, t, f, e + |s|);
    }
  }

  /** `2^32` stored in two ways: `compare` calls one of them smaller, and `divmod_assign` would then
      leave a remainder equal to the divisor. */
  lemma CompareMisjudges()
    ensures Shift(Val([1]), 1) == Shift(Val([0, 1]), 0) && CompareResult([1], 1, [0, 1], 0) == -1
  {
    assert Shift(Val([1]), 1) == B * Shift(Val([1]), 0);
    assert [0, 1][1..] == [1] && [1][1..] == [];
  }

  /** `2^64 - 1`, as `subtract_aligned` computes it. */
  lemma SubtractMisses()
    ensures Strays([0, 0, 1], [1], 0) && StrayError([0, 0, 1], 0, [1], 0) != 0
  {
    assert [0, 0, 1][..1] == [0] && Val([0]) == 0 && Val([1]) == 1;
    ShiftOrder(0, B - 1, 1);
  }
}
