/** fmt's `bigint`: a little-endian buffer of 32-bit bigits and a bigit exponent, updated in place. */
module BigintModel {
  import opened Words
  import opened BigNat
  import opened BigintLemmas

  /** fmt's `accumulator`: two 64-bit halves of a 128-bit sum. */
  class Accumulator {
    var lower: u64
    var upper: u64

    ghost function Value(): nat
      reads this
    {
      upper * 0x1_0000_0000_0000_0000 + lower
    }

    constructor ()
      ensures Value() == 0
    {
      lower, upper := 0, 0;
    }

    method Add(n: u64)
      modifies this
      ensures Value() == old(Value()) + n - if old(Value()) + n < 0x1_0000_0000_0000_0000_0000_0000_0000_0000
                                            then 0 else 0x1_0000_0000_0000_0000_0000_0000_0000_0000
    {
      lower := (lower + n) % 0x1_0000_0000_0000_0000;
      if lower < n {
        upper := (upper + 1) % 0x1_0000_0000_0000_0000;
      }
    }

    /** The conversion to a 32-bit word. */
    function Bigit(): (r: u32)
      reads this
      ensures r == Value() % B
    {
      lower % B
    }

    /** `>>= 32`; the parts joined by `|` in the original share no bit, so they are added. */
    method ShiftRight()
      modifies this
      ensures Value() == old(Value()) / B
    {
      lower := (upper * B) % 0x1_0000_0000_0000_0000 + lower / B;
      upper := upper / B;
    }
  }

  class Bigint {
    var bigits: seq<u32>
    var exp: nat

    ghost function Value(): int
      reads this
    {
      Shift(Val(bigits), exp)
    }

    constructor ()
      ensures bigits == [] && exp == 0
    {
      bigits, exp := [], 0;
    }

    function NumBigits(): nat
      reads this
    {
      |bigits| + exp
    }

    method Assign(other: Bigint)
      modifies this
      ensures bigits == old(other.bigits) && exp == old(other.exp)
    {
      bigits, exp := other.bigits, other.exp;
    }

    method AssignU64(n: u64)
      modifies this
      ensures Value() == n && exp == 0 && Val(bigits) == n
      ensures if n == 0 then bigits == [0] else Top(bigits)
    {
      var rest := n;
      bigits := [rest % B];
      rest := rest / B;
      while rest != 0
        invariant bigits != [] && rest >= 0
        invariant Val(bigits) + Shift(rest, |bigits|) == n
        invariant rest == 0 ==> if n == 0 then bigits == [0] else Top(bigits)
        decreases rest
      {
        PushStep(bigits, rest % B, rest / B);
        bigits := bigits + [rest % B];
        rest := rest / B;
      }
      ShiftOrder(0, 0, |bigits|);
      exp := 0;
    }

    method Multiply32(value: u32)
      modifies this
      ensures exp == old(exp) && Val(bigits) == old(Val(bigits)) * value
      ensures Value() == old(Value()) * value
      ensures old(Top(bigits)) && value > 0 ==> Top(bigits)
      ensures old(bigits) == [0] ==> bigits == [0]
    {
      ghost var s := bigits;
      var carry: u32 := 0;
      var i, n := 0, |bigits|;
      while i < n
        invariant 0 <= i <= n == |bigits| == |s| && exp == old(exp)
        invariant bigits[i..] == s[i..]
        invariant Carried(s, bigits, i, value, carry)
        invariant s == [0] ==> carry == 0 && bigits == [0]
      {
        MultiplyStep(s, bigits, i, value, carry);
        var result: u64 := bigits[i] * value + carry;
        bigits := bigits[i := result % B];
        carry := result / B;
        i := i + 1;
      }
      MultiplyEnd(s, bigits, value, carry, exp);
      if carry != 0 {
        bigits := bigits + [carry];
      }
    }

    method Multiply64(value: u64)
      modifies this
      ensures exp == old(exp) && Val(bigits) == old(Val(bigits)) * value
      ensures Value() == old(Value()) * value
      ensures old(Top(bigits)) && value > 0 ==> Top(bigits)
    {
      ghost var s := bigits;
      var lower, upper := value % B, value / B;
      var carry: u64 := 0;
      var i, n := 0, |bigits|;
      while i < n
        invariant 0 <= i <= n == |bigits| == |s| && exp == old(exp)
        invariant bigits[i..] == s[i..]
        invariant Carried(s, bigits, i, value, carry)
      {
        WideStep(s, bigits, i, lower, upper, carry);
        var result: u64 := bigits[i] * lower + carry % B;
        carry := bigits[i] * upper + result / B + carry / B;
        bigits := bigits[i := result % B];
        i := i + 1;
      }
      assert Carried(s, bigits, n, value, carry);
      assert bigits[..n] == bigits && s[..n] == s;
      while carry != 0
        invariant |bigits| >= n && exp == old(exp)
        invariant |bigits| == n || carry != 0 || Top(bigits)
        invariant Val(bigits) + Shift(carry, |bigits|) == Val(s) * value
        decreases carry
      {
        PushStep(bigits, carry % B, carry / B);
        bigits := bigits + [carry % B];
        carry := carry / B;
      }
      ShiftOrder(0, 0, |bigits|);
      ProductEnd(s, bigits, value, exp);
    }

    method ShiftLeft(shift: nat)
      modifies this
      ensures exp == old(exp) + shift / 32
      ensures Val(bigits) == old(Val(bigits)) * Pow(2, shift % 32)
      ensures Value() == old(Value()) * Pow(2, shift)
      ensures old(Top(bigits)) ==> Top(bigits)
    {
      ghost var s := bigits;
      ShiftByBits(Val(s), exp, shift);
      exp := exp + shift / 32;
      var bits := shift % 32;
      if bits == 0 {
        return;
      }
      ghost var p, q := Pow(2, bits), Pow(2, 32 - bits);
      BitFactors(bits);
      var carry: u32 := 0;
      var i, n := 0, |bigits|;
      while i < n
        invariant 0 <= i <= n == |bigits| == |s| && exp == old(exp) + shift / 32
        invariant bigits[i..] == s[i..]
        invariant carry < p && Carried(s, bigits, i, p, carry)
      {
        assert bigits[i] == s[i];
        ShiftedWord(bigits[i], p, q);
        var c: u32 := bigits[i] / Pow(2, 32 - bits);
        var d: u32 := (bigits[i] * Pow(2, bits)) % B + carry;
        CarriedStep(s, bigits, i, p, carry, d, c);
        bigits := bigits[i := d];
        carry := c;
        i := i + 1;
      }
      MultiplyEnd(s, bigits, p, carry, exp);
      if carry != 0 {
        bigits := bigits + [carry];
      }
    }

    /** One borrowing column; the difference wraps around in 64 bits as in the original. */
    method SubtractBigits(index: nat, other: u32, borrow: u32) returns (borrow': u32)
      requires index < |bigits| && borrow <= 1
      modifies this
      ensures exp == old(exp) && |bigits| == |old(bigits)|
      ensures bigits == old(bigits)[index := bigits[index]]
      ensures borrow' <= 1 && bigits[index] - B * borrow' == old(bigits)[index] - other - borrow
    {
      var result: u64 := (bigits[index] - other - borrow) % 0x1_0000_0000_0000_0000;
      bigits := bigits[index := result % B];
      borrow' := result / 0x8000_0000_0000_0000;
    }

    method RemoveLeadingZeros()
      modifies this
      ensures exp == old(exp) && Val(bigits) == old(Val(bigits))
      ensures old(bigits) != [] ==> Top(bigits) || bigits == [0]
    {
      ghost var s := bigits;
      var top := |bigits| - 1;
      assert s[..top + 1] == s;
      while top > 0 && bigits[top] == 0
        invariant -1 <= top < |bigits| && bigits == s && exp == old(exp) && (s != [] ==> 0 <= top)
        invariant Val(s[..top + 1]) == Val(s)
      {
        ValTake(s, top);
        ShiftOrder(0, 0, top);
        top := top - 1;
      }
      bigits := bigits[..top + 1];
    }

    /** Subtracts an aligned number; exact but for the stray borrow described at `Strays`. */
    method SubtractAligned(other: Bigint)
      requires other != this && exp <= other.exp && Top(other.bigits)
      requires Value() >= other.Value()
      modifies this
      ensures exp == old(exp) && (Top(bigits) || bigits == [0])
      ensures Value() == old(Value()) - other.Value()
                         + old(StrayError(bigits, exp, other.bigits, other.exp))
    {
      ghost var s, o, off := bigits, other.bigits, other.exp - exp;
      WindowFits(s, exp, o, other.exp);
      var borrow: u32 := 0;
      var i := other.exp - exp;
      var j, n := 0, |other.bigits|;
      assert o[..0] == [];
      ShiftOrder(0, 0, off);
      while j != n
        invariant 0 <= j <= n && i == off + j && exp == old(exp) && |bigits| == |s|
        invariant borrow <= 1 && bigits[i..] == s[i..] && Borrowed(s, bigits, o, off, j, borrow)
      {
        ghost var t := bigits;
        var borrow' := SubtractBigits(i, other.bigits[j], borrow);
        assert t[i] == s[i];
        BorrowedStep(s, t, o, off, j, borrow, bigits[i], borrow');
        borrow := borrow';
        i, j := i + 1, j + 1;
      }
      ghost var t, b := bigits, borrow;
      BorrowOut(s, t, o, off, b, exp, other.exp);
      while borrow > 0
        invariant exp == old(exp) && borrow <= b <= 1 && |bigits| == |t| && (b == 0 ==> bigits == t)
        invariant b == 1 ==> i < |t| && bigits == t[i := bigits[i]]
        invariant b == 1 ==> bigits[i] == if borrow == 0 then (if t[i] == 0 then B - 2 else t[i] - 1)
                                          else if t[i] == 0 && bigits[i] != 0 then B - 1 else t[i]
        decreases if borrow == 0 then 0 else if bigits[i] == 0 then 2 else 1
      {
        borrow := SubtractBigits(i, 0, borrow);
      }
      SubtractEnd(s, t, bigits, o, off, b, exp, other.exp);
      RemoveLeadingZeros();
    }

    /** fmt's `compare`. */
    static method Compare(lhs: Bigint, rhs: Bigint) returns (r: int)
      requires Operand(lhs.bigits, lhs.exp, rhs.exp) && Top(rhs.bigits)
      ensures r == CompareResult(lhs.bigits, lhs.exp, rhs.bigits, rhs.exp)
    {
      ghost var s, e, t, f := lhs.bigits, lhs.exp, rhs.bigits, rhs.exp;
      var numLhs, numRhs := lhs.NumBigits(), rhs.NumBigits();
      if numLhs != numRhs {
        if numLhs > numRhs {
          LongerIsLarger(s, e, t, f);
          return 1;
        } else {
          LongerIsLarger(t, f, s, e);
          return -1;
        }
      }
      var i, j := |lhs.bigits| - 1, |rhs.bigits| - 1;
      var end := if i - j < 0 then 0 else i - j;
      LowWhole(s, e, numLhs);
      LowWhole(t, f, numRhs);
      while i >= end
        invariant end - 1 <= i < |s| && i - j == |s| - |t|
        invariant Low(s, e, i + 1 + e) - Low(t, f, i + 1 + e) == lhs.Value() - rhs.Value()
      {
        var lhsBigit, rhsBigit := lhs.bigits[i], rhs.bigits[j];
        assert lhsBigit == Digit(s, e, i + e) && rhsBigit == Digit(t, f, i + e);
        if lhsBigit != rhsBigit {
          if lhsBigit > rhsBigit {
            OrderedAt(s, e, t, f, i + e);
            return 1;
          } else {
            OrderedAt(t, f, s, e, i + e);
            return -1;
          }
        }
        i, j := i - 1, j - 1;
      }
      CompareEnd(s, e, t, f, end);
      if i != j {
        return if i > j then 1 else -1;
      }
      return 0;
    }

    /** fmt's `add_compare`: compares `lhs1 + lhs2` with `rhs` without adding. */
    static method AddCompare(lhs1: Bigint, lhs2: Bigint, rhs: Bigint) returns (r: int)
      requires Operand(lhs1.bigits, lhs1.exp, rhs.exp) && Operand(lhs2.bigits, lhs2.exp, rhs.exp)
      requires Top(rhs.bigits)
      ensures r == Sign(lhs1.Value() + lhs2.Value() - rhs.Value())
    {
      hide Val, Shift, Remaining;
      var maxLhs := if lhs1.NumBigits() > lhs2.NumBigits() then lhs1.NumBigits() else lhs2.NumBigits();
      var numRhs := rhs.NumBigits();
      ghost var all := Three(lhs1.bigits, lhs1.exp, lhs2.bigits, lhs2.exp, rhs.bigits, rhs.exp);
      if maxLhs + 1 < numRhs {
        ShorterSum(all, maxLhs);
        return -1;
      }
      if maxLhs > numRhs {
        LongerSum(all);
        return 1;
      }
      RemainingStart(all, numRhs);
      var borrow: u64 := 0;
      var least := if lhs1.exp < lhs2.exp then lhs1.exp else lhs2.exp;
      var minExp := if least < rhs.exp then least else rhs.exp;
      var i := numRhs - 1;
      ghost var lent := 0;
      while i >= minExp
        invariant minExp - 1 <= i < numRhs && borrow == B * lent && 0 <= lent <= 1
        invariant Remaining(all, i + 1, lent)
      {
        var sum: u64 := Digit(lhs1.bigits, lhs1.exp, i) + Digit(lhs2.bigits, lhs2.exp, i);
        var rhsBigit := Digit(rhs.bigits, rhs.exp, i);
        RemainingStep(all, i, lent);
        lent := rhsBigit + borrow - sum;
        if sum > rhsBigit + borrow {
          RemainingDecides(all, i, lent);
          return 1;
        }
        borrow := rhsBigit + borrow - sum;
        if borrow > 1 {
          RemainingDecides(all, i, lent);
          return -1;
        }
        borrow := borrow * B;
        i := i - 1;
      }
      RemainingEnd(all, minExp, lent);
      return if borrow != 0 then -1 else 0;
    }

    /** The inner loop of `square` for the lower half of the result. */
    static method AddLowerColumn(n: seq<u32>, k: nat, sum: Accumulator)
      requires k < |n| < 0x4000_0000 && sum.Value() <= |n| * B
      modifies sum
      ensures sum.Value() == old(sum.Value()) + Col(n, n, k, |n|) <= |n| * B * B
    {
      var i, j := 0, k;
      while j >= 0
        invariant 0 <= i == k - j <= k + 1 && sum.Value() == old(sum.Value()) + Col(n, n, k, i)
      {
        ColumnNext(n, k, i, j, old(sum.Value()));
        sum.Add(n[i] as int * n[j] as int);
        i, j := i + 1, j - 1;
      }
      ColOutside(n, n, k, k + 1, |n|);
      ColumnFits(n, k, |n|, old(sum.Value()));
    }

    /** The inner loop of `square` for the upper half of the result. */
    static method AddUpperColumn(n: seq<u32>, k: nat, sum: Accumulator)
      requires |n| <= k < 2 * |n| && |n| < 0x4000_0000 && sum.Value() <= |n| * B
      modifies sum
      ensures sum.Value() == old(sum.Value()) + Col(n, n, k, |n|) <= |n| * B * B
    {
      var j := |n| - 1;
      var i := k - j;
      ColOutside(n, n, k, 0, i);
      while i < |n|
        invariant k - |n| < i == k - j <= |n| && sum.Value() == old(sum.Value()) + Col(n, n, k, i)
      {
        ColumnNext(n, k, i, j, old(sum.Value()));
        sum.Add(n[i] as int * n[j] as int);
        i, j := i + 1, j - 1;
      }
      ColumnFits(n, k, |n|, old(sum.Value()));
    }

    /** Squares by columns; the column sums are kept in 128 bits. */
    method Square()
      requires |bigits| < 0x4000_0000
      modifies this
      ensures exp == 2 * old(exp) && Val(bigits) == old(Val(bigits)) * old(Val(bigits))
      ensures Value() == old(Value()) * old(Value())
      ensures old(bigits) != [] ==> Top(bigits) || bigits == [0]
    {
      var n := bigits;
      var numBigits := |bigits|;
      var numResult := 2 * numBigits;
      bigits := n + seq(numBigits, _ => 0);
      var sum := new Accumulator();
      var k := 0;
      while k < numBigits
        invariant 0 <= k <= numBigits && |bigits| == numResult && exp == old(exp) && fresh(sum)
        invariant sum.Value() <= numBigits * B && Summed(n, bigits, k, sum.Value())
      {
        ghost var carry := sum.Value();
        AddLowerColumn(n, k, sum);
        SummedStep(n, bigits, k, carry, sum.Value());
        bigits := bigits[k := sum.Bigit()];
        sum.ShiftRight();
        k := k + 1;
      }
      while k < numResult
        invariant numBigits <= k <= numResult == |bigits| && exp == old(exp) && fresh(sum)
        invariant sum.Value() <= numBigits * B && Summed(n, bigits, k, sum.Value())
      {
        ghost var carry := sum.Value();
        AddUpperColumn(n, k, sum);
        SummedStep(n, bigits, k, carry, sum.Value());
        bigits := bigits[k := sum.Bigit()];
        sum.ShiftRight();
        k := k + 1;
      }
      SummedEnd(n, bigits, sum.Value(), exp);
      RemoveLeadingZeros();
      exp := exp * 2;
    }

    /** The highest power of two in `exp`: the first loop of `assign_pow10`. */
    static method TopBit(exp: nat) returns (bitmask: nat, ghost t: nat)
      requires 0 < exp < 0x4000_0000
      ensures t < 30 && bitmask == Pow(2, t) && bitmask <= exp < 2 * bitmask
    {
      bitmask, t := 1, 0;
      while exp >= bitmask
        invariant t <= 30 && bitmask == Pow(2, t) && bitmask <= 2 * exp
        decreases 2 * exp - bitmask
      {
        PowBelow(t, exp);
        bitmask, t := bitmask * 2, t + 1;
      }
      bitmask, t := bitmask / 2, t - 1;
    }

    /** One turn of the middle part of `assign_pow10`. */
    method TakeBit(exp: nat, bitmask: nat, ghost t: nat)
      requires exp < 0x4000_0000 && bitmask == Pow(2, t) > 0
      requires this.exp == 0 && Top(bigits) && PoweredTo(Val(bigits), exp, t + 1)
      modifies this
      ensures this.exp == 0 && Top(bigits) && PoweredTo(Val(bigits), exp, t)
    {
      NextBit(Val(bigits), exp, t);
      FewBigits(bigits, exp, t + 1);
      assert Val([0]) == 0;
      Square();
      if (exp / bitmask) % 2 != 0 {
        Multiply32(5);
      }
    }

    /** The middle part of `assign_pow10`: repeated squaring over the bits of `exp`.
        `exp & bitmask` is written out arithmetically; `bitmask` is a power of two. */
    method AssignPow5(exp: nat)
      requires 0 < exp < 0x4000_0000
      modifies this
      ensures this.exp == 0 && Top(bigits) && Val(bigits) == Pow(5, exp)
    {
      ghost var t: int;
      var bitmask;
      bitmask, t := TopBit(exp);
      AssignU64(5);
      PoweredToFive(exp, t);
      bitmask, t := bitmask / 2, t - 1;
      if t >= 0 {
        PowPositive(2, t);
      }
      while bitmask != 0
        invariant -1 <= t && (if t < 0 then bitmask == 0 else bitmask == Pow(2, t) > 0)
        invariant this.exp == 0 && Top(bigits) && PoweredTo(Val(bigits), exp, t + 1)
        decreases bitmask
      {
        TakeBit(exp, bitmask, t);
        bitmask, t := bitmask / 2, t - 1;
        if t >= 0 {
          PowPositive(2, t);
        }
      }
    }

    /** `10^exp` as `5^exp` shifted left by `exp`. */
    method AssignPow10(exp: nat)
      requires exp < 0x4000_0000
      modifies this
      ensures Value() == Pow(10, exp) && Top(bigits) && this.exp == exp / 32
    {
      if exp == 0 {
        AssignU64(1);
        return;
      }
      AssignPow5(exp);
      ShiftLeft(exp);
      PowMul(5, 2, exp);
    }

    /** Gives up exponent for trailing zero bigits, down to exponent `limit`. */
    method Align(limit: nat)
      requires Top(bigits)
      modifies this
      ensures Value() == old(Value()) && Top(bigits)
      ensures exp == if old(exp) > limit then limit else old(exp)
    {
      var difference := exp - limit;
      if difference > 0 {
        ghost var s := bigits;
        var n := |bigits|;
        bigits := bigits + Zeros(difference);
        var i := n - 1;
        var j := i + difference;
        while i >= 0
          invariant -1 <= i < n && j == i + difference && |bigits| == n + difference && exp == old(exp)
          invariant forall k :: 0 <= k <= i ==> bigits[k] == s[k]
          invariant forall k :: i < k < n ==> bigits[k + difference] == s[k]
        {
          bigits := bigits[j := bigits[i]];
          i, j := i - 1, j - 1;
        }
        assert bigits[difference..] == s;
        bigits := Zeros(difference) + bigits[difference..];
        exp := exp - difference;
        AlignedValue(s, difference, exp);
      }
    }

    /** One turn of the loop of `divmod_assign`. */
    method SubtractOnce(divisor: Bigint) returns (c: int)
      requires this != divisor && Top(divisor.bigits) && Operand(bigits, exp, divisor.exp)
      requires divisor.Value() <= Value() < 0x8000_0000 * divisor.Value() && exp <= divisor.exp
      modifies this
      ensures exp == old(exp) && Operand(bigits, exp, divisor.exp)
      ensures Value() == old(Value()) - divisor.Value()
      ensures c < 0 <==> Value() < divisor.Value()
    {
      NeverStrays(bigits, exp, divisor.bigits, divisor.exp);
      SubtractAligned(divisor);
      CompareDecides(bigits, exp, divisor.bigits, divisor.exp);
      c := Compare(this, divisor);
    }

    /** The loop of `divmod_assign`. */
    method SubtractWhileNotLess(divisor: Bigint) returns (quotient: nat)
      requires this != divisor && Top(divisor.bigits) && Operand(bigits, exp, divisor.exp)
      requires 0 < divisor.Value() <= Value() < 0x8000_0000 * divisor.Value() && exp <= divisor.exp
      modifies this
      ensures exp == old(exp) && Operand(bigits, exp, divisor.exp) && quotient > 0
      ensures quotient * divisor.Value() + Value() == old(Value())
      ensures 0 <= Value() < divisor.Value()
    {
      ghost var v, d := Value(), divisor.Value();
      quotient := 0;
      while true
        invariant exp == old(exp) && Operand(bigits, exp, divisor.exp)
        invariant quotient * d + Value() == v && Value() >= d
        decreases Value()
      {
        var c := SubtractOnce(divisor);
        MulAdd(quotient, 1, d);
        quotient := quotient + 1;
        NotNegative(bigits, exp);
        if c < 0 {
          break;
        }
      }
    }

    /** fmt's `divmod_assign`; the quotient must fit in an `int`. The remainder is below the divisor
        unless both were equal and the dividend was stored in fewer bigits: then `compare` takes it for
        smaller, and it is left as it is. */
    method DivmodAssign(divisor: Bigint) returns (quotient: nat)
      requires this != divisor && Top(divisor.bigits) && Operand(bigits, exp, divisor.exp)
      requires Value() < 0x8000_0000 * divisor.Value()
      modifies this
      ensures quotient * divisor.Value() + Value() == old(Value())
      ensures 0 <= Value() <= divisor.Value() && Operand(bigits, exp, divisor.exp)
      ensures Value() < divisor.Value() <==>
              !(old(Value()) == divisor.Value() && |old(bigits)| < |divisor.bigits|)
      ensures exp == if quotient > 0 && old(exp) > divisor.exp then divisor.exp else old(exp)
      ensures quotient == 0 ==> bigits == old(bigits)
    {
      NotNegative(bigits, exp);
      var c := Compare(this, divisor);
      if c < 0 {
        return 0;
      }
      NotZero(divisor.bigits, divisor.exp);
      assert Val([0]) == 0;
      ShiftOrder(0, 0, exp);
      Align(divisor.exp);
      quotient := SubtractWhileNotLess(divisor);
    }
  }
}
