/** The number that a little-endian sequence of 32-bit bigits stands for. */
module BigNat {
  import opened Words

  ghost function Val(s: seq<u32>): nat {
    if s == [] then 0 else s[0] + B * Val(s[1..])
  }

  /** The top stored bigit is not zero. */
  predicate Top(s: seq<u32>) {
    s != [] && s[|s| - 1] != 0
  }

  lemma {:induction false} ValConcat(s: seq<u32>, t: seq<u32>)
    ensures Val(s + t) == Val(s) + Shift(Val(t), |s|)
  {
    if s == [] {
      assert s + t == t;
    } else {
      assert (s + t)[1..] == s[1..] + t;
      ValConcat(s[1..], t);
    }
  }

  lemma ValSplit(s: seq<u32>, i: nat)
    requires i <= |s|
    ensures Val(s) == Val(s[..i]) + Shift(Val(s[i..]), i)
  {
    assert s == s[..i] + s[i..];
    ValConcat(s[..i], s[i..]);
  }

  lemma ValTake(s: seq<u32>, i: nat)
    requires i < |s|
    ensures Val(s[..i + 1]) == Val(s[..i]) + Shift(s[i], i)
  {
    assert s[..i + 1] == s[..i] + [s[i]];
    ValConcat(s[..i], [s[i]]);
  }

  lemma {:induction false} ValBound(s: seq<u32>)
    ensures Val(s) < Shift(1, |s|)
  {
    if s == [] {
    } else {
      ValBound(s[1..]);
    }
  }

  /** A non-zero top bigit is the same as a value that needs all the bigits. */
  lemma TopBound(s: seq<u32>)
    requires s != []
    ensures Top(s) <==> Shift(1, |s| - 1) <= Val(s)
  {
    var n := |s| - 1;
    assert s[..n + 1] == s;
    ValTake(s, n);
    ValBound(s[..n]);
    ShiftOrder(s[n], 1, n);
    ShiftOrder(0, s[n], n);
  }

  /** One column of a multiplying loop: `d` is stored and `c'` carried on. */
  lemma CarryStep(i: nat, low: int, c: int, x: int, v: int, src: int, d: int, c': int)
    requires low + Shift(c, i) == src * v
    requires d + B * c' == x * v + c
    ensures low + Shift(d, i) + Shift(c', i + 1) == (src + Shift(x, i)) * v
  {
    ShiftSplit(d, c', i);
    ShiftAdd(x * v, c, i);
    ShiftTimes(x, v, i);
    MulAdd(src, Shift(x, i), v);
  }

  function Zeros(n: nat): (s: seq<u32>)
    ensures |s| == n && Val(s) == 0
  {
    if n == 0 then [] else [0] + Zeros(n - 1)
  }

  // Bigits at absolute positions: a number is a sequence and a bigit exponent.

  /** The bigit at absolute position `i`, zero outside what is stored. */
  function Digit(s: seq<u32>, exp: nat, i: int): u32 {
    if exp <= i < exp + |s| then s[i - exp] else 0
  }

  /** What the bigits below absolute position `i` stand for. */
  ghost function Low(s: seq<u32>, exp: nat, i: nat): int {
    if i == 0 then 0 else Low(s, exp, i - 1) + Shift(Digit(s, exp, i - 1), i - 1)
  }

  lemma {:induction false} LowBound(s: seq<u32>, exp: nat, i: nat)
    ensures 0 <= Low(s, exp, i) < Shift(1, i)
  {
    if i == 0 {
    } else {
      LowBound(s, exp, i - 1);
      DigitBound(Digit(s, exp, i - 1), i - 1);
    }
  }

  lemma DigitBound(x: u32, i: nat)
    ensures 0 <= Shift(x, i) <= Shift(1, i + 1) - Shift(1, i)
  {
    ShiftOrder(-1, x, i);
    ShiftOrder(x, 0, i);
    ShiftOrder(B - 1, x, i);
    ShiftTimes(1, B - 1, i);
  }

  lemma {:induction false} LowValue(s: seq<u32>, exp: nat, i: nat)
    ensures Low(s, exp, i) == Shift(Val(s[..Within(i - exp, |s|)]), exp)
  {
    ShiftOrder(0, 0, exp);
    if i == 0 {
    } else {
      LowValue(s, exp, i - 1);
      ShiftOrder(0, 0, i - 1);
      var k := i - 1 - exp;
      if 0 <= k < |s| {
        ValTake(s, k);
        ShiftAdd(Val(s[..k]), Shift(s[k], k), exp);
        ShiftShift(s[k], k, exp);
      }
    }
  }

  /** `n` brought into the range from 0 to `limit`. */
  function Within(n: int, limit: nat): nat {
    if n <= 0 then 0 else if n <= limit then n else limit
  }

  lemma LowWhole(s: seq<u32>, exp: nat, i: nat)
    requires i >= exp + |s|
    ensures Low(s, exp, i) == Shift(Val(s), exp)
  {
    LowValue(s, exp, i);
    assert s[..|s|] == s;
    if i <= exp {
      assert s == [];
    }
  }

  lemma {:induction false} ShiftGrows(m: nat, n: nat)
    requires m <= n
    ensures 0 < Shift(1, m) <= Shift(1, n)
  {
    ShiftOrder(0, 1, m);
    if m < n {
      ShiftGrows(m, n - 1);
    }
  }

  // How large a number is, read off its stored bigits.

  lemma BelowPlace(s: seq<u32>, exp: nat, n: nat)
    requires exp + |s| <= n
    ensures 0 <= Shift(Val(s), exp) < Shift(1, n)
  {
    LowBound(s, exp, n);
    LowWhole(s, exp, n);
  }

  lemma TopMagnitude(s: seq<u32>, exp: nat)
    requires s != []
    ensures Top(s) <==> Shift(1, exp + |s| - 1) <= Shift(Val(s), exp)
  {
    TopBound(s);
    ShiftShift(1, |s| - 1, exp);
    ShiftOrder(Val(s), Shift(1, |s| - 1), exp);
  }

  /** More bigits, with a non-zero one on top, is a larger number. */
  lemma LongerIsLarger(s: seq<u32>, e: nat, t: seq<u32>, f: nat)
    requires Top(s) && f + |t| < e + |s|
    ensures Shift(Val(t), f) < Shift(Val(s), e)
  {
    TopMagnitude(s, e);
    BelowPlace(t, f, e + |s| - 1);
  }

  /** A difference of at least one at place `i` outweighs everything below. */
  lemma PlaceOutweighs(x: int, y: int, i: nat)
    requires x > y
    ensures Shift(x, i) >= Shift(y, i) + Shift(1, i)
  {
    ShiftAdd(y, x - y, i);
    ShiftOrder(x - y, 1, i);
  }

  // Column sums of the product of two sequences.

  function At(b: seq<u32>, j: int): u32 {
    if 0 <= j < |b| then b[j] else 0
  }

  /** The first `i` terms `a[i'] * b[k - i']` of column `k`. */
  ghost function Col(a: seq<u32>, b: seq<u32>, k: int, i: nat): nat
    requires i <= |a|
  {
    if i == 0 then 0 else Col(a, b, k, i - 1) + a[i - 1] * At(b, k - (i - 1))
  }

  /** The first `n` columns, each at its place. */
  ghost function Cols(a: seq<u32>, b: seq<u32>, i: nat, n: nat): int
    requires i <= |a|
  {
    if n == 0 then 0 else Cols(a, b, i, n - 1) + Shift(Col(a, b, n - 1, i), n - 1)
  }

  /** What the term `x` at place `i` adds to the first `n` columns. */
  ghost function Row(x: u32, b: seq<u32>, i: nat, n: nat): int {
    if n == 0 then 0 else Row(x, b, i, n - 1) + Shift(x * At(b, n - 1 - i), n - 1)
  }

  lemma RowStep(x: u32, b: seq<u32>, i: nat, k: nat)
    requires k < |b|
    ensures Shift(x * Val(b[..k + 1]), i) == Shift(x * Val(b[..k]), i) + Shift(x * b[k], k + i)
  {
    ValTake(b, k);
    MulAdd(Val(b[..k]), Shift(b[k], k), x);
    ShiftAdd(x * Val(b[..k]), x * Shift(b[k], k), i);
    ShiftTimes(b[k], x, k);
    ShiftShift(b[k] * x, k, i);
  }

  lemma {:induction false} RowValue(x: u32, b: seq<u32>, i: nat, n: nat)
    ensures Row(x, b, i, n) == Shift(x * Val(b[..Within(n - i, |b|)]), i)
  {
    ShiftOrder(0, 0, i);
    if n == 0 {
    } else {
      RowValue(x, b, i, n - 1);
      ShiftOrder(0, 0, n - 1);
      if i < n <= i + |b| {
        RowStep(x, b, i, n - 1 - i);
      }
    }
  }

  lemma {:induction false} ColsRow(a: seq<u32>, b: seq<u32>, i: nat, n: nat)
    requires i < |a|
    ensures Cols(a, b, i + 1, n) == Cols(a, b, i, n) + Row(a[i], b, i, n)
  {
    if n == 0 {
    } else {
      ColsRow(a, b, i, n - 1);
      ShiftAdd(Col(a, b, n - 1, i), a[i] * At(b, n - 1 - i), n - 1);
    }
  }

  lemma {:induction false} ColsZero(a: seq<u32>, b: seq<u32>, n: nat)
    ensures Cols(a, b, 0, n) == 0
  {
    if n == 0 {
    } else {
      ColsZero(a, b, n - 1);
      ShiftOrder(0, 0, n - 1);
    }
  }

  /** The columns of a product add up to the product. */
  lemma {:induction false} ColsProduct(a: seq<u32>, b: seq<u32>, i: nat, n: nat)
    requires i <= |a| && |b| + i <= n
    ensures Cols(a, b, i, n) == Val(a[..i]) * Val(b)
  {
    if i == 0 {
      ColsZero(a, b, n);
    } else {
      ColsProduct(a, b, i - 1, n);
      ColsRow(a, b, i - 1, n);
      RowValue(a[i - 1], b, i - 1, n);
      assert b[..|b|] == b;
      ValTake(a, i - 1);
      ShiftTimes(a[i - 1], Val(b), i - 1);
      MulAdd(Val(a[..i - 1]), Shift(a[i - 1], i - 1), Val(b));
    }
  }

  /** Terms outside `b` add nothing to a column. */
  lemma {:induction false} ColOutside(a: seq<u32>, b: seq<u32>, k: int, i: nat, j: nat)
    requires i <= j <= |a|
    requires k < i || k - j + 1 >= |b|
    ensures Col(a, b, k, i) == Col(a, b, k, j)
  {
    if i < j {
      ColOutside(a, b, k, i, j - 1);
    }
  }

  lemma {:induction false} ColBound(a: seq<u32>, b: seq<u32>, k: int, i: nat)
    requires i <= |a|
    ensures Col(a, b, k, i) <= i * ((B - 1) * (B - 1))
  {
    if i == 0 {
    } else {
      ColBound(a, b, k, i - 1);
      TermBound(a[i - 1], At(b, k - (i - 1)));
    }
  }

  lemma TermBound(x: u32, y: u32)
    ensures 0 <= x * y <= (B - 1) * (B - 1)
  {
    MulMonotone(x, B - 1, y);
    MulMonotone(0, x, y);
  }
}
