/** Machine words, powers, and shifting a number by whole 32-bit places. */
module Words {

  /** One more than the largest 32-bit word; the base of a `bigint`. */
  const B: int := 0x1_0000_0000

  type u32 = x: int | 0 <= x < 0x1_0000_0000
  type u64 = x: int | 0 <= x < 0x1_0000_0000_0000_0000

  function Pow(b: nat, n: nat): nat {
    if n == 0 then 1 else b * Pow(b, n - 1)
  }

  lemma {:induction false} PowPositive(b: nat, n: nat)
    requires b > 0
    ensures Pow(b, n) > 0
  {
    if n == 0 {
    } else {
      PowPositive(b, n - 1);
    }
  }

  lemma {:induction false} PowAdd(b: nat, m: nat, n: nat)
    ensures Pow(b, m + n) == Pow(b, m) * Pow(b, n)
  {
    if m == 0 {
    } else {
      PowAdd(b, m - 1, n);
      MulAssoc(b, Pow(b, m - 1), Pow(b, n));
    }
  }

  lemma {:induction false} PowMonotone(b: nat, m: nat, n: nat)
    requires b > 0 && m <= n
    ensures Pow(b, m) <= Pow(b, n)
  {
    if m < n {
      PowMonotone(b, m, n - 1);
      MulMonotone(1, b, Pow(b, n - 1));
    }
  }

  lemma {:induction false} PowMul(a: nat, b: nat, n: nat)
    ensures Pow(a * b, n) == Pow(a, n) * Pow(b, n)
  {
    if n == 0 {
    } else {
      PowMul(a, b, n - 1);
      MulSwap(a, b, Pow(a, n - 1), Pow(b, n - 1));
    }
  }

  // Small facts about multiplication, kept apart so that no proof needs them all at once.

  lemma MulAssoc(x: int, y: int, z: int)
    ensures x * (y * z) == (x * y) * z
  {
  }

  lemma MulSwap(a: int, b: int, x: int, y: int)
    ensures (a * b) * (x * y) == (a * x) * (b * y)
  {
    MulAssoc(a * b, x, y);
    MulAssoc(a, b, x);
    MulAssoc(a, x, b);
    MulAssoc(a * x, b, y);
  }

  lemma MulMonotone(x: int, y: int, z: int)
    requires x <= y && 0 <= z
    ensures x * z <= y * z
  {
  }

  lemma MulAdd(x: int, y: int, z: int)
    ensures (x + y) * z == x * z + y * z
  {
  }

  /** `x` moved up by `n` places of 32 bits, that is `x * B^n`. */
  ghost function Shift(x: int, n: nat): int {
    if n == 0 then x else B * Shift(x, n - 1)
  }

  lemma {:induction false} ShiftAdd(x: int, y: int, n: nat)
    ensures Shift(x + y, n) == Shift(x, n) + Shift(y, n)
  {
    if n == 0 {
    } else {
      ShiftAdd(x, y, n - 1);
    }
  }

  lemma {:induction false} ShiftTimes(x: int, v: int, n: nat)
    ensures Shift(x * v, n) == Shift(x, n) * v
  {
    if n == 0 {
    } else {
      ShiftTimes(x, v, n - 1);
      MulAssoc(B, Shift(x, n - 1), v);
    }
  }

  lemma {:induction false} ShiftShift(x: int, m: nat, n: nat)
    ensures Shift(Shift(x, m), n) == Shift(x, m + n)
  {
    if n == 0 {
    } else {
      ShiftShift(x, m, n - 1);
    }
  }

  lemma {:induction false} ShiftOrder(x: int, y: int, n: nat)
    ensures x < y <==> Shift(x, n) < Shift(y, n)
    ensures Shift(0, n) == 0
  {
    if n == 0 {
    } else {
      ShiftOrder(x, y, n - 1);
    }
  }

  lemma ShiftNeg(x: int, n: nat)
    ensures Shift(-x, n) == -Shift(x, n)
  {
    ShiftTimes(x, -1, n);
  }

  lemma ShiftSplit(d: int, c: int, n: nat)
    ensures Shift(d + B * c, n) == Shift(d, n) + Shift(c, n + 1)
  {
    ShiftAdd(d, B * c, n);
    ShiftTimes(c, B, n);
  }

  lemma {:induction false} ShiftIsPow(x: int, n: nat)
    ensures Shift(x, n) == x * Pow(B, n)
  {
    if n == 0 {
    } else {
      ShiftIsPow(x, n - 1);
      MulAssoc(B, x, Pow(B, n - 1));
      MulAssoc(x, B, Pow(B, n - 1));
    }
  }

  lemma PowWord()
    ensures Pow(2, 32) == B
  {
    assert Pow(2, 4) == 16;
    PowAdd(2, 4, 4);
    PowAdd(2, 8, 8);
    PowAdd(2, 16, 16);
  }

  lemma {:induction false} PowWords(k: nat)
    ensures Pow(2, 32 * k) == Pow(B, k)
  {
    if k == 0 {
    } else {
      PowWords(k - 1);
      PowAdd(2, 32, 32 * (k - 1));
      PowWord();
      assert 32 * k == 32 + 32 * (k - 1);
    }
  }

  /** Shifting by bits is shifting by whole places and then by fewer than 32 bits. */
  lemma ShiftByBits(x: int, exp: nat, bits: nat)
    ensures Shift(x * Pow(2, bits % 32), exp + bits / 32) == Shift(x, exp) * Pow(2, bits)
  {
    var k, r := bits / 32, bits % 32;
    ShiftTimes(x, Pow(2, r), exp + k);
    ShiftShift(x, exp, k);
    ShiftIsPow(Shift(x, exp), k);
    PowWords(k);
    PowAdd(2, 32 * k, r);
    assert bits == 32 * k + r;
    MulAssoc(Shift(x, exp), Pow(B, k), Pow(2, r));
  }

  /** Quotient and remainder by `B` are what they look like. */
  lemma DivModB(a: int, k: int, r: int)
    requires a == B * k + r && 0 <= r < B
    ensures a / B == k && a % B == r
  {
  }

  /** A word shifted left by `p == 2^shift`: the bits that stay, and those carried out. */
  lemma ShiftedWord(x: u32, p: nat, q: nat)
    requires p * q == B && 0 < p && 0 < q
    ensures (x * p) % B + B * (x / q) == x * p
    ensures 0 <= x / q < p && 0 <= (x * p) % B <= B - p
  {
    var k, r := x / q, x % q;
    assert x == q * k + r;
    MulAdd(q * k, r, p);
    MulAssoc(k, q, p);
    MulMonotone(r, q - 1, p);
    MulMonotone(0, r, p);
    MulAdd(q, -1, p);
    DivModB(x * p, k, r * p);
    if k >= p {
      MulMonotone(p, k, q);
    }
    if k < 0 {
      MulMonotone(k, -1, q);
    }
  }

  lemma DivUnique(a: int, d: int, k: int, r: int)
    requires d > 0 && a == k * d + r && 0 <= r < d
    ensures a / d == k && a % d == r
  {
    var k', r' := a / d, a % d;
    assert a == k' * d + r';
    if k' > k {
      MulMonotone(k + 1, k', d);
      MulAdd(k, 1, d);
    } else if k' < k {
      MulMonotone(k' + 1, k, d);
      MulAdd(k', 1, d);
    }
  }

  /** Dropping one more bit halves the quotient. */
  lemma DivTwice(x: nat, p: nat)
    requires p > 0
    ensures x / (2 * p) == (x / p) / 2
  {
    var q, r := x / p, x % p;
    var h, b := q / 2, q % 2;
    assert x == q * p + r;
    MulAdd(2 * h, b, p);
    MulAssoc(h, 2, p);
    MulAssoc(2, h, p);
    MulMonotone(b, 1, p);
    MulMonotone(0, b, p);
    DivUnique(x, 2 * p, h, b * p + r);
  }

  /** The bits of `n` from the highest one that is set; for a 64-bit word, 64 less the leading zeros. */
  function BitLength(n: nat): nat {
    if n == 0 then 0 else 1 + BitLength(n / 2)
  }

  lemma {:induction false} BitLengthRange(n: nat)
    requires n > 0
    ensures BitLength(n) >= 1 && Pow(2, BitLength(n) - 1) <= n < Pow(2, BitLength(n))
  {
    if n == 1 {
      assert BitLength(0) == 0;
    } else {
      var bits := BitLength(n / 2);
      assert BitLength(n) == bits + 1;
      hide BitLength;
      BitLengthRange(n / 2);
      assert Pow(2, bits) == 2 * Pow(2, bits - 1) && Pow(2, bits + 1) == 2 * Pow(2, bits);
      hide Pow;
    }
  }

  lemma {:induction false} BitLengthBelow(n: nat, bits: nat)
    requires n < Pow(2, bits)
    ensures BitLength(n) <= bits
  {
    if n > 0 {
      BitLengthRange(n);
      if BitLength(n) > bits {
        PowMonotone(2, bits, BitLength(n) - 1);
      }
    }
  }
}
