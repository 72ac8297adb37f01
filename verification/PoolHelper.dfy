/** Taskete's pool handles: a pool index and an offset packed into one 32-bit word. */
module PoolHelper {
  import opened Words

  // Bit operations, bit by bit

  function And(a: nat, b: nat): nat {
    if a == 0 || b == 0 then 0 else (if a % 2 == 1 && b % 2 == 1 then 1 else 0) + 2 * And(a / 2, b / 2)
  }

  function Or(a: nat, b: nat): nat {
    if a == 0 then b else (if a % 2 == 1 || b % 2 == 1 then 1 else 0) + 2 * Or(a / 2, b / 2)
  }

  lemma ModWhole(x: nat, p: nat)
    requires p > 0
    ensures x % p == x <==> x < p
    ensures x % 1 == 0
  {
  }

  lemma ModHalf(x: nat, p: nat)
    requires p > 0
    ensures x % (2 * p) == x % 2 + 2 * (x / 2 % p)
  {
    var k := x / 2 / p;
    MulAssoc(2, k, p);
    MulAssoc(k, 2, p);
    assert x == 2 * (x / 2) + x % 2;
    assert x / 2 == k * p + x / 2 % p;
    DivUnique(x, 2 * p, k, x % 2 + 2 * (x / 2 % p));
  }

  /** The lowest `k` bits. */
  function LowBits(x: nat, k: nat): nat {
    PowPositive(2, k);
    x % Pow(2, k)
  }

  lemma LowStep(x: nat, k: nat)
    requires k > 0
    ensures LowBits(x, k) == x % 2 + 2 * LowBits(x / 2, k - 1)
  {
    PowPositive(2, k - 1);
    ModHalf(x, Pow(2, k - 1));
  }

  /** A mask of the lowest `k` bits. */
  lemma {:induction false} AndLow(x: nat, k: nat)
    ensures Pow(2, k) > 0 && And(x, Pow(2, k) - 1) == LowBits(x, k)
  {
    if k == 0 {
    } else {
      var p := Pow(2, k - 1);
      AndLow(x / 2, k - 1);
      LowStep(x, k);
      hide LowBits;
      assert (2 * p - 1) / 2 == p - 1;
      if x == 0 {
        assert LowBits(0, k) == 0 by { LowZero(k); }
      }
    }
  }

  lemma LowZero(k: nat)
    ensures LowBits(0, k) == 0
  {
    PowPositive(2, k);
  }

  lemma AndEven(x: nat, m: nat)
    ensures And(x, 2 * m) == 2 * And(x / 2, m)
  {
    assert (2 * m) / 2 == m && (2 * m) % 2 == 0;
    assert x / 2 == 0 || m == 0 ==> And(x / 2, m) == 0;
  }

  /** A mask of the bits from `k` up to `n`. */
  lemma {:induction false} AndBand(x: nat, k: nat, n: nat)
    requires k <= n
    ensures 0 < Pow(2, k) <= Pow(2, n)
    ensures And(x, Pow(2, n) - Pow(2, k)) == LowBits(x, n) - LowBits(x, k)
  {
    hide LowBits, And, Pow;
    PowPositive(2, k);
    PowMonotone(2, k, n);
    if k == 0 {
      AndLow(x, n);
      LowNone(x);
    } else {
      AndBand(x / 2, k - 1, n - 1);
      LowStep(x, k);
      LowStep(x, n);
      PowStep(k);
      PowStep(n);
      AndEven(x, Pow(2, n - 1) - Pow(2, k - 1));
    }
  }

  lemma LowNone(x: nat)
    ensures Pow(2, 0) == 1 && LowBits(x, 0) == 0
  {
    ModWhole(x, 1);
  }

  lemma PowStep(k: nat)
    requires k > 0
    ensures Pow(2, k) == 2 * Pow(2, k - 1)
  {
  }

  /** Nothing overlaps when one operand has its bits above those of the other. */
  lemma {:induction false} OrDisjoint(i: nat, k: nat, o: nat)
    requires o < Pow(2, k)
    ensures Or(i * Pow(2, k), o) == i * Pow(2, k) + o
  {
    if k > 0 {
      var p := Pow(2, k - 1);
      OrDisjoint(i, k - 1, o / 2);
      MulAssoc(i, 2, p);
      MulAssoc(2, i, p);
      assert i * Pow(2, k) == 2 * (i * p);
      assert (2 * (i * p)) / 2 == i * p && (2 * (i * p)) % 2 == 0;
    } else {
      OrZero(i);
    }
  }

  lemma {:induction false} OrZero(i: nat)
    ensures Or(i, 0) == i
  {
    if i == 0 {
    } else {
      OrZero(i / 2);
    }
  }

  // The helper

  /** taskete's `log2`, which counts bits: one more than the logarithm. */
  method Log2(word: u32) returns (r: nat)
    ensures r == BitLength(word)
  {
    if word == 0 {
      return 0;
    }
    var v := word;
    r := 1;
    while v / 2 != 0
      invariant v > 0 && r + BitLength(v / 2) == BitLength(word)
      decreases v
    {
      v := v / 2;
      r := r + 1;
    }
  }

  /** `x << n` and `x >> n` on 32 bits. */
  function Up(x: u32, n: nat): u32 {
    x * Pow(2, n) % B
  }

  function Down(x: nat, n: nat): nat {
    PowPositive(2, n);
    x / Pow(2, n)
  }

  lemma QuotientRange(x: nat, p: nat)
    requires p > 0
    ensures 0 <= x / p <= x
  {
    if x / p > x {
      MulMonotone(x + 1, x / p, p);
      MulMonotone(1, p, x + 1);
    }
  }

  class Helper {
    const offsetMask: u32
    const poolMask: u32
    const poolShift: nat

    /** Shifting a word by its whole width is undefined, so that the bit lengths must be below 32. */
    constructor (poolCapacity: u32, maxPools: u32)
      requires BitLength((poolCapacity - 1) % B) < 32 && BitLength(maxPools) < 32
      ensures Built(this, poolCapacity, maxPools)
    {
      var offset := (poolCapacity - 1) % B;
      var shift := Log2(offset);
      var mask := B - 1 - offset;
      var bound := Log2(maxPools);
      mask := Up(mask, bound);
      PowPositive(2, bound);
      QuotientRange(mask, Pow(2, bound));
      mask := Down(mask, bound);
      offsetMask, poolMask, poolShift := offset, mask, shift;
    }

    function ExtractPool(handle: u32): nat {
      Down(And(handle, poolMask), poolShift)
    }

    function ExtractOffset(handle: u32): nat {
      And(handle, offsetMask)
    }

    function MakeHandle(index: u32, offset: nat): u32 {
      Or(index * Pow(2, poolShift), offset) % B
    }
  }

  /** The masks and the shift that the constructor leaves. */
  predicate Built(helper: Helper, poolCapacity: u32, maxPools: u32) {
    var b := BitLength(maxPools);
    && helper.offsetMask == (poolCapacity - 1) % B && helper.poolShift == BitLength(helper.offsetMask)
    && helper.poolMask == Down(Up(B - 1 - helper.offsetMask, b), b)
  }

  /** The masks for pools of `2^k` blocks and a bound of `b` bits on the number of pools. */
  predicate Packs(helper: Helper, k: nat, b: nat) {
    && helper.poolShift == k < 32 && b < 32
    && helper.offsetMask == Pow(2, k) - 1
    && helper.poolMask == if k + b <= 32 then Pow(2, 32 - b) - Pow(2, k) else 0
  }

  lemma {:induction false} BitLengthMask(k: nat)
    ensures Pow(2, k) > 0 && BitLength(Pow(2, k) - 1) == k
  {
    if k == 0 {
    } else {
      BitLengthMask(k - 1);
      assert (2 * Pow(2, k - 1) - 1) / 2 == Pow(2, k - 1) - 1;
    }
  }

  lemma ClippedFits(q: nat, p: nat, r: nat)
    requires 0 < q <= r && 0 < p && p * r == B && q * p <= B
    ensures (B - q) * p % B / p == r - q
  {
    MulAdd(B, -(q as int), p);
    MulMonotone(1, q, p);
    DivUnique((B - q) * p, B, p - 1, B - q * p);
    MulAdd(r, -(q as int), p);
    DivUnique(B - q * p, p, r - q, 0);
  }

  lemma ClippedOver(q: nat, p: nat, over: nat)
    requires 0 < p && q <= B && q * p == B * over
    ensures (B - q) * p % B / p == 0
  {
    MulAdd(B, -(q as int), p);
    MulAdd(p, -(over as int), B);
    DivUnique((B - q) * p, B, p - over, 0);
    DivUnique(0, p, 0, 0);
  }

  /** The mask as the constructor computes it, by shifting up and down again. */
  lemma ClippedMask(k: nat, b: nat)
    requires k < 32 && b < 32
    ensures 0 < Pow(2, k) <= B
    ensures Down(Up(B - Pow(2, k), b), b) == if k + b <= 32 then Pow(2, 32 - b) - Pow(2, k) else 0
  {
    PowPositive(2, k);
    PowPositive(2, b);
    PowMonotone(2, k, 32);
    PowWord();
    PowAdd(2, k, b);
    if k + b <= 32 {
      PowAdd(2, b, 32 - b);
      PowMonotone(2, k + b, 32);
      PowMonotone(2, k, 32 - b);
      ClippedFits(Pow(2, k), Pow(2, b), Pow(2, 32 - b));
    } else {
      PowAdd(2, 32, k + b - 32);
      ClippedOver(Pow(2, k), Pow(2, b), Pow(2, k + b - 32));
    }
    hide Pow;
  }

  lemma ConstructedPacks(helper: Helper, k: nat, maxPools: u32)
    requires k < 32 && BitLength(maxPools) < 32 && Pow(2, k) < B && Built(helper, Pow(2, k), maxPools)
    ensures Packs(helper, k, BitLength(maxPools))
  {
    hide Pow, Down, Up, BitLength;
    BitLengthMask(k);
    ClippedMask(k, BitLength(maxPools));
    ModWhole(Pow(2, k) - 1, B);
  }

  /** How many pools the handles can tell apart. */
  function Addressable(k: nat, b: nat): nat {
    if k + b <= 32 then Pow(2, 32 - b - k) else 1
  }

  lemma ModOfMod(x: nat, p: nat, m: nat)
    requires p > 0 && m > 0 && p * m > 0
    ensures x % (p * m) % p == x % p
  {
    var c, low := x / (p * m), x % (p * m);
    var d, r := low / p, low % p;
    assert x == c * (p * m) + low && low == d * p + r;
    MulAssoc(c, m, p);
    MulAdd(c * m, d, p);
    DivUnique(x, p, c * m + d, r);
  }

  lemma LowOfLow(x: nat, k: nat, n: nat)
    requires k <= n
    ensures LowBits(LowBits(x, n), k) == LowBits(x, k)
  {
    PowPositive(2, k);
    PowPositive(2, n - k);
    PowPositive(2, n);
    PowAdd(2, k, n - k);
    ModOfMod(x, Pow(2, k), Pow(2, n - k));
  }

  /** The lower bits of `index * 2^k + offset`. */
  lemma LowOfPair(index: nat, k: nat, offset: nat, n: nat)
    requires k <= n && offset < Pow(2, k)
    ensures LowBits(index * Pow(2, k) + offset, n) == LowBits(index, n - k) * Pow(2, k) + offset
  {
    PowPositive(2, n - k);
    PowPositive(2, n);
    PowAdd(2, n - k, k);
    ModOfPair(index, Pow(2, k), offset, Pow(2, n - k));
  }

  lemma ModOfPair(index: nat, p: nat, offset: nat, m: nat)
    requires offset < p && m > 0 && m * p > 0
    ensures (index * p + offset) % (m * p) == index % m * p + offset
  {
    var c, r := index / m, index % m;
    assert index == c * m + r;
    MulAdd(c * m, r, p);
    MulAssoc(c, m, p);
    MulMonotone(r, m - 1, p);
    MulMonotone(0, r, p);
    MulAdd(m, -1, p);
    DivUnique(index * p + offset, m * p, c, r * p + offset);
  }

  lemma LowWhole(x: nat, n: nat)
    ensures LowBits(x, n) == x <==> x < Pow(2, n)
    ensures LowBits(x, 0) == 0
  {
    PowPositive(2, n);
    ModWhole(x, Pow(2, n));
    assert Pow(2, 0) == 1;
    hide Pow;
  }

  lemma OffsetBits(handle: nat, index: nat, k: nat, offset: nat)
    requires k <= 32 && offset < Pow(2, k) && handle == LowBits(index * Pow(2, k) + offset, 32)
    ensures And(handle, Pow(2, k) - 1) == LowBits(handle, k) == offset
  {
    hide And, Pow, LowBits;
    AndLow(handle, k);
    LowOfLow(index * Pow(2, k) + offset, k, 32);
    LowOfPair(index, k, offset, k);
    LowWhole(index, 0);
  }

  lemma PoolBits(handle: nat, index: nat, k: nat, offset: nat, n: nat)
    requires k <= n <= 32 && offset < Pow(2, k) && handle == LowBits(index * Pow(2, k) + offset, 32)
    ensures Pow(2, k) <= Pow(2, n) && Down(And(handle, Pow(2, n) - Pow(2, k)), k) == LowBits(index, n - k)
  {
    hide And, Pow, LowBits;
    OffsetBits(handle, index, k, offset);
    AndBand(handle, k, n);
    LowOfLow(index * Pow(2, k) + offset, n, 32);
    LowOfPair(index, k, offset, n);
    DivUnique(LowBits(index, n - k) * Pow(2, k), Pow(2, k), LowBits(index, n - k), 0);
  }

  lemma HandleBits(helper: Helper, k: nat, index: u32, offset: nat)
    requires helper.poolShift == k && offset < Pow(2, k)
    ensures helper.MakeHandle(index, offset) == LowBits(index * Pow(2, k) + offset, 32)
  {
    OrDisjoint(index, k, offset);
    PowWord();
  }

  /** A handle always gives back its offset; it gives back its pool exactly when the index is small
      enough for the bits that are left. */
  lemma HandleRoundTrip(helper: Helper, k: nat, b: nat, index: u32, offset: nat)
    requires Packs(helper, k, b) && offset < Pow(2, k)
    ensures var handle := helper.MakeHandle(index, offset);
            && helper.ExtractOffset(handle) == offset
            && (helper.ExtractPool(handle) == index <==> index < Addressable(k, b))
  {
    hide And, Or, Pow, LowBits, Down, Helper.MakeHandle;
    var handle := helper.MakeHandle(index, offset);
    HandleBits(helper, k, index, offset);
    OffsetBits(handle, index, k, offset);
    if k + b <= 32 {
      PoolBits(handle, index, k, offset, 32 - b);
      LowWhole(index, 32 - b - k);
    } else {
      EmptyMask(handle, k);
    }
  }

  lemma EmptyMask(handle: nat, k: nat)
    ensures Down(And(handle, 0), k) == 0
  {
    PowPositive(2, k);
    DivUnique(0, Pow(2, k), 0, 0);
  }

  predicate PowerOfTwo(n: nat) {
    n == Pow(2, BitLength(n) - if n == 0 then 0 else 1)
  }

  lemma IsPowerOfTwo(k: nat)
    ensures PowerOfTwo(Pow(2, k))
  {
    var n := Pow(2, k);
    PowPositive(2, k);
    BitLengthRange(n);
    BitLengthBelow(n, k + 1);
    if BitLength(n) - 1 < k {
      PowMonotone(2, BitLength(n), k);
    }
  }

  lemma {:induction false} AndComm(a: nat, b: nat)
    ensures And(a, b) == And(b, a)
  {
    if a == 0 || b == 0 {
    } else {
      AndComm(a / 2, b / 2);
    }
  }

  /** Every block of the first pool gets a handle that gives back its offset. */
  ghost predicate OffsetsDecode(helper: Helper, capacity: u32) {
    forall offset: nat :: offset < capacity ==> helper.ExtractOffset(helper.MakeHandle(0, offset)) == offset
  }

  /** Whatever the capacity, the offsets are decoded exactly when it is a power of two. */
  lemma CapacityExact(helper: Helper, capacity: u32, maxPools: u32)
    requires Built(helper, capacity, maxPools) && BitLength((capacity - 1) % B) < 32
    ensures OffsetsDecode(helper, capacity) <==> PowerOfTwo(capacity)
  {
    hide And, Or, LowBits, Down, Up, Helper.MakeHandle;
    CapacityPositive(capacity);
    var k := BitLength(capacity - 1);
    if capacity == Pow(2, k) {
      IsPowerOfTwo(k);
      forall offset: nat | offset < capacity
        ensures helper.ExtractOffset(helper.MakeHandle(0, offset)) == offset
      {
        HandleBits(helper, k, 0, offset);
        OffsetBits(helper.MakeHandle(0, offset), 0, k, offset);
      }
    } else {
      if PowerOfTwo(capacity) {
        BitLengthMask(BitLength(capacity) - 1);
      }
      LostOffset(helper, capacity, k);
    }
  }

  /** Without a bit string, `capacity - 1` would be the largest word, and too long. */
  lemma CapacityPositive(capacity: u32)
    requires BitLength((capacity - 1) % B) < 32
    ensures capacity > 0 && (capacity - 1) % B == capacity - 1
  {
    PowWord();
    BitLengthMask(32);
  }

  lemma NoBits(n: nat)
    ensures n == 0 <==> BitLength(n) == 0
  {
  }

  /** Otherwise the mask has a gap: all ones below its top bit do not come back. */
  lemma LostOffset(helper: Helper, capacity: u32, k: nat)
    requires capacity > 0 && helper.offsetMask == capacity - 1
    requires helper.poolShift == k == BitLength(capacity - 1) && k < 32 && capacity != Pow(2, k)
    ensures !OffsetsDecode(helper, capacity)
  {
    hide And, Or, BitLength, Down;
    var m := capacity - 1;
    assert Pow(2, 0) == 1;
    NoBits(m);
    BitLengthRange(m);
    assert Pow(2, k) == 2 * Pow(2, k - 1);
    hide Pow;
    var offset := Pow(2, k - 1) - 1;
    HandleBits(helper, k, 0, offset);
    PowWord();
    PowMonotone(2, k, 32);
    LowWhole(offset, 32);
    AndComm(offset, m);
    AndLow(m, k - 1);
    DivUnique(m, Pow(2, k - 1), 1, m - Pow(2, k - 1));
    assert helper.ExtractOffset(helper.MakeHandle(0, offset)) != offset;
  }
}
