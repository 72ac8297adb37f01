/** The product of two 64-bit significands, rounded to its upper half. */
module FpMultiply {
  import opened Words

  const WORD64: int := 0x1_0000_0000_0000_0000

  /** The product of 32-bit parts fits 64 bits. */
  lemma PartProduct(x: nat, y: nat)
    requires x < B && y < B
    ensures 0 <= x * y <= (B - 1) * (B - 1)
  {
    MulMonotone(0, x, y);
    MulMonotone(x, B - 1, y);
    MulMonotone(y, B - 1, B - 1);
  }

  lemma Expand(a: int, b: int, c: int, d: int)
    ensures (B * a + b) * (B * c + d) == WORD64 * (a * c) + B * (b * c + a * d) + b * d
  {
    MulAdd(B * a, b, B * c + d);
    assert (B * a) * (B * c + d) == B * (a * (B * c + d));
    assert a * (B * c + d) == B * (a * c) + a * d;
    assert b * (B * c + d) == B * (b * c) + b * d;
  }

  /** fmt's `multiply` without 128-bit integers: no intermediate value leaves 64 bits, and the result
      is the product over 2^64 rounded to nearest, halves up. */
  method Multiply(lhs: u64, rhs: u64) returns (f: u64)
    ensures f == (lhs as int * rhs as int + WORD64 / 2) / WORD64
  {
    var a, b := lhs / B, lhs % B;
    var c, d := rhs / B, rhs % B;
    PartProduct(a, c);
    PartProduct(b, c);
    PartProduct(a, d);
    PartProduct(b, d);
    Expand(a, b, c, d);
    var ac: u64, bc: u64, ad: u64, bd: u64 := a * c, b * c, a * d, b * d;
    var mid: u64 := bd / B + ad % B + bc % B + 0x8000_0000;
    Rounds(ac, bc, ad, bd);
    f := ac + ad / B + bc / B + mid / B;
  }

  /** Adding the parts and the carry of the middle words. */
  lemma Rounds(ac: int, bc: int, ad: int, bd: int)
    requires 0 <= ac <= (B - 1) * (B - 1) && 0 <= bc <= (B - 1) * (B - 1)
    requires 0 <= ad <= (B - 1) * (B - 1) && 0 <= bd <= (B - 1) * (B - 1)
    ensures var mid := bd / B + ad % B + bc % B + 0x8000_0000;
            ac + ad / B + bc / B + mid / B == (WORD64 * ac + B * (bc + ad) + bd + WORD64 / 2) / WORD64
  {
  }

  /** fmt's `multiply` with 128-bit integers: the upper half, plus one if the next bit is set. */
  method MultiplyWide(lhs: u64, rhs: u64) returns (f: u64)
    ensures f == (lhs as int * rhs as int + WORD64 / 2) / WORD64
  {
    var product := lhs as int * rhs as int;
    MulMonotone(lhs, WORD64 - 1, rhs);
    MulMonotone(rhs, WORD64 - 1, WORD64 - 1);
    MulMonotone(0, lhs, rhs);
    f := product / WORD64;
    if product % WORD64 >= WORD64 / 2 {
      f := f + 1;
    }
  }
}
