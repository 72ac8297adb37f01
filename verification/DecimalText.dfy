/** Counting, writing and reading decimal digits. */
module DecimalText {
  import opened Words
  import opened Decimals
  import opened Joining

  // How many digits a number has.

  /** The digits of a number, one by one. */
  function NumDigits(n: nat): (r: nat)
    ensures r >= 1
  {
    if n < 10 then 1 else 1 + NumDigits(n / 10)
  }

  /** The number of digits is settled by the powers of ten around the number. */
  lemma {:induction false} NumDigitsRange(n: nat, r: nat)
    requires r >= 1 && n < Pow(10, r) && (r > 1 ==> Pow(10, r - 1) <= n)
    ensures NumDigits(n) == r
  {
    if r > 1 {
      PowPositive(10, r - 2);
      NumDigitsRange(n / 10, r - 1);
    } else {
      assert Pow(10, 1) == 10;
    }
  }

  /** fmt's `zero_or_powers_of_10_64`. */
  function ZeroOrPower10(t: nat): nat {
    if t == 0 then 0 else Pow(10, t)
  }

  /** fmt's `count_digits` by counting leading zeros; `n | 1` differs from `n` only for zero
      as far as its highest bit goes. */
  function CountDigits(n: u64): (r: int)
    ensures r == NumDigits(n)
  {
    var bits := BitLength(if n == 0 then 1 else n);
    var t := bits * 1233 / 4096;
    CountDigitsRight(n, bits, t);
    t - (if n < ZeroOrPower10(t) then 1 else 0) + 1
  }

  lemma ZeroOrPower(t: nat)
    ensures ZeroOrPower10(t) == if t == 0 then 0 else Pow(10, t)
  {
  }

  lemma BitLengthOne()
    ensures BitLength(1) == 1
  {
    assert BitLength(0) == 0;
  }

  lemma CountDigitsRight(n: u64, bits: nat, t: nat)
    requires bits == BitLength(if n == 0 then 1 else n) && t == bits * 1233 / 4096
    ensures t - (if n < ZeroOrPower10(t) then 1 else 0) + 1 == NumDigits(n)
  {
    hide Pow, NumDigits, BitLength, ZeroOrPower10;
    var m := if n == 0 then 1 else n;
    BitLengthOne();
    PowSixtyFour();
    BitLengthRange(m);
    BitLengthBelow(m, 64);
    Bracket(bits, t);
    ZeroOrPower(t);
    SmallPowers();
    if n < Pow(10, t) && t > 0 {
      NumDigitsRange(n, t);
    } else {
      NumDigitsRange(n, t + 1);
    }
  }

  lemma PowSixtyFour()
    ensures Pow(2, 64) == 0x1_0000_0000_0000_0000
  {
    hide Pow;
    PowWord();
    PowAdd(2, 32, 32);
  }

  /** The most bits with the same `t`. */
  function LastBits(t: nat): nat {
    10 * (t / 3) + 3 * (t % 3) + 3
  }

  lemma BracketBits(bits: nat, t: nat)
    requires 1 <= bits <= 64 && t == bits * 1233 / 4096
    ensures t <= 19 && bits <= LastBits(t) && (t > 0 ==> LastBits(t - 1) < bits)
  {
  }

  /** The numbers of `bits` bits lie between the powers of ten next to `10^t`. */
  lemma Bracket(bits: nat, t: nat)
    requires 1 <= bits <= 64 && t == bits * 1233 / 4096
    ensures Pow(2, bits) <= Pow(10, t + 1) && (t > 0 ==> Pow(10, t - 1) <= Pow(2, bits - 1))
  {
    hide Pow, LastBits;
    BracketBits(bits, t);
    PowerRow(t);
    PowMonotone(2, bits, LastBits(t));
    if t > 0 {
      PowerRow(t - 1);
      PowMonotone(2, LastBits(t - 1), bits - 1);
    }
  }

  /** `10^t <= 2^LastBits(t) <= 10^(t+1)` */
  lemma PowerRow(t: nat)
    requires t <= 19
    ensures Pow(10, t) <= Pow(2, LastBits(t)) <= Pow(10, t + 1)
  {
    var m, i := t / 3, t % 3;
    hide Pow;
    Ratio(m);
    MulMonotone(100 + 3 * m, 118, Pow(10, 3 * m));
    RowOf(Pow(10, 3 * m), Pow(2, 10 * m), 3 * m, 10 * m, i);
    assert t == 3 * m + i;
  }

  lemma RowOf(a: nat, b: nat, k: nat, n: nat, i: nat)
    requires a == Pow(10, k) && b == Pow(2, n) && a <= b && 100 * b <= 118 * a && i <= 2
    ensures Pow(10, k + i) <= Pow(2, n + 3 * i + 3) <= Pow(10, k + i + 1)
  {
    hide Pow;
    PowAdd(10, k, i);
    PowAdd(10, k, i + 1);
    PowAdd(2, n, 3 * i + 3);
    SmallPowers();
    RowInts(a, b, i);
  }

  lemma SmallPowers()
    ensures Pow(10, 0) == 1 && Pow(10, 1) == 10 && Pow(10, 2) == 100 && Pow(10, 3) == 1000
    ensures Pow(2, 3) == 8 && Pow(2, 6) == 64 && Pow(2, 9) == 512
  {
  }

  lemma RowInts(a: nat, b: nat, i: nat)
    requires a <= b && 100 * b <= 118 * a && i <= 2
    ensures var x, y, z := if i == 0 then 1 else if i == 1 then 10 else 100,
                           if i == 0 then 8 else if i == 1 then 64 else 512,
                           if i == 0 then 10 else if i == 1 then 100 else 1000;
            a * x <= b * y <= a * z
  {
  }

  /** `2^10` is a little more than `10^3`. */
  lemma {:induction false} Ratio(m: nat)
    requires m <= 6
    ensures Pow(10, 3 * m) <= Pow(2, 10 * m) && 100 * Pow(2, 10 * m) <= Pow(10, 3 * m) * (100 + 3 * m)
  {
    if m == 0 {
    } else {
      hide Pow;
      Ratio(m - 1);
      SmallPowers();
      PowAdd(2, 1, 9);
      assert Pow(2, 1) == 2 by { PowOne(); }
      PowAdd(2, 10, 10 * (m - 1));
      PowAdd(10, 3, 3 * (m - 1));
      RatioInts(Pow(10, 3 * (m - 1)), Pow(2, 10 * (m - 1)), m);
    }
  }

  lemma PowOne()
    ensures Pow(2, 1) == 2
  {
  }

  lemma RatioInts(a: nat, b: nat, m: nat)
    requires 0 < m <= 6 && a <= b && 100 * b <= a * (97 + 3 * m)
    ensures 1000 * a <= 1024 * b && 100 * (1024 * b) <= (1000 * a) * (100 + 3 * m)
  {
    MulMonotone(0, a, 2328 + 928 * m);
  }

  /** fmt's `count_digits` where leading zeros cannot be counted: four digits at a time. */
  method CountDigitsByGroups(value: nat) returns (count: nat)
    ensures count == NumDigits(value)
  {
    var n := value;
    count := 1;
    while true
      invariant count >= 1 && count - 1 + NumDigits(n) == NumDigits(value)
      decreases n
    {
      FewDigits(n);
      if n < 10 {
        return count;
      }
      if n < 100 {
        return count + 1;
      }
      if n < 1000 {
        return count + 2;
      }
      if n < 10000 {
        return count + 3;
      }
      FourDigits(n);
      n := n / 10000;
      count := count + 4;
    }
  }

  lemma FewDigits(n: nat)
    ensures n < 10 ==> NumDigits(n) == 1
    ensures 10 <= n < 100 ==> NumDigits(n) == 2
    ensures 100 <= n < 1000 ==> NumDigits(n) == 3
    ensures 1000 <= n < 10000 ==> NumDigits(n) == 4
  {
    assert n >= 10 ==> NumDigits(n) == 1 + NumDigits(n / 10);
    assert n >= 100 ==> NumDigits(n / 10) == 1 + NumDigits(n / 100);
    assert n >= 1000 ==> NumDigits(n / 100) == 1 + NumDigits(n / 1000);
  }

  lemma FourDigits(n: nat)
    requires n >= 10000
    ensures NumDigits(n) == 4 + NumDigits(n / 10000)
  {
    assert NumDigits(n) == 1 + NumDigits(n / 10);
    assert NumDigits(n / 10) == 1 + NumDigits(n / 100);
    assert NumDigits(n / 100) == 1 + NumDigits(n / 1000);
    assert NumDigits(n / 1000) == 1 + NumDigits(n / 10000);
  }

  // Writing a number.

  /** The decimal digits of a number, without leading zeros. */
  function ToDigits(n: nat): (s: string)
    ensures |s| == NumDigits(n)
  {
    if n < 10 then [DigitChar(n)] else ToDigits(n / 10) + [DigitChar(n % 10)]
  }

  lemma {:induction false} ToDigitsValue(n: nat)
    ensures DigitsValue(ToDigits(n)) == n && AllDigits(ToDigits(n))
    ensures ToDigits(n)[0] == '0' ==> n == 0
  {
    if n >= 10 {
      ToDigitsValue(n / 10);
      assert ToDigits(n)[..|ToDigits(n)| - 1] == ToDigits(n / 10);
    } else {
      assert ToDigits(n)[..0] == [];
    }
  }

  /** A buffer with digits put at a position. */
  ghost function Splice(buffer: string, at: nat, digits: string): string
    requires at + |digits| <= |buffer|
  {
    buffer[..at] + digits + buffer[at + |digits|..]
  }

  /** fmt's `copy2` from the table of digit pairs. */
  method CopyPair(out: array<char>, at: nat, pair: nat)
    requires at + 2 <= out.Length && pair < 100
    modifies out
    ensures out[..] == Splice(old(out[..]), at, [DigitChar(pair / 10), DigitChar(pair % 10)])
  {
    out[at], out[at + 1] := DigitChar(pair / 10), DigitChar(pair % 10);
  }

  method CopyOne(out: array<char>, at: nat, digit: nat)
    requires at + 1 <= out.Length && digit < 10
    modifies out
    ensures out[..] == Splice(old(out[..]), at, [DigitChar(digit)])
  {
    out[at] := DigitChar(digit);
  }

  /** The buffer once the digits `s` stand right before `size`. */
  ghost predicate Written(buffer: string, before: string, s: string, size: nat) {
    |s| <= size <= |before| && buffer == before[..size - |s|] + s + before[size..]
  }

  lemma WrittenMore(buffer: string, before: string, s: string, size: nat, digits: string)
    requires Written(buffer, before, s, size) && |s| + |digits| <= size
    ensures var at := size - |s| - |digits|;
            at + |digits| <= |buffer| && Written(Splice(buffer, at, digits), before, digits + s, size)
  {
  }

  lemma WrittenStart(buffer: string, text: string, size: nat)
    requires size <= |buffer|
    ensures Written(buffer, buffer, "", size) && text + "" == text
  {
  }

  /** fmt's `format_decimal`: two digits at a time, from the end of the buffer. */
  method FormatDecimal(out: array<char>, value: nat, size: nat) returns (begin: nat)
    requires size <= out.Length && size >= NumDigits(value)
    modifies out
    ensures begin + NumDigits(value) == size
    ensures Written(out[..], old(out[..]), ToDigits(value), size)
  {
    hide ToDigits, NumDigits, DigitChar, Written, Splice;
    var n := value;
    begin := size;
    ghost var s, before := "", out[..];
    WrittenStart(before, ToDigits(value), size);
    while n >= 100
      invariant begin == size - |s| && begin >= NumDigits(n) && ToDigits(n) + s == ToDigits(value)
      invariant Written(out[..], before, s, size)
    {
      TwoDigits(n);
      var pair := n % 100;
      ghost var digits := [DigitChar(pair / 10), DigitChar(pair % 10)];
      WrittenMore(out[..], before, s, size, digits);
      begin := begin - 2;
      CopyPair(out, begin, pair);
      n := n / 100;
      Joined(ToDigits(n), digits, s);
      s := digits + s;
    }
    FewDigits(n);
    LastDigits(n);
    WrittenMore(out[..], before, s, size, ToDigits(n));
    if n < 10 {
      begin := begin - 1;
      CopyOne(out, begin, n);
    } else {
      begin := begin - 2;
      CopyPair(out, begin, n);
    }
  }

  lemma LastDigits(n: nat)
    requires n < 100
    ensures ToDigits(n) == if n < 10 then [DigitChar(n)] else [DigitChar(n / 10), DigitChar(n % 10)]
  {
    if n >= 10 {
      assert ToDigits(n / 10) == [DigitChar(n / 10)];
    }
  }

  lemma TwoDigits(n: nat)
    requires n >= 100
    ensures ToDigits(n) == ToDigits(n / 100) + [DigitChar(n % 100 / 10), DigitChar(n % 100 % 10)]
    ensures NumDigits(n) == 2 + NumDigits(n / 100)
  {
    assert n / 10 / 10 == n / 100 && n / 10 % 10 == n % 100 / 10 && n % 10 == n % 100 % 10;
    assert ToDigits(n / 10) == ToDigits(n / 100) + [DigitChar(n / 10 % 10)];
  }

  // Reading a number.

  const MAX_INT: int := 0x7fff_ffff

  datatype ParsedInt = Int(value: nat, end: nat) | TooBig

  /** Where the digits from position `i` on end. */
  function DigitsEnd(s: string, i: nat): (end: nat)
    requires i <= |s|
    ensures i <= end <= |s| && AllDigits(s[i..end]) && (end < |s| ==> !IsDigit(s[end]))
    decreases |s| - i
  {
    if i < |s| && IsDigit(s[i]) then
      var end := DigitsEnd(s, i + 1);
      assert s[i..end] == [s[i]] + s[i + 1..end];
      end
    else i
  }

  /** What `parse_nonnegative_int` makes of the digits at position `i`. */
  function ParseInt(s: string, i: nat): ParsedInt
    requires i <= |s|
  {
    var end := DigitsEnd(s, i);
    var value := DigitsValue(s[i..end]);
    if 0 <= value <= MAX_INT then Int(value, end) else TooBig
  }

  lemma {:induction false} DigitsGrow(s: string)
    requires AllDigits(s)
    ensures DigitsValue(s) >= 0
    ensures s != [] ==> DigitsValue(s) >= DigitsValue(s[..|s| - 1])
  {
    if s == [] {
    } else {
      DigitsGrow(s[..|s| - 1]);
    }
  }

  lemma {:induction false} DigitsPrefix(s: string, k: nat)
    requires AllDigits(s) && k <= |s|
    ensures 0 <= DigitsValue(s[..k]) <= DigitsValue(s)
  {
    DigitsGrow(s);
    if k < |s| {
      DigitsPrefix(s[..|s| - 1], k);
      assert s[..|s| - 1][..k] == s[..k];
    } else {
      assert s[..k] == s;
    }
  }

  lemma ParseStep(s: string, begin: nat, i: nat, end: nat)
    requires begin <= i < end <= |s| && AllDigits(s[begin..end])
    ensures DigitsValue(s[begin..i + 1]) == 10 * DigitsValue(s[begin..i]) + (s[i] as int - '0' as int)
    ensures DigitsValue(s[begin..i + 1]) <= DigitsValue(s[begin..end])
  {
    assert s[begin..i + 1][..i - begin] == s[begin..i];
    assert s[begin..end][..i + 1 - begin] == s[begin..i + 1];
    DigitsPrefix(s[begin..end], i + 1 - begin);
  }

  /** fmt's `parse_nonnegative_int`, in 32-bit unsigned arithmetic. */
  method ParseNonnegativeInt(s: string, begin: nat) returns (r: ParsedInt)
    requires begin < |s| && IsDigit(s[begin])
    ensures r == ParseInt(s, begin)
  {
    ghost var end := DigitsEnd(s, begin);
    var value: u32 := 0;
    var big := MAX_INT / 10;
    var i := begin;
    assert s[begin..begin] == [];
    while true
      invariant begin <= i < |s| && IsDigit(s[i]) && DigitsEnd(s, i) == end
      invariant value == DigitsValue(s[begin..i])
      decreases |s| - i
    {
      ParseStep(s, begin, i, end);
      if value > big {
        value := MAX_INT + 1;
        break;
      }
      value := value * 10 + (s[i] as int - '0' as int);
      i := i + 1;
      if !(i < |s| && IsDigit(s[i])) {
        break;
      }
    }
    if value > MAX_INT {
      return TooBig;
    }
    return Int(value, i);
  }

  /** Reading back what `format_decimal` wrote: the number again, if it fits in an `int`. */
  lemma ParseOfFormat(n: nat)
    ensures ParseInt(ToDigits(n), 0) == if n <= MAX_INT then Int(n, NumDigits(n)) else TooBig
  {
    ToDigitsValue(n);
    AllDigitsEnd(ToDigits(n), 0);
    assert ToDigits(n)[0..|ToDigits(n)|] == ToDigits(n);
  }

  lemma {:induction false} AllDigitsEnd(s: string, i: nat)
    requires AllDigits(s) && i <= |s|
    ensures DigitsEnd(s, i) == |s|
    decreases |s| - i
  {
    if i < |s| {
      AllDigitsEnd(s, i + 1);
    }
  }
}
