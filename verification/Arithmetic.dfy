/**
 `muldiv128` of include/service/math.h: value * factor / divisor on 64-bit words, with the
 intermediate products split into two halves.
 */
module Arithmetic {
  import opened Common

  function Low(x: u64): nat { x % 0x1_0000_0000 }

  function High(x: u64): nat { x / 0x1_0000_0000 }

  /** The sum of the low product and the remainder of the high one does not overflow. */
  predicate NoCarry(value: u64, factor: u64, divisor: u64)
    requires divisor > 0
  {
    Low(value) * factor + (High(value) * factor % divisor) * 0x1_0000_0000 < 0x1_0000_0000_0000_0000
  }

  /** `muldiv128`, with every 64-bit truncation; factor and divisor are below 2^32 as documented. */
  function MulDiv128(value: u64, factor: u64, divisor: u64): u64
    requires factor < 0x1_0000_0000 && 0 < divisor < 0x1_0000_0000
  {
    Divide(Wrap64(High(value) * factor), Wrap64(Low(value) * factor), divisor)
  }

  /** The division of the two partial products. */
  function Divide(upper: u64, lower: u64, divisor: u64): u64
    requires 0 < divisor < 0x1_0000_0000
  {
    Combine(upper / divisor, upper % divisor, lower, divisor)
  }

  /** Carries a 32-bit remainder into the low half and joins the two quotients. */
  function Combine(quotient: nat, rem: nat, lower: u64, divisor: u64): u64
    requires divisor > 0
  {
    var sum := Wrap64(lower + Wrap64(rem % 0x1_0000_0000 * 0x1_0000_0000));
    Wrap64(Wrap64(quotient * 0x1_0000_0000) + sum / divisor)
  }

  // ---------------------------------------------------------------- correctness

  lemma ProductFits(a: nat, b: nat)
    requires a < 0x1_0000_0000 && b < 0x1_0000_0000
    ensures 0 <= a * b < 0x1_0000_0000_0000_0000
  {
    MulMonotone(0, a, b);
    MulMonotone(a, 0xffff_ffff, b);
  }

  /** Long division in base 2^32: the remainder of the high part is carried into the low part. */
  lemma LongDivision(high: nat, low: nat, divisor: nat)
    requires divisor > 0
    ensures (high * 0x1_0000_0000 + low) / divisor
            == high / divisor * 0x1_0000_0000 + (high % divisor * 0x1_0000_0000 + low) / divisor
  {
    var q, r := high / divisor, high % divisor;
    var rest := r * 0x1_0000_0000 + low;
    var p := rest / divisor;
    assert high == q * divisor + r;
    assert high * 0x1_0000_0000 + low == (q * 0x1_0000_0000) * divisor + rest;
    assert (q * 0x1_0000_0000 + p) * divisor == (q * 0x1_0000_0000) * divisor + p * divisor;
    DivUnique(high * 0x1_0000_0000 + low, divisor, q * 0x1_0000_0000 + p);
  }

  lemma Split(value: u64, factor: nat)
    ensures value * factor == High(value) * factor * 0x1_0000_0000 + Low(value) * factor
  {
    assert value == High(value) * 0x1_0000_0000 + Low(value);
  }

  lemma RemainderFits(rem: nat)
    requires rem < 0x1_0000_0000
    ensures Wrap64(rem % 0x1_0000_0000 * 0x1_0000_0000) == rem * 0x1_0000_0000
  {
  }

  lemma CombineFacts(quotient: nat, rem: nat, lower: u64, divisor: u64)
    requires rem < divisor < 0x1_0000_0000
    ensures Combine(quotient, rem, lower, divisor)
            == Wrap64(quotient * 0x1_0000_0000 + Wrap64(lower + rem * 0x1_0000_0000) / divisor)
  {
    RemainderFits(rem);
    WrapSum(quotient * 0x1_0000_0000, Wrap64(lower + rem * 0x1_0000_0000) / divisor);
  }

  /** Joining the quotients is exact, modulo 2^64, iff the carried sum does not overflow. */
  lemma CombineExact(quotient: nat, rem: nat, lower: u64, divisor: u64, carried: nat)
    requires rem < divisor < 0x1_0000_0000 && carried == lower + rem * 0x1_0000_0000
    ensures Combine(quotient, rem, lower, divisor) == Wrap64(quotient * 0x1_0000_0000 + carried / divisor)
            <==> carried < 0x1_0000_0000_0000_0000
  {
    CombineFacts(quotient, rem, lower, divisor);
    if carried >= 0x1_0000_0000_0000_0000 {
      WrapOnce(carried);
      assert divisor > 1;
      LostCarry(carried, divisor);
      DifferentModulo(quotient * 0x1_0000_0000 + carried / divisor,
                      quotient * 0x1_0000_0000 + (carried - 0x1_0000_0000_0000_0000) / divisor);
    } else {
      WrapNone(carried);
    }
  }

  lemma WrapNone(x: nat)
    requires x < 0x1_0000_0000_0000_0000
    ensures Wrap64(x) == x
  {
  }

  /** Dividing the partial products h and l is exact, modulo 2^64, iff the carried sum does not overflow. */
  lemma DivideExact(h: u64, l: u64, divisor: u64, product: nat)
    requires 0 < divisor < 0x1_0000_0000 && product == h * 0x1_0000_0000 + l
    ensures Divide(h, l, divisor) == Wrap64(product / divisor)
            <==> l + h % divisor * 0x1_0000_0000 < 0x1_0000_0000_0000_0000
  {
    LongDivision(h, l, divisor);
    Remainder(h, divisor);
    CombineExact(h / divisor, h % divisor, l, divisor, l + h % divisor * 0x1_0000_0000);
  }

  lemma Remainder(h: nat, divisor: nat)
    requires divisor > 0
    ensures 0 <= h % divisor < divisor && h / divisor >= 0
  {
  }

  lemma WrapOnce(x: int)
    requires 0x1_0000_0000_0000_0000 <= x < 2 * 0x1_0000_0000_0000_0000
    ensures Wrap64(x) == x - 0x1_0000_0000_0000_0000
  {
  }

  /** A carry that is lost makes the quotient too small by at least 2^32 - 1. */
  lemma LostCarry(exact: int, divisor: nat)
    requires 0x1_0000_0000_0000_0000 <= exact < 2 * 0x1_0000_0000_0000_0000 && 1 < divisor < 0x1_0000_0000
    ensures var d := exact / divisor - (exact - 0x1_0000_0000_0000_0000) / divisor;
            0 < d < 0x1_0000_0000_0000_0000
  {
    var x := exact - 0x1_0000_0000_0000_0000;
    var p, q := x / divisor, exact / divisor;
    assert p * divisor <= x < p * divisor + divisor;
    assert q * divisor <= exact < q * divisor + divisor;
    MulMonotone(q, p, divisor);
    MulMonotone(p + 0x1_0000_0000_0000_0000, q, divisor);
    assert (p + 0x1_0000_0000_0000_0000) * divisor == p * divisor + 0x1_0000_0000_0000_0000 * divisor;
  }

  lemma PartialProducts(value: u64, factor: u64, divisor: u64) returns (h: u64, l: u64)
    requires factor < 0x1_0000_0000 && 0 < divisor < 0x1_0000_0000
    ensures h == High(value) * factor && l == Low(value) * factor
    ensures value * factor == h * 0x1_0000_0000 + l
    ensures MulDiv128(value, factor, divisor) == Divide(h, l, divisor)
  {
    ProductFits(Low(value), factor);
    ProductFits(High(value), factor);
    Split(value, factor);
    h, l := High(value) * factor, Low(value) * factor;
    WrapNone(h);
    WrapNone(l);
  }

  /** `muldiv128` is value * factor / divisor modulo 2^64 iff the second sum does not overflow. */
  lemma MulDivExact(value: u64, factor: u64, divisor: u64)
    requires factor < 0x1_0000_0000 && 0 < divisor < 0x1_0000_0000
    ensures MulDiv128(value, factor, divisor) == Wrap64(value * factor / divisor) <==> NoCarry(value, factor, divisor)
  {
    var h, l := PartialProducts(value, factor, divisor);
    DivideExact(h, l, divisor, value * factor);
  }

  lemma DifferentModulo(a: int, b: int)
    requires 0 < a - b < 0x1_0000_0000_0000_0000
    ensures Wrap64(a) != Wrap64(b)
  {
  }

  /** It never overflows if factor and divisor together are at most 2^32 + 1. */
  lemma NoCarryForSmallFactors(value: u64, factor: u64, divisor: u64)
    requires 0 < divisor && factor + divisor <= 0x1_0000_0001
    ensures NoCarry(value, factor, divisor)
  {
    MulMonotone(Low(value), 0xffff_ffff, factor);
    assert High(value) * factor % divisor <= divisor - 1;
  }

  /** The documented bound on each of the two alone does not exclude the overflow. */
  lemma DocumentedBoundIsTooWeak()
    ensures var value, factor, divisor := 0xffff_fffd_ffff_ffff, 0xffff_ffff, 0xffff_fffe;
            && factor < 0x1_0000_0000 && divisor < 0x1_0000_0000
            && !NoCarry(value, factor, divisor)
            && MulDiv128(value, factor, divisor) != Wrap64(value * factor / divisor)
  {
    assert !NoCarry(0xffff_fffd_ffff_ffff, 0xffff_ffff, 0xffff_fffe);
    MulDivExact(0xffff_fffd_ffff_ffff, 0xffff_ffff, 0xffff_fffe);
  }

  // ---------------------------------------------------------------- all values

  /** Euclid's algorithm. */
  function Gcd(a: nat, b: nat): (g: nat)
    ensures a > 0 || b > 0 ==> g > 0
    decreases b
  {
    if b == 0 then a else Gcd(b, a % b)
  }

  /** The greatest common divisor divides both, with these quotients. */
  lemma {:induction false} GcdDivides(a: nat, b: nat) returns (p: nat, q: nat)
    ensures a == Gcd(a, b) * p && b == Gcd(a, b) * q
    decreases b
  {
    if b == 0 {
      p, q := 1, 0;
    } else {
      var p1, q1 := GcdDivides(b, a % b);
      QuotientOfSum(Gcd(a, b), a, b, a / b, p1, q1);
      p, q := a / b * p1 + q1, p1;
    }
  }

  lemma QuotientOfSum(g: nat, a: nat, b: nat, k: nat, p: nat, q: nat)
    requires b == g * p && a == k * b + g * q
    ensures a == g * (k * p + q)
  {
  }

  /** The greatest common divisor is a combination of both. */
  lemma {:induction false} Bezout(a: nat, b: nat) returns (x: int, y: int)
    ensures x * a + y * b == Gcd(a, b)
    decreases b
  {
    if b == 0 {
      x, y := 1, 0;
    } else {
      var x1, y1 := Bezout(b, a % b);
      Combination(x1, y1, a, b, a / b, a % b);
      x, y := y1, x1 - a / b * y1;
    }
  }

  lemma Combination(x: int, y: int, a: nat, b: nat, k: nat, r: nat)
    requires a == k * b + r
    ensures y * a + (x - k * y) * b == x * b + y * r
  {
    assert y * a == y * (k * b) + y * r;
    assert (x - k * y) * b == x * b - k * y * b;
    assert y * (k * b) == k * y * b;
  }

  /** All multiples leave remainders of at most divisor - gcd. */
  lemma RemainderAtMost(factor: nat, divisor: nat, h: nat)
    requires divisor > 0
    ensures h * factor % divisor <= divisor - Gcd(factor, divisor)
  {
    var g := Gcd(factor, divisor);
    var p, q := GcdDivides(factor, divisor);
    var product := h * factor;
    MulMonotone(0, h, factor);
    MulMonotone(0, h, p);
    assert product == g * (h * p) by { Swap(h, g, p); }
    MultipleBelow(g, q, product / divisor, h * p, product % divisor, product, divisor);
  }

  lemma Swap(h: nat, g: nat, p: nat)
    ensures h * (g * p) == g * (h * p)
  {
  }

  lemma MultipleBelow(g: nat, q: nat, k: nat, n: nat, r: nat, product: nat, divisor: nat)
    requires g > 0 && divisor == g * q && product == g * n && product == k * divisor + r && r < divisor
    ensures r <= divisor - g
  {
    assert k * (g * q) == g * (k * q);
    assert r == g * (n - k * q);
    MulMonotone(q, n - k * q, g);
    MulMonotone(n - k * q, q - 1, g);
  }

  /** Some multiple leaves the remainder divisor - gcd. */
  lemma RemainderReached(factor: nat, divisor: nat) returns (h: nat)
    requires divisor > 0
    ensures h < divisor && h * factor % divisor == divisor - Gcd(factor, divisor)
  {
    var g := Gcd(factor, divisor);
    var x, y := Bezout(factor, divisor);
    RemainderAtMost(factor, divisor, 0);
    h := (-x) % divisor;
    var k := (-x) / divisor;
    NegativeMultiple(x, y, k, h, factor, divisor, g);
    MulMonotone(0, h, factor);
    DivUnique(h * factor, divisor, y - k * factor - 1);
  }

  lemma NegativeMultiple(x: int, y: int, k: int, h: nat, factor: nat, divisor: nat, g: nat)
    requires x * factor + y * divisor == g && -x == k * divisor + h
    ensures h * factor == (y - k * factor - 1) * divisor + (divisor - g)
  {
    assert h * factor == (-x - k * divisor) * factor;
    assert (-x - k * divisor) * factor == -(x * factor) - k * factor * divisor;
  }

  /** Every value is scaled exactly. */
  ghost predicate AlwaysExact(factor: u64, divisor: u64)
    requires factor < 0x1_0000_0000 && 0 < divisor < 0x1_0000_0000
  {
    forall value: u64 :: MulDiv128(value, factor, divisor) == Wrap64(value * factor / divisor)
  }

  /** All values are scaled exactly if and only if factor + divisor - gcd(factor, divisor) is at most 2^32. */
  lemma AlwaysExactIff(factor: u64, divisor: u64)
    requires factor < 0x1_0000_0000 && 0 < divisor < 0x1_0000_0000
    ensures AlwaysExact(factor, divisor) <==> factor + divisor - Gcd(factor, divisor) <= 0x1_0000_0000
  {
    if factor + divisor - Gcd(factor, divisor) <= 0x1_0000_0000 {
      forall value: u64
        ensures MulDiv128(value, factor, divisor) == Wrap64(value * factor / divisor)
      {
        SmallSumFits(value, factor, divisor);
        MulDivExact(value, factor, divisor);
      }
    } else {
      var value := LargestSum(factor, divisor);
      MulDivExact(value, factor, divisor);
    }
  }

  lemma SmallSumFits(value: u64, factor: u64, divisor: u64)
    requires factor < 0x1_0000_0000 && 0 < divisor
    requires factor + divisor - Gcd(factor, divisor) <= 0x1_0000_0000
    ensures NoCarry(value, factor, divisor)
  {
    RemainderAtMost(factor, divisor, High(value));
    assert Gcd(0, divisor) == Gcd(divisor, 0) == divisor;
    MulMonotone(Low(value), 0xffff_ffff, factor);
  }

  lemma LargestSum(factor: u64, divisor: u64) returns (value: u64)
    requires factor < 0x1_0000_0000 && 0 < divisor < 0x1_0000_0000
    requires factor + divisor - Gcd(factor, divisor) > 0x1_0000_0000
    ensures !NoCarry(value, factor, divisor)
  {
    var h := RemainderReached(factor, divisor);
    value := h * 0x1_0000_0000 + 0xffff_ffff;
    assert High(value) == h && Low(value) == 0xffff_ffff;
  }
}
