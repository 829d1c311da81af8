/** Powers of two and the two helpers of kernel/include/util/math.h.

    `__builtin_ctzl` and `__builtin_clzl` are compiler intrinsics: `Ctz` counts the trailing zero
    bits of a positive number and `FloorLog2` is `63 - __builtin_clzl`. */
module Bits {

  function Pow2(k: nat): (p: nat)
    ensures p >= 1
  {
    if k == 0 then 1 else 2 * Pow2(k - 1)
  }

  lemma {:induction false} Pow2Add(a: nat, b: nat)
    ensures Pow2(a + b) == Pow2(a) * Pow2(b)
  {
    if a > 0 {
      Pow2Add(a - 1, b);
      assert a + b - 1 == a - 1 + b;
      assert Pow2(a) * Pow2(b) == 2 * (Pow2(a - 1) * Pow2(b));
    }
  }

  lemma {:induction false} Pow2Monotone(a: nat, b: nat)
    requires a < b
    ensures 2 * Pow2(a) <= Pow2(b)
  {
    if a + 1 < b {
      Pow2Monotone(a, b - 1);
    }
  }

  lemma PowAtLeast(a: nat, b: nat)
    requires a <= b
    ensures Pow2(a) <= Pow2(b)
  {
    if a < b { Pow2Monotone(a, b); }
  }

  lemma Pow2Injective(a: nat, b: nat)
    requires Pow2(a) == Pow2(b)
    ensures a == b
  {
    if a < b { Pow2Monotone(a, b); } else if b < a { Pow2Monotone(b, a); }
  }

  /** Multiplying and dividing by the same positive number. */
  lemma DivMul(k: nat, d: nat)
    requires d > 0
    ensures k * d / d == k && k * d % d == 0
  {
    DivUnique(k * d, d, k, 0);
  }

  /** The quotient and remainder of a division are the only ones there are. */
  lemma DivUnique(x: nat, d: nat, q: nat, r: nat)
    requires 0 <= r < d && x == q * d + r
    ensures x / d == q && x % d == r
  {
    var q', r' := x / d, x % d;
    assert x == d * q' + r' && 0 <= r' < d;
    SameQuotient(d, q, r, q', r');
  }

  lemma SameQuotient(d: nat, q: nat, r: nat, q': nat, r': nat)
    requires r < d && r' < d && q * d + r == d * q' + r'
    ensures q == q' && r == r'
  {
    if q < q' {
      MulGap(q, q', d);
    } else if q' < q {
      MulGap(q', q, d);
    }
  }

  lemma MulGap(a: nat, b: nat, d: nat)
    requires a < b
    ensures b * d >= a * d + d
  {
    MulAtLeast(b - a, d);
    assert b * d == a * d + (b - a) * d;
  }

  lemma MulAssociative(a: int, b: int, c: int)
    ensures a * (b * c) == a * b * c
  {
  }

  lemma ScaledTerm(a: int, c: int, u: int, d: int)
    ensures d * (a + c * u) == d * a + c * (d * u)
  {
    MulAssociative(d, c, u);
    MulAssociative(c, d, u);
    Distribute(a, c * u, d);
  }

  lemma DivNonNegative(x: int, d: nat)
    requires d > 0
    ensures x >= 0 ==> x / d >= 0
  {
  }

  lemma Distribute(a: int, b: int, c: int)
    ensures (a + b) * c == a * c + b * c && c * (a + b) == c * a + c * b
    ensures b * c == c * b
  {
  }

  lemma MulAtLeast(a: nat, d: nat)
    requires a >= 1
    ensures a * d >= d
  {
  }

  ghost predicate IsPow2(n: nat) {
    exists k: nat :: n == Pow2(k)
  }

  /** Number of trailing zero bits. */
  function Ctz(n: nat): nat
    requires n > 0
  {
    if n % 2 == 1 then 0 else 1 + Ctz(n / 2)
  }

  /** Index of the highest one bit. */
  function FloorLog2(n: nat): nat
    requires n > 0
  {
    if n == 1 then 0 else 1 + FloorLog2(n / 2)
  }

  lemma {:induction false} FloorLog2Bounds(n: nat)
    requires n > 0
    ensures Pow2(FloorLog2(n)) <= n < 2 * Pow2(FloorLog2(n))
  {
    if n > 1 { FloorLog2Bounds(n / 2); }
  }

  lemma {:induction false} CtzOfPow2(k: nat)
    ensures Ctz(Pow2(k)) == k
  {
    if k > 0 { CtzOfPow2(k - 1); }
  }

  /** The lowest and the highest one bit coincide exactly for powers of two. */
  lemma {:induction false} CtzIsFloorLog2(n: nat)
    requires n > 0
    ensures Ctz(n) <= FloorLog2(n)
    ensures Ctz(n) == FloorLog2(n) <==> n == Pow2(FloorLog2(n))
  {
    if n > 1 && n % 2 == 0 { CtzIsFloorLog2(n / 2); }
    if n > 1 && n % 2 == 1 { FloorLog2Bounds(n); }
  }

  /** `ceil_to_power_of_two`. The shift `1 << b` is done on a 32-bit int, so the code is meaningful up
      to 2^30. */
  function CeilToPowerOfTwo(number: nat): (p: nat)
    requires 1 <= number <= Pow2(30)
  {
    var a := Ctz(number);
    var b := FloorLog2(number);
    Pow2(if a != b then b + 1 else b)
  }

  /** The exponent that `ceil_to_power_of_two` computes. */
  lemma CeilExponent(number: nat, c: nat)
    requires 1 <= number && c == FloorLog2(number) + if Ctz(number) != FloorLog2(number) then 1 else 0
    ensures number <= Pow2(c) < 2 * number
    ensures forall k: nat :: number <= Pow2(k) ==> c <= k
  {
    var b := FloorLog2(number);
    FloorLog2Bounds(number);
    CtzIsFloorLog2(number);
    forall k: nat | number <= Pow2(k)
      ensures c <= k
    {
      if k < b { PowAtLeast(k + 1, b); }
    }
  }

  /** Rounding yields the least power of two not below the request, and never leaves the range of
      the 32-bit shift. */
  lemma CeilToPowerOfTwoIsLeast(number: nat)
    requires 1 <= number <= Pow2(30)
    ensures IsPow2(CeilToPowerOfTwo(number))
    ensures number <= CeilToPowerOfTwo(number) < 2 * number
    ensures CeilToPowerOfTwo(number) <= Pow2(30)
    ensures forall k: nat :: number <= Pow2(k) ==> CeilToPowerOfTwo(number) <= Pow2(k)
  {
    var c := if Ctz(number) != FloorLog2(number) then FloorLog2(number) + 1 else FloorLog2(number);
    CeilExponent(number, c);
    forall k: nat | number <= Pow2(k)
      ensures Pow2(c) <= Pow2(k)
    {
      if c < k { PowAtLeast(c, k); }
    }
  }

  /** Bitwise exclusive or of two naturals, least significant bit first. */
  function Xor(a: nat, b: nat): nat
    decreases a + b
  {
    if a == 0 && b == 0 then 0
    else (a % 2 + b % 2) % 2 + 2 * Xor(a / 2, b / 2)
  }

  lemma {:induction false} XorZero(a: nat)
    ensures Xor(a, 0) == a
  {
    if a > 0 { XorZero(a / 2); }
  }

  /** Flipping bit `m` of a multiple of 2^m moves to the neighbouring multiple. */
  lemma XorDouble(a: nat, b: nat)
    ensures Xor(2 * a, 2 * b) == 2 * Xor(a, b)
  {
    assert 2 * a / 2 == a && 2 * b / 2 == b;
  }

  lemma TimesPow2(k: nat, m: nat)
    requires m > 0
    ensures k * Pow2(m) == 2 * (k * Pow2(m - 1)) && k * Pow2(m - 1) >= 0
  {
  }

  /** The other number of a pair. */
  function Partner(k: nat): nat {
    if k % 2 == 0 then k + 1 else k - 1
  }

  lemma XorOne(k: nat)
    ensures Xor(k, 1) == Partner(k)
  {
    XorZero(k / 2);
  }

  lemma {:induction false} XorFlipsBit(k: nat, m: nat)
    ensures Xor(k * Pow2(m), Pow2(m)) == Partner(k) * Pow2(m)
  {
    if m == 0 {
      XorOne(k);
    } else {
      XorFlipsBit(k, m - 1);
      TimesPow2(k, m);
      TimesPow2(Partner(k), m);
      XorDouble(k * Pow2(m - 1), Pow2(m - 1));
    }
  }
}
