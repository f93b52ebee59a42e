/**
 Word arithmetic of the kernel: powers of two, rounding, and the bit operations
 (`trailing_zeros`, `next_power_of_two`, `prev_power_of_two`, `^`) that the memory
 allocators use. Machine words are modelled as natural numbers.
 */
module Bits {

  const PG_SHIFT: nat := 12
  const PG_SIZE: nat := 4096

  function Min(a: int, b: int): int {
    if a <= b then a else b
  }

  function Max(a: int, b: int): int {
    if a >= b then a else b
  }

  function Pow2(k: nat): (r: nat)
    ensures r >= 1
  {
    if k == 0 then 1 else 2 * Pow2(k - 1)
  }

  lemma {:induction false} Pow2Add(a: nat, b: nat)
    ensures Pow2(a + b) == Pow2(a) * Pow2(b)
  {
    if a > 0 {
      Pow2Add(a - 1, b);
      assert Pow2(a + b) == 2 * Pow2(a - 1 + b);
    }
  }

  lemma {:induction false} Pow2Monotone(a: nat, b: nat)
    requires a <= b
    ensures Pow2(a) <= Pow2(b)
  {
    if a < b {
      Pow2Monotone(a, b - 1);
    }
  }

  lemma Pow2Strict(a: nat, b: nat)
    requires a < b
    ensures 2 * Pow2(a) <= Pow2(b)
  {
    Pow2Monotone(a + 1, b);
  }

  lemma Pow2PageShift(k: nat)
    ensures Pow2(k + PG_SHIFT) == PG_SIZE * Pow2(k)
  {
    Pow2Add(k, 12);
    assert Pow2(12) == 4096 by {
      assert Pow2(4) == 16;
      Pow2Add(4, 4);
      Pow2Add(8, 4);
    }
  }

  // ---- Rounding. For a power of two, clearing the low bits is subtracting the remainder. ----

  /** The greatest multiple of `align` that is at most `n`. */
  function RoundDown(n: nat, align: nat): (r: nat)
    requires align > 0
    ensures r % align == 0 && r <= n < r + align
  {
    ModOfMultiple(n / align, align);
    n - n % align
  }

  /** The least multiple of `align` that is at least `n`. */
  function RoundUp(n: nat, align: nat): (r: nat)
    requires align > 0
    ensures r % align == 0 && n <= r < n + align
  {
    RoundDown(n + align - 1, align)
  }

  lemma {:induction false} MulAtLeast(a: int, s: nat)
    requires a >= 1
    ensures a * s >= s
  {
  }

  /** Quotient and remainder are the only such decomposition. */
  lemma {:induction false} DivModUnique(n: nat, s: nat, q: nat, r: nat)
    requires 0 <= r < s && n == q * s + r
    ensures n / s == q && n % s == r
  {
    var d := n / s - q;
    assert r - n % s == d * s by {
      assert n == (n / s) * s + n % s;
      assert (n / s - q) * s == (n / s) * s - q * s;
    }
    if d >= 1 {
      MulAtLeast(d, s);
    } else if d <= -1 {
      MulAtLeast(-d, s);
    }
  }

  lemma {:induction false} ModOfMultiple(q: nat, s: nat)
    requires s > 0
    ensures (q * s) % s == 0 && (q * s) / s == q
  {
    DivModUnique(q * s, s, q, 0);
  }

  /** `a` is a whole number of steps of size `s`. */
  predicate IsMultiple(a: nat, s: nat)
    requires s > 0
  {
    a == 0 || (a >= s && IsMultiple(a - s, s))
  }

  lemma {:induction false} MultipleIffMod(a: nat, s: nat)
    requires s > 0
    ensures IsMultiple(a, s) <==> a % s == 0
  {
    if a >= s {
      MultipleIffMod(a - s, s);
      var q, r := (a - s) / s, (a - s) % s;
      assert a - s == q * s + r;
      assert a == (q + 1) * s + r;
      DivModUnique(a, s, q + 1, r);
    } else if a > 0 {
      DivModUnique(a, s, 0, a);
    }
  }

  lemma {:induction false} DivStep(a: nat, s: nat)
    requires 0 < s <= a
    ensures a / s == (a - s) / s + 1
  {
    var q, r := (a - s) / s, (a - s) % s;
    assert a - s == q * s + r;
    assert a == (q + 1) * s + r;
    DivModUnique(a, s, q + 1, r);
  }

  // ---- Bit scans ----

  /** Number of low zero bits of a non-zero word. */
  function TrailingZeros(n: nat): (r: nat)
    requires n > 0
  {
    if n % 2 == 1 then 0 else 1 + TrailingZeros(n / 2)
  }

  lemma {:induction false} ModHalf(n: nat, s: nat)
    requires s > 0 && n % 2 == 0
    ensures n % (2 * s) == 2 * ((n / 2) % s)
  {
    var h := n / 2;
    assert n == (2 * s) * (h / s) + 2 * (h % s);
    var q, r := h / s, 2 * (h % s);
    assert n == q * (2 * s) + r;
    DivModUnique(n, 2 * s, q, r);
  }

  /** A word is a multiple of 2^k exactly when k does not exceed its trailing zeros. */
  lemma {:induction false} TrailingZerosDivides(n: nat, k: nat)
    requires n > 0
    ensures n % Pow2(k) == 0 <==> k <= TrailingZeros(n)
  {
    if k == 0 {
    } else if n % 2 == 1 {
      var s := Pow2(k - 1);
      var q, r := n / (2 * s), n % (2 * s);
      assert n == 2 * (s * q) + r;
    } else {
      ModHalf(n, Pow2(k - 1));
      TrailingZerosDivides(n / 2, k - 1);
    }
  }

  lemma {:induction false} TrailingZerosOfPow2(k: nat)
    ensures TrailingZeros(Pow2(k)) == k
  {
    if k > 0 {
      TrailingZerosOfPow2(k - 1);
    }
  }

  /** The exponent of the least power of two that is at least n (0 counts as 1). */
  function CeilLog2(n: nat): (r: nat)
    ensures n <= Pow2(r) && (r > 0 ==> Pow2(r - 1) < n)
  {
    if n <= 1 then 0 else 1 + CeilLog2((n + 1) / 2)
  }

  function NextPowerOfTwo(n: nat): (r: nat)
    ensures n <= r && (n > 1 ==> r < 2 * n) && exists k :: r == Pow2(k)
  {
    Pow2(CeilLog2(n))
  }

  lemma {:induction false} CeilLog2Least(n: nat, k: nat)
    requires n <= Pow2(k)
    ensures CeilLog2(n) <= k
  {
    if CeilLog2(n) > k {
      Pow2Monotone(k, CeilLog2(n) - 1);
    }
  }

  lemma {:induction false} CeilLog2Above(n: nat, k: nat)
    requires Pow2(k) < n
    ensures k < CeilLog2(n)
  {
    if CeilLog2(n) <= k {
      Pow2Monotone(CeilLog2(n), k);
    }
  }

  /** The exponent of the greatest power of two that is at most n. */
  function FloorLog2(n: nat): (r: nat)
    requires n > 0
    ensures Pow2(r) <= n < 2 * Pow2(r)
  {
    if n == 1 then 0 else 1 + FloorLog2(n / 2)
  }

  function PrevPowerOfTwo(n: nat): (r: nat)
    requires n > 0
    ensures r <= n < 2 * r && exists k :: r == Pow2(k)
  {
    Pow2(FloorLog2(n))
  }

  // ---- Exclusive or ----

  function Xor(a: nat, b: nat): nat
    decreases a + b
  {
    if a == 0 && b == 0 then 0 else (a % 2 + b % 2) % 2 + 2 * Xor(a / 2, b / 2)
  }

  lemma {:induction false} XorZero(a: nat)
    ensures Xor(a, 0) == a
  {
    if a > 0 {
      XorZero(a / 2);
    }
  }

  /** Exclusive or with a single bit flips that bit: it adds or subtracts the power of two. */
  lemma {:induction false} XorSingleBit(a: nat, k: nat)
    ensures Xor(a, Pow2(k)) == if (a / Pow2(k)) % 2 == 0 then a + Pow2(k) else a - Pow2(k)
  {
    if k == 0 {
      assert Xor(a, 1) == (a % 2 + 1) % 2 + 2 * Xor(a / 2, 0);
      XorZero(a / 2);
    } else {
      var p := Pow2(k - 1);
      XorSingleBit(a / 2, k - 1);
      XorDouble(a, p);
      HalveDividend(a, p);
    }
  }

  lemma {:induction false} XorDouble(a: nat, p: nat)
    ensures Xor(a, 2 * p) == a % 2 + 2 * Xor(a / 2, p)
  {
    if a > 0 || p > 0 {
      assert Xor(a, 2 * p) == (a % 2 + (2 * p) % 2) % 2 + 2 * Xor(a / 2, (2 * p) / 2);
    }
  }

  lemma {:induction false} HalveDividend(a: nat, p: nat)
    requires p > 0
    ensures a / (2 * p) == (a / 2) / p
  {
    var h := a / 2;
    var q, r := h / p, h % p;
    assert h == q * p + r;
    assert a == q * (2 * p) + (2 * r + a % 2);
    DivModUnique(a, 2 * p, q, 2 * r + a % 2);
  }
}
