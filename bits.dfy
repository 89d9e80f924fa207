/** Bitwise AND on non-negative integers, so that the Echo identifier
    `os.Getpid() & 0xffff` (Traceroute/main.go, line 41) can be stated and
    related to arithmetic without bit-vector conversions. */
module Bits {

  function Pow2(k: nat): (p: nat)
    ensures p >= 1
  {
    if k == 0 then 1 else 2 * Pow2(k - 1)
  }

  /** `a & b`, bit by bit from the least significant one. */
  function BitAnd(a: nat, b: nat): nat
  {
    if a == 0 || b == 0 then 0 else 2 * BitAnd(a / 2, b / 2) + (a % 2) * (b % 2)
  }

  lemma MulDistrib(d: int, x: int, y: int)
    ensures d * (x - y) == d * x - d * y
  {
  }

  lemma MulAtLeast(d: int, x: int)
    requires d > 0 && x >= 1
    ensures d * x >= d
  {
  }

  /** The remainder is determined by any quotient-remainder decomposition. */
  lemma ModOfDecomposition(a: int, d: int, q: int, r: int)
    requires d > 0 && 0 <= r < d && a == d * q + r
    ensures a % d == r
  {
    var q' := a / d;
    MulDistrib(d, q, q');
    MulDistrib(d, q', q);
    if q > q' {
      MulAtLeast(d, q - q');
    } else if q < q' {
      MulAtLeast(d, q' - q);
    }
  }

  lemma DoubleMul(m: int, q: int)
    ensures (2 * m) * q == 2 * (m * q)
  {
  }

  lemma HalveRem(a: nat, m: nat)
    requires m >= 1
    ensures a % (2 * m) == 2 * ((a / 2) % m) + a % 2
  {
    var h := a / 2;
    var q := h / m;
    DoubleMul(m, q);
    ModOfDecomposition(a, 2 * m, q, 2 * (h % m) + a % 2);
  }

  lemma BitAndOddMask(a: nat, b: nat)
    requires a > 0 && b % 2 == 1
    ensures BitAnd(a, b) == 2 * BitAnd(a / 2, b / 2) + a % 2
  {
  }

  lemma BitAndLowMaskStep(a: nat, k: nat)
    requires k > 0 && a > 0
    requires BitAnd(a / 2, Pow2(k - 1) - 1) == (a / 2) % Pow2(k - 1)
    ensures BitAnd(a, Pow2(k) - 1) == a % Pow2(k)
  {
    var m := Pow2(k - 1);
    var mask := Pow2(k) - 1;
    assert mask == 2 * (m - 1) + 1;
    BitAndOddMask(a, mask);
    assert mask / 2 == m - 1;
    HalveRem(a, m);
  }

  /** Masking with k one-bits keeps the k low bits: `a & (2^k - 1) == a mod 2^k`. */
  lemma {:induction false} BitAndLowMask(a: nat, k: nat)
    ensures BitAnd(a, Pow2(k) - 1) == a % Pow2(k)
  {
    if k > 0 && a > 0 {
      BitAndLowMask(a / 2, k - 1);
      BitAndLowMaskStep(a, k);
    } else if k == 0 {
      assert Pow2(k) - 1 == 0;
    } else {
      assert a == 0;
    }
  }

  /** `a & 0xffff` is the low 16 bits of `a`, so it lies in 0..65535. */
  lemma Mask16(a: nat)
    ensures BitAnd(a, 0xffff) == a % 0x10000
    ensures 0 <= BitAnd(a, 0xffff) < 0x10000
  {
    assert Pow2(4) == 16;
    assert Pow2(8) == 256;
    assert Pow2(12) == 4096;
    assert Pow2(16) == 0x10000;
    BitAndLowMask(a, 16);
  }
}
