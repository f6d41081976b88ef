/**
 * Fixed-width machine integers as the Rust sources use them: `u64`, `i64`
 * and `u8` are ranges of `int`, and every wrap-around or truncation is
 * written out explicitly.
 */
module Machine {

  const U64_MODULUS: int := 0x1_0000_0000_0000_0000
  const U64_MAX: int := U64_MODULUS - 1

  type u64 = x: int | 0 <= x < 0x1_0000_0000_0000_0000
  type i64 = x: int | -0x8000_0000_0000_0000 <= x < 0x8000_0000_0000_0000
  type u8 = x: int | 0 <= x < 0x100

  /** A `[u8; 32]` array, by value. */
  type Bytes32 = s: seq<u8> | |s| == 32 witness [0, 0, 0, 0, 0, 0, 0, 0, 0, 0, 0, 0, 0, 0, 0, 0, 0, 0, 0, 0, 0, 0, 0, 0, 0, 0, 0, 0, 0, 0, 0, 0]

  /** `[0u8; 32]`. */
  const ZERO_BYTES32: Bytes32 := [0, 0, 0, 0, 0, 0, 0, 0, 0, 0, 0, 0, 0, 0, 0, 0, 0, 0, 0, 0, 0, 0, 0, 0, 0, 0, 0, 0, 0, 0, 0, 0]

  /** `a.wrapping_add(b)`, also the `+` of an encrypted `FheUint64`. */
  function WrappingAdd(a: u64, b: u64): u64 {
    (a + b) % U64_MODULUS
  }

  /** `a.wrapping_sub(b)`, also the `-` of an encrypted `FheUint64`. */
  function WrappingSub(a: u64, b: u64): u64 {
    (a - b) % U64_MODULUS
  }

  /** `a.wrapping_mul(b)`: the true product reduced modulo 2^64, and exactly the product when that fits. */
  function WrappingMul(a: u64, b: u64): (r: u64)
    ensures (a * b - r) % U64_MODULUS == 0
    ensures a * b < U64_MODULUS ==> r == a * b
  {
    ReduceModulo(a * b, U64_MODULUS);
    (a * b) % U64_MODULUS
  }

  /** 2^n. */
  function Pow2(n: nat): (p: nat)
    ensures p > 0
  {
    if n == 0 then 1 else 2 * Pow2(n - 1)
  }

  /** Bitwise exclusive or of two naturals, one bit at a time from the least significant. */
  function XorBits(a: nat, b: nat): nat
    decreases a + b
  {
    if a == 0 && b == 0 then 0
    else 2 * XorBits(a / 2, b / 2) + (if a % 2 == b % 2 then 0 else 1)
  }

  lemma {:induction false} Pow2Sum(m: nat, n: nat)
    ensures Pow2(m + n) == Pow2(m) * Pow2(n)
  {
    if m > 0 {
      Pow2Sum(m - 1, n);
      assert Pow2(m + n) == 2 * Pow2(m - 1 + n);
    }
  }

  lemma Pow2Of64()
    ensures Pow2(64) == U64_MODULUS
  {
    assert Pow2(1) == 2;
    Pow2Sum(1, 1);
    assert Pow2(2) == 4;
    Pow2Sum(2, 2);
    assert Pow2(4) == 0x10;
    Pow2Sum(4, 4);
    assert Pow2(8) == 0x100;
    Pow2Sum(8, 8);
    assert Pow2(16) == 0x1_0000;
    Pow2Sum(16, 16);
    assert Pow2(32) == 0x1_0000_0000;
    Pow2Sum(32, 32);
  }

  /** The exclusive or of two n-bit numbers is an n-bit number. */
  lemma {:induction false} XorBitsBelow(a: nat, b: nat, n: nat)
    requires a < Pow2(n) && b < Pow2(n)
    ensures XorBits(a, b) < Pow2(n)
    decreases n
  {
    if a == 0 && b == 0 {
    } else {
      assert n > 0;
      XorBitsBelow(a / 2, b / 2, n - 1);
    }
  }

  /** Exclusive or with the same operand twice gives back the first operand. */
  lemma {:induction false} XorBitsCancel(a: nat, b: nat)
    ensures XorBits(XorBits(a, b), b) == a
    decreases a + b
  {
    if a == 0 && b == 0 {
    } else {
      XorBitsCancel(a / 2, b / 2);
      var x := XorBits(a, b);
      assert x / 2 == XorBits(a / 2, b / 2) && x % 2 == (if a % 2 == b % 2 then 0 else 1);
    }
  }

  /** Reducing x modulo m removes a multiple of m, and leaves x unchanged when it is already in range. */
  lemma ReduceModulo(x: int, m: int)
    requires m > 0
    ensures (x - x % m) % m == 0
    ensures 0 <= x < m ==> x % m == x
  {
    ModUnique(x - x % m, m, x / m, 0);
  }

  /** A positive multiple of d is at least d. */
  lemma MulAtLeast(d: int, e: int)
    requires d > 0 && e >= 1
    ensures d * e >= d
  {
    assert d * e == d * (e - 1) + d;
  }

  /** A value written as `d * k + r` with `0 <= r < d` leaves remainder r. */
  lemma ModUnique(x: int, d: int, k: int, r: int)
    requires d > 0 && 0 <= r < d && x == d * k + r
    ensures x % d == r
  {
    var k0, r0 := x / d, x % d;
    assert d * (k - k0) == r0 - r;
    if k > k0 {
      MulAtLeast(d, k - k0);
      assert false;
    } else if k < k0 {
      MulAtLeast(d, k0 - k);
      assert false;
    }
  }

  /** Splitting off the lowest bit: `x mod 2p` is twice `(x / 2) mod p` plus the lowest bit of x. */
  lemma ModOfDouble(x: nat, p: nat)
    requires p > 0
    ensures x % (2 * p) == 2 * ((x / 2) % p) + x % 2
  {
    var q, m := (x / 2) / p, (x / 2) % p;
    assert x / 2 == p * q + m;
    assert x == (2 * p) * q + (2 * m + x % 2);
    ModUnique(x, 2 * p, q, 2 * m + x % 2);
  }

  /** The low n bits of an exclusive or depend only on the low n bits of its operands. */
  lemma {:induction false} XorBitsLowBits(a: nat, b: nat, n: nat)
    ensures XorBits(a, b) % Pow2(n) == XorBits(a % Pow2(n), b % Pow2(n))
    decreases n
  {
    if n == 0 {
      assert XorBits(0, 0) == 0;
    } else {
      var p := Pow2(n - 1);
      XorBitsLowBits(a / 2, b / 2, n - 1);
      ModOfDouble(a, p);
      ModOfDouble(b, p);
      var x := XorBits(a, b);
      ModOfDouble(x, p);
      var a', b' := a % (2 * p), b % (2 * p);
      assert a' / 2 == (a / 2) % p && a' % 2 == a % 2;
      assert b' / 2 == (b / 2) % p && b' % 2 == b % 2;
      if a == 0 && b == 0 {
      } else if a' == 0 && b' == 0 {
        assert x / 2 == XorBits(a / 2, b / 2);
      } else {
        assert x / 2 == XorBits(a / 2, b / 2) && x % 2 == (if a % 2 == b % 2 then 0 else 1);
      }
    }
  }

  /**
   * Bitwise exclusive or `a ^ b` of two `u64` values. Xoring the result
   * with `b` again gives `a` back, and its low byte is the exclusive or of
   * the operands' low bytes.
   */
  function Xor(a: u64, b: u64): (r: u64)
    ensures XorBits(r, b) == a
    ensures r % 0x100 == XorBits(a % 0x100, b % 0x100)
  {
    Pow2Of64();
    XorBitsBelow(a, b, 64);
    XorBitsCancel(a, b);
    XorBitsLowBits(a, b, 8);
    assert Pow2(8) == 0x100;
    XorBits(a, b)
  }

  /** The two's-complement reinterpretation `t as u64` of an `i64`. */
  function I64AsU64(t: i64): (r: u64)
    ensures r % U64_MODULUS == t % U64_MODULUS
    ensures 0 <= t ==> r == t
  {
    if t < 0 then t + U64_MODULUS else t
  }

  /** The truncating cast `x as u8`: the low eight bits. */
  function LowByte(x: u64): (r: u8)
    ensures (x - r) % 0x100 == 0
  {
    x % 0x100
  }

  /** Without underflow the wrapping difference is the true difference. */
  lemma SubWithoutUnderflow(a: u64, b: u64)
    requires b <= a
    ensures WrappingSub(a, b) == a - b
  {
  }

  /** A wrapping difference that underflows lands 2^64 above the true difference. */
  lemma SubWithUnderflow(a: u64, b: u64)
    requires a < b
    ensures WrappingSub(a, b) == a - b + U64_MODULUS
    ensures WrappingSub(a, b) > a
  {
  }

  /** Moving `d` from one u64 to another keeps their sum modulo 2^64. */
  lemma MoveKeepsSum(s: u64, r: u64, d: u64)
    ensures (WrappingSub(s, d) + WrappingAdd(r, d)) % U64_MODULUS == (s + r) % U64_MODULUS
  {
    var lo: int := WrappingSub(s, d);
    var hi: int := WrappingAdd(r, d);
    var k1 := if d <= s then 0 else 1;
    var k2 := if r + d < U64_MODULUS then 0 else 1;
    assert lo == s - d + k1 * U64_MODULUS;
    assert hi == r + d - k2 * U64_MODULUS;
    assert lo + hi == s + r + (k1 - k2) * U64_MODULUS;
  }
}
