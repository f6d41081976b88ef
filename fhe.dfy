/**
 * The homomorphic arithmetic engine, reduced to what it computes.
 *
 * An encrypted `FheUint64` is modelled as a wrapper around the u64 it
 * encrypts and `Decrypt` is the projection; the homomorphic operations used
 * by the ledger handlers (`ge`, `if_then_else`, `+`, `-`) act on the wrapped
 * plaintexts with the same u64 wrap-around the scheme has. Key material and
 * the process-wide server key are not modelled.
 */
module Fhe {
  import opened Machine

  /** An encrypted unsigned 64-bit integer. */
  datatype FheUint64 = Cipher(plain: u64)

  /** An encrypted boolean, as produced by a homomorphic comparison. */
  datatype FheBool = CipherBool(plain: bool)

  /**
   * `FheUint64::encrypt(v, client_key)`. The scheme's encryption is
   * randomised; here two encryptions of one value are equal, so the model
   * only states facts about what a ciphertext decrypts to: an encryption
   * of v decrypts to v.
   */
  function Encrypt(v: u64): (c: FheUint64)
    ensures Decrypt(c) == v
  {
    Cipher(v)
  }

  /** `c.decrypt(client_key)`. */
  function Decrypt(c: FheUint64): u64 {
    c.plain
  }

  /** `c.decrypt(client_key)` on an encrypted boolean. */
  function DecryptBool(c: FheBool): bool {
    c.plain
  }

  /** `a.ge(&b)`: an encrypted comparison, which decrypts to whether `a >= b`. */
  function Ge(a: FheUint64, b: FheUint64): (r: FheBool)
    ensures DecryptBool(r) <==> Decrypt(a) >= Decrypt(b)
  {
    CipherBool(a.plain >= b.plain)
  }

  /** `cond.if_then_else(&t, &f)`: a new ciphertext that decrypts to the value of `t` or of `f`, chosen by what `cond` decrypts to. */
  function IfThenElse(cond: FheBool, t: FheUint64, f: FheUint64): (r: FheUint64)
    ensures DecryptBool(cond) ==> Decrypt(r) == Decrypt(t)
    ensures !DecryptBool(cond) ==> Decrypt(r) == Decrypt(f)
  {
    if cond.plain then t else f
  }

  /** `&a + &b` on encrypted values: decrypts to the u64 sum modulo 2^64, exactly the sum when it fits. */
  function Add(a: FheUint64, b: FheUint64): (r: FheUint64)
    ensures Decrypt(r) == (Decrypt(a) + Decrypt(b)) % U64_MODULUS
    ensures Decrypt(a) + Decrypt(b) < U64_MODULUS ==> Decrypt(r) == Decrypt(a) + Decrypt(b)
  {
    Cipher(WrappingAdd(a.plain, b.plain))
  }

  /** `&a - &b` on encrypted values: decrypts to the difference modulo 2^64, exactly the difference when `b <= a`. */
  function Sub(a: FheUint64, b: FheUint64): (r: FheUint64)
    ensures Decrypt(r) == (Decrypt(a) - Decrypt(b)) % U64_MODULUS
    ensures Decrypt(b) <= Decrypt(a) ==> Decrypt(r) == Decrypt(a) - Decrypt(b)
    ensures Decrypt(a) < Decrypt(b) ==> Decrypt(r) == Decrypt(a) - Decrypt(b) + U64_MODULUS
  {
    var d := WrappingSub(a.plain, b.plain);
    if b.plain <= a.plain then
      SubWithoutUnderflow(a.plain, b.plain);
      Cipher(d)
    else
      SubWithUnderflow(a.plain, b.plain);
      Cipher(d)
  }

  /**
   * The clamped subtraction of the ledger handlers: the debit chosen by the
   * encrypted comparison and selection decrypts to the requested amount when
   * the balance covers it and to the zero operand otherwise; when that zero does not exceed
   * the balance (in particular when it is 0), the chosen debit never makes
   * the balance wrap.
   */
  lemma {:induction false} ClampedSubtractionStaysInRange(balance: FheUint64, amount: FheUint64, zero: FheUint64)
    ensures var debit := IfThenElse(Ge(balance, amount), amount, zero);
      && (Decrypt(balance) >= Decrypt(amount) ==> Decrypt(debit) == Decrypt(amount))
      && (Decrypt(balance) < Decrypt(amount) ==> Decrypt(debit) == Decrypt(zero))
      && (Decrypt(zero) <= Decrypt(balance) ==> Decrypt(Sub(balance, debit)) == Decrypt(balance) - Decrypt(debit))
  {
  }
}
