/**
 * The balance ledger service: the `computations` table of encrypted
 * balances, the three store helpers that read and write it, and the four
 * request handlers that run their fetch, compute, store protocol on it.
 *
 * Each handler is proved against the plaintext semantics of `LedgerSpec`:
 * what the encrypted computation leaves in the table decrypts to what the
 * corresponding specification function computes on decrypted balances.
 */
module Ledger {
  import opened Machine
  import opened Wrappers
  import opened Fhe
  import opened LedgerSpec

  /** What a table of ciphertexts decrypts to, key by key. */
  function Decrypted(t: map<AccountKey, FheUint64>): Balances {
    map k | k in t :: Decrypt(t[k])
  }

  /** Writing one ciphertext changes the decrypted table at that key only. */
  lemma DecryptedAfterWrite(t: map<AccountKey, FheUint64>, key: AccountKey, c: FheUint64)
    ensures Decrypted(t[key := c]) == Decrypted(t)[key := Decrypt(c)]
  {
  }

  /** The store: one row of ciphertext per 32-byte key, with `key` as primary key. */
  class Database {
    var computations: map<AccountKey, FheUint64>

    /** A freshly created, empty `computations` table. */
    constructor ()
      ensures computations == map[]
    {
      computations := map[];
    }

    /** The balances the table holds, as the client key would decrypt them. */
    ghost function Plaintexts(): Balances
      reads this
    {
      Decrypted(computations)
    }

    /** `get_ciphertext`: the stored ciphertext, or a failure when no row has the key. */
    method GetCiphertext(key: AccountKey) returns (r: Result<FheUint64, Error>)
      ensures r.Ok? <==> key in computations
      ensures r.Ok? ==> r.value == computations[key] && Lookup(Plaintexts(), key) == Ok(Decrypt(r.value))
      ensures r.Err? ==> r == Err(NotFound(key)) && Lookup(Plaintexts(), key) == Err(NotFound(key))
    {
      if key in computations {
        r := Ok(computations[key]);
      } else {
        r := Err(NotFound(key));
      }
    }

    /** `insert_ciphertext` (INSERT OR REPLACE): the row for `key` holds `c` afterwards, created if it was missing. */
    method InsertCiphertext(key: AccountKey, c: FheUint64)
      modifies this
      ensures computations == old(computations)[key := c]
      ensures Plaintexts() == Upsert(old(Plaintexts()), key, Decrypt(c))
    {
      computations := computations[key := c];
      DecryptedAfterWrite(old(computations), key, c);
    }

    /**
     * `update_ciphertext` (UPDATE ... WHERE key): overwrites the row for
     * `key` if there is one; with no such row nothing changes, no row is
     * created, and the call still succeeds.
     */
    method UpdateCiphertext(key: AccountKey, c: FheUint64) returns (r: Outcome<Error>)
      modifies this
      ensures r == Pass
      ensures computations == if key in old(computations) then old(computations)[key := c] else old(computations)
      ensures Plaintexts() == UpdateExisting(old(Plaintexts()), key, Decrypt(c))
    {
      if key in computations {
        computations := computations[key := c];
        DecryptedAfterWrite(old(computations), key, c);
      }
      r := Pass;
    }
  }

  /** `handle_post`: encrypts `value` and upserts it, overwriting any earlier balance of `key`. */
  method HandlePost(db: Database, key: AccountKey, value: u64)
    modifies db
    ensures key in db.computations && Decrypt(db.computations[key]) == value
    ensures db.computations.Keys == old(db.computations.Keys) + {key}
    ensures forall k :: k in old(db.computations) && k != key ==> db.computations[k] == old(db.computations)[k]
    ensures db.Plaintexts() == Deposit(old(db.Plaintexts()), key, value)
  {
    var encrypted := Encrypt(value);
    db.InsertCiphertext(key, encrypted);
  }

  /**
   * `handle_transfer`: fetches the sender, the recipient, the amount stored
   * under `amountKey` and the zero stored under `ZeroKey`; chooses the debit
   * with an encrypted comparison and selection; writes the sender row, then
   * the recipient row, both update-only. A failed lookup aborts before any
   * write.
   */
  method HandleTransfer(db: Database, sender: AccountKey, recipient: AccountKey, amountKey: AccountKey)
    returns (r: Outcome<Error>)
    modifies db
    ensures var spec := Transfer(old(db.Plaintexts()), sender, recipient, amountKey);
      && (r.Pass? <==> spec.Ok?)
      && (r.Fail? ==> r.error == spec.error && db.computations == old(db.computations))
      && (r.Pass? ==> db.Plaintexts() == spec.value)
    ensures db.computations.Keys == old(db.computations.Keys)
  {
    var senderValue := db.GetCiphertext(sender);
    if senderValue.Err? { return Fail(senderValue.error); }
    var recipientValue := db.GetCiphertext(recipient);
    if recipientValue.Err? { return Fail(recipientValue.error); }
    var transferValue := db.GetCiphertext(amountKey);
    if transferValue.Err? { return Fail(transferValue.error); }
    var zeroValue := db.GetCiphertext(ZeroKey);
    if zeroValue.Err? { return Fail(zeroValue.error); }

    var condition := Ge(senderValue.value, transferValue.value);
    var realAmount := IfThenElse(condition, transferValue.value, zeroValue.value);
    var newSenderValue := Sub(senderValue.value, realAmount);
    var newRecipientValue := Add(recipientValue.value, realAmount);

    ClampedSubtractionStaysInRange(senderValue.value, transferValue.value, zeroValue.value);
    var _ := db.UpdateCiphertext(sender, newSenderValue);
    var _ := db.UpdateCiphertext(recipient, newRecipientValue);
    r := Pass;
  }

  /**
   * `handle_withdraw`: fetches the balance, the amount stored under
   * `amountKey` and the zero; stores the clamped difference update-only and
   * returns it decrypted. A failed lookup aborts before the write.
   */
  method HandleWithdraw(db: Database, key: AccountKey, amountKey: AccountKey)
    returns (r: Result<u64, Error>)
    modifies db
    ensures var spec := Withdraw(old(db.Plaintexts()), key, amountKey);
      && (r.Ok? <==> spec.Ok?)
      && (r.Err? ==> r.error == spec.error && db.computations == old(db.computations))
      && (r.Ok? ==> r.value == spec.value.result && db.Plaintexts() == spec.value.balances)
    ensures db.computations.Keys == old(db.computations.Keys)
  {
    var balance := db.GetCiphertext(key);
    if balance.Err? { return Err(balance.error); }
    var transfer := db.GetCiphertext(amountKey);
    if transfer.Err? { return Err(transfer.error); }
    var zeroValue := db.GetCiphertext(ZeroKey);
    if zeroValue.Err? { return Err(zeroValue.error); }

    var condition := Ge(balance.value, transfer.value);
    var realAmount := IfThenElse(condition, transfer.value, zeroValue.value);
    var newBalance := Sub(balance.value, realAmount);
    ClampedSubtractionStaysInRange(balance.value, transfer.value, zeroValue.value);

    var _ := db.UpdateCiphertext(key, newBalance);
    r := Ok(Decrypt(newBalance));
  }

  /** `handle_view`: decrypts the stored balance of `key`; fails when the key has no row. */
  method HandleView(db: Database, key: AccountKey) returns (r: Result<u64, Error>)
    ensures r == View(db.Plaintexts(), key)
    ensures r.Ok? <==> key in db.computations
    ensures r.Ok? ==> r.value == Decrypt(db.computations[key])
  {
    var value := db.GetCiphertext(key);
    if value.Err? { return Err(value.error); }
    r := Ok(Decrypt(value.value));
  }
}
