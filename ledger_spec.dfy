/**
 * What the balance ledger computes, stated on plaintext balances.
 *
 * The `computations` table maps a 32-byte account key to one encrypted
 * balance; here it is seen through decryption as a map from keys to u64
 * values. Each handler of the ledger service is a function from the table
 * before the request to its result, with lookups that fail on a missing key
 * as the store's `get_ciphertext` does.
 */
module LedgerSpec {
  import opened Machine
  import opened Wrappers

  /** A 32-byte account key, used only as a lookup handle. */
  type AccountKey = Bytes32

  /** The all-zero key under which the encrypted zero used for clamping is stored. */
  const ZeroKey: AccountKey := ZERO_BYTES32

  /** The balances of the table, as they decrypt. */
  type Balances = map<AccountKey, u64>

  /** Why a request failed. The store reports a missing row; nothing else can fail in this model. */
  datatype Error = NotFound(key: AccountKey)

  /** `get_ciphertext`: the stored value, or a failure when the key has no row. */
  function Lookup(b: Balances, key: AccountKey): Result<u64, Error> {
    if key in b then Ok(b[key]) else Err(NotFound(key))
  }

  /** `insert_ciphertext` (INSERT OR REPLACE): the key holds exactly the new value afterwards, its row is created if missing, and no other row changes. */
  function Upsert(b: Balances, key: AccountKey, v: u64): (r: Balances)
    ensures key in r && r[key] == v
    ensures r.Keys == b.Keys + {key}
    ensures forall k :: k in b && k != key ==> r[k] == b[k]
  {
    b[key := v]
  }

  /** `update_ciphertext` (UPDATE ... WHERE key): overwrites the row if there is one; without a row nothing changes and no row is created. */
  function UpdateExisting(b: Balances, key: AccountKey, v: u64): (r: Balances)
    ensures r.Keys == b.Keys
    ensures key in b ==> r[key] == v
    ensures forall k :: k in b && k != key ==> r[k] == b[k]
  {
    if key in b then b[key := v] else b
  }

  /**
   * The amount actually moved: the requested amount when the balance covers
   * it, otherwise the value stored as zero. The debit exceeds the balance
   * only when that zero does.
   */
  function ClampedDebit(balance: u64, requested: u64, zero: u64): (d: u64)
    ensures balance >= requested ==> d == requested
    ensures balance < requested ==> d == zero
    ensures zero <= balance ==> d <= balance
  {
    if balance >= requested then requested else zero
  }

  /** `handle_post`: the encrypted value replaces whatever the key held. */
  function Deposit(b: Balances, key: AccountKey, v: u64): (r: Balances)
    ensures View(r, key) == Ok(v)
    ensures forall k :: k != key ==> View(r, k) == View(b, k)
  {
    Upsert(b, key, v)
  }

  /**
   * `handle_transfer`: the sender, the recipient, the amount (stored under
   * the key `amountKey`) and the zero (stored under `ZeroKey`) are looked
   * up; the clamped debit is subtracted from the sender and added to the
   * recipient, and the two rows are written in that order.
   */
  function Transfer(b: Balances, sender: AccountKey, recipient: AccountKey, amountKey: AccountKey): (r: Result<Balances, Error>)
    ensures r.Ok? <==> sender in b && recipient in b && amountKey in b && ZeroKey in b
    ensures r.Err? ==> r.error.key !in b && r.error.key in {sender, recipient, amountKey, ZeroKey}
  {
    if sender !in b then Err(NotFound(sender))
    else if recipient !in b then Err(NotFound(recipient))
    else if amountKey !in b then Err(NotFound(amountKey))
    else if ZeroKey !in b then Err(NotFound(ZeroKey))
    else Ok(Move(b, sender, recipient, ClampedDebit(b[sender], b[amountKey], b[ZeroKey])))
  }

  /** The two writes of a transfer: the sender row gets S - debit, then the recipient row gets R + debit, with R read before either write. */
  function Move(b: Balances, sender: AccountKey, recipient: AccountKey, debit: u64): (r: Balances)
    requires sender in b && recipient in b
    ensures r.Keys == b.Keys
    ensures r[recipient] == WrappingAdd(b[recipient], debit)
    ensures sender != recipient ==> r[sender] == WrappingSub(b[sender], debit)
    ensures forall k :: k in b && k != sender && k != recipient ==> r[k] == b[k]
  {
    UpdateExisting(UpdateExisting(b, sender, WrappingSub(b[sender], debit)),
                   recipient, WrappingAdd(b[recipient], debit))
  }

  /** The table after a withdrawal and the plaintext handed back to the caller. */
  datatype Withdrawal = Withdrawal(balances: Balances, result: u64)

  /** `handle_withdraw`: the clamped debit on one account, which also returns the new balance decrypted. */
  function Withdraw(b: Balances, key: AccountKey, amountKey: AccountKey): (r: Result<Withdrawal, Error>)
    ensures r.Ok? <==> key in b && amountKey in b && ZeroKey in b
    ensures r.Err? ==> r.error.key !in b && r.error.key in {key, amountKey, ZeroKey}
    ensures r.Ok? ==> r.value.balances == b[key := r.value.result]
    ensures r.Ok? && b[ZeroKey] <= b[key] ==> r.value.result <= b[key]
  {
    if key !in b then Err(NotFound(key))
    else if amountKey !in b then Err(NotFound(amountKey))
    else if ZeroKey !in b then Err(NotFound(ZeroKey))
    else Ok(StoreAndReturn(b, key, WrappingSub(b[key], ClampedDebit(b[key], b[amountKey], b[ZeroKey]))))
  }

  /** The last steps of a withdrawal: the new balance is written to the key's row and handed back. */
  function StoreAndReturn(b: Balances, key: AccountKey, newBalance: u64): Withdrawal {
    Withdrawal(UpdateExisting(b, key, newBalance), newBalance)
  }

  /** `handle_view`: the decrypted balance of one key. */
  function View(b: Balances, key: AccountKey): (r: Result<u64, Error>)
    ensures r.Ok? <==> key in b
    ensures r.Ok? ==> r.value == b[key]
    ensures r.Err? ==> r.error == NotFound(key)
  {
    Lookup(b, key)
  }

  // ---------------------------------------------------------------------
  // Deposit

  /** A deposit overwrites: the table after it does not depend on any earlier balance of the key. */
  lemma DepositOverwrites(b: Balances, key: AccountKey, v: u64, earlier: u64)
    ensures Deposit(b, key, v) == Deposit(b - {key}, key, v)
    ensures Deposit(b, key, v) == Deposit(b[key := earlier], key, v)
  {
  }

  // ---------------------------------------------------------------------
  // Transfer

  /** A transfer that succeeds creates no account and changes no account other than the sender and the recipient. */
  lemma TransferTouchesOnlyParties(b: Balances, sender: AccountKey, recipient: AccountKey, amountKey: AccountKey)
    requires Transfer(b, sender, recipient, amountKey).Ok?
    ensures Transfer(b, sender, recipient, amountKey).value.Keys == b.Keys
    ensures forall k :: k in b && k != sender && k != recipient ==> Transfer(b, sender, recipient, amountKey).value[k] == b[k]
  {
  }

  /** With sufficient funds (S >= A) the sender loses exactly A without underflow and the recipient gains A modulo 2^64. */
  lemma TransferWithSufficientFunds(b: Balances, sender: AccountKey, recipient: AccountKey, amountKey: AccountKey)
    requires sender in b && recipient in b && amountKey in b && ZeroKey in b
    requires sender != recipient
    requires b[sender] >= b[amountKey]
    ensures var after := Transfer(b, sender, recipient, amountKey);
      && after.Ok?
      && after.value[sender] == b[sender] - b[amountKey]
      && after.value[recipient] == (b[recipient] + b[amountKey]) % U64_MODULUS
  {
    SubWithoutUnderflow(b[sender], b[amountKey]);
  }

  /**
   * With insufficient funds (S < A) the debit is the value Z stored under
   * the zero key: the sender becomes S - Z and the recipient R + Z, both
   * modulo 2^64; when Z is 0 the table is unchanged.
   */
  lemma TransferWithInsufficientFunds(b: Balances, sender: AccountKey, recipient: AccountKey, amountKey: AccountKey)
    requires sender in b && recipient in b && amountKey in b && ZeroKey in b
    requires sender != recipient
    requires b[sender] < b[amountKey]
    ensures var after := Transfer(b, sender, recipient, amountKey);
      && after.Ok?
      && after.value[sender] == WrappingSub(b[sender], b[ZeroKey])
      && after.value[recipient] == WrappingAdd(b[recipient], b[ZeroKey])
    ensures b[ZeroKey] == 0 ==> Transfer(b, sender, recipient, amountKey) == Ok(b)
  {
    if b[ZeroKey] == 0 {
      var after := Transfer(b, sender, recipient, amountKey).value;
      assert after[sender] == b[sender] && after[recipient] == b[recipient];
      assert after == b;
    }
  }

  /** The zero is a stored value, not a constant: if its row holds Z > S, an insufficient transfer wraps the sender's balance above S. */
  lemma StoredZeroCanWrapSender(b: Balances, sender: AccountKey, recipient: AccountKey, amountKey: AccountKey)
    requires sender in b && recipient in b && amountKey in b && ZeroKey in b
    requires sender != recipient
    requires b[sender] < b[amountKey] && b[sender] < b[ZeroKey]
    ensures Transfer(b, sender, recipient, amountKey).value[sender] == b[sender] - b[ZeroKey] + U64_MODULUS
    ensures Transfer(b, sender, recipient, amountKey).value[sender] > b[sender]
  {
    SubWithUnderflow(b[sender], b[ZeroKey]);
  }

  /** Between two distinct accounts a transfer keeps the sum of their balances modulo 2^64. */
  lemma TransferKeepsSum(b: Balances, sender: AccountKey, recipient: AccountKey, amountKey: AccountKey)
    requires Transfer(b, sender, recipient, amountKey).Ok?
    requires sender != recipient
    ensures var after := Transfer(b, sender, recipient, amountKey).value;
      (after[sender] + after[recipient]) % U64_MODULUS == (b[sender] + b[recipient]) % U64_MODULUS
  {
    MoveKeepsSum(b[sender], b[recipient], ClampedDebit(b[sender], b[amountKey], b[ZeroKey]));
  }

  /**
   * A transfer from an account to itself: the recipient row is written last,
   * from the balance read before the sender write, so the account ends at
   * S + debit. With sufficient funds and A > 0 the balance grows.
   */
  lemma TransferToSelf(b: Balances, key: AccountKey, amountKey: AccountKey)
    requires key in b && amountKey in b && ZeroKey in b
    ensures var debit := ClampedDebit(b[key], b[amountKey], b[ZeroKey]);
      Transfer(b, key, key, amountKey) == Ok(b[key := WrappingAdd(b[key], debit)])
    ensures b[key] >= b[amountKey] > 0 && b[key] + b[amountKey] < U64_MODULUS ==>
      Transfer(b, key, key, amountKey).value[key] == b[key] + b[amountKey] > b[key]
  {
    var debit := ClampedDebit(b[key], b[amountKey], b[ZeroKey]);
    assert Transfer(b, key, key, amountKey) == Ok(Move(b, key, key, debit));
    var once := b[key := WrappingSub(b[key], debit)];
    assert Move(b, key, key, debit) == once[key := WrappingAdd(b[key], debit)];
    assert once[key := WrappingAdd(b[key], debit)] == b[key := WrappingAdd(b[key], debit)];
  }

  // ---------------------------------------------------------------------
  // Withdraw


  /**
   * A withdrawal stores S - A when S >= A and S - Z otherwise, returns
   * exactly the value it stored, and changes no other row.
   */
  lemma WithdrawClamps(b: Balances, key: AccountKey, amountKey: AccountKey)
    requires key in b && amountKey in b && ZeroKey in b
    ensures var w := Withdraw(b, key, amountKey);
      && w.Ok?
      && w.value.balances == b[key := w.value.result]
      && (b[key] >= b[amountKey] ==> w.value.result == b[key] - b[amountKey])
      && (b[key] < b[amountKey] ==> w.value.result == WrappingSub(b[key], b[ZeroKey]))
      && (b[key] < b[amountKey] && b[ZeroKey] == 0 ==> w.value.balances == b && w.value.result == b[key])
  {
    var s, a := b[key], b[amountKey];
    if s >= a {
      SubWithoutUnderflow(s, a);
    } else if b[ZeroKey] == 0 {
      assert b[key := s] == b;
    }
  }

  /** The zero is a stored value, not a constant: if its row holds Z > S, an insufficient withdrawal wraps the balance above S and returns that wrapped value. */
  lemma StoredZeroCanWrapWithdrawal(b: Balances, key: AccountKey, amountKey: AccountKey)
    requires key in b && amountKey in b && ZeroKey in b
    requires b[key] < b[amountKey] && b[key] < b[ZeroKey]
    ensures var w := Withdraw(b, key, amountKey);
      && w.Ok?
      && w.value.result == b[key] - b[ZeroKey] + U64_MODULUS
      && w.value.result > b[key]
      && w.value.balances[key] == w.value.result
  {
    SubWithUnderflow(b[key], b[ZeroKey]);
  }

  // ---------------------------------------------------------------------
  // A concrete session

  /** A key whose 32 bytes all equal `fill`. */
  function FilledKey(fill: u8): (k: AccountKey)
    ensures k[0] == fill
  {
    seq(32, i => fill)
  }

  /**
   * Deposit 100 to A and 0 to B, with 0, 40, 1000 and 60 stored under the
   * zero key and three amount keys; transfer 40 from A to B (A = 60,
   * B = 40), then 1000 (nothing moves), then withdraw 60 from A (returns 0).
   */
  lemma {:induction false} Session()
    ensures
      var a, bk := FilledKey(1), FilledKey(2);
      var k40, k1000, k60 := FilledKey(3), FilledKey(4), FilledKey(5);
      var t0 := map[ZeroKey := 0, k40 := 40, k1000 := 1000, k60 := 60];
      var t1 := Deposit(Deposit(t0, a, 100), bk, 0);
      var t2 := Transfer(t1, a, bk, k40);
      && t2.Ok? && View(t2.value, a) == Ok(60) && View(t2.value, bk) == Ok(40)
      && var t3 := Transfer(t2.value, a, bk, k1000);
      && t3 == Ok(t2.value)
      && var w := Withdraw(t3.value, a, k60);
      && w.Ok? && w.value.result == 0 && View(w.value.balances, a) == Ok(0)
  {
    var a, bk := FilledKey(1), FilledKey(2);
    var k40, k1000, k60 := FilledKey(3), FilledKey(4), FilledKey(5);
    assert ZeroKey[0] == 0;
    var t0: Balances := map[ZeroKey := 0, k40 := 40, k1000 := 1000, k60 := 60];
    var t1 := Deposit(Deposit(t0, a, 100), bk, 0);
    assert t1 == t0[a := 100][bk := 0];
    var t2 := Transfer(t1, a, bk, k40);
    assert a[0] == 1 && bk[0] == 2 && k40[0] == 3 && k1000[0] == 4 && k60[0] == 5;
    TransferWithSufficientFunds(t1, a, bk, k40);
    var u2 := t1[a := 60][bk := 40];
    assert t2 == Ok(u2);
    TransferWithInsufficientFunds(u2, a, bk, k1000);
    WithdrawClamps(u2, a, k60);
    assert Withdraw(u2, a, k60) == Ok(Withdrawal(u2[a := 0], 0));
  }
}
