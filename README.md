# Confidential balance ledger (svm-fhe), modelled in Dafny

This project models the two cores of the svm-fhe repository.

**The ledger service** (`src/main.rs`) keeps one encrypted u64 balance per
32-byte account key in the `computations` table. It has four handlers:

- `handle_post` encrypts a value and upserts it. A deposit overwrites the
  balance; it does not add to it.
- `handle_transfer` looks up four rows: the sender, the recipient, the amount
  (stored under the key `transfer_value`) and a zero (stored under the
  all-zero key). It computes `ge` and `if_then_else` on ciphertexts to pick
  the debit, subtracts the debit from the sender and adds it to the
  recipient. Both rows are then written update-only, sender first.
- `handle_withdraw` does the same clamped subtraction on one account and
  returns the new balance decrypted.
- `handle_view` looks up one key and decrypts it.

An encrypted `FheUint64` is modelled as a wrapper around its plaintext.
`Decrypt` is the projection, and the homomorphic `ge`, `if_then_else`, `+`
and `-` are their plaintext meanings, with u64 wrap-around for `+` and `-`.
`LedgerSpec` states what each handler computes on decrypted balances. The
`Ledger` module holds a `Database` class whose `computations` map the store
helpers and handlers update in place. Each handler method is proved to leave
a table that decrypts to what the `LedgerSpec` function computes. The
lemmas about those functions state the ledger's properties.

Three behaviours of the code are kept as written:

- The amount and the zero of a transfer or withdrawal are both store
  lookups. Neither is a literal. An insufficient-funds transfer therefore
  moves whatever the all-zero key holds. That is nothing only when the row
  holds 0, and it wraps the sender's balance when that value exceeds the
  balance.
- When sender and recipient are the same key, the recipient write comes
  last and is computed from the balance read before either write. The
  account ends at S + debit.
- Deposits overwrite rather than add.

A reader might expect an insufficient transfer to change nothing, the amount
to come from the request, and the subtraction never to wrap. The code
instead moves the value stored under the all-zero key (src/main.rs:143,153),
reads the amount from the store (src/main.rs:142), and can wrap
(src/main.rs:154). The model follows the code.

**The on-chain program** (`blockchain/programs/blockchain/src/lib.rs`) is
modelled in its deterministic parts:

- `generate_ciphertext` is a loop that fills a 32-byte buffer from the
  clock, using wrapping multiplication, xor and truncation to `u8`.
- `deposit` and `encrypt` assign the fields of a `DepositInfo` account, and
  `view_balance` reads one back.
- `transfer` only logs.
- `withdraw` checks the upgrade authority, then credits the recipient with
  `checked_add` and debits the vault with `checked_sub`.

A failed instruction aborts its transaction, so in the model it leaves
every account unchanged. The vault and the recipient may be the same
account.

Files: `wrappers.dfy` (result types), `machine.dfy` (u64/i64/u8 arithmetic),
`fhe.dfy` (encrypted integers), `ledger_spec.dfy` (ledger semantics and
lemmas), `ledger.dfy` (store and handlers), `program.dfy` (on-chain
program).

## Model

| member | source | states |
|---|---|---|
| `Machine.I64AsU64` | blockchain/programs/blockchain/src/lib.rs:15 | `timestamp as u64` agrees with the i64 modulo 2^64 and is the identity on non-negative timestamps |
| `Machine.WrappingMul` | blockchain/programs/blockchain/src/lib.rs:14-15 | `wrapping_mul` differs from the true product by a multiple of 2^64, and is the product itself when that fits in a u64 |
| `Machine.Xor` | blockchain/programs/blockchain/src/lib.rs:13-15 | `^` on two u64 values yields a u64; xoring the result with the right operand again gives the left operand back; the result's low byte is the xor of the operands' low bytes |
| `Machine.XorBitsBelow` | blockchain/programs/blockchain/src/lib.rs:13-15 | the exclusive or of two n-bit numbers is an n-bit number, so `^` on two u64 values yields a u64 |
| `Machine.LowByte` | blockchain/programs/blockchain/src/lib.rs:13-16 | the `as u8` cast keeps the low eight bits: the value and the byte differ by a multiple of 256 |
| `Machine.SubWithoutUnderflow` | src/main.rs:154 | when the subtrahend is at most the minuend, the wrapping difference is the true difference |
| `Machine.SubWithUnderflow` | src/main.rs:154 | when the subtrahend exceeds the minuend, the difference wraps to 2^64 above the true difference, which is larger than the minuend |
| `Machine.MoveKeepsSum` | src/main.rs:152-155 | subtracting d from one u64 and adding it to another keeps their sum modulo 2^64 |
| `Fhe.Encrypt` | src/main.rs:109 | an encryption of v decrypts to v |
| `Fhe.Ge` | src/main.rs:152 | the encrypted comparison decrypts to true exactly when the left operand's plaintext is at least the right one's |
| `Fhe.IfThenElse` | src/main.rs:153 | the encrypted selection decrypts to the first operand's value when the condition decrypts to true, and to the second operand's value otherwise |
| `Fhe.Sub` | src/main.rs:154 | the encrypted difference decrypts to the plaintext difference modulo 2^64: exactly a - b when b <= a, and a - b + 2^64 when it underflows |
| `Fhe.Add` | src/main.rs:155 | the encrypted sum decrypts to the plaintext sum modulo 2^64, exactly the sum when it fits |
| `Fhe.ClampedSubtractionStaysInRange` | src/main.rs:152-154 | for every zero operand, the debit chosen by the encrypted `ge` / `if_then_else` pair decrypts to the requested amount when the balance covers it, and to the zero operand's value otherwise; when that zero does not exceed the balance, the subtraction does not wrap |
| `LedgerSpec.Upsert` | src/main.rs:293-307 | INSERT OR REPLACE leaves the key holding exactly the new value, adds the key if it was missing, and changes no other key |
| `LedgerSpec.UpdateExisting` | src/main.rs:263-279 | UPDATE never changes the key set (no row is created for a missing key); an existing key's row is overwritten and every other row is unchanged |
| `LedgerSpec.ClampedDebit` | src/main.rs:152-153 | the debit is the requested amount when the balance covers it and the stored zero otherwise, so it exceeds the balance only when the stored zero does |
| `LedgerSpec.Deposit` | src/main.rs:104-126 | after a deposit of v, viewing the key returns exactly v, and every other key views as before |
| `LedgerSpec.View` | src/main.rs:180-204 | view fails with NotFound exactly when the key has no row, and otherwise returns the stored plaintext |
| `LedgerSpec.Transfer` | src/main.rs:139-147 | a transfer fails exactly when the sender, recipient, amount or zero row is missing, and the error names a missing one of those keys |
| `LedgerSpec.Move` | src/main.rs:154-176 | the two writes keep the key set; the recipient ends at R + debit (mod 2^64), computed from the balance read before either write; a distinct sender ends at S - debit (mod 2^64); no other row changes |
| `LedgerSpec.Withdraw` | src/main.rs:213-236 | a withdrawal fails exactly when the account, amount or zero row is missing, naming a missing key; on success the table changes only at the key, which holds exactly the returned value; when the stored zero does not exceed the balance, the returned value does not exceed it either |
| `LedgerSpec.DepositOverwrites` | src/main.rs:104-126 | the table after a deposit does not depend on the key's earlier balance, nor on whether the key had a row |
| `LedgerSpec.TransferTouchesOnlyParties` | src/main.rs:166-176 | a successful transfer creates no row and leaves every key other than sender and recipient unchanged |
| `LedgerSpec.TransferWithSufficientFunds` | src/main.rs:152-176 | for distinct accounts with S >= A (A read from the amount key), the sender ends at S - A with no underflow and the recipient at (R + A) mod 2^64 |
| `LedgerSpec.TransferWithInsufficientFunds` | src/main.rs:143-155 | for distinct accounts with S < A, the debit is the value Z stored under the zero key: the sender ends at S - Z and the recipient at R + Z (mod 2^64); if Z = 0 the table is unchanged |
| `LedgerSpec.StoredZeroCanWrapSender` | src/main.rs:143-154 | if the zero row holds Z > S and S < A, the sender's balance wraps to S - Z + 2^64, which is above S |
| `LedgerSpec.TransferKeepsSum` | src/main.rs:152-155 | between distinct accounts, a successful transfer keeps sender + recipient modulo 2^64 |
| `LedgerSpec.TransferToSelf` | src/main.rs:166-176 | with sender = recipient the second write wins: the account ends at S + debit, so with S >= A > 0 (and no wrap) the balance grows by A |
| `LedgerSpec.WithdrawClamps` | src/main.rs:219-236 | a withdrawal stores S - A when S >= A and S - Z otherwise; it returns exactly the stored value and changes no other row; with S < A and Z = 0 nothing changes |
| `LedgerSpec.StoredZeroCanWrapWithdrawal` | src/main.rs:217-221 | if the zero row holds Z > S and S < A, the withdrawal stores and returns S - Z + 2^64, which is above S |
| `LedgerSpec.Session` | src/main.rs:104-237 | deposit 100 to A and 0 to B, with amounts 40, 1000, 60 and a zero row holding 0: transfer 40 gives A = 60, B = 40; transfer 1000 changes nothing; withdraw 60 returns 0 and A views as 0 |
| `Ledger.Database.constructor` | src/main.rs:248-251 | a freshly created `computations` table has no rows |
| `Ledger.Database.GetCiphertext` | src/main.rs:281-291 | returns the stored ciphertext when the key has a row and fails with NotFound otherwise |
| `Ledger.Database.InsertCiphertext` | src/main.rs:293-307 | the new table is the old one with the key's row set to the ciphertext, so its plaintexts are the upsert of the old ones |
| `Ledger.Database.UpdateCiphertext` | src/main.rs:263-279 | always reports success; overwrites the row only when the key has one, so the plaintexts are the update-only write of the old ones |
| `Ledger.HandlePost` | src/main.rs:104-126 | the key's row afterwards decrypts to the value; the row is created if missing and no other row changes; the decrypted table is the deposit of the old one |
| `Ledger.HandleTransfer` | src/main.rs:128-178 | succeeds exactly when the plaintext transfer does; on failure the table is untouched; on success it decrypts to the plaintext transfer's result; keys never change |
| `Ledger.HandleWithdraw` | src/main.rs:206-237 | succeeds exactly when the plaintext withdrawal does; on failure the table is untouched; on success it returns the withdrawal's result and decrypts to its table |
| `Ledger.HandleView` | src/main.rs:180-204 | returns the plaintext view of the key: success exactly when the key has a row, and the result is what the stored ciphertext decrypts to |
| `Program.GenerateCiphertext` | blockchain/programs/blockchain/src/lib.rs:7-20 | yields 32 bytes; byte i is the low byte of `slot*(1337+i) mod 2^64` xor `(timestamp as u64)*(7919+i) mod 2^64` |
| `Program.MixedByte` | blockchain/programs/blockchain/src/lib.rs:13-16 | byte i, computed as xor then truncation to u8, equals the xor of the low bytes of `slot*(1337+i) mod 2^64` and `(timestamp as u64)*(7919+i) mod 2^64` |
| `Program.MixedByteReadsSlotAndTimestamp` | blockchain/programs/blockchain/src/lib.rs:7-16 | two clocks with the same slot and Unix timestamp give the same bytes |
| `Program.ZeroClockGivesZeroBytes` | blockchain/programs/blockchain/src/lib.rs:11-19 | slot 0 and timestamp 0 give an all-zero value |
| `Program.DepositInfo.constructor` | blockchain/programs/blockchain/src/lib.rs:124-138 | a newly initialised deposit record has zero owner and zero value |
| `Program.Deposit` | blockchain/programs/blockchain/src/lib.rs:42-46 | the record's owner becomes the user and its value the clock-derived bytes |
| `Program.Encrypt` | blockchain/programs/blockchain/src/lib.rs:85-90 | the record's owner becomes the user and its value the input bytes, unchanged |
| `Program.ViewBalance` | blockchain/programs/blockchain/src/lib.rs:75-78 | returns the stored value bytes unchanged |
| `Program.Transfer` | blockchain/programs/blockchain/src/lib.rs:67-73 | succeeds and leaves both deposit records unchanged |
| `Program.Withdraw` | blockchain/programs/blockchain/src/lib.rs:95-118 | fails when there is no upgrade authority or the signer is not it; succeeds exactly when additionally recipient + amount fits in u64 and (for distinct accounts) the vault holds at least amount; a failure changes nothing; a success credits and debits exactly amount and keeps the sum; if vault is the recipient its balance is unchanged |

## Left out

- Encryption internals: key generation, `set_server_key` and the client and server key handles are not modelled. A ciphertext is a transparent wrapper around its plaintext.
- Fhe.Encrypt: the scheme's encryption is randomised, but the model's is deterministic. Two encryptions of one value are equal in the model and not in the scheme. Contracts about encryption and the homomorphic operations therefore state only what their results decrypt to. The store helpers' contracts (`Database.InsertCiphertext`, `Database.UpdateCiphertext`, `Database.GetCiphertext`) speak of the ciphertext they are given or hold, which is the same object in the scheme.
- Ciphertext compression and `bincode` serialization are treated as lossless. The table stores live ciphertexts, and failures of those steps (including the `unwrap` in `handle_post`) are not modelled.
- The `keys` and `operations` modules are not part of this model. `operations::get_prepared_ciphertext` is modelled as `Database.GetCiphertext`: a lookup that fails when the key is missing. Decode errors are not modelled.
- Store I/O: opening a connection and SQL or engine failures are not modelled, because the table is an in-memory map. In particular, a failure between the two writes of a transfer, which would leave the sender debited and the recipient not credited, is not modelled.
- `try_join!` runs the four lookups of a transfer concurrently. The model runs them sequentially (sender, recipient, amount, zero) and reports the first missing key in that order. All four lookups still happen before any write.
- The boundary layer's collapse of every error into HTTP 500 is not modelled. The model keeps `NotFound(key)`.
- HTTP routing, JSON decoding, `main`, directory creation and `println!` logging are I/O. They are left out.
- `init_db`: only the creation of a fresh, empty table is modelled, by `Database.constructor`. Its `CREATE TABLE IF NOT EXISTS` keeps an existing table's rows across restarts, and the model does not capture that. The handlers are specified for any table, whatever rows it already holds.
- The race on the process-wide server key between concurrent requests is left out. The model is sequential.
- `listner/fhe.ts` is an HTTP client that only marshals requests, so it is not modelled.
- Program.Deposit: the system-program transfer of `amount` lamports from the user to the vault, and the failure of `Clock::get()`, are not modelled.
- Solana account constraints (PDA seeds, Anchor `init` refusing an existing account, signer checks made by the runtime) are not modelled, nor are `msg!` logging, `initialize` and `emit_bytes` (which only log).
- `fhe8_add` is not modelled, because it stores `Hash::new_unique()`, which is not deterministic.
- Program.Withdraw: the `recipient` public-key argument only appears in a log message, so the model omits it.
- Program.Withdraw: the runtime's ownership rule on lamport debits is not modelled. The vault is a `SystemAccount` (blockchain/programs/blockchain/src/lib.rs:212), so the system program owns it, and only an account's owner program may lower its lamports. On-chain, any withdrawal of a positive amount between distinct accounts is therefore rejected after the instruction returns. The model's success case describes the instruction's own code only.
