/**
 * The deterministic part of the on-chain settlement program: the
 * pseudo-ciphertext derived from the clock, the `DepositInfo` records that
 * `deposit` and `encrypt` fill in, `view_balance`, the logging-only
 * `transfer`, and the lamport bookkeeping of `withdraw`.
 *
 * A failed instruction (a `require!` that does not hold, or a panic from
 * `unwrap`) aborts the whole transaction, so the runtime discards every
 * write it made; the model returns a failure and leaves all accounts as
 * they were.
 */
module Program {
  import opened Machine
  import opened Wrappers

  type Pubkey = Bytes32

  /** Solana's `Clock` sysvar. */
  datatype Clock = Clock(slot: u64, epochStartTimestamp: i64, epoch: u64, leaderScheduleEpoch: u64, unixTimestamp: i64)

  /**
   * Byte `i` of `generate_ciphertext(clock)`: the low eight bits of
   * `slot * (1337 + i)` xor `(unix_timestamp as u64) * (7919 + i)`, both
   * products wrapping modulo 2^64. Only the low byte of each product
   * matters: the byte is the exclusive or of the two products' low bytes.
   */
  function MixedByte(clock: Clock, i: nat): (r: u8)
    requires i < 32
    ensures r == XorBits(LowByte(WrappingMul(clock.slot, 1337 + i)), LowByte(WrappingMul(I64AsU64(clock.unixTimestamp), 7919 + i)))
  {
    LowByte(Xor(WrappingMul(clock.slot, 1337 + i), WrappingMul(I64AsU64(clock.unixTimestamp), 7919 + i)))
  }

  /** `generate_ciphertext`: fills a 32-byte buffer, byte by byte, from the slot and the timestamp. */
  method GenerateCiphertext(clock: Clock) returns (value: Bytes32)
    ensures forall i :: 0 <= i < 32 ==> value[i] == MixedByte(clock, i)
  {
    var timestamp := clock.unixTimestamp;
    var slot := clock.slot;
    var buffer := new u8[32](_ => 0);
    for i := 0 to 32
      invariant forall j :: 0 <= j < i ==> buffer[j] == MixedByte(clock, j)
    {
      var mixed := LowByte(Xor(WrappingMul(slot, 1337 + i), WrappingMul(I64AsU64(timestamp), 7919 + i)));
      buffer[i] := mixed;
    }
    value := buffer[..];
  }

  /** The bytes depend on the slot and the Unix timestamp of the clock and on nothing else. */
  lemma MixedByteReadsSlotAndTimestamp(c1: Clock, c2: Clock, i: nat)
    requires i < 32
    requires c1.slot == c2.slot && c1.unixTimestamp == c2.unixTimestamp
    ensures MixedByte(c1, i) == MixedByte(c2, i)
  {
  }

  /** At slot 0 and timestamp 0 every byte is zero. */
  lemma ZeroClockGivesZeroBytes(clock: Clock, i: nat)
    requires i < 32
    requires clock.slot == 0 && clock.unixTimestamp == 0
    ensures MixedByte(clock, i) == 0
  {
    assert WrappingMul(0, 1337 + i) == 0 && WrappingMul(I64AsU64(0), 7919 + i) == 0;
    assert Xor(0, 0) == 0;
  }

  /** The `DepositInfo` account: an owner and 32 bytes of value. */
  class DepositInfo {
    var owner: Pubkey
    var value: Bytes32

    /** Anchor's `init`: a new account whose data is all zero. */
    constructor ()
      ensures owner == ZERO_BYTES32 && value == ZERO_BYTES32
    {
      owner := ZERO_BYTES32;
      value := ZERO_BYTES32;
    }
  }

  /** `deposit`, without its system-program transfer: records the user as owner and the clock-derived bytes as value. */
  method Deposit(depositInfo: DepositInfo, user: Pubkey, clock: Clock)
    modifies depositInfo
    ensures depositInfo.owner == user
    ensures forall i :: 0 <= i < 32 ==> depositInfo.value[i] == MixedByte(clock, i)
  {
    var value := GenerateCiphertext(clock);
    depositInfo.owner := user;
    depositInfo.value := value;
  }

  /** `encrypt`: stores the given bytes unchanged, with the user as owner. */
  method Encrypt(resultInfo: DepositInfo, user: Pubkey, value: Bytes32)
    modifies resultInfo
    ensures resultInfo.owner == user && resultInfo.value == value
  {
    resultInfo.owner := user;
    resultInfo.value := value;
  }

  /** `view_balance`: returns the stored value bytes as they are. */
  method ViewBalance(depositInfo: DepositInfo) returns (r: Bytes32)
    ensures r == depositInfo.value
  {
    r := depositInfo.value;
  }

  /** `transfer`: only logs; it succeeds and writes neither deposit record. */
  method Transfer(senderDeposit: DepositInfo, recipientDeposit: DepositInfo, user: Pubkey, amount: Bytes32, recipient: Pubkey)
    returns (r: Outcome<ProgramError>)
    ensures r == Pass
    ensures unchanged(senderDeposit, recipientDeposit)
  {
    r := Pass;
  }

  /** An account's balance in lamports. */
  class LamportAccount {
    var lamports: u64

    constructor (lamports: u64)
      ensures this.lamports == lamports
    {
      this.lamports := lamports;
    }
  }

  /** Why `withdraw` aborts: the failed `require!`, or the panic of an `unwrap`. */
  datatype ProgramError =
    | IncorrectProgramId
    | NoUpgradeAuthority
    | RecipientOverflow
    | VaultUnderflow

  /**
   * `withdraw`: only the program's upgrade authority may sign; the recipient
   * is credited with `checked_add`, then the vault debited with
   * `checked_sub`. `vault` and `recipient` may be the same account.
   */
  method Withdraw(vault: LamportAccount, owner: Pubkey, recipient: LamportAccount, upgradeAuthority: Option<Pubkey>, amount: u64)
    returns (r: Outcome<ProgramError>)
    modifies vault, recipient
    ensures upgradeAuthority.None? ==> r == Fail(NoUpgradeAuthority)
    ensures upgradeAuthority.Some? && upgradeAuthority.value != owner ==> r == Fail(IncorrectProgramId)
    ensures r.Pass? <==>
      && upgradeAuthority == Some(owner)
      && old(recipient.lamports) + amount <= U64_MAX
      && (vault != recipient ==> amount <= old(vault.lamports))
    ensures r.Fail? ==> recipient.lamports == old(recipient.lamports) && vault.lamports == old(vault.lamports)
    ensures r.Pass? && vault != recipient ==>
      && recipient.lamports == old(recipient.lamports) + amount
      && vault.lamports == old(vault.lamports) - amount
      && recipient.lamports + vault.lamports == old(recipient.lamports) + old(vault.lamports)
    ensures r.Pass? && vault == recipient ==> vault.lamports == old(vault.lamports)
  {
    if upgradeAuthority.None? {
      return Fail(NoUpgradeAuthority);
    }
    if owner != upgradeAuthority.value {
      return Fail(IncorrectProgramId);
    }
    var recipientStartingLamports := recipient.lamports;
    if recipientStartingLamports + amount > U64_MAX {
      return Fail(RecipientOverflow);
    }
    recipient.lamports := recipientStartingLamports + amount;
    var vaultLamports := vault.lamports;
    if vaultLamports < amount {
      // the panic aborts the transaction, which undoes the credit above
      recipient.lamports := recipientStartingLamports;
      return Fail(VaultUnderflow);
    }
    vault.lamports := vaultLamports - amount;
    r := Pass;
  }
}
