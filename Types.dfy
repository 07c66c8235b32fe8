/**
 * Value types shared by the wallet schema and the transaction handlers of the
 * cryptocurrency service: addresses, hashes, 64-bit amounts, the wallet record
 * and the stored approval record.
 */
module Types {

  /** Rust's `u64`: every amount, balance and seed. */
  type uint64 = x: int | 0 <= x < 0x1_0000_0000_0000_0000

  /** One past the largest `u64`; an addition reaching it overflows. */
  const U64_LIMIT: int := 0x1_0000_0000_0000_0000

  type byte = bv8

  /** A 32-byte hash: transaction hashes and history digests. */
  type Hash = s: seq<byte> | |s| == 32 witness seq(32, _ => 0 as byte)

  /** The address of a caller, which keys wallets and histories. */
  type Address = s: seq<byte> | |s| == 32 witness seq(32, _ => 0 as byte)

  datatype Option<+T> = None | Some(value: T)

  /** Balance of a newly created wallet (a service constant). */
  const INITIAL_BALANCE: uint64 := 100

  /**
   * A wallet as stored in the `wallets` map. `balanceFreezed` is the part of
   * `balance` reserved by pending approval transactions; `historyLen` and
   * `historyHash` summarise the wallet's history list.
   */
  datatype Wallet = Wallet(
    owner: Address,
    name: string,
    balance: uint64,
    balanceFreezed: uint64,
    historyLen: nat,
    historyHash: Hash)
  {
    /** `Wallet::set_balance` (assumed): a new balance and history hash, one more history entry. */
    function SetBalance(newBalance: uint64, newHistoryHash: Hash): (w: Wallet) {
      this.(balance := newBalance, historyLen := historyLen + 1, historyHash := newHistoryHash)
    }

    /** `Wallet::set_balance_freezed` (assumed): a new frozen balance and history hash, one more history entry. */
    function SetBalanceFreezed(newFreezed: uint64, newHistoryHash: Hash): (w: Wallet) {
      this.(balanceFreezed := newFreezed, historyLen := historyLen + 1, historyHash := newHistoryHash)
    }
  }

  /**
   * `TxSendApprove`: both the argument of the approval transaction and the
   * pending approval record stored under the transaction's hash.
   */
  datatype TxSendApprove = TxSendApprove(to: Address, approver: Address, amount: uint64, seed: uint64)
}
