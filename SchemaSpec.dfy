/**
 * The wallet store as a value, and the five write primitives of the schema
 * (schema.rs) as functions from the store before to the store after.
 *
 * Every primitive appends the transaction hash to one wallet's history list,
 * digests the extended list, and writes back one rewritten wallet under the
 * owner's address. The digest is a parameter: any function of the history
 * list will do, and nothing here depends on which one.
 */
module SchemaSpec {
  import opened Types

  /** The three keyed collections of the schema. */
  datatype Storage = Storage(
    wallets: map<Address, Wallet>,
    walletHistory: map<Address, seq<Hash>>,
    approvalTransactions: map<Hash, TxSendApprove>)

  /** The store of a new service: no wallets, no histories, no approvals. */
  const Empty: Storage := Storage(map[], map[], map[])

  /** The history list of `key`; a key never written reads as an empty list. */
  function History(st: Storage, key: Address): (h: seq<Hash>) {
    if key in st.walletHistory then st.walletHistory[key] else []
  }

  function WalletAt(st: Storage, address: Address): (r: Option<Wallet>) {
    if address in st.wallets then Some(st.wallets[address]) else None
  }

  /** `wallet` is the record currently stored under its owner's address. */
  predicate Current(st: Storage, wallet: Wallet) {
    wallet.owner in st.wallets && st.wallets[wallet.owner] == wallet
  }

  /** The record under `a` agrees with its key, its funds and its history. */
  predicate WalletConsistent(st: Storage, digest: seq<Hash> -> Hash, a: Address) {
    && a in st.wallets
    && var w := st.wallets[a];
    && w.owner == a
    && w.balanceFreezed <= w.balance
    && w.historyLen == |History(st, a)|
    && w.historyHash == digest(History(st, a))
  }

  /**
   * The ledger invariant: every wallet is keyed by its owner, its frozen
   * balance never exceeds its balance, and its history length and hash
   * describe exactly its history list; only existing wallets have a history.
   */
  predicate Valid(st: Storage, digest: seq<Hash> -> Hash) {
    && st.walletHistory.Keys <= st.wallets.Keys
    && forall a :: a in st.wallets ==> WalletConsistent(st, digest, a)
  }

  /** Nothing but the wallet and history stored under `key` differs. */
  ghost predicate OthersUnchanged(st: Storage, st': Storage, key: Address) {
    && (forall a :: a != key ==> WalletAt(st', a) == WalletAt(st, a))
    && (forall a :: a != key ==> History(st', a) == History(st, a))
  }

  /** `increase_wallet_balance`: credit `amount` to `wallet`, recording `transaction`. */
  function IncreaseWalletBalance(st: Storage, digest: seq<Hash> -> Hash, wallet: Wallet, amount: uint64, transaction: Hash): (st': Storage)
    requires wallet.balance + amount < U64_LIMIT
    ensures History(st', wallet.owner) == History(st, wallet.owner) + [transaction]
    ensures OthersUnchanged(st, st', wallet.owner)
    ensures st'.approvalTransactions == st.approvalTransactions
    ensures wallet.owner in st'.wallets
    ensures var w := st'.wallets[wallet.owner];
      && w.owner == wallet.owner && w.name == wallet.name
      && w.balance == wallet.balance + amount
      && w.balanceFreezed == wallet.balanceFreezed
      && w.historyLen == wallet.historyLen + 1
      && w.historyHash == digest(History(st', wallet.owner))
    ensures Valid(st, digest) && Current(st, wallet) ==> Valid(st', digest)
  {
    var history := History(st, wallet.owner) + [transaction];
    var updated := wallet.SetBalance(wallet.balance + amount, digest(history));
    Storage(st.wallets[updated.owner := updated], st.walletHistory[wallet.owner := history], st.approvalTransactions)
  }

  /**
   * `decrease_wallet_balance`: debit `amount` from `wallet`, recording
   * `transaction`. The source subtracts without a check, so the caller must
   * guarantee that the balance covers the amount.
   */
  function DecreaseWalletBalance(st: Storage, digest: seq<Hash> -> Hash, wallet: Wallet, amount: uint64, transaction: Hash): (st': Storage)
    requires amount <= wallet.balance
    ensures History(st', wallet.owner) == History(st, wallet.owner) + [transaction]
    ensures OthersUnchanged(st, st', wallet.owner)
    ensures st'.approvalTransactions == st.approvalTransactions
    ensures wallet.owner in st'.wallets
    ensures var w := st'.wallets[wallet.owner];
      && w.owner == wallet.owner && w.name == wallet.name
      && w.balance == wallet.balance - amount
      && w.balanceFreezed == wallet.balanceFreezed
      && w.historyLen == wallet.historyLen + 1
      && w.historyHash == digest(History(st', wallet.owner))
    // spending only unfrozen funds keeps the frozen part covered
    ensures Valid(st, digest) && Current(st, wallet) && amount <= wallet.balance - wallet.balanceFreezed
      ==> Valid(st', digest)
  {
    var history := History(st, wallet.owner) + [transaction];
    var updated := wallet.SetBalance(wallet.balance - amount, digest(history));
    Storage(st.wallets[updated.owner := updated], st.walletHistory[wallet.owner := history], st.approvalTransactions)
  }

  /**
   * `create_wallet`: store a fresh wallet under `key` with the initial
   * balance, nothing frozen, and the history extended by `transaction`.
   */
  function CreateWallet(st: Storage, digest: seq<Hash> -> Hash, key: Address, name: string, transaction: Hash): (st': Storage)
    ensures History(st', key) == History(st, key) + [transaction]
    ensures OthersUnchanged(st, st', key)
    ensures st'.approvalTransactions == st.approvalTransactions
    ensures key in st'.wallets
    ensures var w := st'.wallets[key];
      && w.owner == key && w.name == name
      && w.balance == INITIAL_BALANCE && w.balanceFreezed == 0
      && w.historyLen == |History(st', key)|
      && w.historyHash == digest(History(st', key))
    // on a key without a wallet the new history holds exactly this transaction
    ensures Valid(st, digest) && key !in st.wallets ==>
      Valid(st', digest) && History(st', key) == [transaction] && st'.wallets[key].historyLen == 1
  {
    var history := History(st, key) + [transaction];
    var created := Wallet(key, name, INITIAL_BALANCE, 0, |history|, digest(history));
    Storage(st.wallets[key := created], st.walletHistory[key := history], st.approvalTransactions)
  }

  /** `change_wallet_balance_freezed`: freeze a further `amount` of `wallet`, recording `transaction`. */
  function ChangeWalletBalanceFreezed(st: Storage, digest: seq<Hash> -> Hash, wallet: Wallet, amount: uint64, transaction: Hash): (st': Storage)
    requires wallet.balanceFreezed + amount < U64_LIMIT
    ensures History(st', wallet.owner) == History(st, wallet.owner) + [transaction]
    ensures OthersUnchanged(st, st', wallet.owner)
    ensures st'.approvalTransactions == st.approvalTransactions
    ensures wallet.owner in st'.wallets
    ensures var w := st'.wallets[wallet.owner];
      && w.owner == wallet.owner && w.name == wallet.name
      && w.balance == wallet.balance
      && w.balanceFreezed == wallet.balanceFreezed + amount
      && w.historyLen == wallet.historyLen + 1
      && w.historyHash == digest(History(st', wallet.owner))
    // freezing no more than the available funds keeps the frozen part covered
    ensures Valid(st, digest) && Current(st, wallet) && wallet.balanceFreezed + amount <= wallet.balance
      ==> Valid(st', digest)
  {
    var history := History(st, wallet.owner) + [transaction];
    var updated := wallet.SetBalanceFreezed(wallet.balanceFreezed + amount, digest(history));
    Storage(st.wallets[updated.owner := updated], st.walletHistory[wallet.owner := history], st.approvalTransactions)
  }

  /**
   * `create_approve_transaction`: freeze `amount` of the sender's wallet and
   * store a pending approval under `txHash`. The stored record carries a
   * freshly drawn seed, given here as `freshSeed`.
   */
  function CreateApproveTransaction(
    st: Storage, digest: seq<Hash> -> Hash, wallet: Wallet, amount: uint64,
    to: Address, approver: Address, txHash: Hash, freshSeed: uint64): (st': Storage)
    requires wallet.balanceFreezed + amount < U64_LIMIT
    ensures st'.wallets == ChangeWalletBalanceFreezed(st, digest, wallet, amount, txHash).wallets
    ensures st'.walletHistory == ChangeWalletBalanceFreezed(st, digest, wallet, amount, txHash).walletHistory
    ensures st'.approvalTransactions == st.approvalTransactions[txHash := TxSendApprove(to, approver, amount, freshSeed)]
    ensures Valid(st, digest) && Current(st, wallet) && wallet.balanceFreezed + amount <= wallet.balance
      ==> Valid(st', digest)
  {
    var frozen := ChangeWalletBalanceFreezed(st, digest, wallet, amount, txHash);
    frozen.(approvalTransactions := frozen.approvalTransactions[txHash := TxSendApprove(to, approver, amount, freshSeed)])
  }

  /* ---------- Total funds ---------- */

  ghost function PickAddress(wallets: map<Address, Wallet>): (a: Address)
    requires wallets != map[]
    ensures a in wallets
  {
    var a :| a in wallets; a
  }

  /** The sum of all balances (as an unbounded integer). */
  ghost function TotalBalance(wallets: map<Address, Wallet>): (total: int)
    decreases wallets.Keys
  {
    if wallets == map[] then 0
    else
      var a := PickAddress(wallets);
      wallets[a].balance + TotalBalance(wallets - {a})
  }

  /** The total splits into any one wallet's balance and the rest. */
  lemma {:induction false} TotalBalanceSplit(wallets: map<Address, Wallet>, k: Address)
    requires k in wallets
    ensures TotalBalance(wallets) == wallets[k].balance + TotalBalance(wallets - {k})
    decreases wallets.Keys
  {
    var a := PickAddress(wallets);
    if a != k {
      var both := wallets - {a} - {k};
      assert wallets - {k} - {a} == both;
      TotalBalanceSplit(wallets - {a}, k);
      TotalBalanceSplit(wallets - {k}, a);
    }
  }

  /** Replacing one existing wallet changes the total by the change of its balance. */
  lemma TotalBalanceUpdate(wallets: map<Address, Wallet>, k: Address, w: Wallet)
    requires k in wallets
    ensures TotalBalance(wallets[k := w]) == TotalBalance(wallets) - wallets[k].balance + w.balance
  {
    TotalBalanceSplit(wallets, k);
    TotalBalanceSplit(wallets[k := w], k);
    assert wallets[k := w] - {k} == wallets - {k};
  }

  /** Adding a wallet under a new key adds its balance to the total. */
  lemma TotalBalanceInsert(wallets: map<Address, Wallet>, k: Address, w: Wallet)
    requires k !in wallets
    ensures TotalBalance(wallets[k := w]) == TotalBalance(wallets) + w.balance
  {
    TotalBalanceSplit(wallets[k := w], k);
    assert wallets[k := w] - {k} == wallets;
  }
}
