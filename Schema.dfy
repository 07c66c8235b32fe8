/**
 * `SchemaImpl` (schema.rs): the wallets map, the per-wallet history lists and
 * the pending approvals, updated in place by the five write primitives.
 * Each primitive is proved to leave exactly the store its specification in
 * SchemaSpec describes.
 */
module Schema {
  import opened Types
  import SchemaSpec

  class SchemaImpl {
    /** Wallets by owner address. */
    var wallets: map<Address, Wallet>
    /** History list of transaction hashes per wallet address. */
    var walletHistory: map<Address, seq<Hash>>
    /** Pending approval records by the hash of the transaction that made them. */
    var approvalTransactions: map<Hash, TxSendApprove>
    /** The storage's content hash of a list. */
    const digest: seq<Hash> -> Hash

    /** The store as a value. */
    ghost function State(): (st: SchemaSpec.Storage)
      reads this
    {
      SchemaSpec.Storage(wallets, walletHistory, approvalTransactions)
    }

    ghost predicate Valid()
      reads this
    {
      SchemaSpec.Valid(State(), digest)
    }

    /** A schema over an empty store. */
    constructor (digest: seq<Hash> -> Hash)
      ensures State() == SchemaSpec.Empty && this.digest == digest
      ensures Valid()
    {
      wallets, walletHistory, approvalTransactions := map[], map[], map[];
      this.digest := digest;
    }

    /** `wallet`: the wallet stored under `address`, if any; reads only. */
    function GetWallet(address: Address): (r: Option<Wallet>)
      reads this
      ensures r.Some? <==> address in wallets
      ensures r.Some? ==> r.value == wallets[address]
    {
      if address in wallets then Some(wallets[address]) else None
    }

    /** The history list of `key`, empty for a key never written. */
    function HistoryOf(key: Address): (h: seq<Hash>)
      reads this
    {
      SchemaSpec.History(SchemaSpec.Storage(wallets, walletHistory, approvalTransactions), key)
    }

    method IncreaseWalletBalance(wallet: Wallet, amount: uint64, transaction: Hash)
      requires wallet.balance + amount < U64_LIMIT
      modifies this
      ensures State() == SchemaSpec.IncreaseWalletBalance(old(State()), digest, wallet, amount, transaction)
    {
      var history := HistoryOf(wallet.owner);
      history := history + [transaction];
      walletHistory := walletHistory[wallet.owner := history];
      var historyHash := digest(history);
      var balance := wallet.balance;
      var updated := wallet.SetBalance(balance + amount, historyHash);
      var walletKey := updated.owner;
      wallets := wallets[walletKey := updated];
    }

    method DecreaseWalletBalance(wallet: Wallet, amount: uint64, transaction: Hash)
      requires amount <= wallet.balance
      modifies this
      ensures State() == SchemaSpec.DecreaseWalletBalance(old(State()), digest, wallet, amount, transaction)
    {
      var history := HistoryOf(wallet.owner);
      history := history + [transaction];
      walletHistory := walletHistory[wallet.owner := history];
      var historyHash := digest(history);
      var balance := wallet.balance;
      var updated := wallet.SetBalance(balance - amount, historyHash);
      var walletKey := updated.owner;
      wallets := wallets[walletKey := updated];
    }

    method CreateWallet(key: Address, name: string, transaction: Hash)
      modifies this
      ensures State() == SchemaSpec.CreateWallet(old(State()), digest, key, name, transaction)
    {
      var history := HistoryOf(key);
      history := history + [transaction];
      walletHistory := walletHistory[key := history];
      var historyHash := digest(history);
      var created := Wallet(key, name, INITIAL_BALANCE, 0, |history|, historyHash);
      wallets := wallets[key := created];
    }

    method ChangeWalletBalanceFreezed(wallet: Wallet, amount: uint64, transaction: Hash)
      requires wallet.balanceFreezed + amount < U64_LIMIT
      modifies this
      ensures State() == SchemaSpec.ChangeWalletBalanceFreezed(old(State()), digest, wallet, amount, transaction)
    {
      var history := HistoryOf(wallet.owner);
      history := history + [transaction];
      walletHistory := walletHistory[wallet.owner := history];
      var historyHashIncrease := digest(history);
      var balanceFreezed := wallet.balanceFreezed;
      var updated := wallet.SetBalanceFreezed(balanceFreezed + amount, historyHashIncrease);
      var walletKey := updated.owner;
      wallets := wallets[walletKey := updated];
    }

    /** `freshSeed` stands for the random seed `TxSendApprove::new` draws. */
    method CreateApproveTransaction(wallet: Wallet, amount: uint64, to: Address, approver: Address, txHash: Hash, freshSeed: uint64)
      requires wallet.balanceFreezed + amount < U64_LIMIT
      modifies this
      ensures State() == SchemaSpec.CreateApproveTransaction(old(State()), digest, wallet, amount, to, approver, txHash, freshSeed)
    {
      ChangeWalletBalanceFreezed(wallet, amount, txHash);
      var transaction := TxSendApprove(to, approver, amount, freshSeed);
      approvalTransactions := approvalTransactions[txHash := transaction];
    }
  }
}
