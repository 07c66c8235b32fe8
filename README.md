# Wallet ledger of the Exonum cryptocurrency service, in Dafny

This project models the ledger core of the advanced cryptocurrency example service:

- the wallet schema (`SchemaImpl`), whose state is three keyed collections:
  - wallets by owner address;
  - per-wallet history lists of transaction hashes;
  - pending approval records keyed by transaction hash;
- the four transaction handlers (`transfer`, `issue`, `create_wallet`, `tx_send_approve`), dispatched by interface method ids 0 to 3.

Files:

- `Types.dfy` holds the value types: `uint64`, 32-byte `Address` and `Hash`, the `Wallet` record and the `TxSendApprove` record.
- `SchemaSpec.dfy` specifies the five schema write primitives as functions on a `Storage` value. It also defines the ledger invariant `Valid` and the sum of all balances.
- `Schema.dfy` holds the class `SchemaImpl`. Its `map` fields are updated in place by the five primitives, and each method is proved to produce exactly the store its `SchemaSpec` function describes.
- `TransactionsSpec.dfy` specifies the four handlers and the dispatcher as functions from the store before a call to the call's output and the store after it. It also proves:
  - the order of the checks, and that a rejected call writes nothing;
  - what an accepted call does to balances, frozen balances, histories and the total of all balances;
  - that the invariant holds in every store reachable from the empty one;
  - that histories only grow at their end.
- `Transactions.dfy` holds the handlers as methods. Each runs its checks, then calls the primitives on a `SchemaImpl`, and is proved equal to its specification.
- `Scenarios.dfy` holds concrete runs: escrow followed by transfers, a duplicate wallet, issue, and a self-transfer.

The history digest (the storage's `object_hash` of a list) is a parameter `digest: seq<Hash> -> Hash`. Nothing is assumed about it beyond being a function of the exact list.

The ledger invariant `SchemaSpec.Valid` says, for every stored wallet:

- it is keyed by its owner;
- `balanceFreezed <= balance`;
- `historyLen` is the length of its history list, and `historyHash` is the digest of that list.

It also says that only existing wallets have a history.

Unchecked `u64` arithmetic is handled as follows:

- The sender's available funds are `balance - balance_freezed`. If this subtraction would underflow, the call ends in the error `Panic`.
- If the receiver's or the issuer's new balance would overflow, the call also ends in `Panic`.

A Rust panic aborts the transaction, and the runtime discards its writes. The model therefore returns `Panic` and leaves the store unchanged. In a valid store the underflow cannot happen (`TransferPanicsOnlyOnOverflow`, `TxSendApproveNeverPanics`).

The schema primitives add and subtract `u64` values without checks (schema.rs:73, :84, :105). The model therefore gives them preconditions that rule out overflow and underflow, and gives the handlers the `Panic` outcome. `extract_info` (transactions.rs:236-242) raises `UnauthorizedCaller` only when the call has no transaction hash, and so does the model.

## Model

| member | source | states |
|---|---|---|
| `Schema.SchemaImpl.GetWallet` | examples/cryptocurrency-advanced/backend/src/schema.rs:57-59 | A read-only lookup: it gives the stored wallet exactly when one exists under the address. |
| `Schema.SchemaImpl.constructor` | examples/cryptocurrency-advanced/backend/src/schema.rs:33-50 | A schema over a fresh store: no wallets, histories or approvals. That store satisfies the ledger invariant. |
| `SchemaSpec.IncreaseWalletBalance` | examples/cryptocurrency-advanced/backend/src/schema.rs:68-76 | The new balance is the old balance plus `amount`. The owner's history gains exactly the transaction hash at its end. The stored hash is the digest of the extended list, and the history length grows by one. Name and frozen balance are kept. No other wallet, history or approval changes. Applied to the stored record of a valid store, the invariant is kept. |
| `Schema.SchemaImpl.IncreaseWalletBalance` | examples/cryptocurrency-advanced/backend/src/schema.rs:68-76 | The in-place update leaves exactly the store given by `SchemaSpec.IncreaseWalletBalance`. |
| `SchemaSpec.DecreaseWalletBalance` | examples/cryptocurrency-advanced/backend/src/schema.rs:79-87 | Requires `amount <= balance`, because the source subtracts unchecked. The new balance is the old balance minus `amount`. One history entry is appended and digested. Frozen balance and name are unchanged, and nothing else is written. Debiting only available funds of the stored record keeps the invariant. |
| `Schema.SchemaImpl.DecreaseWalletBalance` | examples/cryptocurrency-advanced/backend/src/schema.rs:79-87 | The in-place update leaves exactly the store given by `SchemaSpec.DecreaseWalletBalance`. |
| `SchemaSpec.CreateWallet` | examples/cryptocurrency-advanced/backend/src/schema.rs:90-96 | Stores a wallet with owner `key`, the given name, `INITIAL_BALANCE` and nothing frozen. Its history length is that of the history after the push, and its hash is the digest of that history. Nothing else is written. For a key without a wallet in a valid store, the history is exactly `[transaction]`, the length is 1 and the invariant is kept. |
| `Schema.SchemaImpl.CreateWallet` | examples/cryptocurrency-advanced/backend/src/schema.rs:90-96 | The in-place update leaves exactly the store given by `SchemaSpec.CreateWallet`. |
| `SchemaSpec.ChangeWalletBalanceFreezed` | examples/cryptocurrency-advanced/backend/src/schema.rs:99-109 | The frozen balance rises by `amount` and the balance is unchanged. Exactly one history entry is appended and digested, and nothing else is written. Freezing no more than the available funds of the stored record of a valid store keeps the invariant. |
| `Schema.SchemaImpl.ChangeWalletBalanceFreezed` | examples/cryptocurrency-advanced/backend/src/schema.rs:99-109 | The in-place update leaves exactly the store given by `SchemaSpec.ChangeWalletBalanceFreezed`. |
| `SchemaSpec.CreateApproveTransaction` | examples/cryptocurrency-advanced/backend/src/schema.rs:113-120 | Wallets and histories are exactly those left by the freeze. The approvals map gains, under `tx_hash`, a record of `to`, `approver`, `amount` and a fresh seed (not the argument's seed). Freezing no more than the available funds of the stored record of a valid store keeps the invariant. |
| `Schema.SchemaImpl.CreateApproveTransaction` | examples/cryptocurrency-advanced/backend/src/schema.rs:113-120 | The in-place update leaves exactly the store given by `SchemaSpec.CreateApproveTransaction`. |
| `TransactionsSpec.ExtractInfo` | examples/cryptocurrency-advanced/backend/src/transactions.rs:236-242 | Gives the caller and the transaction hash exactly when the context has a hash. Otherwise it gives `UnauthorizedCaller`. |
| `TransactionsSpec.TransferSpec` | examples/cryptocurrency-advanced/backend/src/transactions.rs:161-180 | A rejected call leaves the store unchanged. Each outcome holds exactly under its condition, in the source's order: `UnauthorizedCaller`; `SenderSameAsReceiver` whenever caller equals `to`, whatever the balances; `SenderNotFound`; `ReceiverNotFound`; `InsufficientCurrencyAmount` exactly when `balance - frozen < amount`; `Panic` on u64 underflow or overflow; success otherwise. |
| `TransactionsSpec.IssueSpec` | examples/cryptocurrency-advanced/backend/src/transactions.rs:182-193 | A rejected call leaves the store unchanged. The outcome is `UnauthorizedCaller` without a hash, `ReceiverNotFound` exactly when the caller has no wallet, `Panic` exactly when the new balance would overflow, and success otherwise. |
| `TransactionsSpec.CreateWalletSpec` | examples/cryptocurrency-advanced/backend/src/transactions.rs:195-206 | The call fails `WalletAlreadyExists` exactly when the caller has a wallet, and then changes nothing. Otherwise it succeeds, and the caller's wallet exists with the given name and the caller as owner. |
| `TransactionsSpec.TxSendApproveSpec` | examples/cryptocurrency-advanced/backend/src/transactions.rs:208-233 | A rejected call leaves the store unchanged. The checks run in order: self-transfer, sender, receiver, approver, then available funds. Each error holds exactly under its condition. |
| `TransactionsSpec.TransferSucceeds` | examples/cryptocurrency-advanced/backend/src/transactions.rs:173-178 | In a valid store, a successful transfer lowers the sender's balance and raises the receiver's by `amount`. Both names and both frozen balances are unchanged, and the sender keeps `frozen <= balance`. Both histories gain the transaction hash. Other wallets, other histories and the approvals are untouched. The total of all balances is preserved, and the store stays valid. |
| `TransactionsSpec.IssueSucceeds` | examples/cryptocurrency-advanced/backend/src/transactions.rs:186-189 | A successful issue raises the caller's balance by `amount` and keeps its name and frozen balance. It appends to the caller's history and touches no other wallet, history or approval. The total grows by exactly `amount`, and the store stays valid. |
| `TransactionsSpec.CreateWalletSucceeds` | examples/cryptocurrency-advanced/backend/src/transactions.rs:199-202 | A successful create stores `Wallet(caller, name, INITIAL_BALANCE, 0, 1, digest([tx]))` with history `[tx]`. No other wallet, history or approval changes, the total grows by `INITIAL_BALANCE`, and the store stays valid. |
| `TransactionsSpec.TxSendApproveSucceeds` | examples/cryptocurrency-advanced/backend/src/transactions.rs:226-231 | On success, the sender's name and balance are unchanged and its frozen balance rises by `amount`, still at most the balance. The wallet of `to` is unchanged, so no funds reach it. No other wallet or history changes. The approval is stored under the transaction hash, the total is preserved, and the store stays valid. |
| `TransactionsSpec.TransferPanicsOnlyOnOverflow` | examples/cryptocurrency-advanced/backend/src/transactions.rs:173-177 | In a valid store, `balance - balance_freezed` never underflows. A transfer panics only when the receiver's balance would overflow. |
| `TransactionsSpec.TxSendApproveNeverPanics` | examples/cryptocurrency-advanced/backend/src/transactions.rs:227-230 | In a valid store, `balance - freezed_balance` never underflows, and the freeze cannot overflow. |
| `TransactionsSpec.MethodId` | examples/cryptocurrency-advanced/backend/src/transactions.rs:144-155 | Interface method ids lie in 0 to 3. |
| `TransactionsSpec.MethodIdNamesOneHandler` | examples/cryptocurrency-advanced/backend/src/transactions.rs:144-155 | Two calls share an id exactly when they go to the same handler. |
| `TransactionsSpec.Execute` | examples/cryptocurrency-advanced/backend/src/transactions.rs:158-160 | Dispatch returns the handler's result unchanged. A rejected call of any kind writes nothing. Every handler fails `UnauthorizedCaller` when the context has no transaction hash. |
| `TransactionsSpec.ExecutePreservesValid` | examples/cryptocurrency-advanced/backend/src/transactions.rs:158-234 | Every call, accepted or rejected, keeps the ledger invariant. |
| `TransactionsSpec.ExecuteAppendsOnly` | examples/cryptocurrency-advanced/backend/src/schema.rs:67-109 | After any call, each wallet's old history is a prefix of its new history. |
| `TransactionsSpec.RunPreservesValid` | examples/cryptocurrency-advanced/backend/src/transactions.rs:158-234 | Any sequence of calls from a valid store ends in a valid store. |
| `TransactionsSpec.ReachableValid` | examples/cryptocurrency-advanced/backend/src/transactions.rs:158-234 | Every store reachable from the empty store satisfies the ledger invariant. |
| `TransactionsSpec.RunAppendsOnly` | examples/cryptocurrency-advanced/backend/src/schema.rs:67-109 | Over any sequence of calls, histories only grow at their end. |
| `Transactions.Transfer` | examples/cryptocurrency-advanced/backend/src/transactions.rs:161-180 | Runs the checks, then debits and credits in place. Output and new store are exactly those of `TransferSpec`, and a valid schema stays valid. |
| `Transactions.Issue` | examples/cryptocurrency-advanced/backend/src/transactions.rs:182-193 | Output and new store are exactly those of `IssueSpec`, and a valid schema stays valid. |
| `Transactions.CreateWallet` | examples/cryptocurrency-advanced/backend/src/transactions.rs:195-206 | Output and new store are exactly those of `CreateWalletSpec`, and a valid schema stays valid. |
| `Transactions.TxSendApprove` | examples/cryptocurrency-advanced/backend/src/transactions.rs:208-233 | Output and new store are exactly those of `TxSendApproveSpec`, and a valid schema stays valid. |
| `Transactions.Dispatch` | examples/cryptocurrency-advanced/backend/src/transactions.rs:139-156 | Routing a call to its handler gives exactly the output and store of `Execute`, and a valid schema stays valid. |
| `Scenarios.EscrowThenTransfer` | examples/cryptocurrency-advanced/backend/src/transactions.rs:208-233 | A starts with 100. After escrowing 40, A still holds 100 with 40 frozen. A transfer of 70 then fails `InsufficientCurrencyAmount` and changes nothing. A transfer of 60 succeeds and leaves 40, all of it frozen. |
| `Scenarios.CreateWalletTwice` | examples/cryptocurrency-advanced/backend/src/transactions.rs:195-206 | A second `create_wallet` for the same caller fails `WalletAlreadyExists` and changes nothing. |
| `Scenarios.IssueToWallet` | examples/cryptocurrency-advanced/backend/src/transactions.rs:182-193 | Issuing 50 to a wallet holding 10 gives 60. With no wallet, the call fails `ReceiverNotFound`. |
| `Scenarios.SelfTransfer` | examples/cryptocurrency-advanced/backend/src/transactions.rs:167-169 | A transfer to oneself fails `SenderSameAsReceiver` in any store and changes nothing. |

## Left out

- The Exonum runtime. The execution context is reduced to the caller's address and an optional transaction hash. Service data access and `SchemaImpl::new`/`from_root` are storage plumbing; the class constructor stands for a fresh, empty store.
- Merkle structures (`ProofListIndex`, `RawProofMapIndex`, `Group`). They become Dafny maps and sequences. `object_hash` is the `digest` parameter, so collision resistance is neither modelled nor used.
- Protobuf, `BinaryValue`, `ObjectHash` and serde derivations, and the wire encoding of arguments. Decoding a payload, and unknown method ids, belong to the runtime. `Call` is an already decoded call.
- `rand::thread_rng` in `TxSendApprove::new`. The seed it draws is the parameter `freshSeed`. The stored record carries that seed, not the argument's `seed`.
- `wallet.rs` is not part of this model. `Wallet::new` is the datatype constructor. It is an assumption, not taken from code, that `set_balance` and `set_balance_freezed` replace their field and the history hash and raise `history_len` by one.
- `INITIAL_BALANCE` is defined outside the modelled files. It is the constant 100 here, and no proof depends on its value.
- Unchecked `u64` arithmetic. An overflow or underflow becomes the outcome `Panic` with the store unchanged, standing for the runtime's rollback of a panicking transaction. Wrap-around, which a build without overflow checks would produce, is not modelled.
- Transactions.Transfer: the source debits the sender before the credit that may overflow; the model checks the overflow first. The runtime's rollback makes the two observably equal.
- `history_len` is a `u64` in the source and a `nat` here. A history of 2^64 entries is not considered.
- The frozen-balance field is read as `balance_freezed` at transactions.rs:173 and schema.rs:104, and as `freezed_balance` at transactions.rs:227. The model treats both as the one field `balanceFreezed`.
- Releasing or cancelling a pending approval. The source has no handler for it, so none is modelled. Frozen funds stay frozen.
- The numeric discriminants of `Error` (0 to 5). Only the variants are modelled.
