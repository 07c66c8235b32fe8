/**
 * The transaction handlers of the cryptocurrency service (transactions.rs)
 * as methods that run their checks and then drive the schema's write
 * primitives in place. Each is proved to produce the output and the store
 * that its specification in TransactionsSpec gives.
 */
module Transactions {
  import opened Types
  import opened Schema
  import SchemaSpec
  import TS = TransactionsSpec

  /** `transfer` (method id 0). */
  method Transfer(schema: SchemaImpl, context: TS.ExecutionContext, arg: TS.Transfer) returns (r: TS.Result<()>)
    modifies schema
    ensures TS.Execution(r, schema.State()) == TS.TransferSpec(old(schema.State()), schema.digest, context, arg)
    ensures old(schema.Valid()) ==> schema.Valid()
  {
    var info := TS.ExtractInfo(context);
    if info.Err? {
      return TS.Err(info.error);
    }
    var (from, txHash) := info.value;
    var to := arg.to;
    var amount := arg.amount;
    if from == to {
      return TS.Err(TS.Service(TS.SenderSameAsReceiver));
    }
    var sender := schema.GetWallet(from);
    if sender.None? {
      return TS.Err(TS.Service(TS.SenderNotFound));
    }
    var receiver := schema.GetWallet(to);
    if receiver.None? {
      return TS.Err(TS.Service(TS.ReceiverNotFound));
    }
    if sender.value.balance < sender.value.balanceFreezed {
      // `balance - balance_freezed` would underflow
      return TS.Err(TS.Panic);
    }
    if sender.value.balance - sender.value.balanceFreezed < amount {
      r := TS.Err(TS.Service(TS.InsufficientCurrencyAmount));
    } else if receiver.value.balance + amount >= U64_LIMIT {
      // the receiver's new balance would overflow; the runtime discards the debit
      r := TS.Err(TS.Panic);
    } else {
      ghost var before := schema.State();
      schema.DecreaseWalletBalance(sender.value, amount, txHash);
      schema.IncreaseWalletBalance(receiver.value, amount, txHash);
      r := TS.Ok(());
      if SchemaSpec.Valid(before, schema.digest) {
        TS.TransferSucceeds(before, schema.digest, context, arg);
      }
    }
  }

  /** `issue` (method id 1). */
  method Issue(schema: SchemaImpl, context: TS.ExecutionContext, arg: TS.Issue) returns (r: TS.Result<()>)
    modifies schema
    ensures TS.Execution(r, schema.State()) == TS.IssueSpec(old(schema.State()), schema.digest, context, arg)
    ensures old(schema.Valid()) ==> schema.Valid()
  {
    var info := TS.ExtractInfo(context);
    if info.Err? {
      return TS.Err(info.error);
    }
    var (from, txHash) := info.value;
    var wallet := schema.GetWallet(from);
    if wallet.Some? {
      var amount := arg.amount;
      if wallet.value.balance + amount >= U64_LIMIT {
        // the new balance would overflow
        return TS.Err(TS.Panic);
      }
      ghost var before := schema.State();
      schema.IncreaseWalletBalance(wallet.value, amount, txHash);
      r := TS.Ok(());
      if SchemaSpec.Valid(before, schema.digest) {
        TS.IssueSucceeds(before, schema.digest, context, arg);
      }
    } else {
      r := TS.Err(TS.Service(TS.ReceiverNotFound));
    }
  }

  /** `create_wallet` (method id 2). */
  method CreateWallet(schema: SchemaImpl, context: TS.ExecutionContext, arg: TS.CreateWallet) returns (r: TS.Result<()>)
    modifies schema
    ensures TS.Execution(r, schema.State()) == TS.CreateWalletSpec(old(schema.State()), schema.digest, context, arg)
    ensures old(schema.Valid()) ==> schema.Valid()
  {
    var info := TS.ExtractInfo(context);
    if info.Err? {
      return TS.Err(info.error);
    }
    var (from, txHash) := info.value;
    var existing := schema.GetWallet(from);
    if existing.None? {
      ghost var before := schema.State();
      schema.CreateWallet(from, arg.name, txHash);
      r := TS.Ok(());
      if SchemaSpec.Valid(before, schema.digest) {
        TS.CreateWalletSucceeds(before, schema.digest, context, arg);
      }
    } else {
      r := TS.Err(TS.Service(TS.WalletAlreadyExists));
    }
  }

  /** `tx_send_approve` (method id 3); `freshSeed` is the seed the stored record draws. */
  method TxSendApprove(schema: SchemaImpl, context: TS.ExecutionContext, arg: Types.TxSendApprove, freshSeed: uint64) returns (r: TS.Result<()>)
    modifies schema
    ensures TS.Execution(r, schema.State()) == TS.TxSendApproveSpec(old(schema.State()), schema.digest, context, arg, freshSeed)
    ensures old(schema.Valid()) ==> schema.Valid()
  {
    var info := TS.ExtractInfo(context);
    if info.Err? {
      return TS.Err(info.error);
    }
    var (from, txHash) := info.value;
    var to := arg.to;
    var amount := arg.amount;
    if from == to {
      return TS.Err(TS.Service(TS.SenderSameAsReceiver));
    }
    var senderWallet := schema.GetWallet(from);
    if senderWallet.None? {
      return TS.Err(TS.Service(TS.SenderNotFound));
    }
    var receiverWallet := schema.GetWallet(to);
    if receiverWallet.None? {
      return TS.Err(TS.Service(TS.ReceiverNotFound));
    }
    var approverWallet := schema.GetWallet(arg.approver);
    if approverWallet.None? {
      return TS.Err(TS.Service(TS.ApproverNotFound));
    }
    if senderWallet.value.balance < senderWallet.value.balanceFreezed {
      // `balance - freezed_balance` would underflow
      return TS.Err(TS.Panic);
    }
    if senderWallet.value.balance - senderWallet.value.balanceFreezed < amount {
      r := TS.Err(TS.Service(TS.InsufficientCurrencyAmount));
    } else {
      ghost var before := schema.State();
      schema.CreateApproveTransaction(senderWallet.value, amount, to, arg.approver, txHash, freshSeed);
      r := TS.Ok(());
      if SchemaSpec.Valid(before, schema.digest) {
        TS.TxSendApproveSucceeds(before, schema.digest, context, arg, freshSeed);
      }
    }
  }

  /** Route a decoded call to its handler. */
  method Dispatch(schema: SchemaImpl, context: TS.ExecutionContext, call: TS.Call, freshSeed: uint64) returns (r: TS.Result<()>)
    modifies schema
    ensures TS.Execution(r, schema.State()) == TS.Execute(old(schema.State()), schema.digest, context, call, freshSeed)
    ensures old(schema.Valid()) ==> schema.Valid()
  {
    match call
    case TransferCall(arg) => r := Transfer(schema, context, arg);
    case IssueCall(arg) => r := Issue(schema, context, arg);
    case CreateWalletCall(arg) => r := CreateWallet(schema, context, arg);
    case TxSendApproveCall(arg) => r := TxSendApprove(schema, context, arg, freshSeed);
  }
}
