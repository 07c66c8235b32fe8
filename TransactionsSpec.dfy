/**
 * The four transaction handlers of the cryptocurrency service
 * (transactions.rs) as functions from the store before a call to its output
 * and the store after, the dispatch by interface method id, and what they
 * guarantee: the order of the checks, that a rejected call writes nothing,
 * the effect of an accepted one on balances, frozen balances and histories,
 * and that the ledger invariant holds in every reachable store.
 */
module TransactionsSpec {
  import opened Types
  import S = SchemaSpec

  /** Service error codes. */
  datatype Error =
    | WalletAlreadyExists
    | SenderNotFound
    | ReceiverNotFound
    | ApproverNotFound
    | InsufficientCurrencyAmount
    | SenderSameAsReceiver

  /**
   * How a call fails: a service error; the runtime's `UnauthorizedCaller`
   * when the call carries no transaction hash; or a panic of unchecked `u64`
   * arithmetic, after which the runtime discards the call's writes.
   */
  datatype ExecutionError = Service(error: Error) | UnauthorizedCaller | Panic

  datatype Result<T> = Ok(value: T) | Err(error: ExecutionError)

  /** What a handler sees of the runtime: the caller and, for a transaction, its hash. */
  datatype ExecutionContext = ExecutionContext(caller: Address, transactionHash: Option<Hash>)

  /** Arguments of `transfer`, `issue` and `create_wallet`. */
  datatype Transfer = Transfer(to: Address, amount: uint64, seed: uint64)
  datatype Issue = Issue(amount: uint64, seed: uint64)
  datatype CreateWallet = CreateWallet(name: string)

  /** The output of a call and the store it leaves. */
  datatype Execution = Execution(output: Result<()>, post: S.Storage)

  predicate Authorized(context: ExecutionContext) {
    context.transactionHash.Some?
  }

  /** Funds not reserved by pending approvals. */
  function Available(w: Wallet): (funds: int) {
    w.balance - w.balanceFreezed
  }

  /** `extract_info`: the caller and the transaction hash, or `UnauthorizedCaller`. */
  function ExtractInfo(context: ExecutionContext): (r: Result<(Address, Hash)>)
    ensures r.Ok? <==> Authorized(context)
    ensures r.Ok? ==> r.value == (context.caller, context.transactionHash.value)
    ensures r.Err? ==> r.error == UnauthorizedCaller
  {
    match context.transactionHash
    case Some(txHash) => Ok((context.caller, txHash))
    case None => Err(UnauthorizedCaller)
  }

  function Reject(st: S.Storage, e: Error): (x: Execution) {
    Execution(Err(Service(e)), st)
  }

  /** Caller authorized and distinct from `to`, and both have wallets. */
  predicate BothFound(st: S.Storage, context: ExecutionContext, to: Address) {
    Authorized(context) && context.caller != to && context.caller in st.wallets && to in st.wallets
  }

  /** `transfer` (method id 0): move `amount` from the caller's wallet to `to`'s. */
  function TransferSpec(st: S.Storage, digest: seq<Hash> -> Hash, context: ExecutionContext, arg: Transfer): (x: Execution)
    // a rejected call writes nothing
    ensures x.output.Err? ==> x.post == st
    // the checks, in the order they are made
    ensures x.output == Err(UnauthorizedCaller) <==> !Authorized(context)
    ensures x.output == Err(Service(SenderSameAsReceiver)) <==> Authorized(context) && context.caller == arg.to
    ensures x.output == Err(Service(SenderNotFound)) <==>
      Authorized(context) && context.caller != arg.to && context.caller !in st.wallets
    ensures x.output == Err(Service(ReceiverNotFound)) <==>
      Authorized(context) && context.caller != arg.to && context.caller in st.wallets && arg.to !in st.wallets
    ensures x.output == Err(Service(InsufficientCurrencyAmount)) <==>
      BothFound(st, context, arg.to)
      && st.wallets[context.caller].balanceFreezed <= st.wallets[context.caller].balance
      && Available(st.wallets[context.caller]) < arg.amount
    ensures x.output == Err(Panic) <==>
      BothFound(st, context, arg.to)
      && (st.wallets[context.caller].balanceFreezed > st.wallets[context.caller].balance
          || (Available(st.wallets[context.caller]) >= arg.amount
              && st.wallets[arg.to].balance + arg.amount >= U64_LIMIT))
    ensures x.output.Ok? <==>
      BothFound(st, context, arg.to)
      && 0 <= Available(st.wallets[context.caller])
      && arg.amount <= Available(st.wallets[context.caller])
      && st.wallets[arg.to].balance + arg.amount < U64_LIMIT
  {
    match ExtractInfo(context)
    case Err(e) => Execution(Err(e), st)
    case Ok((from, txHash)) =>
      if from == arg.to then Reject(st, SenderSameAsReceiver)
      else match S.WalletAt(st, from)
      case None => Reject(st, SenderNotFound)
      case Some(sender) =>
        match S.WalletAt(st, arg.to)
        case None => Reject(st, ReceiverNotFound)
        case Some(receiver) =>
          if sender.balance < sender.balanceFreezed then Execution(Err(Panic), st)
          else if sender.balance - sender.balanceFreezed < arg.amount then Reject(st, InsufficientCurrencyAmount)
          else if receiver.balance + arg.amount >= U64_LIMIT then Execution(Err(Panic), st)
          else
            var debited := S.DecreaseWalletBalance(st, digest, sender, arg.amount, txHash);
            Execution(Ok(()), S.IncreaseWalletBalance(debited, digest, receiver, arg.amount, txHash))
  }

  /** `issue` (method id 1): credit `amount` to the caller's own wallet. */
  function IssueSpec(st: S.Storage, digest: seq<Hash> -> Hash, context: ExecutionContext, arg: Issue): (x: Execution)
    ensures x.output.Err? ==> x.post == st
    ensures x.output == Err(UnauthorizedCaller) <==> !Authorized(context)
    ensures x.output == Err(Service(ReceiverNotFound)) <==> Authorized(context) && context.caller !in st.wallets
    ensures x.output == Err(Panic) <==>
      Authorized(context) && context.caller in st.wallets
      && st.wallets[context.caller].balance + arg.amount >= U64_LIMIT
    ensures x.output.Ok? <==>
      Authorized(context) && context.caller in st.wallets
      && st.wallets[context.caller].balance + arg.amount < U64_LIMIT
  {
    match ExtractInfo(context)
    case Err(e) => Execution(Err(e), st)
    case Ok((from, txHash)) =>
      match S.WalletAt(st, from)
      case Some(wallet) =>
        if wallet.balance + arg.amount >= U64_LIMIT then Execution(Err(Panic), st)
        else Execution(Ok(()), S.IncreaseWalletBalance(st, digest, wallet, arg.amount, txHash))
      case None => Reject(st, ReceiverNotFound)
  }

  /** `create_wallet` (method id 2): open a wallet for the caller. */
  function CreateWalletSpec(st: S.Storage, digest: seq<Hash> -> Hash, context: ExecutionContext, arg: CreateWallet): (x: Execution)
    ensures x.output.Err? ==> x.post == st
    ensures x.output == Err(UnauthorizedCaller) <==> !Authorized(context)
    ensures x.output == Err(Service(WalletAlreadyExists)) <==> Authorized(context) && context.caller in st.wallets
    ensures x.output.Ok? <==> Authorized(context) && context.caller !in st.wallets
    ensures x.output.Ok? ==>
      context.caller in x.post.wallets
      && x.post.wallets[context.caller].owner == context.caller
      && x.post.wallets[context.caller].name == arg.name
  {
    match ExtractInfo(context)
    case Err(e) => Execution(Err(e), st)
    case Ok((from, txHash)) =>
      if S.WalletAt(st, from).None? then Execution(Ok(()), S.CreateWallet(st, digest, from, arg.name, txHash))
      else Reject(st, WalletAlreadyExists)
  }

  /**
   * `tx_send_approve` (method id 3): reserve `amount` of the caller's funds
   * for `to`, pending `approver`'s approval. `freshSeed` is the random seed
   * of the stored record.
   */
  function TxSendApproveSpec(st: S.Storage, digest: seq<Hash> -> Hash, context: ExecutionContext, arg: TxSendApprove, freshSeed: uint64): (x: Execution)
    ensures x.output.Err? ==> x.post == st
    ensures x.output == Err(UnauthorizedCaller) <==> !Authorized(context)
    ensures x.output == Err(Service(SenderSameAsReceiver)) <==> Authorized(context) && context.caller == arg.to
    ensures x.output == Err(Service(SenderNotFound)) <==>
      Authorized(context) && context.caller != arg.to && context.caller !in st.wallets
    ensures x.output == Err(Service(ReceiverNotFound)) <==>
      Authorized(context) && context.caller != arg.to && context.caller in st.wallets && arg.to !in st.wallets
    ensures x.output == Err(Service(ApproverNotFound)) <==>
      BothFound(st, context, arg.to) && arg.approver !in st.wallets
    ensures x.output == Err(Service(InsufficientCurrencyAmount)) <==>
      BothFound(st, context, arg.to) && arg.approver in st.wallets
      && st.wallets[context.caller].balanceFreezed <= st.wallets[context.caller].balance
      && Available(st.wallets[context.caller]) < arg.amount
    ensures x.output == Err(Panic) <==>
      BothFound(st, context, arg.to) && arg.approver in st.wallets
      && st.wallets[context.caller].balanceFreezed > st.wallets[context.caller].balance
    ensures x.output.Ok? <==>
      BothFound(st, context, arg.to) && arg.approver in st.wallets
      && 0 <= Available(st.wallets[context.caller])
      && arg.amount <= Available(st.wallets[context.caller])
  {
    match ExtractInfo(context)
    case Err(e) => Execution(Err(e), st)
    case Ok((from, txHash)) =>
      if from == arg.to then Reject(st, SenderSameAsReceiver)
      else match S.WalletAt(st, from)
      case None => Reject(st, SenderNotFound)
      case Some(sender) =>
        if S.WalletAt(st, arg.to).None? then Reject(st, ReceiverNotFound)
        else if S.WalletAt(st, arg.approver).None? then Reject(st, ApproverNotFound)
        else if sender.balance < sender.balanceFreezed then Execution(Err(Panic), st)
        else if sender.balance - sender.balanceFreezed < arg.amount then Reject(st, InsufficientCurrencyAmount)
        else
          Execution(Ok(()), S.CreateApproveTransaction(st, digest, sender, arg.amount, arg.to, arg.approver, txHash, freshSeed))
  }

  /* ---------- What an accepted call does to a valid store ---------- */

  /**
   * An accepted transfer debits the sender and credits the receiver by the
   * same amount, leaves both names and frozen balances and every other wallet alone,
   * appends the transaction to both histories, and keeps the total.
   */
  lemma TransferSucceeds(st: S.Storage, digest: seq<Hash> -> Hash, context: ExecutionContext, arg: Transfer)
    requires S.Valid(st, digest)
    requires TransferSpec(st, digest, context, arg).output.Ok?
    ensures var post := TransferSpec(st, digest, context, arg).post;
      var from, to := context.caller, arg.to;
      && from in post.wallets && to in post.wallets
      && post.wallets[from].balance == st.wallets[from].balance - arg.amount
      && post.wallets[to].balance == st.wallets[to].balance + arg.amount
      && post.wallets[from].balanceFreezed == st.wallets[from].balanceFreezed
      && post.wallets[to].balanceFreezed == st.wallets[to].balanceFreezed
      && post.wallets[from].name == st.wallets[from].name
      && post.wallets[to].name == st.wallets[to].name
      && post.wallets[from].balanceFreezed <= post.wallets[from].balance
      && S.History(post, from) == S.History(st, from) + [context.transactionHash.value]
      && S.History(post, to) == S.History(st, to) + [context.transactionHash.value]
      && (forall a :: a != from && a != to ==> S.WalletAt(post, a) == S.WalletAt(st, a))
      && (forall a :: a != from && a != to ==> S.History(post, a) == S.History(st, a))
      && post.approvalTransactions == st.approvalTransactions
      && S.TotalBalance(post.wallets) == S.TotalBalance(st.wallets)
      && S.Valid(post, digest)
  {
    var from, to, txHash := context.caller, arg.to, context.transactionHash.value;
    var sender, receiver := st.wallets[from], st.wallets[to];
    assert S.WalletConsistent(st, digest, from) && S.WalletConsistent(st, digest, to);
    var debited := S.DecreaseWalletBalance(st, digest, sender, arg.amount, txHash);
    assert forall a :: a != from ==> S.History(debited, a) == S.History(st, a);
    var post := S.IncreaseWalletBalance(debited, digest, receiver, arg.amount, txHash);
    assert S.WalletAt(debited, to) == S.WalletAt(st, to);
    assert debited.wallets == st.wallets[from := debited.wallets[from]];
    S.TotalBalanceUpdate(st.wallets, from, debited.wallets[from]);
    assert post.wallets == debited.wallets[to := post.wallets[to]];
    S.TotalBalanceUpdate(debited.wallets, to, post.wallets[to]);
  }

  /** An accepted issue mints `amount` into the caller's wallet and touches nothing else. */
  lemma IssueSucceeds(st: S.Storage, digest: seq<Hash> -> Hash, context: ExecutionContext, arg: Issue)
    requires S.Valid(st, digest)
    requires IssueSpec(st, digest, context, arg).output.Ok?
    ensures var post := IssueSpec(st, digest, context, arg).post;
      var from := context.caller;
      && from in post.wallets
      && post.wallets[from].balance == st.wallets[from].balance + arg.amount
      && post.wallets[from].balanceFreezed == st.wallets[from].balanceFreezed
      && post.wallets[from].name == st.wallets[from].name
      && S.History(post, from) == S.History(st, from) + [context.transactionHash.value]
      && (forall a :: a != from ==> S.WalletAt(post, a) == S.WalletAt(st, a))
      && (forall a :: a != from ==> S.History(post, a) == S.History(st, a))
      && post.approvalTransactions == st.approvalTransactions
      && S.TotalBalance(post.wallets) == S.TotalBalance(st.wallets) + arg.amount
      && S.Valid(post, digest)
  {
    var from, txHash := context.caller, context.transactionHash.value;
    var wallet := st.wallets[from];
    assert S.WalletConsistent(st, digest, from);
    var post := S.IncreaseWalletBalance(st, digest, wallet, arg.amount, txHash);
    assert post.wallets == st.wallets[from := post.wallets[from]];
    S.TotalBalanceUpdate(st.wallets, from, post.wallets[from]);
  }

  /**
   * An accepted create_wallet stores the caller's wallet with the given name,
   * the initial balance, nothing frozen and a one-entry history.
   */
  lemma CreateWalletSucceeds(st: S.Storage, digest: seq<Hash> -> Hash, context: ExecutionContext, arg: CreateWallet)
    requires S.Valid(st, digest)
    requires CreateWalletSpec(st, digest, context, arg).output.Ok?
    ensures var post := CreateWalletSpec(st, digest, context, arg).post;
      var from, txHash := context.caller, context.transactionHash.value;
      && S.History(post, from) == [txHash]
      && from in post.wallets
      && post.wallets[from] == Wallet(from, arg.name, INITIAL_BALANCE, 0, 1, digest([txHash]))
      && (forall a :: a != from ==> S.WalletAt(post, a) == S.WalletAt(st, a))
      && (forall a :: a != from ==> S.History(post, a) == S.History(st, a))
      && post.approvalTransactions == st.approvalTransactions
      && S.TotalBalance(post.wallets) == S.TotalBalance(st.wallets) + INITIAL_BALANCE
      && S.Valid(post, digest)
  {
    var from, txHash := context.caller, context.transactionHash.value;
    var post := S.CreateWallet(st, digest, from, arg.name, txHash);
    assert post.wallets == st.wallets[from := post.wallets[from]];
    S.TotalBalanceInsert(st.wallets, from, post.wallets[from]);
  }

  /**
   * An accepted tx_send_approve freezes `amount` of the sender's balance,
   * which itself does not change; no funds reach `to`, the total is kept,
   * and the pending approval is stored under the transaction hash.
   */
  lemma TxSendApproveSucceeds(st: S.Storage, digest: seq<Hash> -> Hash, context: ExecutionContext, arg: TxSendApprove, freshSeed: uint64)
    requires S.Valid(st, digest)
    requires TxSendApproveSpec(st, digest, context, arg, freshSeed).output.Ok?
    ensures var post := TxSendApproveSpec(st, digest, context, arg, freshSeed).post;
      var from, txHash := context.caller, context.transactionHash.value;
      && from in post.wallets
      && post.wallets[from].balance == st.wallets[from].balance
      && post.wallets[from].balanceFreezed == st.wallets[from].balanceFreezed + arg.amount
      && post.wallets[from].name == st.wallets[from].name
      && post.wallets[from].balanceFreezed <= post.wallets[from].balance
      && S.History(post, from) == S.History(st, from) + [txHash]
      && S.WalletAt(post, arg.to) == S.WalletAt(st, arg.to)
      && (forall a :: a != from ==> S.WalletAt(post, a) == S.WalletAt(st, a))
      && (forall a :: a != from ==> S.History(post, a) == S.History(st, a))
      && post.approvalTransactions == st.approvalTransactions[txHash := TxSendApprove(arg.to, arg.approver, arg.amount, freshSeed)]
      && S.TotalBalance(post.wallets) == S.TotalBalance(st.wallets)
      && S.Valid(post, digest)
  {
    var from, txHash := context.caller, context.transactionHash.value;
    var sender := st.wallets[from];
    assert S.WalletConsistent(st, digest, from);
    var frozen := S.ChangeWalletBalanceFreezed(st, digest, sender, arg.amount, txHash);
    var post := S.CreateApproveTransaction(st, digest, sender, arg.amount, arg.to, arg.approver, txHash, freshSeed);
    assert post.wallets == st.wallets[from := post.wallets[from]];
    S.TotalBalanceUpdate(st.wallets, from, post.wallets[from]);
  }

  /** In a valid store a transfer can panic only by overflowing the receiver's balance. */
  lemma TransferPanicsOnlyOnOverflow(st: S.Storage, digest: seq<Hash> -> Hash, context: ExecutionContext, arg: Transfer)
    requires S.Valid(st, digest)
    requires TransferSpec(st, digest, context, arg).output == Err(Panic)
    ensures arg.to in st.wallets && st.wallets[arg.to].balance + arg.amount >= U64_LIMIT
  {
    assert S.WalletConsistent(st, digest, context.caller);
  }

  /** In a valid store tx_send_approve never panics. */
  lemma TxSendApproveNeverPanics(st: S.Storage, digest: seq<Hash> -> Hash, context: ExecutionContext, arg: TxSendApprove, freshSeed: uint64)
    requires S.Valid(st, digest)
    ensures TxSendApproveSpec(st, digest, context, arg, freshSeed).output != Err(Panic)
  {
    if BothFound(st, context, arg.to) {
      assert S.WalletConsistent(st, digest, context.caller);
    }
  }

  /* ---------- Dispatch ---------- */

  /** A decoded call to one of the four interface methods. */
  datatype Call =
    | TransferCall(transfer: Transfer)
    | IssueCall(issue: Issue)
    | CreateWalletCall(createWallet: CreateWallet)
    | TxSendApproveCall(txSendApprove: TxSendApprove)

  /** The interface method id of a call. */
  function MethodId(call: Call): (id: nat)
    ensures id < 4
  {
    match call
    case TransferCall(_) => 0
    case IssueCall(_) => 1
    case CreateWalletCall(_) => 2
    case TxSendApproveCall(_) => 3
  }

  /** Each id names one handler: calls with the same id go to the same handler. */
  lemma MethodIdNamesOneHandler(a: Call, b: Call)
    ensures MethodId(a) == MethodId(b) <==>
      (a.TransferCall? && b.TransferCall?) || (a.IssueCall? && b.IssueCall?)
      || (a.CreateWalletCall? && b.CreateWalletCall?) || (a.TxSendApproveCall? && b.TxSendApproveCall?)
  {
  }

  /** Dispatch a call to its handler; the handler's output is returned unchanged. */
  function Execute(st: S.Storage, digest: seq<Hash> -> Hash, context: ExecutionContext, call: Call, freshSeed: uint64): (x: Execution)
    ensures x.output.Err? ==> x.post == st
    ensures !Authorized(context) ==> x.output == Err(UnauthorizedCaller)
  {
    match call
    case TransferCall(arg) => TransferSpec(st, digest, context, arg)
    case IssueCall(arg) => IssueSpec(st, digest, context, arg)
    case CreateWalletCall(arg) => CreateWalletSpec(st, digest, context, arg)
    case TxSendApproveCall(arg) => TxSendApproveSpec(st, digest, context, arg, freshSeed)
  }

  /** Every call, accepted or not, keeps the ledger invariant. */
  lemma ExecutePreservesValid(st: S.Storage, digest: seq<Hash> -> Hash, context: ExecutionContext, call: Call, freshSeed: uint64)
    requires S.Valid(st, digest)
    ensures S.Valid(Execute(st, digest, context, call, freshSeed).post, digest)
  {
    if Execute(st, digest, context, call, freshSeed).output.Ok? {
      match call
      case TransferCall(arg) => TransferSucceeds(st, digest, context, arg);
      case IssueCall(arg) => IssueSucceeds(st, digest, context, arg);
      case CreateWalletCall(arg) => CreateWalletSucceeds(st, digest, context, arg);
      case TxSendApproveCall(arg) => TxSendApproveSucceeds(st, digest, context, arg, freshSeed);
    }
  }

  /** Histories are append-only: every call leaves each history a prefix of the new one. */
  lemma ExecuteAppendsOnly(st: S.Storage, digest: seq<Hash> -> Hash, context: ExecutionContext, call: Call, freshSeed: uint64, a: Address)
    ensures S.History(st, a) <= S.History(Execute(st, digest, context, call, freshSeed).post, a)
  {
    var x := Execute(st, digest, context, call, freshSeed);
    if x.output.Ok? {
      var txHash := context.transactionHash.value;
      match call
      case TransferCall(arg) =>
        var sender, receiver := st.wallets[context.caller], st.wallets[arg.to];
        var debited := S.DecreaseWalletBalance(st, digest, sender, arg.amount, txHash);
        assert S.History(st, a) <= S.History(debited, a);
        assert S.History(debited, a) <= S.History(x.post, a);
      case IssueCall(arg) =>
      case CreateWalletCall(arg) =>
      case TxSendApproveCall(arg) =>
        var sender := st.wallets[context.caller];
        var frozen := S.ChangeWalletBalanceFreezed(st, digest, sender, arg.amount, txHash);
        assert S.History(frozen, a) == S.History(x.post, a);
    }
  }

  /* ---------- Sequences of calls ---------- */

  /** One call as the runtime delivers it, with the seed an approval record would get. */
  datatype Step = Step(context: ExecutionContext, call: Call, freshSeed: uint64)

  /** The store after executing `steps` in order. */
  function Run(st: S.Storage, digest: seq<Hash> -> Hash, steps: seq<Step>): (post: S.Storage)
    decreases |steps|
  {
    if steps == [] then st
    else Run(Execute(st, digest, steps[0].context, steps[0].call, steps[0].freshSeed).post, digest, steps[1..])
  }

  /** The ledger invariant holds in every store reachable from a valid one. */
  lemma {:induction false} RunPreservesValid(st: S.Storage, digest: seq<Hash> -> Hash, steps: seq<Step>)
    requires S.Valid(st, digest)
    ensures S.Valid(Run(st, digest, steps), digest)
    decreases |steps|
  {
    if steps != [] {
      ExecutePreservesValid(st, digest, steps[0].context, steps[0].call, steps[0].freshSeed);
      RunPreservesValid(Execute(st, digest, steps[0].context, steps[0].call, steps[0].freshSeed).post, digest, steps[1..]);
    }
  }

  /** Every store reachable from the empty store satisfies the ledger invariant. */
  lemma ReachableValid(digest: seq<Hash> -> Hash, steps: seq<Step>)
    ensures S.Valid(Run(S.Empty, digest, steps), digest)
  {
    RunPreservesValid(S.Empty, digest, steps);
  }

  /** Over any sequence of calls, each history only grows at its end. */
  lemma {:induction false} RunAppendsOnly(st: S.Storage, digest: seq<Hash> -> Hash, steps: seq<Step>, a: Address)
    ensures S.History(st, a) <= S.History(Run(st, digest, steps), a)
    decreases |steps|
  {
    if steps != [] {
      var next := Execute(st, digest, steps[0].context, steps[0].call, steps[0].freshSeed).post;
      ExecuteAppendsOnly(st, digest, steps[0].context, steps[0].call, steps[0].freshSeed, a);
      RunAppendsOnly(next, digest, steps[1..], a);
    }
  }
}
