/**
 * Concrete runs of the handler specifications: frozen funds are not
 * spendable, a second create_wallet for the same caller is refused, issue
 * credits the caller and a self-transfer is refused whatever the balance.
 */
module Scenarios {
  import opened Types
  import opened SchemaSpec
  import opened TransactionsSpec

  function Addr(b: byte): (a: Address) {
    seq(32, _ => b)
  }

  function Fresh(owner: Address, name: string, balance: uint64, digest: seq<Hash> -> Hash): (w: Wallet) {
    Wallet(owner, name, balance, 0, 0, digest([]))
  }

  /**
   * A holds 100; escrowing 40 for B (approver C) keeps the balance at 100
   * and freezes 40. A transfer of 70 to D is then refused, since only 60
   * is available, and a transfer of 60 leaves A with 40, all of it frozen.
   */
  lemma EscrowThenTransfer(digest: seq<Hash> -> Hash, tx1: Hash, tx2: Hash, tx3: Hash, seed: uint64)
    ensures
      var a, b, c, d := Addr(1), Addr(2), Addr(3), Addr(4);
      var st := Storage(map[a := Fresh(a, "a", 100, digest), b := Fresh(b, "b", 0, digest),
                            c := Fresh(c, "c", 0, digest), d := Fresh(d, "d", 0, digest)], map[], map[]);
      var escrow := TxSendApproveSpec(st, digest, ExecutionContext(a, Some(tx1)), TxSendApprove(b, c, 40, 7), seed);
      var tooMuch := TransferSpec(escrow.post, digest, ExecutionContext(a, Some(tx2)), Transfer(d, 70, 8));
      var enough := TransferSpec(escrow.post, digest, ExecutionContext(a, Some(tx3)), Transfer(d, 60, 9));
      && escrow.output == Ok(())
      && escrow.post.wallets[a].balance == 100 && escrow.post.wallets[a].balanceFreezed == 40
      && escrow.post.wallets[b] == st.wallets[b]
      && escrow.post.approvalTransactions[tx1] == TxSendApprove(b, c, 40, seed)
      && tooMuch.output == Err(Service(InsufficientCurrencyAmount)) && tooMuch.post == escrow.post
      && enough.output == Ok(())
      && enough.post.wallets[a].balance == 40 && enough.post.wallets[a].balanceFreezed == 40
      && enough.post.wallets[d].balance == 60
  {
    var a, b, c, d := Addr(1), Addr(2), Addr(3), Addr(4);
    assert a[0] != b[0] && a[0] != c[0] && a[0] != d[0] && b[0] != d[0];
  }

  /** Creating a wallet twice for one caller: the second call is refused and changes nothing. */
  lemma CreateWalletTwice(digest: seq<Hash> -> Hash, tx1: Hash, tx2: Hash)
    ensures
      var alice := Addr(1);
      var first := CreateWalletSpec(Empty, digest, ExecutionContext(alice, Some(tx1)), CreateWallet("alice"));
      var second := CreateWalletSpec(first.post, digest, ExecutionContext(alice, Some(tx2)), CreateWallet("alice"));
      && first.output == Ok(())
      && first.post.wallets[alice] == Wallet(alice, "alice", INITIAL_BALANCE, 0, 1, digest([tx1]))
      && second.output == Err(Service(WalletAlreadyExists))
      && second.post == first.post
  {
  }

  /** Issue 50 to a wallet holding 10 gives 60; with no wallet it is refused. */
  lemma IssueToWallet(digest: seq<Hash> -> Hash, tx: Hash)
    ensures
      var a := Addr(1);
      var st := Storage(map[a := Fresh(a, "a", 10, digest)], map[], map[]);
      var issued := IssueSpec(st, digest, ExecutionContext(a, Some(tx)), Issue(50, 1));
      var missing := IssueSpec(Empty, digest, ExecutionContext(a, Some(tx)), Issue(50, 1));
      && issued.output == Ok(()) && issued.post.wallets[a].balance == 60
      && missing.output == Err(Service(ReceiverNotFound)) && missing.post == Empty
  {
  }

  /** A transfer to oneself is refused before anything is looked up. */
  lemma SelfTransfer(st: Storage, digest: seq<Hash> -> Hash, tx: Hash, amount: uint64)
    ensures
      var a := Addr(1);
      var x := TransferSpec(st, digest, ExecutionContext(a, Some(tx)), Transfer(a, amount, 0));
      x.output == Err(Service(SenderSameAsReceiver)) && x.post == st
  {
  }
}
