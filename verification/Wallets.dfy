/** Customer wallets and their append-only ledger (packages/billing/src/wallet.service.ts). */
module Wallets {
  import opened Optional

  datatype Entry =
    | Credit(amount: int, balanceAfter: int)
    | Debit(amount: int, balanceAfter: int)

  datatype Wallet = Wallet(balance: int, ledger: seq<Entry>)

  const EMPTY: Wallet := Wallet(0, [])

  /** A refused credit or debit throws and leaves nothing behind. */
  function Credited(w: Wallet, amount: int): Option<Wallet> {
    if amount <= 0 then None
    else
      var balance := w.balance + amount;
      Some(Wallet(balance, w.ledger + [Credit(amount, balance)]))
  }

  /** The guarded decrement: it never leaves less than nothing. */
  function Debited(w: Wallet, amount: int): Option<Wallet> {
    if amount <= 0 || w.balance < amount then None
    else
      var balance := w.balance - amount;
      Some(Wallet(balance, w.ledger + [Debit(amount, balance)]))
  }

  function Signed(e: Entry): int {
    if e.Credit? then e.amount else -e.amount
  }

  /** Credits minus debits. */
  function Net(ledger: seq<Entry>): int {
    if |ledger| == 0 then 0 else Net(ledger[..|ledger| - 1]) + Signed(ledger[|ledger| - 1])
  }

  /** The balance is what the ledger says, every row carries the balance at its point, and no
      balance was ever negative. */
  ghost predicate Reconciled(w: Wallet) {
    && w.balance == Net(w.ledger)
    && 0 <= w.balance
    && forall i :: 0 <= i < |w.ledger| ==>
         w.ledger[i].amount > 0 && 0 <= w.ledger[i].balanceAfter == Net(w.ledger[..i + 1])
  }

  lemma AppendedRow(w: Wallet, e: Entry)
    requires Reconciled(w) && e.amount > 0 && 0 <= e.balanceAfter == w.balance + Signed(e)
    ensures Reconciled(Wallet(e.balanceAfter, w.ledger + [e]))
  {
    hide Net;
    var ledger := w.ledger + [e];
    NetAppended(w.ledger, e);
    forall i | 0 <= i < |ledger|
      ensures ledger[i].amount > 0 && 0 <= ledger[i].balanceAfter == Net(ledger[..i + 1])
    {
      assert ledger[..i + 1] == if i < |w.ledger| then w.ledger[..i + 1] else ledger;
    }
  }

  lemma NetAppended(ledger: seq<Entry>, e: Entry)
    ensures Net(ledger + [e]) == Net(ledger) + Signed(e)
  {
    assert (ledger + [e])[..|ledger|] == ledger;
  }

  lemma ReconciledBalance(w: Wallet)
    requires Reconciled(w)
    ensures w.balance >= 0
  {
  }

  /** Credits and debits keep every wallet reconciled. */
  lemma MovementsReconcile(w: Wallet, amount: int)
    requires Reconciled(w)
    ensures Credited(w, amount).Some? ==> Reconciled(Credited(w, amount).value)
    ensures Debited(w, amount).Some? ==> Reconciled(Debited(w, amount).value)
  {
    hide Reconciled, Net;
    ReconciledBalance(w);
    if Credited(w, amount).Some? {
      AppendedRow(w, Credit(amount, w.balance + amount));
    }
    if Debited(w, amount).Some? {
      AppendedRow(w, Debit(amount, w.balance - amount));
    }
  }
}
