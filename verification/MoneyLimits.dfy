/** Where the money rules stop short of what their messages promise: which voided bills still hold
    customers' money, and the request that creates some
    (packages/billing/src/invoice.service.ts, payment.service.ts, billing-cycle.service.ts). */
module MoneyLimits {
  import opened AgentCash
  import Integers
  import opened MoneyRuns
  import opened Optional
  import opened Payments
  import opened Wallets

  /** A bill with money on it says so, unless it fell overdue or was voided. */
  ghost predicate PaidShows(s: Store) {
    forall i :: 0 <= i < |s.invoices| ==> ShowsPaid(s.invoices[i])
  }

  ghost predicate ShowsPaid(inv: Invoice) {
    inv.paid > 0 ==> inv.status == PARTIALLY_PAID || inv.status == PAID || inv.status == OVERDUE || inv.status == VOIDED
  }

  lemma StepShowsPaid(s: Store, e: Event)
    requires PaidShows(s)
    ensures PaidShows(Step(s, e).store)
  {
    match e {
      case PayBill(r) => hide KeyUsed, Debited, Credited, Reactivated, OwesOther;
      case TopUpWallet(_, _, _) => hide KeyUsed, Credited;
      case RefundPayment(_) => hide RefundedWallet;
      case RewardCredit(_, _) => hide Credited;
      case IssueInvoice(_, _, _) =>
      case SweepOverdue(_) =>
      case VoidInvoice(_) =>
      case AbandonInvoice(_) =>
      case SweepServices(_) =>
    }
  }

  lemma {:induction false} RunShowsPaid(s: Store, events: seq<Event>)
    requires PaidShows(s)
    ensures PaidShows(Run(s, events))
    decreases |events|
  {
    hide Step, PaidShows;
    if |events| > 0 {
      StepShowsPaid(s, events[0]);
      RunShowsPaid(Step(s, events[0]).store, events[1..]);
    }
  }

  /** Voiding is meant to refuse a bill with payments applied. Over every run it lets one through
      exactly when that bill was part-paid and had fallen overdue (or was voided so before). */
  lemma VoidHidesMoneyExactly(s: Store, events: seq<Event>, id: nat)
    requires Inv(s) && PaidShows(s)
    ensures var now := Run(s, events);
      Annul(now, id).outcome == Accepted ==>
        && id < |now.invoices|
        && (CompletedFor(Annul(now, id).store.payments, id) > 0
            <==> (now.invoices[id].status == OVERDUE || now.invoices[id].status == VOIDED) && now.invoices[id].paid > 0)
  {
    hide Run, Inv, CompletedFor;
    RunKeepsTheBooks(s, events);
    RunShowsPaid(s, events);
    var now := Run(s, events);
    if Annul(now, id).outcome == Accepted {
      BillAgrees(now, id);
      assert ShowsPaid(now.invoices[id]);
    }
  }

  lemma BillAgrees(s: Store, id: nat)
    requires Inv(s) && id < |s.invoices|
    ensures s.invoices[id].paid == CompletedFor(s.payments, id)
  {
  }

  /** One customer, one bill of 100 due at time 5, and no money yet. */
  const ONE_BILL: Store := Store([Invoice(0, PENDING, 100, 0, 5)], [], [Wallets.EMPTY], [])

  /** Paying 40, missing the due date and voiding leaves a void bill with 40 on it; refunding the 40
      then brings the void bill back as a pending one. */
  lemma VoidedPartPaidBill()
    ensures Inv(ONE_BILL) && PaidShows(ONE_BILL)
    ensures var voided := Run(ONE_BILL, [PayBill(PayRequest(0, FromOutside, 40, Client(1), false)), SweepOverdue(9), VoidInvoice(0)]);
      && voided.invoices == [Invoice(0, VOIDED, 100, 40, 5)]
      && Refund(voided, 0).store.invoices == [Invoice(0, PENDING, 100, 0, 5)]
  {
    var pay, sweep, annul := PayBill(PayRequest(0, FromOutside, 40, Client(1), false)), SweepOverdue(9), VoidInvoice(0);
    EmptyWalletReconciled();
    OneBillSound();
    PartPaid();
    ThenVoided(Step(ONE_BILL, pay).store);
    hide Step, Refund;
    RunThree(ONE_BILL, pay, sweep, annul);
  }

  lemma OneBillSound()
    ensures Inv(ONE_BILL) && PaidShows(ONE_BILL)
  {
    EmptyWalletReconciled();
  }

  lemma ThenVoided(s: Store)
    requires s.invoices == [Invoice(0, PARTIALLY_PAID, 100, 40, 5)]
    requires s.payments == [Payment(Some(0), Some(0), FromOutside, COMPLETED, 40, Client(1))] && |s.wallets| == 1
    ensures var voided := Step(Step(s, SweepOverdue(9)).store, VoidInvoice(0)).store;
      && voided.invoices == [Invoice(0, VOIDED, 100, 40, 5)]
      && Refund(voided, 0).store.invoices == [Invoice(0, PENDING, 100, 0, 5)]
  {
    var b := Step(s, SweepOverdue(9)).store;
    assert b.invoices == [Invoice(0, OVERDUE, 100, 40, 5)];
    var c := Step(b, VoidInvoice(0)).store;
    assert c.invoices == [Invoice(0, VOIDED, 100, 40, 5)];
    assert c.payments == s.payments && c.wallets == s.wallets;
    assert Unpaying(c.invoices[0], 40) == Invoice(0, PENDING, 100, 0, 5);
  }

  lemma PartPaid()
    ensures var s := Step(ONE_BILL, PayBill(PayRequest(0, FromOutside, 40, Client(1), false))).store;
      && s.invoices == [Invoice(0, PARTIALLY_PAID, 100, 40, 5)]
      && s.payments == [Payment(Some(0), Some(0), FromOutside, COMPLETED, 40, Client(1))]
      && s.wallets == [Wallets.EMPTY]
  {
    assert !KeyUsed([], Client(1));
  }

  lemma EmptyWalletReconciled()
    ensures Reconciled(Wallets.EMPTY)
  {
  }

  lemma RunThree(s: Store, a: Event, b: Event, c: Event)
    ensures Run(s, [a, b, c]) == Step(Step(Step(s, a).store, b).store, c).store
  {
    hide Step;
    var s1, s2 := Step(s, a).store, Step(Step(s, a).store, b).store;
    assert [a, b, c][1..] == [b, c] && [b, c][1..] == [c] && [c][1..] == [];
    assert Run(s, [a, b, c]) == Run(s1, [b, c]) == Run(s2, [c]);
  }

  /** A wallet of 100 pays a bill of 100 with an offer of 150: the wallet ends up with 50 and the
      bill is paid, so 50 has come from nowhere. */
  lemma OverdrawExample()
    ensures var wallet := Wallet(100, [Credit(100, 100)]);
      var s := Store([Invoice(0, PENDING, 100, 0, 5)], [], [wallet], []);
      var r := PayRequest(0, FromWallet, 150, Client(1), true);
      && Reconciled(wallet)
      && Pay(s, r).outcome == Accepted && Overdraws(s, PayBill(r))
      && Flow(s, PayBill(r)) == 0 && Holdings(Pay(s, r).store) == Holdings(s) + 50
  {
    var wallet := Wallet(100, [Credit(100, 100)]);
    var s := Store([Invoice(0, PENDING, 100, 0, 5)], [], [wallet], []);
    var r := PayRequest(0, FromWallet, 150, Client(1), true);
    OneCredit(wallet);
    OverpaysFromWallet(wallet);
    hide Reconciled, Holdings, Pay;
    PayConserves(s, r);
  }

  lemma OverpaysFromWallet(wallet: Wallet)
    requires wallet.balance == 100
    ensures Pay(Store([Invoice(0, PENDING, 100, 0, 5)], [], [wallet], []), PayRequest(0, FromWallet, 150, Client(1), true)).outcome == Accepted
  {
    hide Applied;
    NoKeyYet(Client(1));
  }

  lemma NoKeyYet(key: Key)
    ensures !KeyUsed([], key)
  {
  }

  lemma OneCredit(wallet: Wallet)
    requires wallet == Wallet(100, [Credit(100, 100)])
    ensures Reconciled(wallet)
  {
    assert Credited(Wallets.EMPTY, 100).value == wallet by { assert [] + [Credit(100, 100)] == [Credit(100, 100)]; }
    EmptyWalletReconciled();
    MovementsReconcile(Wallets.EMPTY, 100);
  }

  /** An agent's collection of 100 for the bill of 100 pays it. Sent again it finds no open bill, and
      the same 100 is booked a second time, into the wallet. */
  lemma CollectedTwice()
    ensures DueOrder(ONE_BILL, 0, [0]) && Fresh(ONE_BILL, 7)
    ensures var first := Collect(ONE_BILL, 0, [0], 100, 7);
      && first.Collected? && first.store.invoices == [Invoice(0, PAID, 100, 100, 5)] && first.store.wallets == [Wallets.EMPTY]
      && DueOrder(first.store, 0, [])
      && var again := Collect(first.store, 0, [], 100, 7);
      && again.Collected? && |again.store.wallets| == 1 && again.store.wallets[0].balance == 100
      && Holdings(again.store) == 200
  {
    OpenBillsOf();
    hide Collect, Inv, Fresh, DueOrder;
    FirstCollection();
    var first := Collect(ONE_BILL, 0, [0], 100, 7);
    NoneOpen(first.store);
    TopUpOnTop(first.store);
  }

  lemma OpenBillsOf()
    ensures DueOrder(ONE_BILL, 0, [0]) && Fresh(ONE_BILL, 7)
  {
    assert ONE_BILL.payments == [];
    assert OpenBill(ONE_BILL, 0, 0);
  }

  lemma NoneOpen(s: Store)
    requires s.invoices == [Invoice(0, PAID, 100, 100, 5)]
    ensures DueOrder(s, 0, [])
  {
  }

  lemma FirstCollection()
    ensures var first := Collect(ONE_BILL, 0, [0], 100, 7);
      && first.Collected?
      && first.store.invoices == [Invoice(0, PAID, 100, 100, 5)] && first.store.wallets == [Wallets.EMPTY]
      && first.store.payments == [Payment(Some(0), Some(0), FromOutside, COMPLETED, 100, AgentBill(7, 0))]
  {
    PaidByAgent();
    var paid := Pay(ONE_BILL, BillRequest(0, 100, 7));
    assert [0][1..] == [];
    assert PayBills(paid.store, [], 0, 7) == Collected(paid.store, 0);
    hide Pay;
    assert Integers.Min(100, 100) == 100 && Owed(ONE_BILL.invoices[0]) == 100;
    assert PayBills(ONE_BILL, [0], 100, 7) == PayBills(paid.store, [], 0, 7);
  }

  lemma PaidByAgent()
    ensures var paid := Pay(ONE_BILL, BillRequest(0, 100, 7));
      && paid.outcome == Accepted
      && paid.store.invoices == [Invoice(0, PAID, 100, 100, 5)]
      && paid.store.payments == [Payment(Some(0), Some(0), FromOutside, COMPLETED, 100, AgentBill(7, 0))]
      && paid.store.wallets == [Wallets.EMPTY]
  {
    NoKeyYet(AgentBill(7, 0));
  }

  lemma TopUpOnTop(s: Store)
    requires s.invoices == [Invoice(0, PAID, 100, 100, 5)] && s.wallets == [Wallets.EMPTY]
    requires s.payments == [Payment(Some(0), Some(0), FromOutside, COMPLETED, 100, AgentBill(7, 0))]
    ensures var again := Collect(s, 0, [], 100, 7);
      && again.Collected? && |again.store.wallets| == 1 && again.store.wallets[0].balance == 100
      && Holdings(again.store) == 200
  {
    assert !KeyUsed(s.payments, AgentWallet(7));
    var end := TopUp(s, 0, 100, AgentWallet(7)).store;
    assert PayBills(s, [], 100, 7) == Collected(s, 100);
    assert end.wallets == [end.wallets[0]] && end.invoices == s.invoices;
    assert end.wallets[..0] == [] && end.invoices[..0] == [];
    assert PaidTotal([]) == 0 && BalanceTotal([]) == 0;
  }
}
