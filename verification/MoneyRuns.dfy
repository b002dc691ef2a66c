/** What the money transactions keep, over every run: conservation, bills that agree with their
    payments, wallets that agree with their ledgers, and idempotent requests. */
module MoneyRuns {
  import opened Optional
  import opened Payments
  import opened Wallets

  datatype Event =
    | PayBill(request: PayRequest)
    | TopUpWallet(customer: nat, amount: int, key: Key)
    | RefundPayment(payment: nat)
    | RewardCredit(customer: nat, amount: int)
    | IssueInvoice(customer: nat, total: nat, due: int)
    | SweepOverdue(now: int)
    | VoidInvoice(invoice: nat)
    | AbandonInvoice(invoice: nat)
    | SweepServices(now: int)

  function Step(s: Store, e: Event): Result {
    match e
    case PayBill(r) => Pay(s, r)
    case TopUpWallet(c, amount, key) => TopUp(s, c, amount, key)
    case RefundPayment(id) => Refund(s, id)
    case RewardCredit(c, amount) => Reward(s, c, amount)
    case IssueInvoice(c, total, due) => Issue(s, c, total, due)
    case SweepOverdue(now) => MarkOverdue(s, now)
    case VoidInvoice(id) => Annul(s, id)
    case AbandonInvoice(id) => Abandon(s, id)
    case SweepServices(now) => ReactivateCleared(s, now)
  }

  function Run(s: Store, events: seq<Event>): Store
    decreases |events|
  {
    if |events| == 0 then s else Run(Step(s, events[0]).store, events[1..])
  }

  // ---------------------------------------------------------------------------------------
  // The books
  // ---------------------------------------------------------------------------------------

  function PaidTotal(invoices: seq<Invoice>): int {
    if |invoices| == 0 then 0 else PaidTotal(invoices[..|invoices| - 1]) + invoices[|invoices| - 1].paid
  }

  function BalanceTotal(wallets: seq<Wallet>): int {
    if |wallets| == 0 then 0 else BalanceTotal(wallets[..|wallets| - 1]) + wallets[|wallets| - 1].balance
  }

  /** Money the platform holds for its customers: paid onto bills, or kept in wallets. */
  function Holdings(s: Store): int {
    PaidTotal(s.invoices) + BalanceTotal(s.wallets)
  }

  /** Cash in plus reward credit minus cash out, by what each accepted request really moved. */
  function Flow(s: Store, e: Event): int {
    if Step(s, e).outcome != Accepted then 0
    else
      match e
      case PayBill(r) => if r.paidBy == FromOutside then r.amount else 0
      case TopUpWallet(_, amount, _) => amount
      case RefundPayment(id) =>
        if id < |s.payments| && s.payments[id].customer.Some? && s.payments[id].paidBy == FromOutside
        then -s.payments[id].amount else 0
      case RewardCredit(_, amount) => if amount > 0 then amount else 0
      case _ => 0
  }

  function TotalFlow(s: Store, events: seq<Event>): int
    decreases |events|
  {
    if |events| == 0 then 0 else Flow(s, events[0]) + TotalFlow(Step(s, events[0]).store, events[1..])
  }

  /** The completed payments of one invoice. */
  function CompletedFor(payments: seq<Payment>, invoice: nat): int {
    if |payments| == 0 then 0
    else
      var p := payments[|payments| - 1];
      CompletedFor(payments[..|payments| - 1], invoice)
      + if p.invoice == Some(invoice) && p.status == COMPLETED then p.amount else 0
  }

  ghost predicate InvoiceSound(inv: Invoice) {
    && 0 <= inv.paid <= inv.total
    && (inv.status == PAID ==> inv.paid == inv.total)
    && (inv.status != PAID && inv.total > 0 ==> inv.paid < inv.total)
  }

  ghost predicate PaymentSound(s: Store, p: Payment) {
    && p.amount >= 0
    && (p.invoice.Some? ==>
          && p.invoice.value < |s.invoices|
          && p.customer == Some(s.invoices[p.invoice.value].customer))
    && (p.paidBy == FromWallet ==> p.invoice.Some?)
    && (p.customer.Some? ==> p.customer.value < |s.wallets|)
  }

  ghost predicate InvoicesSound(s: Store) {
    forall i :: 0 <= i < |s.invoices| ==> InvoiceSound(s.invoices[i]) && s.invoices[i].customer < |s.wallets|
  }

  /** Every bill shows exactly what its completed payments add up to. */
  ghost predicate BillsAgree(s: Store) {
    forall i :: 0 <= i < |s.invoices| ==> s.invoices[i].paid == CompletedFor(s.payments, i)
  }

  ghost predicate PaymentsSound(s: Store) {
    forall i :: 0 <= i < |s.payments| ==> PaymentSound(s, s.payments[i])
  }

  ghost predicate KeysDistinct(payments: seq<Payment>) {
    forall i, j :: 0 <= i < j < |payments| ==> payments[i].key != payments[j].key
  }

  ghost predicate WalletsSound(wallets: seq<Wallet>) {
    forall c :: 0 <= c < |wallets| ==> Reconciled(wallets[c])
  }

  ghost predicate Inv(s: Store) {
    InvoicesSound(s) && BillsAgree(s) && PaymentsSound(s) && KeysDistinct(s.payments) && WalletsSound(s.wallets)
  }

  // Sums under a single change.

  lemma {:induction false} PaidTotalUpdate(invoices: seq<Invoice>, i: nat, inv: Invoice)
    requires i < |invoices|
    ensures PaidTotal(invoices[i := inv]) == PaidTotal(invoices) - invoices[i].paid + inv.paid
    decreases |invoices|
  {
    var n := |invoices| - 1;
    if i < n {
      PaidTotalUpdate(invoices[..n], i, inv);
      assert invoices[i := inv][..n] == invoices[..n][i := inv];
    } else {
      assert invoices[i := inv][..n] == invoices[..n];
    }
  }

  lemma {:induction false} BalanceTotalUpdate(wallets: seq<Wallet>, i: nat, w: Wallet)
    requires i < |wallets|
    ensures BalanceTotal(wallets[i := w]) == BalanceTotal(wallets) - wallets[i].balance + w.balance
    decreases |wallets|
  {
    var n := |wallets| - 1;
    if i < n {
      BalanceTotalUpdate(wallets[..n], i, w);
      assert wallets[i := w][..n] == wallets[..n][i := w];
    } else {
      assert wallets[i := w][..n] == wallets[..n];
    }
  }

  lemma {:induction false} CompletedForReversed(payments: seq<Payment>, id: nat, invoice: nat)
    requires id < |payments| && payments[id].status == COMPLETED
    ensures CompletedFor(payments[id := payments[id].(status := REVERSED)], invoice)
         == CompletedFor(payments, invoice) - if payments[id].invoice == Some(invoice) then payments[id].amount else 0
    decreases |payments|
  {
    var n := |payments| - 1;
    var p := payments[id].(status := REVERSED);
    if id < n {
      CompletedForReversed(payments[..n], id, invoice);
      assert payments[id := p][..n] == payments[..n][id := p];
    } else {
      assert payments[id := p][..n] == payments[..n];
    }
  }

  lemma CompletedForAppended(payments: seq<Payment>, p: Payment, invoice: nat)
    ensures CompletedFor(payments + [p], invoice)
         == CompletedFor(payments, invoice) + if p.invoice == Some(invoice) && p.status == COMPLETED then p.amount else 0
  {
    assert (payments + [p])[..|payments|] == payments;
  }

  lemma {:induction false} CompletedForNone(payments: seq<Payment>, invoice: nat)
    requires forall i :: 0 <= i < |payments| && payments[i].invoice.Some? ==> payments[i].invoice.value < invoice
    ensures CompletedFor(payments, invoice) == 0
    decreases |payments|
  {
    if |payments| > 0 {
      CompletedForNone(payments[..|payments| - 1], invoice);
    }
  }

  lemma {:induction false} SamePaid(a: seq<Invoice>, b: seq<Invoice>)
    requires |a| == |b| && forall i :: 0 <= i < |a| ==> a[i].paid == b[i].paid
    ensures PaidTotal(a) == PaidTotal(b)
    decreases |a|
  {
    if |a| > 0 {
      SamePaid(a[..|a| - 1], b[..|b| - 1]);
    }
  }

  // ---------------------------------------------------------------------------------------
  // Conservation
  // ---------------------------------------------------------------------------------------

  /** The one request that makes money: paying from the wallet more than the bill needs debits the
      part applied but credits the excess. */
  predicate Overdraws(s: Store, e: Event) {
    e.PayBill? && e.request.paidBy == FromWallet && e.request.invoice < |s.invoices|
    && e.request.amount > s.invoices[e.request.invoice].total - s.invoices[e.request.invoice].paid
  }

  lemma PayConserves(s: Store, r: PayRequest)
    ensures var res := Pay(s, r);
      var drift := if res.outcome == Accepted && Overdraws(s, PayBill(r))
        then r.amount - (s.invoices[r.invoice].total - s.invoices[r.invoice].paid) else 0;
      Holdings(res.store) == Holdings(s) + Flow(s, PayBill(r)) + drift
  {
    var res := Pay(s, r);
    if res.outcome == Accepted {
      var inv := s.invoices[r.invoice];
      var s' := res.store;
      PaidTotalUpdate(s.invoices, r.invoice, s'.invoices[r.invoice]);
      BalanceTotalUpdate(s.wallets, inv.customer, s'.wallets[inv.customer]);
    }
  }

  lemma {:induction false} OnePaymentAtMost(payments: seq<Payment>, id: nat, invoice: nat)
    requires id < |payments| && payments[id].invoice == Some(invoice) && payments[id].status == COMPLETED
    requires forall i :: 0 <= i < |payments| ==> payments[i].amount >= 0
    ensures payments[id].amount <= CompletedFor(payments, invoice)
    decreases |payments|
  {
    var n := |payments| - 1;
    if id < n {
      OnePaymentAtMost(payments[..n], id, invoice);
    } else {
      CompletedForNonNegative(payments[..n], invoice);
    }
  }

  lemma {:induction false} CompletedForNonNegative(payments: seq<Payment>, invoice: nat)
    requires forall i :: 0 <= i < |payments| ==> payments[i].amount >= 0
    ensures 0 <= CompletedFor(payments, invoice)
    decreases |payments|
  {
    if |payments| > 0 {
      CompletedForNonNegative(payments[..|payments| - 1], invoice);
    }
  }

  /** The refund's clamp at zero never cuts anything off. */
  lemma RefundNeverClamps(s: Store, id: nat)
    requires Inv(s) && id < |s.payments| && s.payments[id].status == COMPLETED && s.payments[id].invoice.Some?
    ensures s.payments[id].invoice.value < |s.invoices|
    ensures s.payments[id].amount <= s.invoices[s.payments[id].invoice.value].paid
  {
    var p := s.payments[id];
    assert PaymentSound(s, p);
    forall i | 0 <= i < |s.payments|
      ensures s.payments[i].amount >= 0
    {
      assert PaymentSound(s, s.payments[i]);
    }
    OnePaymentAtMost(s.payments, id, p.invoice.value);
  }

  lemma RefundConserves(s: Store, id: nat)
    requires Inv(s)
    ensures Holdings(Refund(s, id).store) == Holdings(s) + Flow(s, RefundPayment(id))
  {
    hide InvoicesSound, BillsAgree, PaymentSound;
    var res := Refund(s, id);
    if res.outcome == Accepted {
      var p := s.payments[id];
      SoundPayment(s, id);
      if p.invoice.Some? {
        RefundNeverClamps(s, id);
        PaidTotalUpdate(s.invoices, p.invoice.value, res.store.invoices[p.invoice.value]);
      }
      if p.customer.Some? {
        BalanceTotalUpdate(s.wallets, p.customer.value, res.store.wallets[p.customer.value]);
        assert res.store.wallets == s.wallets[p.customer.value := res.store.wallets[p.customer.value]];
      }
    }
  }

  lemma SoundPayment(s: Store, id: nat)
    requires Inv(s) && id < |s.payments|
    ensures s.payments[id].amount >= 0
    ensures s.payments[id].invoice.Some? ==> s.payments[id].customer.Some?
    ensures s.payments[id].paidBy == FromWallet ==> s.payments[id].invoice.Some?
    ensures s.payments[id].customer.Some? ==> s.payments[id].customer.value < |s.wallets|
  {
    assert PaymentSound(s, s.payments[id]);
  }

  /** Conservation, step by step: holdings move by exactly the cash and reward that moved, unless
      the request is the overdrawing one; and that one always breaks it. */
  lemma StepConserves(s: Store, e: Event)
    requires Inv(s)
    ensures Holdings(Step(s, e).store) == Holdings(s) + Flow(s, e)
       <==> !(Step(s, e).outcome == Accepted && Overdraws(s, e))
  {
    hide Inv;
    var s' := Step(s, e).store;
    match e
    case PayBill(r) => PayConserves(s, r);
    case TopUpWallet(c, amount, key) =>
      if Step(s, e).outcome == Accepted {
        BalanceTotalUpdate(s.wallets, c, s'.wallets[c]);
      }
    case RefundPayment(id) => RefundConserves(s, id);
    case RewardCredit(c, amount) =>
      if c < |s.wallets| && amount > 0 {
        BalanceTotalUpdate(s.wallets, c, s'.wallets[c]);
      }
    case IssueInvoice(c, total, due) =>
      if c < |s.wallets| {
        assert s'.invoices[..|s.invoices|] == s.invoices;
      }
    case SweepOverdue(now) => SamePaid(s.invoices, s'.invoices);
    case VoidInvoice(id) =>
      SamePaid(s.invoices, s'.invoices);
    case AbandonInvoice(id) =>
      SamePaid(s.invoices, s'.invoices);
    case SweepServices(_) =>
  }

  // ---------------------------------------------------------------------------------------
  // The invariant
  // ---------------------------------------------------------------------------------------

  lemma SamePayments(s: Store, s': Store)
    requires PaymentsSound(s) && s'.payments == s.payments && |s'.wallets| >= |s.wallets| && |s'.invoices| >= |s.invoices|
    requires forall i :: 0 <= i < |s.invoices| ==> s'.invoices[i].customer == s.invoices[i].customer
    ensures PaymentsSound(s')
  {
    forall i | 0 <= i < |s'.payments|
      ensures PaymentSound(s', s'.payments[i])
    {
      assert PaymentSound(s, s.payments[i]);
    }
  }

  lemma CreditedSound(wallets: seq<Wallet>, c: nat, amount: int)
    requires WalletsSound(wallets) && c < |wallets|
    ensures Credited(wallets[c], amount).Some? ==> WalletsSound(wallets[c := Credited(wallets[c], amount).value])
    ensures Debited(wallets[c], amount).Some? ==> WalletsSound(wallets[c := Debited(wallets[c], amount).value])
  {
    MovementsReconcile(wallets[c], amount);
  }

  /** One more payment row: keys stay distinct, and only its invoice's sum grows. */
  lemma PaymentAppended(s: Store, p: Payment)
    requires PaymentsSound(s) && KeysDistinct(s.payments)
    requires !KeyUsed(s.payments, p.key) && PaymentSound(s, p)
    ensures KeysDistinct(s.payments + [p])
    ensures PaymentsSound(s.(payments := s.payments + [p]))
  {
    var s' := s.(payments := s.payments + [p]);
    forall i | 0 <= i < |s'.payments|
      ensures PaymentSound(s', s'.payments[i])
    {
      assert i < |s.payments| ==> PaymentSound(s, s.payments[i]);
    }
  }

  lemma PayKeepsInvoices(s: Store, r: PayRequest)
    requires Inv(s) && Pay(s, r).outcome == Accepted
    ensures InvoicesSound(Pay(s, r).store)
  {
    var s' := Pay(s, r).store;
    assert InvoiceSound(s.invoices[r.invoice]);
    forall i | 0 <= i < |s'.invoices|
      ensures InvoiceSound(s'.invoices[i]) && s'.invoices[i].customer < |s'.wallets|
    {
      assert InvoiceSound(s.invoices[i]);
    }
  }

  lemma PayKeepsAgreement(s: Store, r: PayRequest)
    requires Inv(s) && Pay(s, r).outcome == Accepted
    ensures BillsAgree(Pay(s, r).store)
  {
    var s' := Pay(s, r).store;
    forall i | 0 <= i < |s'.invoices|
      ensures s'.invoices[i].paid == CompletedFor(s'.payments, i)
    {
      CompletedForAppended(s.payments, s'.payments[|s.payments|], i);
    }
  }

  lemma PayKeepsWallets(s: Store, r: PayRequest)
    requires Inv(s) && Pay(s, r).outcome == Accepted
    ensures WalletsSound(Pay(s, r).store.wallets)
  {
    hide Reconciled;
    var inv := s.invoices[r.invoice];
    var w := s.wallets[inv.customer];
    var remaining := inv.total - inv.paid;
    var applied := if r.amount > remaining then remaining else r.amount;
    MovementsReconcile(w, applied);
    var w1 := if r.paidBy == FromWallet then Debited(w, applied).value else w;
    MovementsReconcile(w1, r.amount - applied);
  }

  lemma PayKeepsInv(s: Store, r: PayRequest)
    requires Inv(s)
    ensures Inv(Pay(s, r).store)
  {
    var res := Pay(s, r);
    if res.outcome == Accepted {
      PayKeepsInvoices(s, r);
      PayKeepsAgreement(s, r);
      PayKeepsWallets(s, r);
      var p := res.store.payments[|s.payments|];
      assert InvoiceSound(s.invoices[r.invoice]);
      PaymentAppended(s, p);
      SamePayments(s.(payments := s.payments + [p]), res.store);
    }
  }

  lemma TopUpKeepsInv(s: Store, customer: nat, amount: int, key: Key)
    requires Inv(s)
    ensures Inv(TopUp(s, customer, amount, key).store)
  {
    var res := TopUp(s, customer, amount, key);
    if res.outcome == Accepted {
      var s' := res.store;
      var p := s'.payments[|s.payments|];
      CreditedSound(s.wallets, customer, amount);
      PaymentAppended(s, p);
      SamePayments(s.(payments := s.payments + [p]), s');
      forall i | 0 <= i < |s'.invoices|
        ensures s'.invoices[i].paid == CompletedFor(s'.payments, i)
      {
        CompletedForAppended(s.payments, p, i);
      }
    }
  }

  lemma RefundKeepsPayments(s: Store, id: nat)
    requires Inv(s) && Refund(s, id).outcome == Accepted
    ensures PaymentsSound(Refund(s, id).store) && KeysDistinct(Refund(s, id).store.payments)
  {
    var s' := Refund(s, id).store;
    assert |s'.wallets| == |s.wallets| && |s'.invoices| == |s.invoices|;
    forall i | 0 <= i < |s'.payments|
      ensures PaymentSound(s', s'.payments[i]) && s'.payments[i].key == s.payments[i].key
    {
      assert PaymentSound(s, s.payments[i]);
    }
  }

  lemma RefundKeepsBills(s: Store, id: nat)
    requires Inv(s) && Refund(s, id).outcome == Accepted
    ensures InvoicesSound(Refund(s, id).store) && BillsAgree(Refund(s, id).store)
  {
    var s' := Refund(s, id).store;
    var p := s.payments[id];
    SoundPayment(s, id);
    if p.invoice.Some? {
      RefundNeverClamps(s, id);
    }
    forall i | 0 <= i < |s'.invoices|
      ensures InvoiceSound(s'.invoices[i]) && s'.invoices[i].customer < |s'.wallets|
      ensures s'.invoices[i].paid == CompletedFor(s'.payments, i)
    {
      assert InvoiceSound(s.invoices[i]);
      CompletedForReversed(s.payments, id, i);
    }
  }

  lemma RefundKeepsInv(s: Store, id: nat)
    requires Inv(s)
    ensures Inv(Refund(s, id).store)
  {
    if Refund(s, id).outcome == Accepted {
      RefundKeepsPayments(s, id);
      RefundKeepsBills(s, id);
      var p := s.payments[id];
      if p.customer.Some? && p.customer.value < |s.wallets| {
        CreditedSound(s.wallets, p.customer.value, p.amount);
      }
    }
  }

  /** Rewriting statuses only, to statuses that fit what is paid, disturbs nothing. */
  lemma Restatused(s: Store, s': Store)
    requires Inv(s) && s' == s.(invoices := s'.invoices) && |s'.invoices| == |s.invoices|
    requires forall i :: 0 <= i < |s.invoices| ==> s'.invoices[i] == s.invoices[i].(status := s'.invoices[i].status)
    requires forall i :: 0 <= i < |s.invoices| ==>
               s'.invoices[i] == s.invoices[i] || (s'.invoices[i].status != PAID && s.invoices[i].status != PAID)
    ensures Inv(s')
  {
    SamePayments(s, s');
    forall i | 0 <= i < |s'.invoices|
      ensures InvoiceSound(s'.invoices[i])
    {
      assert InvoiceSound(s.invoices[i]);
    }
  }

  /** The books do not look at the services. */
  lemma ServicesAside(s: Store, services: seq<Service>)
    requires Inv(s)
    ensures Inv(s.(services := services))
  {
    var s' := s.(services := services);
    assert forall i :: 0 <= i < |s.payments| ==> PaymentSound(s, s.payments[i]) && PaymentSound(s', s.payments[i]);
  }

  lemma IssueKeepsInv(s: Store, customer: nat, total: nat, due: int)
    requires Inv(s)
    ensures Inv(Issue(s, customer, total, due).store)
  {
    var s' := Issue(s, customer, total, due).store;
    if customer < |s.wallets| {
      SamePayments(s, s');
      forall i | 0 <= i < |s.payments| && s.payments[i].invoice.Some?
        ensures s.payments[i].invoice.value < |s.invoices|
      {
        assert PaymentSound(s, s.payments[i]);
      }
      CompletedForNone(s.payments, |s.invoices|);
    }
  }

  lemma RewardKeepsInv(s: Store, customer: nat, amount: int)
    requires Inv(s)
    ensures Inv(Reward(s, customer, amount).store)
  {
    if customer < |s.wallets| {
      CreditedSound(s.wallets, customer, amount);
      SamePayments(s, Reward(s, customer, amount).store);
    }
  }

  lemma StepKeepsInv(s: Store, e: Event)
    requires Inv(s)
    ensures Inv(Step(s, e).store)
  {
    hide Inv;
    match e
    case PayBill(r) => PayKeepsInv(s, r);
    case TopUpWallet(c, amount, key) => TopUpKeepsInv(s, c, amount, key);
    case RefundPayment(id) => RefundKeepsInv(s, id);
    case RewardCredit(c, amount) => RewardKeepsInv(s, c, amount);
    case IssueInvoice(c, total, due) => IssueKeepsInv(s, c, total, due);
    case SweepOverdue(now) => Restatused(s, Step(s, e).store);
    case VoidInvoice(id) => Restatused(s, Step(s, e).store);
    case AbandonInvoice(id) => Restatused(s, Step(s, e).store);
    case SweepServices(now) => ServicesAside(s, Step(s, e).store.services);
  }

  // ---------------------------------------------------------------------------------------
  // Runs
  // ---------------------------------------------------------------------------------------

  /** No accepted step of the run overdraws. */
  ghost predicate NoOverdraw(s: Store, events: seq<Event>)
    decreases |events|
  {
    |events| == 0
    || (!(Step(s, events[0]).outcome == Accepted && Overdraws(s, events[0]))
        && NoOverdraw(Step(s, events[0]).store, events[1..]))
  }

  /** Over every run: bills agree with payments, wallets with ledgers, nothing is overpaid, and
      what is held is what was held plus what came in and minus what went out. */
  lemma {:induction false} RunKeepsTheBooks(s: Store, events: seq<Event>)
    requires Inv(s)
    ensures Inv(Run(s, events))
    ensures NoOverdraw(s, events) ==> Holdings(Run(s, events)) == Holdings(s) + TotalFlow(s, events)
    decreases |events|
  {
    hide Inv, Step, Flow, Overdraws, Holdings;
    if |events| > 0 {
      StepKeepsInv(s, events[0]);
      StepConserves(s, events[0]);
      RunKeepsTheBooks(Step(s, events[0]).store, events[1..]);
    }
  }

  // ---------------------------------------------------------------------------------------
  // Idempotency
  // ---------------------------------------------------------------------------------------

  /** A request that carries an idempotency key. */
  function KeyOf(e: Event): Option<Key> {
    match e
    case PayBill(r) => Some(r.key)
    case TopUpWallet(_, _, key) => Some(key)
    case _ => None
  }

  lemma StepKeepsKeys(s: Store, e: Event, key: Key)
    requires KeyUsed(s.payments, key)
    ensures KeyUsed(Step(s, e).store.payments, key)
  {
    var i :| 0 <= i < |s.payments| && s.payments[i].key == key;
    assert i < |Step(s, e).store.payments| && Step(s, e).store.payments[i].key == key;
  }

  lemma {:induction false} RunKeepsKeys(s: Store, events: seq<Event>, key: Key)
    requires KeyUsed(s.payments, key)
    ensures KeyUsed(Run(s, events).payments, key)
    decreases |events|
  {
    hide KeyUsed, Step;
    if |events| > 0 {
      StepKeepsKeys(s, events[0], key);
      RunKeepsKeys(Step(s, events[0]).store, events[1..], key);
    }
  }

  lemma {:induction false} RunConcat(s: Store, before: seq<Event>, after: seq<Event>)
    ensures Run(s, before + after) == Run(Run(s, before), after)
    decreases |before|
  {
    hide Step;
    if |before| == 0 {
      assert before + after == after;
    } else {
      assert (before + after)[1..] == before[1..] + after;
      RunConcat(Step(s, before[0]).store, before[1..], after);
    }
  }

  /** A request replayed under a key some earlier step of the run used up changes nothing, wherever
      in the rest of the run it arrives, whatever amount or bill it names. */
  lemma ReplayAnywhere(s: Store, before: seq<Event>, between: seq<Event>, after: seq<Event>, replay: Event)
    requires KeyOf(replay).Some?
    requires KeyUsed(Run(s, before).payments, KeyOf(replay).value)
    ensures Run(s, before + between + [replay] + after) == Run(s, before + between + after)
  {
    hide Step, KeyUsed;
    RunConcat(s, before, between);
    RunKeepsKeys(Run(s, before), between, KeyOf(replay).value);
    var t := Run(s, before + between);
    RunConcat(s, before + between, [replay] + after);
    RunConcat(s, before + between, after);
    assert before + between + [replay] + after == before + between + ([replay] + after);
    assert ([replay] + after)[1..] == after;
    ReplayIsNothing(t, replay);
  }

  lemma ReplayIsNothing(s: Store, e: Event)
    requires KeyOf(e).Some? && KeyUsed(s.payments, KeyOf(e).value)
    ensures Step(s, e).store == s
  {
  }

  /** An accepted payment or top-up uses its key up. */
  lemma AcceptedUsesKey(s: Store, e: Event)
    requires KeyOf(e).Some? && Step(s, e).outcome == Accepted
    ensures KeyUsed(Step(s, e).store.payments, KeyOf(e).value)
  {
    assert Step(s, e).store.payments[|s.payments|].key == KeyOf(e).value;
  }
}
