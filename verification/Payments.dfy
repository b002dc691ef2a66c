/** Invoices, payments, wallets and services in one store, and the transactions on them
    (packages/billing/src/payment.service.ts, invoice.service.ts, billing-cycle.service.ts).
    A table is a sequence of rows and a row's id its position; a transaction that throws leaves
    the store as it was. */
module Payments {
  import opened Optional
  import Wallets

  datatype InvoiceStatus = DRAFT | PENDING | PARTIALLY_PAID | OVERDUE | PAID | CANCELLED | VOIDED

  datatype Invoice = Invoice(customer: nat, status: InvoiceStatus, total: nat, paid: int, due: int)

  /** Money the wallet pays with, or money that comes in from outside (cash, bank, M-Pesa, Paystack). */
  datatype Method = FromWallet | FromOutside

  datatype PaymentStatus = COMPLETED | REVERSED

  /** Keys a caller chose, and the ones an agent's collection makes from its request. */
  datatype Key = Client(id: nat) | AgentBill(request: nat, invoice: nat) | AgentWallet(request: nat)

  datatype Payment = Payment(customer: Option<nat>, invoice: Option<nat>, paidBy: Method, status: PaymentStatus,
                             amount: int, key: Key)

  datatype ServiceStatus = ACTIVE | SUSPENDED | ENDED

  /** A paused plan is suspended with an end date for its pause. */
  datatype Service = Service(customer: nat, status: ServiceStatus, pausedUntil: Option<int>)

  datatype Store = Store(invoices: seq<Invoice>, payments: seq<Payment>, wallets: seq<Wallets.Wallet>, services: seq<Service>)

  datatype Outcome = Accepted | Replayed | Refused

  datatype Result = Result(store: Store, outcome: Outcome)

  datatype PayRequest = PayRequest(invoice: nat, paidBy: Method, amount: int, key: Key, allowOverpayment: bool)

  // ---------------------------------------------------------------------------------------
  // Reading the store
  // ---------------------------------------------------------------------------------------

  predicate KeyUsed(payments: seq<Payment>, key: Key) {
    exists i :: 0 <= i < |payments| && payments[i].key == key
  }

  /** Statuses that still ask for money. */
  predicate Unpaid(status: InvoiceStatus) {
    status == PENDING || status == PARTIALLY_PAID || status == OVERDUE
  }

  predicate OwesOther(invoices: seq<Invoice>, customer: nat, except: nat) {
    exists i :: 0 <= i < |invoices| && i != except && invoices[i].customer == customer && Unpaid(invoices[i].status)
  }

  predicate Owes(invoices: seq<Invoice>, customer: nat) {
    exists i :: 0 <= i < |invoices| && invoices[i].customer == customer && Unpaid(invoices[i].status)
  }

  /** The payment's own reactivation: it never looks at pausedUntil. */
  function Reactivated(services: seq<Service>, customer: nat): (r: seq<Service>)
    ensures |r| == |services|
  {
    seq(|services|, i requires 0 <= i < |services| =>
      if services[i].customer == customer && services[i].status == SUSPENDED
      then services[i].(status := ACTIVE) else services[i])
  }

  // ---------------------------------------------------------------------------------------
  // Transactions
  // ---------------------------------------------------------------------------------------

  /** A payment against an invoice: the part the invoice needs, and the excess to the wallet. */
  function Pay(s: Store, r: PayRequest): Result {
    if r.amount <= 0 then Result(s, Refused)
    else if KeyUsed(s.payments, r.key) then Result(s, Replayed)
    else if r.invoice >= |s.invoices| then Result(s, Refused)
    else
      var inv := s.invoices[r.invoice];
      var remaining := inv.total - inv.paid;
      var applied := if r.amount > remaining then remaining else r.amount;
      if inv.status == VOIDED || inv.status == CANCELLED || inv.status == PAID then Result(s, Refused)
      else if r.amount > remaining && !r.allowOverpayment then Result(s, Refused)
      else if inv.customer >= |s.wallets| then Result(s, Refused)
      else
        var wallet := s.wallets[inv.customer];
        var debited := if r.paidBy == FromWallet then Wallets.Debited(wallet, applied) else Some(wallet);
        if debited.None? then Result(s, Refused)
        else Result(Applied(s, r, applied, r.amount - applied, debited.value), Accepted)
  }

  function PaidUp(inv: Invoice, applied: int): Invoice {
    var paid := inv.paid + applied;
    inv.(paid := paid, status := if paid >= inv.total then PAID else PARTIALLY_PAID)
  }

  function Applied(s: Store, r: PayRequest, applied: int, excess: int, wallet: Wallets.Wallet): Store
    requires r.invoice < |s.invoices| && s.invoices[r.invoice].customer < |s.wallets|
  {
    var inv := s.invoices[r.invoice];
    var inv' := PaidUp(inv, applied);
    var credited := Wallets.Credited(wallet, excess);
    Store(s.invoices[r.invoice := inv'],
          s.payments + [Payment(Some(inv.customer), Some(r.invoice), r.paidBy, COMPLETED, applied, r.key)],
          s.wallets[inv.customer := if credited.Some? then credited.value else wallet],
          if inv'.status == PAID && !OwesOther(s.invoices, inv.customer, r.invoice)
          then Reactivated(s.services, inv.customer) else s.services)
  }

  function TopUp(s: Store, customer: nat, amount: int, key: Key): Result {
    if amount <= 0 then Result(s, Refused)
    else if KeyUsed(s.payments, key) then Result(s, Replayed)
    else if customer >= |s.wallets| then Result(s, Refused)
    else
      Result(s.(payments := s.payments + [Payment(Some(customer), None, FromOutside, COMPLETED, amount, key)],
                wallets := s.wallets[customer := Wallets.Credited(s.wallets[customer], amount).value]),
             Accepted)
  }

  function Unpaying(inv: Invoice, amount: int): Invoice {
    var paid := if inv.paid - amount < 0 then 0 else inv.paid - amount;
    inv.(paid := paid,
         status := if paid <= 0 then PENDING else if paid < inv.total then PARTIALLY_PAID else PAID)
  }

  /** The wallet side of a reversal: a wallet payment goes back in, a top-up comes back out. */
  function RefundedWallet(s: Store, p: Payment): Option<seq<Wallets.Wallet>> {
    if p.customer.None? || p.customer.value >= |s.wallets| then Some(s.wallets)
    else
      var c := p.customer.value;
      if p.paidBy == FromWallet then
        var w := Wallets.Credited(s.wallets[c], p.amount);
        if w.None? then None else Some(s.wallets[c := w.value])
      else if p.invoice.None? then
        var w := Wallets.Debited(s.wallets[c], p.amount);
        if w.None? then None else Some(s.wallets[c := w.value])
      else Some(s.wallets)
  }

  function Refund(s: Store, id: nat): Result {
    if id >= |s.payments| || s.payments[id].status != COMPLETED then Result(s, Refused)
    else
      var p := s.payments[id];
      var wallets := RefundedWallet(s, p);
      if wallets.None? then Result(s, Refused)
      else if p.invoice.Some? && p.invoice.value >= |s.invoices| then Result(s, Refused)
      else
        Result(s.(payments := s.payments[id := p.(status := REVERSED)],
                  wallets := wallets.value,
                  invoices := if p.invoice.None? then s.invoices
                              else s.invoices[p.invoice.value := Unpaying(s.invoices[p.invoice.value], p.amount)]),
               Accepted)
  }

  /** A referral reward paid as credit; nothing when the reward is zero. */
  function Reward(s: Store, customer: nat, amount: int): Result {
    if customer >= |s.wallets| then Result(s, Refused)
    else
      var w := Wallets.Credited(s.wallets[customer], amount);
      Result(if w.None? then s else s.(wallets := s.wallets[customer := w.value]), Accepted)
  }

  function Issue(s: Store, customer: nat, total: nat, due: int): Result {
    if customer >= |s.wallets| then Result(s, Refused)
    else Result(s.(invoices := s.invoices + [Invoice(customer, PENDING, total, 0, due)]), Accepted)
  }

  function Overdue(invoices: seq<Invoice>, now: int): (r: seq<Invoice>)
    ensures |r| == |invoices|
  {
    seq(|invoices|, i requires 0 <= i < |invoices| =>
      if (invoices[i].status == PENDING || invoices[i].status == PARTIALLY_PAID) && invoices[i].due < now
      then invoices[i].(status := OVERDUE) else invoices[i])
  }

  function MarkOverdue(s: Store, now: int): Result {
    Result(s.(invoices := Overdue(s.invoices, now)), Accepted)
  }

  predicate PauseOver(service: Service, now: int) {
    service.pausedUntil.None? || service.pausedUntil.value <= now
  }

  /** The sweep's reactivation: customers who owe nothing, and no plan inside its pause. */
  function Swept(services: seq<Service>, invoices: seq<Invoice>, now: int): (r: seq<Service>)
    ensures |r| == |services|
  {
    seq(|services|, i requires 0 <= i < |services| =>
      if services[i].status == SUSPENDED && PauseOver(services[i], now) && !Owes(invoices, services[i].customer)
      then services[i].(status := ACTIVE) else services[i])
  }

  function ReactivateCleared(s: Store, now: int): Result {
    Result(s.(services := Swept(s.services, s.invoices, now)), Accepted)
  }

  function OverdueCount(invoices: seq<Invoice>, now: int): nat {
    if |invoices| == 0 then 0
    else
      var inv := invoices[|invoices| - 1];
      OverdueCount(invoices[..|invoices| - 1], now)
      + if (inv.status == PENDING || inv.status == PARTIALLY_PAID) && inv.due < now then 1 else 0
  }

  /** Voiding looks at the status only, so a part-paid invoice that fell overdue can be voided. */
  function Annul(s: Store, id: nat): Result {
    if id >= |s.invoices| || s.invoices[id].status == PAID || s.invoices[id].status == PARTIALLY_PAID
    then Result(s, Refused)
    else Result(s.(invoices := s.invoices[id := s.invoices[id].(status := VOIDED)]), Accepted)
  }

  /** An add-on nobody paid for is cancelled with its invoice. */
  function Abandon(s: Store, id: nat): Result {
    if id >= |s.invoices| || s.invoices[id].paid > 0 || (s.invoices[id].status != PENDING && s.invoices[id].status != OVERDUE)
    then Result(s, Refused)
    else Result(s.(invoices := s.invoices[id := s.invoices[id].(status := CANCELLED)]), Accepted)
  }
}
