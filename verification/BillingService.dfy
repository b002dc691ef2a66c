/** The billing store as the services change it, field by field and row by row
    (packages/billing/src/payment.service.ts, wallet.service.ts, agent.service.ts,
    billing-cycle.service.ts, invoice.service.ts). Each method is one database transaction and is
    proved against the function of the same transaction in Payments or AgentCash. */
module BillingService {
  import AgentCash
  import Integers
  import opened Optional
  import opened Payments
  import Wallets

  function SwitchedOn(before: seq<Service>, after: seq<Service>): nat
    requires |before| == |after|
  {
    if |before| == 0 then 0
    else
      var n := |before| - 1;
      SwitchedOn(before[..n], after[..n]) + if before[n].status == SUSPENDED && after[n].status == ACTIVE then 1 else 0
  }

  /** The services that were suspended and are on, each counted once. */
  lemma {:induction false} SwitchedOnCounted(before: seq<Service>, after: seq<Service>)
    requires |before| == |after|
    ensures SwitchedOn(before, after) == |set i | 0 <= i < |before| && before[i].status == SUSPENDED && after[i].status == ACTIVE|
    decreases |before|
  {
    if |before| > 0 {
      var n := |before| - 1;
      SwitchedOnCounted(before[..n], after[..n]);
      var on := set i | 0 <= i < |before| && before[i].status == SUSPENDED && after[i].status == ACTIVE;
      assert on == (set i | 0 <= i < n && before[..n][i].status == SUSPENDED && after[..n][i].status == ACTIVE)
                   + if n in on then {n} else {};
    }
  }

  class Billing {
    var invoices: seq<Invoice>
    var payments: seq<Payment>
    var wallets: seq<Wallets.Wallet>
    var services: seq<Service>

    ghost function Model(): Store
      reads this
    {
      Store(invoices, payments, wallets, services)
    }

    method CreditWallet(customer: nat, amount: int) returns (ok: bool)
      requires customer < |wallets|
      modifies this`wallets
      ensures ok == Wallets.Credited(old(wallets)[customer], amount).Some?
      ensures wallets == if ok then old(wallets)[customer := Wallets.Credited(old(wallets)[customer], amount).value] else old(wallets)
    {
      if amount <= 0 {
        return false;
      }
      var balance := wallets[customer].balance + amount;
      wallets := wallets[customer := Wallets.Wallet(balance, wallets[customer].ledger + [Wallets.Credit(amount, balance)])];
      ok := true;
    }

    method DebitWallet(customer: nat, amount: int) returns (ok: bool)
      requires customer < |wallets|
      modifies this`wallets
      ensures ok == Wallets.Debited(old(wallets)[customer], amount).Some?
      ensures wallets == if ok then old(wallets)[customer := Wallets.Debited(old(wallets)[customer], amount).value] else old(wallets)
    {
      if amount <= 0 || wallets[customer].balance < amount {
        return false;
      }
      var balance := wallets[customer].balance - amount;
      wallets := wallets[customer := Wallets.Wallet(balance, wallets[customer].ledger + [Wallets.Debit(amount, balance)])];
      ok := true;
    }

    /** The loop that switches a cleared customer's suspended services back on. */
    method ReactivateSuspended(customer: nat)
      modifies this`services
      ensures services == Reactivated(old(services), customer)
    {
      var i := 0;
      while i < |services|
        invariant i <= |services| == |old(services)|
        invariant services[..i] == Reactivated(old(services), customer)[..i]
        invariant services[i..] == old(services)[i..]
      {
        assert services[i] == old(services)[i];
        if services[i].customer == customer && services[i].status == SUSPENDED {
          services := services[i := services[i].(status := ACTIVE)];
        }
        i := i + 1;
      }
      assert services[..i] == services;
    }

    method RecordPayment(r: PayRequest) returns (outcome: Outcome)
      modifies this
      ensures Result(Model(), outcome) == Pay(old(Model()), r)
    {
      if r.amount <= 0 {
        return Refused;
      }
      if KeyUsed(payments, r.key) {
        return Replayed;
      }
      if r.invoice >= |invoices| {
        return Refused;
      }
      var inv := invoices[r.invoice];
      if inv.status == VOIDED || inv.status == CANCELLED || inv.status == PAID || inv.customer >= |wallets| {
        return Refused;
      }
      var remaining := inv.total - inv.paid;
      var applied, excess := r.amount, 0;
      if r.amount > remaining {
        if !r.allowOverpayment {
          return Refused;
        }
        applied, excess := remaining, r.amount - remaining;
      }
      if r.paidBy == FromWallet {
        var ok := DebitWallet(inv.customer, applied);
        if !ok {
          return Refused;
        }
      }
      payments := payments + [Payment(Some(inv.customer), Some(r.invoice), r.paidBy, COMPLETED, applied, r.key)];
      var paid := inv.paid + applied;
      var newStatus := if paid >= inv.total then PAID else PARTIALLY_PAID;
      var before := invoices;
      invoices := invoices[r.invoice := inv.(paid := paid, status := newStatus)];
      if newStatus == PAID && !OwesOther(before, inv.customer, r.invoice) {
        ReactivateSuspended(inv.customer);
      }
      if excess > 0 {
        var ok := CreditWallet(inv.customer, excess);
      }
      outcome := Accepted;
    }

    method TopUpWallet(customer: nat, amount: int, key: Key) returns (outcome: Outcome)
      modifies this
      ensures Result(Model(), outcome) == TopUp(old(Model()), customer, amount, key)
    {
      if amount <= 0 {
        return Refused;
      }
      if KeyUsed(payments, key) {
        return Replayed;
      }
      if customer >= |wallets| {
        return Refused;
      }
      payments := payments + [Payment(Some(customer), None, FromOutside, COMPLETED, amount, key)];
      var ok := CreditWallet(customer, amount);
      outcome := Accepted;
    }

    method RefundPayment(id: nat) returns (outcome: Outcome)
      modifies this
      ensures Result(Model(), outcome) == Refund(old(Model()), id)
    {
      if id >= |payments| || payments[id].status != COMPLETED {
        return Refused;
      }
      var p := payments[id];
      if p.invoice.Some? && p.invoice.value >= |invoices| {
        return Refused;
      }
      if p.customer.Some? && p.customer.value < |wallets| {
        if p.paidBy == FromWallet {
          var ok := CreditWallet(p.customer.value, p.amount);
          if !ok {
            return Refused;
          }
        } else if p.invoice.None? {
          var ok := DebitWallet(p.customer.value, p.amount);
          if !ok {
            return Refused;
          }
        }
      }
      if p.invoice.Some? {
        var inv := invoices[p.invoice.value];
        var paid := if inv.paid - p.amount < 0 then 0 else inv.paid - p.amount;
        var newStatus := if paid <= 0 then PENDING else if paid < inv.total then PARTIALLY_PAID else PAID;
        invoices := invoices[p.invoice.value := inv.(paid := paid, status := newStatus)];
      }
      payments := payments[id := p.(status := REVERSED)];
      outcome := Accepted;
    }

    /** The overdue sweep, row by row. */
    method MarkOverdueInvoices(now: int) returns (affected: nat)
      modifies this`invoices
      ensures Model() == MarkOverdue(old(Model()), now).store
      ensures affected == OverdueCount(old(invoices), now)
    {
      affected := 0;
      var i := 0;
      while i < |invoices|
        invariant i <= |invoices| == |old(invoices)|
        invariant forall j :: 0 <= j < i ==> invoices[j] == Overdue(old(invoices), now)[j]
        invariant forall j :: i <= j < |invoices| ==> invoices[j] == old(invoices)[j]
        invariant affected == OverdueCount(old(invoices)[..i], now)
      {
        assert old(invoices)[..i + 1][..i] == old(invoices)[..i];
        var inv := invoices[i];
        assert inv == old(invoices)[i];
        if (inv.status == PENDING || inv.status == PARTIALLY_PAID) && inv.due < now {
          invoices := invoices[i := inv.(status := OVERDUE)];
          affected := affected + 1;
        }
        i := i + 1;
      }
      assert old(invoices)[..i] == old(invoices);
    }

    /** The sweep over suspended plans, which leaves one inside its pause alone. */
    method ReactivateClearedSubscriptions(now: int) returns (affected: nat)
      modifies this`services
      ensures Model() == ReactivateCleared(old(Model()), now).store
      ensures affected == SwitchedOn(old(services), services)
    {
      affected := 0;
      var i := 0;
      while i < |services|
        invariant i <= |services| == |old(services)|
        invariant services[..i] == Swept(old(services), invoices, now)[..i]
        invariant services[i..] == old(services)[i..]
        invariant affected == SwitchedOn(old(services)[..i], services[..i])
      {
        ghost var before := services[..i];
        assert services[i] == old(services)[i];
        assert old(services)[..i + 1][..i] == old(services)[..i];
        if services[i].status == SUSPENDED && PauseOver(services[i], now) && !Owes(invoices, services[i].customer) {
          services := services[i := services[i].(status := ACTIVE)];
          affected := affected + 1;
        }
        assert services[..i + 1][..i] == before;
        i := i + 1;
      }
      assert services[..i] == services && old(services)[..i] == old(services);
    }

    method VoidInvoice(id: nat) returns (outcome: Outcome)
      modifies this
      ensures Result(Model(), outcome) == Annul(old(Model()), id)
    {
      if id >= |invoices| || invoices[id].status == PAID || invoices[id].status == PARTIALLY_PAID {
        return Refused;
      }
      invoices := invoices[id := invoices[id].(status := VOIDED)];
      outcome := Accepted;
    }

    /** An agent's collection: the loop over the open bills in due order, then the wallet. A refused
        payment inside it would throw and roll the whole transaction back. */
    method CollectAgentPayment(customer: nat, order: seq<nat>, amount: int, request: nat) returns (ok: bool)
      requires forall j :: 0 <= j < |order| ==> order[j] < |invoices|
      modifies this
      ensures ok == AgentCash.Collect(old(Model()), customer, order, amount, request).Collected?
      ensures Model() == if ok then AgentCash.Collect(old(Model()), customer, order, amount, request).store else old(Model())
    {
      if amount <= 0 || customer >= |wallets| {
        return false;
      }
      var i0, p0, w0, s0 := invoices, payments, wallets, services;
      var left := amount;
      var k := 0;
      while k < |order| && left > 0
        invariant k <= |order| && |invoices| == |i0|
        invariant AgentCash.PayBills(old(Model()), order, amount, request) == AgentCash.PayBills(Model(), order[k..], left, request)
      {
        var i := order[k];
        assert order[k..][0] == i && order[k..][1..] == order[k + 1..];
        var due := invoices[i].total - invoices[i].paid;
        if due > 0 {
          var part := Integers.Min(due, left);
          var outcome := RecordPayment(AgentCash.BillRequest(i, part, request));
          if outcome == Refused {
            invoices, payments, wallets, services := i0, p0, w0, s0;
            return false;
          }
          left := left - part;
        }
        k := k + 1;
      }
      if left > 0 {
        var outcome := TopUpWallet(customer, left, AgentWallet(request));
        if outcome == Refused {
          invoices, payments, wallets, services := i0, p0, w0, s0;
          return false;
        }
      }
      ok := true;
    }
  }
}
