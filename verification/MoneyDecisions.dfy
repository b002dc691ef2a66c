/** When each money transaction is accepted, and every row it then writes, said of the rows alone
    (packages/billing/src/payment.service.ts, wallet.service.ts, invoice.service.ts,
    billing-cycle.service.ts). */
module MoneyDecisions {
  import opened Optional
  import opened Payments
  import W = Wallets

  /** Waiting to be paid: PENDING, PARTIALLY_PAID or OVERDUE. */
  ghost predicate AsksForMoney(inv: Invoice) {
    inv.status != DRAFT && inv.status != PAID && inv.status != CANCELLED && inv.status != VOIDED
  }

  ghost predicate NewKey(s: Store, key: Key) {
    forall p :: p in s.payments ==> p.key != key
  }

  /** One wallet has moved by `amount` with one more row in its ledger, or not at all when it is zero. */
  ghost predicate Moved(w: W.Wallet, w': W.Wallet, amount: int) {
    && w'.balance == w.balance + amount
    && w'.ledger == w.ledger + (if amount > 0 then [W.Credit(amount, w'.balance)]
                                else if amount < 0 then [W.Debit(-amount, w'.balance)] else [])
  }

  // ---------------------------------------------------------------------------------------
  // Wallets
  // ---------------------------------------------------------------------------------------

  /** A credit needs a positive amount, a debit one that the balance covers. */
  lemma MovementDecides(w: W.Wallet, amount: int)
    ensures W.Credited(w, amount).Some? <==> amount >= 1
    ensures W.Credited(w, amount).Some? ==> Moved(w, W.Credited(w, amount).value, amount)
    ensures W.Debited(w, amount).Some? <==> 1 <= amount <= w.balance
    ensures W.Debited(w, amount).Some? ==> Moved(w, W.Debited(w, amount).value, -amount)
  {
  }

  // ---------------------------------------------------------------------------------------
  // Payments
  // ---------------------------------------------------------------------------------------

  /** What the bill takes of the amount offered. */
  ghost function Part(inv: Invoice, amount: int): int {
    if inv.paid + amount <= inv.total then amount else inv.total - inv.paid
  }

  /** A payment of a positive amount under a used key is a replay. Otherwise it is accepted exactly
      when the bill exists, is neither settled, cancelled nor void, is not overpaid against the
      caller's wish, and, if the wallet pays, the balance covers the part the bill takes. */
  lemma PaymentDecides(s: Store, r: PayRequest)
    ensures var res := Pay(s, r);
      && (res.outcome == Replayed <==> r.amount > 0 && !NewKey(s, r.key))
      && (res.outcome == Accepted <==>
            && r.amount > 0 && NewKey(s, r.key) && r.invoice < |s.invoices|
            && var inv := s.invoices[r.invoice];
            && inv.status in {DRAFT, PENDING, PARTIALLY_PAID, OVERDUE}
            && inv.customer < |s.wallets|
            && (r.allowOverpayment || inv.paid + r.amount <= inv.total)
            && (r.paidBy == FromWallet ==> 1 <= Part(inv, r.amount) <= s.wallets[inv.customer].balance))
      && (res.outcome != Accepted ==> res.store == s)
  {
    assert KeyUsed(s.payments, r.key) <==> !NewKey(s, r.key);
    hide KeyUsed, NewKey;
  }

  /** An accepted payment adds its part to the bill, which is paid once nothing is missing and part-paid
      before, records the part as completed, and puts what is over into the wallet; only the bill and
      its customer's wallet change. */
  lemma PaymentWrites(s: Store, r: PayRequest)
    requires Pay(s, r).outcome == Accepted
    ensures r.invoice < |s.invoices| && s.invoices[r.invoice].customer < |s.wallets|
    ensures var s', inv := Pay(s, r).store, s.invoices[r.invoice];
      var part := Part(inv, r.amount);
      && s'.invoices == s.invoices[r.invoice := Invoice(inv.customer, if inv.paid + part < inv.total then PARTIALLY_PAID else PAID,
                                                        inv.total, inv.paid + part, inv.due)]
      && s'.payments == s.payments + [Payment(Some(inv.customer), Some(r.invoice), r.paidBy, COMPLETED, part, r.key)]
      && |s'.wallets| == |s.wallets|
      && (forall c :: 0 <= c < |s.wallets| && c != inv.customer ==> s'.wallets[c] == s.wallets[c])
      && var w, over := s.wallets[inv.customer], r.amount - part;
      var left := if r.paidBy == FromWallet then w.balance - part else w.balance;
      s'.wallets[inv.customer] == W.Wallet(left + over, w.ledger + (if r.paidBy == FromWallet then [W.Debit(part, left)] else [])
                                                        + (if over > 0 then [W.Credit(over, left + over)] else []))
  {
    hide KeyUsed, Reactivated, OwesOther;
  }

  lemma NothingMoved(w: W.Wallet)
    ensures Moved(w, w, 0)
  {
  }

  /** A top-up is accepted exactly for a positive amount, a new key and a known customer; it writes one
      payment without a bill and one credit. */
  lemma TopUpDecides(s: Store, customer: nat, amount: int, key: Key)
    ensures var res := TopUp(s, customer, amount, key);
      && (res.outcome == Accepted <==> amount > 0 && NewKey(s, key) && customer < |s.wallets|)
      && (res.outcome == Replayed <==> amount > 0 && !NewKey(s, key))
      && (res.outcome != Accepted ==> res.store == s)
      && (res.outcome == Accepted ==>
            && res.store == s.(payments := s.payments + [Payment(Some(customer), None, FromOutside, COMPLETED, amount, key)],
                               wallets := s.wallets[customer := res.store.wallets[customer]])
            && Moved(s.wallets[customer], res.store.wallets[customer], amount))
  {
    assert KeyUsed(s.payments, key) <==> !NewKey(s, key);
    hide KeyUsed, NewKey;
  }

  // ---------------------------------------------------------------------------------------
  // Refunds
  // ---------------------------------------------------------------------------------------

  /** What a refund moves in the customer's wallet: a wallet payment back in, a top-up back out. */
  ghost function WalletShare(s: Store, p: Payment): int {
    if p.customer.None? || p.customer.value >= |s.wallets| then 0
    else if p.paidBy == FromWallet then p.amount
    else if p.invoice.None? then -p.amount
    else 0
  }

  /** A payment is refunded exactly when it is completed, its bill exists, and the wallet can take its
      share. */
  lemma RefundDecides(s: Store, id: nat)
    ensures var res := Refund(s, id);
      && (res.outcome == Accepted <==>
            && id < |s.payments| && s.payments[id].status == COMPLETED
            && var p := s.payments[id];
            && (p.invoice.Some? ==> p.invoice.value < |s.invoices|)
            && (p.customer.Some? && p.customer.value < |s.wallets| ==>
                  && (p.paidBy == FromWallet ==> p.amount >= 1)
                  && (p.paidBy == FromOutside && p.invoice.None? ==> 1 <= p.amount <= s.wallets[p.customer.value].balance)))
      && (res.outcome != Accepted ==> res.outcome == Refused && res.store == s)
  {
  }

  /** The refunded payment is reversed. Its bill shows that much less, but nothing negative, and is
      pending, part-paid or paid by what is left on it, whatever it was before. The wallet moves by its
      share. Nothing else changes. */
  lemma RefundWrites(s: Store, id: nat)
    requires Refund(s, id).outcome == Accepted
    ensures id < |s.payments|
    ensures var s', p := Refund(s, id).store, s.payments[id];
      && s'.payments == s.payments[id := p.(status := REVERSED)] && s'.services == s.services
      && |s'.invoices| == |s.invoices| && |s'.wallets| == |s.wallets|
      && (forall i :: 0 <= i < |s.invoices| && p.invoice != Some(i) ==> s'.invoices[i] == s.invoices[i])
      && (p.invoice.Some? ==>
            && p.invoice.value < |s.invoices|
            && var before, after := s.invoices[p.invoice.value], s'.invoices[p.invoice.value];
            && after == before.(paid := after.paid, status := after.status)
            && after.paid == (if p.amount <= before.paid then before.paid - p.amount else 0)
            && (after.status == PENDING <==> after.paid == 0)
            && (after.status == PARTIALLY_PAID <==> 0 < after.paid < before.total)
            && (after.status == PAID <==> after.paid > 0 && after.paid >= before.total))
      && (forall c :: 0 <= c < |s.wallets| && p.customer != Some(c) ==> s'.wallets[c] == s.wallets[c])
      && (p.customer.Some? && p.customer.value < |s.wallets| ==>
            Moved(s.wallets[p.customer.value], s'.wallets[p.customer.value], WalletShare(s, p)))
  {
    hide W.Debited, W.Credited, Moved;
    var p := s.payments[id];
    if p.customer.Some? && p.customer.value < |s.wallets| {
      MovementDecides(s.wallets[p.customer.value], p.amount);
      NothingMoved(s.wallets[p.customer.value]);
    }
  }

  // ---------------------------------------------------------------------------------------
  // Bills
  // ---------------------------------------------------------------------------------------

  /** A bill is issued to every known customer, pending and with nothing paid. A reward is credited to
      every known customer, and one of nothing writes nothing. */
  lemma IssueAndReward(s: Store, customer: nat, total: nat, due: int, amount: int)
    ensures Issue(s, customer, total, due) ==
      if customer < |s.wallets| then Result(s.(invoices := s.invoices + [Invoice(customer, PENDING, total, 0, due)]), Accepted)
      else Result(s, Refused)
    ensures var res := Reward(s, customer, amount);
      && (res.outcome == Accepted <==> customer < |s.wallets|)
      && (customer >= |s.wallets| || amount <= 0 ==> res.store == s)
      && (customer < |s.wallets| && amount > 0 ==>
            && res.store == s.(wallets := s.wallets[customer := res.store.wallets[customer]])
            && Moved(s.wallets[customer], res.store.wallets[customer], amount))
  {
  }

  /** Only a bill that is neither paid nor part-paid is voided, and only an unpaid one that is pending
      or overdue is cancelled with its add-on; the status is all that changes. */
  lemma VoidOrCancel(s: Store, id: nat)
    ensures var res := Annul(s, id);
      if id < |s.invoices| && s.invoices[id].status in {DRAFT, PENDING, OVERDUE, CANCELLED, VOIDED}
      then res == Result(s.(invoices := s.invoices[id := s.invoices[id].(status := VOIDED)]), Accepted)
      else res == Result(s, Refused)
    ensures var res := Abandon(s, id);
      if id < |s.invoices| && s.invoices[id].paid <= 0 && s.invoices[id].status in {PENDING, OVERDUE}
      then res == Result(s.(invoices := s.invoices[id := s.invoices[id].(status := CANCELLED)]), Accepted)
      else res == Result(s, Refused)
  {
  }

  /** A sweep turns exactly the pending and part-paid bills past their date overdue. */
  lemma OverdueExactly(s: Store, now: int, i: nat)
    requires i < |s.invoices|
    ensures var s' := MarkOverdue(s, now).store;
      && MarkOverdue(s, now).outcome == Accepted
      && s' == s.(invoices := s'.invoices) && |s'.invoices| == |s.invoices|
      && s'.invoices[i] == s.invoices[i].(status := s'.invoices[i].status)
      && (s'.invoices[i].status != s.invoices[i].status ==> s'.invoices[i].status == OVERDUE)
      && (s'.invoices[i].status == OVERDUE <==>
            s.invoices[i].status == OVERDUE || (s.invoices[i].status in {PENDING, PARTIALLY_PAID} && s.invoices[i].due < now))
  {
  }

  /** The sweep reports as many bills as it turns overdue. */
  lemma {:induction false} OverdueCounted(invoices: seq<Invoice>, now: int)
    ensures OverdueCount(invoices, now) == |Late(invoices, now)|
    decreases |invoices|
  {
    if |invoices| > 0 {
      var n := |invoices| - 1;
      OverdueCounted(invoices[..n], now);
      assert Late(invoices, now) == Late(invoices[..n], now) + if n in Late(invoices, now) then {n} else {};
    }
  }

  ghost function Late(invoices: seq<Invoice>, now: int): set<int> {
    set i | 0 <= i < |invoices| && invoices[i].status in {PENDING, PARTIALLY_PAID} && invoices[i].due < now
  }

  /** A sweep switches on exactly the suspended services whose pause, if any, is over and whose
      customer has no bill waiting to be paid. */
  lemma SweepReconnectsExactly(s: Store, now: int, i: nat)
    requires i < |s.services|
    ensures var s', before := ReactivateCleared(s, now).store, s.services[i];
      && ReactivateCleared(s, now).outcome == Accepted
      && s' == s.(services := s'.services) && |s'.services| == |s.services|
      && (s'.services[i] == before || (before.status == SUSPENDED && s'.services[i] == before.(status := ACTIVE)))
      && (s'.services[i].status == ACTIVE <==>
            || before.status == ACTIVE
            || (before.status == SUSPENDED && (before.pausedUntil.Some? ==> before.pausedUntil.value <= now)
                && forall inv :: inv in s.invoices && AsksForMoney(inv) ==> inv.customer != before.customer))
  {
    hide Owes;
    OwesMeans(s.invoices, s.services[i].customer);
  }

  lemma OwesMeans(invoices: seq<Invoice>, customer: nat)
    ensures Owes(invoices, customer) <==> exists inv :: inv in invoices && AsksForMoney(inv) && inv.customer == customer
  {
    if inv :| inv in invoices && AsksForMoney(inv) && inv.customer == customer {
      var i :| 0 <= i < |invoices| && invoices[i] == inv;
      assert invoices[i].customer == customer && Unpaid(invoices[i].status);
    }
  }
}
