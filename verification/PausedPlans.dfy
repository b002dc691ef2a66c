/** Money and calendar together: the services of the billing store are the plans of the calendar, and
    a payment reaches a plan through its service (packages/billing/src/payment.service.ts,
    billing-cycle.service.ts, pause.service.ts). A paused plan is meant to stay off until its pause
    ends; the sweep keeps to that, a payment does not. */
module PausedPlans {
  import C = PlanCalendar
  import M = MoneyRuns
  import opened Optional
  import P = Payments
  import W = Wallets

  // ---------------------------------------------------------------------------------------
  // In the store
  // ---------------------------------------------------------------------------------------

  /** Switched off for a pause that is still running. */
  predicate InPause(service: P.Service, now: int) {
    service.status == P.SUSPENDED && !P.PauseOver(service, now)
  }

  /** The payment goes through, and with it the customer owes nothing any more. */
  ghost predicate Clears(s: P.Store, r: P.PayRequest, customer: nat) {
    && P.Pay(s, r).outcome == P.Accepted
    && r.invoice < |s.invoices| && s.invoices[r.invoice].customer == customer
    && !P.Owes(P.Pay(s, r).store.invoices, customer)
  }

  /** An accepted payment switches services on, and changes nothing else about any: one is active
      afterwards exactly when it was, or when it was suspended, in a pause or for debt, and belongs to
      the customer of the bill, who has no unpaid bill left. A payment not accepted changes none. */
  lemma PaymentReconnectsExactly(s: P.Store, r: P.PayRequest, id: nat)
    requires id < |s.services|
    ensures var res := P.Pay(s, r);
      && |res.store.services| == |s.services|
      && var before, after := s.services[id], res.store.services[id];
      && after.customer == before.customer && after.pausedUntil == before.pausedUntil
      && (after.status == before.status || (before.status == P.SUSPENDED && after.status == P.ACTIVE))
      && (res.outcome != P.Accepted ==> after == before)
      && (res.outcome == P.Accepted ==>
            && r.invoice < |s.invoices|
            && (after.status == P.ACTIVE
                <==> before.status == P.ACTIVE
                     || (before.status == P.SUSPENDED && before.customer == s.invoices[r.invoice].customer
                         && forall i :: 0 <= i < |res.store.invoices| && res.store.invoices[i].customer == before.customer ==>
                              res.store.invoices[i].status in {P.DRAFT, P.PAID, P.CANCELLED, P.VOIDED})))
  {
    if P.Pay(s, r).outcome == P.Accepted {
      OwesAfter(s, r);
      hide P.KeyUsed, W.Debited, W.Credited;
    }
  }

  /** A payment switches a service on in the middle of its pause exactly when it clears its customer,
      that is, when it pays up their last unpaid bill. The pause stays on the service. */
  lemma PaymentEndsNoPauseButSwitchesOn(s: P.Store, r: P.PayRequest, id: nat, now: int)
    requires id < |s.services| && InPause(s.services[id], now)
    ensures var s', customer := P.Pay(s, r).store, s.services[id].customer;
      && |s'.services| == |s.services|
      && (s'.services[id].status == P.ACTIVE <==> Clears(s, r, customer))
      && s'.services[id].pausedUntil == s.services[id].pausedUntil && !P.PauseOver(s'.services[id], now)
      && (Clears(s, r, customer) <==>
            && P.Pay(s, r).outcome == P.Accepted
            && r.invoice < |s.invoices| && s.invoices[r.invoice].customer == customer
            && r.amount >= s.invoices[r.invoice].total - s.invoices[r.invoice].paid
            && !P.OwesOther(s.invoices, customer, r.invoice))
  {
    var res := P.Pay(s, r);
    if res.outcome == P.Accepted {
      OwesAfter(s, r);
    }
  }

  lemma OwesAfter(s: P.Store, r: P.PayRequest)
    requires P.Pay(s, r).outcome == P.Accepted
    ensures r.invoice < |s.invoices|
    ensures var customer := s.invoices[r.invoice].customer;
      P.Owes(P.Pay(s, r).store.invoices, customer)
      <==> r.amount < s.invoices[r.invoice].total - s.invoices[r.invoice].paid || P.OwesOther(s.invoices, customer, r.invoice)
  {
    hide P.KeyUsed, W.Debited, W.Credited, P.Reactivated;
    var before, after := s.invoices, P.Pay(s, r).store.invoices;
    var customer := before[r.invoice].customer;
    assert after == before[r.invoice := after[r.invoice]] && after[r.invoice].customer == customer;
    if P.OwesOther(before, customer, r.invoice) {
      var i :| 0 <= i < |before| && i != r.invoice && before[i].customer == customer && P.Unpaid(before[i].status);
      assert after[i] == before[i];
    }
    assert P.Unpaid(after[r.invoice].status) <==> r.amount < before[r.invoice].total - before[r.invoice].paid;
  }

  /** The sweep never switches a service on inside its pause; any other suspended one it does exactly
      when the customer owes nothing. */
  lemma SweepRespectsPauses(s: P.Store, id: nat, now: int)
    requires id < |s.services| && s.services[id].status == P.SUSPENDED
    ensures var s' := P.ReactivateCleared(s, now).store;
      s'.services[id].status == P.ACTIVE <==> !InPause(s.services[id], now) && !P.Owes(s.invoices, s.services[id].customer)
  {
  }

  // ---------------------------------------------------------------------------------------
  // Plans behind the services
  // ---------------------------------------------------------------------------------------

  datatype Account = Account(store: P.Store, plans: seq<C.Plan>)

  /** A transaction on the money, or a calendar event of one plan. A renewal also makes out its bill. */
  datatype Event =
    | Money(now: int, transaction: M.Event)
    | Calendar(plan: nat, event: C.Event, price: nat, due: int)

  function AsService(p: C.Plan, customer: nat): P.Service {
    var status := match p.status case ACTIVE => P.ACTIVE case SUSPENDED => P.SUSPENDED case CANCELLED => P.ENDED;
    P.Service(customer, status, p.pausedUntil)
  }

  ghost predicate Linked(a: Account) {
    && |a.plans| == |a.store.services|
    && forall i :: 0 <= i < |a.plans| ==> a.store.services[i] == AsService(a.plans[i], a.store.services[i].customer)
  }

  /** A plan has the status of its service. */
  function Following(p: C.Plan, service: P.Service): C.Plan {
    p.(status := match service.status case ACTIVE => C.ACTIVE case SUSPENDED => C.SUSPENDED case ENDED => C.CANCELLED)
  }

  function OverdueBills(invoices: seq<P.Invoice>, customer: nat): nat {
    if |invoices| == 0 then 0
    else
      var inv := invoices[|invoices| - 1];
      OverdueBills(invoices[..|invoices| - 1], customer) + if inv.customer == customer && inv.status == P.OVERDUE then 1 else 0
  }

  ghost predicate NoOverdueBill(invoices: seq<P.Invoice>, customer: nat) {
    forall i :: 0 <= i < |invoices| && invoices[i].customer == customer ==> invoices[i].status != P.OVERDUE
  }

  /** The count decides nothing but whether the customer has an overdue bill. */
  lemma {:induction false} OverdueOrNot(invoices: seq<P.Invoice>, customer: nat)
    ensures OverdueBills(invoices, customer) == 0 <==> NoOverdueBill(invoices, customer)
    decreases |invoices|
  {
    if |invoices| > 0 {
      var n := |invoices| - 1;
      OverdueOrNot(invoices[..n], customer);
      assert forall i :: 0 <= i < n ==> invoices[..n][i] == invoices[i];
    }
  }

  /** The calendar event with the overdue bills the store really has. */
  function Informed(a: Account, id: nat, e: C.Event): C.Event
    requires id < |a.store.services|
  {
    var overdue := OverdueBills(a.store.invoices, a.store.services[id].customer);
    match e
    case PauseFor(now, days, byCustomer, _, networkOk) => C.PauseFor(now, days, byCustomer, overdue, networkOk)
    case Resume(now, _) => C.Resume(now, overdue)
    case _ => e
  }

  function Billed(s: P.Store, customer: nat, before: C.Plan, after: C.Plan, price: nat, due: int): P.Store {
    if after.renewals == before.renewals then s else P.Issue(s, customer, price, due).store
  }

  function Next(a: Account, prefs: C.Preferences, e: Event): Account
    requires Linked(a)
  {
    match e
    case Money(_, transaction) =>
      var store := M.Step(a.store, transaction).store;
      ServicesKeptInNumber(a.store, transaction);
      Account(store, seq(|a.plans|, i requires 0 <= i < |a.plans| => Following(a.plans[i], store.services[i])))
    case Calendar(id, event, price, due) =>
      if id >= |a.plans| then a
      else
        var customer := a.store.services[id].customer;
        var plan := C.Step(a.plans[id], prefs, Informed(a, id, event));
        var store := Billed(a.store, customer, a.plans[id], plan, price, due);
        Account(store.(services := a.store.services[id := AsService(plan, customer)]), a.plans[id := plan])
  }

  lemma ServicesKeptInNumber(s: P.Store, e: M.Event)
    ensures |M.Step(s, e).store.services| == |s.services|
  {
  }

  /** Money moves no service's customer or pause, and no status but from suspended to active. */
  lemma MoneyOnServices(s: P.Store, e: M.Event, id: nat)
    requires id < |s.services|
    ensures var before, after := s.services[id], M.Step(s, e).store.services[id];
      after == before || (before.status == P.SUSPENDED && after == before.(status := P.ACTIVE))
    ensures M.Step(s, e).store.services[id] != s.services[id] ==> e.PayBill? || e.SweepServices?
  {
  }

  lemma NextLinked(a: Account, prefs: C.Preferences, e: Event)
    requires Linked(a)
    ensures Linked(Next(a, prefs, e)) && |Next(a, prefs, e).plans| == |a.plans|
  {
    if e.Money? {
      forall i: nat | i < |a.plans|
        ensures var a' := Next(a, prefs, e); a'.store.services[i] == AsService(a'.plans[i], a'.store.services[i].customer)
      {
        MoneyOnServices(a.store, e.transaction, i);
      }
    } else {
      hide C.Step;
    }
  }

  // ---------------------------------------------------------------------------------------
  // Every account run is a calendar run
  // ---------------------------------------------------------------------------------------

  /** What one event of the account means for one plan. */
  function PlanEvents(a: Account, prefs: C.Preferences, e: Event, id: nat): seq<C.Event>
    requires Linked(a) && id < |a.plans|
  {
    match e
    case Money(now, transaction) =>
      if Next(a, prefs, e).plans[id] == a.plans[id] then []
      else if transaction.SweepServices? then [C.SweepReactivate(transaction.now)]
      else [C.Reactivate(now)]
    case Calendar(plan, event, _, _) => if plan == id then [Informed(a, id, event)] else []
  }

  lemma OnePlanEvent(p: C.Plan, prefs: C.Preferences, e: C.Event)
    ensures C.Run(p, prefs, [e]) == C.Step(p, prefs, e) && C.Run(p, prefs, []) == p
  {
    hide C.Step;
    assert [e][1..] == [];
    assert C.Run(p, prefs, [e]) == C.Run(C.Step(p, prefs, e), prefs, []);
  }

  /** A plan moves by calendar steps alone: a payment reaches it as a reactivation that does not look
      at its pause, and the sweep as one that does. */
  lemma StepIsPlanSteps(a: Account, prefs: C.Preferences, e: Event, id: nat)
    requires Linked(a) && id < |a.plans|
    ensures |Next(a, prefs, e).plans| == |a.plans|
    ensures Next(a, prefs, e).plans[id] == C.Run(a.plans[id], prefs, PlanEvents(a, prefs, e, id))
  {
    hide C.Run;
    var p := a.plans[id];
    OnePlanEvent(p, prefs, C.Cancel(0));
    if e.Money? {
      MoneyOnServices(a.store, e.transaction, id);
      if e.transaction.SweepServices? {
        OnePlanEvent(p, prefs, C.SweepReactivate(e.transaction.now));
      } else {
        OnePlanEvent(p, prefs, C.Reactivate(e.now));
      }
    } else {
      hide C.Step;
      if e.plan < |a.plans| {
        OnePlanEvent(p, prefs, Informed(a, e.plan, e.event));
      }
    }
  }

  function Run(a: Account, prefs: C.Preferences, events: seq<Event>): Account
    requires Linked(a)
    decreases |events|
  {
    if |events| == 0 then a
    else
      NextLinked(a, prefs, events[0]);
      Run(Next(a, prefs, events[0]), prefs, events[1..])
  }

  function PlanRun(a: Account, prefs: C.Preferences, events: seq<Event>, id: nat): seq<C.Event>
    requires Linked(a) && id < |a.plans|
    decreases |events|
  {
    if |events| == 0 then []
    else
      NextLinked(a, prefs, events[0]);
      PlanEvents(a, prefs, events[0], id) + PlanRun(Next(a, prefs, events[0]), prefs, events[1..], id)
  }

  /** Every plan of every account run follows a calendar run, so what holds over calendar runs holds
      of plans that are paid for: see the three lemmas below. */
  lemma {:induction false} AccountRunIsPlanRun(a: Account, prefs: C.Preferences, events: seq<Event>, id: nat)
    requires Linked(a) && id < |a.plans|
    ensures Linked(Run(a, prefs, events)) && |Run(a, prefs, events).plans| == |a.plans|
    ensures Run(a, prefs, events).plans[id] == C.Run(a.plans[id], prefs, PlanRun(a, prefs, events, id))
    decreases |events|
  {
    hide Next, C.Run, C.Step, Linked, PlanEvents;
    if |events| > 0 {
      var e := events[0];
      NextLinked(a, prefs, e);
      StepIsPlanSteps(a, prefs, e, id);
      AccountRunIsPlanRun(Next(a, prefs, e), prefs, events[1..], id);
      C.RunConcat(a.plans[id], prefs, PlanEvents(a, prefs, e, id), PlanRun(Next(a, prefs, e), prefs, events[1..], id));
    } else {
      OnePlanEvent(a.plans[id], prefs, C.Cancel(0));
    }
  }

  /** So over every account run each plan's next bill falls exactly where its rows say. */
  lemma AccountRunIsExact(a: Account, prefs: C.Preferences, events: seq<Event>, id: nat)
    requires Linked(a) && id < |a.plans| && C.Inv(a.plans[id])
    ensures |Run(a, prefs, events).plans| == |a.plans| && C.Exact(Run(a, prefs, events).plans[id])
  {
    hide Linked, Run, PlanRun, C.Run, C.Exact;
    AccountRunIsPlanRun(a, prefs, events, id);
    C.RunIsExact(a.plans[id], prefs, PlanRun(a, prefs, events, id));
  }

  /** No period of the plan is billed twice while the calendar run it follows keeps the guard. */
  lemma AccountRunBillsOnce(a: Account, prefs: C.Preferences, events: seq<Event>, id: nat, now: int)
    requires Linked(a) && id < |a.plans| && InOrder(events, now)
    requires C.Inv(a.plans[id]) && C.Safe(a.plans[id], now) && C.Timely(a.plans[id], now)
    requires C.AllGuarded(a.plans[id], prefs, PlanRun(a, prefs, events, id))
    ensures |Run(a, prefs, events).plans| == |a.plans| && C.DuesIncrease(Run(a, prefs, events).plans[id].renewals)
  {
    hide Linked, Run, PlanRun, InOrder, C.Run, C.Inv, C.Safe, C.Timely, C.AllGuarded, C.DuesIncrease, C.InOrder;
    AccountRunIsPlanRun(a, prefs, events, id);
    PlanRunInOrder(a, prefs, events, id, now);
    C.GuardedRunBillsOnce(a.plans[id], prefs, PlanRun(a, prefs, events, id), now);
  }

  /** And the pauses of every window that a customer's pause closes stay within the allowance. */
  lemma AccountAllowanceHolds(a: Account, prefs: C.Preferences, events: seq<Event>, id: nat, now: int, lo: int, last: nat)
    requires prefs.minDays >= 1 && Linked(a) && id < |a.plans| && InOrder(events, now)
    requires C.Inv(a.plans[id]) && C.Timely(a.plans[id], now) && C.WithinAllowance(a.plans[id].pauses, prefs)
    requires |Run(a, prefs, events).plans| == |a.plans| && last < |Run(a, prefs, events).plans[id].pauses|
    requires var pauses := Run(a, prefs, events).plans[id].pauses;
      && pauses[last].byCustomer && lo <= pauses[last].startsAt <= lo + C.YEAR
      && forall j :: last < j < |pauses| ==> pauses[j].startsAt > lo + C.YEAR
    ensures C.DaysWithin(Run(a, prefs, events).plans[id].pauses, lo, lo + C.YEAR) <= prefs.maxDaysPerYear
  {
    hide Linked, Run, PlanRun, InOrder, C.Run, C.Inv, C.Timely, C.WithinAllowance, C.DaysWithin, C.InOrder;
    AccountRunIsPlanRun(a, prefs, events, id);
    PlanRunInOrder(a, prefs, events, id, now);
    C.AllowanceHolds(a.plans[id], prefs, PlanRun(a, prefs, events, id), now, lo, last);
  }

  lemma {:induction false} PlanRunInOrder(a: Account, prefs: C.Preferences, events: seq<Event>, id: nat, from: int)
    requires Linked(a) && id < |a.plans| && InOrder(events, from)
    ensures C.InOrder(PlanRun(a, prefs, events, id), from)
    decreases |events|
  {
    hide Next, Linked, PlanEvents;
    if |events| > 0 {
      var e := events[0];
      NextLinked(a, prefs, e);
      EventTimes(a, prefs, e, id);
      PlanRunInOrder(Next(a, prefs, e), prefs, events[1..], id, Time(e));
      hide PlanRun;
      TimesConcat(PlanEvents(a, prefs, e, id), PlanRun(Next(a, prefs, e), prefs, events[1..], id), from, Time(e));
    }
  }

  lemma EventTimes(a: Account, prefs: C.Preferences, e: Event, id: nat)
    requires Linked(a) && id < |a.plans|
    ensures |PlanEvents(a, prefs, e, id)| <= 1
    ensures forall i :: 0 <= i < |PlanEvents(a, prefs, e, id)| ==> PlanEvents(a, prefs, e, id)[i].now == Time(e)
  {
    hide Next, Linked;
  }

  lemma TimesConcat(first: seq<C.Event>, rest: seq<C.Event>, from: int, at: int)
    requires |first| <= 1 && (forall i :: 0 <= i < |first| ==> first[i].now == at) && from <= at && C.InOrder(rest, at)
    ensures C.InOrder(first + rest, from)
  {
  }

  // ---------------------------------------------------------------------------------------
  // Switched on in the middle of a pause
  // ---------------------------------------------------------------------------------------

  function Time(e: Event): int {
    match e
    case Money(now, transaction) => if transaction.SweepServices? then transaction.now else now
    case Calendar(_, event, _, _) => event.now
  }

  /** A paused plan does not stay off until its pause is over: it is switched on in the middle of it
      exactly by a payment that leaves its customer owing nothing, by staff, or by ending the pause
      with nothing overdue. */
  lemma PausedPlanSwitchedOnExactly(a: Account, prefs: C.Preferences, e: Event, id: nat)
    requires Linked(a) && id < |a.plans|
    requires a.plans[id].status == C.SUSPENDED && a.plans[id].pausedUntil.Some? && Time(e) < a.plans[id].pausedUntil.value
    ensures |Next(a, prefs, e).plans| == |a.plans|
    ensures var customer := a.store.services[id].customer;
      Next(a, prefs, e).plans[id].status == C.ACTIVE
      <==> (e.Money? && e.transaction.PayBill? && Clears(a.store, e.transaction.request, customer))
           || (e.Calendar? && e.plan == id
               && (e.event.Reactivate? || (e.event.Resume? && NoOverdueBill(a.store.invoices, customer))))
  {
    NextLinked(a, prefs, e);
    var service := a.store.services[id];
    OverdueOrNot(a.store.invoices, service.customer);
    assert service == AsService(a.plans[id], service.customer);
    match e {
      case Money(now, transaction) =>
        hide Clears;
        MoneyOnServices(a.store, transaction, id);
        if transaction.PayBill? {
          PaymentEndsNoPauseButSwitchesOn(a.store, transaction.request, id, now);
        } else if transaction.SweepServices? {
          SweepRespectsPauses(a.store, id, transaction.now);
        }
      case Calendar(plan, event, _, _) =>
        hide Clears, C.LatestOpen, C.RemainingDays, Billed;
    }
  }

  ghost predicate InOrder(events: seq<Event>, from: int) {
    && (forall i :: 0 <= i < |events| ==> from <= Time(events[i]))
    && (forall i, j :: 0 <= i < j < |events| ==> Time(events[i]) <= Time(events[j]))
  }

  const DAY: int := C.DAY

  const PREFERENCES: C.Preferences := C.Preferences(true, 1, 30)

  const BILL: P.Invoice := P.Invoice(0, P.PENDING, 100, 0, 30 * DAY)

  /** A customer on a daily plan, with one bill of 100 that is not due yet. */
  const CUSTOMER: Account := Account(P.Store([BILL], [], [W.EMPTY], [P.Service(0, P.ACTIVE, None)]), [C.Subscribed(0, 1, true)])

  /** The plan is back from a suspension and paused for twenty days; the bill is paid on day 7, the
      plan is billed on day 21, and then the pause is ended. */
  const PAID_IN_THE_PAUSE: seq<Event> := [
    Calendar(0, C.Suspend(0), 0, 0),
    Calendar(0, C.Reactivate(6 * DAY), 0, 0),
    Calendar(0, C.PauseFor(6 * DAY, 20, false, 0, true), 0, 0),
    Money(7 * DAY, M.PayBill(P.PayRequest(0, P.FromOutside, 100, P.Client(1), false))),
    Calendar(0, C.Renew(21 * DAY, C.DAILY), 100, 30 * DAY),
    Calendar(0, C.Resume(21 * DAY, 0), 0, 0),
    Calendar(0, C.Renew(21 * DAY, C.DAILY), 100, 30 * DAY)]

  /** It happens: day 21 is billed, and day 17 after it. */
  lemma PausedPlanBilledBack()
    ensures Linked(CUSTOMER) && M.Inv(CUSTOMER.store) && InOrder(PAID_IN_THE_PAUSE, 0)
    ensures |Run(CUSTOMER, PREFERENCES, PAID_IN_THE_PAUSE).plans| == 1
    ensures var renewals := Run(CUSTOMER, PREFERENCES, PAID_IN_THE_PAUSE).plans[0].renewals;
      renewals == [C.Renewal(21 * DAY, 1), C.Renewal(17 * DAY, 1)] && !C.DuesIncrease(renewals)
  {
    CustomerIsSound();
    ExampleInOrder();
    ExampleRun();
    var renewals := Run(CUSTOMER, PREFERENCES, PAID_IN_THE_PAUSE).plans[0].renewals;
    assert renewals[1].due < renewals[0].due;
  }

  lemma ExampleInOrder()
    ensures InOrder(PAID_IN_THE_PAUSE, 0)
  {
  }

  lemma ExampleRun()
    requires Linked(CUSTOMER)
    ensures var end := Run(CUSTOMER, PREFERENCES, PAID_IN_THE_PAUSE);
      |end.plans| == 1 && end.plans[0].renewals == [C.Renewal(21 * DAY, 1), C.Renewal(17 * DAY, 1)]
  {
    hide Next, Run, Linked;
    var events := PAID_IN_THE_PAUSE;
    var paused := UntilThePause();
    var on := ThenThePayment(paused);
    ThenTheBills(on);
    FourSteps(CUSTOMER, events[0], events[1], events[2], events[3], events[4..]);
    FourAndTheRest(events);
  }

  lemma FourAndTheRest(events: seq<Event>)
    requires |events| >= 4
    ensures events == [events[0], events[1], events[2], events[3]] + events[4..]
  {
  }

  lemma CustomerIsSound()
    ensures Linked(CUSTOMER) && M.Inv(CUSTOMER.store)
  {
    assert W.Reconciled(W.EMPTY);
  }

  lemma RunStep(a: Account, e: Event, rest: seq<Event>)
    requires Linked(a)
    ensures Linked(Next(a, PREFERENCES, e))
    ensures Run(a, PREFERENCES, [e] + rest) == Run(Next(a, PREFERENCES, e), PREFERENCES, rest)
  {
    hide Next;
    NextLinked(a, PREFERENCES, e);
    assert ([e] + rest)[1..] == rest;
  }

  lemma FourSteps(a: Account, e0: Event, e1: Event, e2: Event, e3: Event, rest: seq<Event>)
    requires Linked(a)
    ensures var a1 := Next(a, PREFERENCES, e0);
      && Linked(a1) && var a2 := Next(a1, PREFERENCES, e1);
      && Linked(a2) && var a3 := Next(a2, PREFERENCES, e2);
      && Linked(a3) && var a4 := Next(a3, PREFERENCES, e3);
      && Linked(a4) && Run(a, PREFERENCES, [e0, e1, e2, e3] + rest) == Run(a4, PREFERENCES, rest)
  {
    hide Next, Run, Linked;
    RunStep(a, e0, [e1, e2, e3] + rest);
    var a1 := Next(a, PREFERENCES, e0);
    RunStep(a1, e1, [e2, e3] + rest);
    var a2 := Next(a1, PREFERENCES, e1);
    RunStep(a2, e2, [e3] + rest);
    RunStep(Next(a2, PREFERENCES, e2), e3, rest);
    assert [e0, e1, e2, e3] + rest == [e0] + ([e1, e2, e3] + rest);
    assert [e1, e2, e3] + rest == [e1] + ([e2, e3] + rest);
    assert [e2, e3] + rest == [e2] + ([e3] + rest);
  }

  /** What the example's plan looks like from the pause on. */
  function PlanInPause(status: C.Status): C.Plan {
    C.Plan(0, 1, status, true, 21 * DAY, Some(26 * DAY), [C.Pause(6 * DAY, 20, false, true)], [], [])
  }

  lemma NothingOverdue(invoices: seq<P.Invoice>)
    requires forall i :: 0 <= i < |invoices| ==> invoices[i].status != P.OVERDUE
    ensures OverdueBills(invoices, 0) == 0
  {
  }

  lemma UntilThePause() returns (a: Account)
    requires Linked(CUSTOMER)
    ensures var a1 := Next(CUSTOMER, PREFERENCES, PAID_IN_THE_PAUSE[0]);
      && Linked(a1) && var a2 := Next(a1, PREFERENCES, PAID_IN_THE_PAUSE[1]);
      && Linked(a2) && a == Next(a2, PREFERENCES, PAID_IN_THE_PAUSE[2])
    ensures Linked(a) && a.plans == [PlanInPause(C.SUSPENDED)]
    ensures a.store == CUSTOMER.store.(services := [P.Service(0, P.SUSPENDED, Some(26 * DAY))])
  {
    hide C.RemainingDays, C.LatestOpen;
    var a1 := Next(CUSTOMER, PREFERENCES, PAID_IN_THE_PAUSE[0]);
    NextLinked(CUSTOMER, PREFERENCES, PAID_IN_THE_PAUSE[0]);
    var a2 := Next(a1, PREFERENCES, PAID_IN_THE_PAUSE[1]);
    NextLinked(a1, PREFERENCES, PAID_IN_THE_PAUSE[1]);
    assert a2.plans[0] == C.Subscribed(0, 1, true);
    NothingOverdue(a2.store.invoices);
    a := Next(a2, PREFERENCES, PAID_IN_THE_PAUSE[2]);
    NextLinked(a2, PREFERENCES, PAID_IN_THE_PAUSE[2]);
    assert a.plans[0].pauses == [C.Pause(6 * DAY, 20, false, true)];
  }

  lemma ThenThePayment(a: Account) returns (on: Account)
    requires Linked(a) && a.plans == [PlanInPause(C.SUSPENDED)]
    requires a.store == CUSTOMER.store.(services := [P.Service(0, P.SUSPENDED, Some(26 * DAY))])
    ensures on == Next(a, PREFERENCES, PAID_IN_THE_PAUSE[3]) && Linked(on)
    ensures on.plans == [PlanInPause(C.ACTIVE)] && |on.store.invoices| == 1 && on.store.invoices[0].status == P.PAID
    ensures |on.store.services| == 1 && on.store.services[0].customer == 0 && |on.store.wallets| == 1
  {
    on := Next(a, PREFERENCES, PAID_IN_THE_PAUSE[3]);
    NextLinked(a, PREFERENCES, PAID_IN_THE_PAUSE[3]);
    assert !P.KeyUsed([], P.Client(1));
    assert !P.OwesOther([BILL], 0, 0);
  }

  lemma ThenTheBills(a: Account)
    requires Linked(a) && a.plans == [PlanInPause(C.ACTIVE)]
    requires |a.store.invoices| == 1 && a.store.invoices[0].status == P.PAID
    requires |a.store.services| == 1 && a.store.services[0].customer == 0 && |a.store.wallets| == 1
    ensures var end := Run(a, PREFERENCES, PAID_IN_THE_PAUSE[4..]);
      |end.plans| == 1 && end.plans[0].renewals == [C.Renewal(21 * DAY, 1), C.Renewal(17 * DAY, 1)]
  {
    var e4, e5, e6 := PAID_IN_THE_PAUSE[4], PAID_IN_THE_PAUSE[5], PAID_IN_THE_PAUSE[6];
    var a5 := Next(a, PREFERENCES, e4);
    NextLinked(a, PREFERENCES, e4);
    FirstBill(a, a5);
    var a6 := Next(a5, PREFERENCES, e5);
    NextLinked(a5, PREFERENCES, e5);
    PauseEnded(a5, a6);
    var a7 := Next(a6, PREFERENCES, e6);
    SecondBill(a6, a7);
    hide Next, Run, Linked;
    RunStep(a, e4, [e5, e6]);
    RunStep(a5, e5, [e6]);
    RunStep(a6, e6, []);
    assert PAID_IN_THE_PAUSE[4..] == [e4] + [e5, e6] && [e5, e6] == [e5] + [e6] && [e6] == [e6] + [];
    assert Run(a7, PREFERENCES, []) == a7 by { RunNothing(a7); }
  }

  lemma RunNothing(a: Account)
    requires Linked(a)
    ensures Run(a, PREFERENCES, []) == a
  {
  }

  lemma FirstBill(a: Account, a': Account)
    requires Linked(a) && a.plans == [PlanInPause(C.ACTIVE)] && a' == Next(a, PREFERENCES, PAID_IN_THE_PAUSE[4])
    requires |a.store.invoices| == 1 && a.store.invoices[0].status == P.PAID
    requires |a.store.services| == 1 && a.store.services[0].customer == 0 && |a.store.wallets| == 1
    ensures a'.plans == [PlanInPause(C.ACTIVE).(nextBilling := 22 * DAY, renewals := [C.Renewal(21 * DAY, 1)])]
    ensures |a'.store.invoices| == 2 && |a'.store.services| == 1 && a'.store.services[0].customer == 0
    ensures a'.store.invoices[0].status == P.PAID && a'.store.invoices[1].status == P.PENDING
  {
    assert a'.plans[0].renewals == [C.Renewal(21 * DAY, 1)];
  }

  lemma PauseEnded(a: Account, a': Account)
    requires Linked(a) && a' == Next(a, PREFERENCES, PAID_IN_THE_PAUSE[5])
    requires a.plans == [PlanInPause(C.ACTIVE).(nextBilling := 22 * DAY, renewals := [C.Renewal(21 * DAY, 1)])]
    requires |a.store.services| == 1
    ensures |a'.plans| == 1 && |a'.store.services| == 1 && a'.plans[0].status == C.ACTIVE && a'.plans[0].autoRenew
    ensures a'.plans[0].nextBilling == 17 * DAY && a'.plans[0].renewals == [C.Renewal(21 * DAY, 1)]
  {
    var pause := C.Pause(6 * DAY, 20, false, true);
    C.NewPauseIsLatest([], pause);
    assert [] + [pause] == [pause];
    hide C.LatestOpen;
    assert C.WholeDays(15 * DAY) == 15;
    assert C.GivenBack(a.plans[0], 21 * DAY) == 5;
  }

  lemma SecondBill(a: Account, a': Account)
    requires Linked(a) && a' == Next(a, PREFERENCES, PAID_IN_THE_PAUSE[6])
    requires |a.plans| == 1 && a.plans[0].status == C.ACTIVE && a.plans[0].autoRenew
    requires a.plans[0].nextBilling == 17 * DAY && a.plans[0].renewals == [C.Renewal(21 * DAY, 1)]
    ensures |a'.plans| == 1 && a'.plans[0].renewals == [C.Renewal(21 * DAY, 1), C.Renewal(17 * DAY, 1)]
  {
    assert a'.plans[0].renewals == [C.Renewal(21 * DAY, 1)] + [C.Renewal(17 * DAY, 1)];
  }
}
