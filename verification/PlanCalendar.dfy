/** One customer's plan and its calendar: renewals, pauses, early resumes, free days
    (packages/billing/src/billing-cycle.service.ts, pause.service.ts, referral.service.ts,
    subscription.service.ts). Times are milliseconds; days are exact 86 400 000 ms, as UTC day
    arithmetic is. A transaction sees one instant `now`. */
module PlanCalendar {
  import Integers
  import opened Optional

  const DAY: int := 86_400_000

  datatype Status = ACTIVE | SUSPENDED | CANCELLED

  /** A ServicePause row; `open` while resumedAt is null. */
  datatype Pause = Pause(startsAt: int, days: int, byCustomer: bool, open: bool)

  /** A renewal invoice: its due date and the length of the cycle it was made for. */
  datatype Renewal = Renewal(due: int, cycleDays: int)

  datatype Plan = Plan(start: int, firstCycle: int, status: Status, autoRenew: bool, nextBilling: int,
                       pausedUntil: Option<int>, pauses: seq<Pause>, renewals: seq<Renewal>, rewards: seq<int>)

  /** The operator's pause preferences; the schema keeps both numbers at least 1. */
  datatype Preferences = Preferences(enabled: bool, minDays: nat, maxDaysPerYear: nat)

  datatype Cycle = DAILY | WEEKLY | MONTHLY | QUARTERLY | YEARLY | CUSTOM(days: nat)

  function CycleLengthDays(c: Cycle): (r: Option<nat>)
    ensures r.Some? ==> r.value >= 1
  {
    match c
    case DAILY => Some(1)
    case WEEKLY => Some(7)
    case MONTHLY => Some(30)
    case QUARTERLY => Some(91)
    case YEARLY => Some(365)
    case CUSTOM(days) => if days < 1 then None else Some(days)
  }

  datatype Event =
    | Renew(now: int, cycle: Cycle)
    | PauseFor(now: int, days: int, byCustomer: bool, overdueBills: nat, networkOk: bool)
    | Resume(now: int, overdueBills: nat)
    | FreeDays(now: int, reward: nat)
    | Suspend(now: int)
    /** A payment cleared every bill, or staff switched the plan back on: no look at pausedUntil. */
    | Reactivate(now: int)
    /** The sweep, which leaves a plan alone until its pause is over. */
    | SweepReactivate(now: int)
    | Cancel(now: int)

  // ---------------------------------------------------------------------------------------
  // Pauses
  // ---------------------------------------------------------------------------------------

  /** JavaScript's Math.floor(ms / DAY). */
  function WholeDays(ms: int): (d: int)
    ensures d * DAY <= ms < (d + 1) * DAY
  {
    ms / DAY
  }

  function UnusedPauseDays(planned: int, startsAt: int, now: int): (d: int)
    ensures 0 <= d
    ensures planned >= 0 ==> d <= planned
  {
    Integers.Max(0, planned - Integers.Max(0, WholeDays(now - startsAt)))
  }

  function DaysSince(pauses: seq<Pause>, from: int): int {
    if |pauses| == 0 then 0
    else
      var p := pauses[|pauses| - 1];
      DaysSince(pauses[..|pauses| - 1], from) + if p.startsAt >= from then p.days else 0
  }

  function RemainingDays(pauses: seq<Pause>, prefs: Preferences, now: int): int {
    Integers.Max(0, prefs.maxDaysPerYear - DaysSince(pauses, now - 365 * DAY))
  }

  /** The open pause that started last. */
  function LatestOpen(pauses: seq<Pause>): (r: Option<nat>)
    ensures r.Some? ==> r.value < |pauses| && pauses[r.value].open
    ensures r.Some? ==> forall i :: 0 <= i < |pauses| && pauses[i].open ==> pauses[i].startsAt <= pauses[r.value].startsAt
    ensures r.None? ==> forall i :: 0 <= i < |pauses| ==> !pauses[i].open
  {
    if |pauses| == 0 then None
    else
      var n := |pauses| - 1;
      var before := LatestOpen(pauses[..n]);
      if !pauses[n].open then before
      else if before.Some? && pauses[before.value].startsAt > pauses[n].startsAt then before
      else Some(n)
  }

  /** Days the plan would be given back if its pause ended at `now`. */
  function GivenBack(p: Plan, now: int): int {
    if p.pausedUntil.None? then 0
    else
      match LatestOpen(p.pauses)
      case Some(i) => UnusedPauseDays(p.pauses[i].days, p.pauses[i].startsAt, now)
      case None => Integers.Max(0, WholeDays(p.pausedUntil.value - now))
  }

  // ---------------------------------------------------------------------------------------
  // Steps
  // ---------------------------------------------------------------------------------------

  function Subscribed(start: int, firstCycle: nat, autoRenew: bool): Plan {
    Plan(start, firstCycle, ACTIVE, autoRenew, start + firstCycle * DAY, None, [], [], [])
  }

  predicate RenewalDue(p: Plan, now: int) {
    p.status == ACTIVE && p.autoRenew && p.nextBilling <= now
  }

  function Renewed(p: Plan, now: int, cycle: Cycle): Plan {
    if !RenewalDue(p, now) || CycleLengthDays(cycle).None? then p
    else
      var days := CycleLengthDays(cycle).value;
      p.(renewals := p.renewals + [Renewal(p.nextBilling, days)], nextBilling := p.nextBilling + days * DAY)
  }

  predicate PauseAllowed(p: Plan, prefs: Preferences, now: int, days: int, byCustomer: bool, overdueBills: nat) {
    && p.status == ACTIVE
    && (byCustomer ==> prefs.enabled && days <= RemainingDays(p.pauses, prefs, now))
    && days >= prefs.minDays
    && overdueBills == 0
  }

  /** If the network cannot be switched off the plan is switched back on, unless an older pause date
      is still set: the repair only looks for plans without one. */
  function Paused(p: Plan, prefs: Preferences, now: int, days: int, byCustomer: bool, overdueBills: nat, networkOk: bool): Plan {
    if !PauseAllowed(p, prefs, now, days, byCustomer, overdueBills) then p
    else if !networkOk then (if p.pausedUntil.None? then p else p.(status := SUSPENDED))
    else p.(status := SUSPENDED,
            pausedUntil := Some(now + days * DAY),
            nextBilling := p.nextBilling + days * DAY,
            pauses := p.pauses + [Pause(now, days, byCustomer, true)])
  }

  function Resumed(p: Plan, now: int, overdueBills: nat): Plan {
    if p.pausedUntil.None? then p
    else
      var unused := GivenBack(p, now);
      var pause := LatestOpen(p.pauses);
      p.(pausedUntil := None,
         nextBilling := p.nextBilling - unused * DAY,
         pauses := if pause.None? then p.pauses
                   else p.pauses[pause.value := p.pauses[pause.value].(open := false, days := Integers.Max(0, p.pauses[pause.value].days - unused))],
         status := if p.status == SUSPENDED && overdueBills == 0 then ACTIVE else p.status)
  }

  function Step(p: Plan, prefs: Preferences, e: Event): Plan {
    match e
    case Renew(now, cycle) => Renewed(p, now, cycle)
    case PauseFor(now, days, byCustomer, overdue, networkOk) => Paused(p, prefs, now, days, byCustomer, overdue, networkOk)
    case Resume(now, overdue) => Resumed(p, now, overdue)
    case FreeDays(_, days) =>
      if p.status != ACTIVE then p
      else p.(nextBilling := p.nextBilling + days * DAY, rewards := p.rewards + [days])
    case Suspend(_) => if p.status == ACTIVE then p.(status := SUSPENDED) else p
    case Reactivate(_) => if p.status == SUSPENDED then p.(status := ACTIVE) else p
    case SweepReactivate(now) =>
      if p.status == SUSPENDED && (p.pausedUntil.None? || p.pausedUntil.value <= now) then p.(status := ACTIVE) else p
    case Cancel(_) => if p.status == CANCELLED then p else p.(status := CANCELLED, autoRenew := false)
  }

  function Run(p: Plan, prefs: Preferences, events: seq<Event>): Plan
    decreases |events|
  {
    if |events| == 0 then p else Run(Step(p, prefs, events[0]), prefs, events[1..])
  }

  // ---------------------------------------------------------------------------------------
  // The calendar equation
  // ---------------------------------------------------------------------------------------

  function CycleDays(renewals: seq<Renewal>): int {
    if |renewals| == 0 then 0 else CycleDays(renewals[..|renewals| - 1]) + renewals[|renewals| - 1].cycleDays
  }

  function PauseDays(pauses: seq<Pause>): int {
    if |pauses| == 0 then 0 else PauseDays(pauses[..|pauses| - 1]) + pauses[|pauses| - 1].days
  }

  function RewardDays(rewards: seq<int>): int {
    if |rewards| == 0 then 0 else RewardDays(rewards[..|rewards| - 1]) + rewards[|rewards| - 1]
  }

  /** Every day the next bill has moved is a day billed, paused or given. */
  ghost predicate Exact(p: Plan) {
    p.nextBilling == p.start + (p.firstCycle + CycleDays(p.renewals) + PauseDays(p.pauses) + RewardDays(p.rewards)) * DAY
  }

  ghost predicate Inv(p: Plan) {
    && Exact(p)
    && (forall i :: 0 <= i < |p.pauses| ==> p.pauses[i].days >= 0)
    && (p.pausedUntil.Some? ==> LatestOpen(p.pauses).Some?)
  }

  lemma {:induction false} PauseDaysUpdate(pauses: seq<Pause>, i: nat, p: Pause)
    requires i < |pauses|
    ensures PauseDays(pauses[i := p]) == PauseDays(pauses) - pauses[i].days + p.days
    decreases |pauses|
  {
    var n := |pauses| - 1;
    if i < n {
      PauseDaysUpdate(pauses[..n], i, p);
      assert pauses[i := p][..n] == pauses[..n][i := p];
    } else {
      assert pauses[i := p][..n] == pauses[..n];
    }
  }

  lemma Appended(p: Plan, pause: Pause, renewal: Renewal, reward: int)
    ensures PauseDays(p.pauses + [pause]) == PauseDays(p.pauses) + pause.days
    ensures CycleDays(p.renewals + [renewal]) == CycleDays(p.renewals) + renewal.cycleDays
    ensures RewardDays(p.rewards + [reward]) == RewardDays(p.rewards) + reward
    ensures LatestOpen(p.pauses + [pause]).None? ==> !pause.open
  {
    hide LatestOpen, PauseDays, CycleDays, RewardDays;
    PauseAppended(p.pauses, pause);
    RenewalAppended(p.renewals, renewal);
    RewardAppended(p.rewards, reward);
  }

  lemma PauseAppended(pauses: seq<Pause>, pause: Pause)
    ensures PauseDays(pauses + [pause]) == PauseDays(pauses) + pause.days
    ensures LatestOpen(pauses + [pause]).None? ==> !pause.open
  {
    hide LatestOpen;
    assert (pauses + [pause])[..|pauses|] == pauses && (pauses + [pause])[|pauses|] == pause;
  }

  lemma RenewalAppended(renewals: seq<Renewal>, renewal: Renewal)
    ensures CycleDays(renewals + [renewal]) == CycleDays(renewals) + renewal.cycleDays
  {
    assert (renewals + [renewal])[..|renewals|] == renewals;
  }

  lemma RewardAppended(rewards: seq<int>, reward: int)
    ensures RewardDays(rewards + [reward]) == RewardDays(rewards) + reward
  {
    assert (rewards + [reward])[..|rewards|] == rewards;
  }

  /** A resume never falls into the branch for a pause that has no row. */
  lemma ResumeFindsItsPause(p: Plan, now: int)
    requires Inv(p) && p.pausedUntil.Some?
    ensures LatestOpen(p.pauses).Some?
    ensures var pause := p.pauses[LatestOpen(p.pauses).value];
      GivenBack(p, now) == UnusedPauseDays(pause.days, pause.startsAt, now) <= pause.days
  {
  }

  // ---------------------------------------------------------------------------------------
  // What each event does to the plan
  // ---------------------------------------------------------------------------------------

  /** A pause counts towards the yearly allowance for its days if it began inside the window, and not
      at all otherwise, wherever it stands among the others. */
  lemma {:induction false} PauseCounts(before: seq<Pause>, p: Pause, after: seq<Pause>, from: int)
    ensures DaysSince([], from) == 0
    ensures DaysSince(before + [p] + after, from) == DaysSince(before + after, from) + if from <= p.startsAt then p.days else 0
    decreases |after|
  {
    if |after| == 0 {
      assert (before + [p] + after)[..|before|] == before == before + after;
    } else {
      var n := |after| - 1;
      PauseCounts(before, p, after[..n], from);
      assert (before + [p] + after)[..|before| + 1 + n] == before + [p] + after[..n];
      assert (before + after)[..|before| + n] == before + after[..n];
    }
  }

  /** A pause of an active plan is allowed for at least the least length and while nothing is overdue;
      a customer's own, also, only where pauses are on offer and within the days left of the allowance.
      It moves the next bill by its days and suspends the plan until its end. One the network refuses
      is undone, unless an older end date is still set. */
  lemma PauseDecides(p: Plan, prefs: Preferences, now: int, days: int, byCustomer: bool, overdueBills: nat, networkOk: bool)
    ensures var allowed := p.status == ACTIVE && prefs.minDays <= days && overdueBills == 0
                           && (byCustomer ==> prefs.enabled && (days <= 0 || DaysSince(p.pauses, now - 365 * 86_400_000) + days <= prefs.maxDaysPerYear));
      var p' := Paused(p, prefs, now, days, byCustomer, overdueBills, networkOk);
      && (PauseAllowed(p, prefs, now, days, byCustomer, overdueBills) <==> allowed)
      && (allowed && networkOk ==>
            p' == Plan(p.start, p.firstCycle, SUSPENDED, p.autoRenew, p.nextBilling + days * 86_400_000, Some(now + days * 86_400_000),
                       p.pauses + [Pause(now, days, byCustomer, true)], p.renewals, p.rewards))
      && (allowed && !networkOk && p.pausedUntil.Some? ==> p' == p.(status := SUSPENDED))
      && (!allowed || (!networkOk && p.pausedUntil.None?) ==> p' == p)
  {
    hide DaysSince;
  }

  /** Ending a pause closes its row, the open one that began last, at the whole days it took, at most
      those planned, and brings the next bill forward by the rest. The plan runs again unless something
      is overdue. */
  lemma ResumeDecides(p: Plan, now: int, overdueBills: nat)
    requires Inv(p)
    ensures var p' := Resumed(p, now, overdueBills);
      && (p.pausedUntil.None? ==> p' == p)
      && (p.pausedUntil.Some? ==>
            && p'.pausedUntil == None && |p'.pauses| == |p.pauses|
            && (p'.status == ACTIVE <==> p.status == ACTIVE || (p.status == SUSPENDED && overdueBills == 0))
            && (p'.status != ACTIVE ==> p'.status == p.status)
            && exists i :: 0 <= i < |p.pauses| && IsLatestOpen(p.pauses, i)
                           && p' == p.(pausedUntil := None, status := p'.status,
                                       nextBilling := p.nextBilling - (p.pauses[i].days - p'.pauses[i].days) * 86_400_000,
                                       pauses := p.pauses[i := p.pauses[i].(open := false, days := p'.pauses[i].days)])
                           && TookDays(p.pauses[i], now, p'.pauses[i].days))
  {
    if p.pausedUntil.Some? {
      ResumeFindsItsPause(p, now);
      var i := LatestOpen(p.pauses).value;
      assert IsLatestOpen(p.pauses, i);
      assert TookDays(p.pauses[i], now, Resumed(p, now, overdueBills).pauses[i].days);
    }
  }

  ghost predicate IsLatestOpen(pauses: seq<Pause>, i: nat) {
    && i < |pauses| && pauses[i].open
    && forall j :: 0 <= j < |pauses| && pauses[j].open ==> pauses[j].startsAt <= pauses[i].startsAt
  }

  /** The whole days from the pause's begin to `now`, none before it began and at most those planned. */
  ghost predicate TookDays(pause: Pause, now: int, took: int) {
    if now < pause.startsAt then took == 0
    else if now - pause.startsAt >= pause.days * 86_400_000 then took == pause.days
    else took * 86_400_000 <= now - pause.startsAt < (took + 1) * 86_400_000
  }

  /** Free days move the next bill of an active plan. Debt suspends an active plan, a payment or staff
      switch a suspended one on whatever its pause, the sweep only after its pause, and cancelling ends
      plan and renewals. */
  lemma OtherEventsDecide(p: Plan, prefs: Preferences, now: int, reward: nat)
    ensures Step(p, prefs, FreeDays(now, reward)) ==
      if p.status == ACTIVE then p.(nextBilling := p.nextBilling + reward * 86_400_000, rewards := p.rewards + [reward]) else p
    ensures Step(p, prefs, Suspend(now)) == if p.status == ACTIVE then p.(status := SUSPENDED) else p
    ensures Step(p, prefs, Reactivate(now)) == if p.status == SUSPENDED then p.(status := ACTIVE) else p
    ensures Step(p, prefs, SweepReactivate(now)) ==
      if p.status == SUSPENDED && (p.pausedUntil.Some? ==> p.pausedUntil.value <= now) then p.(status := ACTIVE) else p
    ensures Step(p, prefs, Cancel(now)) == if p.status == CANCELLED then p else p.(status := CANCELLED, autoRenew := false)
  {
  }

  lemma ResumedKeepsInv(p: Plan, now: int, overdueBills: nat)
    requires Inv(p)
    ensures Inv(Resumed(p, now, overdueBills))
  {
    if p.pausedUntil.Some? {
      ResumeFindsItsPause(p, now);
      var i := LatestOpen(p.pauses).value;
      PauseDaysUpdate(p.pauses, i, Resumed(p, now, overdueBills).pauses[i]);
    }
  }

  lemma StepKeepsInv(p: Plan, prefs: Preferences, e: Event)
    requires Inv(p)
    ensures Inv(Step(p, prefs, e))
  {
    hide LatestOpen, PauseDays, CycleDays, RewardDays, RemainingDays, UnusedPauseDays;
    match e
    case Renew(now, cycle) =>
      Appended(p, Pause(0, 0, false, true), Renewal(p.nextBilling, if CycleLengthDays(cycle).Some? then CycleLengthDays(cycle).value else 0), 0);
    case PauseFor(now, days, byCustomer, _, _) =>
      Appended(p, Pause(now, days, byCustomer, true), Renewal(0, 0), 0);
    case Resume(now, overdue) => ResumedKeepsInv(p, now, overdue);
    case FreeDays(_, days) => Appended(p, Pause(0, 0, false, true), Renewal(0, 0), days);
    case _ =>
  }

  /** Over every run from a subscription, the next bill falls exactly where the rows say. */
  lemma {:induction false} RunIsExact(p: Plan, prefs: Preferences, events: seq<Event>)
    requires Inv(p)
    ensures Inv(Run(p, prefs, events))
    decreases |events|
  {
    hide Inv, Step;
    if |events| > 0 {
      StepKeepsInv(p, prefs, events[0]);
      RunIsExact(Step(p, prefs, events[0]), prefs, events[1..]);
    }
  }

  // ---------------------------------------------------------------------------------------
  // When a plan is billed
  // ---------------------------------------------------------------------------------------

  /** How many days a cycle is paid for; a custom one may have none. */
  lemma CyclesInDays(days: nat)
    ensures [CycleLengthDays(DAILY), CycleLengthDays(WEEKLY), CycleLengthDays(MONTHLY), CycleLengthDays(QUARTERLY), CycleLengthDays(YEARLY)]
         == [Some(1), Some(7), Some(30), Some(91), Some(365)]
    ensures CycleLengthDays(CUSTOM(days)) == (if days == 0 then None else Some(days))
  {
  }

  /** A plan is billed by the renewal job alone, and by that exactly when it is active, renews itself,
      its bill has come due and its cycle has a length: then by one bill, due when the last period
      ran out, and the next one is due a cycle later. Nothing else about the plan changes. */
  lemma BilledExactlyWhenDue(p: Plan, prefs: Preferences, e: Event)
    ensures var billed := e.Renew? && p.status == ACTIVE && p.autoRenew && p.nextBilling <= e.now && CycleLengthDays(e.cycle).Some?;
      && (billed ==>
            var days := CycleLengthDays(e.cycle).value;
            Step(p, prefs, e) == p.(renewals := p.renewals + [Renewal(p.nextBilling, days)], nextBilling := p.nextBilling + days * DAY))
      && (!billed ==> Step(p, prefs, e).renewals == p.renewals)
      && (!billed && e.Renew? ==> Step(p, prefs, e) == p)
  {
    hide LatestOpen, RemainingDays, CycleLengthDays;
  }

  /** Over every run, no bill is made before it is due: all that are on record have come due. */
  lemma {:induction false} NoBillIsEarly(p: Plan, prefs: Preferences, events: seq<Event>, from: int, now: int)
    requires forall i :: 0 <= i < |p.renewals| ==> p.renewals[i].due <= now
    requires InOrder(events, from) && forall i :: 0 <= i < |events| ==> events[i].now <= now
    ensures var after := Run(p, prefs, events).renewals;
      p.renewals <= after && forall i :: 0 <= i < |after| ==> after[i].due <= now
    decreases |events|
  {
    if |events| > 0 {
      BilledExactlyWhenDue(p, prefs, events[0]);
      hide Step;
      NoBillIsEarly(Step(p, prefs, events[0]), prefs, events[1..], from, now);
    }
  }

  /** A new plan is billed for nothing that has not come due. */
  lemma NewPlanIsBilledInTime(start: int, firstCycle: nat, autoRenew: bool, prefs: Preferences, events: seq<Event>, now: int)
    requires InOrder(events, start) && forall i :: 0 <= i < |events| ==> events[i].now <= now
    ensures forall i :: 0 <= i < |Run(Subscribed(start, firstCycle, autoRenew), prefs, events).renewals| ==>
              Run(Subscribed(start, firstCycle, autoRenew), prefs, events).renewals[i].due <= now
  {
    NoBillIsEarly(Subscribed(start, firstCycle, autoRenew), prefs, events, start, now);
  }

  // ---------------------------------------------------------------------------------------
  // No period billed twice
  // ---------------------------------------------------------------------------------------

  ghost predicate DuesIncrease(renewals: seq<Renewal>) {
    forall i, j :: 0 <= i < j < |renewals| ==> renewals[i].due < renewals[j].due
  }

  /** Every period billed so far lies before the next bill, even if the open pause ended right now. */
  ghost predicate Safe(p: Plan, now: int) {
    && DuesIncrease(p.renewals)
    && forall i :: 0 <= i < |p.renewals| ==> p.renewals[i].due < p.nextBilling - GivenBack(p, now) * DAY
  }

  /** The guard the renewal job does not have: a plan switched back on during its pause may be
      billed, and ending the pause afterwards gives the unused days back. */
  predicate RenewalGuarded(p: Plan, e: Event) {
    e.Renew? && RenewalDue(p, e.now) && CycleLengthDays(e.cycle).Some?
    ==> GivenBack(p, e.now) < CycleLengthDays(e.cycle).value
  }

  ghost predicate AllGuarded(p: Plan, prefs: Preferences, events: seq<Event>)
    decreases |events|
  {
    |events| == 0 || (RenewalGuarded(p, events[0]) && AllGuarded(Step(p, prefs, events[0]), prefs, events[1..]))
  }

  ghost predicate InOrder(events: seq<Event>, from: int) {
    && (forall i :: 0 <= i < |events| ==> from <= events[i].now)
    && (forall i, j :: 0 <= i < j < |events| ==> events[i].now <= events[j].now)
  }

  lemma WholeDaysMonotone(a: int, b: int)
    requires a <= b
    ensures WholeDays(a) <= WholeDays(b)
  {
  }

  lemma SafeLater(p: Plan, now: int, later: int)
    requires Inv(p) && Safe(p, now) && now <= later
    ensures Safe(p, later)
  {
    if p.pausedUntil.Some? {
      ResumeFindsItsPause(p, now);
      ResumeFindsItsPause(p, later);
      var pause := p.pauses[LatestOpen(p.pauses).value];
      WholeDaysMonotone(now - pause.startsAt, later - pause.startsAt);
      assert GivenBack(p, later) <= GivenBack(p, now);
    }
  }

  lemma RenewedSafe(p: Plan, now: int, cycle: Cycle)
    requires Safe(p, now) && RenewalDue(p, now) && CycleLengthDays(cycle).Some?
    requires GivenBack(p, now) < CycleLengthDays(cycle).value
    requires 0 <= GivenBack(p, now)
    ensures Safe(Renewed(p, now, cycle), now)
  {
    var p' := Renewed(p, now, cycle);
    assert GivenBack(p', now) == GivenBack(p, now);
    assert p'.renewals[|p.renewals|].due == p.nextBilling;
  }

  /** Pauses are on record in the order they started, none in the future. */
  ghost predicate Timely(p: Plan, now: int) {
    && (forall i :: 0 <= i < |p.pauses| ==> p.pauses[i].startsAt <= now)
    && (forall i, j :: 0 <= i < j < |p.pauses| ==> p.pauses[i].startsAt <= p.pauses[j].startsAt)
  }

  lemma BackNonNegative(p: Plan, now: int)
    ensures GivenBack(p, now) >= 0
  {
  }

  lemma NewPauseIsLatest(pauses: seq<Pause>, pause: Pause)
    requires pause.open && forall i :: 0 <= i < |pauses| ==> pauses[i].startsAt <= pause.startsAt
    ensures LatestOpen(pauses + [pause]) == Some(|pauses|)
  {
    assert (pauses + [pause])[..|pauses|] == pauses;
  }

  /** A new pause can be given back whole, but not the days before it. */
  lemma PausedSafe(p: Plan, prefs: Preferences, e: Event)
    requires e.PauseFor? && Inv(p) && Safe(p, e.now) && Timely(p, e.now)
    ensures Safe(Step(p, prefs, e), e.now) && Timely(Step(p, prefs, e), e.now)
  {
    hide LatestOpen, RemainingDays;
    var p' := Step(p, prefs, e);
    BackNonNegative(p, e.now);
    if p'.pauses != p.pauses {
      NewPauseIsLatest(p.pauses, Pause(e.now, e.days, e.byCustomer, true));
      assert WholeDays(0) == 0;
      assert GivenBack(p', e.now) == e.days;
    }
  }

  lemma ResumedSafe(p: Plan, now: int, overdueBills: nat)
    requires Inv(p) && Safe(p, now) && Timely(p, now)
    ensures Safe(Resumed(p, now, overdueBills), now) && Timely(Resumed(p, now, overdueBills), now)
  {
    hide LatestOpen, UnusedPauseDays;
  }

  lemma StepSafe(p: Plan, prefs: Preferences, e: Event)
    requires Inv(p) && Safe(p, e.now) && Timely(p, e.now) && RenewalGuarded(p, e)
    ensures Safe(Step(p, prefs, e), e.now) && Timely(Step(p, prefs, e), e.now)
  {
    hide LatestOpen, UnusedPauseDays, DuesIncrease;
    BackNonNegative(p, e.now);
    match e
    case Renew(now, cycle) =>
      if RenewalDue(p, now) && CycleLengthDays(cycle).Some? {
        RenewedSafe(p, now, cycle);
      }
    case PauseFor(_, _, _, _, _) => PausedSafe(p, prefs, e);
    case Resume(now, overdue) => ResumedSafe(p, now, overdue);
    case FreeDays(now, days) => assert GivenBack(Step(p, prefs, e), now) == GivenBack(p, now);
    case _ => assert GivenBack(Step(p, prefs, e), e.now) == GivenBack(p, e.now);
  }

  /** While every renewal passes the guard, due dates strictly increase: no period is billed twice,
      however often the job runs and through any pauses, early resumes and free days. */
  lemma {:induction false} GuardedRunBillsOnce(p: Plan, prefs: Preferences, events: seq<Event>, now: int)
    requires Inv(p) && Safe(p, now) && Timely(p, now)
    requires InOrder(events, now) && AllGuarded(p, prefs, events)
    ensures DuesIncrease(Run(p, prefs, events).renewals)
    decreases |events|
  {
    hide Inv, Step, Timely, RenewalGuarded, DuesIncrease;
    if |events| > 0 {
      var e := events[0];
      SafeLater(p, now, e.now);
      TimelyLater(p, now, e.now);
      StepSafe(p, prefs, e);
      StepKeepsInv(p, prefs, e);
      GuardedRunBillsOnce(Step(p, prefs, e), prefs, events[1..], e.now);
    }
  }

  lemma TimelyLater(p: Plan, now: int, later: int)
    requires Timely(p, now) && now <= later
    ensures Timely(p, later)
  {
  }

  /** A new plan starts out safe. */
  lemma SubscribedSafe(start: int, firstCycle: nat, autoRenew: bool, now: int)
    ensures var p := Subscribed(start, firstCycle, autoRenew); Inv(p) && Safe(p, now) && Timely(p, now)
  {
  }

  /** The guard is exact: a due renewal that fails it can be followed at once by ending the pause,
      and the next renewal then bills a date that is already billed, or one before it. */
  lemma UnguardedRenewalBillsBack(p: Plan, prefs: Preferences, e: Event) returns (after: seq<Event>)
    requires Inv(p) && !RenewalGuarded(p, e)
    ensures InOrder(after, e.now) && AllGuarded(Step(p, prefs, e), prefs, after)
    ensures var end := Run(Step(p, prefs, e), prefs, after).renewals;
      && |end| == |p.renewals| + 2
      && end[|p.renewals| + 1].due <= end[|p.renewals|].due
      && !DuesIncrease(end)
  {
    var p1 := Step(p, prefs, e);
    var resume := Resume(e.now, 0);
    var p2 := Step(p1, prefs, resume);
    var unused, days := GivenBack(p, e.now), CycleLengthDays(e.cycle).value;
    assert GivenBack(p1, e.now) == unused;
    assert p2.nextBilling == p.nextBilling + days * DAY - unused * DAY;
    var again := Renew(Integers.Max(e.now, p2.nextBilling), DAILY);
    after := [resume, again];
    assert after[1..] == [again] && [again][1..] == [];
    RunTwo(p1, prefs, resume, again);
    assert GivenBack(p2, again.now) == 0;
    assert AllGuarded(Step(p2, prefs, again), prefs, []) && AllGuarded(p2, prefs, [again]);
    var end := Run(p1, prefs, after).renewals;
    assert end == p.renewals + [Renewal(p.nextBilling, days)] + [Renewal(p2.nextBilling, 1)];
  }

  lemma {:induction false} RunConcat(p: Plan, prefs: Preferences, before: seq<Event>, after: seq<Event>)
    ensures Run(p, prefs, before + after) == Run(Run(p, prefs, before), prefs, after)
    decreases |before|
  {
    hide Step;
    if |before| == 0 {
      assert before + after == after;
    } else {
      assert (before + after)[1..] == before[1..] + after;
      RunConcat(Step(p, prefs, before[0]), prefs, before[1..], after);
    }
  }

  lemma RunTwo(p: Plan, prefs: Preferences, a: Event, b: Event)
    ensures Run(p, prefs, [a, b]) == Step(Step(p, prefs, a), prefs, b)
  {
    hide Step;
    assert [a, b][1..] == [b] && [b][1..] == [];
    assert Run(Step(p, prefs, a), prefs, [b]) == Run(Step(Step(p, prefs, a), prefs, b), prefs, []);
  }

  /** Cutting the run after `n` events and going on with others, all guarded, bills no period twice. */
  ghost predicate BillsOnceFrom(p: Plan, prefs: Preferences, events: seq<Event>, now: int, n: nat, after: seq<Event>) {
    n <= |events| && InOrder(events[..n] + after, now) && AllGuarded(Run(p, prefs, events[..n]), prefs, after)
    ==> DuesIncrease(Run(p, prefs, events[..n] + after).renewals)
  }

  /** The guard is the exact condition: a run keeps it if and only if no guarded continuation of any
      part of the run ever bills a period twice. */
  lemma BillsOnceExactlyIfGuarded(p: Plan, prefs: Preferences, events: seq<Event>, now: int)
    requires Inv(p) && Safe(p, now) && Timely(p, now) && InOrder(events, now)
    ensures AllGuarded(p, prefs, events)
       <==> forall n: nat, after: seq<Event> :: BillsOnceFrom(p, prefs, events, now, n, after)
  {
    hide Inv, Safe, Timely, InOrder, Run, AllGuarded, DuesIncrease;
    if AllGuarded(p, prefs, events) {
      forall n: nat, after: seq<Event>
        ensures BillsOnceFrom(p, prefs, events, now, n, after)
      {
        if n <= |events| && InOrder(events[..n] + after, now) && AllGuarded(Run(p, prefs, events[..n]), prefs, after) {
          GuardedPrefix(p, prefs, events, n);
          GuardedConcat(p, prefs, events[..n], after);
          GuardedRunBillsOnce(p, prefs, events[..n] + after, now);
        }
      }
    } else {
      var n := FirstUnguarded(p, prefs, events);
      var q, e := Run(p, prefs, events[..n]), events[n];
      RunIsExact(p, prefs, events[..n]);
      var after := UnguardedRenewalBillsBack(q, prefs, e);
      OneMore(p, prefs, events, n);
      RunConcat(p, prefs, events[..n + 1], after);
      CutInOrder(events, n + 1, after, now);
      assert !BillsOnceFrom(p, prefs, events, now, n + 1, after);
    }
  }

  lemma OneMore(p: Plan, prefs: Preferences, events: seq<Event>, n: nat)
    requires n < |events|
    ensures Run(p, prefs, events[..n + 1]) == Step(Run(p, prefs, events[..n]), prefs, events[n])
  {
    hide Step;
    RunConcat(p, prefs, events[..n], [events[n]]);
    assert events[..n + 1] == events[..n] + [events[n]];
    assert [events[n]][1..] == [];
    var q := Run(p, prefs, events[..n]);
    assert Run(q, prefs, [events[n]]) == Run(Step(q, prefs, events[n]), prefs, []);
  }

  lemma CutInOrder(events: seq<Event>, n: nat, after: seq<Event>, now: int)
    requires InOrder(events, now) && 1 <= n <= |events| && InOrder(after, events[n - 1].now)
    ensures InOrder(events[..n] + after, now)
  {
  }

  lemma {:induction false} GuardedPrefix(p: Plan, prefs: Preferences, events: seq<Event>, n: nat)
    requires AllGuarded(p, prefs, events) && n <= |events|
    ensures AllGuarded(p, prefs, events[..n])
    decreases n
  {
    hide Step, RenewalGuarded;
    if n > 0 {
      GuardedPrefix(Step(p, prefs, events[0]), prefs, events[1..], n - 1);
      assert events[..n][1..] == events[1..][..n - 1];
    }
  }

  lemma {:induction false} GuardedConcat(p: Plan, prefs: Preferences, before: seq<Event>, after: seq<Event>)
    requires AllGuarded(p, prefs, before) && AllGuarded(Run(p, prefs, before), prefs, after)
    ensures AllGuarded(p, prefs, before + after)
    decreases |before|
  {
    hide Step, RenewalGuarded;
    if |before| == 0 {
      assert before + after == after;
    } else {
      GuardedConcat(Step(p, prefs, before[0]), prefs, before[1..], after);
      assert (before + after)[1..] == before[1..] + after;
    }
  }

  lemma {:induction false} FirstUnguarded(p: Plan, prefs: Preferences, events: seq<Event>) returns (n: nat)
    requires !AllGuarded(p, prefs, events)
    ensures n < |events| && !RenewalGuarded(Run(p, prefs, events[..n]), events[n])
    decreases |events|
  {
    hide Step, RenewalGuarded;
    if !RenewalGuarded(p, events[0]) {
      n := 0;
    } else {
      var m := FirstUnguarded(Step(p, prefs, events[0]), prefs, events[1..]);
      n := m + 1;
      assert events[..n][1..] == events[1..][..m];
    }
  }

  // ---------------------------------------------------------------------------------------
  // The yearly allowance
  // ---------------------------------------------------------------------------------------

  const YEAR: int := 365 * DAY

  /** Every pause the customer asked for fitted the allowance of the year before it. */
  ghost predicate WithinAllowance(pauses: seq<Pause>, prefs: Preferences) {
    forall i :: 0 <= i < |pauses| && pauses[i].byCustomer ==>
      DaysSince(pauses[..i + 1], pauses[i].startsAt - YEAR) <= prefs.maxDaysPerYear
  }

  /** Pause days started in a window, its ends included. */
  function DaysWithin(pauses: seq<Pause>, lo: int, hi: int): int {
    if |pauses| == 0 then 0
    else
      var p := pauses[|pauses| - 1];
      DaysWithin(pauses[..|pauses| - 1], lo, hi) + if lo <= p.startsAt <= hi then p.days else 0
  }

  /** It is the sum of the days of the pauses that begin between the two ends, each counted once. */
  lemma {:induction false} WindowCounts(before: seq<Pause>, p: Pause, after: seq<Pause>, lo: int, hi: int)
    ensures DaysWithin([], lo, hi) == 0
    ensures DaysWithin(before + [p] + after, lo, hi)
         == DaysWithin(before + after, lo, hi) + if lo <= p.startsAt && p.startsAt <= hi then p.days else 0
    decreases |after|
  {
    if |after| == 0 {
      assert (before + [p] + after)[..|before|] == before == before + after;
    } else {
      var n := |after| - 1;
      WindowCounts(before, p, after[..n], lo, hi);
      assert (before + [p] + after)[..|before| + 1 + n] == before + [p] + after[..n];
      assert (before + after)[..|before| + n] == before + after[..n];
    }
  }

  lemma {:induction false} FewerDays(a: seq<Pause>, b: seq<Pause>, from: int)
    requires |a| == |b|
    requires forall i :: 0 <= i < |a| ==> a[i].startsAt == b[i].startsAt && a[i].days <= b[i].days
    ensures DaysSince(a, from) <= DaysSince(b, from)
    decreases |a|
  {
    if |a| > 0 {
      FewerDays(a[..|a| - 1], b[..|b| - 1], from);
    }
  }

  /** Shortening pauses already made keeps every allowance. */
  lemma ShortenedWithin(a: seq<Pause>, b: seq<Pause>, prefs: Preferences)
    requires |a| == |b| && WithinAllowance(a, prefs)
    requires forall i :: 0 <= i < |a| ==>
               b[i].startsAt == a[i].startsAt && b[i].byCustomer == a[i].byCustomer && b[i].days <= a[i].days
    ensures WithinAllowance(b, prefs)
  {
    forall i | 0 <= i < |b| && b[i].byCustomer
      ensures DaysSince(b[..i + 1], b[i].startsAt - YEAR) <= prefs.maxDaysPerYear
    {
      FewerDays(b[..i + 1], a[..i + 1], a[i].startsAt - YEAR);
    }
  }

  lemma AppendedWithin(pauses: seq<Pause>, pause: Pause, prefs: Preferences)
    requires WithinAllowance(pauses, prefs)
    requires pause.byCustomer ==> DaysSince(pauses, pause.startsAt - YEAR) + pause.days <= prefs.maxDaysPerYear
    requires pause.days >= 0
    ensures WithinAllowance(pauses + [pause], prefs)
  {
    var all := pauses + [pause];
    forall i | 0 <= i < |all| && all[i].byCustomer
      ensures DaysSince(all[..i + 1], all[i].startsAt - YEAR) <= prefs.maxDaysPerYear
    {
      if i < |pauses| {
        assert all[..i + 1] == pauses[..i + 1];
      } else {
        assert all[..i + 1] == all && all[..|pauses|] == pauses;
      }
    }
  }

  lemma StepWithin(p: Plan, prefs: Preferences, e: Event)
    requires Inv(p) && WithinAllowance(p.pauses, prefs) && prefs.minDays >= 1
    ensures WithinAllowance(Step(p, prefs, e).pauses, prefs)
  {
    hide WithinAllowance, LatestOpen, DaysSince, Exact;
    match e
    case PauseFor(now, days, byCustomer, overdue, networkOk) =>
      if Step(p, prefs, e).pauses != p.pauses {
        AppendedWithin(p.pauses, Pause(now, days, byCustomer, true), prefs);
      }
    case Resume(now, overdue) =>
      if p.pausedUntil.Some? {
        ResumeFindsItsPause(p, now);
        ShortenedWithin(p.pauses, Step(p, prefs, e).pauses, prefs);
      }
    case _ =>
  }

  /** In any 365-day window whose last pause a customer asked for, the pause days started in the
      window are within the yearly allowance: whatever staff paused before, and through any early
      resumes before or after. */
  lemma {:induction false} AllowanceHolds(p: Plan, prefs: Preferences, events: seq<Event>, now: int, lo: int, last: nat)
    requires prefs.minDays >= 1
    requires Inv(p) && Timely(p, now) && WithinAllowance(p.pauses, prefs) && InOrder(events, now)
    requires last < |Run(p, prefs, events).pauses|
    requires var pauses := Run(p, prefs, events).pauses;
      && pauses[last].byCustomer && lo <= pauses[last].startsAt <= lo + YEAR
      && forall j :: last < j < |pauses| ==> pauses[j].startsAt > lo + YEAR
    ensures DaysWithin(Run(p, prefs, events).pauses, lo, lo + YEAR) <= prefs.maxDaysPerYear
    decreases |events|
  {
    hide Inv, Step, Timely;
    if |events| == 0 {
      WindowWithin(p, prefs, now, lo, last);
    } else {
      var e := events[0];
      TimelyLater(p, now, e.now);
      StepTimely(p, prefs, e);
      StepKeepsInv(p, prefs, e);
      StepWithin(p, prefs, e);
      AllowanceHolds(Step(p, prefs, e), prefs, events[1..], e.now, lo, last);
    }
  }

  lemma StepTimely(p: Plan, prefs: Preferences, e: Event)
    requires Inv(p) && Timely(p, e.now)
    ensures Timely(Step(p, prefs, e), e.now)
  {
    hide LatestOpen, RemainingDays, UnusedPauseDays;
  }

  lemma WindowWithin(p: Plan, prefs: Preferences, now: int, lo: int, last: nat)
    requires Inv(p) && Timely(p, now) && WithinAllowance(p.pauses, prefs) && last < |p.pauses|
    requires p.pauses[last].byCustomer && lo <= p.pauses[last].startsAt <= lo + YEAR
    requires forall j :: last < j < |p.pauses| ==> p.pauses[j].startsAt > lo + YEAR
    ensures DaysWithin(p.pauses, lo, lo + YEAR) <= prefs.maxDaysPerYear
  {
    OutsideAfter(p.pauses, last + 1, lo, lo + YEAR);
    WindowAtMost(p.pauses[..last + 1], lo, lo + YEAR, p.pauses[last].startsAt - YEAR);
  }

  lemma {:induction false} OutsideAfter(pauses: seq<Pause>, n: nat, lo: int, hi: int)
    requires n <= |pauses| && forall j :: n <= j < |pauses| ==> pauses[j].startsAt > hi
    ensures DaysWithin(pauses, lo, hi) == DaysWithin(pauses[..n], lo, hi)
    decreases |pauses|
  {
    if n < |pauses| {
      OutsideAfter(pauses[..|pauses| - 1], n, lo, hi);
      assert pauses[..|pauses| - 1][..n] == pauses[..n];
    } else {
      assert pauses[..n] == pauses;
    }
  }

  lemma {:induction false} WindowAtMost(pauses: seq<Pause>, lo: int, hi: int, from: int)
    requires from <= lo && forall i :: 0 <= i < |pauses| ==> pauses[i].days >= 0
    ensures DaysWithin(pauses, lo, hi) <= DaysSince(pauses, from)
    decreases |pauses|
  {
    if |pauses| > 0 {
      WindowAtMost(pauses[..|pauses| - 1], lo, hi, from);
    }
  }
}
