/** The plan table as the worker jobs and the pause service change it
    (packages/billing/src/billing-cycle.service.ts, pause.service.ts). */
module PlanService {
  import Integers
  import opened Optional
  import opened PlanCalendar

  /** The due plans whose package says how long a cycle is, and those whose package does not. */
  function BillableCount(plans: seq<Plan>, cycles: seq<Cycle>, now: int, billable: bool): nat
    requires |cycles| == |plans|
  {
    if |plans| == 0 then 0
    else
      var n := |plans| - 1;
      BillableCount(plans[..n], cycles[..n], now, billable)
      + if RenewalDue(plans[n], now) && CycleLengthDays(cycles[n]).Some? == billable then 1 else 0
  }

  predicate PauseDue(p: Plan, now: int) {
    p.pausedUntil.Some? && p.pausedUntil.value <= now
  }

  function PausesDue(plans: seq<Plan>, now: int): nat {
    if |plans| == 0 then 0
    else PausesDue(plans[..|plans| - 1], now) + if PauseDue(plans[|plans| - 1], now) then 1 else 0
  }

  /** The plans after a pass of the renewal job. */
  function RenewalPass(plans: seq<Plan>, cycles: seq<Cycle>, now: int): (r: seq<Plan>)
    requires |cycles| == |plans|
    ensures |r| == |plans|
  {
    seq(|plans|, i requires 0 <= i < |plans| => Renewed(plans[i], now, cycles[i]))
  }

  /** Every active plan that renews itself, has come due and has a cycle length gains exactly one bill
      in a pass; every other plan, those not yet due among them, is left as it was. */
  lemma PassBillsExactlyTheDue(plans: seq<Plan>, cycles: seq<Cycle>, now: int, i: nat)
    requires |cycles| == |plans| && i < |plans|
    ensures var p, p' := plans[i], RenewalPass(plans, cycles, now)[i];
      && (p.status == ACTIVE && p.autoRenew && p.nextBilling <= now && CycleLengthDays(cycles[i]).Some? ==>
            && p'.renewals == p.renewals + [Renewal(p.nextBilling, CycleLengthDays(cycles[i]).value)]
            && p'.nextBilling == p.nextBilling + CycleLengthDays(cycles[i]).value * DAY
            && p' == p.(renewals := p'.renewals, nextBilling := p'.nextBilling))
      && (p.status != ACTIVE || !p.autoRenew || p.nextBilling > now || CycleLengthDays(cycles[i]).None? ==> p' == p)
  {
    BilledExactlyWhenDue(plans[i], Preferences(false, 1, 1), Renew(now, cycles[i]));
  }

  /** The numbers a pass reports: how many due plans were billed, how many failed, and how many pauses
      were over. */
  lemma CountsAreExact(plans: seq<Plan>, cycles: seq<Cycle>, now: int)
    requires |cycles| == |plans|
    ensures BillableCount(plans, cycles, now, true) == |Due(plans, cycles, now, true)|
    ensures BillableCount(plans, cycles, now, false) == |Due(plans, cycles, now, false)|
    ensures PausesDue(plans, now) == |PausesOver(plans, now)|
  {
    BillableCounted(plans, cycles, now, true);
    BillableCounted(plans, cycles, now, false);
    PausesCounted(plans, now);
  }

  lemma {:induction false} BillableCounted(plans: seq<Plan>, cycles: seq<Cycle>, now: int, billable: bool)
    requires |cycles| == |plans|
    ensures BillableCount(plans, cycles, now, billable) == |Due(plans, cycles, now, billable)|
    decreases |plans|
  {
    hide IsDue, RenewalDue, CycleLengthDays;
    if |plans| > 0 {
      var n := |plans| - 1;
      BillableCounted(plans[..n], cycles[..n], now, billable);
      DueOrNot(plans[n], cycles[n], now, billable);
      DueAtLast(plans, cycles, now, billable);
      hide Due;
    }
  }

  lemma DueAtLast(plans: seq<Plan>, cycles: seq<Cycle>, now: int, billable: bool)
    requires |cycles| == |plans| > 0
    ensures var n := |plans| - 1;
      |Due(plans, cycles, now, billable)|
      == |Due(plans[..n], cycles[..n], now, billable)| + if IsDue(plans[n], cycles[n], now, billable) then 1 else 0
  {
    hide IsDue;
    var n := |plans| - 1;
    var due, before := Due(plans, cycles, now, billable), Due(plans[..n], cycles[..n], now, billable);
    assert due == before + if n in due then {n} else {};
  }

  lemma DueOrNot(p: Plan, cycle: Cycle, now: int, billable: bool)
    ensures IsDue(p, cycle, now, billable) <==> RenewalDue(p, now) && CycleLengthDays(cycle).Some? == billable
  {
  }

  ghost predicate IsDue(p: Plan, cycle: Cycle, now: int, billable: bool) {
    && p.status == ACTIVE && p.autoRenew && p.nextBilling <= now
    && (billable <==> CycleLengthDays(cycle) != None)
  }

  lemma {:induction false} PausesCounted(plans: seq<Plan>, now: int)
    ensures PausesDue(plans, now) == |PausesOver(plans, now)|
    decreases |plans|
  {
    if |plans| > 0 {
      var n := |plans| - 1;
      PausesCounted(plans[..n], now);
      assert PausesOver(plans, now) == PausesOver(plans[..n], now) + if n in PausesOver(plans, now) then {n} else {};
    }
  }

  ghost function Due(plans: seq<Plan>, cycles: seq<Cycle>, now: int, billable: bool): set<int>
    requires |cycles| == |plans|
  {
    set i | 0 <= i < |plans| && IsDue(plans[i], cycles[i], now, billable)
  }

  ghost function PausesOver(plans: seq<Plan>, now: int): set<int> {
    set i | 0 <= i < |plans| && plans[i].pausedUntil.Some? && plans[i].pausedUntil.value <= now
  }

  class PlanTable {
    var plans: seq<Plan>

    /** The renewal job: every due plan is billed for one cycle, each in its own transaction; a plan
        whose package has no cycle length fails alone. */
    method GenerateDueRenewalInvoices(now: int, cycles: seq<Cycle>) returns (affected: nat, errors: nat)
      requires |cycles| == |plans|
      modifies this
      ensures plans == RenewalPass(old(plans), cycles, now)
      ensures affected == BillableCount(old(plans), cycles, now, true) && errors == BillableCount(old(plans), cycles, now, false)
    {
      affected, errors := 0, 0;
      var i := 0;
      while i < |plans|
        invariant i <= |plans| == |old(plans)|
        invariant forall j :: 0 <= j < i ==> plans[j] == Renewed(old(plans)[j], now, cycles[j])
        invariant forall j :: i <= j < |plans| ==> plans[j] == old(plans)[j]
        invariant affected == BillableCount(old(plans)[..i], cycles[..i], now, true)
        invariant errors == BillableCount(old(plans)[..i], cycles[..i], now, false)
      {
        assert old(plans)[..i + 1][..i] == old(plans)[..i] && cycles[..i + 1][..i] == cycles[..i];
        var p := plans[i];
        if p.status == ACTIVE && p.autoRenew && p.nextBilling <= now {
          var length := CycleLengthDays(cycles[i]);
          if length.Some? {
            plans := plans[i := p.(renewals := p.renewals + [Renewal(p.nextBilling, length.value)],
                                   nextBilling := p.nextBilling + length.value * DAY)];
            affected := affected + 1;
          } else {
            errors := errors + 1;
          }
        }
        i := i + 1;
      }
      assert old(plans)[..i] == old(plans) && cycles[..i] == cycles;
    }

    method PauseSubscription(id: nat, prefs: Preferences, now: int, days: int, byCustomer: bool, overdueBills: nat, networkOk: bool)
      returns (ok: bool)
      requires id < |plans|
      modifies this
      ensures plans == old(plans)[id := Paused(old(plans)[id], prefs, now, days, byCustomer, overdueBills, networkOk)]
      ensures ok <==> networkOk && PauseAllowed(old(plans)[id], prefs, now, days, byCustomer, overdueBills)
    {
      var service := plans[id];
      if service.status != ACTIVE || (byCustomer && !prefs.enabled) || days < prefs.minDays {
        return false;
      }
      if byCustomer && days > RemainingDays(service.pauses, prefs, now) {
        return false;
      }
      if overdueBills > 0 {
        return false;
      }
      plans := plans[id := plans[id].(status := SUSPENDED)];
      if !networkOk {
        if plans[id].pausedUntil.None? {
          plans := plans[id := plans[id].(status := ACTIVE)];
        }
        return false;
      }
      var endsAt := now + days * DAY;
      plans := plans[id := plans[id].(pausedUntil := Some(endsAt),
                                      nextBilling := service.nextBilling + days * DAY,
                                      pauses := service.pauses + [Pause(now, days, byCustomer, true)])];
      ok := true;
    }

    method ResumeSubscription(id: nat, now: int, overdueBills: nat) returns (ok: bool)
      requires id < |plans|
      modifies this
      ensures plans == old(plans)[id := Resumed(old(plans)[id], now, overdueBills)]
      ensures ok <==> old(plans)[id].pausedUntil.Some?
    {
      var service := plans[id];
      if service.pausedUntil.None? {
        return false;
      }
      var pause := LatestOpen(service.pauses);
      var unusedDays := 0;
      var pauses := service.pauses;
      if pause.Some? {
        var row := service.pauses[pause.value];
        unusedDays := UnusedPauseDays(row.days, row.startsAt, now);
        pauses := pauses[pause.value := row.(open := false, days := Integers.Max(0, row.days - unusedDays))];
      } else {
        unusedDays := Integers.Max(0, WholeDays(service.pausedUntil.value - now));
      }
      plans := plans[id := service.(pausedUntil := None, nextBilling := service.nextBilling - unusedDays * DAY, pauses := pauses)];
      if service.status == SUSPENDED && overdueBills == 0 {
        plans := plans[id := plans[id].(status := ACTIVE)];
      }
      ok := true;
    }

    /** The worker's sweep over pauses whose time is up. */
    method ResumeDuePauses(now: int, overdueBills: seq<nat>) returns (resumed: nat)
      requires |overdueBills| == |plans|
      modifies this
      ensures |plans| == |old(plans)|
      ensures forall i :: 0 <= i < |plans| ==>
                plans[i] == if old(plans)[i].pausedUntil.Some? && old(plans)[i].pausedUntil.value <= now
                            then Resumed(old(plans)[i], now, overdueBills[i]) else old(plans)[i]
      ensures resumed == PausesDue(old(plans), now)
    {
      resumed := 0;
      var i := 0;
      while i < |plans|
        invariant i <= |plans| == |old(plans)|
        invariant forall j :: 0 <= j < i ==>
                    plans[j] == if PauseDue(old(plans)[j], now) then Resumed(old(plans)[j], now, overdueBills[j]) else old(plans)[j]
        invariant forall j :: i <= j < |plans| ==> plans[j] == old(plans)[j]
        invariant resumed == PausesDue(old(plans)[..i], now)
      {
        assert old(plans)[..i + 1][..i] == old(plans)[..i];
        if PauseDue(plans[i], now) {
          var ok := ResumeSubscription(i, now, overdueBills[i]);
          resumed := resumed + 1;
        }
        i := i + 1;
      }
      assert old(plans)[..i] == old(plans);
    }
  }
}
