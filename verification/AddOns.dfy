/** Prepaid add-ons of one kind on one plan (packages/billing/src/addon.service.ts): bought in
    hours, extended when bought again while running, expired by a sweep. */
module AddOns {
  import opened Optional

  const HOUR: int := 3_600_000

  datatype PurchaseStatus = AWAITING_PAYMENT | ACTIVE | EXPIRED | CANCELLED

  /** A purchase row; the times mean something once it has been activated. */
  datatype Purchase = Purchase(status: PurchaseStatus, hours: nat, startsAt: int, endsAt: int)

  datatype Event =
    | Buy(now: int, hours: nat)
    | Activate(now: int, id: nat)
    | Expire(now: int)
    | Abandon(now: int, id: nat)

  function AddOnEndsAt(now: int, hours: nat, runningEndsAt: Option<int>): int {
    (if runningEndsAt.Some? && runningEndsAt.value > now then runningEndsAt.value else now) + hours * HOUR
  }

  predicate Running(p: Purchase, now: int) {
    p.status == ACTIVE && p.endsAt > now
  }

  /** The running purchase that ends last. */
  function FindRunning(rows: seq<Purchase>, now: int): (r: Option<nat>)
    ensures r.Some? ==> r.value < |rows| && Running(rows[r.value], now)
    ensures r.Some? ==> forall i :: 0 <= i < |rows| && Running(rows[i], now) ==> rows[i].endsAt <= rows[r.value].endsAt
    ensures r.None? ==> forall i :: 0 <= i < |rows| ==> !Running(rows[i], now)
  {
    if |rows| == 0 then None
    else
      var n := |rows| - 1;
      var before := FindRunning(rows[..n], now);
      if !Running(rows[n], now) || (before.Some? && rows[before.value].endsAt >= rows[n].endsAt) then before else Some(n)
  }

  /** Activation claims the purchase only while it awaits payment, and pulls the running one's end
      along with the new end. */
  function Activated(rows: seq<Purchase>, now: int, id: nat): (r: seq<Purchase>)
    ensures |r| == |rows|
  {
    if id >= |rows| || rows[id].status != AWAITING_PAYMENT then rows
    else
      var running := FindRunning(rows, now);
      var endsAt := AddOnEndsAt(now, rows[id].hours, if running.Some? then Some(rows[running.value].endsAt) else None);
      var claimed := rows[id := Purchase(ACTIVE, rows[id].hours, now, endsAt)];
      if running.Some? then claimed[running.value := claimed[running.value].(endsAt := endsAt)] else claimed
  }

  function Expired(rows: seq<Purchase>, now: int): (r: seq<Purchase>)
    ensures |r| == |rows|
  {
    seq(|rows|, i requires 0 <= i < |rows| =>
      if rows[i].status == ACTIVE && rows[i].endsAt <= now then rows[i].(status := EXPIRED) else rows[i])
  }

  function Step(rows: seq<Purchase>, e: Event): seq<Purchase> {
    match e
    case Buy(_, hours) => rows + [Purchase(AWAITING_PAYMENT, hours, 0, 0)]
    case Activate(now, id) => Activated(rows, now, id)
    case Expire(now) => Expired(rows, now)
    case Abandon(_, id) =>
      if id < |rows| && rows[id].status == AWAITING_PAYMENT then rows[id := rows[id].(status := CANCELLED)] else rows
  }

  function Run(rows: seq<Purchase>, events: seq<Event>): seq<Purchase>
    decreases |events|
  {
    if |events| == 0 then rows else Run(Step(rows, events[0]), events[1..])
  }

  // ---------------------------------------------------------------------------------------
  // What each event does to the rows
  // ---------------------------------------------------------------------------------------

  /** When the add-on that is running longest ends, or `now` when none is running. */
  ghost predicate RunsUntil(rows: seq<Purchase>, now: int, until: int) {
    && now <= until
    && (forall i :: 0 <= i < |rows| && rows[i].status == ACTIVE ==> rows[i].endsAt <= until)
    && (until == now || exists i :: 0 <= i < |rows| && rows[i].status == ACTIVE && rows[i].endsAt == until)
  }

  /** Activation starts a purchase that awaits payment, once: it ends its hours after everything that
      runs, and the running purchase that would have ended last is carried along. */
  lemma ActivationStarts(rows: seq<Purchase>, now: int, id: nat, until: int)
    requires RunsUntil(rows, now, until)
    ensures var rows' := Activated(rows, now, id);
      if id < |rows| && rows[id].status == AWAITING_PAYMENT
      then
        var end := until + rows[id].hours * 3_600_000;
        && rows'[id] == Purchase(ACTIVE, rows[id].hours, now, end)
        && (forall i :: 0 <= i < |rows| && i != id && rows'[i] != rows[i] ==>
              rows[i].status == ACTIVE && rows[i].endsAt == until > now && rows'[i] == rows[i].(endsAt := end))
        && (until > now ==> rows[id].hours == 0 || exists i :: 0 <= i < |rows| && i != id && rows'[i] != rows[i])
        && (forall i, j :: 0 <= i < j < |rows| && i != id && j != id ==> rows'[i] == rows[i] || rows'[j] == rows[j])
      else rows' == rows
  {
    hide FindRunning;
    var running := FindRunning(rows, now);
    if running.Some? && id < |rows| && rows[id].status == AWAITING_PAYMENT {
      var r := running.value;
      assert rows[r].endsAt == until;
      assert Activated(rows, now, id)[r] == rows[r].(endsAt := until + rows[id].hours * 3_600_000);
    }
  }

  /** A sweep expires exactly the active purchases that have ended; buying adds a purchase that awaits
      payment, and giving up cancels one only while it does. */
  lemma OtherEventsDecide(rows: seq<Purchase>, now: int, hours: nat, id: nat)
    ensures var swept := Expired(rows, now);
      |swept| == |rows| && forall i :: 0 <= i < |rows| ==>
        swept[i] == if rows[i].status == ACTIVE && rows[i].endsAt <= now then rows[i].(status := EXPIRED) else rows[i]
    ensures var bought := Step(rows, Buy(now, hours));
      |bought| == |rows| + 1 && bought[..|rows|] == rows
      && bought[|rows|].status == AWAITING_PAYMENT && bought[|rows|].hours == hours
    ensures Step(rows, Abandon(now, id)) ==
      if id < |rows| && rows[id].status == AWAITING_PAYMENT then rows[id := rows[id].(status := CANCELLED)] else rows
  {
  }

  // ---------------------------------------------------------------------------------------
  // Covered time
  // ---------------------------------------------------------------------------------------

  predicate Started(p: Purchase) {
    p.status == ACTIVE || p.status == EXPIRED
  }

  function Span(lo: int, hi: int): (s: set<int>)
    ensures forall t :: t in s <==> lo <= t < hi
    decreases hi - lo
  {
    if hi <= lo then {} else Span(lo, hi - 1) + {hi - 1}
  }

  /** Every millisecond at which some started purchase covers the plan. */
  function Covered(rows: seq<Purchase>): set<int> {
    if |rows| == 0 then {}
    else
      var p := rows[|rows| - 1];
      Covered(rows[..|rows| - 1]) + if Started(p) then Span(p.startsAt, p.endsAt) else {}
  }

  function HoursBought(rows: seq<Purchase>): nat {
    if |rows| == 0 then 0
    else
      var p := rows[|rows| - 1];
      HoursBought(rows[..|rows| - 1]) + if Started(p) then p.hours else 0
  }

  lemma {:induction false} SpanSize(lo: int, hi: int)
    requires lo <= hi
    ensures |Span(lo, hi)| == hi - lo
    decreases hi - lo
  {
    if lo < hi {
      SpanSize(lo, hi - 1);
    }
  }

  predicate Covers(p: Purchase, t: int) {
    Started(p) && p.startsAt <= t < p.endsAt
  }

  lemma {:induction false} CoveredAt(rows: seq<Purchase>, t: int)
    ensures t in Covered(rows) <==> exists i :: 0 <= i < |rows| && Covers(rows[i], t)
    decreases |rows|
  {
    if |rows| > 0 {
      var n := |rows| - 1;
      CoveredAt(rows[..n], t);
      if i :| 0 <= i < |rows| && Covers(rows[i], t) {
        assert i < n ==> rows[..n][i] == rows[i];
      }
    }
  }

  lemma {:induction false} HoursUpdate(rows: seq<Purchase>, id: nat, p: Purchase)
    requires id < |rows|
    ensures HoursBought(rows[id := p])
         == HoursBought(rows) - (if Started(rows[id]) then rows[id].hours else 0) + (if Started(p) then p.hours else 0)
    decreases |rows|
  {
    var n := |rows| - 1;
    if id < n {
      HoursUpdate(rows[..n], id, p);
      assert rows[id := p][..n] == rows[..n][id := p];
    } else {
      assert rows[id := p][..n] == rows[..n];
    }
  }

  /** What every activation relies on: purchases started in the past, expired ones are over, and the
      time covered so far is the hours bought so far. */
  ghost predicate Inv(rows: seq<Purchase>, now: int) {
    && (forall i :: 0 <= i < |rows| && Started(rows[i]) ==> rows[i].startsAt <= now && rows[i].startsAt <= rows[i].endsAt)
    && (forall i :: 0 <= i < |rows| && rows[i].status == EXPIRED ==> rows[i].endsAt <= now)
    && |Covered(rows)| == HoursBought(rows) * HOUR
  }

  lemma InvLater(rows: seq<Purchase>, now: int, later: int)
    requires Inv(rows, now) && now <= later
    ensures Inv(rows, later)
  {
  }

  /** A new stretch starting at `now` adds exactly its own length when nothing is running. */
  lemma CoveredByFresh(rows: seq<Purchase>, now: int, id: nat, hi: int)
    requires Inv(rows, now) && id < |rows| && rows[id].status == AWAITING_PAYMENT
    requires forall i :: 0 <= i < |rows| ==> !Running(rows[i], now)
    requires now <= hi
    ensures var p := Purchase(ACTIVE, rows[id].hours, now, hi);
      && Covered(rows[id := p]) == Covered(rows) + Span(now, hi)
      && Covered(rows) !! Span(now, hi)
  {
    var p := Purchase(ACTIVE, rows[id].hours, now, hi);
    var rows' := rows[id := p];
    forall t
      ensures t in Covered(rows') <==> t in Covered(rows) || now <= t < hi
      ensures t in Covered(rows) ==> t < now
    {
      CoveredAt(rows, t);
      CoveredAt(rows', t);
      if i :| 0 <= i < |rows| && Covers(rows[i], t) {
        assert Covers(rows'[i], t);
      }
      if now <= t < hi {
        assert Covers(rows'[id], t);
      }
    }
  }

  /** Bought while running: the stretch grows from the latest end, and only there. */
  lemma CoveredByExtension(rows: seq<Purchase>, now: int, id: nat, r: nat, hi: int)
    requires Inv(rows, now) && id < |rows| && rows[id].status == AWAITING_PAYMENT
    requires FindRunning(rows, now) == Some(r) && rows[r].endsAt <= hi
    ensures id != r
    ensures && Covered(Extended(rows, now, id, r, hi)) == Covered(rows) + Span(rows[r].endsAt, hi)
      && Covered(rows) !! Span(rows[r].endsAt, hi)
  {
    hide Covered, FindRunning;
    var rows' := Extended(rows, now, id, r, hi);
    forall t
      ensures t in Covered(rows') <==> t in Covered(rows) || rows[r].endsAt <= t < hi
      ensures t in Covered(rows) ==> t < rows[r].endsAt
    {
      CoveredAt(rows, t);
      CoveredAt(rows', t);
      ExtendedAt(rows, now, id, r, hi, t);
    }
  }

  function Extended(rows: seq<Purchase>, now: int, id: nat, r: nat, hi: int): seq<Purchase>
    requires id < |rows| && r < |rows|
  {
    rows[id := Purchase(ACTIVE, rows[id].hours, now, hi)][r := rows[r].(endsAt := hi)]
  }

  lemma ExtendedAt(rows: seq<Purchase>, now: int, id: nat, r: nat, hi: int, t: int)
    requires id < |rows| && r < |rows| && id != r && rows[id].status == AWAITING_PAYMENT
    requires Running(rows[r], now) && rows[r].startsAt <= now && rows[r].endsAt <= hi
    requires forall i :: 0 <= i < |rows| && Started(rows[i]) ==> rows[i].endsAt <= rows[r].endsAt
    ensures var rows' := Extended(rows, now, id, r, hi);
      (exists i :: 0 <= i < |rows'| && Covers(rows'[i], t))
      <==> (exists i :: 0 <= i < |rows| && Covers(rows[i], t)) || rows[r].endsAt <= t < hi
    ensures (exists i :: 0 <= i < |rows| && Covers(rows[i], t)) ==> t < rows[r].endsAt
  {
    var rows' := Extended(rows, now, id, r, hi);
    if i :| 0 <= i < |rows| && Covers(rows[i], t) {
      assert Covers(rows'[i], t);
    }
    if rows[r].startsAt <= t < hi {
      assert Covers(rows'[r], t);
    }
    if i :| 0 <= i < |rows'| && Covers(rows'[i], t) {
      if i == id || i == r {
        assert t < rows[r].endsAt ==> Covers(rows[r], t);
      } else {
        assert Covers(rows[i], t);
      }
    }
  }

  lemma FreshKeepsInv(rows: seq<Purchase>, now: int, id: nat)
    requires Inv(rows, now) && id < |rows| && rows[id].status == AWAITING_PAYMENT
    requires forall i :: 0 <= i < |rows| ==> !Running(rows[i], now)
    ensures Inv(rows[id := Purchase(ACTIVE, rows[id].hours, now, now + rows[id].hours * HOUR)], now)
  {
    hide Covered, HoursBought;
    var hi := now + rows[id].hours * HOUR;
    HoursUpdate(rows, id, Purchase(ACTIVE, rows[id].hours, now, hi));
    SpanSize(now, hi);
    CoveredByFresh(rows, now, id, hi);
  }

  lemma ExtendedKeepsInv(rows: seq<Purchase>, now: int, id: nat, r: nat)
    requires Inv(rows, now) && id < |rows| && rows[id].status == AWAITING_PAYMENT
    requires FindRunning(rows, now) == Some(r)
    ensures Inv(Extended(rows, now, id, r, rows[r].endsAt + rows[id].hours * HOUR), now)
  {
    hide Covered, HoursBought, FindRunning, Extended;
    ExtendedRows(rows, now, id, r);
    ExtendedCover(rows, now, id, r);
  }

  lemma ExtendedRows(rows: seq<Purchase>, now: int, id: nat, r: nat)
    requires Inv(rows, now) && id < |rows| && rows[id].status == AWAITING_PAYMENT
    requires FindRunning(rows, now) == Some(r)
    ensures var rows' := Extended(rows, now, id, r, rows[r].endsAt + rows[id].hours * HOUR);
      && (forall i :: 0 <= i < |rows'| && Started(rows'[i]) ==> rows'[i].startsAt <= now && rows'[i].startsAt <= rows'[i].endsAt)
      && (forall i :: 0 <= i < |rows'| && rows'[i].status == EXPIRED ==> rows'[i].endsAt <= now)
  {
    hide Covered, HoursBought, FindRunning;
    assert Running(rows[r], now) && rows[r].endsAt <= rows[r].endsAt + rows[id].hours * HOUR;
  }

  lemma ExtendedCover(rows: seq<Purchase>, now: int, id: nat, r: nat)
    requires Inv(rows, now) && id < |rows| && rows[id].status == AWAITING_PAYMENT
    requires FindRunning(rows, now) == Some(r)
    ensures var rows' := Extended(rows, now, id, r, rows[r].endsAt + rows[id].hours * HOUR);
      |Covered(rows')| == HoursBought(rows') * HOUR
  {
    hide Covered, HoursBought, FindRunning;
    var hi := rows[r].endsAt + rows[id].hours * HOUR;
    var p := Purchase(ACTIVE, rows[id].hours, now, hi);
    CoveredByExtension(rows, now, id, r, hi);
    HoursUpdate(rows, id, p);
    HoursUpdate(rows[id := p], r, rows[r].(endsAt := hi));
    SpanSize(rows[r].endsAt, hi);
  }

  lemma ActivatedKeepsInv(rows: seq<Purchase>, now: int, id: nat)
    requires Inv(rows, now)
    ensures Inv(Activated(rows, now, id), now)
  {
    hide Inv, FindRunning;
    if id < |rows| && rows[id].status == AWAITING_PAYMENT {
      var running := FindRunning(rows, now);
      if running.Some? {
        ExtendedKeepsInv(rows, now, id, running.value);
      } else {
        FreshKeepsInv(rows, now, id);
      }
    }
  }

  lemma {:induction false} SameCover(a: seq<Purchase>, b: seq<Purchase>)
    requires |a| == |b|
    requires forall i :: 0 <= i < |a| ==> Started(a[i]) == Started(b[i])
    requires forall i :: 0 <= i < |a| && Started(a[i]) ==>
               a[i].startsAt == b[i].startsAt && a[i].endsAt == b[i].endsAt && a[i].hours == b[i].hours
    ensures Covered(a) == Covered(b) && HoursBought(a) == HoursBought(b)
    decreases |a|
  {
    if |a| > 0 {
      SameCover(a[..|a| - 1], b[..|b| - 1]);
    }
  }

  lemma StepKeepsInv(rows: seq<Purchase>, e: Event)
    requires Inv(rows, e.now)
    ensures Inv(Step(rows, e), e.now)
  {
    match e
    case Buy(_, hours) => assert Step(rows, e)[..|rows|] == rows;
    case Activate(now, id) => ActivatedKeepsInv(rows, now, id);
    case Expire(now) => SameCover(rows, Expired(rows, now));
    case Abandon(_, id) => SameCover(rows, Step(rows, e));
  }

  ghost predicate InOrder(events: seq<Event>, from: int) {
    && (forall i :: 0 <= i < |events| ==> from <= events[i].now)
    && (forall i, j :: 0 <= i < j < |events| ==> events[i].now <= events[j].now)
  }

  /** Over every run, the time covered is exactly the hours bought: nothing lost, nothing counted
      twice, however purchases and expiries interleave. */
  lemma {:induction false} CoveredTimeIsHoursBought(rows: seq<Purchase>, events: seq<Event>, now: int)
    requires Inv(rows, now) && InOrder(events, now)
    ensures |Covered(Run(rows, events))| == HoursBought(Run(rows, events)) * HOUR
    decreases |events|
  {
    hide Step, Covered, HoursBought;
    if |events| > 0 {
      InvLater(rows, now, events[0].now);
      StepKeepsInv(rows, events[0]);
      CoveredTimeIsHoursBought(Step(rows, events[0]), events[1..], events[0].now);
    }
  }

  // ---------------------------------------------------------------------------------------
  // The table
  // ---------------------------------------------------------------------------------------

  class AddOnTable {
    var rows: seq<Purchase>

    /** Starts a paid purchase; null when somebody else already did. */
    method Activate(now: int, id: nat) returns (started: bool)
      requires id < |rows|
      modifies this
      ensures rows == Activated(old(rows), now, id)
      ensures started <==> old(rows)[id].status == AWAITING_PAYMENT
    {
      var running := FindRunning(rows, now);
      var endsAt := AddOnEndsAt(now, rows[id].hours, if running.Some? then Some(rows[running.value].endsAt) else None);
      if rows[id].status != AWAITING_PAYMENT {
        return false;
      }
      rows := rows[id := Purchase(ACTIVE, rows[id].hours, now, endsAt)];
      if running.Some? {
        rows := rows[running.value := rows[running.value].(endsAt := endsAt)];
      }
      started := true;
    }

    method ExpireAddOns(now: int) returns (due: seq<nat>)
      modifies this
      ensures rows == Expired(old(rows), now)
      ensures forall i :: i in due <==> 0 <= i < |old(rows)| && old(rows)[i].status == ACTIVE && old(rows)[i].endsAt <= now
    {
      due := [];
      var i := 0;
      while i < |rows|
        invariant i <= |rows| == |old(rows)|
        invariant rows[..i] == Expired(old(rows), now)[..i]
        invariant rows[i..] == old(rows)[i..]
        invariant forall j :: j in due <==> 0 <= j < i && old(rows)[j].status == ACTIVE && old(rows)[j].endsAt <= now
      {
        assert rows[i] == old(rows)[i];
        if rows[i].status == ACTIVE && rows[i].endsAt <= now {
          rows := rows[i := rows[i].(status := EXPIRED)];
          due := due + [i];
        }
        i := i + 1;
      }
      assert rows[..i] == rows;
    }
  }
}
