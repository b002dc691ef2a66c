/** Referral rewards (packages/billing/src/referral.service.ts): several passes may run at once and
    any of them may die between claiming a referred customer and paying the reward. */
module Referrals {
  import opened Optional
  import Wallets

  const DAY: int := 86_400_000

  datatype Reward = FreeDays(referred: nat, days: int) | Credit(referred: nat, amount: int)

  /** What of a plan a reward moves. */
  datatype PlanDate = PlanDate(customer: nat, active: bool, nextBilling: int)

  /** What rewards are paid into. A wallet is made on first use. */
  datatype Books = Books(wallets: map<nat, Wallets.Wallet>, plans: seq<PlanDate>)

  function WalletOf(wallets: map<nat, Wallets.Wallet>, customer: nat): Wallets.Wallet {
    if customer in wallets then wallets[customer] else Wallets.EMPTY
  }

  /** The customer's active plan with the earliest next bill. */
  function FirstActive(plans: seq<PlanDate>, customer: nat): (r: Option<nat>)
    ensures r.Some? ==> r.value < |plans| && plans[r.value].active && plans[r.value].customer == customer
    ensures r.Some? ==> forall i :: 0 <= i < |plans| && plans[i].active && plans[i].customer == customer ==>
                          plans[r.value].nextBilling <= plans[i].nextBilling
    ensures r.None? ==> forall i :: 0 <= i < |plans| ==> !plans[i].active || plans[i].customer != customer
  {
    if |plans| == 0 then None
    else
      var n := |plans| - 1;
      var before := FirstActive(plans[..n], customer);
      if !plans[n].active || plans[n].customer != customer then before
      else if before.Some? && plans[before.value].nextBilling <= plans[n].nextBilling then before
      else Some(n)
  }

  datatype Preferences = Preferences(inDays: bool, days: int, credit: int)

  /** Days for a referrer with an active plan, when rewards are days; credit otherwise. */
  function RewardFor(books: Books, prefs: Preferences, referred: nat, referrer: nat): Reward {
    if prefs.inDays && FirstActive(books.plans, referrer).Some? then FreeDays(referred, prefs.days) else Credit(referred, prefs.credit)
  }

  /** The plan moved, or the wallet credited (by nothing at all when the credit is zero). */
  function Given(books: Books, prefs: Preferences, referrer: nat): Books {
    var first := FirstActive(books.plans, referrer);
    if prefs.inDays && first.Some? then
      var p := books.plans[first.value];
      books.(plans := books.plans[first.value := p.(nextBilling := p.nextBilling + prefs.days * DAY)])
    else
      var credited := Wallets.Credited(WalletOf(books.wallets, referrer), prefs.credit);
      if credited.None? then books else books.(wallets := books.wallets[referrer := credited.value])
  }

  /** The reward is days where the operator gives days and the referrer has an active plan, and credit
      otherwise. Days move the next bill of the active plan that bills first; credit goes to the wallet,
      and none at all when there is none to give. */
  lemma RewardDecides(books: Books, prefs: Preferences, referred: nat, referrer: nat)
    ensures var inDays := prefs.inDays && exists i :: 0 <= i < |books.plans| && books.plans[i].active && books.plans[i].customer == referrer;
      var books' := Given(books, prefs, referrer);
      && RewardFor(books, prefs, referred, referrer) == (if inDays then FreeDays(referred, prefs.days) else Credit(referred, prefs.credit))
      && (inDays ==>
            && books'.wallets == books.wallets
            && exists i :: 0 <= i < |books.plans| && BillsFirst(books.plans, referrer, i)
                           && books'.plans == books.plans[i := books.plans[i].(nextBilling := books.plans[i].nextBilling + prefs.days * 86_400_000)])
      && (!inDays && prefs.credit <= 0 ==> books' == books)
      && (!inDays && prefs.credit > 0 ==>
            && books'.plans == books.plans
            && var balance := WalletOf(books.wallets, referrer).balance + prefs.credit;
            books'.wallets == books.wallets[referrer :=
              Wallets.Wallet(balance, WalletOf(books.wallets, referrer).ledger + [Wallets.Credit(prefs.credit, balance)])])
  {
    hide FirstActive;
    var first := FirstActive(books.plans, referrer);
    assert first.Some? ==> BillsFirst(books.plans, referrer, first.value);
  }

  ghost predicate BillsFirst(plans: seq<PlanDate>, customer: nat, i: nat) {
    && i < |plans| && plans[i].active && plans[i].customer == customer
    && forall j :: 0 <= j < |plans| && plans[j].active && plans[j].customer == customer ==> plans[i].nextBilling <= plans[j].nextBilling
  }

  /** A pass: the customers its query found, and the one it has claimed but not yet rewarded. */
  datatype Pass = Pass(todo: seq<nat>, holding: Option<nat>)

  /** `lost` are the customers whose pass died holding them. */
  datatype State = State(claimed: set<nat>, rewards: seq<Reward>, passes: seq<Pass>, lost: set<nat>, books: Books)

  datatype Step =
    | Query(due: seq<nat>)
    | Claim(pass: nat)
    | Pay(pass: nat)
    | Crash(pass: nat)

  /** The claim is an update that only succeeds while nobody else has made it. */
  function Claimed(s: State, k: nat): State
    requires k < |s.passes|
  {
    var p := s.passes[k];
    if p.holding.Some? || |p.todo| == 0 then s
    else if p.todo[0] in s.claimed then s.(passes := s.passes[k := Pass(p.todo[1..], None)])
    else s.(claimed := s.claimed + {p.todo[0]}, passes := s.passes[k := Pass(p.todo[1..], Some(p.todo[0]))])
  }

  function Paid(s: State, prefs: Preferences, referrerOf: nat -> nat, k: nat): State
    requires k < |s.passes|
  {
    var p := s.passes[k];
    if p.holding.None? then s
    else
      var referrer := referrerOf(p.holding.value);
      s.(rewards := s.rewards + [RewardFor(s.books, prefs, p.holding.value, referrer)],
         passes := s.passes[k := Pass(p.todo, None)],
         books := Given(s.books, prefs, referrer))
  }

  function Next(s: State, prefs: Preferences, referrerOf: nat -> nat, e: Step): State {
    match e
    case Query(due) => s.(passes := s.passes + [Pass(due, None)])
    case Claim(k) => if k < |s.passes| then Claimed(s, k) else s
    case Pay(k) => if k < |s.passes| then Paid(s, prefs, referrerOf, k) else s
    case Crash(k) =>
      if k < |s.passes| then
        s.(passes := s.passes[k := Pass([], None)],
           lost := s.lost + if s.passes[k].holding.Some? then {s.passes[k].holding.value} else {})
      else s
  }

  function Run(s: State, prefs: Preferences, referrerOf: nat -> nat, steps: seq<Step>): State
    decreases |steps|
  {
    if |steps| == 0 then s else Run(Next(s, prefs, referrerOf, steps[0]), prefs, referrerOf, steps[1..])
  }

  ghost predicate Among(rewards: seq<Reward>, id: nat) {
    exists i :: 0 <= i < |rewards| && rewards[i].referred == id
  }

  ghost predicate Rewarded(s: State, id: nat) {
    Among(s.rewards, id)
  }

  ghost predicate Holds(s: State, k: nat, id: nat) {
    k < |s.passes| && s.passes[k].holding == Some(id)
  }

  ghost predicate Held(s: State, id: nat) {
    exists k: nat :: Holds(s, k, id)
  }

  /** A claimed customer is in exactly one place: rewarded once, held by one pass, or lost. */
  ghost predicate Inv(s: State) {
    && (forall i, j :: 0 <= i < j < |s.rewards| ==> s.rewards[i].referred != s.rewards[j].referred)
    && (forall j: nat, k: nat, id: nat :: Holds(s, j, id) && Holds(s, k, id) ==> j == k)
    && (forall id: nat :: id in s.claimed <==> Rewarded(s, id) || Held(s, id) || id in s.lost)
    && (forall id: nat :: !(Rewarded(s, id) && Held(s, id)) && !(Rewarded(s, id) && id in s.lost) && !(Held(s, id) && id in s.lost))
  }

  lemma RewardAdded(rewards: seq<Reward>, r: Reward)
    ensures forall id: nat :: Among(rewards + [r], id) <==> Among(rewards, id) || id == r.referred
  {
    forall id: nat
      ensures Among(rewards + [r], id) <==> Among(rewards, id) || id == r.referred
    {
      if Among(rewards, id) {
        var i :| 0 <= i < |rewards| && rewards[i].referred == id;
        assert (rewards + [r])[i] == rewards[i];
      }
      assert (rewards + [r])[|rewards|] == r;
    }
  }

  /** What a pass's change of hands does to who holds whom. */
  lemma HandsChanged(s: State, s': State, k: nat, p: Pass)
    requires k < |s.passes| && s'.passes == s.passes[k := p]
    ensures forall j: nat, id: nat :: Holds(s', j, id) <==> if j == k then p.holding == Some(id) else Holds(s, j, id)
    ensures forall id: nat :: Held(s', id) <==> p.holding == Some(id) || exists j: nat :: j != k && Holds(s, j, id)
  {
    forall id: nat
      ensures Held(s', id) <==> p.holding == Some(id) || exists j: nat :: j != k && Holds(s, j, id)
    {
      if p.holding == Some(id) {
        assert Holds(s', k, id);
      }
      if Held(s', id) && p.holding != Some(id) {
        var j: nat :| Holds(s', j, id);
        assert j != k && Holds(s, j, id);
      }
      forall j: nat | j != k && Holds(s, j, id)
        ensures Holds(s', j, id)
      {
      }
    }
  }

  lemma ClaimKeepsInv(s: State, k: nat)
    requires Inv(s) && k < |s.passes|
    ensures Inv(Claimed(s, k))
  {
    var p := s.passes[k];
    var s' := Claimed(s, k);
    if p.holding.None? && |p.todo| > 0 {
      HandsChanged(s, s', k, s'.passes[k]);
      assert forall id: nat :: Rewarded(s', id) <==> Rewarded(s, id);
      assert forall id: nat :: (exists j: nat :: j != k && Holds(s, j, id)) <==> Held(s, id);
      hide Rewarded, Held, Holds;
    }
  }

  lemma PayKeepsInv(s: State, prefs: Preferences, referrerOf: nat -> nat, k: nat)
    requires Inv(s) && k < |s.passes|
    ensures Inv(Paid(s, prefs, referrerOf, k))
  {
    hide FirstActive, Given;
    var p := s.passes[k];
    var s' := Paid(s, prefs, referrerOf, k);
    if p.holding.Some? {
      var id := p.holding.value;
      assert Holds(s, k, id);
      assert Held(s, id) && !Rewarded(s, id);
      HandsChanged(s, s', k, s'.passes[k]);
      RewardAdded(s.rewards, RewardFor(s.books, prefs, id, referrerOf(id)));
      OthersHold(s, k, id);
      NewRewardIsNew(s, s', id);
      assert forall x: nat :: Rewarded(s', x) <==> Rewarded(s, x) || x == id;
      assert forall x: nat :: Held(s', x) <==> Held(s, x) && x != id;
      hide Rewarded, Held, Holds, Among;
    }
  }

  lemma OthersHold(s: State, k: nat, id: nat)
    requires Inv(s) && Holds(s, k, id)
    ensures forall other: nat :: (exists j: nat :: j != k && Holds(s, j, other)) <==> Held(s, other) && other != id
  {
    forall other: nat
      ensures (exists j: nat :: j != k && Holds(s, j, other)) <==> Held(s, other) && other != id
    {
      if Held(s, other) && other != id {
        var j: nat :| Holds(s, j, other);
        assert j != k;
      }
    }
  }

  lemma NewRewardIsNew(s: State, s': State, id: nat)
    requires Inv(s) && !Rewarded(s, id) && |s'.rewards| == |s.rewards| + 1
    requires s'.rewards[..|s.rewards|] == s.rewards && s'.rewards[|s.rewards|].referred == id
    ensures forall i, j :: 0 <= i < j < |s'.rewards| ==> s'.rewards[i].referred != s'.rewards[j].referred
  {
    assert forall i :: 0 <= i < |s.rewards| ==> s'.rewards[i] == s.rewards[i];
  }

  lemma CrashKeepsInv(s: State, prefs: Preferences, referrerOf: nat -> nat, k: nat)
    requires Inv(s) && k < |s.passes|
    ensures Inv(Next(s, prefs, referrerOf, Crash(k)))
  {
    var s' := Next(s, prefs, referrerOf, Crash(k));
    HandsChanged(s, s', k, Pass([], None));
    assert forall id: nat :: Rewarded(s', id) <==> Rewarded(s, id);
    if s.passes[k].holding.Some? {
      var id := s.passes[k].holding.value;
      assert Holds(s, k, id);
      assert Held(s, id);
      OthersHold(s, k, id);
    } else {
      assert forall id: nat :: (exists j: nat :: j != k && Holds(s, j, id)) <==> Held(s, id);
    }
    hide Rewarded, Held, Holds;
  }

  lemma QueryKeepsInv(s: State, prefs: Preferences, referrerOf: nat -> nat, due: seq<nat>)
    requires Inv(s)
    ensures Inv(Next(s, prefs, referrerOf, Query(due)))
  {
    var s' := Next(s, prefs, referrerOf, Query(due));
    assert forall k: nat, id: nat :: Holds(s', k, id) <==> Holds(s, k, id);
    assert forall id: nat :: Held(s', id) <==> Held(s, id);
    assert forall id: nat :: Rewarded(s', id) <==> Rewarded(s, id);
    hide Rewarded, Held, Holds;
  }

  lemma StepKeepsInv(s: State, prefs: Preferences, referrerOf: nat -> nat, e: Step)
    requires Inv(s)
    ensures Inv(Next(s, prefs, referrerOf, e))
  {
    hide Inv;
    match e {
      case Query(due) => QueryKeepsInv(s, prefs, referrerOf, due);
      case Claim(k) => if k < |s.passes| { ClaimKeepsInv(s, k); }
      case Pay(k) => if k < |s.passes| { PayKeepsInv(s, prefs, referrerOf, k); }
      case Crash(k) => if k < |s.passes| { CrashKeepsInv(s, prefs, referrerOf, k); }
    }
  }

  /** Over any interleaving of passes and crashes, every claimed customer stays in exactly one place. */
  lemma {:induction false} RewardedAtMostOnce(s: State, prefs: Preferences, referrerOf: nat -> nat, steps: seq<Step>)
    requires Inv(s)
    ensures Inv(Run(s, prefs, referrerOf, steps))
    decreases |steps|
  {
    hide Inv, Next;
    if |steps| > 0 {
      StepKeepsInv(s, prefs, referrerOf, steps[0]);
      RewardedAtMostOnce(Next(s, prefs, referrerOf, steps[0]), prefs, referrerOf, steps[1..]);
    }
  }

  function Start(books: Books): State {
    State({}, [], [], {}, books)
  }

  /** No referral is ever rewarded twice; and once no pass holds anything, the claimed customers
      without a reward are exactly those whose pass died between the claim and the payment. */
  lemma UnrewardedAreTheLost(books: Books, prefs: Preferences, referrerOf: nat -> nat, steps: seq<Step>, id: nat)
    ensures var s := Run(Start(books), prefs, referrerOf, steps);
      && (forall i, j :: 0 <= i < j < |s.rewards| ==> s.rewards[i].referred != s.rewards[j].referred)
      && ((forall k :: 0 <= k < |s.passes| ==> s.passes[k].holding.None?) && id in s.claimed ==>
            (!Rewarded(s, id) <==> id in s.lost))
  {
    assert Inv(Start(books));
    RewardedAtMostOnce(Start(books), prefs, referrerOf, steps);
  }

  /** It happens: the pass that claimed customer 7 dies, and no later pass can reward them. */
  lemma LostForGood(books: Books, prefs: Preferences, referrerOf: nat -> nat)
    ensures var s := Run(Start(books), prefs, referrerOf, [Query([7]), Claim(0), Crash(0), Query([7]), Claim(1), Pay(1)]);
      s.claimed == {7} && s.rewards == [] && s.lost == {7} && s.books == books
  {
    var steps := [Query([7]), Claim(0), Crash(0), Query([7]), Claim(1), Pay(1)];
    var s3 := Next(Next(Next(Start(books), prefs, referrerOf, steps[0]), prefs, referrerOf, steps[1]), prefs, referrerOf, steps[2]);
    assert s3 == State({7}, [], [Pass([], None)], {7}, books);
    var s4 := Next(s3, prefs, referrerOf, steps[3]);
    assert s4 == State({7}, [], [Pass([], None), Pass([7], None)], {7}, books);
    assert steps[4] == Claim(1) && steps[5] == Pay(1) && [7][1..] == [];
    var s5 := Next(s4, prefs, referrerOf, steps[4]);
    assert s5.passes == [Pass([], None), Pass([], None)];
    var s6 := Next(s5, prefs, referrerOf, steps[5]);
    assert s6 == State({7}, [], [Pass([], None), Pass([], None)], {7}, books);
    ThreeSteps(Start(books), prefs, referrerOf, steps);
    ThreeSteps(s3, prefs, referrerOf, steps[3..]);
    assert Run(s6, prefs, referrerOf, []) == s6;
    assert steps[3..][3..] == [];
  }

  lemma ThreeSteps(s: State, prefs: Preferences, referrerOf: nat -> nat, steps: seq<Step>)
    requires |steps| >= 3
    ensures Run(s, prefs, referrerOf, steps)
         == Run(Next(Next(Next(s, prefs, referrerOf, steps[0]), prefs, referrerOf, steps[1]), prefs, referrerOf, steps[2]),
                prefs, referrerOf, steps[3..])
  {
    hide Next;
    var s1 := Next(s, prefs, referrerOf, steps[0]);
    var s2 := Next(s1, prefs, referrerOf, steps[1]);
    assert Run(s, prefs, referrerOf, steps) == Run(s1, prefs, referrerOf, steps[1..]);
    assert steps[1..][1..] == steps[2..] && steps[2..][1..] == steps[3..];
    assert Run(s1, prefs, referrerOf, steps[1..]) == Run(s2, prefs, referrerOf, steps[2..]);
  }

  // ---------------------------------------------------------------------------------------
  // Every reward row is what was given, and nothing else is
  // ---------------------------------------------------------------------------------------

  function CreditIn(r: Reward, mine: bool): int {
    if r.Credit? && mine && r.amount > 0 then r.amount else 0
  }

  function DaysIn(r: Reward, mine: bool): int {
    if r.FreeDays? && mine then r.days else 0
  }

  /** The credit the reward rows promise a referrer. */
  function CreditTo(rewards: seq<Reward>, referrerOf: nat -> nat, customer: nat): int {
    if |rewards| == 0 then 0
    else
      var r := rewards[|rewards| - 1];
      CreditTo(rewards[..|rewards| - 1], referrerOf, customer) + CreditIn(r, referrerOf(r.referred) == customer)
  }

  function DaysTo(rewards: seq<Reward>, referrerOf: nat -> nat, customer: nat): int {
    if |rewards| == 0 then 0
    else
      var r := rewards[|rewards| - 1];
      DaysTo(rewards[..|rewards| - 1], referrerOf, customer) + DaysIn(r, referrerOf(r.referred) == customer)
  }

  /** The next bills of all the customer's plans, added up. */
  function NextBills(plans: seq<PlanDate>, customer: nat): int {
    if |plans| == 0 then 0
    else
      var p := plans[|plans| - 1];
      NextBills(plans[..|plans| - 1], customer) + if p.customer == customer then p.nextBilling else 0
  }

  lemma {:induction false} NextBillsUpdate(plans: seq<PlanDate>, i: nat, p: PlanDate, customer: nat)
    requires i < |plans| && p.customer == plans[i].customer
    ensures NextBills(plans[i := p], customer)
         == NextBills(plans, customer) + if p.customer == customer then p.nextBilling - plans[i].nextBilling else 0
    decreases |plans|
  {
    var n := |plans| - 1;
    if i < n {
      NextBillsUpdate(plans[..n], i, p, customer);
      assert plans[i := p][..n] == plans[..n][i := p];
    } else {
      assert plans[i := p][..n] == plans[..n];
    }
  }

  ghost predicate Settled(s: State, books: Books, referrerOf: nat -> nat, customer: nat) {
    && BalanceOf(s.books, customer) == BalanceOf(books, customer) + CreditTo(s.rewards, referrerOf, customer)
    && NextBills(s.books.plans, customer) == NextBills(books.plans, customer) + DaysTo(s.rewards, referrerOf, customer) * DAY
  }

  function BalanceOf(books: Books, customer: nat): int {
    WalletOf(books.wallets, customer).balance
  }

  /** Giving moves the wallet by the credit of its row. */
  lemma GivingCredits(books: Books, prefs: Preferences, referrer: nat, referred: nat, customer: nat)
    ensures BalanceOf(Given(books, prefs, referrer), customer)
         == BalanceOf(books, customer) + CreditIn(RewardFor(books, prefs, referred, referrer), referrer == customer)
  {
    hide FirstActive;
  }

  /** And the plans by the days of its row. */
  lemma GivingDays(books: Books, prefs: Preferences, referrer: nat, referred: nat, customer: nat)
    ensures NextBills(Given(books, prefs, referrer).plans, customer)
         == NextBills(books.plans, customer) + DaysIn(RewardFor(books, prefs, referred, referrer), referrer == customer) * DAY
  {
    hide NextBills, WalletOf;
    var first := FirstActive(books.plans, referrer);
    hide FirstActive;
    if prefs.inDays && first.Some? {
      NextBillsUpdate(books.plans, first.value, Given(books, prefs, referrer).plans[first.value], customer);
    }
  }

  lemma RowAdded(rewards: seq<Reward>, r: Reward, referrerOf: nat -> nat, customer: nat)
    ensures CreditTo(rewards + [r], referrerOf, customer)
         == CreditTo(rewards, referrerOf, customer) + CreditIn(r, referrerOf(r.referred) == customer)
    ensures DaysTo(rewards + [r], referrerOf, customer)
         == DaysTo(rewards, referrerOf, customer) + DaysIn(r, referrerOf(r.referred) == customer)
  {
    hide CreditIn, DaysIn;
    assert (rewards + [r])[..|rewards|] == rewards;
  }

  lemma PaySettles(s: State, books: Books, prefs: Preferences, referrerOf: nat -> nat, k: nat, customer: nat)
    requires k < |s.passes| && Settled(s, books, referrerOf, customer)
    ensures Settled(Paid(s, prefs, referrerOf, k), books, referrerOf, customer)
  {
    hide FirstActive, NextBills, CreditTo, DaysTo, CreditIn, DaysIn, BalanceOf, Given;
    var p := s.passes[k];
    if p.holding.Some? {
      var id := p.holding.value;
      var referrer := referrerOf(id);
      var row := RewardFor(s.books, prefs, id, referrer);
      assert row.referred == id;
      hide RewardFor;
      GivingCredits(s.books, prefs, referrer, id, customer);
      GivingDays(s.books, prefs, referrer, id, customer);
      RowAdded(s.rewards, row, referrerOf, customer);
    }
  }

  /** Over any interleaving, what each referrer's wallet and plans have gained is exactly what their
      reward rows say. */
  lemma {:induction false} RewardsAreGiven(s: State, books: Books, prefs: Preferences, referrerOf: nat -> nat, steps: seq<Step>, customer: nat)
    requires Settled(s, books, referrerOf, customer)
    ensures Settled(Run(s, prefs, referrerOf, steps), books, referrerOf, customer)
    decreases |steps|
  {
    if |steps| > 0 {
      hide Paid, CreditTo, DaysTo, NextBills, BalanceOf;
      var e := steps[0];
      if e.Pay? && e.pass < |s.passes| {
        PaySettles(s, books, prefs, referrerOf, e.pass, customer);
      }
      RewardsAreGiven(Next(s, prefs, referrerOf, e), books, prefs, referrerOf, steps[1..], customer);
    }
  }

  lemma EachIsAmong(rewards: seq<Reward>)
    ensures forall i :: 0 <= i < |rewards| ==> Among(rewards, rewards[i].referred)
  {
  }

  // ---------------------------------------------------------------------------------------
  // One uninterrupted pass
  // ---------------------------------------------------------------------------------------

  datatype Granting = Granting(claimed: set<nat>, rewards: seq<Reward>, books: Books)

  /** What one pass on its own grants: a reward for every customer of its list not yet claimed. */
  function Granted(claimed: set<nat>, books: Books, prefs: Preferences, referrerOf: nat -> nat, due: seq<nat>): Granting {
    if |due| == 0 then Granting(claimed, [], books)
    else
      var n := |due| - 1;
      var g := Granted(claimed, books, prefs, referrerOf, due[..n]);
      if due[n] in g.claimed then g
      else
        var referrer := referrerOf(due[n]);
        Granting(g.claimed + {due[n]}, g.rewards + [RewardFor(g.books, prefs, due[n], referrer)], Given(g.books, prefs, referrer))
  }

  class ReferralTable {
    var claimed: set<nat>
    var rewards: seq<Reward>
    var wallets: map<nat, Wallets.Wallet>
    var plans: seq<PlanDate>

    method GrantDueReferralRewards(prefs: Preferences, enabled: bool, referrerOf: nat -> nat, due: seq<nat>) returns (granted: seq<Reward>)
      modifies this
      ensures !enabled ==> granted == [] && claimed == old(claimed) && wallets == old(wallets) && plans == old(plans)
      ensures enabled ==> Granting(claimed, granted, Books(wallets, plans))
                          == Granted(old(claimed), Books(old(wallets), old(plans)), prefs, referrerOf, due)
      ensures rewards == old(rewards) + granted
    {
      granted := [];
      if !enabled {
        return;
      }
      ghost var books := Books(wallets, plans);
      var i := 0;
      while i < |due|
        invariant i <= |due|
        invariant Granting(claimed, granted, Books(wallets, plans)) == Granted(old(claimed), books, prefs, referrerOf, due[..i])
        invariant rewards == old(rewards) + granted
      {
        assert due[..i + 1][..i] == due[..i];
        if due[i] !in claimed {
          claimed := claimed + {due[i]};
          var reward := GrantOne(prefs, due[i], referrerOf(due[i]));
          granted := granted + [reward];
        }
        i := i + 1;
      }
      assert due[..i] == due;
    }

    /** The transaction that pays one reward. */
    method GrantOne(prefs: Preferences, referred: nat, referrer: nat) returns (reward: Reward)
      modifies this`rewards, this`wallets, this`plans
      ensures reward == RewardFor(Books(old(wallets), old(plans)), prefs, referred, referrer)
      ensures Books(wallets, plans) == Given(Books(old(wallets), old(plans)), prefs, referrer)
      ensures rewards == old(rewards) + [reward]
    {
      var active := if prefs.inDays then FirstActive(plans, referrer) else None;
      if active.Some? {
        var p := plans[active.value];
        plans := plans[active.value := p.(nextBilling := p.nextBilling + prefs.days * DAY)];
        reward := FreeDays(referred, prefs.days);
      } else {
        if prefs.credit > 0 {
          wallets := wallets[referrer := Wallets.Credited(WalletOf(wallets, referrer), prefs.credit).value];
        }
        reward := Credit(referred, prefs.credit);
      }
      rewards := rewards + [reward];
    }
  }

  /** A pass that is not disturbed rewards every customer of its list that nobody had claimed, once
      each, and nobody else. */
  lemma {:induction false} PassRewardsTheUnclaimed(claimed: set<nat>, books: Books, prefs: Preferences, referrerOf: nat -> nat, due: seq<nat>)
    ensures var g := Granted(claimed, books, prefs, referrerOf, due);
      && g.claimed == claimed + (set id | id in due)
      && (forall id: nat :: Among(g.rewards, id) <==> id in due && id !in claimed)
      && (forall i, j :: 0 <= i < j < |g.rewards| ==> g.rewards[i].referred != g.rewards[j].referred)
    decreases |due|
  {
    if |due| > 0 {
      hide FirstActive, Given;
      var n := |due| - 1;
      PassRewardsTheUnclaimed(claimed, books, prefs, referrerOf, due[..n]);
      var front := Granted(claimed, books, prefs, referrerOf, due[..n]);
      var g := Granted(claimed, books, prefs, referrerOf, due);
      assert due == due[..n] + [due[n]];
      assert g.claimed == claimed + (set id | id in due);
      if due[n] !in front.claimed {
        RewardAdded(front.rewards, RewardFor(front.books, prefs, due[n], referrerOf(due[n])));
        EachIsAmong(front.rewards);
      }
    }
  }
}
