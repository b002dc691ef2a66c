/** Cash an agent takes toward a customer's bills (packages/billing/src/agent.service.ts): the
    split over the open bills, oldest first, and what a replayed collection does. */
module AgentCash {
  import Integers
  import opened MoneyRuns
  import opened Optional
  import opened Payments
  import Wallets

  datatype Collected = Thrown | Collected(store: Store, left: int)

  predicate OpenBill(s: Store, customer: nat, i: nat) {
    i < |s.invoices| && s.invoices[i].customer == customer && Unpaid(s.invoices[i].status)
  }

  /** The customer's open bills by due date: what the query returns. */
  ghost predicate DueOrder(s: Store, customer: nat, order: seq<nat>) {
    && Bills(s, customer, order)
    && (forall i :: OpenBill(s, customer, i) ==> i in order)
    && (forall j, k :: 0 <= j < k < |order| ==> s.invoices[order[j]].due <= s.invoices[order[k]].due)
  }

  ghost predicate Bills(s: Store, customer: nat, order: seq<nat>) {
    && (forall j :: 0 <= j < |order| ==> OpenBill(s, customer, order[j]))
    && (forall j, k :: 0 <= j < k < |order| ==> order[j] != order[k])
  }

  function Owed(inv: Invoice): int {
    inv.total - inv.paid
  }

  /** The loop over the bills. */
  function PayBills(s: Store, order: seq<nat>, left: int, request: nat): Collected
    requires forall j :: 0 <= j < |order| ==> order[j] < |s.invoices|
    decreases |order|
  {
    if |order| == 0 || left <= 0 then Collected(s, left)
    else
      var i := order[0];
      if Owed(s.invoices[i]) <= 0 then PayBills(s, order[1..], left, request)
      else
        var part := Integers.Min(Owed(s.invoices[i]), left);
        var res := Pay(s, BillRequest(i, part, request));
        if res.outcome == Refused then Thrown else PayBills(res.store, order[1..], left - part, request)
  }

  function BillRequest(i: nat, part: int, request: nat): PayRequest {
    PayRequest(i, FromOutside, part, AgentBill(request, i), false)
  }

  /** What the bills did not need goes to the wallet. */
  function Finish(c: Collected, customer: nat, request: nat): Collected {
    if c.Thrown? || c.left <= 0 then c
    else
      var res := TopUp(c.store, customer, c.left, AgentWallet(request));
      if res.outcome == Refused then Thrown else Collected(res.store, c.left)
  }

  /** The whole collection. */
  function Collect(s: Store, customer: nat, order: seq<nat>, amount: int, request: nat): Collected
    requires forall j :: 0 <= j < |order| ==> order[j] < |s.invoices|
  {
    if amount <= 0 || customer >= |s.wallets| then Thrown
    else Finish(PayBills(s, order, amount, request), customer, request)
  }

  // ---------------------------------------------------------------------------------------
  // The split, as plain arithmetic
  // ---------------------------------------------------------------------------------------

  function Dues(s: Store, order: seq<nat>): (d: seq<int>)
    requires forall j :: 0 <= j < |order| ==> order[j] < |s.invoices|
    ensures |d| == |order|
  {
    seq(|order|, j requires 0 <= j < |order| => Owed(s.invoices[order[j]]))
  }

  function Sum(xs: seq<int>): int {
    if |xs| == 0 then 0 else xs[0] + Sum(xs[1..])
  }

  /** How an amount is laid over a list of dues. */
  function Parts(dues: seq<int>, left: int): (parts: seq<int>)
    ensures |parts| == |dues|
  {
    if |dues| == 0 then []
    else
      var part := FirstPart(dues, left);
      [part] + Parts(dues[1..], left - part)
  }

  ghost predicate NonNegative(xs: seq<int>) {
    forall i :: 0 <= i < |xs| ==> xs[i] >= 0
  }

  /** Every bill before `k` is paid in full, `k` perhaps in part, none after it at all; the cash is
      used up on the bills unless all of them are cleared. */
  lemma {:induction false} PartsArePrefix(dues: seq<int>, left: int) returns (k: nat)
    requires NonNegative(dues) && left >= 0
    ensures k <= |dues| == |Parts(dues, left)|
    ensures forall j :: 0 <= j < k ==> Parts(dues, left)[j] == dues[j]
    ensures k < |dues| ==> 0 <= Parts(dues, left)[k] < dues[k]
    ensures forall j :: k < j < |dues| ==> Parts(dues, left)[j] == 0
    ensures 0 <= Sum(Parts(dues, left)) <= left
    ensures k < |dues| ==> Sum(Parts(dues, left)) == left
    ensures k == |dues| ==> Parts(dues, left) == dues
    decreases |dues|
  {
    hide Parts;
    PartsCons(dues, left);
    if |dues| == 0 {
      k := 0;
    } else {
      var part := FirstPart(dues, left);
      var rest := Parts(dues[1..], left - part);
      var parts := Parts(dues, left);
      if part == dues[0] {
        k := PartsArePrefix(dues[1..], left - part);
        k := k + 1;
        assert forall j :: 0 < j < |dues| ==> parts[j] == rest[j - 1] && dues[j] == dues[1..][j - 1];
        assert k == |dues| ==> parts == dues;
      } else {
        k := 0;
        NothingLeft(dues[1..], 0);
        var k' := PartsArePrefix(dues[1..], 0);
        assert forall j :: 0 < j < |dues| ==> parts[j] == rest[j - 1];
      }
    }
  }

  function FirstPart(dues: seq<int>, left: int): int
    requires |dues| > 0
  {
    if left <= 0 || dues[0] <= 0 then 0 else Integers.Min(dues[0], left)
  }

  lemma PartsCons(dues: seq<int>, left: int)
    ensures |dues| == 0 ==> Parts(dues, left) == [] && Sum(Parts(dues, left)) == 0
    ensures |dues| > 0 ==>
              var part := FirstPart(dues, left);
              var rest := Parts(dues[1..], left - part);
              && Parts(dues, left) == [part] + rest
              && Sum(Parts(dues, left)) == part + Sum(rest)
  {
    if |dues| > 0 {
      assert Parts(dues, left)[1..] == Parts(dues[1..], left - FirstPart(dues, left));
    }
  }

  lemma {:induction false} NothingLeft(dues: seq<int>, left: int)
    requires left <= 0
    ensures forall j :: 0 <= j < |dues| ==> Parts(dues, left)[j] == 0
    decreases |dues|
  {
    if |dues| > 0 {
      NothingLeft(dues[1..], left);
    }
  }

  // ---------------------------------------------------------------------------------------
  // A fresh collection
  // ---------------------------------------------------------------------------------------

  /** No bill and no wallet credit has been booked under this request yet. */
  ghost predicate Fresh(s: Store, request: nat) {
    forall i :: 0 <= i < |s.payments| ==>
      s.payments[i].key != AgentWallet(request)
      && !(s.payments[i].key.AgentBill? && s.payments[i].key.request == request)
  }

  ghost predicate FreshBills(s: Store, order: seq<nat>, request: nat) {
    forall j :: 0 <= j < |order| ==> !KeyUsed(s.payments, AgentBill(request, order[j]))
  }

  /** One bill after its part. */
  function Billed(inv: Invoice, part: int): Invoice {
    if part > 0 then PaidUp(inv, part) else inv
  }

  /** Exactly the listed bills change, each by its part; wallets do not; and the keys used up are
      exactly those of the parts booked. */
  ghost predicate Booked(s: Store, s': Store, order: seq<nat>, parts: seq<int>, request: nat) {
    && |parts| == |order| && |s'.invoices| == |s.invoices|
    && s'.wallets == s.wallets
    && (forall i :: 0 <= i < |s.invoices| && i !in order ==> s'.invoices[i] == s.invoices[i])
    && (forall j :: 0 <= j < |order| ==>
          order[j] < |s.invoices| && s'.invoices[order[j]] == Billed(s.invoices[order[j]], parts[j]))
    && (forall key: Key :: KeyUsed(s'.payments, key) <==>
          KeyUsed(s.payments, key) || exists j :: 0 <= j < |order| && parts[j] > 0 && key == AgentBill(request, order[j]))
  }

  lemma OneBill(s: Store, customer: nat, i: nat, part: int, request: nat)
    requires Inv(s) && OpenBill(s, customer, i)
    requires 0 < part <= Owed(s.invoices[i])
    requires !KeyUsed(s.payments, AgentBill(request, i))
    ensures var res := Pay(s, BillRequest(i, part, request));
      && res.outcome == Accepted && Inv(res.store)
      && res.store.invoices == s.invoices[i := PaidUp(s.invoices[i], part)]
      && res.store.wallets == s.wallets
      && (forall key: Key :: KeyUsed(res.store.payments, key) <==> KeyUsed(s.payments, key) || key == AgentBill(request, i))
  {
    PayKeepsInv(s, BillRequest(i, part, request));
    var s' := Pay(s, BillRequest(i, part, request)).store;
    var n := |s.payments|;
    assert s'.payments == s.payments + [s'.payments[n]] && s'.payments[n].key == AgentBill(request, i);
    KeysAppended(s.payments, s'.payments[n]);
  }

  lemma KeysAppended(payments: seq<Payment>, p: Payment)
    ensures forall key: Key :: KeyUsed(payments + [p], key) <==> KeyUsed(payments, key) || key == p.key
  {
    forall key: Key
      ensures KeyUsed(payments + [p], key) <==> KeyUsed(payments, key) || key == p.key
    {
      var all := payments + [p];
      if KeyUsed(payments, key) {
        var i :| 0 <= i < |payments| && payments[i].key == key;
        assert all[i].key == key;
      }
      assert all[|payments|] == p;
    }
  }

  lemma NothingBooked(s: Store, order: seq<nat>, parts: seq<int>, request: nat)
    requires |parts| == |order| && forall j :: 0 <= j < |order| ==> order[j] < |s.invoices| && parts[j] == 0
    ensures Booked(s, s, order, parts, request)
  {
  }

  /** Booking the first bill and then the others is booking them all. */
  lemma BookedFirst(s: Store, s1: Store, s2: Store, order: seq<nat>, parts: seq<int>, request: nat)
    requires |order| > 0 && |parts| == |order|
    requires forall j :: 0 < j < |order| ==> order[j] != order[0]
    requires Booked(s, s1, order[..1], parts[..1], request)
    requires Booked(s1, s2, order[1..], parts[1..], request)
    ensures Booked(s, s2, order, parts, request)
  {
    hide KeyUsed;
    forall i | 0 <= i < |s.invoices| && i !in order
      ensures s2.invoices[i] == s.invoices[i]
    {
      assert i !in order[..1] && i !in order[1..];
    }
    forall j | 0 <= j < |order|
      ensures order[j] < |s.invoices| && s2.invoices[order[j]] == Billed(s.invoices[order[j]], parts[j])
    {
      if j == 0 {
        assert order[0] == order[..1][0];
        assert order[0] !in order[1..];
      } else {
        assert order[j] == order[1..][j - 1] && order[j] !in order[..1];
      }
    }
    forall key: Key
      ensures KeyUsed(s2.payments, key) <==>
        KeyUsed(s.payments, key) || exists j :: 0 <= j < |order| && parts[j] > 0 && key == AgentBill(request, order[j])
    {
      BookedKeys(order, parts, request, key);
    }
  }

  lemma BookedKeys(order: seq<nat>, parts: seq<int>, request: nat, key: Key)
    requires |order| > 0 && |parts| == |order|
    ensures (exists j :: 0 <= j < |order| && parts[j] > 0 && key == AgentBill(request, order[j]))
       <==> ((exists j :: 0 <= j < |order[..1]| && parts[..1][j] > 0 && key == AgentBill(request, order[..1][j]))
             || (exists j :: 0 <= j < |order[1..]| && parts[1..][j] > 0 && key == AgentBill(request, order[1..][j])))
  {
    if j :| 0 <= j < |order| && parts[j] > 0 && key == AgentBill(request, order[j]) {
      if j == 0 {
        assert parts[..1][0] > 0 && key == AgentBill(request, order[..1][0]);
      } else {
        assert parts[1..][j - 1] > 0 && key == AgentBill(request, order[1..][j - 1]);
      }
    }
  }

  lemma DuesOpen(s: Store, customer: nat, order: seq<nat>)
    requires Inv(s) && Bills(s, customer, order)
    ensures NonNegative(Dues(s, order))
  {
    forall j | 0 <= j < |order|
      ensures Dues(s, order)[j] >= 0
    {
      assert OpenBill(s, customer, order[j]);
      assert InvoiceSound(s.invoices[order[j]]);
    }
  }

  /** The loop books exactly the parts, and is never refused. */
  lemma {:induction false} PayBillsBooks(s: Store, customer: nat, order: seq<nat>, left: int, request: nat)
    requires Inv(s) && Bills(s, customer, order) && left >= 0 && FreshBills(s, order, request)
    ensures var parts := Parts(Dues(s, order), left);
      var r := PayBills(s, order, left, request);
      && r.Collected? && r.left == left - Sum(parts) && Inv(r.store)
      && Booked(s, r.store, order, parts, request)
    decreases |order|
  {
    hide Inv, Pay, Booked;
    var parts := Parts(Dues(s, order), left);
    if |order| == 0 {
      NothingBooked(s, order, parts, request);
    } else if left == 0 {
      NothingLeft(Dues(s, order), 0);
      NothingBooked(s, order, parts, request);
      DuesOpen(s, customer, order);
      var k := PartsArePrefix(Dues(s, order), 0);
    } else {
      PayFirstBill(s, customer, order, left, request);
    }
  }

  lemma {:induction false} PayFirstBill(s: Store, customer: nat, order: seq<nat>, left: int, request: nat)
    requires Inv(s) && Bills(s, customer, order) && left > 0 && FreshBills(s, order, request) && |order| > 0
    ensures var parts := Parts(Dues(s, order), left);
      var r := PayBills(s, order, left, request);
      && r.Collected? && r.left == left - Sum(parts) && Inv(r.store)
      && Booked(s, r.store, order, parts, request)
    decreases |order|, 0
  {
    hide Inv, Pay, Booked;
    var dues := Dues(s, order);
    var parts := Parts(dues, left);
    var i, rest := order[0], order[1..];
    var part := if dues[0] <= 0 then 0 else Integers.Min(dues[0], left);
    assert parts[1..] == Parts(dues[1..], left - part) && parts[..1] == [part] && order[..1] == [i];
    assert OpenBill(s, customer, i);
    var s1 := if part == 0 then s else Pay(s, BillRequest(i, part, request)).store;
    if part > 0 {
      OneBill(s, customer, i, part, request);
    }
    FirstBooked(s, s1, i, part, request);
    RestStaysOpen(s, s1, customer, order, request, part);
    PayBillsBooks(s1, customer, rest, left - part, request);
    var r := PayBills(s1, rest, left - part, request);
    BookedFirst(s, s1, r.store, order, parts, request);
  }

  lemma FirstBooked(s: Store, s1: Store, i: nat, part: int, request: nat)
    requires i < |s.invoices| && part >= 0
    requires part == 0 ==> s1 == s
    requires part > 0 ==>
               && s1.invoices == s.invoices[i := PaidUp(s.invoices[i], part)]
               && s1.wallets == s.wallets
               && (forall key: Key :: KeyUsed(s1.payments, key) <==> KeyUsed(s.payments, key) || key == AgentBill(request, i))
    ensures Booked(s, s1, [i], [part], request)
  {
    hide KeyUsed;
    forall key: Key
      ensures KeyUsed(s1.payments, key) <==>
        KeyUsed(s.payments, key) || exists j :: 0 <= j < 1 && [part][j] > 0 && key == AgentBill(request, [i][j])
    {
      assert [part][0] == part && [i][0] == i;
    }
  }

  lemma RestStaysOpen(s: Store, s1: Store, customer: nat, order: seq<nat>, request: nat, part: int)
    requires |order| > 0 && Bills(s, customer, order) && FreshBills(s, order, request)
    requires Booked(s, s1, order[..1], [part], request)
    ensures Bills(s1, customer, order[1..]) && FreshBills(s1, order[1..], request)
    ensures Dues(s1, order[1..]) == Dues(s, order)[1..]
  {
    hide KeyUsed;
    forall j | 0 <= j < |order| - 1
      ensures s1.invoices[order[1..][j]] == s.invoices[order[j + 1]]
      ensures OpenBill(s1, customer, order[1..][j])
      ensures !KeyUsed(s1.payments, AgentBill(request, order[1..][j]))
    {
      assert order[1..][j] == order[j + 1] && OpenBill(s, customer, order[j + 1]);
      assert order[j + 1] !in order[..1];
    }
  }

  /** A fresh collection is never refused and accounts for every cent: the parts and the wallet
      credit add up to the amount, the parts follow the due dates as PartsArePrefix says, no other
      bill is touched, and the wallet is credited exactly with what no bill needed. */
  lemma CollectionSplits(s: Store, customer: nat, order: seq<nat>, amount: int, request: nat) returns (s1: Store)
    requires Inv(s) && DueOrder(s, customer, order) && customer < |s.wallets|
    requires amount > 0 && Fresh(s, request)
    ensures var parts := Parts(Dues(s, order), amount);
      var left := amount - Sum(parts);
      && 0 <= left && (left > 0 ==> parts == Dues(s, order))
      && Booked(s, s1, order, parts, request)
      && Collect(s, customer, order, amount, request).Collected?
      && Inv(Collect(s, customer, order, amount, request).store)
      && var s' := Collect(s, customer, order, amount, request).store;
        && s'.invoices == s1.invoices
        && s'.wallets == (if left > 0 then s.wallets[customer := Wallets.Credited(s.wallets[customer], left).value] else s.wallets)
        && (forall key: Key :: KeyUsed(s'.payments, key) <==>
              KeyUsed(s1.payments, key) || (left > 0 && key == AgentWallet(request)))
  {
    hide Inv, Booked;
    FreshMeans(s, order, request);
    PayBillsBooks(s, customer, order, amount, request);
    DuesOpen(s, customer, order);
    var k := PartsArePrefix(Dues(s, order), amount);
    s1 := PayBills(s, order, amount, request).store;
    var left := PayBills(s, order, amount, request).left;
    BookedWallets(s, s1, order, Parts(Dues(s, order), amount), request);
    if left > 0 {
      TopUpKeepsInv(s1, customer, left, AgentWallet(request));
      KeysAppended(s1.payments, TopUp(s1, customer, left, AgentWallet(request)).store.payments[|s1.payments|]);
    }
  }

  lemma FreshMeans(s: Store, order: seq<nat>, request: nat)
    requires Fresh(s, request)
    ensures FreshBills(s, order, request) && !KeyUsed(s.payments, AgentWallet(request))
  {
  }

  lemma BookedWallets(s: Store, s1: Store, order: seq<nat>, parts: seq<int>, request: nat)
    requires Booked(s, s1, order, parts, request)
    ensures s1.wallets == s.wallets
    ensures KeyUsed(s1.payments, AgentWallet(request)) <==> KeyUsed(s.payments, AgentWallet(request))
  {
  }

  // ---------------------------------------------------------------------------------------
  // A replayed collection
  // ---------------------------------------------------------------------------------------

  /** The cash is used up by bills already booked under this request, or what is left of it was
      already credited under it. */
  predicate Absorbed(s: Store, order: seq<nat>, left: int, request: nat)
    requires forall j :: 0 <= j < |order| ==> order[j] < |s.invoices|
    decreases |order|
  {
    left <= 0
    || if |order| == 0 then KeyUsed(s.payments, AgentWallet(request))
       else
         var due := Owed(s.invoices[order[0]]);
         if due <= 0 then Absorbed(s, order[1..], left, request)
         else KeyUsed(s.payments, AgentBill(request, order[0])) && Absorbed(s, order[1..], left - Integers.Min(due, left), request)
  }

  lemma {:induction false} PayBillsGrows(s: Store, customer: nat, order: seq<nat>, left: int, request: nat)
    requires Inv(s) && Bills(s, customer, order)
    ensures var r := PayBills(s, order, left, request);
      r.Collected? && |r.store.payments| >= |s.payments| && |r.store.wallets| == |s.wallets|
    decreases |order|
  {
    hide Inv, Pay;
    if |order| > 0 && left > 0 {
      var i := order[0];
      assert OpenBill(s, customer, i);
      var due := Owed(s.invoices[i]);
      if due <= 0 {
        PayBillsGrows(s, customer, order[1..], left, request);
      } else {
        var s1 := Pay(s, BillRequest(i, Integers.Min(due, left), request)).store;
        PayOneOpen(s, customer, i, Integers.Min(due, left), request);
        OthersStayOpen(s, s1, customer, order);
        PayBillsGrows(s1, customer, order[1..], left - Integers.Min(due, left), request);
      }
    }
  }

  lemma PayOneOpen(s: Store, customer: nat, i: nat, part: int, request: nat)
    requires Inv(s) && OpenBill(s, customer, i) && 0 < part <= Owed(s.invoices[i])
    ensures var res := Pay(s, BillRequest(i, part, request));
      && res.outcome != Refused && Inv(res.store)
      && |res.store.invoices| == |s.invoices| && |res.store.wallets| == |s.wallets|
      && (forall j :: 0 <= j < |s.invoices| && j != i ==> res.store.invoices[j] == s.invoices[j])
      && (KeyUsed(s.payments, AgentBill(request, i)) ==> res.store == s)
      && (!KeyUsed(s.payments, AgentBill(request, i)) ==> |res.store.payments| == |s.payments| + 1)
      && |res.store.payments| >= |s.payments|
  {
    PayKeepsInv(s, BillRequest(i, part, request));
  }

  lemma OthersStayOpen(s: Store, s1: Store, customer: nat, order: seq<nat>)
    requires |order| > 0 && Bills(s, customer, order) && |s1.invoices| == |s.invoices|
    requires forall j :: 0 <= j < |s.invoices| && j != order[0] ==> s1.invoices[j] == s.invoices[j]
    ensures Bills(s1, customer, order[1..])
  {
    forall j | 0 <= j < |order| - 1
      ensures OpenBill(s1, customer, order[1..][j])
    {
      assert OpenBill(s, customer, order[j + 1]) && order[j + 1] != order[0];
    }
  }

  /** A collection under any request, in any state, changes the store exactly when it is not
      absorbed; and it is never refused. */
  lemma {:induction false} UnchangedExactlyIfAbsorbed(s: Store, customer: nat, order: seq<nat>, left: int, request: nat)
    requires Inv(s) && Bills(s, customer, order) && customer < |s.wallets|
    ensures PayBills(s, order, left, request).Collected?
    ensures |PayBills(s, order, left, request).store.wallets| == |s.wallets|
    ensures var c := Finish(PayBills(s, order, left, request), customer, request);
      c.Collected? && (c.store == s <==> Absorbed(s, order, left, request))
    decreases |order|
  {
    hide Inv, Pay;
    if |order| > 0 && left > 0 {
      var i := order[0];
      assert OpenBill(s, customer, i);
      var due := Owed(s.invoices[i]);
      if due <= 0 {
        UnchangedExactlyIfAbsorbed(s, customer, order[1..], left, request);
      } else {
        var part := Integers.Min(due, left);
        var s1 := Pay(s, BillRequest(i, part, request)).store;
        PayOneOpen(s, customer, i, part, request);
        OthersStayOpen(s, s1, customer, order);
        if KeyUsed(s.payments, AgentBill(request, i)) {
          UnchangedExactlyIfAbsorbed(s, customer, order[1..], left - part, request);
        } else {
          PayBillsGrows(s1, customer, order[1..], left - part, request);
          var c := PayBills(s1, order[1..], left - part, request);
          assert |c.store.payments| > |s.payments|;
          assert |Finish(c, customer, request).store.payments| > |s.payments|;
        }
      }
    } else if left > 0 {
      assert KeyUsed(s.payments, AgentWallet(request))
          || |TopUp(s, customer, left, AgentWallet(request)).store.payments| == |s.payments| + 1;
    }
  }

  /** A collection is refused exactly for no amount or an unknown customer, whatever was collected before. */
  lemma CollectionRefusedExactly(s: Store, customer: nat, order: seq<nat>, amount: int, request: nat)
    requires Inv(s) && Bills(s, customer, order)
    ensures Collect(s, customer, order, amount, request) == Thrown <==> amount < 1 || customer >= |s.wallets|
  {
    hide Inv, PayBills, Finish;
    if amount >= 1 && customer < |s.wallets| {
      UnchangedExactlyIfAbsorbed(s, customer, order, amount, request);
    }
  }

  /** The bills of the first query that the second one still returns. */
  function StillOpen(s: Store, order: seq<nat>): (r: seq<nat>)
    requires forall j :: 0 <= j < |order| ==> order[j] < |s.invoices|
    ensures forall j :: 0 <= j < |r| ==> r[j] in order && Unpaid(s.invoices[r[j]].status)
  {
    if |order| == 0 then []
    else (if Unpaid(s.invoices[order[0]].status) then [order[0]] else []) + StillOpen(s, order[1..])
  }

  /** What the bills look like after a fresh collection, seen from the replay. */
  ghost predicate AfterParts(s: Store, order: seq<nat>, dues: seq<int>, parts: seq<int>, request: nat) {
    && |dues| == |parts| == |order|
    && (forall j :: 0 <= j < |order| ==>
          && order[j] < |s.invoices|
          && 0 <= parts[j] <= dues[j]
          && Owed(s.invoices[order[j]]) == dues[j] - parts[j]
          && (Unpaid(s.invoices[order[j]].status) <==> (dues[j] == 0 || parts[j] < dues[j]))
          && (KeyUsed(s.payments, AgentBill(request, order[j])) <==> parts[j] > 0))
  }

  /** Replaying over the bills behind the partly paid one: nothing there was booked. */
  lemma {:induction false} AbsorbedBehind(s: Store, order: seq<nat>, dues: seq<int>, parts: seq<int>, left: int, request: nat)
    requires AfterParts(s, order, dues, parts, request)
    requires forall j :: 0 <= j < |parts| ==> parts[j] == 0
    requires !KeyUsed(s.payments, AgentWallet(request)) && left > 0
    ensures !Absorbed(s, StillOpen(s, order), left, request)
    decreases |order|
  {
    if |order| > 0 {
      StillOpenCons(s, order, dues, parts, request);
      if dues[0] == 0 {
        AbsorbedBehind(s, order[1..], dues[1..], parts[1..], left, request);
      }
    }
  }

  lemma {:induction false} AbsorbedAfter(s: Store, order: seq<nat>, dues: seq<int>, parts: seq<int>, k: nat, amount: int, request: nat)
    requires AfterParts(s, order, dues, parts, request)
    requires k <= |order| && amount > 0
    requires forall j :: 0 <= j < k ==> parts[j] == dues[j]
    requires k < |order| ==> parts[k] < dues[k] && !KeyUsed(s.payments, AgentWallet(request))
    requires forall j :: k < j < |order| ==> parts[j] == 0
    ensures Absorbed(s, StillOpen(s, order), amount, request)
       <==> if k == |order| then KeyUsed(s.payments, AgentWallet(request))
            else parts[k] > 0 && dues[k] - parts[k] >= amount
    decreases |order|
  {
    assert |dues| == |parts| == |order|;
    hide KeyUsed, AfterParts, Absorbed, StillOpen;
    if |order| == 0 {
      NoBillsAbsorbed(s, amount, request);
    } else if k > 0 {
      PaidBillIsSkipped(s, order, dues, parts, amount, request);
      StillOpenCons(s, order, dues, parts, request);
      AbsorbedAfter(s, order[1..], dues[1..], parts[1..], k - 1, amount, request);
    } else {
      PartlyPaidFirst(s, order, dues, parts, amount, request);
    }
  }

  lemma NoBillsAbsorbed(s: Store, left: int, request: nat)
    requires left > 0
    ensures StillOpen(s, []) == [] && (Absorbed(s, [], left, request) <==> KeyUsed(s.payments, AgentWallet(request)))
  {
  }

  lemma PaidBillIsSkipped(s: Store, order: seq<nat>, dues: seq<int>, parts: seq<int>, left: int, request: nat)
    requires |order| > 0 && AfterParts(s, order, dues, parts, request) && parts[0] == dues[0] && left > 0
    ensures Absorbed(s, StillOpen(s, order), left, request) <==> Absorbed(s, StillOpen(s, order[1..]), left, request)
  {
    hide KeyUsed, StillOpen;
    StillOpenCons(s, order, dues, parts, request);
  }

  lemma PartlyPaidFirst(s: Store, order: seq<nat>, dues: seq<int>, parts: seq<int>, amount: int, request: nat)
    requires |order| > 0 && AfterParts(s, order, dues, parts, request) && amount > 0
    requires parts[0] < dues[0] && !KeyUsed(s.payments, AgentWallet(request))
    requires forall j :: 0 < j < |order| ==> parts[j] == 0
    ensures Absorbed(s, StillOpen(s, order), amount, request) <==> parts[0] > 0 && dues[0] - parts[0] >= amount
  {
    hide KeyUsed, StillOpen;
    StillOpenCons(s, order, dues, parts, request);
    if parts[0] > 0 && dues[0] - parts[0] < amount {
      AbsorbedBehind(s, order[1..], dues[1..], parts[1..], amount - (dues[0] - parts[0]), request);
    }
  }

  /** The replay's list without its first bill, if that bill is still on it. */
  lemma StillOpenCons(s: Store, order: seq<nat>, dues: seq<int>, parts: seq<int>, request: nat)
    requires |order| > 0 && AfterParts(s, order, dues, parts, request)
    ensures AfterParts(s, order[1..], dues[1..], parts[1..], request)
    ensures var rest := StillOpen(s, order[1..]);
      StillOpen(s, order) == if dues[0] == 0 || parts[0] < dues[0] then [order[0]] + rest else rest
    ensures dues[0] == 0 || parts[0] < dues[0] ==> StillOpen(s, order)[1..] == StillOpen(s, order[1..])
  {
  }

  /** Replaying a collection is not always harmless. Sent again after a fresh one, it leaves bills,
      payments and wallets alone exactly when the first one overran the bills into the wallet, or
      stopped inside a bill that still owes at least the whole amount; otherwise the same cash is
      booked a second time. */
  lemma ReplayedCollection(s: Store, customer: nat, order: seq<nat>, amount: int, request: nat) returns (k: nat)
    requires Inv(s) && DueOrder(s, customer, order) && customer < |s.wallets|
    requires amount > 0 && Fresh(s, request)
    ensures Collect(s, customer, order, amount, request).Collected?
    ensures var s' := Collect(s, customer, order, amount, request).store;
      var dues, parts := Dues(s, order), Parts(Dues(s, order), amount);
      && k <= |order|
      && (forall j :: 0 <= j < |order| ==> order[j] < |s'.invoices|)
      && DueOrder(s', customer, StillOpen(s', order))
      && var again := Collect(s', customer, StillOpen(s', order), amount, request);
        && again.Collected?
        && (again.store == s' <==>
              Sum(parts) < amount || (k < |order| && parts[k] > 0 && dues[k] - parts[k] >= amount))
        && (k < |order| ==> parts[k] < dues[k]) && forall j :: 0 <= j < k ==> parts[j] == dues[j]
  {
    hide Inv, Booked, PayBills, Finish, Parts, Sum, Dues, StillOpen, KeyUsed, AfterParts, DueOrder;
    assert Bills(s, customer, order) by { DueOrderBills(s, customer, order); }
    var s1 := CollectionSplits(s, customer, order, amount, request);
    var s' := Collect(s, customer, order, amount, request).store;
    DuesOpen(s, customer, order);
    k := PartsArePrefix(Dues(s, order), amount);
    SeenFromReplay(s, s1, s', customer, order, amount, request);
    assert DueOrder(s', customer, StillOpen(s', order)) by {
      SameBills(s, s1, order, Parts(Dues(s, order), amount), request);
      SecondQuery(s, s', customer, order);
    }
    ReplayAfter(s', customer, order, Dues(s, order), Parts(Dues(s, order), amount), k, amount, request);
  }

  lemma ReplayAfter(s: Store, customer: nat, order: seq<nat>, dues: seq<int>, parts: seq<int>, k: nat, amount: int, request: nat)
    requires Inv(s) && AfterParts(s, order, dues, parts, request) && customer < |s.wallets| && amount > 0
    requires forall j :: 0 <= j < |order| ==> order[j] < |s.invoices| && s.invoices[order[j]].customer == customer
    requires forall i, j :: 0 <= i < j < |order| ==> order[i] != order[j]
    requires k <= |order| == |parts| == |dues| && forall j :: 0 <= j < k ==> parts[j] == dues[j]
    requires k < |order| ==> parts[k] < dues[k] && Sum(parts) == amount
    requires forall j :: k < j < |order| ==> parts[j] == 0
    requires KeyUsed(s.payments, AgentWallet(request)) <==> Sum(parts) < amount
    ensures var again := Collect(s, customer, StillOpen(s, order), amount, request);
      && again.Collected?
      && (again.store == s <==>
            Sum(parts) < amount || (k < |order| && parts[k] > 0 && dues[k] - parts[k] >= amount))
  {
    hide Inv, Sum, StillOpen, Absorbed, PayBills, Finish, KeyUsed, AfterParts;
    OpenRest(s, customer, order);
    UnchangedExactlyIfAbsorbed(s, customer, StillOpen(s, order), amount, request);
    AbsorbedAfter(s, order, dues, parts, k, amount, request);
  }

  lemma SeenFromReplay(s: Store, s1: Store, s': Store, customer: nat, order: seq<nat>, amount: int, request: nat)
    requires Inv(s) && Bills(s, customer, order) && Fresh(s, request) && amount > 0
    requires Booked(s, s1, order, Parts(Dues(s, order), amount), request)
    requires s'.invoices == s1.invoices && |s'.wallets| == |s.wallets|
    requires forall key: Key :: KeyUsed(s'.payments, key) <==>
               KeyUsed(s1.payments, key) || (Sum(Parts(Dues(s, order), amount)) < amount && key == AgentWallet(request))
    ensures AfterParts(s', order, Dues(s, order), Parts(Dues(s, order), amount), request)
    ensures forall j :: 0 <= j < |order| ==> order[j] < |s'.invoices| && s'.invoices[order[j]].customer == customer
    ensures KeyUsed(s'.payments, AgentWallet(request)) <==> Sum(Parts(Dues(s, order), amount)) < amount
  {
    hide KeyUsed, Parts, Sum, Inv, Booked, Fresh;
    var dues, parts := Dues(s, order), Parts(Dues(s, order), amount);
    FreshMeans(s, order, request);
    DuesOpen(s, customer, order);
    var k := PartsArePrefix(dues, amount);
    BookedWallets(s, s1, order, parts, request);
    forall j | 0 <= j < |order|
      ensures order[j] < |s'.invoices| && s'.invoices[order[j]].customer == customer
      ensures 0 <= parts[j] <= dues[j]
      ensures Owed(s'.invoices[order[j]]) == dues[j] - parts[j]
      ensures Unpaid(s'.invoices[order[j]].status) <==> (dues[j] == 0 || parts[j] < dues[j])
      ensures KeyUsed(s'.payments, AgentBill(request, order[j])) <==> parts[j] > 0
    {
      assert OpenBill(s, customer, order[j]);
      BillSeen(s, s1, order, parts, request, j);
      assert AgentBill(request, order[j]) != AgentWallet(request);
    }
  }

  lemma BillSeen(s: Store, s1: Store, order: seq<nat>, parts: seq<int>, request: nat, j: nat)
    requires Booked(s, s1, order, parts, request) && j < |order|
    requires forall a, b :: 0 <= a < b < |order| ==> order[a] != order[b]
    requires !KeyUsed(s.payments, AgentBill(request, order[j]))
    ensures |s1.invoices| == |s.invoices| && order[j] < |s.invoices|
    ensures s1.invoices[order[j]] == Billed(s.invoices[order[j]], parts[j])
    ensures KeyUsed(s1.payments, AgentBill(request, order[j])) <==> parts[j] > 0
  {
    hide KeyUsed;
    DistinctBills(order, parts, request, j);
  }

  lemma DistinctBills(order: seq<nat>, parts: seq<int>, request: nat, j: nat)
    requires |parts| == |order| && j < |order|
    requires forall a, b :: 0 <= a < b < |order| ==> order[a] != order[b]
    ensures (exists i :: 0 <= i < |order| && parts[i] > 0 && AgentBill(request, order[j]) == AgentBill(request, order[i]))
       <==> parts[j] > 0
  {
    if i :| 0 <= i < |order| && parts[i] > 0 && AgentBill(request, order[j]) == AgentBill(request, order[i]) {
      assert order[i] == order[j];
    }
  }

  lemma {:induction false} OpenRest(s: Store, customer: nat, order: seq<nat>)
    requires forall j :: 0 <= j < |order| ==> order[j] < |s.invoices| && s.invoices[order[j]].customer == customer
    requires forall j, k :: 0 <= j < k < |order| ==> order[j] != order[k]
    ensures Bills(s, customer, StillOpen(s, order))
    decreases |order|
  {
    if |order| > 0 {
      OpenRest(s, customer, order[1..]);
      var rest := StillOpen(s, order[1..]);
      assert order[0] !in order[1..];
      assert forall j :: 0 <= j < |rest| ==> rest[j] != order[0];
    }
  }

  lemma DueOrderBills(s: Store, customer: nat, order: seq<nat>)
    requires DueOrder(s, customer, order)
    ensures Bills(s, customer, order)
  {
  }

  /** Booking changes what a bill has been paid, not whose it is or when it is due. */
  ghost predicate SameQuery(s: Store, s': Store, order: seq<nat>) {
    && |s'.invoices| == |s.invoices|
    && (forall i :: 0 <= i < |s.invoices| ==>
          s'.invoices[i].customer == s.invoices[i].customer && s'.invoices[i].due == s.invoices[i].due)
    && (forall i :: 0 <= i < |s.invoices| && i !in order ==> s'.invoices[i] == s.invoices[i])
  }

  lemma SameBills(s: Store, s': Store, order: seq<nat>, parts: seq<int>, request: nat)
    requires Booked(s, s', order, parts, request)
    ensures SameQuery(s, s', order)
  {
    hide KeyUsed;
    forall i | 0 <= i < |s.invoices|
      ensures s'.invoices[i].customer == s.invoices[i].customer && s'.invoices[i].due == s.invoices[i].due
    {
      if i in order {
        var j :| 0 <= j < |order| && order[j] == i;
        assert s'.invoices[order[j]] == Billed(s.invoices[order[j]], parts[j]);
      }
    }
  }

  /** What the query of the replay returns: the bills of the first one that are still open, in the
      same order. */
  lemma SecondQuery(s: Store, s': Store, customer: nat, order: seq<nat>)
    requires DueOrder(s, customer, order) && SameQuery(s, s', order)
    ensures DueOrder(s', customer, StillOpen(s', order))
  {
    hide StillOpen;
    forall j | 0 <= j < |order|
      ensures order[j] < |s'.invoices| && s'.invoices[order[j]].customer == customer
    {
      assert OpenBill(s, customer, order[j]);
    }
    OpenRest(s', customer, order);
    StillOpenInOrder(s', order);
    forall i: nat | OpenBill(s', customer, i)
      ensures i in StillOpen(s', order)
    {
      assert i in order || OpenBill(s, customer, i);
      OpenStays(s', order, i);
    }
  }

  ghost predicate ByDue(s: Store, order: seq<nat>) {
    && (forall j :: 0 <= j < |order| ==> order[j] < |s.invoices|)
    && forall j, k :: 0 <= j < k < |order| ==> s.invoices[order[j]].due <= s.invoices[order[k]].due
  }

  lemma ByDueRest(s: Store, order: seq<nat>)
    requires ByDue(s, order) && |order| > 0
    ensures ByDue(s, order[1..])
    ensures forall i :: i in order[1..] ==> s.invoices[order[0]].due <= s.invoices[i].due
  {
  }

  lemma ByDueCons(s: Store, first: nat, rest: seq<nat>)
    requires ByDue(s, rest) && first < |s.invoices|
    requires forall i :: i in rest ==> s.invoices[first].due <= s.invoices[i].due
    ensures ByDue(s, [first] + rest)
  {
  }

  lemma {:induction false} StillOpenInOrder(s: Store, order: seq<nat>)
    requires ByDue(s, order)
    ensures ByDue(s, StillOpen(s, order))
    decreases |order|
  {
    if |order| > 0 {
      var first, rest := order[0], StillOpen(s, order[1..]);
      assert StillOpen(s, order) == (if Unpaid(s.invoices[first].status) then [first] + rest else rest);
      ByDueRest(s, order);
      StillOpenInOrder(s, order[1..]);
      assert forall i :: i in rest ==> i in order[1..];
      assert first < |s.invoices|;
      hide StillOpen, Unpaid, ByDue;
      ByDueCons(s, first, rest);
    }
  }

  lemma {:induction false} OpenStays(s: Store, order: seq<nat>, i: nat)
    requires (forall j :: 0 <= j < |order| ==> order[j] < |s.invoices|) && i in order && Unpaid(s.invoices[i].status)
    ensures i in StillOpen(s, order)
    decreases |order|
  {
    if i != order[0] {
      OpenStays(s, order[1..], i);
    }
  }
}
