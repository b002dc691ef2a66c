/** An agent's monthly statements: what was taken and handed over in a month, and the balance owed at
    each end (packages/billing/src/agent.service.ts). Times are UTC milliseconds; a month is counted
    from January of year 0. */
module AgentStatement {
  import Digits
  import opened Optional

  datatype Sale = Sale(at: int, amount: int, commission: int, voucher: bool)

  datatype Remittance = Remittance(at: int, amount: int)

  datatype Books = Books(sales: seq<Sale>, remittances: seq<Remittance>)

  /** Which rows a query keeps: from one instant on, before another; absent is unbounded. */
  datatype Period = Period(from: Option<int>, to: Option<int>)

  predicate Within(p: Period, at: int) {
    (p.from.Some? ==> p.from.value <= at) && (p.to.Some? ==> at < p.to.value)
  }

  datatype Totals = Totals(taken: int, commission: int, handedOver: int)

  function Plus(a: Totals, b: Totals): Totals {
    Totals(a.taken + b.taken, a.commission + b.commission, a.handedOver + b.handedOver)
  }

  const NOTHING: Totals := Totals(0, 0, 0)

  function Taken(sales: seq<Sale>, p: Period): Totals {
    if |sales| == 0 then NOTHING
    else
      var s := sales[|sales| - 1];
      Plus(Taken(sales[..|sales| - 1], p), if Within(p, s.at) then Totals(s.amount, s.commission, 0) else NOTHING)
  }

  function Handed(remittances: seq<Remittance>, p: Period): Totals {
    if |remittances| == 0 then NOTHING
    else
      var r := remittances[|remittances| - 1];
      Plus(Handed(remittances[..|remittances| - 1], p), if Within(p, r.at) then Totals(0, 0, r.amount) else NOTHING)
  }

  function Moved(b: Books, p: Period): Totals {
    Plus(Taken(b.sales, p), Handed(b.remittances, p))
  }

  function NetOwed(t: Totals): int {
    t.taken - t.commission - t.handedOver
  }

  function BalanceBefore(b: Books, before: Option<int>): int {
    NetOwed(Moved(b, Period(None, before)))
  }

  // ---------------------------------------------------------------------------------------
  // Months
  // ---------------------------------------------------------------------------------------

  const DAY: int := 86400000

  predicate Leap(year: int) {
    year % 4 == 0 && (year % 100 != 0 || year % 400 == 0)
  }

  /** Days from the start of year 0 to the start of a year. */
  function YearStart(year: int): int {
    365 * year + (year + 3) / 4 - (year + 99) / 100 + (year + 399) / 400
  }

  function MonthLength(year: int, month: int): int {
    if month == 1 then (if Leap(year) then 29 else 28)
    else if month == 3 || month == 5 || month == 8 || month == 10 then 30 else 31
  }

  /** Days from the start of the year to the start of its month, January being 0. */
  function MonthStart(year: int, month: nat): int {
    if month == 0 then 0 else MonthStart(year, month - 1) + MonthLength(year, month - 1)
  }

  /** The first instant of a month; a month past December is one of a later year. */
  function UtcMonth(year: int, month: int): int {
    (YearStart(year + month / 12) + MonthStart(year + month / 12, month % 12)) * DAY
  }

  datatype Statement = Statement(opening: int, vouchers: Totals, collections: Totals, moved: Totals, closing: int)

  function Of(sales: seq<Sale>, voucher: bool): seq<Sale> {
    if |sales| == 0 then []
    else
      var s := sales[|sales| - 1];
      Of(sales[..|sales| - 1], voucher) + if s.voucher == voucher then [s] else []
  }

  /** `month` is 1 to 12. */
  function StatementFor(b: Books, year: int, month: int): Statement {
    var p := Period(Some(UtcMonth(year, month - 1)), Some(UtcMonth(year, month)));
    var opening := BalanceBefore(b, p.from);
    var moved := Moved(b, p);
    Statement(opening, Taken(Of(b.sales, true), p), Taken(Of(b.sales, false), p), moved,
              opening + moved.taken - moved.commission - moved.handedOver)
  }

  // ---------------------------------------------------------------------------------------
  // Nothing lost between months
  // ---------------------------------------------------------------------------------------

  lemma YearLength(year: int)
    ensures YearStart(year + 1) == YearStart(year) + (if Leap(year) then 366 else 365)
  {
    Quotient(year, 4);
    Quotient(year, 100);
    Quotient(year, 400);
    Multiples(year);
    YearStep(year);
  }

  lemma YearStep(year: int)
    requires year % 400 == 0 ==> year % 100 == 0
    requires year % 100 == 0 ==> year % 4 == 0
    ensures (if Leap(year) then 1 else 0)
         == (if year % 4 == 0 then 1 else 0) - (if year % 100 == 0 then 1 else 0) + (if year % 400 == 0 then 1 else 0)
  {
  }

  lemma Multiples(n: int)
    ensures n % 400 == 0 ==> n % 100 == 0
    ensures n % 100 == 0 ==> n % 4 == 0
  {
    Divides(n, 100, 4);
    Divides(n, 4, 25);
  }

  lemma Divides(n: int, d: int, k: int)
    requires (d == 100 && k == 4) || (d == 4 && k == 25)
    ensures n % (d * k) == 0 ==> n % d == 0
  {
    var whole, part, rest := n / (d * k), n / d, n % d;
    assert n == (d * k) * whole + n % (d * k) && n == d * part + rest;
    if n % (d * k) == 0 {
      assert rest == d * (k * whole - part);
    }
  }

  /** Rounding up steps at the multiples. */
  lemma Quotient(n: int, d: int)
    requires d >= 1
    ensures (n + 1 + d - 1) / d == (n + d - 1) / d + if n % d == 0 then 1 else 0
  {
    var q, rest := n / d, n % d;
    assert n == d * q + rest;
    if rest == 0 {
      assert d * (q + 1) == d * q + d;
      DividedBy(n + d - 1, d, q, d - 1);
      DividedBy(n + d, d, q + 1, 0);
    } else {
      assert d * (q + 1) == d * q + d;
      DividedBy(n + d - 1, d, q + 1, rest - 1);
      DividedBy(n + d, d, q + 1, rest);
    }
  }

  lemma DividedBy(n: int, d: int, q: int, rest: int)
    requires d >= 1 && 0 <= rest < d && n == d * q + rest
    ensures n / d == q
  {
    var k := q - n / d;
    assert n == d * (n / d) + n % d;
    assert k * d == d * q - d * (n / d);
    Digits.MulGrows(k, d);
  }

  lemma MonthStarts(year: int)
    ensures MonthStart(year, 1) == 31
    ensures MonthStart(year, 11) == MonthStart(year, 2) + 275 && MonthStart(year, 2) == 31 + MonthLength(year, 1)
    ensures MonthStart(year, 12) == if Leap(year) then 366 else 365
  {
    assert MonthStart(year, 2) == MonthStart(year, 1) + MonthLength(year, 1);
    assert MonthStart(year, 5) == MonthStart(year, 4) + 31 == MonthStart(year, 3) + 61 == MonthStart(year, 2) + 92;
    assert MonthStart(year, 8) == MonthStart(year, 7) + 31 == MonthStart(year, 6) + 62 == MonthStart(year, 5) + 92;
    assert MonthStart(year, 11) == MonthStart(year, 10) + 30 == MonthStart(year, 9) + 61 == MonthStart(year, 8) + 91;
    assert MonthStart(year, 12) == MonthStart(year, 11) + 31;
  }

  /** The end of a month is the start of the next, a whole calendar month later, December included. */
  lemma MonthsFollow(year: int, month: int)
    requires 1 <= month <= 12
    ensures UtcMonth(year, month) == UtcMonth(year, month - 1) + MonthLength(year, month - 1) * DAY
    ensures month == 12 ==> UtcMonth(year, 12) == UtcMonth(year + 1, 0)
  {
    hide YearStart, MonthStart, MonthLength;
    if month == 12 {
      YearLength(year);
      MonthStarts(year);
      assert MonthStart(year, 12) == MonthStart(year, 11) + MonthLength(year, 11) by { NextMonthStart(year, 12); }
      assert MonthStart(year + 1, 0) == 0 by { FirstMonth(year + 1); }
    } else {
      NextMonthStart(year, month);
    }
  }

  lemma NextMonthStart(year: int, month: nat)
    requires month >= 1
    ensures MonthStart(year, month) == MonthStart(year, month - 1) + MonthLength(year, month - 1)
  {
  }

  lemma FirstMonth(year: int)
    ensures MonthStart(year, 0) == 0
  {
  }

  lemma TakenStep(sales: seq<Sale>, p: Period)
    ensures Taken(sales, p) == if |sales| == 0 then NOTHING
      else Plus(Taken(sales[..|sales| - 1], p),
                if Within(p, sales[|sales| - 1].at) then Totals(sales[|sales| - 1].amount, sales[|sales| - 1].commission, 0) else NOTHING)
  {
  }

  lemma HandedStep(remittances: seq<Remittance>, p: Period)
    ensures Handed(remittances, p) == if |remittances| == 0 then NOTHING
      else Plus(Handed(remittances[..|remittances| - 1], p),
                if Within(p, remittances[|remittances| - 1].at) then Totals(0, 0, remittances[|remittances| - 1].amount) else NOTHING)
  {
  }

  lemma {:induction false} SalesSplit(sales: seq<Sale>, at: int, to: int)
    requires at <= to
    ensures Taken(sales, Period(None, Some(to))) == Plus(Taken(sales, Period(None, Some(at))), Taken(sales, Period(Some(at), Some(to))))
    decreases |sales|
  {
    TakenStep(sales, Period(None, Some(to)));
    TakenStep(sales, Period(None, Some(at)));
    TakenStep(sales, Period(Some(at), Some(to)));
    hide Taken;
    if |sales| > 0 {
      SalesSplit(sales[..|sales| - 1], at, to);
    }
  }

  lemma {:induction false} RemittancesSplit(remittances: seq<Remittance>, at: int, to: int)
    requires at <= to
    ensures Handed(remittances, Period(None, Some(to)))
         == Plus(Handed(remittances, Period(None, Some(at))), Handed(remittances, Period(Some(at), Some(to))))
    decreases |remittances|
  {
    HandedStep(remittances, Period(None, Some(to)));
    HandedStep(remittances, Period(None, Some(at)));
    HandedStep(remittances, Period(Some(at), Some(to)));
    hide Handed;
    if |remittances| > 0 {
      RemittancesSplit(remittances[..|remittances| - 1], at, to);
    }
  }

  /** A month's closing balance is what the agent owed when the month ended. */
  lemma ClosingIsTheBalance(b: Books, year: int, month: int)
    requires 1 <= month <= 12
    ensures StatementFor(b, year, month).closing == BalanceBefore(b, Some(UtcMonth(year, month)))
  {
    hide UtcMonth, Taken, Handed, MonthLength;
    MonthsFollow(year, month);
    assert UtcMonth(year, month - 1) <= UtcMonth(year, month) by { MonthIsPositive(year, month - 1); }
    SalesSplit(b.sales, UtcMonth(year, month - 1), UtcMonth(year, month));
    RemittancesSplit(b.remittances, UtcMonth(year, month - 1), UtcMonth(year, month));
  }

  lemma MonthIsPositive(year: int, month: int)
    ensures 28 <= MonthLength(year, month) <= 31
  {
  }

  /** The month after, by calendar. */
  function Following(year: int, month: int): (int, int) {
    if month == 12 then (year + 1, 1) else (year, month + 1)
  }

  /** Each statement opens where the one before closed, over the turn of a year too. */
  lemma NextOpensWhereThisCloses(b: Books, year: int, month: int)
    requires 1 <= month <= 12
    ensures var (y, m) := Following(year, month); StatementFor(b, y, m).opening == StatementFor(b, year, month).closing
  {
    hide UtcMonth, Moved;
    ClosingIsTheBalance(b, year, month);
    MonthsFollow(year, month);
  }

  /** Over any number of consecutive statements every sale and hand-over is counted exactly once. */
  function Months(b: Books, year: int, month: int, n: nat): int
    decreases n
  {
    if n == 0 then 0
    else
      var (y, m) := Following(year, month);
      NetOwed(StatementFor(b, year, month).moved) + Months(b, y, m, n - 1)
  }

  function Later(year: int, month: int, n: nat): (int, int)
    decreases n
  {
    if n == 0 then (year, month) else var (y, m) := Following(year, month); Later(y, m, n - 1)
  }

  lemma {:induction false} StatementsChain(b: Books, year: int, month: int, n: nat)
    requires 1 <= month <= 12
    ensures var (y, m) := Later(year, month, n);
      1 <= m <= 12 && StatementFor(b, y, m).opening == StatementFor(b, year, month).opening + Months(b, year, month, n)
    decreases n
  {
    hide UtcMonth, Moved;
    if n > 0 {
      var (y, m) := Following(year, month);
      NextOpensWhereThisCloses(b, year, month);
      StatementsChain(b, y, m, n - 1);
    }
  }

  /** The two kinds of sale add up to what was taken. */
  lemma {:induction false} KindsAddUp(sales: seq<Sale>, p: Period)
    ensures Plus(Taken(Of(sales, true), p), Taken(Of(sales, false), p)) == Taken(sales, p)
    decreases |sales|
  {
    if |sales| > 0 {
      var front, last := sales[..|sales| - 1], sales[|sales| - 1];
      var row := if Within(p, last.at) then Totals(last.amount, last.commission, 0) else NOTHING;
      TakenStep(sales, p);
      OfStep(sales, true);
      OfStep(sales, false);
      hide Taken, Within, Of, Plus;
      KindsAddUp(front, p);
      TakenAppended(Of(front, last.voucher), last, p);
      Regroup(Taken(Of(front, true), p), Taken(Of(front, false), p), row);
    }
  }

  lemma Regroup(a: Totals, b: Totals, row: Totals)
    ensures Plus(Plus(a, row), b) == Plus(Plus(a, b), row) == Plus(a, Plus(b, row))
  {
  }

  lemma OfStep(sales: seq<Sale>, voucher: bool)
    requires |sales| > 0
    ensures var last := sales[|sales| - 1];
      Of(sales, voucher) == if last.voucher == voucher then Of(sales[..|sales| - 1], voucher) + [last] else Of(sales[..|sales| - 1], voucher)
  {
  }

  lemma TakenAppended(sales: seq<Sale>, s: Sale, p: Period)
    ensures Taken(sales + [s], p) == Plus(Taken(sales, p), if Within(p, s.at) then Totals(s.amount, s.commission, 0) else NOTHING)
  {
    assert (sales + [s])[..|sales|] == sales;
  }
}
