/** Tax rounding in whole minor units (packages/billing/src/money.ts): tax on a net amount, and the
    net amount of a price quoted tax included, as add-on invoices need it
    (packages/billing/src/invoice.service.ts). Rates are whole percents, as the schema stores them;
    on these magnitudes the source's divisions and roundings are exact. */
module Tax {
  import Digits
  import opened Optional

  /** Math.round(a / b): the nearest whole number, halves up. */
  function RoundDiv(a: nat, b: nat): nat
    requires b >= 1
  {
    (2 * a + b) / (2 * b)
  }

  function TaxAmount(subtotal: nat, percent: Option<nat>): nat {
    if percent.None? || percent.value == 0 then 0 else RoundDiv(subtotal * percent.value, 100)
  }

  /** An invoice's total. */
  function Total(net: nat, percent: Option<nat>): nat {
    net + TaxAmount(net, percent)
  }

  /** The candidate list of the source, tried in order. */
  function FirstExact(candidates: seq<int>, gross: nat, percent: Option<nat>): Option<nat> {
    if |candidates| == 0 then None
    else if candidates[0] >= 0 && Total(candidates[0], percent) == gross then Some(candidates[0])
    else FirstExact(candidates[1..], gross, percent)
  }

  function Guess(gross: nat, rate: nat): nat {
    RoundDiv(gross * 100, 100 + rate)
  }

  function Candidates(guess: int): seq<int> {
    [guess, guess - 1, guess + 1, guess - 2, guess + 2]
  }

  function NetFromGross(gross: nat, percent: Option<nat>): nat {
    if percent.None? || percent.value == 0 then gross
    else
      match FirstExact(Candidates(Guess(gross, percent.value)), gross, percent)
      case Some(net) => net
      case None => gross * 100 / (100 + percent.value)
  }

  // ---------------------------------------------------------------------------------------

  /** Twice the taxed amount is within 100 of 200 times the total, in units of 1/200. */
  lemma TotalBounds(net: nat, rate: nat)
    requires rate >= 1
    ensures var total := Total(net, Some(rate));
      200 * total - 100 <= 2 * (net * (100 + rate)) < 200 * total + 100
  {
    var x := net * rate;
    assert TaxAmount(net, Some(rate)) == (2 * x + 100) / 200;
    assert net * (100 + rate) == 100 * net + x;
  }

  lemma GuessBounds(gross: nat, rate: nat)
    ensures var d := 100 + rate;
      2 * (Guess(gross, rate) * d) <= 200 * gross + d < 2 * (Guess(gross, rate) * d) + 2 * d
  {
    var d, a := 100 + rate, 2 * (gross * 100) + (100 + rate);
    var q := a / (2 * d);
    assert a == q * (2 * d) + a % (2 * d);
    assert q * (2 * d) == 2 * (q * d);
  }

  /** A net amount with the right total can only be the first guess: the search behind it finds
      nothing the guess missed. */
  lemma ExactIsTheGuess(net: nat, gross: nat, rate: nat)
    requires rate >= 1 && Total(net, Some(rate)) == gross
    ensures net == Guess(gross, rate)
  {
    TotalBounds(net, rate);
    GuessBounds(gross, rate);
    var d, guess := 100 + rate, Guess(gross, rate);
    var gap := net - guess;
    assert gap * d == net * d - guess * d;
    assert -2 * d < 2 * (gap * d) < 2 * d;
    Digits.MulGrows(gap, d);
  }

  lemma {:induction false} FirstExactIsExact(candidates: seq<int>, gross: nat, percent: Option<nat>)
    ensures FirstExact(candidates, gross, percent).Some? ==> Total(FirstExact(candidates, gross, percent).value, percent) == gross
    ensures |candidates| > 0 && candidates[0] >= 0 && Total(candidates[0], percent) == gross ==>
              FirstExact(candidates, gross, percent) == Some(candidates[0])
    decreases |candidates|
  {
    if |candidates| > 0 {
      FirstExactIsExact(candidates[1..], gross, percent);
    }
  }

  /** The result is the one net amount whose total is the quoted price, whenever there is one. */
  lemma NetIsExact(gross: nat, percent: Option<nat>, net: nat)
    requires Total(net, percent) == gross
    ensures NetFromGross(gross, percent) == net
  {
    hide Total, Guess;
    if percent.Some? && percent.value >= 1 {
      ExactIsTheGuess(net, gross, percent.value);
      var guess := Guess(gross, percent.value);
      FirstExactIsExact(Candidates(guess), gross, percent);
    } else {
      NoTax(net, percent);
    }
  }

  lemma NoTax(net: nat, percent: Option<nat>)
    requires percent.None? || percent.value == 0
    ensures Total(net, percent) == net
  {
  }

  lemma RoundedDown(gross: nat, rate: nat)
    requires rate >= 1
    ensures var net := gross * 100 / (100 + rate);
      Total(net, Some(rate)) <= gross <= Total(net + 1, Some(rate))
  {
    var d, a := 100 + rate, gross * 100;
    var net := a / d;
    assert a == net * d + a % d;
    assert (net + 1) * d == net * d + d;
    TotalBounds(net, rate);
    TotalBounds(net + 1, rate);
    HalfUp(net, gross, rate);
    HalfUp(net + 1, gross, rate);
  }

  /** An amount at or below (above) the gross before rounding stays there after it. */
  lemma HalfUp(net: nat, gross: nat, rate: nat)
    requires rate >= 1
    ensures net * (100 + rate) <= 100 * gross ==> Total(net, Some(rate)) <= gross
    ensures net * (100 + rate) >= 100 * gross ==> Total(net, Some(rate)) >= gross
  {
    var x := net * rate;
    assert net * (100 + rate) == 100 * net + x;
    assert Total(net, Some(rate)) == net + (2 * x + 100) / 200;
  }

  lemma TotalMonotone(a: nat, b: nat, rate: nat)
    requires a <= b
    ensures Total(a, Some(rate)) + (b - a) <= Total(b, Some(rate))
  {
    var x, y := a * rate, b * rate;
    assert y == x + (b - a) * rate;
    assert (b - a) * rate >= 0;
    if rate > 0 {
      assert Total(a, Some(rate)) == a + (2 * x + 100) / 200;
      assert Total(b, Some(rate)) == b + (2 * y + 100) / 200;
    }
  }

  /** When no net amount gives the price exactly, the result is the largest one below it. */
  lemma OtherwiseLargestBelow(gross: nat, percent: Option<nat>, other: nat)
    requires forall net: nat :: Total(net, percent) != gross
    ensures Total(NetFromGross(gross, percent), percent) < gross
    ensures other > NetFromGross(gross, percent) ==> Total(other, percent) > gross
  {
    hide Total, Guess;
    if percent.None? || percent.value == 0 {
      NoTax(gross, percent);
    } else {
      var rate := percent.value;
      var guess := Guess(gross, rate);
      FirstExactIsExact(Candidates(guess), gross, percent);
      var net := gross * 100 / (100 + rate);
      RoundedDown(gross, rate);
      assert Total(net, percent) != gross && Total(net + 1, percent) != gross;
      if other > net {
        TotalMonotone(net + 1, other, rate);
      }
    }
  }

  /** A price quoted tax included is what the add-on invoice asks for, unless no invoice could. */
  lemma AddOnInvoiceTotal(price: nat, percent: Option<nat>)
    ensures Total(NetFromGross(price, percent), percent) == price
       <==> exists net: nat :: Total(net, percent) == price
  {
    hide Total, NetFromGross;
    if net: nat :| Total(net, percent) == price {
      NetIsExact(price, percent, net);
    }
  }
}
