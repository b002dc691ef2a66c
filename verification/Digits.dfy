/** Positional numbers: big-endian digit sequences in any base, and the digits of a number.
    Every fixed-width integer the platform reads or writes (RADIUS lengths and counters, IPv4
    addresses, base32 groups) is one of these. */
module Digits {

  function Pow(base: nat, e: nat): (r: nat)
    ensures base >= 1 ==> r >= 1
    decreases e
  {
    if e == 0 then 1 else base * Pow(base, e - 1)
  }

  /** The number a big-endian digit sequence stands for. */
  function Value(base: nat, ds: seq<nat>): nat {
    if |ds| == 0 then 0 else Value(base, ds[..|ds| - 1]) * base + ds[|ds| - 1]
  }

  /** The low `len` digits of `n`, most significant first. */
  function Of(base: nat, n: nat, len: nat): (ds: seq<nat>)
    requires base >= 2
    ensures |ds| == len
    ensures forall i :: 0 <= i < len ==> ds[i] < base
    decreases len
  {
    if len == 0 then [] else Of(base, n / base, len - 1) + [n % base]
  }

  ghost predicate InBase(base: nat, ds: seq<nat>) {
    forall i :: 0 <= i < |ds| ==> ds[i] < base
  }

  lemma MulGrows(k: int, d: int)
    requires d >= 1
    ensures k >= 1 ==> k * d >= d
    ensures k <= -1 ==> k * d <= -d
  {
    if k >= 1 {
      assert k * d == (k - 1) * d + d;
      assert (k - 1) * d >= 0;
    } else if k <= -1 {
      assert k * d == (k + 1) * d - d;
      assert (k + 1) * d <= 0;
    }
  }

  lemma MulLess(a: nat, b: nat, c: nat)
    requires a < b && c >= 1
    ensures a * c < b * c
  {
    MulGrows(b - a, c);
    assert (b - a) * c == b * c - a * c;
  }

  /** A number below q * p has a quotient by p below q. */
  lemma DivLess(n: nat, q: nat, p: nat)
    requires p >= 1 && n < q * p
    ensures n / p < q
  {
    var d := n / p;
    assert n == d * p + n % p;
    MulGrows(d - q, p);
    assert (d - q) * p == d * p - q * p;
  }

  /** Quotient and remainder are the only ones there are. */
  lemma DivMod(n: nat, q: nat, r: nat, d: nat)
    requires r < d && n == q * d + r
    ensures n / d == q && n % d == r
  {
    var q', r' := n / d, n % d;
    assert n == q' * d + r';
    assert (q - q') * d == r' - r;
    MulGrows(q - q', d);
  }

  lemma SmallMod(n: nat, d: nat)
    requires n < d
    ensures n % d == n && n / d == 0
  {
    DivMod(n, 0, n, d);
  }

  lemma DivLe(n: nat, d: nat)
    requires d >= 1
    ensures n / d <= n
  {
    var q := n / d;
    MulAtLeast(q, d);
    assert n == q * d + n % d;
  }

  lemma MulAtLeast(q: nat, d: nat)
    requires d >= 1
    ensures q <= q * d
  {
  }

  /** Reducing modulo a product keeps the low digit and reduces the rest. */
  lemma ModProduct(n: nat, base: nat, p: nat)
    requires base >= 1 && p >= 1
    ensures base * p >= 1
    ensures n % (base * p) == ((n / base) % p) * base + n % base
    ensures n / (base * p) == (n / base) / p
  {
    var hi, lo := n / base, n % base;
    var q, m := hi / p, hi % p;
    Regroup(q, p, m, base, lo);
    TwoDigits(m, p, lo, base);
    DivMod(n, q, m * base + lo, base * p);
  }

  lemma Regroup(q: nat, p: nat, m: nat, base: nat, lo: nat)
    ensures (q * p + m) * base + lo == q * (base * p) + (m * base + lo)
  {
    assert (q * p + m) * base == (q * p) * base + m * base;
    assert (q * p) * base == q * (base * p);
  }

  lemma TwoDigits(hi: nat, hiBase: nat, lo: nat, loBase: nat)
    requires hi < hiBase && lo < loBase
    ensures hi * loBase + lo < loBase * hiBase
  {
    MulGrows(hiBase - hi, loBase);
    assert (hiBase - hi) * loBase == loBase * hiBase - hi * loBase;
  }

  lemma ModMod(n: nat, base: nat, p: nat)
    requires base >= 1 && p >= 1
    ensures base * p >= 1
    ensures (n % (base * p)) % base == n % base
    ensures (n % (base * p)) / base == (n / base) % p
  {
    ModProduct(n, base, p);
    DivMod(n % (base * p), (n / base) % p, n % base, base);
  }

  /** Reading a window of digits below the cut is unaffected by the cut. */
  lemma ModWindow(n: nat, a: nat, b: nat, c: nat)
    requires a >= 1 && b >= 1 && c >= 1
    ensures b * c >= 1 && a * (b * c) >= 1
    ensures ((n % (a * (b * c))) / a) % b == (n / a) % b
  {
    ModMod(n / a, b, c);
    ModMod(n, a, b * c);
  }

  lemma {:induction false} PowAdd(base: nat, a: nat, b: nat)
    ensures Pow(base, a + b) == Pow(base, a) * Pow(base, b)
    decreases a
  {
    if a > 0 {
      PowAdd(base, a - 1, b);
      var x, y := Pow(base, a - 1), Pow(base, b);
      calc {
        Pow(base, a + b);
        base * Pow(base, a - 1 + b);
        base * (x * y);
        { MulAssoc(base, x, y); }
        (base * x) * y;
      }
    }
  }

  lemma MulAssoc(a: nat, b: nat, c: nat)
    ensures a * (b * c) == (a * b) * c
  {
  }

  /** Writing the low digits and reading them back is reduction modulo the base's power. */
  lemma {:induction false} ValueOf(base: nat, n: nat, len: nat)
    requires base >= 2
    ensures Pow(base, len) >= 1
    ensures Value(base, Of(base, n, len)) == n % Pow(base, len)
    decreases len
  {
    if len > 0 {
      var front := Of(base, n / base, len - 1);
      ValueOf(base, n / base, len - 1);
      ModProduct(n, base, Pow(base, len - 1));
      assert Of(base, n, len)[..len - 1] == front;
    }
  }

  /** Reading digits and writing them back, at the same width, gives the digits. */
  lemma {:induction false} OfValue(base: nat, ds: seq<nat>)
    requires base >= 2 && InBase(base, ds)
    ensures Value(base, ds) < Pow(base, |ds|)
    ensures Of(base, Value(base, ds), |ds|) == ds
    decreases |ds|
  {
    if |ds| > 0 {
      var front, last := ds[..|ds| - 1], ds[|ds| - 1];
      OfValue(base, front);
      AppendDigit(Value(base, front), last, base, Pow(base, |front|));
      assert ds == front + [last];
    }
  }

  lemma AppendDigit(v: nat, last: nat, base: nat, limit: nat)
    requires last < base && v < limit
    ensures v * base + last < base * limit
    ensures (v * base + last) / base == v && (v * base + last) % base == last
  {
    DivMod(v * base + last, v, last, base);
    TwoDigits(v, limit, last, base);
  }

  lemma Value1(base: nat, a: nat)
    ensures Value(base, [a]) == a
  {
    assert [a][..0] == [];
  }

  lemma Value2(base: nat, a: nat, b: nat)
    ensures Value(base, [a, b]) == a * base + b
  {
    Value1(base, a);
    assert [a, b][..1] == [a];
  }

  lemma Value4(base: nat, a: nat, b: nat, c: nat, d: nat)
    ensures Value(base, [a, b, c, d]) == ((a * base + b) * base + c) * base + d
  {
    assert [a, b, c, d][..3] == [a, b, c];
    assert [a, b, c][..2] == [a, b];
    Value2(base, a, b);
  }
}
