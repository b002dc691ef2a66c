/** JavaScript's 32-bit operators on unbounded integers. Every operand is first reduced to 32 bits;
    `<<`, `&`, `|`, `^` and `~` give a signed result, `>>>` an unsigned one; a shift count is
    taken modulo 32. */
module JsBits {
  import opened Digits

  const TWO_31: int := 0x8000_0000
  const TWO_32: int := 0x1_0000_0000

  function Pow2(k: nat): (r: nat)
    ensures r >= 1
  {
    Pow(2, k)
  }

  function ToUint32(x: int): (u: nat)
    ensures u < TWO_32
  {
    x % TWO_32
  }

  function ToInt32(x: int): (i: int)
    ensures -TWO_31 <= i < TWO_31
    ensures ToUint32(i) == ToUint32(x)
  {
    var u := ToUint32(x);
    if u >= TWO_31 then u - TWO_32 else u
  }

  function Shl(x: int, k: int): int {
    ToInt32(ToUint32(x) * Pow2(k % 32))
  }

  function ShrU(x: int, k: int): nat {
    ToUint32(x) / Pow2(k % 32)
  }

  function And(x: int, y: int): int {
    ToInt32(AndBits(ToUint32(x), ToUint32(y)))
  }

  function Or(x: int, y: int): int {
    ToInt32(OrBits(ToUint32(x), ToUint32(y)))
  }

  function Not(x: int): int {
    ToInt32(-x - 1)
  }

  // The three operators bit by bit, on natural numbers of any width.

  function AndBits(a: nat, b: nat): nat {
    if a == 0 || b == 0 then 0 else (a % 2) * (b % 2) + 2 * AndBits(a / 2, b / 2)
  }

  function OrBits(a: nat, b: nat): nat {
    if a == 0 then b
    else if b == 0 then a
    else (if a % 2 == 1 || b % 2 == 1 then 1 else 0) + 2 * OrBits(a / 2, b / 2)
  }

  function XorBits(a: nat, b: nat): nat {
    if a == 0 then b
    else if b == 0 then a
    else (a + b) % 2 + 2 * XorBits(a / 2, b / 2)
  }

  /** Masking with 2^k - 1 is reduction modulo 2^k. */
  lemma {:induction false} AndLow(a: nat, k: nat)
    ensures AndBits(a, Pow2(k) - 1) == a % Pow2(k)
    decreases k
  {
    if k > 0 {
      ModProduct(a, 2, Pow2(k - 1));
      assert (Pow2(k) - 1) / 2 == Pow2(k - 1) - 1;
      assert (Pow2(k) - 1) % 2 == 1;
      AndLow(a / 2, k - 1);
    }
  }

  /** `x & (2^w - 1)` on an unsigned 32-bit value. */
  lemma AndMask(x: nat, w: nat)
    requires x < TWO_32 && w <= 31
    ensures And(x, Pow2(w) - 1) == x % Pow2(w)
  {
    hide Pow, AndBits;
    assert Pow2(w) <= TWO_31 by {
      Pow2Of32();
      PowAdd(2, w, 31 - w);
      MulAtLeast(Pow2(w), Pow2(31 - w));
    }
    SmallMod(x, TWO_32);
    SmallMod(Pow2(w) - 1, TWO_32);
    AndLow(x, w);
    SmallMod(x % Pow2(w), TWO_32);
  }

  lemma ShrUFits(x: int, k: nat)
    requires k < 32
    ensures ShrU(x, k) < TWO_32
  {
    DivLe(ToUint32(x), Pow2(k));
  }

  /** Masking with the n-bit mask whose low k bits are clear rounds down to a multiple of 2^k. */
  lemma {:induction false} AndHigh(a: nat, n: nat, k: nat)
    requires k <= n && a < Pow2(n)
    ensures Pow2(k) <= Pow2(n)
    ensures AndBits(a, Pow2(n) - Pow2(k)) == a - a % Pow2(k)
    decreases k
  {
    if k == 0 {
      AndLow(a, n);
      SmallMod(a, Pow2(n));
    } else {
      var q, p := Pow2(n - 1), Pow2(k - 1);
      AndHigh(a / 2, n - 1, k - 1);
      calc {
        AndBits(a, Pow2(n) - Pow2(k));
        { AndEven(a, Pow2(n) - Pow2(k), q - p); }
        2 * AndBits(a / 2, q - p);
        2 * (a / 2 - (a / 2) % p);
        { RoundDownTwice(a, p); }
        a - a % Pow2(k);
      }
    }
  }

  lemma RoundDownTwice(a: nat, p: nat)
    requires p >= 1
    ensures a - a % (2 * p) == 2 * (a / 2 - (a / 2) % p)
  {
    ModProduct(a, 2, p);
  }

  lemma AndEven(a: nat, mask: nat, half: nat)
    requires mask == 2 * half
    ensures AndBits(a, mask) == 2 * AndBits(a / 2, half)
  {
    assert mask % 2 == 0 && mask / 2 == half;
  }

  /** Or-ing a value below 2^k into a multiple of 2^k is addition. */
  lemma {:induction false} OrDisjoint(hi: nat, lo: nat, k: nat)
    requires lo < Pow2(k)
    ensures OrBits(hi * Pow2(k), lo) == hi * Pow2(k) + lo
    decreases k
  {
    if k > 0 && hi > 0 && lo > 0 {
      var a := hi * Pow2(k);
      assert a == 2 * (hi * Pow2(k - 1));
      assert hi * Pow2(k - 1) >= 1;
      OrDisjoint(hi, lo / 2, k - 1);
    }
  }

  lemma {:induction false} XorBound(a: nat, b: nat, n: nat)
    requires a < Pow2(n) && b < Pow2(n)
    ensures XorBits(a, b) < Pow2(n)
    decreases n
  {
    if a > 0 && b > 0 {
      XorBound(a / 2, b / 2, n - 1);
    }
  }

  lemma XorSplit(a: nat, b: nat)
    ensures XorBits(a, b) % 2 == (a + b) % 2
    ensures XorBits(a, b) / 2 == XorBits(a / 2, b / 2)
  {
    if a == 0 || b == 0 {
      assert XorBits(a / 2, b / 2) == (if a == 0 then b / 2 else a / 2);
    } else {
      var rest := XorBits(a / 2, b / 2);
      assert XorBits(a, b) == (a + b) % 2 + 2 * rest;
      hide XorBits;
      DivMod(XorBits(a, b), rest, (a + b) % 2, 2);
    }
  }

  /** Bit k of a number. */
  function Bit(x: nat, k: nat): (b: nat)
    ensures b < 2
    decreases k
  {
    if k == 0 then x % 2 else Bit(x / 2, k - 1)
  }

  lemma {:induction false} XorBit(a: nat, b: nat, k: nat)
    ensures Bit(XorBits(a, b), k) == (Bit(a, k) + Bit(b, k)) % 2
    decreases k
  {
    hide XorBits;
    XorSplit(a, b);
    if k > 0 {
      XorBit(a / 2, b / 2, k - 1);
    }
  }

  /** Bit by bit, `&` is both and `|` is either. */
  lemma {:induction false} AndOrBit(a: nat, b: nat, k: nat)
    ensures Bit(AndBits(a, b), k) == 1 <==> Bit(a, k) == 1 && Bit(b, k) == 1
    ensures Bit(OrBits(a, b), k) == 1 <==> Bit(a, k) == 1 || Bit(b, k) == 1
    decreases k
  {
    hide AndBits, OrBits;
    AndSplit(a, b);
    OrSplit(a, b);
    if k > 0 {
      AndOrBit(a / 2, b / 2, k - 1);
    }
  }

  lemma AndSplit(a: nat, b: nat)
    ensures AndBits(a, b) % 2 == 1 <==> a % 2 == 1 && b % 2 == 1
    ensures AndBits(a, b) / 2 == AndBits(a / 2, b / 2)
  {
    if a > 0 && b > 0 {
      var low, rest := if a % 2 == 1 && b % 2 == 1 then 1 else 0, AndBits(a / 2, b / 2);
      assert (a % 2) * (b % 2) == low by {
        assert a % 2 == 0 || a % 2 == 1;
        assert b % 2 == 0 || b % 2 == 1;
      }
      assert AndBits(a, b) == low + 2 * rest;
      hide AndBits;
      DivMod(AndBits(a, b), rest, low, 2);
    }
  }

  lemma OrSplit(a: nat, b: nat)
    ensures OrBits(a, b) % 2 == 1 <==> a % 2 == 1 || b % 2 == 1
    ensures OrBits(a, b) / 2 == OrBits(a / 2, b / 2)
  {
    if a > 0 && b > 0 {
      var low, rest := if a % 2 == 1 || b % 2 == 1 then 1 else 0, OrBits(a / 2, b / 2);
      assert OrBits(a, b) == low + 2 * rest;
      hide OrBits;
      DivMod(OrBits(a, b), rest, low, 2);
    } else {
      assert OrBits(a / 2, b / 2) == (if a == 0 then b / 2 else a / 2);
    }
  }

  lemma SameHalves(a: nat, b: nat)
    requires a % 2 == b % 2 && a / 2 == b / 2
    ensures a == b
  {
  }

  /** Exclusive-or undoes itself. */
  lemma {:induction false} XorInvolution(a: nat, b: nat)
    ensures XorBits(XorBits(a, b), b) == a
    decreases a + b
  {
    if b > 0 && a > 0 {
      XorInvolution(a / 2, b / 2);
      XorSplit(a, b);
      XorSplit(XorBits(a, b), b);
      SameHalves(XorBits(XorBits(a, b), b), a);
    } else if b > 0 {
      XorSelf(b);
    }
  }

  lemma {:induction false} XorSelf(a: nat)
    ensures XorBits(a, a) == 0
  {
    if a > 0 {
      XorSelf(a / 2);
    }
  }

  lemma Pow2Of32()
    ensures Pow2(32) == TWO_32 && Pow2(31) == TWO_31
    ensures Pow2(24) == 0x100_0000 && Pow2(16) == 0x1_0000 && Pow2(8) == 256 && Pow2(5) == 32
  {
    assert Pow(2, 4) == 16 && Pow(2, 5) == 32;
    assert Pow(2, 8) == 256;
    PowAdd(2, 8, 8);
    PowAdd(2, 16, 8);
    PowAdd(2, 24, 8);
    PowAdd(2, 24, 7);
    assert Pow(2, 7) == 128;
  }
}
