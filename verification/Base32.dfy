/** Base32 for authenticator secrets (packages/auth/src/totp.ts). The source keeps its pending bits
    in a 32-bit accumulator that it shifts and ors into but never masks, so the accumulator
    overflows from the fifth byte on. The specification is positional arithmetic: the text is the
    base-32 numeral of the bytes' number, padded on the right to whole digits. */
module Base32 {
  import opened Bytes
  import opened Digits
  import opened JsBits
  import Text

  /** The alphabet, by position: A to Z, then 2 to 7. */
  function Symbol(d: nat): char
    requires d < 32
  {
    if d < 26 then ('A' as int + d) as char else ('2' as int + d - 26) as char
  }

  datatype Decoded = Decoded(data: seq<byte>) | InvalidBase32

  // ---------------------------------------------------------------------------------------
  // Specification
  // ---------------------------------------------------------------------------------------

  /** Characters for n bytes: section 6 of RFC 4648 without the padding characters. */
  function EncodedLength(n: nat): nat {
    (8 * n + 4) / 5
  }

  function DecodedLength(m: nat): nat {
    5 * m / 8
  }

  function Chars(ds: seq<nat>): (s: string)
    requires InBase(32, ds)
    ensures |s| == |ds|
  {
    seq(|ds|, i requires 0 <= i < |ds| => Symbol(ds[i]))
  }

  function Encode(data: seq<byte>): string {
    var m := EncodedLength(|data|);
    Chars(Of(32, Value(256, data) * Pow2(5 * m - 8 * |data|), m))
  }

  function IndexOf(c: char): (i: int)
    ensures -1 <= i < 32
    ensures i >= 0 ==> Symbol(i) == c
    ensures i == -1 ==> forall d | 0 <= d < 32 :: Symbol(d) != c
  {
    if 'A' <= c <= 'Z' then c as int - 'A' as int
    else if '2' <= c <= '7' then c as int - '2' as int + 26
    else -1
  }

  /** Table 3 of RFC 4648. */
  lemma Alphabet(d: nat)
    requires d < 32
    ensures Symbol(d) == "ABCDEFGHIJKLMNOPQRSTUVWXYZ234567"[d]
    ensures IndexOf(Symbol(d)) == d
  {
  }

  predicate AllInAlphabet(s: string) {
    forall i :: 0 <= i < |s| ==> IndexOf(s[i]) >= 0
  }

  function Indices(s: string): (ds: seq<nat>)
    requires AllInAlphabet(s)
    ensures |ds| == |s| && InBase(32, ds)
  {
    seq(|s|, i requires 0 <= i < |s| => IndexOf(s[i]))
  }

  function Clean(text: string): string {
    if text == [] then []
    else
      var c := Text.Upper(text[0]);
      (if Text.IsSpace(c) || c == '=' || c == '-' then [] else [c]) + Clean(text[1..])
  }

  /** The number without its last k bits. */
  function Above(n: nat, k: nat): nat {
    n / Pow2(k)
  }

  /** The leading whole bytes of the numeral; the bits after them are dropped unread. */
  function DecodeClean(s: string): Decoded {
    if AllInAlphabet(s) then
      var n := DecodedLength(|s|);
      Decoded(Of(256, Above(Value(32, Indices(s)), 5 * |s| - 8 * n), n))
    else InvalidBase32
  }

  function Decode(text: string): Decoded {
    DecodeClean(Clean(text))
  }

  /** Typed text may be grouped by white space or dashes, padded, and in either case. */
  lemma TypedAnyhow(before: string, c: char, after: string)
    ensures c in " \t\r\n-=" ==> Decode(before + [c] + after) == Decode(before + after)
    ensures 'a' <= c <= 'z' ==> Decode(before + [c] + after) == Decode(before + [(c as int - 32) as char] + after)
  {
    hide DecodeClean, Clean;
    CleanAt(before, c, after);
    CleanAt(before, Text.Upper(c), after);
    CleanChar(c);
  }

  lemma CleanChar(c: char)
    ensures c in " \t\r\n-=" ==> Clean([c]) == ""
    ensures 'a' <= c <= 'z' ==> Text.Upper(c) == (c as int - 32) as char && Clean([c]) == Clean([Text.Upper(c)])
  {
    assert [c][1..] == "" && [Text.Upper(c)][1..] == "";
  }

  lemma CleanAt(before: string, c: char, after: string)
    ensures Clean(before + [c] + after) == Clean(before) + Clean([c]) + Clean(after)
    ensures Clean([c]) == "" ==> Clean(before + [c] + after) == Clean(before + after)
  {
    hide Clean;
    CleanConcat(before + [c], after);
    CleanConcat(before, [c]);
    CleanConcat(before, after);
  }

  lemma {:induction false} CleanConcat(a: string, b: string)
    ensures Clean(a + b) == Clean(a) + Clean(b)
    decreases |a|
  {
    if a == "" {
      assert a + b == b;
    } else {
      CleanConcat(a[1..], b);
      CleanFront(a[0], a[1..]);
      CleanFront(a[0], a[1..] + b);
      assert a == [a[0]] + a[1..] && a + b == [a[0]] + (a[1..] + b);
      hide Clean;
    }
  }

  lemma CleanFront(c: char, rest: string)
    ensures Clean([c] + rest) == Clean([c]) + Clean(rest)
  {
    assert ([c] + rest)[1..] == rest && [c][1..] == "";
  }

  // ---------------------------------------------------------------------------------------
  // The unmasked accumulator
  // ---------------------------------------------------------------------------------------

  /** Shifting w bits in keeps the accumulator congruent to the whole number modulo 2^32. */
  lemma ShiftIn(value: int, n: nat, w: nat, x: nat)
    requires w == 5 || w == 8
    requires ToUint32(value) == n % TWO_32
    requires x < Pow2(w)
    ensures ToUint32(Or(Shl(value, w), x)) == (n * Pow2(w) + x) % TWO_32
  {
    hide Pow, OrBits;
    Pow2Of32();
    PowAdd(2, w, 32 - w);
    var p, q := Pow2(w), Pow2(32 - w);
    Residues(n, x, p, q);
    ShiftedResidue(value, n, p);
    assert w % 32 == w;
    assert ToUint32(Shl(value, w)) == (n % q) * p;
    OrDisjoint(n % q, x, w);
    SmallMod((n * p + x) % TWO_32, TWO_32);
    SmallMod(x, TWO_32);
  }

  lemma Residues(n: nat, x: nat, p: nat, q: nat)
    requires p >= 1 && q >= 1 && p * q == TWO_32 && x < p
    ensures (n * p) % TWO_32 == (n % q) * p
    ensures (n * p + x) % TWO_32 == (n % q) * p + x
    ensures x < TWO_32
  {
    DivMod(n * p + x, n, x, p);
    ModProduct(n * p + x, p, q);
    DivMod(n * p, n, 0, p);
    ModProduct(n * p, p, q);
    MulAtLeast(p, q);
  }

  lemma ShiftedResidue(value: int, n: nat, p: nat)
    requires ToUint32(value) == n % TWO_32
    ensures (ToUint32(value) * p) % TWO_32 == (n * p) % TWO_32
  {
    var q, r := n / TWO_32, n % TWO_32;
    var q', r' := (r * p) / TWO_32, (r * p) % TWO_32;
    calc {
      n * p;
      { assert n == q * TWO_32 + r; }
      (q * TWO_32 + r) * p;
      (q * p) * TWO_32 + r * p;
      (q * p + q') * TWO_32 + r';
    }
    DivMod(n * p, q * p + q', r', TWO_32);
  }

  /** Any w-bit window within the low 32 bits reads the true number, overflow or not. */
  lemma Window(value: int, n: nat, k: nat, w: nat)
    requires ToUint32(value) == n % TWO_32
    requires k + w <= 32 && w <= 31 && k < 32
    ensures Pow2(k) >= 1
    ensures And(ShrU(value, k), Pow2(w) - 1) == (n / Pow2(k)) % Pow2(w)
  {
    hide Pow, Pow2, And;
    WindowBits(n, k, w);
    ShrUFits(value, k);
    AndMask(ShrU(value, k), w);
  }

  lemma WindowBits(n: nat, k: nat, w: nat)
    requires k + w <= 32
    ensures Pow2(k) >= 1 && Pow2(w) >= 1
    ensures ((n % TWO_32) / Pow2(k)) % Pow2(w) == (n / Pow2(k)) % Pow2(w)
  {
    hide Pow;
    var a, b, c := Pow2(k), Pow2(w), Pow2(32 - k - w);
    assert TWO_32 == a * (b * c) by {
      Pow2Of32();
      PowAdd(2, k, 32 - k);
      PowAdd(2, w, 32 - k - w);
    }
    ModWindow(n, a, b, c);
  }

  /** What both loops keep: the accumulator holds the number read so far modulo 2^32, and all but
      its last `bits` bits have been written out as digits. */
  ghost predicate Holds(value: int, bits: nat, base: nat, ds: seq<nat>, n: int) {
    && ToUint32(value) == n % TWO_32
    && Value(base, ds) == n / Pow2(bits)
  }

  lemma HoldsNothing(base: nat)
    ensures Holds(0, 0, base, [], 0) && Value(base, []) == 0 && Chars([]) == []
  {
  }

  lemma Feed(value: int, bits: nat, base: nat, ds: seq<nat>, n: nat, w: nat, x: nat)
    requires w == 5 || w == 8
    requires x < Pow2(w)
    requires Holds(value, bits, base, ds, n)
    ensures Holds(Or(Shl(value, w), x), bits + w, base, ds, n * Pow2(w) + x)
  {
    hide Pow, Value, Or, Shl;
    ShiftIn(value, n, w, x);
    PowAdd(2, w, bits);
    LowDigitsGone(n, x, Pow2(w), Pow2(bits));
  }

  /** Dividing away the digits just added and some more is dividing the number before. */
  lemma LowDigitsGone(n: nat, x: nat, p: nat, q: nat)
    requires p >= 1 && q >= 1 && x < p
    ensures p * q >= 1 && (n * p + x) / (p * q) == n / q
  {
    ModProduct(n * p + x, p, q);
    DivMod(n * p + x, n, x, p);
  }

  /** Taking the top w of the pending bits appends one digit. */
  lemma Take(value: int, bits: nat, ds: seq<nat>, n: nat, w: nat)
    requires w == 5 || w == 8
    requires w <= bits <= 12
    requires Holds(value, bits, Pow2(w), ds, n)
    ensures 0 <= And(ShrU(value, bits - w), Pow2(w) - 1) < Pow2(w)
    ensures Holds(value, bits - w, Pow2(w), ds + [And(ShrU(value, bits - w), Pow2(w) - 1)], n)
  {
    hide Value, And, ShrU;
    Window(value, n, bits - w, w);
    TopDigit(n, bits, w);
    ValueAppend(Pow2(w), ds, (n / Pow2(bits - w)) % Pow2(w));
  }

  lemma TopDigit(n: nat, bits: nat, w: nat)
    requires w <= bits
    ensures n / Pow2(bits - w) == n / Pow2(bits) * Pow2(w) + (n / Pow2(bits - w)) % Pow2(w)
  {
    hide Pow;
    var a, b := Pow2(bits - w), Pow2(w);
    assert Pow2(bits) == a * b by {
      PowAdd(2, bits - w, w);
    }
    ModProduct(n, a, b);
  }

  lemma ValueAppend(base: nat, ds: seq<nat>, d: nat)
    ensures Value(base, ds + [d]) == Value(base, ds) * base + d
  {
    assert (ds + [d])[..|ds|] == ds;
  }

  lemma AppendChar(ds: seq<nat>, d: nat)
    requires InBase(32, ds) && d < 32
    ensures InBase(32, ds + [d])
    ensures Chars(ds + [d]) == Chars(ds) + [Symbol(d)]
  {
  }

  /** The padded character: the pending bits moved to the top of a last digit. */
  lemma Pad(value: int, bits: nat, ds: seq<nat>, n: nat)
    requires 1 <= bits <= 4
    requires Holds(value, bits, 32, ds, n)
    ensures 0 <= And(Shl(value, 5 - bits), 31) < 32
    ensures Value(32, ds + [And(Shl(value, 5 - bits), 31)]) == n * Pow2(5 - bits)
  {
    hide Pow, Pow2, And, Value;
    var p := Pow2(5 - bits);
    assert Shl(value, 5 - bits) == ToInt32(ToUint32(value) * p);
    PaddedDigit(value, n, p);
    PaddedNumber(n, bits);
    ValueAppend(32, ds, (n * p) % 32);
  }

  lemma PaddedDigit(value: int, n: nat, p: nat)
    requires ToUint32(value) == n % TWO_32
    ensures And(ToInt32(ToUint32(value) * p), 31) == (n * p) % 32
  {
    ShiftedResidue(value, n, p);
    var u := ToUint32(value) * p % TWO_32;
    Pow2Of32();
    AndMask(u, 5);
    ModMod(n * p, 32, 0x800_0000);
  }

  lemma PaddedNumber(n: nat, bits: nat)
    requires 1 <= bits <= 4
    ensures Pow2(bits) >= 1
    ensures n * Pow2(5 - bits) == n / Pow2(bits) * 32 + (n * Pow2(5 - bits)) % 32
  {
    hide Pow;
    var b, p := Pow2(bits), Pow2(5 - bits);
    var q, r := n / b, n % b;
    assert b * p == 32 by {
      PowAdd(2, bits, 5 - bits);
      Pow2Of32();
    }
    ScaleUp(q, b, r, p);
    MulLess(r, b, p);
    DivMod(n * p, q, r * p, 32);
  }

  lemma ScaleUp(q: nat, b: nat, r: nat, p: nat)
    ensures (q * b + r) * p == q * (b * p) + r * p
  {
    MulAssoc(q, b, p);
  }

  // ---------------------------------------------------------------------------------------
  // The loops
  // ---------------------------------------------------------------------------------------

  lemma Finish32(data: seq<byte>, ds: seq<nat>)
    requires InBase(32, ds)
    requires 0 <= 5 * |ds| - 8 * |data| <= 4
    requires Value(32, ds) == Value(256, data) * Pow2(5 * |ds| - 8 * |data|)
    ensures Chars(ds) == Encode(data)
  {
    hide Value, Pow, Pow2, Of, Chars;
    OfValue(32, ds);
    assert |ds| == EncodedLength(|data|);
  }

  lemma Finish256(s: string, data: seq<byte>)
    requires AllInAlphabet(s)
    requires 0 <= 5 * |s| - 8 * |data| <= 7
    requires Value(256, data) == Value(32, Indices(s)) / Pow2(5 * |s| - 8 * |data|)
    ensures DecodeClean(s) == Decoded(data)
  {
    OfValue(256, data);
  }

  method Base32Encode(buf: seq<byte>) returns (out: string)
    ensures out == Encode(buf)
  {
    hide Holds, Value, Of, Pow, Pow2, Or, And, Shl, ShrU, Chars, Encode;
    var bits, value := 0, 0;
    out := "";
    ghost var ds: seq<nat> := [];
    Pow2Of32();
    HoldsNothing(32);
    HoldsNothing(256);
    for i := 0 to |buf|
      invariant 0 <= bits <= 4
      invariant InBase(32, ds) && out == Chars(ds)
      invariant |ds| * 5 + bits == 8 * i
      invariant Holds(value, bits, 32, ds, Value(256, buf[..i]))
    {
      ghost var n := Value(256, buf[..i + 1]);
      assert buf[..i + 1] == buf[..i] + [buf[i]];
      ValueAppend(256, buf[..i], buf[i]);
      Feed(value, bits, 32, ds, Value(256, buf[..i]), 8, buf[i]);
      value := Or(Shl(value, 8), buf[i]);
      bits := bits + 8;
      while bits >= 5
        invariant 0 <= bits <= 12
        invariant InBase(32, ds) && out == Chars(ds)
        invariant |ds| * 5 + bits == 8 * (i + 1)
        invariant Holds(value, bits, 32, ds, n)
      {
        Take(value, bits, ds, n, 5);
        var d := And(ShrU(value, bits - 5), 31);
        AppendChar(ds, d);
        out := out + [Symbol(d)];
        ds := ds + [d];
        bits := bits - 5;
      }
    }
    assert buf[..|buf|] == buf;
    if bits > 0 {
      Pad(value, bits, ds, Value(256, buf));
      var d := And(Shl(value, 5 - bits), 31);
      AppendChar(ds, d);
      out := out + [Symbol(d)];
      ds := ds + [d];
    } else {
      Drained(value, 0, 32, ds, Value(256, buf));
    }
    Finish32(buf, ds);
  }

  lemma Drained(value: int, bits: nat, base: nat, ds: seq<nat>, n: nat)
    requires Holds(value, bits, base, ds, n)
    ensures Value(base, ds) == n / Pow2(bits)
    ensures bits == 0 ==> Value(base, ds) == n * Pow2(0)
  {
  }

  method Base32Decode(text: string) returns (r: Decoded)
    ensures r == Decode(text)
  {
    hide Holds, Value, Of, Pow, Pow2, Or, And, Shl, ShrU, Clean, DecodeClean;
    var clean := Clean(text);
    var bits, value := 0, 0;
    var out: seq<byte> := [];
    Pow2Of32();
    HoldsNothing(256);
    HoldsNothing(32);
    for i := 0 to |clean|
      invariant 0 <= bits <= 7
      invariant AllInAlphabet(clean[..i])
      invariant |out| * 8 + bits == 5 * i
      invariant Holds(value, bits, 256, out, Value(32, Indices(clean[..i])))
    {
      var idx := IndexOf(clean[i]);
      if idx < 0 {
        Rejected(clean, i);
        return InvalidBase32;
      }
      ghost var n := Value(32, Indices(clean[..i + 1]));
      IndicesAppend(clean, i);
      ValueAppend(32, Indices(clean[..i]), idx);
      Feed(value, bits, 256, out, Value(32, Indices(clean[..i])), 5, idx);
      value := Or(Shl(value, 5), idx);
      bits := bits + 5;
      if bits >= 8 {
        Take(value, bits, out, n, 8);
        out := out + [And(ShrU(value, bits - 8), 255)];
        bits := bits - 8;
      }
    }
    assert clean[..|clean|] == clean;
    Drained(value, bits, 256, out, Value(32, Indices(clean)));
    Finish256(clean, out);
    r := Decoded(out);
  }

  lemma Rejected(s: string, i: nat)
    requires i < |s| && IndexOf(s[i]) < 0
    ensures DecodeClean(s) == InvalidBase32
  {
  }

  lemma IndicesAppend(s: string, i: nat)
    requires i < |s| && AllInAlphabet(s[..i]) && IndexOf(s[i]) >= 0
    ensures AllInAlphabet(s[..i + 1])
    ensures Indices(s[..i + 1]) == Indices(s[..i]) + [IndexOf(s[i])]
  {
    assert s[..i + 1] == s[..i] + [s[i]];
  }

  // ---------------------------------------------------------------------------------------
  // What the pair promises
  // ---------------------------------------------------------------------------------------

  lemma SymbolIndex(d: nat)
    requires d < 32
    ensures IndexOf(Symbol(d)) == d
  {
  }

  lemma IndicesOfChars(ds: seq<nat>)
    requires InBase(32, ds)
    ensures AllInAlphabet(Chars(ds)) && Indices(Chars(ds)) == ds
  {
    forall i | 0 <= i < |ds|
      ensures IndexOf(Chars(ds)[i]) == ds[i]
    {
      SymbolIndex(ds[i]);
    }
  }

  /** Encoded text carries no character the decoder strips or changes. */
  lemma {:induction false} CleanEncoded(s: string)
    requires AllInAlphabet(s)
    ensures Clean(s) == s
  {
    if s != [] {
      assert IndexOf(s[0]) >= 0;
      CleanEncoded(s[1..]);
      assert s == [s[0]] + s[1..];
    }
  }

  lemma NumberFits(data: seq<byte>)
    ensures 0 <= 5 * EncodedLength(|data|) - 8 * |data| <= 4
    ensures Value(256, data) * Pow2(5 * EncodedLength(|data|) - 8 * |data|) < Pow(32, EncodedLength(|data|))
  {
    hide Pow, Pow2, Value;
    var n, m := |data|, EncodedLength(|data|);
    OfValue(256, data);
    PowOfPow2(8, n);
    PowOfPow2(5, m);
    PowAdd(2, 8 * n, 5 * m - 8 * n);
    Pow2Of32();
    Pow2Is();
    MulLess(Value(256, data), Pow(256, n), Pow2(5 * m - 8 * n));
  }

  lemma Pow2Is()
    ensures forall k :: Pow2(k) == Pow(2, k)
  {
  }

  lemma {:induction false} PowOfPow2(w: nat, n: nat)
    ensures Pow(Pow2(w), n) == Pow2(w * n)
    decreases n
  {
    if n > 0 {
      PowOfPow2(w, n - 1);
      PowAdd(2, w, w * (n - 1));
      assert w + w * (n - 1) == w * n;
    } else {
      assert w * n == 0;
    }
  }

  /** Decoding returns exactly the bytes encoded, at every length, and the text is ceil(8n/5) long. */
  lemma RoundTrip(data: seq<byte>)
    ensures |Encode(data)| == EncodedLength(|data|)
    ensures Decode(Encode(data)) == Decoded(data)
  {
    hide Pow, Pow2, Value, Of, Chars, Clean, DecodeClean;
    SpareBits(|data|);
    var n, m := |data|, EncodedLength(|data|);
    var p := Pow2(5 * m - 8 * n);
    var number := Value(256, data) * p;
    var ds := Of(32, number, m);
    IndicesOfChars(ds);
    CleanEncoded(Chars(ds));
    NumberFits(data);
    ValueOf(32, number, m);
    SmallMod(number, Pow(32, m));
    DivMod(number, Value(256, data), 0, p);
    Finish256(Chars(ds), data);
  }

  /** The other way round: text comes back from its bytes exactly when it is already clean, holds
      fewer than five spare bits, and those are zero. */
  lemma CanonicalText(text: string)
    ensures (Decode(text).Decoded? && Encode(Decode(text).data) == text)
       <==> (AllInAlphabet(text) && 5 * |text| % 8 < 5 && Value(32, Indices(text)) % Pow2(5 * |text| % 8) == 0)
  {
    hide Clean, DecodeClean, Encode;
    if Decode(text).Decoded? && Encode(Decode(text).data) == text {
      PaddingIsZero(Decode(text).data);
    } else if AllInAlphabet(text) && 5 * |text| % 8 < 5 && Value(32, Indices(text)) % Pow2(5 * |text| % 8) == 0 {
      ZeroPaddingReencodes(text);
    }
  }

  lemma SpareBits(n: nat)
    ensures 0 <= 5 * EncodedLength(n) - 8 * n <= 4
    ensures 5 * EncodedLength(n) % 8 == 5 * EncodedLength(n) - 8 * n
  {
  }

  lemma PaddingIsZero(data: seq<byte>)
    ensures var text := Encode(data);
      AllInAlphabet(text) && 5 * |text| % 8 < 5 && Value(32, Indices(text)) % Pow2(5 * |text| % 8) == 0
  {
    hide Pow, Pow2, Value, Of, Chars;
    var m := EncodedLength(|data|);
    var spare := 5 * m - 8 * |data|;
    SpareBits(|data|);
    var number := Value(256, data) * Pow2(spare);
    IndicesOfChars(Of(32, number, m));
    NumberFits(data);
    ValueOf(32, number, m);
    SmallMod(number, Pow(32, m));
    DivMod(number, Value(256, data), 0, Pow2(spare));
  }

  lemma ZeroPaddingReencodes(text: string)
    requires AllInAlphabet(text) && 5 * |text| % 8 < 5
    requires Value(32, Indices(text)) % Pow2(5 * |text| % 8) == 0
    ensures Decode(text).Decoded? && Encode(Decode(text).data) == text
  {
    hide Pow, Pow2, Value, Of, Clean, Encode;
    CleanEncoded(text);
    var n, spare := DecodedLength(|text|), 5 * |text| % 8;
    assert spare == 5 * |text| - 8 * n;
    Pow2Is();
    var number, p := Value(32, Indices(text)), Pow2(spare);
    var data: seq<byte> := Of(256, number / p, n);
    DecodedNumberFits(text);
    ValueOf(256, number / p, n);
    SmallMod(number / p, Pow(256, n));
    assert number == number / p * p + number % p;
    Finish32(data, Indices(text));
    CharsOfIndices(text);
  }

  lemma CharsOfIndices(s: string)
    requires AllInAlphabet(s)
    ensures Chars(Indices(s)) == s
  {
  }

  lemma DecodedNumberFits(s: string)
    requires AllInAlphabet(s)
    ensures Pow2(5 * |s| % 8) >= 1
    ensures Value(32, Indices(s)) / Pow2(5 * |s| % 8) < Pow(256, DecodedLength(|s|))
  {
    hide Pow, Pow2, Value;
    var n, spare := DecodedLength(|s|), 5 * |s| % 8;
    OfValue(32, Indices(s));
    Pow2Of32();
    Pow2Is();
    PowOfPow2(5, |s|);
    PowOfPow2(8, n);
    PowAdd(2, 8 * n, spare);
    assert 5 * |s| == 8 * n + spare;
    DivLess(Value(32, Indices(s)), Pow(256, n), Pow2(spare));
  }
}
