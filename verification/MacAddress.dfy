/** Spellings of a phone's MAC address (packages/network/src/hotspot-device.service.ts). */
module MacAddress {
  import opened Optional
  import Text

  predicate IsHexDigit(c: char) {
    '0' <= c <= '9' || 'a' <= c <= 'f' || 'A' <= c <= 'F'
  }

  predicate IsSeparator(c: char) {
    c == ':' || c == '.' || c == '-' || Text.IsSpace(c)
  }

  function Stripped(s: string): (r: string)
    ensures |r| <= |s|
    ensures forall i :: 0 <= i < |r| ==> !IsSeparator(r[i])
  {
    if |s| == 0 then "" else (if IsSeparator(s[0]) then "" else [s[0]]) + Stripped(s[1..])
  }

  function Uppercase(s: string): (r: string)
    ensures |r| == |s|
  {
    seq(|s|, i requires 0 <= i < |s| => Text.Upper(s[i]))
  }

  /** Pairs of characters, joined by colons. */
  function Paired(s: string): string {
    if |s| <= 2 then s else s[..2] + ":" + Paired(s[2..])
  }

  predicate IsMac(hex: string) {
    |hex| == 12 && forall i :: 0 <= i < |hex| ==> IsHexDigit(hex[i])
  }

  function NormalizeMac(value: string): Option<string> {
    var hex := Stripped(Text.Trim(value));
    if IsMac(hex) then Some(Paired(Uppercase(hex))) else None
  }

  function NormalizeSome(value: Option<string>): Option<string> {
    match value
    case None => None
    case Some(s) => NormalizeMac(s)
  }

  /** Text with fewer than twelve characters is no MAC address: no voucher code is one. */
  lemma ShortIsNoMac(s: string)
    requires |s| < 12
    ensures NormalizeMac(s) == None
  {
    TrimIsInside(s);
  }

  lemma {:induction false} TrimIsInside(s: string)
    ensures |Text.Trim(s)| <= |s|
    ensures Stripped(Text.Trim(s)) == Stripped(s)
    decreases |s|
  {
    if |s| > 0 {
      if Text.IsSpace(s[0]) {
        TrimIsInside(s[1..]);
      } else if Text.IsSpace(s[|s| - 1]) {
        TrimIsInside(s[..|s| - 1]);
        StrippedAppend(s[..|s| - 1], s[|s| - 1]);
        assert s == s[..|s| - 1] + [s[|s| - 1]];
      }
    }
  }

  lemma {:induction false} StrippedAppend(s: string, c: char)
    ensures Stripped(s + [c]) == Stripped(s) + (if IsSeparator(c) then "" else [c])
    decreases |s|
  {
    if |s| == 0 {
      assert s + [c] == [c];
      assert [c][1..] == "";
    } else {
      StrippedAppend(s[1..], c);
      assert (s + [c])[1..] == s[1..] + [c];
    }
  }

  lemma {:induction false} StrippedPaired(hex: string)
    requires forall i :: 0 <= i < |hex| ==> !IsSeparator(hex[i])
    ensures Stripped(Paired(hex)) == hex
    decreases |hex|
  {
    if |hex| <= 2 {
      NothingToStrip(hex);
    } else {
      PairedFront(hex);
      ColonSeparates();
      hide IsSeparator, Stripped, Paired;
      var rest := Paired(hex[2..]);
      StrippedPaired(hex[2..]);
      StrippedFront(':', rest);
      StrippedFront(hex[1], ":" + rest);
      StrippedFront(hex[0], [hex[1]] + (":" + rest));
      assert "" + hex[2..] == hex[2..];
      assert hex == [hex[0]] + ([hex[1]] + hex[2..]);
    }
  }

  lemma PairedFront(hex: string)
    requires |hex| > 2
    ensures Paired(hex) == [hex[0]] + ([hex[1]] + (":" + Paired(hex[2..])))
  {
    assert Paired(hex) == hex[..2] + ":" + Paired(hex[2..]);
    hide Paired;
    assert hex[..2] == [hex[0], hex[1]];
    Regroup(hex[0], hex[1], Paired(hex[2..]));
  }

  lemma Regroup(a: char, b: char, rest: string)
    ensures [a, b] + ":" + rest == [a] + ([b] + (":" + rest))
  {
  }

  lemma ColonSeparates()
    ensures IsSeparator(':')
  {
  }

  lemma StrippedFront(c: char, s: string)
    ensures Stripped([c] + s) == (if IsSeparator(c) then "" else [c]) + Stripped(s)
  {
    assert ([c] + s)[1..] == s;
  }

  lemma {:induction false} NothingToStrip(s: string)
    requires forall i :: 0 <= i < |s| ==> !IsSeparator(s[i])
    ensures Stripped(s) == s
    decreases |s|
  {
    if |s| > 0 {
      NothingToStrip(s[1..]);
      assert s == [s[0]] + s[1..];
    }
  }

  /** The normal form still holds the digits, in upper case. */
  lemma DigitsOf(value: string)
    requires NormalizeMac(value).Some?
    ensures NormalizeMac(value).value == Paired(Uppercase(Stripped(value)))
    ensures Stripped(NormalizeMac(value).value) == Uppercase(Stripped(value))
  {
    hide Stripped, Text.Trim, Paired;
    TrimIsInside(value);
    StrippedPaired(Uppercase(Stripped(value)));
  }

  /** Text is an address exactly when, separators aside, it is twelve hexadecimal digits. */
  lemma TwelveDigits(value: string)
    ensures NormalizeMac(value).Some?
       <==> |Stripped(value)| == 12 && forall i :: 0 <= i < |Stripped(value)| ==> Stripped(value)[i] in "0123456789abcdefABCDEF"
  {
    hide Stripped, Text.Trim, Paired, IsHexDigit;
    TrimIsInside(value);
    forall c: char
      ensures IsHexDigit(c) <==> c in "0123456789abcdefABCDEF"
    {
      HexDigits(c);
    }
  }

  /** It is stored as six pairs of them, in upper case, with colons between. */
  lemma StoredAsPairs(value: string, i: nat)
    requires NormalizeMac(value).Some? && i < 6
    ensures var h, mac := Stripped(value), NormalizeMac(value).value;
      && |h| == 12 && |mac| == 17 && (i < 5 ==> mac[3 * i + 2] == ':')
      && Same(h[2 * i], mac[3 * i]) && Same(h[2 * i + 1], mac[3 * i + 1])
  {
    hide Stripped, Text.Trim, Paired;
    TrimIsInside(value);
    PairAt(Uppercase(Stripped(value)), 6, i);
  }

  /** The digit `d` in the spelling stored. */
  predicate Same(c: char, d: char) {
    if 'a' <= c <= 'f' then d as int - 'A' as int == c as int - 'a' as int else d == c
  }

  lemma HexDigits(c: char)
    ensures IsHexDigit(c) <==> c in "0123456789abcdefABCDEF"
  {
  }

  lemma {:induction false} PairAt(h: string, n: nat, i: nat)
    requires |h| == 2 * n && i < n
    ensures |Paired(h)| == 3 * n - 1
    ensures Paired(h)[3 * i] == h[2 * i] && Paired(h)[3 * i + 1] == h[2 * i + 1]
    ensures i < n - 1 ==> Paired(h)[3 * i + 2] == ':'
    decreases n
  {
    if n > 1 {
      PairAt(h[2..], n - 1, if i > 0 then i - 1 else 0);
      PairedFront(h);
      hide Paired;
    }
  }

  /** The normal form is a spelling of the same address: normalizing it again changes nothing. */
  lemma NormalFormIsStable(value: string)
    requires NormalizeMac(value).Some?
    ensures NormalizeMac(NormalizeMac(value).value) == NormalizeMac(value)
  {
    hide Stripped, Text.Trim, Paired, IsSeparator;
    DigitsOf(value);
    TrimIsInside(value);
    TrimIsInside(NormalizeMac(value).value);
    var upper := Uppercase(Stripped(value));
    assert Uppercase(upper) == upper;
  }

  /** Two spellings mean the same phone exactly when they hold the same twelve digits, however
      those are grouped, separated or cased. */
  lemma SamePhone(a: string, b: string)
    requires NormalizeMac(a).Some? && NormalizeMac(b).Some?
    ensures NormalizeMac(a) == NormalizeMac(b) <==> Uppercase(Stripped(a)) == Uppercase(Stripped(b))
  {
    hide Stripped, Text.Trim, Paired, IsSeparator;
    DigitsOf(a);
    DigitsOf(b);
  }
}
