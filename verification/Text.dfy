/** Splitting text at a character and joining it again. */
module Text {

  function Split(s: string, sep: char): (parts: seq<string>)
    ensures |parts| >= 1
    ensures forall i :: 0 <= i < |parts| ==> sep !in parts[i]
  {
    if |s| == 0 then [""]
    else
      var rest := Split(s[1..], sep);
      if s[0] == sep then [""] + rest else [[s[0]] + rest[0]] + rest[1..]
  }

  function Join(parts: seq<string>, sep: string): string {
    if |parts| == 0 then ""
    else if |parts| == 1 then parts[0]
    else parts[0] + sep + Join(parts[1..], sep)
  }

  lemma {:induction false} SplitAfter(part: string, rest: string, sep: char)
    requires sep !in part
    ensures Split(part + [sep] + rest, sep) == [part] + Split(rest, sep)
    decreases |part|
  {
    var s := part + [sep] + rest;
    if |part| == 0 {
      assert s[1..] == rest;
    } else {
      assert s[1..] == part[1..] + [sep] + rest;
      SplitAfter(part[1..], rest, sep);
      assert [part[0]] + part[1..] == part;
    }
  }

  lemma {:induction false} SplitWhole(part: string, sep: char)
    requires sep !in part
    ensures Split(part, sep) == [part]
    decreases |part|
  {
    if |part| > 0 {
      SplitWhole(part[1..], sep);
      assert [part[0]] + part[1..] == part;
    }
  }

  /** Splitting finds exactly the parts joined. */
  lemma {:induction false} SplitJoin(parts: seq<string>, sep: char)
    requires |parts| >= 1 && forall i :: 0 <= i < |parts| ==> sep !in parts[i]
    ensures Split(Join(parts, [sep]), sep) == parts
    decreases |parts|
  {
    if |parts| == 1 {
      SplitWhole(parts[0], sep);
    } else {
      SplitJoin(parts[1..], sep);
      SplitAfter(parts[0], Join(parts[1..], [sep]), sep);
    }
  }

  predicate StartsWith(s: string, prefix: string) {
    prefix <= s
  }

  predicate EndsWith(s: string, suffix: string) {
    |suffix| <= |s| && s[|s| - |suffix|..] == suffix
  }

  /** One global replace of a character. */
  function Replace(s: string, c: char, r: string): string {
    if |s| == 0 then "" else (if s[0] == c then r else [s[0]]) + Replace(s[1..], c, r)
  }

  /** What JavaScript's \s and trim count as white space. */
  predicate IsSpace(c: char) {
    c == ' ' || '\t' <= c <= '\r' || c == '\U{00A0}' || c == '\U{1680}' || '\U{2000}' <= c <= '\U{200A}'
    || c == '\U{2028}' || c == '\U{2029}' || c == '\U{202F}' || c == '\U{205F}' || c == '\U{3000}' || c == '\U{FEFF}'
  }

  function Trim(s: string): string {
    if |s| == 0 then ""
    else if IsSpace(s[0]) then Trim(s[1..])
    else if IsSpace(s[|s| - 1]) then Trim(s[..|s| - 1])
    else s
  }

  /** Section 12.2 and 12.3 of ECMA-262: white space and line ends. */
  lemma WhiteSpace(c: char)
    ensures IsSpace(c)
       <==> c in "\t\n\U{000B}\U{000C}\r \U{00A0}\U{1680}\U{2000}\U{2001}\U{2002}\U{2003}\U{2004}\U{2005}\U{2006}\U{2007}\U{2008}\U{2009}\U{200A}\U{2028}\U{2029}\U{202F}\U{205F}\U{3000}\U{FEFF}"
  {
  }

  /** Trimming takes the white space around a text, all of it and nothing else. */
  lemma {:induction false} TrimTakesSpace(before: string, s: string, after: string)
    requires forall i :: 0 <= i < |before| ==> IsSpace(before[i])
    requires forall i :: 0 <= i < |after| ==> IsSpace(after[i])
    requires s != "" ==> !IsSpace(s[0]) && !IsSpace(s[|s| - 1])
    ensures Trim(before + s + after) == s
    decreases |before| + |after|
  {
    hide IsSpace;
    if before != "" {
      TrimTakesSpace(before[1..], s, after);
      assert (before + s + after)[1..] == before[1..] + s + after;
    } else if after != "" {
      var n := |after| - 1;
      TrimTakesSpace("", s, if s == "" then after[1..] else after[..n]);
      assert "" + s + after == s + after;
      if s == "" {
        assert (s + after)[1..] == "" + s + after[1..];
      } else {
        assert (s + after)[..|s| + n] == "" + s + after[..n];
      }
    }
  }

  /** Upper case of ASCII letters. */
  function Upper(c: char): char {
    if 'a' <= c <= 'z' then (c as int - 32) as char else c
  }

  // Decimal numerals.

  predicate AllDigits(s: string) {
    forall i :: 0 <= i < |s| ==> '0' <= s[i] <= '9'
  }

  function Number(s: string): nat
    requires AllDigits(s)
  {
    if |s| == 0 then 0 else Number(s[..|s| - 1]) * 10 + (s[|s| - 1] as int - '0' as int)
  }

  function Decimal(n: nat): (s: string)
    ensures |s| >= 1 && AllDigits(s)
  {
    var digit := ('0' as int + n % 10) as char;
    if n < 10 then [digit] else Decimal(n / 10) + [digit]
  }

  lemma {:induction false} NumberDecimal(n: nat)
    ensures Number(Decimal(n)) == n
  {
    var s := Decimal(n);
    if n < 10 {
      assert s[..0] == "" && Number("") == 0;
    } else {
      NumberDecimal(n / 10);
      assert s[..|s| - 1] == Decimal(n / 10);
    }
  }

  lemma DecimalShort(n: nat)
    requires n < 1000
    ensures |Decimal(n)| <= 3
  {
    assert n >= 10 ==> Decimal(n) == Decimal(n / 10) + [('0' as int + n % 10) as char];
    assert n / 10 >= 10 ==> Decimal(n / 10) == Decimal(n / 10 / 10) + [('0' as int + n / 10 % 10) as char];
  }
}
