/** Byte strings, and the big-endian integers read from and written to them. */
module Bytes {
  import opened Digits

  type byte = x: nat | x < 256

  type Block = s: seq<byte> | |s| == 16 witness seq(16, _ => 0)

  const ZERO_BLOCK: Block := seq(16, _ => 0)

  /** MD5: some function to 16 bytes. */
  type Md5 = seq<byte> -> Block

  /** HMAC-MD5: some function of a key and a message to 16 bytes. */
  type Hmac = (seq<byte>, seq<byte>) -> Block

  function U16(n: nat): (s: seq<byte>)
    ensures |s| == 2
  {
    Of(256, n, 2)
  }

  function U32(n: nat): (s: seq<byte>)
    ensures |s| == 4
  {
    Of(256, n, 4)
  }

  function ReadU16(s: seq<byte>): (n: nat)
    requires |s| == 2
  {
    Value(256, s)
  }

  function ReadU32(s: seq<byte>): (n: nat)
    requires |s| == 4
  {
    Value(256, s)
  }

  lemma PowersOf256()
    ensures Pow(256, 2) == 0x1_0000 && Pow(256, 4) == 0x1_0000_0000
  {
    assert Pow(256, 2) == 256 * Pow(256, 1);
    assert Pow(256, 4) == 256 * Pow(256, 3);
    assert Pow(256, 3) == 256 * Pow(256, 2);
  }

  /** Most significant byte first. */
  lemma BigEndian(n: nat)
    requires n < 0x1_0000_0000
    ensures n < 0x1_0000 ==> U16(n) == [n / 256, n % 256]
    ensures U32(n) == [n / 0x100_0000, n / 0x1_0000 % 256, n / 256 % 256, n % 256]
  {
    assert Of(256, n / 0x100_0000, 1) == Of(256, n / 0x1_0000_0000, 0) + [n / 0x100_0000 % 256];
    assert Of(256, n / 256, 1) == Of(256, n / 0x1_0000, 0) + [n / 256 % 256];
  }

  lemma ReadBigEndian(s: seq<byte>)
    ensures |s| == 2 ==> ReadU16(s) == s[0] as int * 256 + s[1]
    ensures |s| == 4 ==> ReadU32(s) == s[0] as int * 0x100_0000 + s[1] as int * 0x1_0000 + s[2] as int * 256 + s[3]
  {
    if |s| == 2 {
      ValueOfTwo(s);
    } else if |s| == 4 {
      ValueOfTwo(s[..2]);
      assert Value(256, s[..3]) == Value(256, s[..2]) * 256 + s[2] by { assert s[..3][..2] == s[..2]; }
    }
  }

  lemma ValueOfTwo(s: seq<byte>)
    requires |s| == 2
    ensures Value(256, s) == s[0] as int * 256 + s[1]
  {
    assert Value(256, s[..1]) == Value(256, s[..1][..0]) * 256 + s[0];
  }

  lemma U16RoundTrip(n: nat)
    requires n < 0x1_0000
    ensures ReadU16(U16(n)) == n
  {
    ValueOf(256, n, 2);
    PowersOf256();
  }

  lemma U16Unique(s: seq<byte>)
    requires |s| == 2
    ensures ReadU16(s) < 0x1_0000 && U16(ReadU16(s)) == s
  {
    OfValue(256, s);
    PowersOf256();
  }

  lemma U32RoundTrip(n: nat)
    requires n < 0x1_0000_0000
    ensures ReadU32(U32(n)) == n
  {
    ValueOf(256, n, 4);
    PowersOf256();
  }
}
