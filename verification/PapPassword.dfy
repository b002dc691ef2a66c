/** PAP passwords (packages/radius/src/radius-server.ts): the server's un-hiding of User-Password
    against the hiding that section 5.2 of RFC 2865 prescribes for the client. */
module PapPassword {
  import opened Bytes
  import JsBits

  function XorByte(a: byte, b: byte): byte {
    assert JsBits.XorBits(a, b) < 256 by {
      JsBits.Pow2Of32();
      JsBits.XorBound(a, b, 8);
    }
    JsBits.XorBits(a, b)
  }

  /** A block, possibly short, against the front of a digest. */
  function XorBlock(a: seq<byte>, b: Block): (r: seq<byte>)
    requires |a| <= 16
    ensures |r| == |a|
  {
    seq(|a|, i requires 0 <= i < |a| => XorByte(a[i], b[i]))
  }

  lemma XorBlockTwice(a: seq<byte>, b: Block)
    requires |a| <= 16
    ensures XorBlock(XorBlock(a, b), b) == a
  {
    forall i | 0 <= i < |a|
      ensures XorByte(XorByte(a[i], b[i]), b[i]) == a[i]
    {
      JsBits.XorInvolution(a[i], b[i]);
    }
  }

  // ---------------------------------------------------------------------------------------
  // The client: section 5.2 of RFC 2865
  // ---------------------------------------------------------------------------------------

  /** NUL padding to a multiple of 16 bytes, and at least one block. */
  function Padded(password: seq<byte>): (p: seq<byte>)
    ensures |p| % 16 == 0 && |p| >= 16 && password <= p
    ensures |p| - |password| < 16 || (|password| == 0 && |p| == 16)
  {
    var n := if |password| == 0 then 16 else (16 - |password| % 16) % 16;
    password + seq(n, _ => 0)
  }

  /** Each block is hidden under the digest of the secret and the block sent before it. */
  function Hide(md5: Md5, secret: seq<byte>, previous: seq<byte>, padded: seq<byte>): (r: seq<byte>)
    requires |padded| % 16 == 0
    ensures |r| == |padded|
    decreases |padded|
  {
    if |padded| == 0 then []
    else
      var c := XorBlock(padded[..16], md5(secret + previous));
      c + Hide(md5, secret, c, padded[16..])
  }

  // ---------------------------------------------------------------------------------------
  // The server
  // ---------------------------------------------------------------------------------------

  function FirstBlock(s: seq<byte>): (b: seq<byte>)
    ensures |b| <= 16 && b <= s && (|s| > 0 ==> |b| > 0)
  {
    if |s| < 16 then s else s[..16]
  }

  function Reveal(md5: Md5, secret: seq<byte>, previous: seq<byte>, encrypted: seq<byte>): (r: seq<byte>)
    ensures |r| == |encrypted|
    decreases |encrypted|
  {
    if |encrypted| == 0 then []
    else
      var c := FirstBlock(encrypted);
      XorBlock(c, md5(secret + previous)) + Reveal(md5, secret, c, encrypted[|c|..])
  }

  /** Everything before the first NUL. */
  function UpToNul(s: seq<byte>): (r: seq<byte>)
    ensures r <= s && 0 !in r
    ensures |r| < |s| ==> s[|r|] == 0
  {
    if |s| == 0 || s[0] == 0 then [] else [s[0]] + UpToNul(s[1..])
  }

  function Decoded(md5: Md5, secret: seq<byte>, requestAuthenticator: Block, encrypted: seq<byte>): seq<byte> {
    UpToNul(Reveal(md5, secret, requestAuthenticator, encrypted))
  }

  /** The inner loop: one block written into the buffer, nothing else touched. */
  method RevealBlock(decrypted: array<byte>, at: nat, cipherBlock: seq<byte>, hash: Block)
    requires |cipherBlock| <= 16 && at + |cipherBlock| <= decrypted.Length
    modifies decrypted
    ensures decrypted[..at] == old(decrypted[..at])
    ensures decrypted[at..at + |cipherBlock|] == XorBlock(cipherBlock, hash)
    ensures decrypted[at + |cipherBlock|..] == old(decrypted[at + |cipherBlock|..])
  {
    hide XorByte;
    for j := 0 to |cipherBlock|
      invariant decrypted[..at] == old(decrypted[..at])
      invariant forall k :: 0 <= k < j ==> decrypted[at + k] == XorByte(cipherBlock[k], hash[k])
      invariant decrypted[at + |cipherBlock|..] == old(decrypted[at + |cipherBlock|..])
    {
      decrypted[at + j] := XorByte(cipherBlock[j], hash[j]);
    }
  }

  /** The outer loop, chaining the blocks. */
  method DecodePapPassword(md5: Md5, encrypted: seq<byte>, secret: seq<byte>, requestAuthenticator: Block)
    returns (password: seq<byte>)
    ensures password == Decoded(md5, secret, requestAuthenticator, encrypted)
  {
    hide XorBlock, Reveal;
    var blocks := (|encrypted| + 15) / 16;
    var decrypted := new byte[|encrypted|](_ => 0);
    var prevBlock: seq<byte> := requestAuthenticator;
    ghost var whole := Reveal(md5, secret, requestAuthenticator, encrypted);
    ghost var done := 0;
    for i := 0 to blocks
      invariant done <= |encrypted|
      invariant done == 16 * i || done == |encrypted| < 16 * i
      invariant whole == decrypted[..done] + Reveal(md5, secret, prevBlock, encrypted[done..])
    {
      var hash := md5(secret + prevBlock);
      var cipherBlock := FirstBlock(encrypted[16 * i..]);
      RevealStep(md5, secret, prevBlock, encrypted, done);
      ghost var before := decrypted[..done];
      RevealBlock(decrypted, 16 * i, cipherBlock, hash);
      ghost var next := done + |cipherBlock|;
      Regroup(whole, before, XorBlock(cipherBlock, hash), Reveal(md5, secret, cipherBlock, encrypted[next..]));
      assert decrypted[..next] == before + XorBlock(cipherBlock, hash);
      done := next;
      prevBlock := cipherBlock;
    }
    RevealEnd(md5, secret, prevBlock, encrypted);
    assert decrypted[..] == whole;
    password := UpToNul(decrypted[..]);
  }

  lemma Regroup(whole: seq<byte>, a: seq<byte>, b: seq<byte>, c: seq<byte>)
    requires whole == a + (b + c)
    ensures whole == (a + b) + c
  {
  }

  lemma RevealStep(md5: Md5, secret: seq<byte>, previous: seq<byte>, encrypted: seq<byte>, at: nat)
    requires at < |encrypted|
    ensures var c := FirstBlock(encrypted[at..]);
      Reveal(md5, secret, previous, encrypted[at..])
      == XorBlock(c, md5(secret + previous)) + Reveal(md5, secret, c, encrypted[at + |c|..])
  {
    var c := FirstBlock(encrypted[at..]);
    assert encrypted[at..][|c|..] == encrypted[at + |c|..];
  }

  lemma RevealEnd(md5: Md5, secret: seq<byte>, previous: seq<byte>, encrypted: seq<byte>)
    ensures Reveal(md5, secret, previous, encrypted[|encrypted|..]) == []
  {
  }

  // ---------------------------------------------------------------------------------------
  // The pair
  // ---------------------------------------------------------------------------------------

  /** Un-hiding undoes hiding across all chained blocks, whatever the digest. */
  lemma {:induction false} RevealHide(md5: Md5, secret: seq<byte>, previous: seq<byte>, padded: seq<byte>)
    requires |padded| % 16 == 0
    ensures Reveal(md5, secret, previous, Hide(md5, secret, previous, padded)) == padded
    decreases |padded|
  {
    if |padded| > 0 {
      var hash := md5(secret + previous);
      var c := XorBlock(padded[..16], hash);
      var rest := Hide(md5, secret, c, padded[16..]);
      var all := c + rest;
      assert FirstBlock(all) == c && all[16..] == rest;
      XorBlockTwice(padded[..16], hash);
      RevealHide(md5, secret, c, padded[16..]);
      assert padded == padded[..16] + padded[16..];
    }
  }

  /** And hiding undoes un-hiding, so distinct wire values carry distinct padded passwords. */
  lemma {:induction false} HideReveal(md5: Md5, secret: seq<byte>, previous: seq<byte>, encrypted: seq<byte>)
    requires |encrypted| % 16 == 0
    ensures Hide(md5, secret, previous, Reveal(md5, secret, previous, encrypted)) == encrypted
    decreases |encrypted|
  {
    if |encrypted| > 0 {
      var hash := md5(secret + previous);
      var c := encrypted[..16];
      var p, rest := XorBlock(c, hash), Reveal(md5, secret, c, encrypted[16..]);
      assert FirstBlock(encrypted) == c;
      assert Reveal(md5, secret, previous, encrypted) == p + rest;
      XorBlockTwice(c, hash);
      HideReveal(md5, secret, c, encrypted[16..]);
      hide Hide, Reveal, XorBlock;
      HideStep(md5, secret, previous, p, rest);
      assert encrypted == c + encrypted[16..];
    }
  }

  lemma HideStep(md5: Md5, secret: seq<byte>, previous: seq<byte>, p: seq<byte>, rest: seq<byte>)
    requires |p| == 16 && |rest| % 16 == 0
    ensures var c := XorBlock(p, md5(secret + previous));
      Hide(md5, secret, previous, p + rest) == c + Hide(md5, secret, c, rest)
  {
    hide XorBlock;
    assert (p + rest)[..16] == p && (p + rest)[16..] == rest;
  }

  // ---------------------------------------------------------------------------------------
  // Bit by bit
  // ---------------------------------------------------------------------------------------

  /** What block b is hidden under: the cipher block before it, or the request's authenticator. */
  ghost function BlockBefore(previous: seq<byte>, encrypted: seq<byte>, b: nat): seq<byte>
    requires 16 * b <= |encrypted|
  {
    if b == 0 then previous else encrypted[16 * b - 16..16 * b]
  }

  lemma {:induction false} RevealedByte(md5: Md5, secret: seq<byte>, previous: seq<byte>, encrypted: seq<byte>, b: nat, k: nat)
    requires k < 16 && 16 * b + k < |encrypted|
    ensures Reveal(md5, secret, previous, encrypted)[16 * b + k]
         == XorByte(encrypted[16 * b + k], md5(secret + BlockBefore(previous, encrypted, b))[k])
    decreases b
  {
    hide XorByte;
    FirstReveal(md5, secret, previous, encrypted, 16 * b + k);
    if b > 0 {
      hide Reveal;
      RevealedByte(md5, secret, encrypted[..16], encrypted[16..], b - 1, k);
      assert BlockBefore(encrypted[..16], encrypted[16..], b - 1) == BlockBefore(previous, encrypted, b);
    }
  }

  lemma FirstReveal(md5: Md5, secret: seq<byte>, previous: seq<byte>, encrypted: seq<byte>, i: nat)
    requires i < |encrypted|
    ensures Reveal(md5, secret, previous, encrypted)[i] ==
            if i < 16 then XorByte(encrypted[i], md5(secret + previous)[i])
            else Reveal(md5, secret, encrypted[..16], encrypted[16..])[i - 16]
  {
    hide XorByte;
  }

  /** A bit of the password differs from the wire's exactly where the digest of the secret and the
      cipher block before has a one. */
  lemma RevealedBits(md5: Md5, secret: seq<byte>, requestAuthenticator: Block, encrypted: seq<byte>, b: nat, k: nat, bit: nat)
    requires k < 16 && 16 * b + k < |encrypted|
    ensures var digest := md5(secret + BlockBefore(requestAuthenticator, encrypted, b));
      var password := Reveal(md5, secret, requestAuthenticator, encrypted);
      JsBits.Bit(password[16 * b + k], bit) != JsBits.Bit(encrypted[16 * b + k], bit) <==> JsBits.Bit(digest[k], bit) == 1
  {
    hide XorByte, Reveal, BlockBefore;
    RevealedByte(md5, secret, requestAuthenticator, encrypted, b, k);
    ByteBit(encrypted[16 * b + k], md5(secret + BlockBefore(requestAuthenticator, encrypted, b))[k], bit);
  }

  lemma ByteBit(a: byte, b: byte, bit: nat)
    ensures JsBits.Bit(XorByte(a, b), bit) != JsBits.Bit(a, bit) <==> JsBits.Bit(b, bit) == 1
  {
    JsBits.XorBit(a, b, bit);
  }

  lemma {:induction false} UpToNulOfPadded(p: seq<byte>, zeros: seq<byte>)
    requires forall i :: 0 <= i < |zeros| ==> zeros[i] == 0
    ensures UpToNul(p + zeros) == UpToNul(p)
  {
    if |p| == 0 {
      assert p + zeros == zeros;
    } else {
      assert (p + zeros)[1..] == p[1..] + zeros;
      UpToNulOfPadded(p[1..], zeros);
    }
  }

  /** The server recovers the password typed, of any length, exactly when it holds no NUL. */
  lemma PasswordRoundTrip(md5: Md5, secret: seq<byte>, requestAuthenticator: Block, password: seq<byte>)
    ensures Decoded(md5, secret, requestAuthenticator, Hide(md5, secret, requestAuthenticator, Padded(password))) == password
       <==> 0 !in password
  {
    RevealHide(md5, secret, requestAuthenticator, Padded(password));
    UpToNulOfPadded(password, Padded(password)[|password|..]);
    assert Padded(password) == password + Padded(password)[|password|..];
    var r := UpToNul(password);
    assert r == password || |r| < |password|;
  }
}
