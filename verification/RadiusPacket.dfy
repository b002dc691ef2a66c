/** The RADIUS wire format of packages/radius/src/radius-server.ts: the attribute parser and
    printer, and the three keyed digests that authenticate a packet (section 3 of RFC 2865,
    section 3 of RFC 2866, section 3.2 of RFC 3579). MD5 and HMAC-MD5 are arbitrary functions
    to 16 bytes; every statement below holds whatever they compute. */
module RadiusPacket {
  import opened Bytes
  import Digits
  import opened Optional

  const ACCESS_ACCEPT: byte := 2
  const ACCESS_REJECT: byte := 3
  const MESSAGE_AUTHENTICATOR: byte := 80
  const HEADER: nat := 20

  datatype Attribute = Attribute(kind: byte, value: seq<byte>)

  datatype Packet = Packet(code: byte, identifier: byte, authenticator: seq<byte>, attributes: seq<Attribute>)

  /** A parse is dropped (null), throws a RangeError, or gives a packet. */
  datatype Parsed = Dropped | Thrown | Received(packet: Packet)

  /** A reply too long for its 16-bit length field throws instead of being sent. */
  datatype Built = TooLong | Sent(bytes: seq<byte>)

  // ---------------------------------------------------------------------------------------
  // Attributes
  // ---------------------------------------------------------------------------------------

  /** The length byte wraps: a value over 253 bytes is printed with the wrong length. */
  function EncodeAttribute(a: Attribute): seq<byte> {
    [a.kind, (|a.value| + 2) % 256] + a.value
  }

  function EncodeAll(attrs: seq<Attribute>): seq<byte> {
    if |attrs| == 0 then [] else EncodeAttribute(attrs[0]) + EncodeAll(attrs[1..])
  }

  ghost predicate Printable(attrs: seq<Attribute>) {
    forall i :: 0 <= i < |attrs| ==> |attrs[i].value| <= 253
  }

  datatype Walked = WalkThrown | Walk(attrs: seq<Attribute>)

  function Prepend(attrs: seq<Attribute>, w: Walked): Walked {
    match w
    case WalkThrown => WalkThrown
    case Walk(rest) => Walk(attrs + rest)
  }

  /** The attributes at the front of the attribute area, up to the first malformed one. `more`
      says whether the datagram continues past the area: reading the length byte of a one-byte
      tail throws only at the very end of the buffer. */
  function Attributes(area: seq<byte>, more: bool): (w: Walked)
    decreases |area|
  {
    if |area| == 0 then Walk([])
    else if |area| == 1 then (if more then Walk([]) else WalkThrown)
    else if area[1] < 2 || area[1] > |area| then Walk([])
    else Prepend([Attribute(area[0], area[2..area[1]])], Attributes(area[area[1]..], more))
  }

  function Area(buf: seq<byte>, offset: nat, length: nat): seq<byte>
    requires length <= |buf|
  {
    if offset < length then buf[offset..length] else []
  }

  function Parse(buf: seq<byte>): Parsed {
    if |buf| < HEADER || ReadU16(buf[2..4]) > |buf| then Dropped
    else
      var length := ReadU16(buf[2..4]);
      match Attributes(Area(buf, HEADER, length), length < |buf|)
      case WalkThrown => Thrown
      case Walk(attrs) => Received(Packet(buf[0], buf[1], buf[4..20], attrs))
  }

  /** One turn of the parser's loop, by buffer offset. */
  lemma AttributeAt(buf: seq<byte>, offset: nat, length: nat)
    requires offset < length <= |buf|
    ensures var w := Attributes(Area(buf, offset, length), length < |buf|);
      if offset + 1 >= |buf| then w == WalkThrown
      else
        var attrLen := buf[offset + 1];
        if attrLen < 2 || offset + attrLen > length then w == Walk([])
        else w == Prepend([Attribute(buf[offset], buf[offset + 2..offset + attrLen])],
                          Attributes(Area(buf, offset + attrLen, length), length < |buf|))
  {
    var area := buf[offset..length];
    if offset + 1 < length {
      var attrLen := buf[offset + 1];
      assert area[0] == buf[offset] && area[1] == attrLen;
      if attrLen >= 2 && offset + attrLen <= length {
        SliceOfSlice(buf, offset, length, 2, attrLen);
        SliceOfSlice(buf, offset, length, attrLen, length - offset);
      }
    }
  }

  lemma SliceOfSlice(s: seq<byte>, lo: nat, hi: nat, i: nat, j: nat)
    requires lo <= hi <= |s| && i <= j <= hi - lo
    ensures s[lo..hi][i..j] == s[lo + i..lo + j]
    ensures j == hi - lo ==> s[lo..hi][i..] == s[lo + i..hi]
  {
    var t := s[lo..hi];
    assert forall k | 0 <= k < j - i :: t[i..j][k] == s[lo + i..lo + j][k];
    assert j == hi - lo ==> t[i..] == t[i..j];
  }

  /** The parser's loop. */
  method ParsePacket(buf: seq<byte>) returns (r: Parsed)
    ensures r == Parse(buf)
  {
    hide Attributes, Area;
    if |buf| < 20 {
      return Dropped;
    }
    var length := ReadU16(buf[2..4]);
    if length > |buf| {
      return Dropped;
    }
    var attributes: seq<Attribute> := [];
    var offset := 20;
    ghost var all := Attributes(Area(buf, HEADER, length), length < |buf|);
    PrependNothing(all);
    while offset < length
      invariant 20 <= offset
      invariant all == Prepend(attributes, Attributes(Area(buf, offset, length), length < |buf|))
      decreases length - offset
    {
      AttributeAt(buf, offset, length);
      if offset + 1 >= |buf| {
        return Thrown;
      }
      var kind, attrLen := buf[offset], buf[offset + 1];
      if attrLen < 2 || offset + attrLen > length {
        assert all == Walk(attributes);
        return Received(Packet(buf[0], buf[1], buf[4..20], attributes));
      }
      var a := Attribute(kind, buf[offset + 2..offset + attrLen]);
      PrependTwice(attributes, [a], Attributes(Area(buf, offset + attrLen, length), length < |buf|));
      attributes := attributes + [a];
      offset := offset + attrLen;
    }
    AreaEnd(buf, offset, length);
    r := Received(Packet(buf[0], buf[1], buf[4..20], attributes));
  }

  lemma AreaEnd(buf: seq<byte>, offset: nat, length: nat)
    requires length <= |buf| && length <= offset
    ensures Attributes(Area(buf, offset, length), length < |buf|) == Walk([])
  {
  }

  lemma PrependNothing(w: Walked)
    ensures Prepend([], w) == w
  {
    if w.Walk? {
      assert [] + w.attrs == w.attrs;
    }
  }

  lemma PrependTwice(a: seq<Attribute>, b: seq<Attribute>, w: Walked)
    ensures Prepend(a, Prepend(b, w)) == Prepend(a + b, w)
  {
    if w.Walk? {
      assert a + (b + w.attrs) == (a + b) + w.attrs;
    }
  }

  lemma FirstAttribute(a: Attribute, rest: seq<byte>, more: bool)
    requires |a.value| <= 253
    ensures Attributes(EncodeAttribute(a) + rest, more) == Prepend([a], Attributes(rest, more))
  {
    var area := EncodeAttribute(a) + rest;
    assert area[0] == a.kind && area[1] == |a.value| + 2;
    assert area[2..|a.value| + 2] == a.value;
    assert area[|a.value| + 2..] == rest;
  }

  lemma EncodeSplit(a: Attribute, attrs: seq<Attribute>, tail: seq<byte>)
    ensures EncodeAll([a] + attrs) == EncodeAttribute(a) + EncodeAll(attrs)
    ensures EncodeAll([a] + attrs) + tail == EncodeAttribute(a) + (EncodeAll(attrs) + tail)
  {
    assert ([a] + attrs)[1..] == attrs;
  }

  /** Printed attributes are read back, and reading goes on behind them. */
  lemma {:induction false} AttributesOfPrinted(attrs: seq<Attribute>, tail: seq<byte>, more: bool)
    requires Printable(attrs)
    ensures Attributes(EncodeAll(attrs) + tail, more) == Prepend(attrs, Attributes(tail, more))
    decreases |attrs|
  {
    hide EncodeAttribute, Attributes;
    if |attrs| == 0 {
      assert EncodeAll(attrs) + tail == tail;
      assert Prepend([], Attributes(tail, more)) == Attributes(tail, more);
    } else {
      var a, rest := attrs[0], attrs[1..];
      assert attrs == [a] + rest;
      EncodeSplit(a, rest, tail);
      FirstAttribute(a, EncodeAll(rest) + tail, more);
      AttributesOfPrinted(rest, tail, more);
      PrependTwice([a], rest, Attributes(tail, more));
    }
  }

  /** Nothing that starts like `tail` is an attribute. */
  predicate Stuck(tail: seq<byte>) {
    |tail| <= 1 || tail[1] < 2 || tail[1] > |tail|
  }

  /** What the parser reads is what is printed there: the encoding of the attributes it returns is a
      prefix of the area, and it stopped (or threw, on a single byte at the very end of the buffer)
      because what follows is no attribute. */
  lemma {:induction false} AttributesSound(area: seq<byte>, more: bool) returns (attrs: seq<Attribute>, tail: seq<byte>)
    ensures Printable(attrs) && Stuck(tail) && area == EncodeAll(attrs) + tail
    ensures Attributes(area, more) == if |tail| == 1 && !more then WalkThrown else Walk(attrs)
    decreases |area|
  {
    if Stuck(area) {
      StuckTail(area, more);
      attrs, tail := [], area;
      assert EncodeAll([]) + tail == tail;
    } else {
      var a, left := Attribute(area[0], area[2..area[1]]), area[area[1]..];
      assert area == EncodeAttribute(a) + left;
      assert |a.value| <= 253;
      FirstAttribute(a, left, more);
      hide Attributes, EncodeAttribute, EncodeAll, Stuck;
      var rest;
      rest, tail := AttributesSound(left, more);
      attrs := [a] + rest;
      EncodeSplit(a, rest, tail);
    }
  }

  // ---------------------------------------------------------------------------------------
  // Responses
  // ---------------------------------------------------------------------------------------

  predicate CarriesMessageAuthenticator(code: byte) {
    code == ACCESS_ACCEPT || code == ACCESS_REJECT
  }

  const EMPTY_AUTHENTICATOR: Attribute := Attribute(MESSAGE_AUTHENTICATOR, ZERO_BLOCK)

  function Header(code: byte, identifier: byte, length: nat): (h: seq<byte>)
    ensures |h| == 4
  {
    [code, identifier] + U16(length)
  }

  /** The reply packet: attributes, a Message-Authenticator computed over them with itself zeroed
      and the request's authenticator in place, then the Response Authenticator over the result. */
  function Response(md5: Md5, hmac: Hmac, code: byte, identifier: byte, requestAuthenticator: Block,
                    secret: seq<byte>, attributes: seq<Attribute>): Built
  {
    var all := if CarriesMessageAuthenticator(code) then attributes + [EMPTY_AUTHENTICATOR] else attributes;
    var length := HEADER + |EncodeAll(all)|;
    if length > 0xFFFF then TooLong
    else
      var header := Header(code, identifier, length);
      var signed := if CarriesMessageAuthenticator(code)
        then attributes + [Attribute(MESSAGE_AUTHENTICATOR, hmac(secret, header + requestAuthenticator + EncodeAll(all)))]
        else attributes;
      var area := EncodeAll(signed);
      Sent(header + md5(header + requestAuthenticator + area + secret) + area)
  }

  lemma {:induction false} EncodeAppend(attrs: seq<Attribute>, a: Attribute)
    ensures EncodeAll(attrs + [a]) == EncodeAll(attrs) + EncodeAttribute(a)
    decreases |attrs|
  {
    hide EncodeAttribute;
    if |attrs| == 0 {
      assert attrs + [a] == [a] + [];
      EncodeSplit(a, [], []);
      assert EncodeAll([]) == [];
    } else {
      var first, rest := attrs[0], attrs[1..];
      assert attrs == [first] + rest && attrs + [a] == [first] + (rest + [a]);
      EncodeSplit(first, rest, []);
      EncodeSplit(first, rest + [a], []);
      EncodeAppend(rest, a);
    }
  }

  /** The source fills the zeroed authenticator in place: the last 16 bytes of the buffer. */
  method BuildResponse(md5: Md5, hmac: Hmac, code: byte, identifier: byte, requestAuthenticator: Block,
                       secret: seq<byte>, attributes: seq<Attribute>) returns (r: Built)
    ensures r == Response(md5, hmac, code, identifier, requestAuthenticator, secret, attributes)
  {
    hide EncodeAll;
    var withMessageAuthenticator := code == ACCESS_ACCEPT || code == ACCESS_REJECT;
    var allAttributes := if withMessageAuthenticator then attributes + [EMPTY_AUTHENTICATOR] else attributes;
    var attrBuf := EncodeAll(allAttributes);
    var length := 20 + |attrBuf|;
    if length > 0xFFFF {
      return TooLong;
    }
    var header := Header(code, identifier, length);
    if withMessageAuthenticator {
      var messageAuthenticator := hmac(secret, header + requestAuthenticator + attrBuf);
      ghost var signed := Attribute(MESSAGE_AUTHENTICATOR, messageAuthenticator);
      EncodeAppend(attributes, EMPTY_AUTHENTICATOR);
      EncodeAppend(attributes, signed);
      attrBuf := attrBuf[..|attrBuf| - 16] + messageAuthenticator;
      assert attrBuf == EncodeAll(attributes) + EncodeAttribute(signed);
    }
    var responseAuthenticator := md5(header + requestAuthenticator + attrBuf + secret);
    r := Sent(header + responseAuthenticator + attrBuf);
  }

  // ---------------------------------------------------------------------------------------
  // The checks the other side makes
  // ---------------------------------------------------------------------------------------

  predicate IsAuthenticator(a: Attribute) {
    a.kind == MESSAGE_AUTHENTICATOR && |a.value| == 16
  }

  /** The verdict on a signed packet from one attribute on: none found, or the digest compared. */
  function VerifyFrom(hmac: Hmac, packet: seq<byte>, offset: nat, length: nat, secret: seq<byte>): Option<bool>
    requires length <= |packet|
    decreases length - offset
  {
    if offset + 2 > length then None
    else
      var attrLen := packet[offset + 1];
      if attrLen < 2 || offset + attrLen > length then None
      else if packet[offset] == MESSAGE_AUTHENTICATOR && attrLen == 18 then
        var zeroed := packet[..offset + 2] + ZERO_BLOCK + packet[offset + 18..length];
        Some(hmac(secret, zeroed) == packet[offset + 2..offset + 18])
      else VerifyFrom(hmac, packet, offset + attrLen, length, secret)
  }

  function RequestLength(packet: seq<byte>): (n: nat)
    requires |packet| >= HEADER
    ensures n <= |packet|
  {
    var claimed := ReadU16(packet[2..4]);
    if claimed < |packet| then claimed else |packet|
  }

  function RequestVerdict(hmac: Hmac, packet: seq<byte>, secret: seq<byte>): Option<bool> {
    if |packet| < HEADER then None else VerifyFrom(hmac, packet, HEADER, RequestLength(packet), secret)
  }

  method VerifyRequestMessageAuthenticator(hmac: Hmac, packet: seq<byte>, secret: seq<byte>) returns (r: Option<bool>)
    ensures r == RequestVerdict(hmac, packet, secret)
  {
    if |packet| < 20 {
      return None;
    }
    var length := RequestLength(packet);
    var offset: nat := 20;
    while offset + 2 <= length
      invariant VerifyFrom(hmac, packet, HEADER, length, secret) == VerifyFrom(hmac, packet, offset, length, secret)
      decreases length - offset
    {
      var kind, attrLen := packet[offset], packet[offset + 1];
      if attrLen < 2 || offset + attrLen > length {
        return None;
      }
      if kind == MESSAGE_AUTHENTICATOR && attrLen == 18 {
        var copy := packet[..length];
        copy := copy[..offset + 2] + ZERO_BLOCK + copy[offset + 18..];
        assert copy == packet[..offset + 2] + ZERO_BLOCK + packet[offset + 18..length];
        return Some(hmac(secret, copy) == packet[offset + 2..offset + 18]);
      }
      offset := offset + attrLen;
    }
    r := None;
  }

  /** Section 3 of RFC 2866. */
  predicate VerifyAccountingRequest(md5: Md5, packet: seq<byte>, secret: seq<byte>) {
    |packet| >= HEADER
    && ReadU16(packet[2..4]) == |packet|
    && md5(packet[..4] + ZERO_BLOCK + packet[20..] + secret) == packet[4..20]
  }

  /** The Accounting-Request a client holding the secret sends. */
  function SignedAccounting(md5: Md5, code: byte, identifier: byte, area: seq<byte>, secret: seq<byte>): seq<byte> {
    var header := Header(code, identifier, HEADER + |area|);
    header + md5(header + ZERO_BLOCK + area + secret) + area
  }

  // ---------------------------------------------------------------------------------------
  // What a finished packet promises
  // ---------------------------------------------------------------------------------------

  lemma Layout(code: byte, identifier: byte, authenticator: Block, area: seq<byte>)
    requires HEADER + |area| <= 0xFFFF
    ensures var p := Header(code, identifier, HEADER + |area|) + authenticator + area;
      && |p| == HEADER + |area| && p[0] == code && p[1] == identifier
      && ReadU16(p[2..4]) == |p|
      && p[..4] == Header(code, identifier, HEADER + |area|) && p[4..20] == authenticator && p[20..] == area
  {
    var p := Header(code, identifier, HEADER + |area|) + authenticator + area;
    U16RoundTrip(HEADER + |area|);
    assert p[2..4] == U16(HEADER + |area|);
  }

  lemma {:induction false} ParsedArePrintable(area: seq<byte>, more: bool)
    ensures Attributes(area, more).Walk? ==> Printable(Attributes(area, more).attrs)
    decreases |area|
  {
    if !Stuck(area) {
      ParsedArePrintable(area[area[1]..], more);
    }
  }

  function Signature(packet: seq<byte>): Attribute
    requires |packet| >= 16
  {
    Attribute(MESSAGE_AUTHENTICATOR, packet[|packet| - 16..])
  }

  /** What goes out on the wire: Access-Accept (2) and Access-Reject (3) are signed behind their
      attributes, in attribute 80 of RFC 2869. */
  ghost function SentAttributes(code: byte, attributes: seq<Attribute>, packet: seq<byte>): seq<Attribute>
    requires |packet| >= 16
  {
    if code == 2 || code == 3 then attributes + [Attribute(80, packet[|packet| - 16..])] else attributes
  }

  /** A reply is refused exactly when it is longer than its length field can say. */
  lemma ResponseFits(md5: Md5, hmac: Hmac, code: byte, identifier: byte, requestAuthenticator: Block,
                     secret: seq<byte>, attributes: seq<Attribute>)
    ensures Response(md5, hmac, code, identifier, requestAuthenticator, secret, attributes).Sent?
       <==> |EncodeAll(attributes)| + (if code == 2 || code == 3 then 38 else 20) <= 65535
  {
    hide EncodeAll;
    EncodeAppend(attributes, EMPTY_AUTHENTICATOR);
  }

  lemma ResponseLayout(md5: Md5, hmac: Hmac, code: byte, identifier: byte, requestAuthenticator: Block,
                       secret: seq<byte>, attributes: seq<Attribute>)
    requires Response(md5, hmac, code, identifier, requestAuthenticator, secret, attributes).Sent?
    ensures var p := Response(md5, hmac, code, identifier, requestAuthenticator, secret, attributes).bytes;
      && HEADER <= |p| <= 0xFFFF && |p[4..20]| == 16
      && p == Header(code, identifier, |p|) + p[4..20] + p[20..]
      && p[4..20] == md5(Header(code, identifier, |p|) + requestAuthenticator + p[20..] + secret)
      && p[20..] == EncodeAll(SentAttributes(code, attributes, p))
      && (code == 2 || code == 3 ==>
            p[|p| - 16..] == hmac(secret, Header(code, identifier, |p|) + requestAuthenticator
                                          + EncodeAll(attributes + [EMPTY_AUTHENTICATOR])))
  {
    hide EncodeAll, Header;
    var p := Response(md5, hmac, code, identifier, requestAuthenticator, secret, attributes).bytes;
    EncodeAppend(attributes, EMPTY_AUTHENTICATOR);
    if CarriesMessageAuthenticator(code) {
      var header := Header(code, identifier, HEADER + |EncodeAll(attributes + [EMPTY_AUTHENTICATOR])|);
      var ma := hmac(secret, header + requestAuthenticator + EncodeAll(attributes + [EMPTY_AUTHENTICATOR]));
      EncodeAppend(attributes, Attribute(MESSAGE_AUTHENTICATOR, ma));
      assert p[|p| - 16..] == ma;
    }
  }

  /** The client reads back exactly the code, identifier and attributes sent, plus one
      Message-Authenticator on Access-Accept and Access-Reject; and it reads back the attributes
      exactly when none of them holds more than 253 bytes. */
  lemma ResponseParsesBack(md5: Md5, hmac: Hmac, code: byte, identifier: byte, requestAuthenticator: Block,
                           secret: seq<byte>, attributes: seq<Attribute>)
    requires Response(md5, hmac, code, identifier, requestAuthenticator, secret, attributes).Sent?
    ensures var p := Response(md5, hmac, code, identifier, requestAuthenticator, secret, attributes).bytes;
      && |p| >= HEADER
      && (Printable(attributes)
          <==> Parse(p) == Received(Packet(code, identifier, p[4..20], SentAttributes(code, attributes, p))))
  {
    hide EncodeAll, Header, Response, Attributes;
    var p := Response(md5, hmac, code, identifier, requestAuthenticator, secret, attributes).bytes;
    ResponseLayout(md5, hmac, code, identifier, requestAuthenticator, secret, attributes);
    Layout(code, identifier, p[4..20], p[20..]);
    var sent := SentAttributes(code, attributes, p);
    assert Area(p, HEADER, |p|) == p[20..];
    if Printable(attributes) {
      AttributesOfPrinted(sent, [], false);
      assert EncodeAll(sent) + [] == p[20..];
      EmptyArea(sent);
    }
    if Parse(p) == Received(Packet(code, identifier, p[4..20], sent)) {
      ParsedArePrintable(p[20..], false);
      assert forall i | 0 <= i < |attributes| :: attributes[i] == sent[i];
    }
  }

  lemma EmptyArea(attrs: seq<Attribute>)
    ensures Prepend(attrs, Attributes([], false)) == Walk(attrs)
  {
    assert attrs + [] == attrs;
  }

  /** A reply authenticates to every client that made the request and holds the secret: its authenticator
      is the digest section 3 of RFC 2865 has the client check. */
  lemma ResponseIsAuthentic(md5: Md5, hmac: Hmac, code: byte, identifier: byte, requestAuthenticator: Block,
                            secret: seq<byte>, attributes: seq<Attribute>)
    requires Response(md5, hmac, code, identifier, requestAuthenticator, secret, attributes).Sent?
    ensures var response := Response(md5, hmac, code, identifier, requestAuthenticator, secret, attributes).bytes;
      |response| >= 20 && response[4..20] == md5(response[..4] + requestAuthenticator + response[20..] + secret)
  {
    hide EncodeAll, Header, Response;
    var p := Response(md5, hmac, code, identifier, requestAuthenticator, secret, attributes).bytes;
    ResponseLayout(md5, hmac, code, identifier, requestAuthenticator, secret, attributes);
    Layout(code, identifier, p[4..20], p[20..]);
  }

  /** Attributes that are no Message-Authenticator are passed over. */
  lemma {:induction false} SkipAttributes(hmac: Hmac, packet: seq<byte>, offset: nat, secret: seq<byte>,
                                          attrs: seq<Attribute>, tail: seq<byte>)
    requires offset <= |packet| && packet[offset..] == EncodeAll(attrs) + tail
    requires Printable(attrs) && forall i :: 0 <= i < |attrs| ==> !IsAuthenticator(attrs[i])
    ensures VerifyFrom(hmac, packet, offset, |packet|, secret)
         == VerifyFrom(hmac, packet, |packet| - |tail|, |packet|, secret)
    decreases |attrs|
  {
    hide VerifyFrom, EncodeAttribute;
    if |attrs| == 0 {
      assert packet[offset..] == tail;
    } else {
      var a, rest := attrs[0], attrs[1..];
      assert attrs == [a] + rest;
      EncodeSplit(a, rest, tail);
      SkipOne(hmac, packet, offset, secret, a, EncodeAll(rest) + tail);
      SkipAttributes(hmac, packet, offset + 2 + |a.value|, secret, rest, tail);
    }
  }

  lemma SkipOne(hmac: Hmac, packet: seq<byte>, offset: nat, secret: seq<byte>, a: Attribute, rest: seq<byte>)
    requires offset <= |packet| && packet[offset..] == EncodeAttribute(a) + rest
    requires |a.value| <= 253 && !IsAuthenticator(a)
    ensures offset + 2 + |a.value| <= |packet| && packet[offset + 2 + |a.value|..] == rest
    ensures VerifyFrom(hmac, packet, offset, |packet|, secret)
         == VerifyFrom(hmac, packet, offset + 2 + |a.value|, |packet|, secret)
  {
    var area := packet[offset..];
    assert area[0] == packet[offset] && area[1] == packet[offset + 1];
    assert packet[offset + 2 + |a.value|..] == area[2 + |a.value|..];
  }

  /** With the request's authenticator back in its place, the server's own check of a signed packet
      accepts the reply: what it builds is what it would believe. */
  lemma ResponseSignatureVerifies(md5: Md5, hmac: Hmac, code: byte, identifier: byte, requestAuthenticator: Block,
                                  secret: seq<byte>, attributes: seq<Attribute>)
    requires code == 2 || code == 3
    requires Response(md5, hmac, code, identifier, requestAuthenticator, secret, attributes).Sent?
    requires Printable(attributes) && forall i :: 0 <= i < |attributes| ==> !IsAuthenticator(attributes[i])
    ensures var p := Response(md5, hmac, code, identifier, requestAuthenticator, secret, attributes).bytes;
      |p| >= HEADER && RequestVerdict(hmac, p[..4] + requestAuthenticator + p[20..], secret) == Some(true)
  {
    hide EncodeAll, Header, Response, VerifyFrom, RequestVerdict;
    var p := Response(md5, hmac, code, identifier, requestAuthenticator, secret, attributes).bytes;
    ResponseLayout(md5, hmac, code, identifier, requestAuthenticator, secret, attributes);
    Layout(code, identifier, p[4..20], p[20..]);
    var header, sign := p[..4] + requestAuthenticator, p[|p| - 16..];
    assert header[2..4] == p[2..4];
    SignedArea(attributes, sign);
    SignedArea(attributes, ZERO_BLOCK);
    var front := header + EncodeAll(attributes) + [80, 18];
    assert p[..4] + requestAuthenticator + p[20..] == front + sign + [];
    assert front + seq(16, _ => 0) + [] == header + EncodeAll(attributes + [EMPTY_AUTHENTICATOR]);
    FirstSignatureDecides(hmac, header, attributes, sign, [], secret);
  }

  lemma SignedArea(attributes: seq<Attribute>, sign: Block)
    ensures EncodeAll(attributes + [Attribute(80, sign)]) == EncodeAll(attributes) + ([80, 18] + sign)
  {
    EncodeAppend(attributes, Attribute(80, sign));
  }

  /** The accounting check accepts exactly the packets signed with the secret. */
  lemma AccountingAcceptsExactlySigned(md5: Md5, packet: seq<byte>, secret: seq<byte>)
    ensures VerifyAccountingRequest(md5, packet, secret)
       <==> exists code: byte, identifier: byte, area: seq<byte> ::
              HEADER + |area| <= 0xFFFF && packet == SignedAccounting(md5, code, identifier, area, secret)
  {
    if VerifyAccountingRequest(md5, packet, secret) {
      U16Unique(packet[2..4]);
      var code, identifier, area := packet[0], packet[1], packet[20..];
      assert packet[..4] == Header(code, identifier, |packet|);
      assert packet == packet[..4] + packet[4..20] + packet[20..];
      assert packet == SignedAccounting(md5, code, identifier, area, secret);
    }
    forall code: byte, identifier: byte, area: seq<byte> |
      HEADER + |area| <= 0xFFFF && packet == SignedAccounting(md5, code, identifier, area, secret)
      ensures VerifyAccountingRequest(md5, packet, secret)
    {
      var header := Header(code, identifier, HEADER + |area|);
      Layout(code, identifier, md5(header + ZERO_BLOCK + area + secret), area);
    }
  }

  /** The parser is not total: it throws exactly on a datagram whose length field covers all of it
      and whose attribute area is whole attributes followed by one stray byte. */
  lemma ParseThrowsExactly(buf: seq<byte>)
    ensures Parse(buf) == Thrown
       <==> (|buf| > HEADER && ReadU16(buf[2..4]) == |buf|
             && exists attrs: seq<Attribute> :: Printable(attrs) && EncodeAll(attrs) == buf[HEADER..|buf| - 1])
  {
    hide EncodeAll, Attributes;
    if |buf| >= HEADER && ReadU16(buf[2..4]) <= |buf| {
      var length := ReadU16(buf[2..4]);
      var area := Area(buf, HEADER, length);
      var attrs, tail := AttributesSound(area, length < |buf|);
      AttributesOfPrinted(attrs, tail, length < |buf|);
      StuckTail(tail, length < |buf|);
      if Parse(buf) == Thrown {
        assert area == buf[HEADER..|buf|] && |tail| == 1;
        assert EncodeAll(attrs) == area[..|area| - 1] == buf[HEADER..|buf| - 1];
      }
      if length == |buf| {
        forall attrs': seq<Attribute> | |buf| > HEADER && Printable(attrs') && EncodeAll(attrs') == buf[HEADER..|buf| - 1]
          ensures Parse(buf) == Thrown
        {
          AttributesOfPrinted(attrs', [buf[|buf| - 1]], false);
          StuckTail([buf[|buf| - 1]], false);
          assert EncodeAll(attrs') + [buf[|buf| - 1]] == area;
        }
      }
    }
  }

  lemma StuckTail(tail: seq<byte>, more: bool)
    requires Stuck(tail)
    ensures Attributes(tail, more) == if |tail| == 1 && !more then WalkThrown else Walk([])
  {
  }

  /** A header whose length field says 21, and one byte behind it. */
  lemma StrayByteThrows()
    ensures var buf := [1, 0, 0, 21] + ZERO_BLOCK + [1];
      |buf| == 21 && ReadU16(buf[2..4]) == 21 && Parse(buf) == Thrown
  {
    var buf: seq<byte> := [1, 0, 0, 21] + ZERO_BLOCK + [1];
    assert buf[2..4] == [0, 21];
    Digits.Value2(256, 0, 21);
    assert Area(buf, HEADER, 21) == [1];
    StuckTail([1], false);
  }

  /** A request with a Message-Authenticator anywhere among its attributes is judged by the first one:
      the digest of the packet with those sixteen bytes zeroed, whatever stands behind them. */
  lemma FirstSignatureDecides(hmac: Hmac, header: seq<byte>, before: seq<Attribute>, sign: Block, behind: seq<byte>, secret: seq<byte>)
    requires |header| == HEADER && Printable(before)
    requires forall i :: 0 <= i < |before| ==> before[i].kind != 80 || |before[i].value| != 16
    requires ReadU16(header[2..4]) >= HEADER + |EncodeAll(before)| + 18 + |behind|
    ensures var front := header + EncodeAll(before) + [80, 18];
      RequestVerdict(hmac, front + sign + behind, secret) == Some(hmac(secret, front + seq(16, _ => 0) + behind) == sign)
  {
    hide EncodeAll;
    var front := header + EncodeAll(before) + [80, 18];
    var p := front + sign + behind;
    assert p[2..4] == header[2..4];
    assert p[HEADER..] == EncodeAll(before) + ([80, 18] + sign + behind);
    assert |[80, 18] + sign + behind| == 18 + |behind|;
    SkipAttributes(hmac, p, HEADER, secret, before, [80, 18] + sign + behind);
    SignatureAt(hmac, p, front, sign, behind, secret);
  }

  lemma SignatureAt(hmac: Hmac, p: seq<byte>, front: seq<byte>, sign: Block, behind: seq<byte>, secret: seq<byte>)
    requires |front| >= 2 && front[|front| - 2..] == [80, 18] && p == front + sign + behind
    ensures VerifyFrom(hmac, p, |front| - 2, |p|, secret) == Some(hmac(secret, front + seq(16, _ => 0) + behind) == sign)
  {
    var at := |front| - 2;
    assert p[at] == front[at] == 80 && p[at + 1] == front[at + 1] == 18 by {
      assert front[at..][0] == 80 && front[at..][1] == 18;
    }
    assert p[..at + 2] == front && p[at + 2..at + 18] == sign && p[at + 18..|p|] == behind;
    assert ZERO_BLOCK == seq(16, _ => 0);
  }

  /** What stands behind the length the packet claims plays no part. */
  lemma PaddingIsIgnored(hmac: Hmac, packet: seq<byte>, padding: seq<byte>, secret: seq<byte>)
    requires |packet| >= HEADER && ReadU16(packet[2..4]) == |packet|
    ensures RequestVerdict(hmac, packet + padding, secret) == RequestVerdict(hmac, packet, secret)
  {
    assert (packet + padding)[2..4] == packet[2..4];
    VerifyPadded(hmac, packet, padding, HEADER, secret);
  }

  lemma {:induction false} VerifyPadded(hmac: Hmac, packet: seq<byte>, padding: seq<byte>, offset: nat, secret: seq<byte>)
    ensures VerifyFrom(hmac, packet + padding, offset, |packet|, secret) == VerifyFrom(hmac, packet, offset, |packet|, secret)
    decreases |packet| - offset
  {
    if offset + 2 <= |packet| {
      var attrLen := packet[offset + 1];
      if attrLen >= 2 && offset + attrLen <= |packet| {
        if packet[offset] == MESSAGE_AUTHENTICATOR && attrLen == 18 {
          assert (packet + padding)[..offset + 2] == packet[..offset + 2];
          assert (packet + padding)[offset + 2..offset + 18] == packet[offset + 2..offset + 18];
          assert (packet + padding)[offset + 18..|packet|] == packet[offset + 18..|packet|];
        } else {
          VerifyPadded(hmac, packet, padding, offset + attrLen, secret);
        }
      }
    }
  }

  /** And one that has none before the end of its attributes, or before a malformed one, proves nothing. */
  lemma NoSignatureNoVerdict(hmac: Hmac, header: seq<byte>, attrs: seq<Attribute>, tail: seq<byte>, secret: seq<byte>)
    requires |header| == HEADER && Printable(attrs)
    requires forall i :: 0 <= i < |attrs| ==> attrs[i].kind != 80 || |attrs[i].value| != 16
    requires ReadU16(header[2..4]) >= HEADER + |EncodeAll(attrs)| + |tail| && Stuck(tail)
    ensures RequestVerdict(hmac, header + EncodeAll(attrs) + tail, secret) == None
  {
    hide EncodeAll;
    var p := header + EncodeAll(attrs) + tail;
    assert p[2..4] == header[2..4];
    assert p[HEADER..] == EncodeAll(attrs) + tail;
    SkipAttributes(hmac, p, HEADER, secret, attrs, tail);
    assert |tail| >= 2 ==> p[|p| - |tail| + 1] == tail[1];
  }
}
