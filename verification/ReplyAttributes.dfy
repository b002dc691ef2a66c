/** What an Access-Accept grants: the reply rows of a login turned into RADIUS attributes, with the
    time and data left on a voucher in place of the full amounts when a phone returns
    (packages/radius/src/radius-server.ts). */
module ReplyAttributes {
  import opened Bytes
  import opened Optional
  import opened RadiusPacket

  const MIKROTIK: nat := 14988
  const ADDRESS_LIST: byte := 19
  const RATE_LIMIT: byte := 8
  const TOTAL_LIMIT: byte := 17
  const TOTAL_LIMIT_GIGAWORDS: byte := 18
  const SESSION_TIMEOUT: byte := 27
  const PORT_LIMIT: byte := 62
  const VENDOR_SPECIFIC: byte := 26
  const U32_RANGE: nat := 0x1_0000_0000

  /** A reply row. Its text stands for a number where one is expected; text that is no positive
      number is treated like zero: skipped. */
  datatype Reply =
    | SessionTimeout(seconds: int)
    | PortLimit(devices: int)
    | AddressList(text: seq<byte>)
    | RateLimit(text: seq<byte>)
    | TotalLimit(bytes: int)
    | Unsupported

  /** What is left on a voucher; absent means unlimited. */
  datatype Remaining = Remaining(seconds: Option<int>, bytes: Option<int>)

  /** Writing a number outside 32 bits throws. */
  function Uint32(n: int): Option<seq<byte>> {
    if 0 <= n < U32_RANGE then Some(U32(n)) else None
  }

  function EncodeVendorSpecific(subtype: byte, value: seq<byte>): Attribute {
    Attribute(VENDOR_SPECIFIC, U32(MIKROTIK) + [subtype, (|value| + 2) % 256] + value)
  }

  /** A byte count, as a 32-bit remainder and, when there are any, whole multiples of 2^32. */
  function EncodeTotalLimit(total: nat): Option<seq<Attribute>> {
    var low := EncodeVendorSpecific(TOTAL_LIMIT, U32(total % U32_RANGE));
    var gigawords := total / U32_RANGE;
    if gigawords == 0 then Some([low])
    else match Uint32(gigawords)
      case None => None
      case Some(high) => Some([low, EncodeVendorSpecific(TOTAL_LIMIT_GIGAWORDS, high)])
  }

  function EncodeNumber(kind: byte, n: int): Option<seq<Attribute>> {
    match Uint32(n)
    case None => None
    case Some(value) => Some([Attribute(kind, value)])
  }

  function Replaced(reply: Reply, remaining: Option<Remaining>): bool {
    remaining.Some? && ((reply.SessionTimeout? && remaining.value.seconds.Some?)
                        || (reply.TotalLimit? && remaining.value.bytes.Some?))
  }

  function EncodeReply(reply: Reply, remaining: Option<Remaining>): Option<seq<Attribute>> {
    if Replaced(reply, remaining) then Some([])
    else match reply
      case SessionTimeout(seconds) => if seconds > 0 then EncodeNumber(SESSION_TIMEOUT, seconds) else Some([])
      case PortLimit(devices) => if devices > 0 then EncodeNumber(PORT_LIMIT, devices) else Some([])
      case AddressList(text) => Some([EncodeVendorSpecific(ADDRESS_LIST, text)])
      case RateLimit(text) => Some([EncodeVendorSpecific(RATE_LIMIT, text)])
      case TotalLimit(bytes) => if bytes > 0 then EncodeTotalLimit(bytes) else Some([])
      case Unsupported => Some([])
  }

  /** Throwing anywhere throws. */
  function Both(a: Option<seq<Attribute>>, b: Option<seq<Attribute>>): Option<seq<Attribute>> {
    if a.Some? && b.Some? then Some(a.value + b.value) else None
  }

  function EncodeReplies(replies: seq<Reply>, remaining: Option<Remaining>): Option<seq<Attribute>> {
    if |replies| == 0 then Some([])
    else Both(EncodeReplies(replies[..|replies| - 1], remaining), EncodeReply(replies[|replies| - 1], remaining))
  }

  function TimeLeft(remaining: Option<Remaining>): Option<seq<Attribute>> {
    if remaining.Some? && remaining.value.seconds.Some? then EncodeNumber(SESSION_TIMEOUT, remaining.value.seconds.value)
    else Some([])
  }

  /** A phone is only ever returned to a voucher with data left, so the count is no negative number. */
  function DataLeft(remaining: Option<Remaining>): Option<seq<Attribute>>
    requires remaining.Some? && remaining.value.bytes.Some? ==> remaining.value.bytes.value >= 0
  {
    if remaining.Some? && remaining.value.bytes.Some? then EncodeTotalLimit(remaining.value.bytes.value) else Some([])
  }

  ghost predicate Grantable(remaining: Option<Remaining>) {
    remaining.Some? && remaining.value.bytes.Some? ==> remaining.value.bytes.value >= 0
  }

  function Build(replies: seq<Reply>, remaining: Option<Remaining>): Option<seq<Attribute>>
    requires Grantable(remaining)
  {
    Both(Both(EncodeReplies(replies, remaining), TimeLeft(remaining)), DataLeft(remaining))
  }

  /** The loop over the reply rows. */
  method BuildReplyAttributes(replies: seq<Reply>, remaining: Option<Remaining>) returns (r: Option<seq<Attribute>>)
    requires Grantable(remaining)
    ensures r == Build(replies, remaining)
  {
    hide EncodeReply;
    var attributes: seq<Attribute> := [];
    var i := 0;
    while i < |replies|
      invariant i <= |replies|
      invariant EncodeReplies(replies[..i], remaining) == Some(attributes)
    {
      assert replies[..i + 1][..i] == replies[..i];
      var encoded := EncodeReply(replies[i], remaining);
      if encoded.None? {
        ThrowsOnward(replies, remaining, i + 1);
        return None;
      }
      attributes := attributes + encoded.value;
      i := i + 1;
    }
    assert replies[..i] == replies;
    var time := TimeLeft(remaining);
    if time.None? {
      return None;
    }
    attributes := attributes + time.value;
    var data := DataLeft(remaining);
    if data.None? {
      return None;
    }
    r := Some(attributes + data.value);
  }

  lemma {:induction false} ThrowsOnward(replies: seq<Reply>, remaining: Option<Remaining>, i: nat)
    requires i <= |replies| && EncodeReplies(replies[..i], remaining) == None
    ensures EncodeReplies(replies, remaining) == None
    decreases |replies| - i
  {
    if i == |replies| {
      assert replies[..i] == replies;
    } else {
      assert replies[..i + 1][..i] == replies[..i];
      ThrowsOnward(replies, remaining, i + 1);
    }
  }

  // ---------------------------------------------------------------------------------------
  // What the router reads
  // ---------------------------------------------------------------------------------------

  predicate CarriesVendorNumber(a: Attribute, subtype: byte) {
    a.kind == VENDOR_SPECIFIC && |a.value| == 10 && a.value[..4] == U32(MIKROTIK) && a.value[4] == subtype && a.value[5] == 6
  }

  /** The numbers carried under one vendor subtype, in order. */
  function VendorNumbers(attrs: seq<Attribute>, subtype: byte): seq<nat> {
    if |attrs| == 0 then []
    else
      var a := attrs[|attrs| - 1];
      VendorNumbers(attrs[..|attrs| - 1], subtype) + if CarriesVendorNumber(a, subtype) then [ReadU32(a.value[6..])] else []
  }

  function Timeouts(attrs: seq<Attribute>): seq<nat> {
    if |attrs| == 0 then []
    else
      var a := attrs[|attrs| - 1];
      Timeouts(attrs[..|attrs| - 1]) + if a.kind == SESSION_TIMEOUT && |a.value| == 4 then [ReadU32(a.value)] else []
  }

  /** The data limits granted: each remainder, raised by the gigawords. */
  function DataGranted(attrs: seq<Attribute>): Option<nat> {
    var low, high := VendorNumbers(attrs, TOTAL_LIMIT), VendorNumbers(attrs, TOTAL_LIMIT_GIGAWORDS);
    if |low| == 1 && |high| == 0 then Some(low[0])
    else if |low| == 1 && |high| == 1 then Some(low[0] + U32_RANGE * high[0])
    else None
  }

  lemma {:induction false} VendorNumbersConcat(a: seq<Attribute>, b: seq<Attribute>, subtype: byte)
    ensures VendorNumbers(a + b, subtype) == VendorNumbers(a, subtype) + VendorNumbers(b, subtype)
    decreases |b|
  {
    hide CarriesVendorNumber;
    if |b| == 0 {
      assert a + b == a;
    } else {
      var front, last := b[..|b| - 1], b[|b| - 1];
      VendorNumbersConcat(a, front, subtype);
      assert (a + b)[..|a + b| - 1] == a + front && (a + b)[|a + b| - 1] == last;
    }
  }

  lemma {:induction false} TimeoutsConcat(a: seq<Attribute>, b: seq<Attribute>)
    ensures Timeouts(a + b) == Timeouts(a) + Timeouts(b)
    decreases |b|
  {
    if |b| == 0 {
      assert a + b == a;
    } else {
      var front, last := b[..|b| - 1], b[|b| - 1];
      TimeoutsConcat(a, front);
      assert (a + b)[..|a + b| - 1] == a + front && (a + b)[|a + b| - 1] == last;
    }
  }

  lemma OneVendorNumber(a: Attribute, subtype: byte)
    ensures VendorNumbers([a], subtype) == if CarriesVendorNumber(a, subtype) then [ReadU32(a.value[6..])] else []
  {
    assert [a][..0] == [];
  }

  lemma VendorCarries(sent: byte, value: seq<byte>, subtype: byte)
    ensures var a := EncodeVendorSpecific(sent, value);
      && CarriesVendorNumber(a, subtype) == (sent == subtype && |value| == 4)
      && (|value| == 4 ==> a.value[6..] == value)
  {
    var a := EncodeVendorSpecific(sent, value);
    assert a.value[..4] == U32(MIKROTIK);
    assert a.value[6..] == value;
  }

  /** A data limit is read back exactly, whatever its size in 64 bits. */
  lemma TotalLimitReadsBack(total: nat)
    requires total < U32_RANGE * U32_RANGE
    ensures EncodeTotalLimit(total).Some?
    ensures var attrs := EncodeTotalLimit(total).value;
      && VendorNumbers(attrs, TOTAL_LIMIT) == [total % U32_RANGE]
      && VendorNumbers(attrs, TOTAL_LIMIT_GIGAWORDS) == (if total < U32_RANGE then [] else [total / U32_RANGE])
      && Timeouts(attrs) == []
      && DataGranted(attrs) == Some(total)
  {
    hide EncodeVendorSpecific, VendorNumbers, Timeouts, U32;
    var low, gigawords := total % U32_RANGE, total / U32_RANGE;
    var lowAttr := EncodeVendorSpecific(TOTAL_LIMIT, U32(low));
    NumberReadsBack(TOTAL_LIMIT, low, TOTAL_LIMIT);
    NumberReadsBack(TOTAL_LIMIT, low, TOTAL_LIMIT_GIGAWORDS);
    NoTimeout(TOTAL_LIMIT, U32(low));
    if gigawords > 0 {
      var highAttr := EncodeVendorSpecific(TOTAL_LIMIT_GIGAWORDS, U32(gigawords));
      NumberReadsBack(TOTAL_LIMIT_GIGAWORDS, gigawords, TOTAL_LIMIT);
      NumberReadsBack(TOTAL_LIMIT_GIGAWORDS, gigawords, TOTAL_LIMIT_GIGAWORDS);
      NoTimeout(TOTAL_LIMIT_GIGAWORDS, U32(gigawords));
      assert [lowAttr, highAttr] == [lowAttr] + [highAttr];
      VendorNumbersConcat([lowAttr], [highAttr], TOTAL_LIMIT);
      VendorNumbersConcat([lowAttr], [highAttr], TOTAL_LIMIT_GIGAWORDS);
      TimeoutsConcat([lowAttr], [highAttr]);
    }
  }

  lemma NumberReadsBack(sent: byte, n: nat, subtype: byte)
    requires n < U32_RANGE
    ensures VendorNumbers([EncodeVendorSpecific(sent, U32(n))], subtype) == if sent == subtype then [n] else []
  {
    hide EncodeVendorSpecific, CarriesVendorNumber;
    U32RoundTrip(n);
    VendorCarries(sent, U32(n), subtype);
    OneVendorNumber(EncodeVendorSpecific(sent, U32(n)), subtype);
  }

  lemma NoTimeout(subtype: byte, value: seq<byte>)
    ensures Timeouts([EncodeVendorSpecific(subtype, value)]) == []
  {
    assert [EncodeVendorSpecific(subtype, value)][..0] == [];
  }

  // ---------------------------------------------------------------------------------------
  // What a returning phone is granted
  // ---------------------------------------------------------------------------------------

  predicate NamesLimit(subtype: byte) {
    subtype == TOTAL_LIMIT || subtype == TOTAL_LIMIT_GIGAWORDS
  }

  /** A reply row that is replaced, or is no limit, grants no limit of its own. */
  lemma OtherReplies(reply: Reply, remaining: Option<Remaining>, subtype: byte)
    requires NamesLimit(subtype) && EncodeReply(reply, remaining).Some?
    ensures (reply.TotalLimit? && !Replaced(reply, remaining)) || VendorNumbers(EncodeReply(reply, remaining).value, subtype) == []
    ensures (reply.SessionTimeout? && !Replaced(reply, remaining)) || Timeouts(EncodeReply(reply, remaining).value) == []
  {
    hide EncodeVendorSpecific, CarriesVendorNumber;
    if Replaced(reply, remaining) {
    } else {
      match reply {
        case AddressList(text) =>
          VendorCarries(ADDRESS_LIST, text, subtype);
          OneVendorNumber(EncodeVendorSpecific(ADDRESS_LIST, text), subtype);
          NoTimeout(ADDRESS_LIST, text);
        case RateLimit(text) =>
          VendorCarries(RATE_LIMIT, text, subtype);
          OneVendorNumber(EncodeVendorSpecific(RATE_LIMIT, text), subtype);
          NoTimeout(RATE_LIMIT, text);
        case TotalLimit(bytes) => if bytes > 0 { LimitIsNoTimeout(bytes); }
        case SessionTimeout(seconds) => NumberIsNoLimit(SESSION_TIMEOUT, seconds, subtype);
        case PortLimit(devices) => NumberIsNoLimit(PORT_LIMIT, devices, subtype);
        case Unsupported =>
      }
    }
  }

  lemma LimitIsNoTimeout(bytes: nat)
    requires EncodeTotalLimit(bytes).Some?
    ensures Timeouts(EncodeTotalLimit(bytes).value) == []
  {
    hide EncodeVendorSpecific;
    var low, gigawords := bytes % U32_RANGE, bytes / U32_RANGE;
    NoTimeout(TOTAL_LIMIT, U32(low));
    if gigawords > 0 {
      NoTimeout(TOTAL_LIMIT_GIGAWORDS, U32(gigawords));
      var a, b := EncodeVendorSpecific(TOTAL_LIMIT, U32(low)), EncodeVendorSpecific(TOTAL_LIMIT_GIGAWORDS, U32(gigawords));
      assert [a, b] == [a] + [b];
      TimeoutsConcat([a], [b]);
    }
  }

  lemma NumberIsNoLimit(kind: byte, n: int, subtype: byte)
    requires kind != VENDOR_SPECIFIC
    ensures EncodeNumber(kind, n).Some? ==>
      && VendorNumbers(EncodeNumber(kind, n).value, subtype) == []
      && (kind != SESSION_TIMEOUT ==> Timeouts(EncodeNumber(kind, n).value) == [])
  {
    if EncodeNumber(kind, n).Some? {
      var a := EncodeNumber(kind, n).value[0];
      OneVendorNumber(a, subtype);
      assert [a][..0] == [];
    }
  }

  lemma {:induction false} RepliesGrantNoLimit(replies: seq<Reply>, remaining: Remaining, subtype: byte)
    requires NamesLimit(subtype) && EncodeReplies(replies, Some(remaining)).Some?
    ensures remaining.bytes.Some? ==> VendorNumbers(EncodeReplies(replies, Some(remaining)).value, subtype) == []
    ensures remaining.seconds.Some? ==> Timeouts(EncodeReplies(replies, Some(remaining)).value) == []
    decreases |replies|
  {
    if |replies| > 0 {
      hide EncodeReply, VendorNumbers, Timeouts;
      var front, last := replies[..|replies| - 1], replies[|replies| - 1];
      RepliesGrantNoLimit(front, remaining, subtype);
      OtherReplies(last, Some(remaining), subtype);
      var a, b := EncodeReplies(front, Some(remaining)).value, EncodeReply(last, Some(remaining)).value;
      VendorNumbersConcat(a, b, subtype);
      TimeoutsConcat(a, b);
    } else {
      assert VendorNumbers([], subtype) == [] && Timeouts([]) == [];
    }
  }

  /** Whatever a voucher's reply rows say, a returning phone is granted exactly the data and the
      time left, once each. */
  lemma ReturningPhoneGetsWhatIsLeft(replies: seq<Reply>, remaining: Remaining)
    requires Grantable(Some(remaining)) && Build(replies, Some(remaining)).Some?
    requires remaining.bytes.Some? ==> remaining.bytes.value < U32_RANGE * U32_RANGE
    ensures var attrs := Build(replies, Some(remaining)).value;
      && (remaining.bytes.Some? ==> DataGranted(attrs) == Some(remaining.bytes.value))
      && (remaining.seconds.Some? ==> Timeouts(attrs) == [remaining.seconds.value])
  {
    hide EncodeReplies, VendorNumbers, Timeouts, EncodeTotalLimit;
    var some := Some(remaining);
    var rows, time, data := EncodeReplies(replies, some).value, TimeLeft(some).value, DataLeft(some).value;
    assert Build(replies, some).value == rows + time + data;
    TimeoutsConcat(rows, time);
    TimeoutsConcat(rows + time, data);
    TimeIsRead(remaining);
    if remaining.bytes.Some? {
      TotalLimitReadsBack(remaining.bytes.value);
      LimitParts(replies, remaining, TOTAL_LIMIT);
      LimitParts(replies, remaining, TOTAL_LIMIT_GIGAWORDS);
    }
    if remaining.seconds.Some? {
      RepliesGrantNoLimit(replies, remaining, TOTAL_LIMIT);
      if remaining.bytes.None? {
        assert Timeouts([]) == [] by { EmptyReads(); }
      }
    }
  }

  lemma EmptyReads()
    ensures Timeouts([]) == [] && forall s: byte :: VendorNumbers([], s) == []
  {
  }

  lemma TimeIsRead(remaining: Remaining)
    requires TimeLeft(Some(remaining)).Some?
    ensures remaining.seconds.Some? ==> Timeouts(TimeLeft(Some(remaining)).value) == [remaining.seconds.value]
  {
    if remaining.seconds.Some? {
      var n := remaining.seconds.value;
      U32RoundTrip(n);
      assert [Attribute(SESSION_TIMEOUT, U32(n))][..0] == [];
    }
  }

  lemma LimitParts(replies: seq<Reply>, remaining: Remaining, subtype: byte)
    requires NamesLimit(subtype) && Grantable(Some(remaining)) && Build(replies, Some(remaining)).Some? && remaining.bytes.Some?
    ensures VendorNumbers(Build(replies, Some(remaining)).value, subtype)
         == VendorNumbers(EncodeTotalLimit(remaining.bytes.value).value, subtype)
  {
    hide EncodeReplies, VendorNumbers, EncodeTotalLimit;
    var some := Some(remaining);
    var rows, time, data := EncodeReplies(replies, some).value, TimeLeft(some).value, DataLeft(some).value;
    RepliesGrantNoLimit(replies, remaining, subtype);
    if remaining.seconds.Some? {
      NumberIsNoLimit(SESSION_TIMEOUT, remaining.seconds.value, subtype);
    }
    EmptyReads();
    VendorNumbersConcat(rows, time, subtype);
    VendorNumbersConcat(rows + time, data, subtype);
  }

  /** Over the wire as well: the router that parses the Access-Accept reads the data and time left. */
  lemma GrantReachesTheRouter(md5: Md5, hmac: Hmac, identifier: byte, requestAuthenticator: Block, secret: seq<byte>,
                              replies: seq<Reply>, remaining: Remaining)
    requires Grantable(Some(remaining)) && Build(replies, Some(remaining)).Some?
    requires remaining.bytes.Some? ==> remaining.bytes.value < U32_RANGE * U32_RANGE
    requires Printable(Build(replies, Some(remaining)).value)
    requires Response(md5, hmac, ACCESS_ACCEPT, identifier, requestAuthenticator, secret, Build(replies, Some(remaining)).value).Sent?
    ensures var reply := Response(md5, hmac, ACCESS_ACCEPT, identifier, requestAuthenticator, secret, Build(replies, Some(remaining)).value);
      && Parse(reply.bytes).Received?
      && (remaining.bytes.Some? ==> DataGranted(Parse(reply.bytes).packet.attributes) == Some(remaining.bytes.value))
      && (remaining.seconds.Some? ==> Timeouts(Parse(reply.bytes).packet.attributes) == [remaining.seconds.value])
  {
    hide Response, Parse, VendorNumbers, Timeouts, Build;
    var attrs := Build(replies, Some(remaining)).value;
    var bytes := Response(md5, hmac, ACCESS_ACCEPT, identifier, requestAuthenticator, secret, attrs).bytes;
    ResponseParsesBack(md5, hmac, ACCESS_ACCEPT, identifier, requestAuthenticator, secret, attrs);
    ReturningPhoneGetsWhatIsLeft(replies, remaining);
    var sign := Signature(bytes);
    SignatureIsNoLimit(sign, TOTAL_LIMIT);
    SignatureIsNoLimit(sign, TOTAL_LIMIT_GIGAWORDS);
    VendorNumbersConcat(attrs, [sign], TOTAL_LIMIT);
    VendorNumbersConcat(attrs, [sign], TOTAL_LIMIT_GIGAWORDS);
    TimeoutsConcat(attrs, [sign]);
  }

  lemma SignatureIsNoLimit(sign: Attribute, subtype: byte)
    requires sign.kind == MESSAGE_AUTHENTICATOR
    ensures VendorNumbers([sign], subtype) == [] && Timeouts([sign]) == []
  {
    OneVendorNumber(sign, subtype);
    assert [sign][..0] == [];
  }

  // ---------------------------------------------------------------------------------------
  // What a login by code is granted
  // ---------------------------------------------------------------------------------------

  /** The numbers a reply row may carry without throwing. */
  predicate Fits(reply: Reply) {
    match reply
    case SessionTimeout(n) => n < U32_RANGE
    case PortLimit(n) => n < U32_RANGE
    case TotalLimit(n) => n < U32_RANGE * U32_RANGE
    case _ => true
  }

  lemma EncodesIfFits(reply: Reply)
    ensures EncodeReply(reply, None).Some? <==> Fits(reply)
  {
    hide EncodeVendorSpecific;
    if reply.TotalLimit? && reply.bytes > 0 {
      var n, high := reply.bytes, reply.bytes / U32_RANGE;
      assert n == high * U32_RANGE + n % U32_RANGE;
      assert high < U32_RANGE <==> n < U32_RANGE * U32_RANGE;
    }
  }

  lemma {:induction false} RepliesEncodeIfTheyFit(replies: seq<Reply>)
    ensures Build(replies, None).Some? <==> forall i :: 0 <= i < |replies| ==> Fits(replies[i])
    decreases |replies|
  {
    hide EncodeReply, Fits;
    if |replies| > 0 {
      var n := |replies| - 1;
      RepliesEncodeIfTheyFit(replies[..n]);
      EncodesIfFits(replies[n]);
      assert forall i :: 0 <= i < n ==> replies[..n][i] == replies[i];
    }
  }

  lemma {:induction false} RepliesConcat(a: seq<Reply>, b: seq<Reply>)
    ensures EncodeReplies(a + b, None) == Both(EncodeReplies(a, None), EncodeReplies(b, None))
    decreases |b|
  {
    hide EncodeReply;
    if |b| == 0 {
      assert a + b == a;
      assert EncodeReplies(a, None).Some? ==> EncodeReplies(a, None).value + [] == EncodeReplies(a, None).value;
    } else {
      var front, last := b[..|b| - 1], b[|b| - 1];
      RepliesConcat(a, front);
      assert (a + b)[..|a + b| - 1] == a + front && (a + b)[|a + b| - 1] == last;
      var x, y, z := EncodeReplies(a, None), EncodeReplies(front, None), EncodeReply(last, None);
      if x.Some? && y.Some? && z.Some? {
        assert (x.value + y.value) + z.value == x.value + (y.value + z.value);
      }
    }
  }

  lemma {:induction false} OtherRowsGrantNothing(replies: seq<Reply>, subtype: byte)
    requires NamesLimit(subtype) && EncodeReplies(replies, None).Some?
    ensures (forall i :: 0 <= i < |replies| ==> !replies[i].TotalLimit?) ==> VendorNumbers(EncodeReplies(replies, None).value, subtype) == []
    ensures (forall i :: 0 <= i < |replies| ==> !replies[i].SessionTimeout?) ==> Timeouts(EncodeReplies(replies, None).value) == []
    decreases |replies|
  {
    hide EncodeReply, VendorNumbers, Timeouts;
    EmptyReads();
    if |replies| > 0 {
      var front, last := replies[..|replies| - 1], replies[|replies| - 1];
      OtherRowsGrantNothing(front, subtype);
      OtherReplies(last, None, subtype);
      var a, b := EncodeReplies(front, None).value, EncodeReply(last, None).value;
      VendorNumbersConcat(a, b, subtype);
      TimeoutsConcat(a, b);
    }
  }

  /** Rows around one of interest: what the router reads is what that one row says. */
  lemma OneRowReads(before: seq<Reply>, row: Reply, after: seq<Reply>, subtype: byte)
    requires NamesLimit(subtype) && EncodeReplies(before + [row] + after, None).Some?
    ensures EncodeReply(row, None).Some?
    ensures (forall i :: 0 <= i < |before| ==> !before[i].TotalLimit?) && (forall i :: 0 <= i < |after| ==> !after[i].TotalLimit?) ==>
              VendorNumbers(EncodeReplies(before + [row] + after, None).value, subtype) == VendorNumbers(EncodeReply(row, None).value, subtype)
    ensures (forall i :: 0 <= i < |before| ==> !before[i].SessionTimeout?) && (forall i :: 0 <= i < |after| ==> !after[i].SessionTimeout?) ==>
              Timeouts(EncodeReplies(before + [row] + after, None).value) == Timeouts(EncodeReply(row, None).value)
  {
    hide EncodeReply, VendorNumbers, Timeouts;
    RepliesConcat(before + [row], after);
    RepliesConcat(before, [row]);
    OneRowEncodes(row);
    var a, m, b := EncodeReplies(before, None).value, EncodeReply(row, None).value, EncodeReplies(after, None).value;
    OtherRowsGrantNothing(before, subtype);
    OtherRowsGrantNothing(after, subtype);
    VendorNumbersConcat(a, m, subtype);
    VendorNumbersConcat(a + m, b, subtype);
    TimeoutsConcat(a, m);
    TimeoutsConcat(a + m, b);
  }

  lemma OneRowEncodes(row: Reply)
    ensures EncodeReplies([row], None) == EncodeReply(row, None)
  {
    hide EncodeReply;
    assert [row][..0] == [];
    assert EncodeReplies([], None) == Some([]);
    assert EncodeReply(row, None).Some? ==> [] + EncodeReply(row, None).value == EncodeReply(row, None).value;
  }

  /** Rows with one data limit among them grant that limit. */
  lemma OneLimitIsGranted(before: seq<Reply>, total: nat, after: seq<Reply>)
    requires total > 0 && Build(before + [TotalLimit(total)] + after, None).Some?
    requires forall i :: 0 <= i < |before| ==> !before[i].TotalLimit?
    requires forall i :: 0 <= i < |after| ==> !after[i].TotalLimit?
    ensures DataGranted(Build(before + [TotalLimit(total)] + after, None).value) == Some(total)
  {
    hide EncodeReplies, VendorNumbers, EncodeTotalLimit, EncodeReply;
    var rows := before + [TotalLimit(total)] + after;
    PlainBuild(rows);
    OneRowReads(before, TotalLimit(total), after, TOTAL_LIMIT);
    OneRowReads(before, TotalLimit(total), after, TOTAL_LIMIT_GIGAWORDS);
    EncodesIfFits(TotalLimit(total));
    LimitRow(total);
    TotalLimitReadsBack(total);
  }

  lemma LimitRow(total: nat)
    requires total > 0
    ensures EncodeReply(TotalLimit(total), None) == EncodeTotalLimit(total)
  {
    hide EncodeTotalLimit;
  }

  lemma PlainBuild(rows: seq<Reply>)
    ensures Build(rows, None) == EncodeReplies(rows, None)
  {
    hide EncodeReplies;
    var r := EncodeReplies(rows, None);
    assert r.Some? ==> r.value + [] + [] == r.value;
  }

  /** Rows with one session time among them grant that time. */
  lemma OneTimeIsGranted(before: seq<Reply>, seconds: nat, after: seq<Reply>)
    requires seconds > 0 && Build(before + [SessionTimeout(seconds)] + after, None).Some?
    requires forall i :: 0 <= i < |before| ==> !before[i].SessionTimeout?
    requires forall i :: 0 <= i < |after| ==> !after[i].SessionTimeout?
    ensures Timeouts(Build(before + [SessionTimeout(seconds)] + after, None).value) == [seconds]
  {
    var rows := before + [SessionTimeout(seconds)] + after;
    PlainBuild(rows);
    OneRowReads(before, SessionTimeout(seconds), after, TOTAL_LIMIT);
    U32RoundTrip(seconds);
    assert [Attribute(SESSION_TIMEOUT, U32(seconds))][..0] == [];
    hide EncodeReplies;
  }

  /** Rows without a limit, or without a time, grant none. */
  lemma NoRowNoGrant(rows: seq<Reply>)
    requires Build(rows, None).Some?
    ensures (forall i :: 0 <= i < |rows| ==> !rows[i].TotalLimit?) ==> DataGranted(Build(rows, None).value) == None
    ensures (forall i :: 0 <= i < |rows| ==> !rows[i].SessionTimeout?) ==> Timeouts(Build(rows, None).value) == []
  {
    PlainBuild(rows);
    OtherRowsGrantNothing(rows, TOTAL_LIMIT);
    hide EncodeReplies, VendorNumbers;
  }

  // ---------------------------------------------------------------------------------------
  // Every row on the wire
  // ---------------------------------------------------------------------------------------

  /** The attribute of vendor 14988 (MikroTik) under a vendor type. */
  ghost function Vendor(subtype: byte, value: seq<byte>): Attribute {
    Attribute(26, [0, 0, 58, 140, subtype, (|value| + 2) % 256] + value)
  }

  /** What a row is on the wire: a rate limit and an address list always, a number when it is
      positive, and a time or data limit unless what is left takes its place. */
  ghost function Wire(row: Reply, remaining: Option<Remaining>): seq<Attribute> {
    match row
    case RateLimit(text) => [Vendor(8, text)]
    case AddressList(text) => [Vendor(19, text)]
    case PortLimit(n) => if n > 0 then [Attribute(62, U32(n))] else []
    case SessionTimeout(n) =>
      if n <= 0 || (remaining.Some? && remaining.value.seconds.Some?) then [] else [Attribute(27, U32(n))]
    case TotalLimit(n) =>
      if n <= 0 || (remaining.Some? && remaining.value.bytes.Some?) then []
      else if n < 0x1_0000_0000 then [Vendor(17, U32(n))]
      else [Vendor(17, U32(n % 0x1_0000_0000)), Vendor(18, U32(n / 0x1_0000_0000))]
    case Unsupported => []
  }

  lemma VendorIs(subtype: byte, value: seq<byte>)
    ensures EncodeVendorSpecific(subtype, value) == Vendor(subtype, value)
  {
    BigEndian(14988);
    assert U32(MIKROTIK) + [subtype, (|value| + 2) % 256] + value == [0, 0, 58, 140, subtype, (|value| + 2) % 256] + value;
  }

  lemma RowOnTheWire(row: Reply, remaining: Option<Remaining>)
    ensures EncodeReply(row, remaining).Some? ==> EncodeReply(row, remaining).value == Wire(row, remaining)
  {
    hide EncodeVendorSpecific, Vendor;
    match row {
      case RateLimit(text) => VendorIs(RATE_LIMIT, text);
      case AddressList(text) => VendorIs(ADDRESS_LIST, text);
      case TotalLimit(n) =>
        if n > 0 {
          VendorIs(TOTAL_LIMIT, U32(n % 0x1_0000_0000));
          VendorIs(TOTAL_LIMIT_GIGAWORDS, U32(n / 0x1_0000_0000));
        }
      case _ =>
    }
  }

  /** The attributes sent are those of the rows, of the time left and of the data left: none is
      dropped and none made up. */
  lemma EveryRowIsSent(replies: seq<Reply>, remaining: Option<Remaining>, a: Attribute)
    requires Grantable(remaining) && Build(replies, remaining).Some?
    ensures a in Build(replies, remaining).value
       <==> (exists i :: 0 <= i < |replies| && a in Wire(replies[i], remaining))
            || a in TimeLeft(remaining).value || a in DataLeft(remaining).value
  {
    hide Wire, EncodeReplies;
    RowsAreSent(replies, remaining, a);
  }

  lemma {:induction false} RowsAreSent(replies: seq<Reply>, remaining: Option<Remaining>, a: Attribute)
    requires EncodeReplies(replies, remaining).Some?
    ensures a in EncodeReplies(replies, remaining).value <==> exists i :: 0 <= i < |replies| && a in Wire(replies[i], remaining)
    decreases |replies|
  {
    hide EncodeReply, Wire;
    if |replies| > 0 {
      var n := |replies| - 1;
      RowsAreSent(replies[..n], remaining, a);
      RowOnTheWire(replies[n], remaining);
      assert forall i :: 0 <= i < n ==> replies[..n][i] == replies[i];
    }
  }

  /** Sending throws exactly when some number sent, of a row or of what is left, is too long. */
  lemma ThrowsExactly(replies: seq<Reply>, remaining: Option<Remaining>)
    requires Grantable(remaining)
    ensures Build(replies, remaining).Some?
       <==> (forall i :: 0 <= i < |replies| ==> Wire(replies[i], remaining) == [] || Fits(replies[i]))
            && (remaining.Some? && remaining.value.seconds.Some? ==> 0 <= remaining.value.seconds.value < 0x1_0000_0000)
            && (remaining.Some? && remaining.value.bytes.Some? ==> remaining.value.bytes.value < 0x1_0000_0000 * 0x1_0000_0000)
  {
    hide Wire, EncodeReplies, Fits;
    RowsThrow(replies, remaining);
    if remaining.Some? && remaining.value.bytes.Some? {
      var n := remaining.value.bytes.value;
      assert n == n / U32_RANGE * U32_RANGE + n % U32_RANGE;
    }
  }

  lemma {:induction false} RowsThrow(replies: seq<Reply>, remaining: Option<Remaining>)
    ensures EncodeReplies(replies, remaining).Some?
       <==> forall i :: 0 <= i < |replies| ==> Wire(replies[i], remaining) == [] || Fits(replies[i])
    decreases |replies|
  {
    hide EncodeReply, Wire, Fits;
    if |replies| > 0 {
      var n := |replies| - 1;
      RowsThrow(replies[..n], remaining);
      RowThrows(replies[n], remaining);
      assert forall i :: 0 <= i < n ==> replies[..n][i] == replies[i];
    }
  }

  lemma RowThrows(row: Reply, remaining: Option<Remaining>)
    ensures EncodeReply(row, remaining).Some? <==> Wire(row, remaining) == [] || Fits(row)
  {
    hide EncodeVendorSpecific, Vendor;
    EncodesIfFits(row);
  }
}
