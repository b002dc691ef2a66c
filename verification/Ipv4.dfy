/** IPv4 addresses and blocks. The sources compute with 32-bit operators (packages/radius/src/cidr.ts,
    packages/radius/src/vlan-script.ts, packages/network/src/wireguard-peer.service.ts,
    packages/network/src/winbox-relay.service.ts); the results are plain intervals of integers. */
module Ipv4 {
  import opened Digits
  import opened JsBits
  import opened Optional
  import opened Text

  // ---------------------------------------------------------------------------------------
  // The codec
  // ---------------------------------------------------------------------------------------

  function Octet(s: string): Option<nat> {
    if 1 <= |s| <= 3 && AllDigits(s) && Number(s) <= 255 then Some(Number(s)) else None
  }

  /** The fold `(acc << 8) + part`, on signed 32-bit accumulators. */
  function FoldOctets(acc: int, parts: seq<nat>): int
    decreases |parts|
  {
    if |parts| == 0 then acc else FoldOctets(Shl(acc, 8) + parts[0], parts[1..])
  }

  function Octets(parts: seq<string>): Option<seq<nat>>
    ensures Octets(parts).Some? ==> |Octets(parts).value| == |parts| && InBase(256, Octets(parts).value)
  {
    if |parts| == 0 then Some([])
    else
      match (Octet(parts[0]), Octets(parts[1..]))
      case (Some(o), Some(rest)) => Some([o] + rest)
      case _ => None
  }

  function Ipv4ToInt(ip: string): Option<nat> {
    var parts := Split(ip, '.');
    if |parts| != 4 then None
    else
      match Octets(parts)
      case None => None
      case Some(octets) => Some(ToUint32(FoldOctets(0, octets)))
  }

  /** An address is four numbers of one to three digits, none above 255. */
  lemma AddressReads(parts: seq<string>)
    requires |parts| >= 1 && forall i :: 0 <= i < |parts| ==> '.' !in parts[i]
    ensures Ipv4ToInt(Join(parts, ".")).Some?
       <==> |parts| == 4 && forall i :: 0 <= i < 4 ==> |parts[i]| in {1, 2, 3} && AllDigits(parts[i]) && Number(parts[i]) < 256
  {
    hide Split, Join, Number;
    SplitJoin(parts, '.');
    assert ['.'] == ".";
    OctetsRead(parts);
  }

  lemma {:induction false} OctetsRead(parts: seq<string>)
    ensures Octets(parts).Some?
       <==> forall i :: 0 <= i < |parts| ==> |parts[i]| in {1, 2, 3} && AllDigits(parts[i]) && Number(parts[i]) < 256
  {
    hide Number;
    if |parts| > 0 {
      OctetsRead(parts[1..]);
      assert forall i :: 0 < i < |parts| ==> parts[i] == parts[1..][i - 1];
    }
  }

  function IntToIpv4(n: int): string {
    Join([Decimal(Byte(n, 24)), Decimal(Byte(n, 16)), Decimal(Byte(n, 8)), Decimal(Byte(n, 0))], ".")
  }

  /** `(n >>> k) & 255`. */
  function Byte(n: int, k: nat): nat
    requires k <= 24
  {
    ByteBits(n, k);
    And(ShrU(n, k), 255)
  }

  lemma ByteBits(n: int, k: nat)
    requires k <= 24
    ensures And(ShrU(n, k), 255) == ToUint32(n) / Pow2(k) % 256
  {
    hide Pow, And;
    Pow2Of32();
    ShrUFits(n, k);
    AndMask(ShrU(n, k), 8);
  }

  lemma ShiftByte(acc: int, n: nat, p: nat)
    requires ToUint32(acc) == n % TWO_32
    ensures ToUint32(Shl(acc, 8) + p) == (n * 256 + p) % TWO_32
  {
    Pow2Of32();
    var u := ToUint32(acc);
    assert ToUint32(Shl(acc, 8)) == (u * 256) % TWO_32;
  }

  /** The signed fold is the base-256 numeral. */
  lemma {:induction false} FoldIsValue(acc: int, done: seq<nat>, parts: seq<nat>)
    requires ToUint32(acc) == Value(256, done) % TWO_32
    ensures ToUint32(FoldOctets(acc, parts)) == Value(256, done + parts) % TWO_32
    decreases |parts|
  {
    if |parts| > 0 {
      ShiftByte(acc, Value(256, done), parts[0]);
      assert (done + [parts[0]])[..|done|] == done;
      FoldIsValue(Shl(acc, 8) + parts[0], done + [parts[0]], parts[1..]);
      assert done + [parts[0]] + parts[1..] == done + parts;
    } else {
      assert done + parts == done;
    }
  }

  lemma IpOctets(octets: seq<nat>)
    requires |octets| == 4 && InBase(256, octets)
    ensures ToUint32(FoldOctets(0, octets)) == Value(256, octets) < TWO_32
  {
    hide FoldOctets;
    FoldIsValue(0, [], octets);
    assert [] + octets == octets;
    OfValue(256, octets);
    PowOf256();
    SmallMod(Value(256, octets), TWO_32);
  }

  lemma PowOf256()
    ensures Pow(256, 4) == TWO_32
  {
    assert Pow(256, 1) == 256;
    assert Pow(256, 2) == 256 * Pow(256, 1);
    assert Pow(256, 3) == 256 * Pow(256, 2);
    assert Pow(256, 4) == 256 * Pow(256, 3);
  }

  /** The VLAN planner shifts each octet into place on its own instead of folding. */
  function PlacedOctets(octets: seq<nat>): int
    requires |octets| == 4
  {
    ToUint32(Shl(octets[0], 24)) + Shl(octets[1], 16) + Shl(octets[2], 8) + octets[3]
  }

  /** Both ways of reading four octets give the same number, sign bit and all. */
  lemma PlacedIsFolded(octets: seq<nat>)
    requires |octets| == 4 && InBase(256, octets)
    ensures PlacedOctets(octets) == ToUint32(FoldOctets(0, octets))
  {
    hide FoldOctets, Pow, Value;
    IpOctets(octets);
    Value4(256, octets[0], octets[1], octets[2], octets[3]);
    assert octets == [octets[0], octets[1], octets[2], octets[3]];
    Placed(octets[0], 24);
    Placed(octets[1], 16);
    Placed(octets[2], 8);
  }

  lemma Placed(octet: nat, k: nat)
    requires octet < 256 && (k == 8 || k == 16 || k == 24)
    ensures Pow2(8) == 0x100 && Pow2(16) == 0x1_0000 && Pow2(24) == 0x100_0000
    ensures ToUint32(Shl(octet, k)) == octet * Pow2(k)
    ensures k != 24 ==> Shl(octet, k) == octet * Pow2(k)
  {
    hide Pow;
    Pow2Of32();
    SmallMod(octet, TWO_32);
    SmallMod(octet * Pow2(k), TWO_32);
  }

  /** What is printed is read back. */
  lemma CodecRoundTrip(n: nat)
    requires n < TWO_32
    ensures Ipv4ToInt(IntToIpv4(n)) == Some(n)
  {
    hide FoldOctets, Octets, Value, Of, Split, Join, Byte;
    var octets := [Byte(n, 24), Byte(n, 16), Byte(n, 8), Byte(n, 0)];
    var parts := [Decimal(octets[0]), Decimal(octets[1]), Decimal(octets[2]), Decimal(octets[3])];
    PrintedOctets(n);
    forall i | 0 <= i < 4
      ensures Octet(parts[i]) == Some(octets[i]) && '.' !in parts[i]
    {
      OctetBack(octets[i]);
    }
    SplitJoin(parts, '.');
    OctetsOf(parts, octets);
    IpOctets(octets);
    PowOf256();
    ValueOf(256, n, 4);
    SmallMod(n, TWO_32);
  }

  lemma OctetBack(o: nat)
    requires o < 256
    ensures Octet(Decimal(o)) == Some(o) && '.' !in Decimal(o)
  {
    NumberDecimal(o);
    DecimalShort(o);
  }

  lemma {:induction false} OctetsOf(parts: seq<string>, octets: seq<nat>)
    requires |parts| == |octets| && forall i :: 0 <= i < |parts| ==> Octet(parts[i]) == Some(octets[i])
    ensures Octets(parts) == Some(octets)
    decreases |parts|
  {
    if |parts| > 0 {
      OctetsOf(parts[1..], octets[1..]);
      assert octets == [octets[0]] + octets[1..];
    }
  }

  /** The four bytes are the base-256 digits. */
  lemma PrintedOctets(n: nat)
    requires n < TWO_32
    ensures [Byte(n, 24), Byte(n, 16), Byte(n, 8), Byte(n, 0)] == Of(256, n, 4)
  {
    Pow2Of32();
    assert Pow2(0) == 1;
    ByteBits(n, 24);
    ByteBits(n, 16);
    ByteBits(n, 8);
    ByteBits(n, 0);
    SmallMod(n, TWO_32);
    FourDigits(n);
  }

  lemma FourDigits(n: nat)
    ensures Of(256, n, 4) == [n / 0x100_0000 % 256, n / 0x1_0000 % 256, n / 256 % 256, n % 256]
  {
    var a, b, c := n / 256, n / 256 / 256, n / 256 / 256 / 256;
    assert Of(256, c, 1) == [c % 256] by {
      assert Of(256, c / 256, 0) == [];
    }
    assert Of(256, b, 2) == [c % 256, b % 256];
    assert Of(256, a, 3) == [c % 256, b % 256, a % 256];
  }

  /** Different numbers are printed differently. */
  lemma PrinterInjective(m: nat, n: nat)
    requires m < TWO_32 && n < TWO_32 && IntToIpv4(m) == IntToIpv4(n)
    ensures m == n
  {
    CodecRoundTrip(m);
    CodecRoundTrip(n);
  }

  // ---------------------------------------------------------------------------------------
  // Blocks
  // ---------------------------------------------------------------------------------------

  const ALL_ONES: int := 0xFFFF_FFFF

  function BlockSize(prefix: int): nat {
    var hostBits := 32 - prefix;
    if hostBits >= 32 then ALL_ONES else ToUint32(Shl(1, hostBits))
  }

  function BlockNetwork(base: nat, prefix: int): nat {
    var hostBits := 32 - prefix;
    if hostBits >= 32 then 0 else ToUint32(And(base, Not(BlockSize(prefix) - 1)))
  }

  /** The block's first address, as arithmetic. */
  function Floor(base: nat, hostBits: nat): (n: nat)
    ensures n <= base
  {
    base - base % Pow2(hostBits)
  }

  lemma Pow2Small(k: nat)
    requires k <= 32
    ensures Pow2(k) <= TWO_32
    ensures k <= 31 ==> Pow2(k) <= TWO_31
  {
    Pow2Of32();
    if k <= 31 {
      PowAdd(2, k, 31 - k);
      MulAtLeast(Pow2(k), Pow2(31 - k));
    }
  }

  lemma ShlOne(k: nat)
    requires k <= 31
    ensures ToUint32(Shl(1, k)) == Pow2(k)
  {
    hide Pow;
    Pow2Small(k);
    SmallMod(Pow2(k), TWO_32);
    assert ToUint32(1) == 1 && k % 32 == k;
    assert 1 * Pow2(k) == Pow2(k);
  }

  /** `x & mask` for the mask with k low zeros. */
  lemma AndNetmask(x: nat, mask: int, k: nat)
    requires x < TWO_32 && k <= 32
    requires ToUint32(mask) == (TWO_32 - Pow2(k)) % TWO_32
    ensures ToUint32(And(x, mask)) == Floor(x, k)
  {
    hide Pow;
    Pow2Of32();
    Pow2Small(k);
    SmallMod(x, TWO_32);
    if k == 32 {
      assert AndBits(x, 0) == 0;
    } else {
      SmallMod(TWO_32 - Pow2(k), TWO_32);
      AndHigh(x, 32, k);
      SmallMod(Floor(x, k), TWO_32);
    }
  }

  /** How many host bits the code works with. A shift count wraps at 32, so a prefix above 32 counts
      as a much shorter one; only /0 is set apart. */
  function HostBits(prefix: nat): (k: nat)
    ensures k <= 32 && (prefix <= 32 ==> k == 32 - prefix)
  {
    if prefix == 0 then 32 else (32 - prefix) % 32
  }

  /** The size and network the bit code computes, for every prefix that can be written. The size of
      /0 is one short. */
  lemma BlockIsInterval(base: nat, prefix: nat)
    requires base < TWO_32
    ensures BlockSize(prefix) == if prefix == 0 then Pow2(32) - 1 else Pow2(HostBits(prefix))
    ensures BlockNetwork(base, prefix) == Floor(base, HostBits(prefix))
  {
    hide Pow, And;
    Pow2Of32();
    if prefix == 0 {
      SmallMod(base, TWO_32);
    } else {
      var k := HostBits(prefix);
      ShlOne(k);
      assert k % 32 == (32 - prefix) % 32;
      assert Shl(1, 32 - prefix) == Shl(1, k);
      Pow2Small(k);
      var p: int := Pow2(k);
      assert ToUint32(Not(p - 1)) == ToUint32(-p) == TWO_32 - p;
      AndNetmask(base, Not(Pow2(k) - 1), k);
    }
  }

  /** A block ends inside the 32-bit space. */
  lemma BlockFits(base: nat, k: nat)
    requires base < TWO_32 && k <= 32
    ensures Floor(base, k) + Pow2(k) <= TWO_32
  {
    hide Pow;
    Pow2Of32();
    assert TWO_32 == Pow2(k) * Pow2(32 - k) by {
      PowAdd(2, k, 32 - k);
    }
    MultiplesApart(base, Pow2(k), Pow2(32 - k));
  }

  lemma MultiplesApart(x: nat, p: nat, q: nat)
    requires p >= 1 && x < p * q
    ensures x - x % p + p <= p * q
  {
    DivLess(x, q, p);
    var d := x / p;
    assert x == d * p + x % p;
    assert (q - d) * p >= p by {
      MulGrows(q - d, p);
    }
    assert (q - d) * p == p * q - d * p;
  }

  // ---------------------------------------------------------------------------------------
  // Reading a block
  // ---------------------------------------------------------------------------------------

  datatype Cidr = Cidr(base: nat, prefix: nat)

  function ParseCidr(text: string): (r: Option<Cidr>)
    ensures r.Some? ==> r.value.base < TWO_32 && r.value.prefix <= 99
  {
    var parts := Split(Trim(text), '/');
    if |parts| != 2 || !(1 <= |parts[1]| <= 2) || !AllDigits(parts[1]) then None
    else
      match Ipv4ToInt(parts[0])
      case None => None
      case Some(base) => TwoDigitNumber(parts[1]); Some(Cidr(base, Number(parts[1])))
  }

  /** A block is an address, a slash and one or two digits. */
  lemma BlockReads(ip: string, bits: string)
    requires '/' !in ip && '/' !in bits && Trim(ip + "/" + bits) == ip + "/" + bits
    ensures ParseCidr(ip + "/" + bits) ==
            if Ipv4ToInt(ip).Some? && |bits| in {1, 2} && AllDigits(bits) then Some(Cidr(Ipv4ToInt(ip).value, Number(bits))) else None
  {
    hide Ipv4ToInt, Split, Trim, Number;
    SplitAfter(ip, bits, '/');
    SplitWhole(bits, '/');
  }

  lemma TwoDigitNumber(s: string)
    requires AllDigits(s) && |s| <= 2
    ensures Number(s) <= 99
  {
    if |s| > 0 {
      assert Number(s[..|s| - 1]) <= 9 by {
        if |s| == 2 {
          assert s[..1][..0] == "";
        }
      }
    }
  }

  // ---------------------------------------------------------------------------------------
  // Pools
  // ---------------------------------------------------------------------------------------

  const MAX_IPV4_POOL_SIZE: nat := 4096

  datatype Pool = InvalidBlock | TooLarge | Addresses(list: seq<string>)

  /** An address of a block by its offset, printed. */
  function HostAt(network: nat, offset: nat): string {
    IntToIpv4(ToUint32(network + offset))
  }

  /** The usable hosts from offset `first` on: everything below the broadcast address. */
  function Hosts(network: nat, first: nat, count: nat): (r: seq<string>)
    ensures |r| == count
  {
    seq(count, i requires 0 <= i < count => HostAt(network, first + i))
  }

  function Expanded(text: string): Pool {
    match ParseCidr(text)
    case None => InvalidBlock
    case Some(Cidr(base, prefix)) =>
      if prefix > 32 then InvalidBlock
      else if prefix >= 31 then Addresses([IntToIpv4(BlockNetwork(base, prefix))])
      else if BlockSize(prefix) - 2 > MAX_IPV4_POOL_SIZE then TooLarge
      else Addresses(Hosts(BlockNetwork(base, prefix), 1, if BlockSize(prefix) < 2 then 0 else BlockSize(prefix) - 2))
  }

  method ExpandIpv4Cidr(text: string) returns (r: Pool)
    ensures r == Expanded(text)
  {
    hide HostAt, ParseCidr, BlockSize, BlockNetwork;
    var cidr := ParseCidr(text);
    if cidr.None? || cidr.value.prefix > 32 {
      return InvalidBlock;
    }
    var size: int := BlockSize(cidr.value.prefix);
    var network := BlockNetwork(cidr.value.base, cidr.value.prefix);
    if cidr.value.prefix >= 31 {
      return Addresses([IntToIpv4(network)]);
    }
    var usableCount: int := size - 2;
    if usableCount > MAX_IPV4_POOL_SIZE {
      return TooLarge;
    }
    var addresses: seq<string> := [];
    var i := 1;
    while i <= usableCount
      invariant 1 <= i && (i <= usableCount + 1 || i == 1)
      invariant addresses == Hosts(network, 1, i - 1)
    {
      addresses := addresses + [HostAt(network, i)];
      i := i + 1;
    }
    r := Addresses(addresses);
  }

  /** Expansion lists exactly the hosts strictly between network and broadcast, in ascending order,
      for /20 to /30; a /31 or /32 gives its first address alone; anything larger is refused. */
  lemma ExpandedIsInterval(text: string)
    requires ParseCidr(text).Some?
    ensures var Cidr(base, prefix) := ParseCidr(text).value;
      && (Expanded(text) == InvalidBlock <==> prefix > 32)
      && (Expanded(text) == TooLarge <==> prefix < 20)
      && (31 <= prefix <= 32 ==> Expanded(text) == Addresses([IntToIpv4(Floor(base, 32 - prefix))]))
      && (20 <= prefix <= 30 ==>
            var network := Floor(base, 32 - prefix);
            var broadcast := network + Pow2(32 - prefix) - 1;
            && broadcast < TWO_32
            && Expanded(text).Addresses?
            && |Expanded(text).list| == broadcast - network - 1
            && forall i :: 0 <= i < |Expanded(text).list| ==> Expanded(text).list[i] == IntToIpv4(network + 1 + i))
  {
    hide Pow, IntToIpv4, ParseCidr, BlockSize, BlockNetwork;
    var Cidr(base, prefix) := ParseCidr(text).value;
    if 1 <= prefix <= 32 {
      BlockIsInterval(base, prefix);
      BlockFits(base, 32 - prefix);
      PoolSizes(32 - prefix);
    } else if prefix == 0 {
      ZeroPrefix();
    }
    if 20 <= prefix <= 30 {
      var network := Floor(base, 32 - prefix);
      var list := Hosts(network, 1, Pow2(32 - prefix) - 2);
      forall i | 0 <= i < |list|
        ensures list[i] == IntToIpv4(network + 1 + i)
      {
        SmallMod(network + 1 + i, TWO_32);
      }
    }
  }

  lemma ZeroPrefix()
    ensures BlockSize(0) == ALL_ONES
  {
  }

  lemma PoolSizes(k: nat)
    requires k <= 32
    ensures Pow2(k) - 2 > MAX_IPV4_POOL_SIZE <==> k >= 13
    ensures k >= 2 ==> Pow2(k) >= 4
  {
    assert Pow2(2) == 4;
    assert Pow2(12) == 4096 by {
      assert Pow(2, 6) == 64;
      PowAdd(2, 6, 6);
    }
    if k >= 13 {
      PowAdd(2, 13, k - 13);
      MulAtLeast(Pow2(13), Pow2(k - 13));
      assert Pow2(13) == 2 * Pow2(12);
    } else {
      PowAdd(2, k, 12 - k);
      MulAtLeast(Pow2(k), Pow2(12 - k));
      if k >= 2 {
        PowAdd(2, 2, k - 2);
        MulAtLeast(Pow2(2), Pow2(k - 2));
      }
    }
  }

  /** Membership: an address is in the pool exactly when it is a host of the block. */
  lemma ExpandedMembers(text: string, n: nat)
    requires ParseCidr(text).Some? && 20 <= ParseCidr(text).value.prefix <= 30 && n < TWO_32
    ensures var Cidr(base, prefix) := ParseCidr(text).value;
      var network := Floor(base, 32 - prefix);
      && Expanded(text).Addresses?
      && (IntToIpv4(n) in Expanded(text).list <==> network < n < network + Pow2(32 - prefix) - 1)
  {
    hide Pow, IntToIpv4, ParseCidr, Expanded;
    ExpandedIsInterval(text);
    var Cidr(base, prefix) := ParseCidr(text).value;
    var network := Floor(base, 32 - prefix);
    var list := Expanded(text).list;
    if i :| 0 <= i < |list| && list[i] == IntToIpv4(n) {
      PrinterInjective(network + 1 + i, n);
    }
    if network < n < network + Pow2(32 - prefix) - 1 {
      assert list[n - network - 1] == IntToIpv4(n);
    }
  }

  // ---------------------------------------------------------------------------------------
  // VPN addresses
  // ---------------------------------------------------------------------------------------

  datatype Allocation = InvalidSubnet | Exhausted | Allocated(ip: string)

  /** The search for the next VPN address: offset 1 is the server's own. */
  method AllocateNextVpnIp(text: string, used: set<string>) returns (r: Allocation)
    ensures r == InvalidSubnet <==> ParseCidr(text).None?
    ensures ParseCidr(text).Some? ==>
              var Cidr(base, prefix) := ParseCidr(text).value;
              var network, usable: int := BlockNetwork(base, prefix), BlockSize(prefix) - 2;
              && (r.Exhausted? ==> forall o :: 2 <= o <= usable ==> HostAt(network, o) in used)
              && (r.Allocated? ==>
                    && r.ip !in used
                    && exists o :: 2 <= o <= usable && r.ip == HostAt(network, o) && forall p :: 2 <= p < o ==> HostAt(network, p) in used)
    ensures r.Allocated? ==>
              var Cidr(base, prefix) := ParseCidr(text).value;
              HostWritten(base, prefix, r.ip) <==> prefix <= 32
  {
    hide HostAt, HostWritten, ParseCidr, BlockSize, BlockNetwork;
    var cidr := ParseCidr(text);
    if cidr.None? {
      return InvalidSubnet;
    }
    var size: int := BlockSize(cidr.value.prefix);
    var network := BlockNetwork(cidr.value.base, cidr.value.prefix);
    var usable: int := size - 2;
    var offset := 2;
    while offset <= usable
      invariant 2 <= offset
      invariant forall o :: 2 <= o < offset ==> HostAt(network, o) in used
    {
      var candidate := HostAt(network, offset);
      if candidate !in used {
        OffsetsAreHosts(cidr.value.base, cidr.value.prefix, offset);
        return Allocated(candidate);
      }
      offset := offset + 1;
    }
    r := Exhausted;
  }

  /** The addresses between network and broadcast of the block written; no block is written with a
      prefix above 32. */
  predicate HostOf(base: nat, prefix: nat, n: nat) {
    prefix <= 32 && Floor(base, 32 - prefix) < n < Floor(base, 32 - prefix) + Pow2(32 - prefix) - 1
  }

  ghost predicate HostWritten(base: nat, prefix: nat, ip: string) {
    exists n: nat :: n < TWO_32 && ip == IntToIpv4(n) && HostOf(base, prefix, n)
  }

  /** The offsets are distinct hosts, so an address handed out is not the network, the server or the
      broadcast address and belongs to nobody else. The block they are hosts of is the one the host
      bits say: the block written exactly when its prefix is at most 32, which nothing checks. */
  lemma OffsetsAreHosts(base: nat, prefix: nat, o: nat)
    requires base < TWO_32 && 2 <= o <= BlockSize(prefix) - 2
    ensures var network := Floor(base, HostBits(prefix));
      && BlockNetwork(base, prefix) == network
      && HostAt(network, o) == IntToIpv4(network + o) && network + o < network + Pow2(HostBits(prefix)) - 1 < TWO_32
      && (forall p: nat :: p < TWO_32 && p != network + o ==> IntToIpv4(p) != IntToIpv4(network + o))
      && (HostWritten(base, prefix, HostAt(network, o)) <==> prefix <= 32)
  {
    hide Pow, IntToIpv4, BlockSize, BlockNetwork, HostBits;
    BlockIsInterval(base, prefix);
    BlockFits(base, HostBits(prefix));
    var n := Floor(base, HostBits(prefix)) + o;
    SmallMod(n, TWO_32);
    forall p: nat | p < TWO_32 && p != n
      ensures IntToIpv4(p) != IntToIpv4(n)
    {
      if IntToIpv4(p) == IntToIpv4(n) {
        PrinterInjective(p, n);
      }
    }
    if prefix <= 32 {
      assert HostOf(base, prefix, n);
    }
  }

  /** With nothing handed out yet, the first address for "10.0.0.0/33" is 0.0.0.2. */
  lemma SlashThirtyThree()
    ensures ParseCidr("10.0.0.0/33") == Some(Cidr(0x0A00_0000, 33))
    ensures BlockNetwork(0x0A00_0000, 33) == 0 && BlockSize(33) == 0x8000_0000
    ensures HostAt(0, 2) == "0.0.0.2" && !HostWritten(0x0A00_0000, 33, "0.0.0.2")
  {
    ParsesAsTen();
    hide ParseCidr, IntToIpv4, BlockSize, BlockNetwork, Pow, Floor;
    Pow2Of32();
    BlockIsInterval(0x0A00_0000, 33);
    FloorBelow(0x0A00_0000);
    PrintsTwo();
  }

  lemma FloorBelow(base: nat)
    requires base < TWO_31
    ensures Floor(base, 31) == 0
  {
    hide Pow;
    Pow2Of32();
    SmallMod(base, TWO_31);
  }

  lemma Dotted(a: string, b: string, c: string, d: string)
    ensures Join([a, b, c, d], ".") == a + "." + (b + "." + (c + "." + d))
  {
    assert [a, b, c, d][1..] == [b, c, d] && [b, c, d][1..] == [c, d] && [c, d][1..] == [d];
    assert Join([d], ".") == d;
    assert Join([c, d], ".") == c + "." + d;
    assert Join([b, c, d], ".") == b + "." + (c + "." + d);
  }

  lemma PrintsTwo()
    ensures IntToIpv4(2) == "0.0.0.2"
  {
    hide IntToIpv4, Join;
    PrintsAs(2, 0, 0, 0, 2);
    Dotted(Decimal(0), Decimal(0), Decimal(0), Decimal(2));
  }

  lemma PrintsTen()
    ensures IntToIpv4(0x0A00_0000) == "10.0.0.0"
  {
    hide IntToIpv4, Join;
    PrintsAs(0x0A00_0000, 10, 0, 0, 0);
    Dotted(Decimal(10), Decimal(0), Decimal(0), Decimal(0));
    assert Decimal(10) == Decimal(1) + "0" == "10";
  }

  lemma PrintsAs(n: nat, a: nat, b: nat, c: nat, d: nat)
    requires a < 256 && b < 256 && c < 256 && d < 256 && n == ((a * 256 + b) * 256 + c) * 256 + d
    ensures IntToIpv4(n) == Join([Decimal(a), Decimal(b), Decimal(c), Decimal(d)], ".")
  {
    hide Pow, And, Decimal, Join;
    PrintedOctets(n);
    var octets := [a, b, c, d];
    Value4(256, a, b, c, d);
    OfValue(256, octets);
    assert Of(256, n, 4) == octets;
    assert [Byte(n, 24), Byte(n, 16), Byte(n, 8), Byte(n, 0)] == octets;
    assert Byte(n, 24) == octets[0] && Byte(n, 16) == octets[1] && Byte(n, 8) == octets[2] && Byte(n, 0) == octets[3];
  }

  lemma ParsesAsTen()
    ensures ParseCidr("10.0.0.0/33") == Some(Cidr(0x0A00_0000, 33))
  {
    PrintsTen();
    CodecRoundTrip(0x0A00_0000);
    SlashSplit();
    ThirtyThree();
    hide Ipv4ToInt, IntToIpv4, Split, Trim, Number;
  }

  lemma SlashSplit()
    ensures Split(Trim("10.0.0.0/33"), '/') == ["10.0.0.0", "33"]
  {
    hide Split;
    var ip, text := "10.0.0.0", "10.0.0.0/33";
    assert Trim(text) == text;
    assert [ip, "33"][1..] == ["33"] && Join(["33"], "/") == "33";
    assert Join([ip, "33"], "/") == ip + "/" + "33" == text;
    SplitJoin([ip, "33"], '/');
  }

  lemma ThirtyThree()
    ensures AllDigits("33") && Number("33") == 33
  {
    var text := "33";
    assert text[..1] == "3" && text[..1][..0] == "";
    assert Number("3") == 3;
  }

  // ---------------------------------------------------------------------------------------
  // Source allowlist
  // ---------------------------------------------------------------------------------------

  /** `(0xffffffff << (32 - bits)) >>> 0`, with the zero-length prefix apart: a shift by 32 would
      not shift at all. */
  function Netmask(bits: nat): nat {
    if bits == 0 then 0 else ToUint32(Shl(ALL_ONES, 32 - bits))
  }

  lemma NetmaskValue(bits: nat)
    requires bits <= 32
    ensures Pow2(32 - bits) <= TWO_32
    ensures Netmask(bits) == TWO_32 - Pow2(32 - bits)
  {
    hide Pow;
    Pow2Of32();
    Pow2Small(32 - bits);
    if bits > 0 {
      var p := Pow2(32 - bits);
      assert ALL_ONES * p == (p - 1) * TWO_32 + (TWO_32 - p);
      DivMod(ALL_ONES * p, p - 1, TWO_32 - p, TWO_32);
    }
  }

  datatype Entry = Entry(network: nat, mask: nat)

  function MakeEntry(base: nat, bits: nat): Entry {
    Entry(ToUint32(And(base, Netmask(bits))), Netmask(bits))
  }

  function Entries(blocks: seq<Cidr>): (r: seq<Entry>)
    ensures |r| == |blocks|
  {
    seq(|blocks|, i requires 0 <= i < |blocks| => MakeEntry(blocks[i].base, blocks[i].prefix))
  }

  /** The matcher over the parsed list; an empty list allows every source. */
  predicate Matches(entries: seq<Entry>, ip: Option<nat>) {
    |entries| == 0
    || (ip.Some? && exists i :: 0 <= i < |entries| && ToUint32(And(ip.value, entries[i].mask)) == entries[i].network)
  }

  predicate InBlock(ip: nat, block: Cidr)
    requires block.prefix <= 32
  {
    Floor(block.base, 32 - block.prefix) <= ip < Floor(block.base, 32 - block.prefix) + Pow2(32 - block.prefix)
  }

  lemma SameFloor(x: nat, y: nat, p: nat)
    requires p >= 1
    ensures x - x % p == y - y % p <==> y - y % p <= x < y - y % p + p
  {
    var a, b := x / p, y / p;
    assert x == a * p + x % p && y == b * p + y % p;
    MulGrows(a - b, p);
    assert (a - b) * p == a * p - b * p;
  }

  /** The matcher accepts exactly the addresses in one of the listed intervals. */
  lemma MatcherIsUnion(blocks: seq<Cidr>, ip: nat)
    requires forall i :: 0 <= i < |blocks| ==> blocks[i].base < TWO_32 && blocks[i].prefix <= 32
    requires ip < TWO_32
    ensures Matches(Entries(blocks), Some(ip))
       <==> |blocks| == 0 || exists i :: 0 <= i < |blocks| && InBlock(ip, blocks[i])
  {
    forall i | 0 <= i < |blocks|
      ensures ToUint32(And(ip, Entries(blocks)[i].mask)) == Entries(blocks)[i].network <==> InBlock(ip, blocks[i])
    {
      EntryMatches(blocks[i], ip);
    }
  }

  lemma EntryMatches(block: Cidr, ip: nat)
    requires block.base < TWO_32 && block.prefix <= 32 && ip < TWO_32
    ensures var e := MakeEntry(block.base, block.prefix);
      ToUint32(And(ip, e.mask)) == e.network <==> InBlock(ip, block)
  {
    hide And, Pow, Netmask;
    var k := 32 - block.prefix;
    NetmaskValue(block.prefix);
    SmallMask(k);
    AndNetmask(ip, Netmask(block.prefix), k);
    AndNetmask(block.base, Netmask(block.prefix), k);
    SameFloor(ip, block.base, Pow2(k));
  }

  lemma SmallMask(k: nat)
    requires k <= 32
    ensures Pow2(k) <= TWO_32 && ToUint32(TWO_32 - Pow2(k)) == TWO_32 - Pow2(k)
  {
    Pow2Small(k);
    SmallMod(TWO_32 - Pow2(k), TWO_32);
  }

  // ---------------------------------------------------------------------------------------
  // VLAN subnets
  // ---------------------------------------------------------------------------------------

  datatype Subnet = Unusable | GatewayOutside | Subnet(network: nat, prefix: nat, gateway: nat, from: nat, to: nat)

  /** The gateway and the pool of a VLAN, the larger side of the gateway. */
  function PlanVlanSubnet(base: nat, prefix: int, gateway: Option<nat>): Subnet {
    if prefix < 16 || prefix > 29 then Unusable
    else
      var mask := ToUint32(Shl(ALL_ONES, 32 - prefix));
      var network := ToUint32(And(base, mask));
      var broadcast := ToUint32(Or(network, ToUint32(Not(mask))));
      var gw := if gateway.Some? then gateway.value else network + 1;
      if gw <= network || gw >= broadcast then GatewayOutside
      else if gw - network - 1 >= broadcast - gw - 1 then Subnet(network, prefix, gw, network + 1, gw - 1)
      else Subnet(network, prefix, gw, gw + 1, broadcast - 1)
  }

  lemma OrHostBits(network: nat, k: nat, x: nat)
    requires x < TWO_32 && k <= 31 && network == Floor(x, k)
    ensures Pow2(k) >= 1 && network + Pow2(k) <= TWO_32
    ensures ToUint32(Or(network, Pow2(k) - 1)) == network + Pow2(k) - 1
  {
    hide Pow;
    BlockFits(x, k);
    Pow2Small(k);
    var p := Pow2(k);
    assert network == x / p * p;
    OrDisjoint(x / p, p - 1, k);
    SmallMod(network, TWO_32);
    SmallMod(p - 1, TWO_32);
    SmallMod(network + p - 1, TWO_32);
  }

  lemma VlanBlock(base: nat, prefix: nat)
    requires base < TWO_32 && 16 <= prefix <= 29
    ensures var mask := ToUint32(Shl(ALL_ONES, 32 - prefix));
      var network := ToUint32(And(base, mask));
      && network == Floor(base, 32 - prefix)
      && ToUint32(Or(network, ToUint32(Not(mask)))) == network + Pow2(32 - prefix) - 1
      && Pow2(32 - prefix) >= 8
  {
    hide Pow, And, Or, Shl;
    var k := 32 - prefix;
    NetmaskValue(prefix);
    var mask := ToUint32(Shl(ALL_ONES, k));
    SmallMask(k);
    AndNetmask(base, mask, k);
    assert ToUint32(Not(mask)) == Pow2(k) - 1 by {
      SmallMod(Pow2(k) - 1, TWO_32);
    }
    OrHostBits(Floor(base, k), k, base);
    PowAdd(2, 3, k - 3);
    assert Pow2(3) == 8 by {
      Pow2Of3();
    }
    MulAtLeast(Pow2(3), Pow2(k - 3));
  }

  lemma Pow2Of3()
    ensures Pow2(3) == 8
  {
  }

  /** The plan is refused exactly for an unusable prefix or a gateway that is no host of the subnet;
      otherwise its pool is never empty, lies strictly inside the subnet, holds every host on its side
      of the gateway and never the gateway itself, and is the larger of the two sides. */
  lemma VlanPlanIsUsable(base: nat, prefix: nat, gateway: Option<nat>)
    requires base < TWO_32
    ensures var plan := PlanVlanSubnet(base, prefix, gateway);
      && (plan == Unusable <==> prefix < 16 || prefix > 29)
      && (16 <= prefix <= 29 ==>
            var network := Floor(base, 32 - prefix);
            var broadcast := network + Pow2(32 - prefix) - 1;
            && (plan == GatewayOutside <==> gateway.Some? && !(network < gateway.value < broadcast))
            && (plan.Subnet? ==>
                  && plan.network == network && network < plan.gateway < broadcast
                  && plan.gateway == (if gateway.Some? then gateway.value else network + 1)
                  && network < plan.from <= plan.to < broadcast
                  && !(plan.from <= plan.gateway <= plan.to)
                  && ((plan.from == network + 1 && plan.to == plan.gateway - 1)
                      || (plan.from == plan.gateway + 1 && plan.to == broadcast - 1))
                  && 2 * (plan.to - plan.from + 1) >= broadcast - network - 2))
  {
    hide Pow, And, Or, Shl, Not;
    if 16 <= prefix <= 29 {
      VlanBlock(base, prefix);
    }
  }
}
