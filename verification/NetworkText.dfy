/** What operators type: VLAN subnets and gateways (packages/radius/src/vlan-script.ts), relay port
    ranges and source allow-lists (packages/network/src/winbox-relay.service.ts). Where the sources
    call JavaScript's Number on a prefix length, what it makes of the text is a parameter: an integer,
    or none. */
module NetworkText {
  import opened Digits
  import opened Ipv4
  import opened JsBits
  import opened Optional
  import opened Text

  type Number = string -> Option<int>

  // ---------------------------------------------------------------------------------------
  // VLAN subnets
  // ---------------------------------------------------------------------------------------

  /** Reads an address octet by octet, spaces around it allowed. */
  function IpToInt(ip: string): (r: Option<nat>)
    ensures r == Ipv4ToInt(Trim(ip))
    ensures r.Some? ==> r.value < TWO_32
  {
    var parts := Split(Trim(ip), '.');
    if |parts| != 4 then None
    else
      match Octets(parts)
      case None => None
      case Some(octets) => PlacedIsFolded(octets); Some(PlacedOctets(octets))
  }

  /** Prints an address without masking its first octet. */
  function IntToIp(n: int): string {
    Join([Decimal(ShrU(n, 24)), Decimal(Byte(n, 16)), Decimal(Byte(n, 8)), Decimal(Byte(n, 0))], ".")
  }

  lemma PrintsTheSame(n: nat)
    requires n < TWO_32
    ensures IntToIp(n) == IntToIpv4(n)
  {
    hide Pow, And, Decimal, Join;
    Pow2Of32();
    ByteBits(n, 24);
    SmallMod(n, TWO_32);
    DivLess(n, 256, Pow2(24));
    SmallMod(n / Pow2(24), 256);
  }

  datatype VlanPlan = BadSubnet | BadGateway | Planned(network: string, prefix: nat, gateway: string, poolRange: string)

  /** A gateway that is missing or blank is none. */
  predicate Asked(gateway: Option<string>) {
    gateway.Some? && Trim(gateway.value) != ""
  }

  function PrefixOf(parts: seq<string>, number: Number): Option<int> {
    if |parts| < 2 then None else number(parts[1])
  }

  function PlanVlan(text: string, gateway: Option<string>, number: Number): VlanPlan {
    var parts := Split(Trim(text), '/');
    var base, prefix := IpToInt(parts[0]), PrefixOf(parts, number);
    if base.None? || prefix.None? || prefix.value < 16 || prefix.value > 29 then BadSubnet
    else if Asked(gateway) && IpToInt(gateway.value).None? then BadGateway
    else
      match PlanVlanSubnet(base.value, prefix.value, if Asked(gateway) then IpToInt(gateway.value) else None)
      case Unusable => BadSubnet
      case GatewayOutside => BadGateway
      case Subnet(network, length, gw, from, to) => Planned(IntToIp(network), length, IntToIp(gw), IntToIp(from) + "-" + IntToIp(to))
  }

  /** The two addresses of a printed range. */
  function ReadRange(range: string): Option<(nat, nat)> {
    var ends := Split(range, '-');
    if |ends| != 2 then None
    else
      match (Ipv4ToInt(ends[0]), Ipv4ToInt(ends[1]))
      case (Some(from), Some(to)) => Some((from, to))
      case _ => None
  }

  lemma {:induction false} JoinedWithout(parts: seq<string>, c: char)
    requires c != '.' && forall i :: 0 <= i < |parts| ==> c !in parts[i]
    ensures c !in Join(parts, ".")
    decreases |parts|
  {
    if |parts| > 1 {
      JoinedWithout(parts[1..], c);
    }
  }

  lemma RangeReadsBack(from: nat, to: nat)
    requires from < TWO_32 && to < TWO_32
    ensures ReadRange(IntToIp(from) + "-" + IntToIp(to)) == Some((from, to))
  {
    hide Ipv4ToInt, IntToIp, IntToIpv4, Split, Join;
    PrintsTheSame(from);
    PrintsTheSame(to);
    NoDash(from);
    NoDash(to);
    CodecRoundTrip(from);
    CodecRoundTrip(to);
    SplitAfter(IntToIpv4(from), IntToIpv4(to), '-');
    SplitWhole(IntToIpv4(to), '-');
  }

  lemma NoDash(n: nat)
    requires n < TWO_32
    ensures '-' !in IntToIpv4(n)
  {
    hide Join, Decimal, Byte;
    JoinedWithout([Decimal(Byte(n, 24)), Decimal(Byte(n, 16)), Decimal(Byte(n, 8)), Decimal(Byte(n, 0))], '-');
  }

  /** A typed subnet is refused exactly when its address or its prefix is unusable, and a typed gateway
      exactly when it is no host of the subnet. Otherwise the texts of the plan read back as the
      subnet, the gateway (the first host when none was asked for), and a pool that is never empty,
      lies strictly inside the subnet, is all of the larger side of the gateway and not the gateway. */
  lemma TypedVlanIsUsable(text: string, gateway: Option<string>, number: Number)
    ensures var parts := Split(Trim(text), '/');
      var base, prefix, plan := Ipv4ToInt(Trim(parts[0])), if |parts| > 1 then number(parts[1]) else None, PlanVlan(text, gateway, number);
      && (plan == BadSubnet <==> base.None? || prefix.None? || !(16 <= prefix.value <= 29))
      && (plan != BadSubnet ==>
            var network := Floor(base.value, 32 - prefix.value);
            var broadcast := network + Pow2(32 - prefix.value) - 1;
            var gw := if gateway.Some? && Trim(gateway.value) != "" then Ipv4ToInt(Trim(gateway.value)) else Some(network + 1);
            && (plan == BadGateway <==> gw.None? || !(network < gw.value < broadcast))
            && (plan.Planned? ==>
                  && plan.prefix == prefix.value
                  && Ipv4ToInt(plan.network) == Some(network) && Ipv4ToInt(plan.gateway) == gw
                  && ReadRange(plan.poolRange).Some?
                  && var (from, to) := ReadRange(plan.poolRange).value;
                  && network < from <= to < broadcast
                  && ((from == network + 1 && to == gw.value - 1) || (from == gw.value + 1 && to == broadcast - 1))
                  && 2 * (to - from + 1) >= broadcast - network - 2))
  {
    hide Split, Trim, Ipv4ToInt, PlanVlanSubnet, IntToIp, ReadRange, Pow, Floor;
    var parts := Split(Trim(text), '/');
    var base, prefix := IpToInt(parts[0]), PrefixOf(parts, number);
    if base.Some? && prefix.Some? && 16 <= prefix.value <= 29 {
      var gw := if Asked(gateway) then IpToInt(gateway.value) else None;
      hide IpToInt;
      VlanPlanIsUsable(base.value, prefix.value, gw);
      BlockFits(base.value, 32 - prefix.value);
      PlanLength(base.value, prefix.value, gw);
      var plan := PlanVlanSubnet(base.value, prefix.value, gw);
      if plan.Subnet? {
        PlannedTexts(plan);
      }
    }
  }

  /** The printed plan reads back as the numbers planned. */
  lemma PlannedTexts(plan: Subnet)
    requires plan.Subnet? && plan.network < TWO_32 && plan.gateway < TWO_32 && plan.from < TWO_32 && plan.to < TWO_32
    ensures Ipv4ToInt(IntToIp(plan.network)) == Some(plan.network) && Ipv4ToInt(IntToIp(plan.gateway)) == Some(plan.gateway)
    ensures ReadRange(IntToIp(plan.from) + "-" + IntToIp(plan.to)) == Some((plan.from, plan.to))
  {
    hide Ipv4ToInt, IntToIp, IntToIpv4, ReadRange;
    PrintsTheSame(plan.network);
    PrintsTheSame(plan.gateway);
    CodecRoundTrip(plan.network);
    CodecRoundTrip(plan.gateway);
    RangeReadsBack(plan.from, plan.to);
  }

  lemma PlanLength(base: nat, prefix: int, gateway: Option<nat>)
    ensures PlanVlanSubnet(base, prefix, gateway).Subnet? ==> PlanVlanSubnet(base, prefix, gateway).prefix == prefix
  {
    hide And, Or, Shl, Not;
  }

  // ---------------------------------------------------------------------------------------
  // Relay ports
  // ---------------------------------------------------------------------------------------

  predicate PortDigits(s: string) {
    2 <= |s| <= 5 && AllDigits(s)
  }

  function ParsePortRange(range: string): Option<(nat, nat)> {
    var parts := Split(Trim(range), '-');
    if |parts| != 2 || !PortDigits(parts[0]) || !PortDigits(parts[1]) then None
    else
      var start, end := Text.Number(parts[0]), Text.Number(parts[1]);
      if start < 1024 || end > 65535 || start > end then None else Some((start, end))
  }

  datatype RelayPort = BadRange | NoneLeft | Free(port: nat)

  /** Lowest free port of a range. */
  method AllocateRelayPort(range: string, used: set<nat>) returns (r: RelayPort)
    ensures r == BadRange <==> ParsePortRange(range).None?
    ensures ParsePortRange(range).Some? ==>
              var (start, end) := ParsePortRange(range).value;
              && (r == NoneLeft <==> forall p :: start <= p <= end ==> p in used)
              && (r.Free? ==> start <= r.port <= end && r.port !in used && forall p :: start <= p < r.port ==> p in used)
  {
    hide ParsePortRange;
    var parsed := ParsePortRange(range);
    if parsed.None? {
      return BadRange;
    }
    var (start, end) := parsed.value;
    var port := start;
    while port <= end
      invariant start <= port
      invariant forall p :: start <= p < port ==> p in used
    {
      if port !in used {
        return Free(port);
      }
      port := port + 1;
    }
    r := NoneLeft;
  }

  lemma {:induction false} DecimalLength(n: nat, d: nat, p: nat)
    requires d >= 1 && p == Pow(10, d) && n < p
    ensures |Decimal(n)| <= d
    decreases d
  {
    assert Pow(10, 1) == 10;
    if n >= 10 {
      DivLess(n, Pow(10, d - 1), 10);
      DecimalLength(n / 10, d - 1, Pow(10, d - 1));
    }
  }

  /** A written range reads back exactly when it is a range of unprivileged ports. */
  lemma PortRangeReadsBack(start: nat, end: nat)
    ensures ParsePortRange(Decimal(start) + "-" + Decimal(end)) == Some((start, end)) <==> 1024 <= start <= end <= 65535
  {
    hide Split, Trim, Decimal, Text.Number;
    var text := Decimal(start) + "-" + Decimal(end);
    assert Trim(text) == text by { DigitsAtTheEnds(text, Decimal(start), Decimal(end)); }
    SplitAfter(Decimal(start), Decimal(end), '-');
    SplitWhole(Decimal(end), '-');
    NumberDecimal(start);
    NumberDecimal(end);
    if 1024 <= start <= end <= 65535 {
      FiveDigits(start);
      FiveDigits(end);
    }
  }

  /** Any text of two numbers and a dash is a range exactly when they have two to five digits each and
      ascend within the unprivileged ports. */
  lemma RangeIsDigits(a: string, b: string)
    requires '-' !in a && '-' !in b && Trim(a + "-" + b) == a + "-" + b
    ensures ParsePortRange(a + "-" + b).Some?
       <==> |a| in {2, 3, 4, 5} && |b| in {2, 3, 4, 5} && AllDigits(a) && AllDigits(b)
            && 1023 < Text.Number(a) <= Text.Number(b) < 65536
  {
    hide Split, Trim, Text.Number;
    SplitAfter(a, b, '-');
    SplitWhole(b, '-');
  }

  lemma FiveDigits(n: nat)
    requires 1024 <= n <= 65535
    ensures 2 <= |Decimal(n)| <= 5
  {
    assert Pow(10, 5) == 100000 by {
      assert Pow(10, 2) == 100;
      PowAdd(10, 2, 2);
      assert Pow(10, 5) == 10 * Pow(10, 4);
    }
    DecimalLength(n, 5, 100000);
    assert Decimal(n) == Decimal(n / 10) + [('0' as int + n % 10) as char];
  }

  lemma DigitsAtTheEnds(text: string, first: string, last: string)
    requires |first| >= 1 && |last| >= 1 && AllDigits(first) && AllDigits(last) && text == first + "-" + last
    ensures Trim(text) == text
  {
    assert text[0] == first[0] && text[|text| - 1] == last[|last| - 1];
  }

  // ---------------------------------------------------------------------------------------
  // Allow-lists
  // ---------------------------------------------------------------------------------------

  function ParseEntry(entry: string, number: Number): (r: Option<Cidr>)
    ensures r.Some? ==> r.value.base < TWO_32 && r.value.prefix <= 32
  {
    var parts := Split(entry, '/');
    var base, bits := Ipv4ToInt(parts[0]), if |parts| < 2 then Some(32) else number(parts[1]);
    if base.None? || bits.None? || bits.value < 0 || bits.value > 32 then None else Some(Cidr(base.value, bits.value))
  }

  /** An entry without a slash is one address, one with a prefix from 0 to 32 behind it a block. */
  lemma EntryReads(ip: string, bits: string, number: Number)
    requires '/' !in ip && '/' !in bits
    ensures ParseEntry(ip, number) == if Ipv4ToInt(ip).Some? then Some(Cidr(Ipv4ToInt(ip).value, 32)) else None
    ensures ParseEntry(ip + "/" + bits, number) ==
            if Ipv4ToInt(ip).Some? && number(bits).Some? && -1 < number(bits).value < 33
            then Some(Cidr(Ipv4ToInt(ip).value, number(bits).value)) else None
  {
    hide Ipv4ToInt, Split;
    SplitWhole(ip, '/');
    SplitWhole(bits, '/');
    SplitAfter(ip, bits, '/');
  }

  /** Blank entries are dropped; a bad one refuses the list. */
  function ParseEntries(entries: seq<string>, number: Number): (r: Option<seq<Cidr>>)
    ensures r.Some? ==> forall i :: 0 <= i < |r.value| ==> r.value[i].base < TWO_32 && r.value[i].prefix <= 32
  {
    if |entries| == 0 then Some([])
    else
      var rest, entry := ParseEntries(entries[..|entries| - 1], number), Trim(entries[|entries| - 1]);
      if rest.None? || entry == "" then rest
      else
        match ParseEntry(entry, number)
        case None => None
        case Some(block) => Some(rest.value + [block])
  }

  /** An IPv4 address as it arrives on a dual-stack socket. */
  function Unmapped(address: string): string {
    if StartsWith(address, "::ffff:") then address[7..] else address
  }

  /** Whether the list lets the address in; none when the list itself is refused. */
  function SourceAllowed(list: string, address: string, number: Number): Option<bool> {
    match ParseEntries(Split(list, ','), number)
    case None => None
    case Some(blocks) => Some(Matches(Entries(blocks), Ipv4ToInt(Unmapped(address))))
  }

  predicate Listed(entries: seq<string>, number: Number, i: nat, block: Cidr) {
    i < |entries| && Trim(entries[i]) != "" && ParseEntry(Trim(entries[i]), number) == Some(block)
  }

  predicate Bad(entries: seq<string>, number: Number, i: nat) {
    i < |entries| && Trim(entries[i]) != "" && ParseEntry(Trim(entries[i]), number) == None
  }

  ghost predicate SomeBad(entries: seq<string>, number: Number) {
    exists i: nat :: Bad(entries, number, i)
  }

  ghost predicate SomeListed(entries: seq<string>, number: Number, block: Cidr) {
    exists i: nat :: Listed(entries, number, i, block)
  }

  /** The parsed blocks are the blocks of the entries. */
  lemma {:induction false} ParsedAreListed(entries: seq<string>, number: Number)
    ensures var r := ParseEntries(entries, number);
      && (r.None? <==> SomeBad(entries, number))
      && (r.Some? ==> forall block: Cidr :: block in r.value <==> SomeListed(entries, number, block))
    decreases |entries|
  {
    if |entries| == 0 {
      assert !SomeBad(entries, number) && forall block: Cidr :: !SomeListed(entries, number, block);
    } else {
      hide ParseEntry, Trim, SomeBad, SomeListed;
      var n := |entries| - 1;
      ParsedAreListed(entries[..n], number);
      BadAtLast(entries, number);
      forall block: Cidr
        ensures SomeListed(entries, number, block) <==> Listed(entries, number, n, block) || SomeListed(entries[..n], number, block)
      {
        ListedAtLast(entries, number, block);
      }
      var rest, entry := ParseEntries(entries[..n], number), Trim(entries[n]);
      if rest.Some? && entry != "" && ParseEntry(entry, number).Some? {
        var last := ParseEntry(entry, number).value;
        assert forall block: Cidr :: block in rest.value + [last] <==> block in rest.value || block == last;
        assert forall block: Cidr :: Listed(entries, number, n, block) <==> block == last;
      }
    }
  }

  lemma BadAtLast(entries: seq<string>, number: Number)
    requires |entries| > 0
    ensures SomeBad(entries, number) <==> Bad(entries, number, |entries| - 1) || SomeBad(entries[..|entries| - 1], number)
  {
    hide ParseEntry, Trim;
    var n := |entries| - 1;
    if i: nat :| Bad(entries, number, i) && i != n {
      assert Bad(entries[..n], number, i);
    }
    if i: nat :| Bad(entries[..n], number, i) {
      assert Bad(entries, number, i);
    }
  }

  lemma ListedAtLast(entries: seq<string>, number: Number, block: Cidr)
    requires |entries| > 0
    ensures SomeListed(entries, number, block)
       <==> Listed(entries, number, |entries| - 1, block) || SomeListed(entries[..|entries| - 1], number, block)
  {
    hide ParseEntry, Trim;
    var n := |entries| - 1;
    if i: nat :| Listed(entries, number, i, block) && i != n {
      assert Listed(entries[..n], number, i, block);
    }
    if i: nat :| Listed(entries[..n], number, i, block) {
      assert Listed(entries, number, i, block);
    }
  }

  /** A typed allow-list is refused exactly when some entry that is not blank is no address or block;
      otherwise it lets in exactly the addresses of its blocks, or everyone when all is blank. */
  lemma AllowListIsUnion(list: string, address: string, number: Number)
    ensures var entries, ip := Split(list, ','), Ipv4ToInt(Unmapped(address));
      && (SourceAllowed(list, address, number) == None <==> SomeBad(entries, number))
      && (SourceAllowed(list, address, number) == Some(true)
          <==> !SomeBad(entries, number)
               && ((forall i :: 0 <= i < |entries| ==> Trim(entries[i]) == "")
                   || (ip.Some? && exists block: Cidr :: SomeListed(entries, number, block) && block.prefix <= 32 && InBlock(ip.value, block))))
  {
    hide ParseEntry, ParseEntries, Split, Trim, Ipv4ToInt, Unmapped, InBlock, Matches, Entries, SomeBad, SomeListed;
    var entries, ip := Split(list, ','), Ipv4ToInt(Unmapped(address));
    ParsedAreListed(entries, number);
    var parsed := ParseEntries(entries, number);
    if parsed.Some? {
      var blocks := parsed.value;
      NoneListed(entries, number, blocks);
      AddressFits(Unmapped(address));
      if ip.Some? {
        MatcherIsUnion(blocks, ip.value);
        InSome(entries, number, blocks, ip.value);
      } else {
        NoAddress(blocks);
      }
    }
  }

  /** An address is judged the same as a dual-stack socket shows it. */
  lemma MappedIsTheSame(list: string, ip: string, number: Number)
    requires !("::ffff:" <= ip)
    ensures SourceAllowed(list, "::ffff:" + ip, number) == SourceAllowed(list, ip, number)
    ensures Unmapped(ip) == ip
  {
    assert ("::ffff:" + ip)[7..] == ip;
  }

  lemma AddressFits(ip: string)
    ensures Ipv4ToInt(ip).Some? ==> Ipv4ToInt(ip).value < TWO_32
  {
  }

  lemma NoAddress(blocks: seq<Cidr>)
    ensures Matches(Entries(blocks), None) <==> |blocks| == 0
  {
  }

  lemma NoneListed(entries: seq<string>, number: Number, blocks: seq<Cidr>)
    requires !SomeBad(entries, number)
    requires forall block: Cidr :: block in blocks <==> SomeListed(entries, number, block)
    ensures |blocks| == 0 <==> forall i :: 0 <= i < |entries| ==> Trim(entries[i]) == ""
  {
    hide ParseEntry, Trim;
    if |blocks| > 0 {
      assert blocks[0] in blocks;
    }
    forall i: nat | i < |entries| && Trim(entries[i]) != ""
      ensures |blocks| > 0
    {
      assert !Bad(entries, number, i);
      var block := ParseEntry(Trim(entries[i]), number).value;
      assert Listed(entries, number, i, block);
      assert block in blocks;
    }
  }

  lemma InSome(entries: seq<string>, number: Number, blocks: seq<Cidr>, ip: nat)
    requires forall block: Cidr :: block in blocks <==> SomeListed(entries, number, block)
    requires forall j :: 0 <= j < |blocks| ==> blocks[j].prefix <= 32
    ensures (exists j :: 0 <= j < |blocks| && InBlock(ip, blocks[j]))
       <==> exists block: Cidr :: SomeListed(entries, number, block) && block.prefix <= 32 && InBlock(ip, block)
  {
    hide SomeListed, InBlock;
    if j :| 0 <= j < |blocks| && InBlock(ip, blocks[j]) {
      assert blocks[j] in blocks;
    }
    if block: Cidr :| SomeListed(entries, number, block) && block.prefix <= 32 && InBlock(ip, block) {
      assert block in blocks;
    }
  }
}
