/**
 * The single-block report: validate the prefix, derive mask, network and
 * broadcast addresses, and describe the block (class, type, usable range).
 */
module BasicReport {
  import opened Wrappers
  import opened MaskMath
  import opened AddressCodec
  import opened Classifier

  /**
   * The entry computation: reject a prefix outside 0..32, pack the four
   * address bytes, and derive the block that holds the address. The facts
   * about the derived block are the lemmas on `Block`.
   */
  function Analyze(bytes: seq<bv8>, prefix: int): (r: Result<Cidr, PrefixError>)
    requires |bytes| >= 4
    ensures r.Err? <==> prefix < 0 || prefix > 32
    ensures r.Ok? ==> r.value.prefix as int == prefix
    ensures r.Ok? ==> r.value == Block(BytesToAddress(bytes), r.value.prefix)
  {
    match CheckPrefix(prefix)
    case Err(e) => Err(e)
    case Ok(p) => Ok(Block(BytesToAddress(bytes), p))
  }

  /** The usable hosts of a block: none, or a first and a last address. */
  datatype HostRange = NoHosts | Hosts(first: bv32, last: bv32)

  /**
   * The usable host range of a block: from the address after the network
   * address to the address before the broadcast address, and only when the
   * prefix is below 31 (a /31 or /32 block reports no hosts).
   */
  function UsableRange(prefix: Prefix, network: bv32, broadcast: bv32): (r: HostRange)
    ensures r.Hosts? <==> prefix < 31
  {
    if prefix < 31 then Hosts(network + 1, broadcast - 1) else NoHosts
  }

  /** The usable range reported for a block. */
  function BlockRange(c: Cidr): HostRange
  {
    UsableRange(c.prefix, c.network, c.broadcast)
  }

  /** Below /31 the first usable host belongs to the block. */
  lemma FirstHostInBlock(ip: bv32, p: Prefix)
    ensures var c := Block(ip, p);
            p < 31 ==> BlockRange(c).first & c.mask == c.network
  {
  }

  /** Below /31 the last usable host belongs to the block. */
  lemma LastHostInBlock(ip: bv32, p: Prefix)
    ensures var c := Block(ip, p);
            p < 31 ==> BlockRange(c).last & c.mask == c.network
  {
  }

  /** Below /31 the first usable host lies above the network address (no wrap-around). */
  lemma FirstHostAboveNetwork(ip: bv32, p: Prefix)
    ensures var c := Block(ip, p);
            p < 31 ==> c.network < BlockRange(c).first
  {
  }

  /** Below /31 the first usable host is not above the last one. */
  lemma FirstHostNotAboveLast(ip: bv32, p: Prefix)
    ensures var c := Block(ip, p);
            p < 31 ==> BlockRange(c).first <= BlockRange(c).last
  {
  }

  /** Below /31 the last usable host lies below the broadcast address (no wrap-around). */
  lemma LastHostBelowBroadcast(ip: bv32, p: Prefix)
    ensures var c := Block(ip, p);
            p < 31 ==> BlockRange(c).last < c.broadcast
  {
  }

  /**
   * Below /31 the usable range is non-empty, lies strictly between the
   * network and broadcast addresses as unsigned values, and both of its ends
   * belong to the block.
   */
  lemma UsableRangeWithinBlock(ip: bv32, p: Prefix)
    ensures var c := Block(ip, p);
            p < 31 ==> && BlockRange(c).first & c.mask == c.network
                       && BlockRange(c).last & c.mask == c.network
                       && c.network < BlockRange(c).first
                       && BlockRange(c).first <= BlockRange(c).last
                       && BlockRange(c).last < c.broadcast
  {
    FirstHostInBlock(ip, p);
    LastHostInBlock(ip, p);
    FirstHostAboveNetwork(ip, p);
    FirstHostNotAboveLast(ip, p);
    LastHostBelowBroadcast(ip, p);
  }

  lemma UsableSpan(ip: bv32, p: Prefix)
    ensures var c := Block(ip, p);
            p < 31 ==> BlockRange(c).last - BlockRange(c).first == !PrefixToMask(p) - 2
  {
  }

  /** Below /31 the usable range holds 2^(32-p) - 2 addresses. */
  lemma UsableRangeCount(ip: bv32, p: Prefix)
    requires p < 31
    ensures var c := Block(ip, p);
            (BlockRange(c).last - BlockRange(c).first) as int + 1 == Pow2((32 - p) as nat) - 2
  {
    UsableSpan(ip, p);
    HostMaskLessTwoOfPrefix(p);
  }

  /** What the basic mode reports about one block. */
  datatype Report = Report(
    addressClass: AddressClass,
    addressType: AddressType,
    network: bv32,
    broadcast: bv32,
    usable: HostRange)

  /**
   * The basic report: class and type of the address, the network and
   * broadcast addresses, and the usable range when there is one.
   */
  function BasicInfo(ip: bv32, prefix: Prefix, network: bv32, broadcast: bv32): (r: Report)
    ensures r.addressType == Private <==> InPrivateBlock(ip)
    ensures r.usable.Hosts? <==> prefix < 31
    ensures Octet(ip, 0) != 127 ==> r.addressClass == ClassByLeadingBits(Octet(ip, 0))
    ensures Octet(ip, 0) == 127 ==> r.addressClass == B
    ensures prefix < 31 ==> r.usable == Hosts(network + 1, broadcast - 1)
    ensures r.network == network && r.broadcast == broadcast
  {
    Report(IpClass(ip), IpType(ip), network, broadcast, UsableRange(prefix, network, broadcast))
  }

  /** The basic mode end to end: validate and derive the block, then report on it. */
  function Basic(bytes: seq<bv8>, prefix: int): (r: Result<Report, PrefixError>)
    requires |bytes| >= 4
    ensures r.Err? <==> prefix < 0 || prefix > 32
    ensures r.Ok? ==> (r.value.usable.Hosts? <==> prefix < 31)
    ensures r.Ok? ==> (r.value.addressType == Private <==> InPrivateBlock(BytesToAddress(bytes)))
    ensures r.Ok? ==> var c := Block(BytesToAddress(bytes), prefix as bv8);
                      r.value == BasicInfo(c.ip, c.prefix, c.network, c.broadcast)
  {
    match Analyze(bytes, prefix)
    case Err(e) => Err(e)
    case Ok(c) => Ok(BasicInfo(c.ip, c.prefix, c.network, c.broadcast))
  }

  /** 192.168.1.0/24: network .0, broadcast .255, hosts .1 to .254, class C, private. */
  lemma BasicExample()
    ensures Basic([192, 168, 1, 0], 24)
         == Ok(Report(C, Private, 0xC0A8_0100, 0xC0A8_01FF, Hosts(0xC0A8_0101, 0xC0A8_01FE)))
  {
  }

  /** 10.1.2.3/31 and /32: no usable hosts are reported. */
  lemma PointToPointExample()
    ensures Basic([10, 1, 2, 3], 31).Ok? && Basic([10, 1, 2, 3], 31).value.usable == NoHosts
    ensures Basic([10, 1, 2, 3], 32).Ok? && Basic([10, 1, 2, 3], 32).value.usable == NoHosts
  {
  }

  /** A prefix of 33 is rejected. */
  lemma RejectedPrefixExample()
    ensures Basic([192, 168, 1, 0], 33) == Err(InvalidPrefix)
  {
  }
}
