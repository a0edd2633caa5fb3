/**
 * The allocation with the two checks its space test leaves out: a request
 * whose block is larger than the base block is refused, and the cursor is
 * kept as an unbounded unsigned value so that it cannot wrap past
 * 255.255.255.255 back into the low addresses. For requests served largest
 * first from an aligned base, every row is then an aligned block of exactly
 * 2^(32 - prefix) addresses inside the base block, and the rows are disjoint
 * and in increasing order.
 */
module VlsmChecked {
  import opened Wrappers
  import opened MaskMath
  import opened Unsigned
  import opened Vlsm

  /**
   * The checked run: a request fails when its prefix is shorter than the
   * base prefix or when its block would end past the limit; otherwise the
   * cursor moves to the address after the block, without wrapping.
   */
  function CarveChecked(cursor: int, basePrefix: int, limit: int, hosts: seq<int>, i: nat): Outcome
    requires AllValid(hosts) && i <= |hosts|
    decreases |hosts| - i
  {
    if i == |hosts| then Outcome([], None)
    else if NewPrefix(hosts[i]) < basePrefix || Place(cursor, hosts[i]).broadcast > limit then Outcome([], Some(i + 1))
    else
      var rest := CarveChecked(Place(cursor, hosts[i]).broadcast + 1, basePrefix, limit, hosts, i + 1);
      Outcome([Place(cursor, hosts[i])] + rest.rows, rest.failed)
  }

  /**
   * Where a checked run may stand before request i: not below the base
   * network address, and aligned to the block of request i whenever that
   * request passes the prefix check.
   */
  predicate Ready(cursor: int, baseNetwork: int, basePrefix: int, hosts: seq<int>, i: nat)
    requires AllValid(hosts) && i <= |hosts|
  {
    && baseNetwork <= cursor
    && (i < |hosts| && basePrefix <= NewPrefix(hosts[i]) ==> cursor % Pow2(32 - NewPrefix(hosts[i])) == 0)
  }

  /** An aligned base network address is a ready start. */
  lemma ReadyAtBase(baseNetwork: int, basePrefix: nat, hosts: seq<int>)
    requires AllValid(hosts) && basePrefix <= 32
    requires baseNetwork % Pow2(32 - basePrefix) == 0
    ensures Ready(baseNetwork, baseNetwork, basePrefix, hosts, 0)
  {
    if 0 < |hosts| && basePrefix <= NewPrefix(hosts[0]) {
      AlignedSmaller(baseNetwork, 32 - NewPrefix(hosts[0]), 32 - basePrefix);
    }
  }

  /**
   * Serving a request from a ready cursor fills exactly its block, and the
   * address after the block is ready for the next, smaller or equal, request.
   */
  lemma ReadyStep(cursor: int, baseNetwork: int, basePrefix: int, hosts: seq<int>, i: nat)
    requires AllValid(hosts) && Descending(hosts) && i < |hosts|
    requires Ready(cursor, baseNetwork, basePrefix, hosts, i)
    requires basePrefix <= NewPrefix(hosts[i])
    ensures Place(cursor, hosts[i]).broadcast == cursor + Pow2(32 - NewPrefix(hosts[i])) - 1
    ensures Ready(Place(cursor, hosts[i]).broadcast + 1, baseNetwork, basePrefix, hosts, i + 1)
  {
    var b := 32 - NewPrefix(hosts[i]);
    SetLowBitsAligned(cursor, b);
    AlignedNext(cursor, b);
    if i + 1 < |hosts| {
      NewPrefixMonotone(hosts[i], hosts[i + 1]);
      AlignedSmaller(cursor + Pow2(b), 32 - NewPrefix(hosts[i + 1]), b);
    }
  }

  /**
   * Row k of a checked run serves request i + k: it is that request's block
   * placed at the row's network address, its prefix is not shorter than the
   * base prefix, and it does not end past the limit.
   */
  lemma {:induction false} CheckedRowServes(cursor: int, basePrefix: int, limit: int, hosts: seq<int>, i: nat, k: nat)
    requires AllValid(hosts) && i <= |hosts|
    requires k < |CarveChecked(cursor, basePrefix, limit, hosts, i).rows|
    ensures i + k < |hosts|
    ensures CarveChecked(cursor, basePrefix, limit, hosts, i).rows[k]
         == Place(CarveChecked(cursor, basePrefix, limit, hosts, i).rows[k].network, hosts[i + k])
    ensures basePrefix <= CarveChecked(cursor, basePrefix, limit, hosts, i).rows[k].prefix
    ensures CarveChecked(cursor, basePrefix, limit, hosts, i).rows[k].broadcast <= limit
    decreases k
  {
    if k > 0 {
      CheckedRowServes(Place(cursor, hosts[i]).broadcast + 1, basePrefix, limit, hosts, i + 1, k - 1);
    }
  }

  /** From a ready cursor, every row of a checked run starts where the run is ready for its request. */
  lemma {:induction false} CheckedRowReady(cursor: int, baseNetwork: int, basePrefix: int, limit: int, hosts: seq<int>, i: nat, k: nat)
    requires AllValid(hosts) && Descending(hosts) && i <= |hosts|
    requires Ready(cursor, baseNetwork, basePrefix, hosts, i)
    requires k < |CarveChecked(cursor, basePrefix, limit, hosts, i).rows|
    ensures i + k < |hosts|
    ensures Ready(CarveChecked(cursor, basePrefix, limit, hosts, i).rows[k].network, baseNetwork, basePrefix, hosts, i + k)
    decreases k
  {
    if k > 0 {
      ReadyStep(cursor, baseNetwork, basePrefix, hosts, i);
      CheckedRowReady(Place(cursor, hosts[i]).broadcast + 1, baseNetwork, basePrefix, limit, hosts, i + 1, k - 1);
    }
  }

  /**
   * From a ready cursor, every row of a checked run is an aligned block of
   * exactly 2^(32 - prefix) addresses that starts at or above the base
   * network address.
   */
  lemma CheckedRowBlock(cursor: int, baseNetwork: int, basePrefix: int, limit: int, hosts: seq<int>, i: nat, k: nat)
    requires AllValid(hosts) && Descending(hosts) && i <= |hosts|
    requires Ready(cursor, baseNetwork, basePrefix, hosts, i)
    requires k < |CarveChecked(cursor, basePrefix, limit, hosts, i).rows|
    ensures i + k < |hosts|
    ensures CarveChecked(cursor, basePrefix, limit, hosts, i).rows[k].prefix == NewPrefix(hosts[i + k])
    ensures var row := CarveChecked(cursor, basePrefix, limit, hosts, i).rows[k];
            && baseNetwork <= row.network
            && row.network % Pow2(32 - row.prefix) == 0
            && row.broadcast == row.network + Pow2(32 - row.prefix) - 1
  {
    var row := CarveChecked(cursor, basePrefix, limit, hosts, i).rows[k];
    CheckedRowReady(cursor, baseNetwork, basePrefix, limit, hosts, i, k);
    CheckedRowServes(cursor, basePrefix, limit, hosts, i, k);
    ReadyStep(row.network, baseNetwork, basePrefix, hosts, i + k);
  }

  /**
   * The first row of a checked run starts at the cursor, and each next row
   * starts right after the previous row's broadcast address.
   */
  lemma {:induction false} CheckedRowsAdjacent(cursor: int, basePrefix: int, limit: int, hosts: seq<int>, i: nat, k: nat)
    requires AllValid(hosts) && i <= |hosts|
    requires k + 1 < |CarveChecked(cursor, basePrefix, limit, hosts, i).rows|
    ensures CarveChecked(cursor, basePrefix, limit, hosts, i).rows[0].network == cursor
    ensures CarveChecked(cursor, basePrefix, limit, hosts, i).rows[k + 1].network
         == CarveChecked(cursor, basePrefix, limit, hosts, i).rows[k].broadcast + 1
    decreases k
  {
    if k > 0 {
      CheckedRowsAdjacent(Place(cursor, hosts[i]).broadcast + 1, basePrefix, limit, hosts, i + 1, k - 1);
    }
  }

  /** No row ends before it starts. */
  lemma CheckedRowNotEmpty(cursor: int, basePrefix: int, limit: int, hosts: seq<int>, i: nat, k: nat)
    requires AllValid(hosts) && i <= |hosts|
    requires k < |CarveChecked(cursor, basePrefix, limit, hosts, i).rows|
    ensures CarveChecked(cursor, basePrefix, limit, hosts, i).rows[k].network
         <= CarveChecked(cursor, basePrefix, limit, hosts, i).rows[k].broadcast
  {
    CheckedRowServes(cursor, basePrefix, limit, hosts, i, k);
    var row := CarveChecked(cursor, basePrefix, limit, hosts, i).rows[k];
    SetLowBitsMeaning(row.network, 32 - NewPrefix(hosts[i + k]));
  }

  /** The rows of a checked run are disjoint and in increasing order: an earlier row ends before a later one starts. */
  lemma {:induction false} CheckedRowsDisjoint(cursor: int, basePrefix: int, limit: int, hosts: seq<int>, i: nat, j: nat, k: nat)
    requires AllValid(hosts) && i <= |hosts|
    requires j < k < |CarveChecked(cursor, basePrefix, limit, hosts, i).rows|
    ensures CarveChecked(cursor, basePrefix, limit, hosts, i).rows[j].broadcast
          < CarveChecked(cursor, basePrefix, limit, hosts, i).rows[k].network
    decreases k
  {
    CheckedRowsAdjacent(cursor, basePrefix, limit, hosts, i, k - 1);
    if j < k - 1 {
      CheckedRowsDisjoint(cursor, basePrefix, limit, hosts, i, j, k - 1);
      CheckedRowNotEmpty(cursor, basePrefix, limit, hosts, i, k - 1);
    }
  }

  /**
   * The checked run from an aligned base block up to its broadcast address,
   * requests largest first: row k serves request k with an aligned block of
   * exactly 2^(32 - prefix) addresses that lies inside the base block.
   */
  lemma CheckedRunRow(baseNetwork: int, basePrefix: nat, limit: int, hosts: seq<int>, k: nat)
    requires AllValid(hosts) && Descending(hosts) && basePrefix <= 32
    requires baseNetwork % Pow2(32 - basePrefix) == 0
    requires limit == SetLowBits(baseNetwork, 32 - basePrefix)
    requires k < |CarveChecked(baseNetwork, basePrefix, limit, hosts, 0).rows|
    ensures k < |hosts|
    ensures CarveChecked(baseNetwork, basePrefix, limit, hosts, 0).rows[k].prefix == NewPrefix(hosts[k])
    ensures var row := CarveChecked(baseNetwork, basePrefix, limit, hosts, 0).rows[k];
            && row == Place(row.network, hosts[k])
            && basePrefix <= row.prefix
            && baseNetwork <= row.network
            && row.broadcast <= limit
            && row.network % Pow2(32 - row.prefix) == 0
            && row.broadcast == row.network + Pow2(32 - row.prefix) - 1
  {
    ReadyAtBase(baseNetwork, basePrefix, hosts);
    CheckedRowServes(baseNetwork, basePrefix, limit, hosts, 0, k);
    CheckedRowBlock(baseNetwork, baseNetwork, basePrefix, limit, hosts, 0, k);
  }

  /** The limit of a run over a derived block is that block's broadcast address. */
  lemma BaseLimitOfBlock(ip: bv32, p: Prefix)
    ensures BaseLimit(Block(ip, p).network, p) == Block(ip, p).broadcast as int
  {
  }

  /**
   * The checked run over the block the entry computation derives from an
   * address and a prefix: its network address is aligned to the block, so
   * every row of the run, requests largest first, is an aligned block of
   * exactly 2^(32 - prefix) addresses between that network address and the
   * block's broadcast address.
   */
  lemma CheckedBlockRow(ip: bv32, p: Prefix, hosts: seq<int>, k: nat)
    requires AllValid(hosts) && Descending(hosts)
    requires k < |CarveChecked(Block(ip, p).network as int, p as int, BaseLimit(Block(ip, p).network, p), hosts, 0).rows|
    ensures k < |hosts|
    ensures CarveChecked(Block(ip, p).network as int, p as int, BaseLimit(Block(ip, p).network, p), hosts, 0).rows[k].prefix
         == NewPrefix(hosts[k])
    ensures var row := CarveChecked(Block(ip, p).network as int, p as int, BaseLimit(Block(ip, p).network, p), hosts, 0).rows[k];
            && row == Place(row.network, hosts[k])
            && p as int <= row.prefix
            && Block(ip, p).network as int <= row.network
            && row.broadcast <= Block(ip, p).broadcast as int
            && row.network % Pow2(32 - row.prefix) == 0
            && row.broadcast == row.network + Pow2(32 - row.prefix) - 1
  {
    var c := Block(ip, p);
    NetworkAligned(ip, p);
    BaseLimitValue(c.network, p);
    BaseLimitOfBlock(ip, p);
    CheckedRunRow(c.network as int, p as nat, BaseLimit(c.network, p), hosts, k);
  }

  /** Below 255.255.255.255 the 32-bit increment does not wrap. */
  lemma NextNoWrap(b: int)
    requires 0 <= b < 0xFFFF_FFFF
    ensures Next(b) == b + 1
  {
  }

  /** A row placed at a cursor that does not end past a limit below 255.255.255.255 is followed without a wrap. */
  lemma PlacedNoWrap(cursor: int, hosts: int, limit: int)
    requires ValidHostCount(hosts)
    requires 0 <= cursor && limit < 0xFFFF_FFFF
    requires Place(cursor, hosts).broadcast <= limit
    ensures Next(Place(cursor, hosts).broadcast) == Place(cursor, hosts).broadcast + 1
  {
    SetLowBitsMeaning(cursor, 32 - NewPrefix(hosts));
    NextNoWrap(Place(cursor, hosts).broadcast);
  }

  /**
   * Where neither check matters (every request's prefix is at least the base
   * prefix, and the limit is below 255.255.255.255 so the cursor never
   * wraps), the checked run is the run as written.
   */
  lemma {:induction false} CheckedAgrees(cursor: int, basePrefix: int, limit: int, hosts: seq<int>, i: nat)
    requires AllValid(hosts) && i <= |hosts|
    requires 0 <= cursor && limit < 0xFFFF_FFFF
    requires forall j | i <= j < |hosts| :: basePrefix <= NewPrefix(hosts[j])
    ensures Carve(cursor, limit, hosts, i).rows == CarveChecked(cursor, basePrefix, limit, hosts, i).rows
    ensures Carve(cursor, limit, hosts, i).failed == CarveChecked(cursor, basePrefix, limit, hosts, i).failed
    decreases |hosts| - i
  {
    if i < |hosts| {
      var row := Place(cursor, hosts[i]);
      assert basePrefix <= NewPrefix(hosts[i]);
      if row.broadcast <= limit {
        PlacedNoWrap(cursor, hosts[i], limit);
        CheckedAgrees(row.broadcast + 1, basePrefix, limit, hosts, i + 1);
      }
    }
  }

  /** 300 hosts and the two reserved addresses need 9 host bits: a /23. */
  lemma NewPrefixOf300()
    ensures NewPrefix(300) == 23
  {
    assert CeilLog2(2) == 1;
    assert CeilLog2(3) == 2;
    assert CeilLog2(5) == 3;
    assert CeilLog2(10) == 4;
    assert CeilLog2(19) == 5;
    assert CeilLog2(38) == 6;
    assert CeilLog2(76) == 7;
    assert CeilLog2(151) == 8;
    assert CeilLog2(302) == 9;
  }

  /** 100 hosts need 7 host bits: a /25. */
  lemma NewPrefixOf100()
    ensures NewPrefix(100) == 25
  {
    assert CeilLog2(2) == 1;
    assert CeilLog2(4) == 2;
    assert CeilLog2(7) == 3;
    assert CeilLog2(13) == 4;
    assert CeilLog2(26) == 5;
    assert CeilLog2(51) == 6;
    assert CeilLog2(102) == 7;
  }

  /**
   * As written, 300 hosts in 192.168.1.0/24 get a row "192.168.1.0/23"
   * ending at 192.168.1.255: the block is reported with 512 addresses in a
   * base of 256, and 192.168.1.0 is not the network address of any /23.
   */
  lemma OverlongBlockExample()
    ensures Carve(0xC0A8_0100, 0xC0A8_01FF, [300], 0)
         == Outcome([Subnet(300, 0xC0A8_0100, 23, 0xC0A8_0101, 0xC0A8_01FE, 0xC0A8_01FF)], None)
    ensures 0xC0A8_0100 % Pow2(32 - 23) != 0
  {
    NewPrefixOf300();
    assert Pow2(9) == 512;
    assert Place(0xC0A8_0100, 300) == Subnet(300, 0xC0A8_0100, 23, 0xC0A8_0101, 0xC0A8_01FE, 0xC0A8_01FF);
  }

  /**
   * The overlong block passes only where the base network address has the
   * bits between the two prefixes set: in 192.168.0.0/24 the same request
   * ends at 192.168.1.255, past the base broadcast, and is refused as written.
   */
  lemma OverlongRefusedExample()
    ensures Carve(0xC0A8_0000, 0xC0A8_00FF, [300], 0) == Outcome([], Some(1))
  {
    NewPrefixOf300();
    assert Pow2(9) == 512;
  }

  /** With the prefix check the same request is refused as request 1. */
  lemma CheckedRefusesOverlong()
    ensures CarveChecked(0xC0A8_0100, 24, 0xC0A8_01FF, [300], 0) == Outcome([], Some(1))
  {
    NewPrefixOf300();
  }

  lemma WrapPlaces()
    ensures Place(0xFFFF_FF00, 100) == Subnet(100, 0xFFFF_FF00, 25, 0xFFFF_FF01, 0xFFFF_FF7E, 0xFFFF_FF7F)
    ensures Place(0xFFFF_FF80, 100) == Subnet(100, 0xFFFF_FF80, 25, 0xFFFF_FF81, 0xFFFF_FFFE, 0xFFFF_FFFF)
  {
    NewPrefixOf100();
    assert Pow2(7) == 128;
  }

  /**
   * As written, 255.255.255.0/24 with requests for 100, 100 and 10 hosts
   * fills the base with the two /25 blocks, then the cursor wraps to
   * 0.0.0.0 and the third request gets 0.0.0.0/28, outside the base block.
   */
  lemma WrapAroundExample()
    ensures Carve(0xFFFF_FF00, 0xFFFF_FFFF, [100, 100, 10], 0)
         == Outcome([Subnet(100, 0xFFFF_FF00, 25, 0xFFFF_FF01, 0xFFFF_FF7E, 0xFFFF_FF7F),
                     Subnet(100, 0xFFFF_FF80, 25, 0xFFFF_FF81, 0xFFFF_FFFE, 0xFFFF_FFFF),
                     Subnet(10, 0, 28, 1, 14, 15)], None)
  {
    var hosts := [100, 100, 10];
    WrapPlaces();
    NewPrefixOf10();
    assert Pow2(4) == 16;
    assert Next(0xFFFF_FFFF) == 0;
    var third := Carve(0, 0xFFFF_FFFF, hosts, 2);
    assert third == Outcome([Place(0, 10)], None);
    assert Carve(0xFFFF_FF80, 0xFFFF_FFFF, hosts, 1) == Outcome([Place(0xFFFF_FF80, 100)] + third.rows, None);
  }

  /** With an unwrapped cursor the third request finds no space and fails as request 3. */
  lemma CheckedStopsAtTop()
    ensures CarveChecked(0xFFFF_FF00, 24, 0xFFFF_FFFF, [100, 100, 10], 0)
         == Outcome([Subnet(100, 0xFFFF_FF00, 25, 0xFFFF_FF01, 0xFFFF_FF7E, 0xFFFF_FF7F),
                     Subnet(100, 0xFFFF_FF80, 25, 0xFFFF_FF81, 0xFFFF_FFFE, 0xFFFF_FFFF)], Some(3))
  {
    var hosts := [100, 100, 10];
    WrapPlaces();
    NewPrefixOf10();
    assert Pow2(4) == 16;
    assert Place(0x1_0000_0000, 10).broadcast == 0x1_0000_000F;
    var third := CarveChecked(0x1_0000_0000, 24, 0xFFFF_FFFF, hosts, 2);
    assert third == Outcome([], Some(3));
    assert CarveChecked(0xFFFF_FF80, 24, 0xFFFF_FFFF, hosts, 1) == Outcome([Place(0xFFFF_FF80, 100)] + third.rows, Some(3));
  }

  /** The largest valid request, 2^31 - 3 hosts, needs all 31 host bits: a /1. */
  lemma NewPrefixOfLargest(h: int)
    requires h == 0x7FFF_FFFD
    ensures ValidHostCount(h) && NewPrefix(h) == 1
  {
    Pow2Of31();
    var b := HostBits(h);
    if b < 31 {
      Pow2Monotone(b, 30);
      assert false;
    }
  }

  /** The largest valid request at 0.0.0.0 or at 128.0.0.0 fills that half of the address space. */
  lemma OverlapPlace(c: int, h: int)
    requires h == 0x7FFF_FFFD
    requires c == 0 || c == 0x8000_0000
    ensures Place(c, h) == Subnet(h, c, 1, c + 1, c + 0x7FFF_FFFE, c + 0x7FFF_FFFF)
  {
    NewPrefixOfLargest(h);
    Pow2Of31();
    SetLowBitsAligned(c, 31);
  }

  /** One served request of a run: its row, followed by the run from the address after it. */
  lemma CarveServed(cursor: int, limit: int, hosts: seq<int>, i: nat)
    requires AllValid(hosts) && i < |hosts|
    requires Place(cursor, hosts[i]).broadcast <= limit
    ensures var rest := Carve(Next(Place(cursor, hosts[i]).broadcast), limit, hosts, i + 1);
            Carve(cursor, limit, hosts, i) == Outcome([Place(cursor, hosts[i])] + rest.rows, rest.failed)
  {
  }

  /**
   * Three requests whose blocks, placed from 0.0.0.0 with the limit
   * 255.255.255.255, end at 127.255.255.255, at 255.255.255.255 and (after
   * the cursor wraps to 0.0.0.0) at 0.0.0.15 are all served.
   */
  lemma WrapRun(hosts: seq<int>)
    requires AllValid(hosts) && |hosts| == 3
    requires Place(0, hosts[0]).broadcast == 0x7FFF_FFFF
    requires Place(0x8000_0000, hosts[1]).broadcast == 0xFFFF_FFFF
    requires Place(0, hosts[2]).broadcast == 15
    ensures Carve(0, 0xFFFF_FFFF, hosts, 0)
         == Outcome([Place(0, hosts[0]), Place(0x8000_0000, hosts[1]), Place(0, hosts[2])], None)
  {
    var limit := 0xFFFF_FFFF;
    assert Carve(16, limit, hosts, 3) == Outcome([], None);
    CarveServed(0, limit, hosts, 2);
    assert Next(0xFFFF_FFFF) == 0;
    CarveServed(0x8000_0000, limit, hosts, 1);
    assert Next(0x7FFF_FFFF) == 0x8000_0000;
    CarveServed(0, limit, hosts, 0);
  }

  /** A request of 10 hosts placed at 0.0.0.0 takes 0.0.0.0/28. */
  lemma TenHostsPlace(h: int)
    requires h == 10
    ensures Place(0, h).broadcast == 15
  {
    NewPrefixOf10();
    assert Pow2(4) == 16;
  }

  /** Where the three requests of the overlap example are placed. */
  lemma OverlapPlaces(hosts: seq<int>)
    requires hosts == [0x7FFF_FFFD, 0x7FFF_FFFD, 10]
    ensures AllValid(hosts) && |hosts| == 3
    ensures Place(0, hosts[0]).broadcast == 0x7FFF_FFFF
    ensures Place(0x8000_0000, hosts[1]).broadcast == 0xFFFF_FFFF
    ensures Place(0, hosts[2]).broadcast == 15
  {
    OverlapPlace(0, hosts[0]);
    OverlapPlace(0x8000_0000, hosts[1]);
    TenHostsPlace(hosts[2]);
  }

  /**
   * As written, the base 0.0.0.0/0 with two requests of 2^31 - 3 hosts and
   * one of 10 fills the whole address space with two /1 blocks; the cursor
   * then wraps to 0.0.0.0, and the third row 0.0.0.0/28 lies inside the
   * first row: the rows overlap.
   */
  lemma OverlapExample(hosts: seq<int>)
    requires hosts == [0x7FFF_FFFD, 0x7FFF_FFFD, 10]
    ensures var o := Carve(0, 0xFFFF_FFFF, hosts, 0);
            && o.failed == None && |o.rows| == 3
            && o.rows[0].network == o.rows[2].network == 0
            && o.rows[2].broadcast <= o.rows[0].broadcast
  {
    OverlapPlaces(hosts);
    WrapRun(hosts);
  }

}
