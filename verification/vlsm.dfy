/**
 * Variable-length subnetting: the requests are sorted largest first, and a
 * cursor walks from the base network address, carving for each request the
 * smallest power-of-two block that holds its hosts plus the network and
 * broadcast addresses, until a block would end past the base broadcast.
 */
module Vlsm {
  import opened Wrappers
  import opened MaskMath
  import opened Unsigned

  /**
   * A host count the allocator is defined for: not negative, and small
   * enough that the count plus the two reserved addresses still fits a Java
   * `int`, so the sum never overflows.
   */
  predicate ValidHostCount(h: int)
  {
    0 <= h && h + 2 <= 0x7FFF_FFFF
  }

  predicate AllValid(hosts: seq<int>)
  {
    forall k | 0 <= k < |hosts| :: ValidHostCount(hosts[k])
  }

  /** Non-increasing order, the order the requests are served in. */
  predicate Descending(s: seq<int>)
  {
    forall i, j | 0 <= i < j < |s| :: s[i] >= s[j]
  }

  /** The least b with n <= 2^b: the number of bits a block of n addresses needs. */
  function CeilLog2(n: nat): (r: nat)
    ensures n <= Pow2(r)
    ensures r > 0 ==> Pow2(r - 1) < n
    decreases n
  {
    if n <= 1 then 0 else 1 + CeilLog2((n + 1) / 2)
  }

  /** No smaller exponent is enough: any b with n <= 2^b is at least CeilLog2(n). */
  lemma {:induction false} CeilLog2Least(n: nat, b: nat)
    requires n <= Pow2(b)
    ensures CeilLog2(n) <= b
    decreases n
  {
    if n > 1 {
      CeilLog2Least((n + 1) / 2, b - 1);
    }
  }

  /** A larger block never needs fewer bits. */
  lemma CeilLog2Monotone(m: nat, n: nat)
    requires m <= n
    ensures CeilLog2(m) <= CeilLog2(n)
  {
    CeilLog2Least(m, CeilLog2(n));
  }

  /** Anything that fits a Java `int` needs at most 31 bits. */
  lemma CeilLog2AtMost31(n: nat)
    requires n <= 0x7FFF_FFFF
    ensures CeilLog2(n) <= 31
  {
    Pow2Of31();
    CeilLog2Least(n, 31);
  }

  /**
   * The host bits of the block for a request: the least b with
   * hosts + 2 <= 2^b. It lies in 1..31 for every valid count.
   */
  function HostBits(hosts: int): (b: nat)
    requires ValidHostCount(hosts)
    ensures 1 <= b <= 31
    ensures hosts + 2 <= Pow2(b)
    ensures Pow2(b - 1) < hosts + 2
  {
    CeilLog2AtMost31(hosts + 2);
    CeilLog2(hosts + 2)
  }

  /** The prefix of the block for a request, as the Java `int` the table prints: 32 less its host bits. */
  function NewPrefix(hosts: int): (p: int)
    requires ValidHostCount(hosts)
    ensures 1 <= p <= 31
  {
    32 - HostBits(hosts)
  }

  /**
   * The block for a request is the smallest that holds it: it has at least
   * hosts + 2 addresses, and no block with fewer host bits does.
   */
  lemma NewPrefixSizing(hosts: int, b: nat)
    requires ValidHostCount(hosts)
    ensures hosts + 2 <= Pow2(32 - NewPrefix(hosts))
    ensures hosts + 2 <= Pow2(b) ==> 32 - NewPrefix(hosts) <= b
  {
    if hosts + 2 <= Pow2(b) {
      CeilLog2Least(hosts + 2, b);
    }
  }

  /** Fewer hosts never get a shorter prefix (a larger block). */
  lemma NewPrefixMonotone(big: int, small: int)
    requires ValidHostCount(big) && ValidHostCount(small)
    requires small <= big
    ensures NewPrefix(big) <= NewPrefix(small)
  {
    CeilLog2Monotone(small + 2, big + 2);
  }

  /**
   * The unsigned value of the Java `int` one above the address a: the
   * increment wraps from 255.255.255.255 to 0.0.0.0.
   */
  function Next(a: int): int
  {
    (a + 1) % 0x1_0000_0000
  }

  /** One row of the allocation table; addresses are unsigned 32-bit values. */
  datatype Subnet = Subnet(
    hosts: int,
    network: int,
    prefix: int,
    firstHost: int,
    lastHost: int,
    broadcast: int)

  /**
   * The block for a request placed at the cursor, exactly as computed before
   * the space check: the cursor is taken as the network address without
   * realigning it, and the broadcast address is the cursor with the host bits
   * of the new mask set (`cursor | ~mask`).
   */
  function Place(cursor: int, hosts: int): Subnet
    requires ValidHostCount(hosts)
  {
    Subnet(hosts, cursor, NewPrefix(hosts), Next(cursor),
           SetLowBits(cursor, 32 - NewPrefix(hosts)) - 1, SetLowBits(cursor, 32 - NewPrefix(hosts)))
  }

  lemma HostBitsOfPrefix(p: Prefix, n: int)
    requires p as int == n
    ensures (32 - p) as nat == 32 - n
  {
  }

  /**
   * The broadcast address of a placed block is the 32-bit `cursor | ~mask`
   * for the mask of the request's prefix, read as unsigned.
   */
  lemma PlaceBroadcast(cursor: bv32, hosts: int, p: Prefix)
    requires ValidHostCount(hosts) && p as int == NewPrefix(hosts)
    ensures Place(cursor as int, hosts).broadcast == (cursor | !PrefixToMask(p)) as int
  {
    OrHostMaskValue(cursor, p);
    HostBitsOfPrefix(p, NewPrefix(hosts));
  }

  /**
   * Placed at a cursor aligned to its size, a request's block is exactly the
   * 2^(32 - prefix) addresses from the cursor on, it stays below 2^32, and
   * its usable range (all but the network and broadcast addresses) holds at
   * least the requested number of hosts.
   */
  lemma PlaceAligned(cursor: int, hosts: int)
    requires ValidHostCount(hosts) && 0 <= cursor < 0x1_0000_0000
    requires cursor % Pow2(32 - NewPrefix(hosts)) == 0
    ensures var s := Place(cursor, hosts);
            && s.network == cursor
            && s.broadcast == cursor + Pow2(32 - s.prefix) - 1
            && s.broadcast < 0x1_0000_0000
            && s.firstHost == cursor + 1
            && s.lastHost - s.firstHost + 1 >= hosts
  {
    Pow2Of32();
    SetLowBitsBelow(cursor, 32 - NewPrefix(hosts), 32);
    NewPrefixSizing(hosts, 0);
  }

  /** The result of a run: the rows printed, and the 1-based sorted index of the request that did not fit. */
  datatype Outcome = Outcome(rows: seq<Subnet>, failed: Option<nat>)

  /** The last address of the base block, unsigned: the bound the space check compares against. */
  function BaseLimit(baseNetwork: bv32, basePrefix: Prefix): int
  {
    (baseNetwork | !PrefixToMask(basePrefix)) as int
  }

  /** The limit is the base network address with the base block's host bits set. */
  lemma BaseLimitValue(baseNetwork: bv32, basePrefix: Prefix)
    ensures BaseLimit(baseNetwork, basePrefix) == SetLowBits(baseNetwork as int, (32 - basePrefix) as nat)
  {
    OrHostMaskValue(baseNetwork, basePrefix);
  }

  /**
   * The allocation run from a cursor over the requests from index i on: a
   * request whose block would end past the limit stops the run and is
   * reported by its 1-based index; otherwise its row is emitted and the
   * cursor moves to the address after its broadcast address, wrapping past
   * 255.255.255.255 as a Java `int` does.
   */
  function Carve(cursor: int, limit: int, hosts: seq<int>, i: nat): Outcome
    requires AllValid(hosts) && i <= |hosts|
    decreases |hosts| - i
  {
    if i == |hosts| then Outcome([], None)
    else if Place(cursor, hosts[i]).broadcast > limit then Outcome([], Some(i + 1))
    else
      var rest := Carve(Next(Place(cursor, hosts[i]).broadcast), limit, hosts, i + 1);
      Outcome([Place(cursor, hosts[i])] + rest.rows, rest.failed)
  }

  lemma AppendRow(rows: seq<Subnet>, row: Subnet, rest: seq<Subnet>)
    ensures rows + ([row] + rest) == (rows + [row]) + rest
  {
  }

  /**
   * The allocation loop over requests already in serving order: it walks the
   * cursor from the base network address and stops at the first request whose
   * block ends past `limit`, the base broadcast address.
   */
  method AllocateSorted(baseNetwork: int, limit: int, hosts: seq<int>)
      returns (rows: seq<Subnet>, failed: Option<nat>)
    requires AllValid(hosts)
    ensures rows == Carve(baseNetwork, limit, hosts, 0).rows
    ensures failed == Carve(baseNetwork, limit, hosts, 0).failed
  {
    var nextNetwork := baseNetwork;
    rows := [];
    var i := 0;
    while i < |hosts|
      invariant i <= |hosts|
      invariant Carve(baseNetwork, limit, hosts, 0).rows == rows + Carve(nextNetwork, limit, hosts, i).rows
      invariant Carve(baseNetwork, limit, hosts, 0).failed == Carve(nextNetwork, limit, hosts, i).failed
    {
      var subnet := Place(nextNetwork, hosts[i]);
      if subnet.broadcast > limit {
        failed := Some(i + 1);
        assert rows + [] == rows;
        return;
      }
      AppendRow(rows, subnet, Carve(Next(subnet.broadcast), limit, hosts, i + 1).rows);
      rows := rows + [subnet];
      nextNetwork := Next(subnet.broadcast);
      i := i + 1;
    }
    failed := None;
    assert rows + [] == rows;
  }

  /** Where the run goes on after the given rows: the cursor itself, or the address after the last broadcast. */
  function Resume(cursor: int, rows: seq<Subnet>): int
  {
    if |rows| == 0 then cursor else Next(rows[|rows| - 1].broadcast)
  }

  /**
   * The run serves the requests in order, one row per request, until it
   * stops: it is complete exactly when every request got a row, and a stop
   * names the request right after the last row.
   */
  lemma {:induction false} CarveCounts(cursor: int, limit: int, hosts: seq<int>, i: nat)
    requires AllValid(hosts) && i <= |hosts|
    ensures var o := Carve(cursor, limit, hosts, i);
            && |o.rows| <= |hosts| - i
            && (o.failed.None? <==> |o.rows| == |hosts| - i)
            && (o.failed.Some? ==> o.failed.value == i + |o.rows| + 1)
    decreases |hosts| - i
  {
    if i < |hosts| && Place(cursor, hosts[i]).broadcast <= limit {
      CarveCounts(Next(Place(cursor, hosts[i]).broadcast), limit, hosts, i + 1);
    }
  }

  /**
   * Row k of a run serves request i + k: it is that request's block placed
   * at the row's own network address, and it does not end past the limit.
   */
  lemma {:induction false} CarveRowServes(cursor: int, limit: int, hosts: seq<int>, i: nat, k: nat)
    requires AllValid(hosts) && i <= |hosts|
    requires k < |Carve(cursor, limit, hosts, i).rows|
    ensures i + k < |hosts|
    ensures Carve(cursor, limit, hosts, i).rows[k]
         == Place(Carve(cursor, limit, hosts, i).rows[k].network, hosts[i + k])
    ensures Carve(cursor, limit, hosts, i).rows[k].broadcast <= limit
    decreases k
  {
    if k > 0 {
      CarveRowServes(Next(Place(cursor, hosts[i]).broadcast), limit, hosts, i + 1, k - 1);
    }
  }

  /**
   * The first row starts at the cursor and each next row starts at the
   * address after the previous row's broadcast address (wrapping as a Java
   * `int`).
   */
  lemma {:induction false} CarveRowsAdjacent(cursor: int, limit: int, hosts: seq<int>, i: nat, k: nat)
    requires AllValid(hosts) && i <= |hosts|
    requires k + 1 < |Carve(cursor, limit, hosts, i).rows|
    ensures Carve(cursor, limit, hosts, i).rows[0].network == cursor
    ensures Carve(cursor, limit, hosts, i).rows[k + 1].network
         == Next(Carve(cursor, limit, hosts, i).rows[k].broadcast)
    decreases k
  {
    if k > 0 {
      CarveRowsAdjacent(Next(Place(cursor, hosts[i]).broadcast), limit, hosts, i + 1, k - 1);
    }
  }

  lemma ResumeAfter(cursor: int, row: Subnet, rest: seq<Subnet>)
    ensures Resume(cursor, [row] + rest) == Resume(Next(row.broadcast), rest)
  {
    if |rest| > 0 {
      assert ([row] + rest)[|rest|] == rest[|rest| - 1];
    }
  }

  /** A run stops only at a request whose block, placed where the run stands, ends past the limit. */
  lemma {:induction false} CarveStopsAtOverflow(cursor: int, limit: int, hosts: seq<int>, i: nat)
    requires AllValid(hosts) && i <= |hosts|
    ensures var o := Carve(cursor, limit, hosts, i);
            o.failed.Some? ==> i + |o.rows| < |hosts| && Place(Resume(cursor, o.rows), hosts[i + |o.rows|]).broadcast > limit
    decreases |hosts| - i
  {
    if i < |hosts| && Place(cursor, hosts[i]).broadcast <= limit {
      var next := Next(Place(cursor, hosts[i]).broadcast);
      CarveStopsAtOverflow(next, limit, hosts, i + 1);
      ResumeAfter(cursor, Place(cursor, hosts[i]), Carve(next, limit, hosts, i + 1).rows);
    }
  }

  /** Sorts the array into non-increasing order, in place. */
  method SortDescending(a: array<int>)
    modifies a
    ensures Descending(a[..])
    ensures multiset(a[..]) == multiset(old(a[..]))
  {
    if a.Length == 0 {
      return;
    }
    var i := 1;
    while i < a.Length
      invariant 1 <= i <= a.Length
      invariant Descending(a[..i])
      invariant multiset(a[..]) == multiset(old(a[..]))
    {
      InsertDescending(a, i);
      i := i + 1;
    }
    assert a[..a.Length] == a[..];
  }

  /** Moves a[i] left past every smaller element, leaving a[..i+1] in non-increasing order. */
  method InsertDescending(a: array<int>, i: nat)
    requires i < a.Length
    requires Descending(a[..i])
    modifies a
    ensures Descending(a[..i + 1])
    ensures a[i + 1..] == old(a[i + 1..])
    ensures multiset(a[..]) == multiset(old(a[..]))
  {
    var j := i;
    while j > 0 && a[j - 1] < a[j]
      invariant 0 <= j <= i
      invariant forall x, y | 0 <= x < y <= i && x != j && y != j :: a[x] >= a[y]
      invariant forall k | j < k <= i :: a[j] > a[k]
      invariant a[i + 1..] == old(a[i + 1..])
      invariant multiset(a[..]) == multiset(old(a[..]))
    {
      a[j - 1], a[j] := a[j], a[j - 1];
      j := j - 1;
    }
  }

  lemma AllValidPermutation(s: seq<int>, t: seq<int>)
    requires AllValid(s)
    requires multiset(t) == multiset(s)
    ensures AllValid(t)
  {
    forall k | 0 <= k < |t|
      ensures ValidHostCount(t[k])
    {
      assert t[k] in multiset(s);
    }
  }

  /**
   * The whole allocation: sort the requests largest first, in place, then
   * run the allocation loop over them from the base network address, with
   * the base broadcast address as the limit.
   */
  method PerformVlsm(baseNetwork: bv32, basePrefix: Prefix, hosts: array<int>)
      returns (rows: seq<Subnet>, failed: Option<nat>)
    requires AllValid(hosts[..])
    modifies hosts
    ensures Descending(hosts[..])
    ensures multiset(hosts[..]) == multiset(old(hosts[..]))
    ensures AllValid(hosts[..])
    ensures rows == Carve(baseNetwork as int, BaseLimit(baseNetwork, basePrefix), hosts[..], 0).rows
    ensures failed == Carve(baseNetwork as int, BaseLimit(baseNetwork, basePrefix), hosts[..], 0).failed
  {
    SortDescending(hosts);
    AllValidPermutation(old(hosts[..]), hosts[..]);
    rows, failed := AllocateSorted(baseNetwork as int, BaseLimit(baseNetwork, basePrefix), hosts[..]);
  }

  /** The limit for 192.168.1.0/24 is 192.168.1.255, and for 192.168.1.0/28 it is 192.168.1.15. */
  lemma BaseLimitExample()
    ensures BaseLimit(0xC0A8_0100, 24) == 0xC0A8_01FF
    ensures BaseLimit(0xC0A8_0100, 28) == 0xC0A8_010F
  {
  }

  /** 50 hosts and the two reserved addresses need 6 host bits: a /26. */
  lemma NewPrefixOf50()
    ensures NewPrefix(50) == 26
  {
    assert CeilLog2(2) == 1;
    assert CeilLog2(4) == 2;
    assert CeilLog2(7) == 3;
    assert CeilLog2(13) == 4;
    assert CeilLog2(26) == 5;
    assert CeilLog2(52) == 6;
  }

  /** 20 hosts need 5 host bits: a /27. */
  lemma NewPrefixOf20()
    ensures NewPrefix(20) == 27
  {
    assert CeilLog2(2) == 1;
    assert CeilLog2(3) == 2;
    assert CeilLog2(6) == 3;
    assert CeilLog2(11) == 4;
    assert CeilLog2(22) == 5;
  }

  /** 10 hosts need 4 host bits: a /28. */
  lemma NewPrefixOf10()
    ensures NewPrefix(10) == 28
  {
    assert CeilLog2(2) == 1;
    assert CeilLog2(4) == 2;
    assert CeilLog2(6) == 3;
    assert CeilLog2(12) == 4;
  }

  lemma FirstPlace()
    ensures Place(0xC0A8_0100, 50) == Subnet(50, 0xC0A8_0100, 26, 0xC0A8_0101, 0xC0A8_013E, 0xC0A8_013F)
  {
    NewPrefixOf50();
    assert Pow2(6) == 64;
  }

  lemma SecondPlace()
    ensures Place(0xC0A8_0140, 20) == Subnet(20, 0xC0A8_0140, 27, 0xC0A8_0141, 0xC0A8_015E, 0xC0A8_015F)
  {
    NewPrefixOf20();
    assert Pow2(5) == 32;
  }

  lemma ThirdPlace()
    ensures Place(0xC0A8_0160, 10) == Subnet(10, 0xC0A8_0160, 28, 0xC0A8_0161, 0xC0A8_016E, 0xC0A8_016F)
  {
    NewPrefixOf10();
    assert Pow2(4) == 16;
  }

  /**
   * 192.168.1.0/24 with requests for 50, 20 and 10 hosts: a /26 at
   * 192.168.1.0, a /27 at 192.168.1.64 and a /28 at 192.168.1.96.
   */
  lemma ThreeSubnetsExample()
    ensures Carve(0xC0A8_0100, 0xC0A8_01FF, [50, 20, 10], 0)
         == Outcome([Subnet(50, 0xC0A8_0100, 26, 0xC0A8_0101, 0xC0A8_013E, 0xC0A8_013F),
                     Subnet(20, 0xC0A8_0140, 27, 0xC0A8_0141, 0xC0A8_015E, 0xC0A8_015F),
                     Subnet(10, 0xC0A8_0160, 28, 0xC0A8_0161, 0xC0A8_016E, 0xC0A8_016F)], None)
  {
    var hosts := [50, 20, 10];
    FirstPlace();
    SecondPlace();
    ThirdPlace();
    var third := Carve(0xC0A8_0160, 0xC0A8_01FF, hosts, 2);
    assert third == Outcome([Place(0xC0A8_0160, 10)], None);
    assert Carve(0xC0A8_0140, 0xC0A8_01FF, hosts, 1) == Outcome([Place(0xC0A8_0140, 20)] + third.rows, None);
  }

  /** 192.168.1.0/28 holds 16 addresses: a request for 20 hosts needs a /27 and fails as request 1. */
  lemma NoSpaceExample()
    ensures Carve(0xC0A8_0100, 0xC0A8_010F, [20], 0) == Outcome([], Some(1))
  {
    NewPrefixOf20();
    assert Pow2(5) == 32;
    assert Place(0xC0A8_0100, 20).broadcast == 0xC0A8_011F;
  }
}
