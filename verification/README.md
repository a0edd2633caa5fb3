# NetIP in Dafny

A verified model of the address arithmetic in `NetIP.java`, an IPv4 subnet
calculator. The calculator has two modes, and both are modelled here.

- **Basic mode.** It reads an address with a prefix length and rejects a
  prefix outside 0..32. It then derives the netmask, the network address
  (`ip & mask`) and the broadcast address (`network | ~mask`). It reports the
  legacy class of the address (A to E), whether the address is private or
  public, and the usable host range. The range is reported only below /31.
- **VLSM mode.** The allocator sorts the host-count requests largest first. A
  cursor starts at the base network address. Each request is sized to the
  smallest power-of-two block that holds its hosts plus the network and
  broadcast addresses. The block is placed at the cursor. If its broadcast
  address is past the base broadcast address, compared as unsigned values,
  the run stops and names the request by its 1-based sorted index. Otherwise
  the row is emitted and the cursor moves to the address after the block.

Modules:

- `Wrappers`: `Option` and `Result`. These stand in for the exceptions and
  the early `return`.
- `MaskMath`: prefix validation, `prefixToMask`, and the block of an address.
  Addresses and masks are `bv32`, so arithmetic wraps like a Java `int`, and
  `<`/`<=` on `bv32` is the unsigned comparison.
- `Unsigned`: addresses read as unsigned integers, the way the allocator
  compares them (`& 0xFFFFFFFFL`). Its lemmas connect the 32-bit expressions
  `c | ~mask` and `ip & mask` to integer arithmetic on block sizes 2^k.
- `AddressCodec`: packing four bytes into an address, the four octets of an
  address, and the dotted-quad text. A parser for that text is included as
  the inverse of the rendering, so that the round trip can be stated.
- `Classifier`: `ipClass` and `ipType`.
- `BasicReport`: the entry computation and the basic report.
- `Vlsm`: the allocator as written.
  - `SortDescending` sorts an `array` in place.
  - `AllocateSorted` is the allocation loop.
  - `PerformVlsm` runs both.
  - `Carve` is the pure function that specifies the loop. The lemmas about
    the run are stated on `Carve`.
- `VlsmChecked`: the allocator with the two checks that the space test leaves
  out (see Findings). It also proves when the two allocators agree.

## Model

| member | source | states |
|---|---|---|
| MaskMath.PrefixToMask | NetIP.java:170-172 | no contract of its own: the all-ones word shifted left by 32 - p; its shape is stated by MaskShape and MaskEnds |
| MaskMath.CheckPrefix | NetIP.java:36-37 | a prefix is accepted exactly when it is in 0..32, and the accepted value is the input |
| MaskMath.MaskShape | NetIP.java:170-172 | bit i of the mask is set exactly when i >= 32 - p, so exactly the top p bits are set |
| MaskMath.MaskEnds | NetIP.java:170-172 | /0 gives the empty mask and /32 gives 0xFFFFFFFF (the shift by 32 of a Java `long` leaves nothing in the low word) |
| MaskMath.Block | NetIP.java:43-45 | no contract of its own: the mask, the network address `ip & mask` and the broadcast address (the network or-ed with the complement of the mask) of an address; the lemmas below state their meaning |
| MaskMath.NetworkSameBlock | NetIP.java:44 | the network address masks to the same value as the address |
| MaskMath.NetworkIdempotent | NetIP.java:44 | masking the network address again changes nothing |
| MaskMath.NetworkHostBits | NetIP.java:44 | every host bit of the network address is clear |
| MaskMath.BroadcastSameBlock | NetIP.java:45 | the broadcast address masks back to the network address |
| MaskMath.BroadcastHostBits | NetIP.java:45 | every host bit of the broadcast address is set |
| MaskMath.BlockOrder | NetIP.java:43-45 | as unsigned values, network <= ip <= broadcast |
| MaskMath.BroadcastMinusNetwork | NetIP.java:43-45 | broadcast - network equals the host part of the mask |
| MaskMath.HostMaskValue | NetIP.java:170-172 | the host part of the mask for k host bits has the value 2^k - 1 |
| MaskMath.HostMaskOfPrefix | NetIP.java:170-172 | the host part of the /p mask has the value 2^(32-p) - 1 |
| MaskMath.HostMaskLessTwoOfPrefix | NetIP.java:83-84 | below /31, the host part of the mask less the two reserved addresses has the value 2^(32-p) - 3 |
| MaskMath.BlockSize | NetIP.java:43-45 | a /p block holds 2^(32-p) addresses, counted from network to broadcast |
| Unsigned.SetLowBitsMeaning | NetIP.java:118 | with the low b bits set, the result has those bits all ones and the higher bits of the input, and lies in [c, c + 2^b) |
| Unsigned.SetLowBitsAligned | NetIP.java:118 | on an address aligned to 2^b, setting the low b bits gives the last address of its 2^b block |
| Unsigned.SetLowBitsAddress | NetIP.java:118-120 | setting host bits keeps a 32-bit address a 32-bit address, at or above where it started |
| Unsigned.AlignedSmaller | NetIP.java:116-118 | proof helper, no source behaviour of its own: an address aligned to a block is aligned to every smaller power-of-two block |
| Unsigned.AlignedNext | NetIP.java:139 | proof helper, no source behaviour of its own: the address one block above an aligned address is aligned again |
| Unsigned.ShiftRightValue | NetIP.java:118 | proof helper, no source behaviour of its own: in the bit-by-bit bridges for the broadcast and network expressions, a logical shift right by one halves the unsigned value |
| Unsigned.OrLowValue | NetIP.java:118 | building the low n one-bits step by step gives the unsigned value of the address with its low n bits set |
| Unsigned.OrLowIsOr | NetIP.java:118 | that step-by-step word, for n = k, is c or-ed with the complement of the mask with k host bits (prefix 32 - k) |
| Unsigned.OrHostMaskValue | NetIP.java:118 | c or-ed with the complement of prefixToMask(p), read as unsigned, is c with its 32 - p low bits set |
| Unsigned.BlockBroadcastValue | NetIP.java:45 | the broadcast address, read as unsigned, is the network address with its host bits set |
| Unsigned.ClearLowValue | NetIP.java:44 | clearing the low n bits step by step gives c - c mod 2^n, the largest multiple of 2^n at or below c |
| Unsigned.ClearLowIsAnd | NetIP.java:44 | that step-by-step word, for n = k, is `c & mask` for the mask with k host bits (prefix 32 - k) |
| Unsigned.AndMaskValue | NetIP.java:44 | c masked with prefixToMask(p), read as unsigned, is c with its 32 - p low bits cleared |
| Unsigned.NetworkValue | NetIP.java:44 | the network address, read as unsigned, is ip - ip mod 2^(32-p) |
| Unsigned.NetworkAligned | NetIP.java:44 | the network address of a /p block is a multiple of 2^(32-p) |
| AddressCodec.Octet | NetIP.java:150 | no contract of its own: octet k, k = 0 the most significant, is the 8-bit field `(ip >> (24 - 8k)) & 0xFF`; BytesToAddress and PackOctets state its meaning |
| AddressCodec.Octets | NetIP.java:150 | no contract beyond the length (four octets, each `(ip >> (24 - 8k)) & 0xFF`); BytesToAddress and PackOctets state its meaning |
| AddressCodec.BytesToAddress | NetIP.java:159-162 | packing bytes b0..b3 gives a word whose four octets are b0, b1, b2, b3 in that order |
| AddressCodec.PackOctets | NetIP.java:149-162 | packing the octets of an address gives back the address |
| AddressCodec.DecimalString | NetIP.java:150 | the decimal text of an octet has only digits, no leading zero, at most three characters, and reads back as the octet |
| AddressCodec.ParseOctetDecimal | NetIP.java:150 | each decimal field that intToIp renders for an octet reads back as that octet |
| AddressCodec.FieldsOfJoin | NetIP.java:150 | digit fields joined by dots split back into the same fields |
| AddressCodec.FieldsOfDottedQuad | NetIP.java:150 | four digit strings joined by three dots split back into those four strings |
| AddressCodec.IntToIp | NetIP.java:149-151 | no contract of its own: the four octets in decimal joined by dots; ParseIntToIp and IntToIpInjective state its meaning |
| AddressCodec.ParseIntToIp | NetIP.java:149-151 | reading back the dotted-quad text of an address gives the address |
| AddressCodec.IntToIpInjective | NetIP.java:149-151 | distinct addresses have distinct dotted-quad texts |
| Classifier.IpClass | NetIP.java:180-192 | the class agrees with the leading-bit scheme for every first octet except 127, which is class B (the leading bits say A) |
| Classifier.IpClassMonotone | NetIP.java:180-192 | the class never goes down as the first octet goes up |
| Classifier.ClassBoundaryExamples | NetIP.java:180-192 | first octets 126, 127, 191, 192, 223, 224, 239 and 240 fall in A, B, B, C, C, D, D and E |
| Classifier.IpType | NetIP.java:200-211 | the type is Private exactly when the address lies in 10.0.0.0/8, 172.16.0.0/12 or 192.168.0.0/16 |
| Classifier.TypeExamples | NetIP.java:200-211 | the edges of the private ranges: 172.15/172.16 and 172.31/172.32 |
| BasicReport.Analyze | NetIP.java:36-45 | an error exactly when the prefix is outside 0..32; otherwise the block of the packed address with that prefix |
| BasicReport.UsableRange | NetIP.java:83-87 | a host range is reported exactly when the prefix is below 31 |
| BasicReport.UsableRangeWithinBlock | NetIP.java:83-84 | below /31 both range ends lie in the block, strictly between network and broadcast, with first <= last |
| BasicReport.UsableRangeCount | NetIP.java:83-84 | below /31 the range holds 2^(32-p) - 2 addresses |
| BasicReport.BasicInfo | NetIP.java:77-87 | the type is Private exactly for the private blocks; the class follows the leading bits except that 127 is B; below /31 the range is network + 1 to broadcast - 1, and none otherwise; network and broadcast are passed through |
| BasicReport.Basic | NetIP.java:36-48 | the basic mode end to end: a prefix outside 0..32 is an error; otherwise the report is BasicInfo on the block of the packed address (its network and broadcast), so class, type, range presence and range values are those stated for BasicInfo |
| BasicReport.BasicExample | NetIP.java:36-87 | 192.168.1.0/24 reports network .0, broadcast .255, hosts .1 to .254, class C, private |
| BasicReport.PointToPointExample | NetIP.java:83-87 | /31 and /32 report no hosts |
| BasicReport.RejectedPrefixExample | NetIP.java:36-37 | prefix 33 is rejected |
| Vlsm.CeilLog2 | NetIP.java:115 | n <= 2^r, and 2^(r-1) < n when r > 0 |
| Vlsm.CeilLog2Least | NetIP.java:115 | no smaller exponent suffices: n <= 2^b implies CeilLog2(n) <= b |
| Vlsm.CeilLog2Monotone | NetIP.java:115 | more addresses never need fewer bits |
| Vlsm.HostBits | NetIP.java:114-115 | the host bits of a request are in 1..31, with 2^(b-1) < hosts + 2 <= 2^b |
| Vlsm.NewPrefix | NetIP.java:116 | the new prefix is in 1..31 |
| Vlsm.NewPrefixSizing | NetIP.java:114-116 | the block holds hosts + 2 addresses, and no block with fewer host bits does |
| Vlsm.NewPrefixMonotone | NetIP.java:107-116 | a smaller request never gets a shorter prefix (equivalently, never needs more host bits) |
| Vlsm.Next | NetIP.java:139 | no contract of its own: the unsigned value of the Java `int` one above an address, wrapping 255.255.255.255 to 0.0.0.0; CarveRowsAdjacent and WrapAroundExample use it |
| Vlsm.Place | NetIP.java:114-126 | no contract of its own: the row for a request at the cursor; PlaceBroadcast and PlaceAligned state its meaning |
| Vlsm.PlaceBroadcast | NetIP.java:117-118 | the placed block's broadcast is the unsigned value of the cursor or-ed with the complement of prefixToMask(newPrefix) |
| Vlsm.PlaceAligned | NetIP.java:118-126 | at an aligned cursor the block is exactly the 2^(32-prefix) addresses from the cursor, stays below 2^32, first host is cursor + 1, and the usable range holds the request |
| Vlsm.BaseLimit | NetIP.java:120 | no contract of its own: the unsigned base broadcast the space test compares against; BaseLimitValue states its value |
| Vlsm.BaseLimitValue | NetIP.java:120 | the limit is the base network address with the base host bits set |
| Vlsm.Carve | NetIP.java:109-140 | no contract of its own: the allocation run as a function; CarveCounts, CarveRowServes, CarveRowsAdjacent and CarveStopsAtOverflow state its meaning |
| Vlsm.AllocateSorted | NetIP.java:109-140 | the loop emits exactly the rows of `Carve` from the base network address, and reports the same failing index |
| Vlsm.CarveCounts | NetIP.java:113-123 | one row per request in order: complete exactly when every request got a row; a stop names the request right after the last row, so no later request is emitted |
| Vlsm.CarveRowServes | NetIP.java:114-126 | row k is request i + k's block placed at the row's network address, and its broadcast is at most the limit |
| Vlsm.CarveRowsAdjacent | NetIP.java:109-139 | the first row starts at the cursor, and row k + 1 starts at row k's broadcast + 1, wrapping as a Java `int` |
| Vlsm.CarveStopsAtOverflow | NetIP.java:120-122 | the run stops only at a request whose block, placed where the run stands, ends past the limit |
| Vlsm.SortDescending | NetIP.java:107 | the array ends in non-increasing order and is a permutation of its old contents |
| Vlsm.InsertDescending | NetIP.java:107 | one insertion step extends the non-increasing prefix by one element, as a permutation, and leaves the elements after it unchanged |
| Vlsm.AllValidPermutation | NetIP.java:107 | sorting keeps every host count valid |
| Vlsm.PerformVlsm | NetIP.java:106-141 | the hosts end sorted largest first and permuted, and the result is the `Carve` run over them from the base network address up to the base broadcast |
| Vlsm.BaseLimitExample | NetIP.java:120 | the limit of 192.168.1.0/24 is 192.168.1.255, and of /28 it is 192.168.1.15 |
| Vlsm.NewPrefixOf50 | NetIP.java:114-116 | 50 hosts get a /26 |
| Vlsm.ThreeSubnetsExample | NetIP.java:106-141 | 192.168.1.0/24 with 50, 20 and 10 hosts gives /26 at .0, /27 at .64 and /28 at .96 |
| Vlsm.NoSpaceExample | NetIP.java:120-122 | 192.168.1.0/28 with 20 hosts fails as request 1 with no rows |
| VlsmChecked.CarveChecked | NetIP.java:113-139 | no contract of its own: the run with the prefix check and an unwrapped cursor; the CheckedRow lemmas state its meaning |
| VlsmChecked.ReadyAtBase | NetIP.java:109 | an aligned base network address is a ready start for the checked run |
| VlsmChecked.ReadyStep | NetIP.java:118-139 | from a ready cursor, a request fills exactly its block, and the next address is ready for the next smaller request |
| VlsmChecked.CheckedRowServes | NetIP.java:114-126 | each checked row is its request's block, not shorter than the base prefix, and not past the limit |
| VlsmChecked.CheckedRowReady | NetIP.java:109-139 | every checked row starts at a ready address |
| VlsmChecked.CheckedRowBlock | NetIP.java:116-118 | every checked row is an aligned block of exactly 2^(32-prefix) addresses, at or above the base |
| VlsmChecked.CheckedRowsAdjacent | NetIP.java:109-139 | checked rows are contiguous: each starts right after the previous broadcast |
| VlsmChecked.CheckedRowNotEmpty | NetIP.java:118 | no row ends before it starts |
| VlsmChecked.CheckedRowsDisjoint | NetIP.java:109-139 | an earlier checked row ends before a later one starts: the rows are disjoint and increasing |
| VlsmChecked.CheckedRunRow | NetIP.java:106-139 | from an aligned base, row k serves request k with an aligned block inside the base block, not shorter than the base prefix |
| VlsmChecked.BaseLimitOfBlock | NetIP.java:120 | the limit of a run over a derived block is that block's broadcast |
| VlsmChecked.CheckedBlockRow | NetIP.java:43-58 | over the block derived from an address and prefix, every checked row is an aligned block between its network and broadcast addresses |
| VlsmChecked.CheckedAgrees | NetIP.java:113-139 | when every prefix is at least the base prefix and the limit is below 255.255.255.255, the checked run equals the run as written |
| VlsmChecked.OverlongBlockExample | NetIP.java:113-123 | as written, 300 hosts on 192.168.1.0/24 get the row 192.168.1.0/23, which ends at .255 and is not a /23 network address |
| VlsmChecked.OverlongRefusedExample | NetIP.java:120-122 | as written, the same 300-host request on 192.168.0.0/24 ends past the base broadcast and is reported as request 1 with no space |
| VlsmChecked.CheckedRefusesOverlong | NetIP.java:113-123 | with the prefix check, the 300-host request on 192.168.1.0/24 fails as request 1 |
| VlsmChecked.WrapAroundExample | NetIP.java:139 | as written, 255.255.255.0/24 with 100, 100 and 10 hosts places the third block at 0.0.0.0/28 |
| VlsmChecked.CheckedStopsAtTop | NetIP.java:139 | with an unwrapped cursor, the third request fails as request 3 |
| VlsmChecked.OverlapExample | NetIP.java:139 | as written, 0.0.0.0/0 with 2^31 - 3, 2^31 - 3 and 10 hosts fills the space with two /1 rows, wraps, and places the third row 0.0.0.0/28 inside the first |

## Left out

- Console input is not modelled: the `Scanner`, the y/n prompts for VLSM and debug, and the loop that reads host counts (NetIP.java:10-26, 50-57). The model takes its inputs as parameters.
- Console output is not modelled: the printed lines, the table formatting and the Spanish messages. The model returns a `Report` for the basic mode and, for VLSM, the rows together with the 1-based index of the request that found no space (`Carve` packs the two as an `Outcome`) instead.
- The debug binary dumps (NetIP.java:89-94, 132-137) are output only.
- `InetAddress.getByName` (NetIP.java:39-40) is a foreign library call that may resolve names. The model takes the four address bytes as already parsed.
- The input regex (NetIP.java:28), the split at `/` and `Integer.parseInt` are not modelled. The prefix enters as an integer.
- The exception handling in `main` is modelled as `Result` values.
- Vlsm.CeilLog2: the floating-point `Math.ceil(Math.log(needed) / Math.log(2))` at NetIP.java:115 is replaced by the exact least b with needed <= 2^b. Rounding error at exact powers of two is not modelled. In IEEE double arithmetic log(2^29) / log(2) comes out slightly above 29, so a request for 536870910 hosts (needed = 2^29) would likely get 30 host bits, a /2, in the source, where the model gives 29 bits, a /3.
- Vlsm.PerformVlsm: requires every host count to be in 0..2^31 - 3, so that `needed` is at least 2 and does not overflow. The source does run outside that range, with sizes that make no sense. A count of -1 gives needed = 1, log 0, and a /32 row whose first host lies above its last. A count of -2 gives needed = 0, whose log is minus infinity, so the cast gives the smallest `int` and the printed prefix is -2147483616. A count of -3 or less, or one whose `needed` overflows, gives the log of a negative number, NaN, which the cast turns into 0: again a /32 row.
- Vlsm.SortDescending: the comparator `b - a` is modelled as a plain descending comparison. It cannot overflow for valid host counts. The `List<Integer>` becomes an `array<int>`.
- Vlsm.Carve: addresses in the allocator are the unsigned values 0..2^32 - 1 of Java `int`s. The cursor increment wraps explicitly (`Next`). The broadcast is tied to the 32-bit `cursor | ~mask` by `Vlsm.PlaceBroadcast`. `lastHost = broadcast - 1` needs no wrap, because a broadcast always has its low bit set.
- For the allocator as written, no global non-overlap theorem is stated, because it does not hold. Once the cursor wraps past 255.255.255.255, a later row can land on an earlier one; `VlsmChecked.OverlapExample` shows this on 0.0.0.0/0. Non-overlap is proved for the checked run (`VlsmChecked.CheckedRowsDisjoint`); see Findings.

## Findings

| source | as written | input that shows it | evidently intended | confidence | as-written member | corrected member |
|---|---|---|---|---|---|---|
| NetIP.java:113-123 | the only space test compares the block's broadcast with the base broadcast; a request whose block is larger than the base block can pass it, when the base network address has every bit between the two prefixes set (192.168.1.0/24 for a /23; on 192.168.0.0/24 the same request is refused), and the row is then placed at an address that is not aligned to its size | 192.168.1.0/24 with one request for 300 hosts: the row is printed as 192.168.1.0/23 with broadcast 192.168.1.255, a 512-address block in a 256-address base | refuse a request whose new prefix is shorter than the base prefix; every row is then an aligned block inside the base | not executed | VlsmChecked.OverlongBlockExample | VlsmChecked.CheckedRunRow |
| NetIP.java:139 | `subnetBroadcast + 1` wraps from 255.255.255.255 to 0.0.0.0, and later requests are placed at the bottom of the address space, which still passes the space test | 255.255.255.0/24 with requests 100, 100 and 10: the third row is 0.0.0.0/28, outside the base block | stop with "no space" once the base block is full | not executed | VlsmChecked.WrapAroundExample | VlsmChecked.CheckedBlockRow |
| NetIP.java:139 | on the base 0.0.0.0/0 the space test can never fail, so after the wrap the cursor revisits addresses that earlier rows already hold, and rows overlap | 0.0.0.0/0 with requests 2147483645, 2147483645 and 10: rows 0.0.0.0/1 and 128.0.0.0/1, then 0.0.0.0/28, which lies inside the first row | rows that never share an address | not executed | VlsmChecked.OverlapExample | VlsmChecked.CheckedRowsDisjoint |
