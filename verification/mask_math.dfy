/**
 * Prefix lengths, netmasks, and the network and broadcast addresses of a block.
 * Addresses and masks are 32-bit words: `bv32` arithmetic wraps exactly like a
 * Java `int`, and `<=` on `bv32` is the unsigned comparison.
 */
module MaskMath {
  import opened Wrappers

  /**
   * A prefix length that has passed validation. It is kept as a small
   * bit-vector so that the shift that builds the mask stays in bit-vector
   * arithmetic.
   */
  type Prefix = p: bv8 | p <= 32

  datatype PrefixError = InvalidPrefix

  /** 2 to the power k. */
  function Pow2(k: nat): (r: nat)
    ensures r >= 1
  {
    if k == 0 then 1 else 2 * Pow2(k - 1)
  }

  lemma {:induction false} Pow2Monotone(j: nat, k: nat)
    requires j <= k
    ensures Pow2(j) <= Pow2(k)
  {
    if j < k {
      Pow2Monotone(j, k - 1);
    }
  }

  /** Bit i (0 is the least significant) of x is set. */
  predicate Bit(x: bv32, i: bv8)
    requires i < 32
  {
    (x >> i) & 1 == 1
  }

  /**
   * The prefix check that guards every later use of the prefix: only 0..32
   * is accepted.
   */
  function CheckPrefix(prefix: int): (r: Result<Prefix, PrefixError>)
    ensures r.Ok? <==> 0 <= prefix <= 32
    ensures r.Ok? ==> r.value as int == prefix
  {
    if prefix < 0 || prefix > 32 then Err(InvalidPrefix) else Ok(prefix as bv8)
  }

  /**
   * The netmask of a prefix: all-ones shifted left by the number of host bits,
   * truncated to 32 bits (a shift by 32 leaves nothing).
   */
  function PrefixToMask(p: Prefix): bv32
  {
    (0xFFFF_FFFF as bv32) << (32 - p)
  }

  /** Mask shape: exactly the top p bits of the mask are set. */
  lemma MaskShape(p: Prefix)
    ensures forall i: bv8 | i < 32 :: Bit(PrefixToMask(p), i) <==> i >= 32 - p
  {
  }

  /** The two extreme prefixes: /0 has the empty mask, /32 the full one. */
  lemma MaskEnds()
    ensures PrefixToMask(0) == 0 && PrefixToMask(32) == 0xFFFF_FFFF
  {
  }

  /** An address together with its prefix and the block derived from them. */
  datatype Cidr = Cidr(ip: bv32, prefix: Prefix, mask: bv32, network: bv32, broadcast: bv32)

  /**
   * The block of an address: the network address is the address with its host
   * bits cleared (`ip & mask`), the broadcast address is the network address
   * with its host bits set (`network | !mask`).
   */
  function Block(ip: bv32, p: Prefix): Cidr
  {
    var mask := PrefixToMask(p);
    var network := ip & mask;
    Cidr(ip, p, mask, network, network | !mask)
  }

  lemma BlockFields(ip: bv32, p: Prefix)
    ensures var c := Block(ip, p);
            c.ip == ip && c.prefix == p && c.mask == PrefixToMask(p)
  {
  }

  /** The network address lies in the same block as the address. */
  lemma NetworkSameBlock(ip: bv32, p: Prefix)
    ensures var c := Block(ip, p);
            c.network & c.mask == c.ip & c.mask
  {
  }

  /** Masking the network address again changes nothing. */
  lemma NetworkIdempotent(ip: bv32, p: Prefix)
    ensures var c := Block(ip, p);
            c.network & c.mask == c.network
  {
  }

  /** Every host bit of the network address is clear. */
  lemma NetworkHostBits(ip: bv32, p: Prefix)
    ensures var c := Block(ip, p);
            c.network & !c.mask == 0
  {
  }

  /** The broadcast address masks back to the network address. */
  lemma BroadcastSameBlock(ip: bv32, p: Prefix)
    ensures var c := Block(ip, p);
            c.broadcast & c.mask == c.network
  {
  }

  /** Every host bit of the broadcast address is set. */
  lemma BroadcastHostBits(ip: bv32, p: Prefix)
    ensures var c := Block(ip, p);
            c.broadcast & !c.mask == !c.mask
  {
  }

  /**
   * As unsigned values the block runs from the network address up to the
   * broadcast address and holds the address it was computed from.
   */
  lemma BlockOrder(ip: bv32, p: Prefix)
    ensures var c := Block(ip, p);
            c.network <= c.ip <= c.broadcast
  {
  }

  /** The broadcast lies exactly the host part of the mask above the network address. */
  lemma BroadcastMinusNetwork(ip: bv32, p: Prefix)
    ensures var c := Block(ip, p);
            c.broadcast - c.network == !c.mask
  {
  }

  lemma HostMaskStep(k: Prefix)
    requires 0 < k
    ensures !PrefixToMask(32 - k) == (!PrefixToMask(33 - k) << 1) | 1
    ensures !PrefixToMask(33 - k) < 0x8000_0000
  {
  }

  lemma DoubleAndSetLow(b: bv32)
    requires b < 0x8000_0000
    ensures ((b << 1) | 1) as int == 2 * (b as int) + 1
  {
  }

  /** The host part of the mask of a block with k host bits has the value 2^k - 1. */
  lemma {:induction false} HostMaskValue(k: Prefix)
    ensures (!PrefixToMask(32 - k)) as int == Pow2(k as nat) - 1
    decreases k as nat
  {
    if k > 0 {
      HostMaskValue(k - 1);
      HostMaskStep(k);
      DoubleAndSetLow(!PrefixToMask(33 - k));
    }
  }

  /** The host part of the mask of a /p block has the value 2^(32-p) - 1. */
  lemma HostMaskOfPrefix(p: Prefix)
    ensures (!PrefixToMask(p)) as int == Pow2((32 - p) as nat) - 1
  {
    HostMaskValue(32 - p);
  }

  lemma HostMaskLessTwoStep(k: Prefix)
    requires 2 <= k
    ensures !PrefixToMask(32 - k) - 2 == (!PrefixToMask(34 - k) << 2) | 1
    ensures !PrefixToMask(34 - k) < 0x4000_0000
  {
  }

  lemma QuadrupleAndSetLow(b: bv32)
    requires b < 0x4000_0000
    ensures ((b << 2) | 1) as int == 4 * (b as int) + 1
  {
  }

  /**
   * With k >= 2 host bits, the host part of the mask less two (the reserved
   * network and broadcast addresses) has the value 2^k - 3.
   */
  lemma HostMaskLessTwoValue(k: Prefix)
    requires 2 <= k
    ensures (!PrefixToMask(32 - k) - 2) as int == Pow2(k as nat) - 3
  {
    HostMaskValue(k - 2);
    HostMaskLessTwoStep(k);
    QuadrupleAndSetLow(!PrefixToMask(34 - k));
  }

  /** The same for a /p block with p <= 30: the value is 2^(32-p) - 3. */
  lemma HostMaskLessTwoOfPrefix(p: Prefix)
    requires p <= 30
    ensures (!PrefixToMask(p) - 2) as int == Pow2((32 - p) as nat) - 3
  {
    HostMaskLessTwoValue(32 - p);
  }

  /** The value of the host part of the mask of a block, as stored in the block. */
  lemma BlockHostMask(ip: bv32, p: Prefix)
    ensures var c := Block(ip, p);
            (!c.mask) as int == Pow2((32 - p) as nat) - 1
  {
    BlockFields(ip, p);
    HostMaskOfPrefix(p);
  }

  /**
   * The number of addresses in a block with prefix p, counted from its
   * network address to its broadcast address, is 2^(32-p).
   */
  lemma BlockSize(ip: bv32, p: Prefix)
    ensures var c := Block(ip, p);
            (c.broadcast - c.network) as int + 1 == Pow2((32 - p) as nat)
  {
    BroadcastMinusNetwork(ip, p);
    BlockHostMask(ip, p);
  }
}
