/**
 * Legacy address class and private/public designation, both decided by the
 * leading octets of an address.
 */
module Classifier {
  import opened MaskMath
  import opened AddressCodec

  datatype AddressClass = A | B | C | D | E

  datatype AddressType = Private | Public

  /**
   * The classful scheme by leading bits of the first octet: 0 for A, 10 for
   * B, 110 for C, 1110 for D, 1111 for E.
   */
  function ClassByLeadingBits(first: bv8): AddressClass
  {
    if first & 0x80 == 0 then A
    else if first & 0xC0 == 0x80 then B
    else if first & 0xE0 == 0xC0 then C
    else if first & 0xF0 == 0xE0 then D
    else E
  }

  /**
   * The class of an address, by range of its first octet. It agrees with the
   * leading-bit scheme for every first octet except 127, which it places in
   * class B where the leading bits (0111 1111) say A.
   */
  function IpClass(ip: bv32): (c: AddressClass)
    ensures Octet(ip, 0) != 127 ==> c == ClassByLeadingBits(Octet(ip, 0))
    ensures Octet(ip, 0) == 127 ==> c == B && ClassByLeadingBits(Octet(ip, 0)) == A
  {
    var first := Octet(ip, 0) as int;
    if first <= 126 then A
    else if first <= 191 then B
    else if first <= 223 then C
    else if first <= 239 then D
    else E
  }

  /** Position of a class in the order A < B < C < D < E. */
  function Rank(c: AddressClass): nat
  {
    match c
    case A => 0
    case B => 1
    case C => 2
    case D => 3
    case E => 4
  }

  /** The class never goes down as the first octet goes up. */
  lemma IpClassMonotone(x: bv32, y: bv32)
    requires Octet(x, 0) <= Octet(y, 0)
    ensures Rank(IpClass(x)) <= Rank(IpClass(y))
  {
  }

  /**
   * Membership of the three private blocks of RFC 1918, section 3:
   * 10.0.0.0/8, 172.16.0.0/12 and 192.168.0.0/16.
   */
  predicate InPrivateBlock(ip: bv32)
  {
    || ip & PrefixToMask(8) == 0x0A00_0000
    || ip & PrefixToMask(12) == 0xAC10_0000
    || ip & PrefixToMask(16) == 0xC0A8_0000
  }

  /**
   * Private when the first octet is 10, or 172 with a second octet in 16..31,
   * or 192 with a second octet of 168; public otherwise. That is exactly
   * membership of one of the three private blocks.
   */
  function IpType(ip: bv32): (t: AddressType)
    ensures t == Private <==> InPrivateBlock(ip)
  {
    var first := Octet(ip, 0) as int;
    var second := Octet(ip, 1) as int;
    if first == 10 then Private
    else if first == 172 && (second >= 16 && second <= 31) then Private
    else if first == 192 && second == 168 then Private
    else Public
  }

  /** The class boundaries: 126 | 127, 191 | 192, 223 | 224 and 239 | 240 as first octets. */
  lemma ClassBoundaryExamples()
    ensures IpClass(0x7E00_0000) == A && IpClass(0x7F00_0000) == B
    ensures IpClass(0xBFFF_FFFF) == B && IpClass(0xC000_0000) == C
    ensures IpClass(0xDFFF_FFFF) == C && IpClass(0xE000_0000) == D
    ensures IpClass(0xEFFF_FFFF) == D && IpClass(0xF000_0000) == E
  {
  }

  /**
   * 10.1.2.3, 172.16.0.0, 172.31.255.255 and 192.168.0.0 are private;
   * 172.15.0.0, 172.32.0.0 and 8.8.8.8 are public.
   */
  lemma TypeExamples()
    ensures IpType(0x0A01_0203) == Private && IpType(0xAC10_0000) == Private
    ensures IpType(0xAC1F_FFFF) == Private && IpType(0xC0A8_0000) == Private
    ensures IpType(0xAC0F_0000) == Public && IpType(0xAC20_0000) == Public
    ensures IpType(0x0808_0808) == Public
  {
  }
}
