/**
 * Conversions between a 32-bit address and its four octets, and the
 * rendering of an address as dotted-quad text.
 */
module AddressCodec {
  import opened Wrappers

  /**
   * Octet k of an address, k = 0 being the most significant: shift the
   * address right and keep the low eight bits.
   */
  function Octet(ip: bv32, k: nat): bv8
    requires k < 4
  {
    if k == 0 then ((ip >> 24) & 0xFF) as bv8
    else if k == 1 then ((ip >> 16) & 0xFF) as bv8
    else if k == 2 then ((ip >> 8) & 0xFF) as bv8
    else (ip & 0xFF) as bv8
  }

  /** The four octets of an address, most significant first. */
  function Octets(ip: bv32): (os: seq<bv8>)
    ensures |os| == 4
  {
    [Octet(ip, 0), Octet(ip, 1), Octet(ip, 2), Octet(ip, 3)]
  }

  /**
   * Packs the first four bytes of an address, most significant first, into a
   * 32-bit word (each byte taken as an unsigned value). Unpacking the result
   * gives back those four bytes in order.
   */
  function BytesToAddress(bytes: seq<bv8>): (ip: bv32)
    requires |bytes| >= 4
    ensures Octets(ip) == bytes[..4]
  {
    assert bytes[..4] == [bytes[0], bytes[1], bytes[2], bytes[3]];
    ((bytes[0] as bv32) << 24) | ((bytes[1] as bv32) << 16) | ((bytes[2] as bv32) << 8) | (bytes[3] as bv32)
  }

  /** Packing the octets of an address gives back the address. */
  lemma PackOctets(ip: bv32)
    ensures BytesToAddress(Octets(ip)) == ip
  {
  }

  predicate IsDigit(c: char)
  {
    '0' <= c <= '9'
  }

  predicate AllDigits(s: string)
  {
    forall i | 0 <= i < |s| :: IsDigit(s[i])
  }

  function DigitChar(d: nat): (c: char)
    requires d < 10
    ensures IsDigit(c) && c as int - '0' as int == d
  {
    ('0' as int + d) as char
  }

  /** The value of a string of decimal digits (the empty string reads as 0). */
  function DecimalValue(s: string): nat
    requires AllDigits(s)
  {
    if s == [] then 0 else 10 * DecimalValue(s[..|s| - 1]) + (s[|s| - 1] as int - '0' as int)
  }

  /**
   * The decimal text of a natural number as string concatenation renders an
   * int: digits only, no leading zero, and it reads back as the number.
   */
  function DecimalString(n: nat): (s: string)
    ensures 1 <= |s| && AllDigits(s)
    ensures |s| > 1 ==> s[0] != '0'
    ensures DecimalValue(s) == n
    ensures n < 10 ==> |s| == 1
    ensures n < 100 ==> |s| <= 2
    ensures n < 1000 ==> |s| <= 3
    decreases n
  {
    if n < 10 then [DigitChar(n)] else
      var s := DecimalString(n / 10) + [DigitChar(n % 10)];
      assert s[..|s| - 1] == DecimalString(n / 10);
      s
  }

  /**
   * The dotted-quad text of an address: its four octets in decimal, most
   * significant first, separated by dots.
   */
  function IntToIp(ip: bv32): string
  {
    DecimalString(Octet(ip, 0) as nat) + "." + DecimalString(Octet(ip, 1) as nat) + "."
      + DecimalString(Octet(ip, 2) as nat) + "." + DecimalString(Octet(ip, 3) as nat)
  }

  /** Index of the first dot in s, or |s| if there is none. */
  function FirstDot(s: string): (i: nat)
    ensures i <= |s|
    ensures forall j | 0 <= j < i :: s[j] != '.'
    ensures i < |s| ==> s[i] == '.'
  {
    if s == [] then 0 else if s[0] == '.' then 0 else 1 + FirstDot(s[1..])
  }

  /** The dot-separated fields of s. */
  function Fields(s: string): (fs: seq<string>)
    ensures |fs| >= 1
    decreases |s|
  {
    var i := FirstDot(s);
    if i == |s| then [s] else [s[..i]] + Fields(s[i + 1..])
  }

  /** A field that is one to three decimal digits with value at most 255. */
  function ParseOctet(f: string): (r: Option<bv8>)
    ensures r.Some? <==> 1 <= |f| <= 3 && AllDigits(f) && DecimalValue(f) <= 255
  {
    if 1 <= |f| <= 3 && AllDigits(f) && DecimalValue(f) <= 255 then Some(DecimalValue(f) as bv8) else None
  }

  /**
   * Reads dotted-quad text back into an address: exactly four fields, each an
   * octet. This is the reading side of the codec, the counterpart of IntToIp.
   */
  function ParseDottedQuad(text: string): (r: Option<bv32>)
  {
    var fs := Fields(text);
    if |fs| != 4 then None else
      match (ParseOctet(fs[0]), ParseOctet(fs[1]), ParseOctet(fs[2]), ParseOctet(fs[3]))
      case (Some(a), Some(b), Some(c), Some(d)) => Some(BytesToAddress([a, b, c, d]))
      case _ => None
  }

  lemma {:induction false} FirstDotAfterField(f: string, rest: string)
    requires AllDigits(f)
    ensures FirstDot(f + "." + rest) == |f|
  {
    if f != [] {
      assert (f + "." + rest)[1..] == f[1..] + "." + rest;
      FirstDotAfterField(f[1..], rest);
    }
  }

  lemma FieldsCons(f: string, rest: string)
    requires AllDigits(f)
    ensures Fields(f + "." + rest) == [f] + Fields(rest)
  {
    var s := f + "." + rest;
    FirstDotAfterField(f, rest);
    assert s[..|f|] == f;
    assert s[|f| + 1..] == rest;
  }

  lemma FieldsDigits(f: string)
    requires AllDigits(f)
    ensures Fields(f) == [f]
  {
    assert FirstDot(f) == |f|;
  }

  lemma ParseOctetDecimal(o: bv8)
    ensures ParseOctet(DecimalString(o as nat)) == Some(o)
  {
  }

  lemma DotJoinRegroup(d0: string, d1: string, d2: string, d3: string)
    ensures d0 + "." + d1 + "." + d2 + "." + d3 == d0 + "." + (d1 + "." + (d2 + "." + d3))
  {
  }

  /** Fields joined with dots between them. */
  function Join(fs: seq<string>): string
    requires |fs| >= 1
  {
    if |fs| == 1 then fs[0] else fs[0] + "." + Join(fs[1..])
  }

  /** Digit fields joined with dots split back into those fields. */
  lemma {:induction false} FieldsOfJoin(fs: seq<string>)
    requires |fs| >= 1
    requires forall k | 0 <= k < |fs| :: AllDigits(fs[k])
    ensures Fields(Join(fs)) == fs
  {
    if |fs| == 1 {
      FieldsDigits(fs[0]);
    } else {
      FieldsOfJoin(fs[1..]);
      FieldsCons(fs[0], Join(fs[1..]));
      assert [fs[0]] + fs[1..] == fs;
    }
  }

  lemma JoinQuad(d0: string, d1: string, d2: string, d3: string)
    ensures Join([d0, d1, d2, d3]) == d0 + "." + (d1 + "." + (d2 + "." + d3))
  {
    assert [d2, d3][1..] == [d3];
    assert Join([d2, d3]) == d2 + "." + d3;
    assert [d1, d2, d3][1..] == [d2, d3];
    assert Join([d1, d2, d3]) == d1 + "." + (d2 + "." + d3);
    assert [d0, d1, d2, d3][1..] == [d1, d2, d3];
  }

  /** Four digit strings joined by dots split back into those four strings. */
  lemma FieldsOfDottedQuad(d0: string, d1: string, d2: string, d3: string)
    requires AllDigits(d0) && AllDigits(d1) && AllDigits(d2) && AllDigits(d3)
    ensures Fields(d0 + "." + (d1 + "." + (d2 + "." + d3))) == [d0, d1, d2, d3]
  {
    FieldsOfJoin([d0, d1, d2, d3]);
    JoinQuad(d0, d1, d2, d3);
  }

  lemma ParseDecimalQuad(t: string, a: bv8, b: bv8, c: bv8, d: bv8)
    requires Fields(t) == [DecimalString(a as nat), DecimalString(b as nat), DecimalString(c as nat), DecimalString(d as nat)]
    ensures ParseDottedQuad(t) == Some(BytesToAddress([a, b, c, d]))
  {
    ParseOctetDecimal(a);
    ParseOctetDecimal(b);
    ParseOctetDecimal(c);
    ParseOctetDecimal(d);
  }

  /** Reading back the dotted-quad text of an address gives the address. */
  lemma ParseIntToIp(ip: bv32)
    ensures ParseDottedQuad(IntToIp(ip)) == Some(ip)
  {
    var os := Octets(ip);
    var d0, d1 := DecimalString(os[0] as nat), DecimalString(os[1] as nat);
    var d2, d3 := DecimalString(os[2] as nat), DecimalString(os[3] as nat);
    DotJoinRegroup(d0, d1, d2, d3);
    FieldsOfDottedQuad(d0, d1, d2, d3);
    ParseDecimalQuad(IntToIp(ip), os[0], os[1], os[2], os[3]);
    assert [os[0], os[1], os[2], os[3]] == os;
    PackOctets(ip);
  }

  /** Distinct addresses have distinct dotted-quad texts. */
  lemma IntToIpInjective(a: bv32, b: bv32)
    requires IntToIp(a) == IntToIp(b)
    ensures a == b
  {
    ParseIntToIp(a);
    ParseIntToIp(b);
  }
}
