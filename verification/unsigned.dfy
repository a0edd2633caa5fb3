/**
 * Addresses read as unsigned integers, the way the allocator compares them
 * (a Java `int` widened with `& 0xFFFFFFFFL`). The allocator's block
 * arithmetic is stated on these values; the lemmas at the end tie the
 * integer form back to the 32-bit expression `c | ~mask`.
 */
module Unsigned {
  import opened MaskMath

  lemma {:induction false} Pow2Add(a: nat, b: nat)
    ensures Pow2(a + b) == Pow2(a) * Pow2(b)
  {
    if a > 0 {
      Pow2Add(a - 1, b);
    }
  }

  lemma Pow2Of31()
    ensures Pow2(31) == 0x8000_0000
  {
    assert Pow2(3) == 8;
    Pow2Add(3, 3);
    Pow2Add(6, 6);
    Pow2Add(12, 12);
    Pow2Add(24, 6);
    Pow2Add(30, 1);
  }

  /** The number of 32-bit addresses. */
  lemma Pow2Of32()
    ensures Pow2(32) == 0x1_0000_0000
  {
    Pow2Of31();
  }

  lemma MulAtLeast(a: int, p: int)
    requires a >= 1 && p > 0
    ensures a * p >= p
  {
  }

  lemma MulDiff(q: int, q': int, p: int)
    ensures q * p - q' * p == (q - q') * p
  {
  }

  lemma MulMono(a: int, b: int, p: int)
    requires a <= b && p > 0
    ensures a * p <= b * p
  {
  }

  lemma MulSucc(q: int, p: int)
    ensures (q + 1) * p == q * p + p
  {
  }

  /** Quotient and remainder are unique: x = q * p + r with 0 <= r < p fixes both. */
  lemma DivModUnique(x: int, p: int, q: int, r: int)
    requires 0 < p && 0 <= r < p && x == q * p + r
    ensures x / p == q && x % p == r
  {
    var q' := x / p;
    var r' := x % p;
    assert x == q' * p + r';
    MulDiff(q, q', p);
    if q > q' {
      MulAtLeast(q - q', p);
    } else if q < q' {
      MulAtLeast(q' - q, p);
      MulDiff(q', q, p);
    }
  }

  /** A quotient by p of a value below p * n is below n. */
  lemma QuotientBelow(h: int, p: int, n: int)
    requires 0 < p && 0 <= h < p * n
    ensures h / p < n
  {
    assert h == (h / p) * p + h % p;
    if h / p >= n {
      MulMono(n, h / p, p);
    }
  }

  lemma MulAssoc(q: int, m: int, p: int)
    ensures q * (m * p) == (q * m) * p
  {
  }

  /** An address aligned to a 2^b block is aligned to every smaller power of two. */
  lemma AlignedSmaller(x: int, a: nat, b: nat)
    requires a <= b && x % Pow2(b) == 0
    ensures x % Pow2(a) == 0
  {
    var q := x / Pow2(b);
    assert x == q * Pow2(b);
    Pow2Add(b - a, a);
    MulAssoc(q, Pow2(b - a), Pow2(a));
    DivModUnique(x, Pow2(a), q * Pow2(b - a), 0);
  }

  /** The address one block of 2^b above an aligned address is aligned again. */
  lemma AlignedNext(x: int, b: nat)
    requires x % Pow2(b) == 0
    ensures (x + Pow2(b)) % Pow2(b) == 0
  {
    assert x == (x / Pow2(b)) * Pow2(b);
    MulSucc(x / Pow2(b), Pow2(b));
    DivModUnique(x + Pow2(b), Pow2(b), x / Pow2(b) + 1, 0);
  }

  /**
   * The address c with its low b bits set: the unsigned value of `c | ~mask`
   * for a mask whose low b bits are clear. The bits of c above the low b
   * stay as they are, the low b bits become ones.
   */
  function SetLowBits(c: int, b: nat): int
  {
    c - c % Pow2(b) + (Pow2(b) - 1)
  }

  /**
   * What setting the low bits means: the result has all of its low b bits
   * set, the same bits as c above them, and lies at or above c and less
   * than 2^b above it.
   */
  lemma SetLowBitsMeaning(c: int, b: nat)
    ensures SetLowBits(c, b) % Pow2(b) == Pow2(b) - 1
    ensures SetLowBits(c, b) / Pow2(b) == c / Pow2(b)
    ensures c <= SetLowBits(c, b) < c + Pow2(b)
  {
    DivModUnique(SetLowBits(c, b), Pow2(b), c / Pow2(b), Pow2(b) - 1);
  }

  /** On an address aligned to 2^b, setting the low b bits gives the last address of its 2^b block. */
  lemma SetLowBitsAligned(c: int, b: nat)
    requires c % Pow2(b) == 0
    ensures SetLowBits(c, b) == c + Pow2(b) - 1
  {
  }

  lemma BlockEndBelow(h: int, p: int, n: int)
    requires 0 < p && 0 <= h < p * n
    ensures h - h % p + (p - 1) < p * n
  {
    QuotientBelow(h, p, n);
    assert h == (h / p) * p + h % p;
    MulMono(h / p + 1, n, p);
    MulSucc(h / p, p);
  }

  /** Setting the low j bits of an address below 2^m, j <= m, stays below 2^m. */
  lemma SetLowBitsBelow(h: int, j: nat, m: nat)
    requires 0 <= h < Pow2(m) && j <= m
    ensures SetLowBits(h, j) < Pow2(m)
  {
    Pow2Add(j, m - j);
    BlockEndBelow(h, Pow2(j), Pow2(m - j));
  }

  /** Setting the host bits of an address keeps it an address, at or above where it started. */
  lemma SetLowBitsAddress(a: int, b: nat)
    requires 0 <= a < 0x1_0000_0000 && b <= 32
    ensures a <= SetLowBits(a, b) < 0x1_0000_0000
  {
    Pow2Of32();
    SetLowBitsMeaning(a, b);
    SetLowBitsBelow(a, b, 32);
  }

  /** Setting the low bits of one step further: the value of the bits above the lowest one, doubled, plus one. */
  lemma SetLowBitsStep(c: int, k: nat)
    requires k > 0
    ensures SetLowBits(c, k) == 2 * SetLowBits(c / 2, k - 1) + 1
  {
    var h := c / 2;
    var r := c % 2;
    var p' := Pow2(k - 1);
    var q := h / p';
    var s := h % p';
    assert c == 2 * h + r;
    assert h == q * p' + s;
    assert q * Pow2(k) == 2 * (q * p');
    DivModUnique(c, Pow2(k), q, 2 * s + r);
  }

  lemma Double(b: bv32)
    requires b < 0x8000_0000
    ensures (b << 1) as int == 2 * (b as int)
  {
  }

  lemma HalfSplit(c: bv32)
    ensures c & 1 == 0 ==> c == (c >> 1) << 1
    ensures c & 1 != 0 ==> c == ((c >> 1) << 1) | 1
  {
  }

  lemma HalfSmall(c: bv32)
    ensures c >> 1 < 0x8000_0000
  {
  }

  /** A shift right by one halves the unsigned value. */
  lemma ShiftRightValue(c: bv32)
    ensures (c >> 1) as int == (c as int) / 2
  {
    HalfSplit(c);
    HalfSmall(c);
    if c & 1 == 0 {
      Double(c >> 1);
      DivModUnique(c as int, 2, (c >> 1) as int, 0);
    } else {
      DoubleAndSetLow(c >> 1);
      DivModUnique(c as int, 2, (c >> 1) as int, 1);
    }
  }

  lemma BelowHalf(x: bv32)
    requires x as int < 0x8000_0000
    ensures x < 0x8000_0000
  {
  }

  lemma WordBound(c: bv32)
    ensures c as int < 0x1_0000_0000
  {
  }

  /** The half of an address, with its low bits set, is still below 2^31. */
  lemma SetLowHalfBelow(c: int, h: int, x: int, j: nat)
    requires 0 <= c < 0x1_0000_0000 && h == c / 2
    requires j <= 31 && x == SetLowBits(h, j)
    ensures x < 0x8000_0000
  {
    Pow2Of31();
    SetLowBitsBelow(h, j, 31);
  }

  /** Setting the low k bits is setting the low k - 1 bits of the half, doubled, plus one. */
  lemma SetLowBitsHalf(c: int, k: nat, h: int, x: int, r: int)
    requires k > 0 && h == c / 2
    requires x == SetLowBits(h, k - 1) && r == 2 * x + 1
    ensures r == SetLowBits(c, k)
  {
    SetLowBitsStep(c, k);
  }

  /**
   * One bit of the bridge: if y is the half of c with its low j bits set,
   * then y shifted up with a one shifted in is c with its low j + 1 bits set.
   */
  lemma SetBitStepValue(c: bv32, y: bv32, r: bv32, j: nat)
    requires j <= 31
    requires y as int == SetLowBits((c >> 1) as int, j)
    requires r == (y << 1) | 1
    ensures r as int == SetLowBits(c as int, j + 1)
  {
    ShiftRightValue(c);
    WordBound(c);
    SetLowHalfBelow(c as int, (c >> 1) as int, y as int, j);
    BelowHalf(y);
    DoubleAndSetLow(y);
    SetLowBitsHalf(c as int, j + 1, (c >> 1) as int, y as int, r as int);
  }

  lemma PrefixPred(k: Prefix)
    requires 0 < k
    ensures 0 < k as nat <= 32 && (k - 1) as nat == k as nat - 1
  {
  }

  /** The word c with its low n bits set, built one bit at a time. */
  function OrLow(c: bv32, n: nat): bv32
    requires n <= 32
  {
    if n == 0 then c else (OrLow(c >> 1, n - 1) << 1) | 1
  }

  /** `OrLow` at n > 0 unfolded once. */
  lemma OrLowUnfold(c: bv32, n: nat)
    requires 0 < n <= 32
    ensures OrLow(c, n) == (OrLow(c >> 1, n - 1) << 1) | 1
  {
  }

  /** One step of the bridge below: the value of `OrLow` at n from its value at n - 1 on the half. */
  lemma OrLowStep(c: bv32, n: nat)
    requires 0 < n <= 32
    requires OrLow(c >> 1, n - 1) as int == SetLowBits((c >> 1) as int, n - 1)
    ensures OrLow(c, n) as int == SetLowBits(c as int, n)
  {
    var y := OrLow(c >> 1, n - 1);
    OrLowUnfold(c, n);
    SetBitStepValue(c, y, (y << 1) | 1, n - 1);
  }

  /** Read as unsigned, the word built by `OrLow` is c with its low n bits set. */
  lemma {:induction false} OrLowValue(c: bv32, n: nat)
    requires n <= 32
    ensures OrLow(c, n) as int == SetLowBits(c as int, n)
  {
    if n > 0 {
      OrLowValue(c >> 1, n - 1);
      OrLowStep(c, n);
    }
  }

  /** One bit of the bitwise identity: c or-ed with k host bits is its half or-ed with k - 1, shifted up, with a one shifted in. */
  lemma OrStep(c: bv32, k: Prefix)
    requires 0 < k
    ensures c | !PrefixToMask(32 - k) == (((c >> 1) | !PrefixToMask(32 - (k - 1))) << 1) | 1
  {
  }

  /** The word built by `OrLow` is c or-ed with the complement of the mask with k host bits. */
  lemma {:induction false} OrLowIsOr(c: bv32, k: Prefix, n: nat)
    requires n == k as nat
    ensures OrLow(c, n) == c | !PrefixToMask(32 - k)
    decreases n
  {
    if k > 0 {
      PrefixPred(k);
      OrLowIsOr(c >> 1, k - 1, n - 1);
      OrStep(c, k);
    }
  }

  /**
   * The 32-bit expression `c | ~mask` for the mask of a /p block, read as an
   * unsigned value, is `SetLowBits` of the unsigned value of c with the
   * 32 - p host bits.
   */
  lemma OrHostMaskValue(c: bv32, p: Prefix)
    ensures (c | !PrefixToMask(p)) as int == SetLowBits(c as int, (32 - p) as nat)
  {
    OrLowIsOr(c, 32 - p, (32 - p) as nat);
    OrLowValue(c, (32 - p) as nat);
    assert 32 - (32 - p) == p;
  }

  lemma BroadcastIsOr(ip: bv32, p: Prefix)
    ensures Block(ip, p).broadcast == Block(ip, p).network | !PrefixToMask(p)
  {
  }

  /** The broadcast address of a block, read as unsigned, is its network address with the host bits set. */
  lemma BlockBroadcastValue(ip: bv32, p: Prefix)
    ensures Block(ip, p).broadcast as int == SetLowBits(Block(ip, p).network as int, (32 - p) as nat)
  {
    BroadcastIsOr(ip, p);
    OrHostMaskValue(Block(ip, p).network, p);
  }

  /** c with its low b bits cleared: the largest multiple of 2^b at or below c. */
  function ClearLowBits(c: int, b: nat): int
  {
    c - c % Pow2(b)
  }

  /** Clearing the low k bits is twice clearing the low k - 1 bits of the half. */
  lemma ClearLowBitsStep(c: int, k: nat, h: int, x: int, r: int)
    requires k > 0 && h == c / 2
    requires x == ClearLowBits(h, k - 1) && r == 2 * x
    ensures r == ClearLowBits(c, k)
  {
    SetLowBitsStep(c, k);
  }

  lemma ClearedHalfBelow(c: int, h: int, x: int, j: nat)
    requires 0 <= c < 0x1_0000_0000 && h == c / 2
    requires x == ClearLowBits(h, j)
    ensures x < 0x8000_0000
  {
  }

  /**
   * One bit of the bridge: if y is the half of c with its low j bits
   * cleared, then y shifted up is c with its low j + 1 bits cleared.
   */
  lemma ClearBitStepValue(c: bv32, y: bv32, r: bv32, j: nat)
    requires y as int == ClearLowBits((c >> 1) as int, j)
    requires r == y << 1
    ensures r as int == ClearLowBits(c as int, j + 1)
  {
    ShiftRightValue(c);
    WordBound(c);
    ClearedHalfBelow(c as int, (c >> 1) as int, y as int, j);
    BelowHalf(y);
    Double(y);
    ClearLowBitsStep(c as int, j + 1, (c >> 1) as int, y as int, r as int);
  }

  /** The word c with its low n bits cleared, built one bit at a time. */
  function ClearLow(c: bv32, n: nat): bv32
    requires n <= 32
  {
    if n == 0 then c else ClearLow(c >> 1, n - 1) << 1
  }

  /** `ClearLow` at n > 0 unfolded once. */
  lemma ClearLowUnfold(c: bv32, n: nat)
    requires 0 < n <= 32
    ensures ClearLow(c, n) == ClearLow(c >> 1, n - 1) << 1
  {
  }

  /** One step of the bridge below: the value of `ClearLow` at n from its value at n - 1 on the half. */
  lemma ClearLowStep(c: bv32, n: nat)
    requires 0 < n <= 32
    requires ClearLow(c >> 1, n - 1) as int == ClearLowBits((c >> 1) as int, n - 1)
    ensures ClearLow(c, n) as int == ClearLowBits(c as int, n)
  {
    var y := ClearLow(c >> 1, n - 1);
    ClearLowUnfold(c, n);
    ClearBitStepValue(c, y, y << 1, n - 1);
  }

  /** Read as unsigned, the word built by `ClearLow` is c with its low n bits cleared. */
  lemma {:induction false} ClearLowValue(c: bv32, n: nat)
    requires n <= 32
    ensures ClearLow(c, n) as int == ClearLowBits(c as int, n)
  {
    if n > 0 {
      ClearLowValue(c >> 1, n - 1);
      ClearLowStep(c, n);
    }
  }

  /** One bit of the bitwise identity: c masked to clear k host bits is its half masked to clear k - 1, shifted up. */
  lemma AndStep(c: bv32, k: Prefix)
    requires 0 < k
    ensures c & PrefixToMask(32 - k) == ((c >> 1) & PrefixToMask(32 - (k - 1))) << 1
  {
  }

  /** The word built by `ClearLow` is c masked with the mask with k host bits. */
  lemma {:induction false} ClearLowIsAnd(c: bv32, k: Prefix, n: nat)
    requires n == k as nat
    ensures ClearLow(c, n) == c & PrefixToMask(32 - k)
    decreases n
  {
    if k > 0 {
      PrefixPred(k);
      ClearLowIsAnd(c >> 1, k - 1, n - 1);
      AndStep(c, k);
    }
  }

  /** An address with its low bits cleared is a multiple of the block size. */
  lemma ClearedAligned(x: int, b: nat)
    ensures ClearLowBits(x, b) % Pow2(b) == 0
  {
    assert x == (x / Pow2(b)) * Pow2(b) + x % Pow2(b);
    DivModUnique(x - x % Pow2(b), Pow2(b), x / Pow2(b), 0);
  }

  /** Masking with the mask of a /p prefix, read as unsigned, clears the 32 - p host bits. */
  lemma AndMaskValue(c: bv32, p: Prefix)
    ensures (c & PrefixToMask(p)) as int == ClearLowBits(c as int, (32 - p) as nat)
  {
    ClearLowIsAnd(c, 32 - p, (32 - p) as nat);
    ClearLowValue(c, (32 - p) as nat);
    assert 32 - (32 - p) == p;
  }

  lemma NetworkIsAnd(ip: bv32, p: Prefix)
    ensures Block(ip, p).network == ip & PrefixToMask(p)
  {
  }

  /** The network address of a /p block, read as unsigned, is the address with its 32 - p host bits cleared. */
  lemma NetworkValue(ip: bv32, p: Prefix)
    ensures Block(ip, p).network as int == ClearLowBits(ip as int, (32 - p) as nat)
  {
    NetworkIsAnd(ip, p);
    AndMaskValue(ip, p);
  }

  /** The network address of a /p block, read as unsigned, is a multiple of the block size 2^(32-p). */
  lemma NetworkAligned(ip: bv32, p: Prefix)
    ensures Block(ip, p).network as int % Pow2((32 - p) as nat) == 0
  {
    NetworkValue(ip, p);
    ClearedAligned(ip as int, (32 - p) as nat);
  }
}
