/** CIDR prefixes: the mask of a prefix length, masking, and recovering the length from a mask. */
module Prefix {
  import opened NetTypes

  function Pow2(n: nat): (p: nat)
    ensures p >= 1
  {
    if n == 0 then 1 else 2 * Pow2(n - 1)
  }

  /** `ipv4_prefix_mask`; the shift drops the bits that leave the 32-bit word. */
  function PrefixMask(len: nat): u32 {
    if len == 0 then 0
    else if len >= 32 then 0xFFFF_FFFF
    else (0xFFFF_FFFF * Pow2(32 - len)) % TWO32
  }

  /** Bitwise conjunction of the `n` low bits of `x` and `y`. */
  function BitAnd(x: nat, y: nat, n: nat): nat {
    if n == 0 then 0
    else 2 * BitAnd(x / 2, y / 2, n - 1) + (if x % 2 == 1 && y % 2 == 1 then 1 else 0)
  }

  lemma {:induction false} BitAndBound(x: nat, y: nat, n: nat)
    ensures BitAnd(x, y, n) < Pow2(n)
  {
    if n > 0 { BitAndBound(x / 2, y / 2, n - 1); }
  }

  /** `ip & ipv4_prefix_mask(len)`. */
  function Masked(ip: u32, len: nat): u32 {
    BitAndBound(ip, PrefixMask(len), 32);
    Pow2Is32();
    BitAnd(ip, PrefixMask(len), 32)
  }

  /** `(dst & ipv4_prefix_mask(len)) == prefix`. */
  predicate Matches(dst: u32, prefix: u32, len: nat) {
    Masked(dst, len) == prefix
  }

  lemma Pow2Is32()
    ensures Pow2(32) == TWO32
  {
    assert Pow2(8) == 0x100;
    assert Pow2(16) == 0x1_0000 by { Pow2Sum(8, 8); }
    Pow2Sum(16, 16);
  }

  lemma {:induction false} Pow2Sum(a: nat, b: nat)
    ensures Pow2(a + b) == Pow2(a) * Pow2(b)
  {
    if a > 0 { Pow2Sum(a - 1, b); }
  }

  lemma Pow2Mono(a: nat, b: nat)
    requires a <= b
    ensures Pow2(a) <= Pow2(b)
    decreases b
  {
    if a < b { Pow2Mono(a, b - 1); }
  }

  /** The mask of a length is the word whose `len` top bits are set. */
  lemma MaskValue(len: nat)
    requires len <= 32
    ensures PrefixMask(len) == TWO32 - Pow2(32 - len)
  {
    Pow2Is32();
    if 0 < len < 32 {
      var p := Pow2(32 - len);
      Pow2Mono(32 - len, 32);
      assert 0xFFFF_FFFF * p == (p - 1) * TWO32 + (TWO32 - p);
      ModUnique(0xFFFF_FFFF * p, p - 1, TWO32 - p, TWO32);
    }
  }

  lemma MulGrows(a: int, m: int)
    requires m > 0
    ensures a >= 1 ==> a * m >= m
    ensures a <= -1 ==> a * m <= -m
  {
  }

  lemma ModUnique(x: int, q: int, r: int, m: int)
    requires m > 0 && 0 <= r < m && x == q * m + r
    ensures x % m == r && x / m == q
  {
    assert (q - x / m) * m == x % m - r;
    MulGrows(q - x / m, m);
  }

  /** Clearing the remainder keeps the quotient, and only the quotient. */
  lemma FloorIsQuotient(x: nat, y: nat, m: nat)
    requires m > 0
    ensures (x - x % m) % m == 0
    ensures x - x % m == y - y % m <==> x / m == y / m
  {
    ModUnique(x - x % m, x / m, 0, m);
    assert (x - x % m) - (y - y % m) == (x / m - y / m) * m;
    MulGrows(x / m - y / m, m);
  }

  /** Halving a number and its modulus. */
  lemma HalfMod(x: nat, m: nat)
    requires m > 0
    ensures x % (2 * m) == 2 * ((x / 2) % m) + x % 2
    ensures x / (2 * m) == (x / 2) / m
  {
    var h := x / 2;
    assert x == 2 * (h / m * m + h % m) + x % 2;
    assert x == (h / m) * (2 * m) + (2 * (h % m) + x % 2) by { assert 2 * (h / m * m) == (h / m) * (2 * m); }
    ModUnique(x, h / m, 2 * (h % m) + x % 2, 2 * m);
  }

  lemma {:induction false} BitAndAll(x: nat, n: nat)
    requires x < Pow2(n)
    ensures BitAnd(x, Pow2(n) - 1, n) == x
  {
    if n > 0 {
      BitAndAll(x / 2, n - 1);
      assert (Pow2(n) - 1) / 2 == Pow2(n - 1) - 1;
    }
  }

  lemma BitAndEven(x: nat, half: nat, n: nat)
    requires n > 0
    ensures BitAnd(x, 2 * half, n) == 2 * BitAnd(x / 2, half, n - 1)
  {
    assert (2 * half) / 2 == half && (2 * half) % 2 == 0;
  }

  /** The `k` low bits of a number, bit by bit. */
  ghost function LowBits(x: nat, k: nat): nat {
    if k == 0 then 0 else 2 * LowBits(x / 2, k - 1) + x % 2
  }

  lemma {:induction false} LowBitsMod(x: nat, k: nat)
    ensures LowBits(x, k) == x % Pow2(k)
  {
    if k > 0 {
      LowBitsMod(x / 2, k - 1);
      HalfMod(x, Pow2(k - 1));
    }
  }

  /** Masking with `n - k` ones above `k` zeros clears exactly the `k` low bits. */
  lemma {:induction false} BitAndClears(x: nat, n: nat, k: nat)
    requires k <= n && x < Pow2(n)
    ensures Pow2(k) <= Pow2(n)
    ensures BitAnd(x, Pow2(n) - Pow2(k), n) == x - LowBits(x, k)
  {
    Pow2Mono(k, n);
    if k == 0 {
      BitAndAll(x, n);
    } else {
      BitAndClears(x / 2, n - 1, k - 1);
      BitAndClearsMore(x, n, k, Pow2(n - 1) - Pow2(k - 1));
    }
  }

  lemma BitAndClearsMore(x: nat, n: nat, k: nat, half: nat)
    requires n > 0 && k > 0 && BitAnd(x / 2, half, n - 1) == x / 2 - LowBits(x / 2, k - 1)
    ensures BitAnd(x, 2 * half, n) == x - LowBits(x, k)
  {
    BitAndEven(x, half, n);
  }

  lemma MaskClears(x: nat, mask: nat, n: nat, k: nat)
    requires k <= n && x < Pow2(n) && mask == Pow2(n) - Pow2(k)
    ensures BitAnd(x, mask, n) == x - x % Pow2(k)
  {
    BitAndClears(x, n, k);
    LowBitsMod(x, k);
  }

  /** Masking keeps the network part of an address and clears the host part. */
  lemma MaskedClearsHostPart(ip: u32, len: nat)
    requires len <= 32
    ensures Masked(ip, len) == ip - ip % Pow2(32 - len)
  {
    Pow2Is32();
    MaskValue(len);
    MaskClears(ip, PrefixMask(len), 32, 32 - len);
  }

  /** Masking twice is masking once, and a /32 mask keeps the whole address. */
  lemma MaskedIdempotent(ip: u32, len: nat)
    requires len <= 32
    ensures Masked(Masked(ip, len), len) == Masked(ip, len)
    ensures Masked(ip, 32) == ip
  {
    MaskedClearsHostPart(ip, len);
    MaskedClearsHostPart(ip, 32);
    FloorIsQuotient(ip, ip, Pow2(32 - len));
    MaskedClearsHostPart(Masked(ip, len), len);
  }

  /** A destination matches a stored prefix exactly when their `len` top bits agree. */
  lemma MatchesIsTopBits(dst: u32, ip: u32, len: nat)
    requires len <= 32
    ensures Matches(dst, Masked(ip, len), len) <==> dst / Pow2(32 - len) == ip / Pow2(32 - len)
  {
    MaskedClearsHostPart(dst, len);
    MaskedClearsHostPart(ip, len);
    FloorIsQuotient(dst, ip, Pow2(32 - len));
  }

  /** The `n` top bits of a 32-bit mask that starts with `ones` ones: `ones` ones, then zeros. */
  ghost function TopBits(n: nat, ones: nat): (t: int)
    requires ones <= n
  {
    Pow2(n) - Pow2(n - ones)
  }

  lemma ExactShift(x: int, a: int, c: int, p: int)
    requires p > 0 && x == a * p - c * p
    ensures x / p == a - c
  {
    ModUnique(x, a - c, 0, p);
  }

  lemma RoundedShift(x: int, a: int, q: int, p: int)
    requires 0 < q <= p && x == a * p - q
    ensures x / p == a - 1
  {
    ModUnique(x, a - 1, p - q, p);
  }

  lemma TopOfOnes(len: nat, b: nat, mask: int)
    requires len <= 32 && b <= 32 && mask == TWO32 - Pow2(32 - len)
    ensures mask / Pow2(b) == TopBits(32 - b, if len <= 32 - b then len else 32 - b)
  {
    var p, a := Pow2(b), Pow2(32 - b);
    assert TWO32 == a * p by {
      Pow2Is32();
      Pow2Sum(32 - b, b);
    }
    if len <= 32 - b {
      var c := Pow2(32 - b - len);
      assert Pow2(32 - len) == c * p by { Pow2Sum(32 - b - len, b); }
      ExactShift(mask, a, c, p);
    } else {
      Pow2Mono(32 - len, b);
      RoundedShift(mask, a, Pow2(32 - len), p);
    }
  }

  /** Dropping the `b` low bits of a prefix mask leaves ones followed by zeros. */
  lemma MaskTop(len: nat, b: nat)
    requires len <= 32 && b <= 32
    ensures PrefixMask(len) / Pow2(b) == TopBits(32 - b, if len <= 32 - b then len else 32 - b)
  {
    MaskValue(len);
    TopOfOnes(len, b, PrefixMask(len));
  }

  lemma Pow2Quarter(n: nat)
    requires n >= 2
    ensures Pow2(n) == 4 * Pow2(n - 2)
  {
    assert Pow2(n) == 2 * Pow2(n - 1);
  }

  /** Ones followed by at least two zeros end in 00, and no run of ones and zeros ends in 01. */
  lemma TopBitsQuarters(n: nat, ones: nat) returns (q: int)
    requires 2 <= n && ones <= n
    ensures TopBits(n, ones) == 4 * q + if n - ones >= 2 then 0 else if n - ones == 1 then 2 else 3
  {
    Pow2Quarter(n);
    if n - ones >= 2 {
      Pow2Quarter(n - ones);
      q := Pow2(n - 2) - Pow2(n - ones - 2);
    } else {
      assert Pow2(0) == 1 && Pow2(1) == 2;
      q := Pow2(n - 2) - 1;
    }
  }

  lemma TopBitsNotOneAfterZero(n: nat, ones: nat, len: nat)
    requires ones < n && len <= n + 1
    ensures TopBits(n + 1, len) != 2 * TopBits(n, ones) + 1
  {
    TopBitsStep(n, ones);
    var q := TopBitsQuarters(n + 1, len);
    var r := TopBitsQuarters(n + 1, ones);
  }

  /** A one that follows a zero never occurs in a prefix mask. */
  lemma NoOneAfterZero(mask: u32, b: nat, ones: nat, len: nat)
    requires b < 31 && ones < 31 - b && len <= 32
    requires mask / Pow2(b) == 2 * TopBits(31 - b, ones) + 1
    ensures mask != PrefixMask(len)
  {
    MaskTop(len, b);
    TopBitsNotOneAfterZero(31 - b, ones, if len <= 32 - b then len else 32 - b);
  }

  lemma TopBitsStep(n: nat, ones: nat)
    requires ones <= n
    ensures TopBits(n + 1, ones) == 2 * TopBits(n, ones)
    ensures ones == n ==> TopBits(n + 1, n + 1) == 2 * TopBits(n, n) + 1
  {
    assert Pow2(n + 1 - ones) == 2 * Pow2(n - ones);
  }

  lemma HalfStep(mask: nat, p: nat)
    requires p > 0
    ensures mask / p == 2 * (mask / (2 * p)) + (mask / p) % 2
  {
    var q, r := mask / p, mask % p;
    assert q * p == (q / 2) * (2 * p) + (q % 2) * p by {
      assert q == (q / 2) * 2 + q % 2;
      assert q * p == ((q / 2) * 2 + q % 2) * p;
    }
    assert 0 <= (q % 2) * p <= p;
    ModUnique(mask, q / 2, (q % 2) * p + r, 2 * p);
  }

  /** The top bits down to `bit`, given that those above it are `ones` ones followed by zeros. */
  ghost predicate Scanned(mask: u32, b: nat, ones: nat) {
    b <= 32 && ones <= 32 - b && mask / Pow2(b) == TopBits(32 - b, ones)
  }

  lemma ScanStep(mask: u32, bit: nat, ones: nat)
    requires bit < 32 && Scanned(mask, bit + 1, ones)
    ensures mask / Pow2(bit) == 2 * TopBits(31 - bit, ones) + (mask / Pow2(bit)) % 2
    ensures (mask / Pow2(bit)) % 2 == 0 ==> Scanned(mask, bit, ones)
    ensures (mask / Pow2(bit)) % 2 == 1 && ones == 31 - bit ==> Scanned(mask, bit, ones + 1)
  {
    var p := Pow2(bit);
    assert Pow2(bit + 1) == 2 * p;
    HalfStep(mask, p);
    TopBitsStep(31 - bit, ones);
  }

  lemma ScanRejects(mask: u32, bit: nat, ones: nat)
    requires bit < 31 && ones < 31 - bit && mask / Pow2(bit) == 2 * TopBits(31 - bit, ones) + 1
    ensures forall len :: 0 <= len <= 32 ==> mask != PrefixMask(len)
  {
    forall len: nat | len <= 32 ensures mask != PrefixMask(len) {
      NoOneAfterZero(mask, bit, ones, len);
    }
  }

  lemma ScanEnds(mask: u32)
    ensures Scanned(mask, 32, 0)
    ensures forall ones, len: nat :: Scanned(mask, 0, ones) && len <= 32 ==> (mask == PrefixMask(len) <==> len == ones)
  {
    Pow2Is32();
    forall ones, len: nat | Scanned(mask, 0, ones) && len <= 32 ensures mask == PrefixMask(len) <==> len == ones {
      MaskValue(ones);
      if mask == PrefixMask(len) { MaskInjective(len, ones); }
    }
  }

  /** `ip_mask_to_prefix_len`: succeeds with `len` exactly on the mask of `len`, and on no other word. */
  method MaskToPrefixLen(mask: u32) returns (r: Option<nat>)
    ensures forall len :: r == Some(len) <==> len <= 32 && mask == PrefixMask(len)
  {
    var prefixLen, seenZero := 0, false;
    ScanEnds(mask);
    var bit := 31;
    while bit >= 0
      invariant -1 <= bit <= 31 && Scanned(mask, bit + 1, prefixLen)
      invariant seenZero <==> prefixLen < 31 - bit
    {
      ScanStep(mask, bit, prefixLen);
      if (mask / Pow2(bit)) % 2 == 1 {
        if seenZero {
          ScanRejects(mask, bit, prefixLen);
          return None;
        }
        prefixLen := prefixLen + 1;
      } else {
        seenZero := true;
      }
      bit := bit - 1;
    }
    return Some(prefixLen);
  }

  /** Different lengths have different masks. */
  lemma MaskInjective(a: nat, b: nat)
    requires a <= 32 && b <= 32 && PrefixMask(a) == PrefixMask(b)
    ensures a == b
  {
    MaskValue(a);
    MaskValue(b);
    if a < b { Pow2Strict(32 - b, 32 - a); }
    if b < a { Pow2Strict(32 - a, 32 - b); }
  }

  lemma Pow2Strict(a: nat, b: nat)
    requires a < b
    ensures Pow2(a) < Pow2(b)
  {
    Pow2Mono(a, b - 1);
  }

  /** The length whose mask is `mask`, among `0..len`. */
  function LenUpTo(mask: u32, len: nat): Option<nat> {
    if mask == PrefixMask(len) then Some(len) else if len == 0 then None else LenUpTo(mask, len - 1)
  }

  /** `ip_mask_to_prefix_len` as a function. */
  function MaskLen(mask: u32): Option<nat> {
    LenUpTo(mask, 32)
  }

  lemma {:induction false} LenUpToIff(mask: u32, n: nat, len: nat)
    requires n <= 32
    ensures LenUpTo(mask, n) == Some(len) <==> len <= n && mask == PrefixMask(len)
  {
    if mask == PrefixMask(n) && len <= n && mask == PrefixMask(len) { MaskInjective(len, n); }
    if n > 0 { LenUpToIff(mask, n - 1, len); }
  }

  /** A mask determines its length and a length its mask. */
  lemma MaskLenIff(mask: u32, len: nat)
    ensures MaskLen(mask) == Some(len) <==> len <= 32 && mask == PrefixMask(len)
  {
    LenUpToIff(mask, 32, len);
  }
}
