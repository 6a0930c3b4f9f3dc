/** The Internet checksum of IP headers and ICMP messages. */
module Checksums {
  import opened NetTypes

  /** The 16-bit words of a message added up; an odd last byte counts as the high half of a word. */
  function WordSum(b: seq<byte>): (s: nat)
    ensures s <= LargestSum(|b|)
  {
    if |b| == 0 then 0
    else if |b| == 1 then 0x100 * (b[0] as int)
    else Get16(b) + WordSum(b[2..])
  }

  /** The largest sum of a message of `n` bytes. */
  function LargestSum(n: nat): nat {
    0xFFFF * (n / 2) + 0xFF00 * (n % 2)
  }

  /** Carries folded back in until the sum fits 16 bits. */
  function Fold(s: nat): (r: nat)
    ensures r <= 0xFFFF
  {
    if s < 0x1_0000 then s else Fold(s % 0x1_0000 + s / 0x1_0000)
  }

  /** The checksum as the 32-bit accumulator computes it; 0xFFFF for an empty message. */
  function Checksum(b: seq<byte>): (c: u16) {
    if b == [] then 0xFFFF else 0xFFFF - Fold(WordSum(b) % TWO32)
  }

  lemma CastOut(t: nat, q: nat)
    ensures (t + 0xFFFF * q) % 0xFFFF == t % 0xFFFF
  {
  }

  /** Folding keeps the value modulo 65535, and only zero folds to zero. */
  lemma {:induction false} FoldCongruent(s: nat)
    ensures Fold(s) % 0xFFFF == s % 0xFFFF && (Fold(s) == 0 <==> s == 0) && Fold(s) <= s
  {
    if s >= 0x1_0000 {
      var t := s % 0x1_0000 + s / 0x1_0000;
      assert s == t + 0xFFFF * (s / 0x1_0000);
      CastOut(t, s / 0x1_0000);
      FoldCongruent(t);
    }
  }

  /** Only multiples of 65535 other than zero fold to 65535. */
  lemma FoldFull(s: nat)
    requires s > 0 && s % 0xFFFF == 0
    ensures Fold(s) == 0xFFFF
  {
    FoldCongruent(s);
  }

  /** `b` with the 16-bit value `x` at byte offset `at`. */
  function WithWord(b: seq<byte>, at: nat, x: u16): (r: seq<byte>)
    requires at + 2 <= |b|
    ensures |r| == |b|
  {
    b[at := x / 0x100][at + 1 := x % 0x100]
  }

  lemma {:induction false} WordSumWith(b: seq<byte>, at: nat, x: u16)
    requires at % 2 == 0 && at + 2 <= |b| && b[at] == 0 && b[at + 1] == 0
    ensures WordSum(WithWord(b, at, x)) == WordSum(b) + x
  {
    var w := WithWord(b, at, x);
    if at == 0 {
      assert w[2..] == b[2..];
      assert Get16(w) == x && Get16(b) == 0;
    } else {
      WordSumWith(b[2..], at - 2, x);
      assert w[2..] == WithWord(b[2..], at - 2, x);
    }
  }

  /** Adding the complement of the folded sum never wraps the accumulator. */
  lemma ComplementFits(s: nat)
    requires s < TWO32
    ensures s + (0xFFFF - Fold(s)) < TWO32 && (s + (0xFFFF - Fold(s))) % 0xFFFF == 0 && s + (0xFFFF - Fold(s)) > 0
  {
    var f := Fold(s);
    FoldCongruent(s);
    assert (s - f) % 0xFFFF == 0;
    var k := (s - f) / 0xFFFF;
    assert s - f == 0xFFFF * k && s + (0xFFFF - f) == 0xFFFF * (k + 1);
    assert k < 65537;
  }

  /** A message whose checksum field was zero checks to zero once its checksum is written there, at any length and
      parity. */
  lemma WrittenChecksumVerifies(b: seq<byte>, at: nat)
    requires at % 2 == 0 && at + 2 <= |b| && b[at] == 0 && b[at + 1] == 0
    ensures Checksum(WithWord(b, at, Checksum(b))) == 0
  {
    var s := WordSum(b) % TWO32;
    var c := Checksum(b);
    WordSumWith(b, at, c);
    ComplementFits(s);
    assert (WordSum(b) + c) % TWO32 == s + c by { AddBelow(WordSum(b), c); }
    FoldFull(s + c);
  }

  lemma AddBelow(x: nat, c: nat)
    requires x % TWO32 + c < TWO32
    ensures (x + c) % TWO32 == x % TWO32 + c
  {
  }

  lemma {:induction false} OnesSum(n: nat)
    ensures WordSum(seq(n, _ => 0xFF)) == LargestSum(n)
  {
    if n >= 2 {
      var ones: seq<byte>, fewer: seq<byte> := seq(n, _ => 0xFF), seq(n - 2, _ => 0xFF);
      assert ones[2..] == fewer;
      OnesSum(n - 2);
      assert Get16(ones) == 0xFFFF;
    }
  }

  lemma LargestFits(n: nat)
    ensures LargestSum(n) < TWO32 <==> n <= 131074
  {
    if n > 131074 { assert n / 2 >= 65537; }
  }

  /** The 32-bit accumulator cannot wrap on messages of `n` bytes exactly up to 131074 of them, which covers every IP
      header and every ICMP message. */
  lemma NoOverflowIff(n: nat)
    ensures (forall b: seq<byte> :: |b| == n ==> WordSum(b) < TWO32) <==> n <= 131074
  {
    LargestFits(n);
    OnesSum(n);
    var ones: seq<byte> := seq(n, _ => 0xFF);
    assert |ones| == n && WordSum(ones) == LargestSum(n);
  }

  /** What a zero checksum means: the words add up to a nonzero multiple of 65535. */
  lemma {:induction false} VerifiesIff(b: seq<byte>)
    requires 0 < |b| <= 131074
    ensures Checksum(b) == 0 <==> WordSum(b) > 0 && WordSum(b) % 0xFFFF == 0
  {
    LargestFits(|b|);
    assert WordSum(b) % TWO32 == WordSum(b);
    FoldsFullIff(WordSum(b));
  }

  lemma FoldsFullIff(s: nat)
    ensures Fold(s) == 0xFFFF <==> s > 0 && s % 0xFFFF == 0
  {
    FoldCongruent(s);
  }

  /** The loops of `icmp_checksum` (and, on the 20 header bytes, of `ip_checksum`). */
  method ChecksumLoop(b: seq<byte>) returns (c: u16)
    ensures c == Checksum(b)
  {
    if b == [] { return 0xFFFF; }
    var sum: nat := 0;
    var i := 0;
    while i < |b| / 2
      invariant 0 <= i <= |b| / 2 && sum < TWO32
      invariant (sum + WordSum(b[2 * i..])) % TWO32 == WordSum(b) % TWO32
    {
      NextWord(b, i, sum);
      sum := (sum + Get16(b[2 * i..])) % TWO32;
      i := i + 1;
    }
    LastByte(b, sum);
    if |b| % 2 == 1 { sum := (sum + 0x100 * (b[|b| - 1] as int)) % TWO32; }
    c := FoldLoop(sum);
    c := 0xFFFF - c;
  }

  lemma NextWord(b: seq<byte>, i: nat, sum: nat)
    requires 2 * i + 2 <= |b|
    ensures ((sum + Get16(b[2 * i..])) % TWO32 + WordSum(b[2 * (i + 1)..])) % TWO32 ==
            (sum + WordSum(b[2 * i..])) % TWO32
  {
    assert b[2 * i..][2..] == b[2 * (i + 1)..];
    AddMod(sum + Get16(b[2 * i..]), WordSum(b[2 * (i + 1)..]));
  }

  lemma LastByte(b: seq<byte>, sum: nat)
    requires sum < TWO32
    ensures (sum + WordSum(b[2 * (|b| / 2)..])) % TWO32 ==
            if |b| % 2 == 1 then (sum + 0x100 * (b[|b| - 1] as int)) % TWO32 else sum
  {
  }

  method FoldLoop(start: nat) returns (r: u16)
    ensures r == Fold(start)
  {
    var sum := start;
    while sum / 0x1_0000 > 0
      invariant 0 <= sum && Fold(sum) == Fold(start)
      decreases sum
    {
      sum := sum % 0x1_0000 + sum / 0x1_0000;
    }
    r := sum;
  }

  lemma AddMod(x: nat, y: nat)
    ensures (x % TWO32 + y) % TWO32 == (x + y) % TWO32
  {
  }
}
