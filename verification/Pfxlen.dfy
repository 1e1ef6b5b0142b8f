/**
 IPv4 prefix arithmetic (section 3.1 of RFC 4632), as the kernel's prefix tables use it.

 An address is a number in [0, 2^32).  Masking with the table entry of a prefix length clears the
 low 32 - cidr bits; `Mask` states that arithmetically and `MaskBits` ties it back to bits.
 */
module Pfxlen {
  const HOST_MASK: nat := 32
  const U32: nat := 0x1_0000_0000
  const HALF: nat := 0x8000_0000

  function Pow2(n: nat): (p: nat)
    ensures p > 0
  {
    if n == 0 then 1 else 2 * Pow2(n - 1)
  }

  ghost predicate IsAddr(ip: int) {
    0 <= ip < U32
  }

  /** Number of addresses of a prefix of length `cidr`. */
  function Hosts(cidr: nat): (h: nat)
    requires cidr <= HOST_MASK
    ensures h > 0
  {
    Pow2(HOST_MASK - cidr)
  }

  /** ip & ip_set_hostmask(cidr). */
  function Mask(ip: int, cidr: nat): (base: int)
    requires cidr <= HOST_MASK
  {
    ip - ip % Hosts(cidr)
  }

  /** ip | ~ip_set_hostmask(cidr). */
  function Last(ip: int, cidr: nat): (last: int)
    requires cidr <= HOST_MASK
  {
    Mask(ip, cidr) + Hosts(cidr) - 1
  }

  ghost predicate Aligned(ip: int, cidr: nat)
    requires cidr <= HOST_MASK
  {
    ip % Hosts(cidr) == 0
  }

  ghost predicate Covers(base: int, cidr: nat, ip: int)
    requires cidr <= HOST_MASK
  {
    base <= ip < base + Hosts(cidr)
  }

  /** Bit k of a non-negative number. */
  ghost function Bit(x: int, k: nat): int {
    (x / Pow2(k)) % 2
  }

  lemma {:induction false} Pow2Add(a: nat, b: nat)
    ensures Pow2(a + b) == Pow2(a) * Pow2(b)
  {
    if a != 0 {
      Pow2Add(a - 1, b);
      assert Pow2(a + b) == 2 * Pow2(a - 1 + b);
      MulAssoc(2, Pow2(a - 1), Pow2(b));
    }
  }

  lemma {:induction false} Pow2Mono(a: nat, b: nat)
    requires a <= b
    ensures Pow2(a) <= Pow2(b)
    decreases b - a
  {
    if a < b {
      Pow2Mono(a, b - 1);
    }
  }

  lemma Pow2Values()
    ensures Pow2(10) == 1024 && Pow2(16) == 65536 && Pow2(31) == HALF && Pow2(32) == U32
  {
    assert Pow2(4) == 16;
    assert Pow2(8) == 256;
    assert Pow2(10) == 1024;
    assert Pow2(12) == 4096;
    assert Pow2(16) == 65536;
    Pow2Add(16, 15);
    assert Pow2(15) * 2 == Pow2(16);
    Pow2Add(16, 16);
  }

  /** (a*b) as divisor: dividing in two steps. */
  lemma DivDiv(x: int, a: int, b: int)
    requires a > 0 && b > 0
    ensures a * b > 0 && (x / a) / b == x / (a * b)
  {
    var q := x / a;
    var s := q / b;
    DivideTwice(x, a, b, q, s, x % a, q % b);
    DivUnique(x, a * b, s, (q % b) * a + x % a);
  }

  lemma DivideTwice(x: int, a: int, b: int, q: int, s: int, u: int, v: int)
    requires x == q * a + u && q == s * b + v && 0 <= u < a && 0 <= v < b
    ensures a * b > 0 && x == s * (a * b) + (v * a + u) && 0 <= v * a + u < a * b
  {
    MulAssoc(s, b, a);
    assert q * a == s * b * a + v * a;
    MulMono(v, b - 1, a);
    MulMono(0, v, a);
  }

  lemma MulMono(a: int, b: int, c: int)
    requires a <= b && c >= 0
    ensures a * c <= b * c
  {
  }

  lemma MulAssoc(a: int, b: int, c: int)
    ensures (a * b) * c == a * (b * c)
  {
  }

  lemma DivUnique(x: int, d: int, q: int, r: int)
    requires d > 0 && x == q * d + r && 0 <= r < d
    ensures x / d == q && x % d == r
  {
    QuotientUnique(d, q, r, x / d, x % d);
  }

  lemma QuotientUnique(d: int, q: int, r: int, q': int, r': int)
    requires d > 0 && q * d + r == q' * d + r' && 0 <= r < d && 0 <= r' < d
    ensures q == q' && r == r'
  {
    var k := q - q';
    assert k * d == r' - r by {
      assert (q - q') * d == q * d - q' * d;
    }
    assert k >= 1 ==> k * d >= d;
    assert k <= -1 ==> k * d <= -d;
  }

  lemma MaskIsFloor(ip: int, cidr: nat)
    requires cidr <= HOST_MASK
    ensures Mask(ip, cidr) == (ip / Hosts(cidr)) * Hosts(cidr)
    ensures Mask(ip, cidr) % Hosts(cidr) == 0
  {
    var h := Hosts(cidr);
    DivUnique((ip / h) * h, h, ip / h, 0);
  }

  /** Masking first with a longer and then with a shorter prefix equals masking once. */
  lemma MaskMask(ip: int, longer: nat, shorter: nat)
    requires shorter <= longer <= HOST_MASK
    ensures Mask(Mask(ip, longer), shorter) == Mask(ip, shorter)
  {
    var a, b := Hosts(longer), Pow2(longer - shorter);
    Pow2Add(HOST_MASK - longer, longer - shorter);
    assert Hosts(shorter) == a * b;
    MaskIsFloor(ip, longer);
    MaskIsFloor(ip, shorter);
    var m := Mask(ip, longer);
    MaskIsFloor(m, shorter);
    DivUnique(m, a, ip / a, 0);
    DivDiv(ip, a, b);
    DivDiv(m, a, b);
  }

  /** A prefix base covers exactly the addresses whose mask it is. */
  lemma MaskCovers(base: int, cidr: nat, ip: int)
    requires cidr <= HOST_MASK && Aligned(base, cidr)
    ensures Mask(ip, cidr) == base <==> Covers(base, cidr, ip)
  {
    var h := Hosts(cidr);
    MaskIsFloor(ip, cidr);
    if Covers(base, cidr, ip) {
      assert ip == (base / h) * h + (ip - base);
      DivUnique(ip, h, base / h, ip - base);
    }
  }

  lemma MaskAddr(ip: int, cidr: nat)
    requires cidr <= HOST_MASK && IsAddr(ip)
    ensures 0 <= Mask(ip, cidr) <= ip <= Last(ip, cidr) < U32
    ensures Aligned(Mask(ip, cidr), cidr)
  {
    var h, p := Hosts(cidr), Pow2(cidr);
    assert U32 == p * h by {
      Pow2Add(cidr, HOST_MASK - cidr);
      Pow2Values();
    }
    MaskIsFloor(ip, cidr);
    FloorBound(ip, h, p);
  }

  lemma FloorBound(x: int, h: int, p: int)
    requires h > 0 && 0 <= x < p * h
    ensures 0 <= (x / h) * h <= x < (x / h) * h + h <= p * h
  {
    var q := x / h;
    assert x == q * h + x % h;
    assert q >= p ==> q * h >= p * h by {
      if q >= p {
        MulMono(p, q, h);
      }
    }
    MulMono(0, q, h);
    MulMono(q + 1, p, h);
  }

  /** `Mask` is the bitwise AND with cidr ones followed by 32 - cidr zeros. */
  lemma MaskBits(ip: int, cidr: nat, k: nat)
    requires cidr <= HOST_MASK && IsAddr(ip) && k < HOST_MASK
    ensures Bit(Mask(ip, cidr), k) == if k >= HOST_MASK - cidr then Bit(ip, k) else 0
  {
    var s := HOST_MASK - cidr;
    MaskIsFloor(ip, cidr);
    if k >= s {
      Pow2Add(s, k - s);
      FloorDiv(ip, Hosts(cidr), Pow2(k - s));
    } else {
      Pow2Add(s - k, k);
      EvenQuotient(ip / Hosts(cidr), Pow2(s - k - 1), Pow2(k));
    }
  }

  lemma FloorDiv(x: int, h: int, e: int)
    requires h > 0 && e > 0
    ensures h * e > 0 && ((x / h) * h) / (h * e) == x / (h * e)
  {
    DivUnique((x / h) * h, h, x / h, 0);
    DivDiv(x, h, e);
    DivDiv((x / h) * h, h, e);
  }

  lemma EvenQuotient(f: int, c: int, d: int)
    requires d > 0
    ensures ((f * ((2 * c) * d)) / d) % 2 == 0
  {
    MulAssoc(f, 2 * c, d);
    DivUnique(f * ((2 * c) * d), d, f * (2 * c), 0);
    assert f * (2 * c) == 2 * (f * c);
  }

  lemma AlignedMono(ip: int, shorter: nat, longer: nat)
    requires shorter <= longer <= HOST_MASK && Aligned(ip, shorter)
    ensures Aligned(ip, longer)
  {
    Pow2Add(HOST_MASK - longer, longer - shorter);
    FactorDivides(ip, Hosts(longer), Pow2(longer - shorter));
  }

  lemma FactorDivides(x: int, a: int, b: int)
    requires a > 0 && b > 0 && a * b > 0 && x % (a * b) == 0
    ensures x % a == 0
  {
    var q := x / (a * b);
    assert x == (q * b) * a by {
      MulAssoc(q, b, a);
    }
    DivUnique(x, a, q * b, 0);
  }

  /** The wrap-around comparison after(a, b) of 32-bit sequence numbers: (s32)(b - a) < 0. */
  predicate After(a: int, b: int) {
    (b - a) % U32 >= HALF
  }

  /** The block [from, last] of length i is aligned at `from` and ends at or before `to`. */
  ghost predicate Fits(from: int, to: int, i: nat)
    requires i <= HOST_MASK
  {
    Aligned(from, i) && from + Hosts(i) - 1 <= to
  }

  ghost predicate LargestFit(from: int, to: int, i: nat) {
    1 <= i <= HOST_MASK && Fits(from, to, i) && forall j :: 1 <= j < i ==> !Fits(from, to, j)
  }

  /** What one iteration of ip_set_range_to_cidr accepts. */
  predicate Accepts(from: int, to: int, i: nat)
    requires i <= HOST_MASK
  {
    Mask(from, i) == from && !After(Last(from, i), to)
  }

  lemma AcceptsIff(from: int, to: int, i: nat)
    requires 1 <= i <= HOST_MASK && IsAddr(from) && IsAddr(to) && from <= to
    ensures Accepts(from, to, i) <==> Fits(from, to, i) && to - (from + Hosts(i) - 1) < HALF
  {
    Pow2Mono(HOST_MASK - i, 31);
    Pow2Values();
    MaskAddr(from, i);
    MaskIsFloor(from, i);
  }

  /** First accepted prefix length, as a function: the specification of the search loop. */
  function BlockCidr(from: int, to: int, i: nat): (c: nat)
    requires 1 <= i <= HOST_MASK
    ensures i <= c <= HOST_MASK
    ensures c < HOST_MASK ==> Accepts(from, to, c)
    ensures forall j :: i <= j < c ==> !Accepts(from, to, j)
    decreases HOST_MASK - i
  {
    if i == HOST_MASK || Accepts(from, to, i) then i else BlockCidr(from, to, i + 1)
  }

  /** ip_set_range_to_cidr: the last address and the prefix length of the block taken at `from`. */
  method RangeToCidr(from: int, to: int) returns (last: int, cidr: nat)
    requires IsAddr(from) && IsAddr(to) && from <= to
    ensures cidr == BlockCidr(from, to, 1) && last == from + Hosts(cidr) - 1
    ensures from <= last <= to && Fits(from, to, cidr)
  {
    for i := 1 to 32
      invariant BlockCidr(from, to, 1) == BlockCidr(from, to, i)
    {
      if Mask(from, i) != from {
        continue;
      }
      last := Last(from, i);
      if !After(last, to) {
        AcceptsIff(from, to, i);
        return last, i;
      }
    }
    AcceptsIff(from, to, 32);
    assert Hosts(32) == 1;
    return from, 32;
  }

  /** The block taken always fits: aligned, inside the range, prefix length 1..32. */
  lemma BlockFits(from: int, to: int)
    requires IsAddr(from) && IsAddr(to) && from <= to
    ensures Fits(from, to, BlockCidr(from, to, 1))
  {
    var c := BlockCidr(from, to, 1);
    if c < 32 {
      AcceptsIff(from, to, c);
    } else {
      assert Hosts(32) == 1;
    }
  }

  /**
   The comment on ip_set_range_to_cidr promises the largest network matching the range from the
   left.  Because the end is compared as a sequence number, that holds exactly when the largest
   fitting block ends less than 2^31 before `to`, or is a single address anyway.
   */
  lemma RangeToCidrLargestIff(from: int, to: int, best: nat)
    requires IsAddr(from) && IsAddr(to) && from <= to && LargestFit(from, to, best)
    ensures BlockCidr(from, to, 1) == best
            <==> best == HOST_MASK || to - (from + Hosts(best) - 1) < HALF
  {
    var c := BlockCidr(from, to, 1);
    AcceptsIff(from, to, best);
    BlockFits(from, to);
  }

  /** 32.0.0.0/3 is the largest block of 32.0.0.0-255.255.255.255, but the code takes a single address. */
  lemma RangeToCidrNotLargest()
    ensures LargestFit(0x2000_0000, 0xFFFF_FFFF, 3)
    ensures BlockCidr(0x2000_0000, 0xFFFF_FFFF, 1) == HOST_MASK
  {
    var from, to := 0x2000_0000, 0xFFFF_FFFF;
    Pow2Values();
    assert Hosts(1) == 0x8000_0000 && Hosts(2) == 0x4000_0000 && Hosts(3) == 0x2000_0000 by {
      assert Pow2(32) == 2 * Pow2(31) && Pow2(31) == 2 * Pow2(30) && Pow2(30) == 2 * Pow2(29);
    }
    assert LargestFit(from, to, 3);
    var c := BlockCidr(from, to, 1);
    if c < 32 {
      AcceptsIff(from, to, c);
      BlockFits(from, to);
      assert c >= 3;
      Pow2Mono(32 - c, 29);
    }
  }
}
