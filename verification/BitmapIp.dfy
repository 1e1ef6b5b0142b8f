/** bitmap:ip: the ranges its create command accepts and the arithmetic between addresses and bit numbers. */
module BitmapIp {
  import opened Options
  import opened Pfxlen

  const MAX_RANGE: nat := 0xFFFF

  /** struct bitmap_ip without the bits: `hosts` addresses share one bit. */
  datatype Map = Map(first: int, last: int, elements: int, hosts: int, netmask: nat)

  datatype Created = Created(m: Map) | Protocol | InvalidCidr | InvalidNetmask | RangeError | RangeSize

  /** The longest prefix length up to b, at least 1, under which `to` masks to `from`; 0 if there is none. */
  function RangeBits(from: int, to: int, b: nat): (r: nat)
    requires b < HOST_MASK
    ensures r <= b && (r > 0 ==> Mask(to, r) == from)
    ensures forall k :: r < k <= b ==> Mask(to, k) != from
  {
    if b == 0 || Mask(to, b) == from then b else RangeBits(from, to, b - 1)
  }

  /** mask <<= 1 in 32 bits drops the mask of the next shorter prefix into place. */
  lemma ShiftMask(bits: nat)
    requires 0 < bits < HOST_MASK
    ensures ((U32 - Hosts(bits)) * 2) % U32 == if bits == 1 then 0 else U32 - Hosts(bits - 1)
    ensures 0 < Hosts(bits) < U32
  {
    assert Hosts(bits - 1) == 2 * Hosts(bits);
    Pow2Values();
    Pow2Mono(HOST_MASK - bits, 31);
    if bits > 1 {
      Pow2Mono(HOST_MASK - bits + 1, 31);
    }
  }

  /** range_to_mask(); to & mask is Mask(to, bits), the masks being those of prefix lengths. */
  method RangeToMask(from: int, to: int) returns (mask: int, bits: nat)
    requires IsAddr(from) && IsAddr(to)
    ensures bits == RangeBits(from, to, 31)
    ensures mask == if bits == 0 then 0 else U32 - Hosts(bits)
  {
    mask, bits := 0xFFFF_FFFE, 32;
    assert Pow2(0) == 1 && Pow2(1) == 2;
    assert Hosts(31) == Pow2(1);
    while true
      invariant 0 < bits <= HOST_MASK && mask == if bits == 1 then 0 else U32 - Hosts(bits - 1)
      invariant RangeBits(from, to, 31) == RangeBits(from, to, bits - 1)
      decreases bits
    {
      bits := bits - 1;
      if bits > 0 {
        ShiftMask(bits);
      }
      if !(bits > 0 && mask != 0 && Mask(to, bits) != from) {
        return;
      }
      mask := (mask * 2) % U32;
    }
  }

  /** The range the attributes describe, before any netmask. */
  function Range(ip: int, ipTo: Option<int>, cidr: Option<nat>): Option<(int, int)>
    requires cidr.Some? ==> cidr.value < HOST_MASK
  {
    match ipTo
    case Some(to) => Some(if ip > to then (to, ip) else (ip, to))
    case None =>
      match cidr
      case Some(c) => Some((Mask(ip, c), Last(ip, c)))
      case None => None
  }

  /** bitmap_ip_create(), up to the allocation. */
  function Create(ip: int, ipTo: Option<int>, cidr: Option<nat>, mask: Option<nat>): Created {
    if ipTo.None? && cidr.Some? && cidr.value >= HOST_MASK then InvalidCidr
    else if ipTo.None? && cidr.None? then Protocol
    else if mask.Some? && mask.value > HOST_MASK then InvalidNetmask
    else
      var (a, b) := Range(ip, ipTo, if ipTo.None? then cidr else None).value;
      var netmask := if mask.Some? then mask.value else HOST_MASK;
      var first, last := Mask(a, netmask), Last(b, netmask);
      if netmask == HOST_MASK then Sized(Map(first, last, last - first + 1, 1, HOST_MASK))
      else
        var bits := RangeBits(first, last, 31);
        if (bits == 0 && (first != 0 || last != U32 - 1)) || netmask <= bits then RangeError
        else Sized(Map(first, last, Pow2(netmask - bits), Hosts(netmask), netmask))
  }

  function Sized(m: Map): Created {
    if m.elements > MAX_RANGE + 1 then RangeSize else Created(m)
  }

  /** ip_to_id(), in 32 bits. */
  function IpToId(m: Map, ip: int): int
    requires m.netmask <= HOST_MASK && m.hosts > 0
  {
    ((Mask(ip, m.netmask) - m.first) % U32) / m.hosts
  }

  /** What is true of every map that create accepts. */
  ghost predicate MapOk(m: Map) {
    && 1 <= m.netmask <= HOST_MASK && m.hosts == Hosts(m.netmask)
    && 0 <= m.first <= m.last < U32 && Aligned(m.first, m.netmask)
    && 1 <= m.elements <= MAX_RANGE + 1
    && m.last < m.first + m.elements * m.hosts <= U32
  }

  lemma RangeOk(ip: int, ipTo: Option<int>, cidr: Option<nat>)
    requires IsAddr(ip) && (ipTo.Some? ==> IsAddr(ipTo.value)) && (cidr.Some? ==> cidr.value < HOST_MASK)
    requires ipTo.Some? || cidr.Some?
    ensures var (a, b) := Range(ip, ipTo, cidr).value; IsAddr(a) && IsAddr(b) && a <= b
  {
    if ipTo.None? {
      MaskAddr(ip, cidr.value);
    }
  }

  /** The blocks of length netmask that fill the prefix of length bits at first. */
  lemma SubnetsFill(last: int, netmask: nat, bits: nat)
    requires bits < netmask <= HOST_MASK && IsAddr(last)
    ensures var first := Mask(last, bits);
            && Pow2(netmask - bits) * Hosts(netmask) == Hosts(bits) && Aligned(first, netmask)
            && 0 <= first <= last < first + Hosts(bits) <= U32
  {
    Pow2Add(netmask - bits, HOST_MASK - netmask);
    MaskAddr(last, bits);
    AlignedMono(Mask(last, bits), bits, netmask);
  }

  lemma HostMask(ip: int)
    ensures Hosts(HOST_MASK) == 1 && Mask(ip, HOST_MASK) == ip && Last(ip, HOST_MASK) == ip
  {
    assert Hosts(HOST_MASK) == Pow2(0);
    assert ip % 1 == 0;
  }

  lemma CreateOk(ip: int, ipTo: Option<int>, cidr: Option<nat>, mask: Option<nat>)
    requires IsAddr(ip) && (ipTo.Some? ==> IsAddr(ipTo.value)) && Create(ip, ipTo, cidr, mask).Created?
    ensures MapOk(Create(ip, ipTo, cidr, mask).m)
  {
    hide Hosts, Mask, Last, Pow2, RangeBits;
    var m := Create(ip, ipTo, cidr, mask).m;
    var c := if ipTo.None? then cidr else None;
    RangeOk(ip, ipTo, c);
    var (a, b) := Range(ip, ipTo, c).value;
    MaskAddr(a, m.netmask);
    MaskAddr(b, m.netmask);
    if m.netmask == HOST_MASK {
      HostMask(a);
      HostMask(b);
    } else {
      WholeRange(m.last);
      SubnetsFill(m.last, m.netmask, RangeBits(m.first, m.last, 31));
    }
  }

  // ---------- What is created for a request ----------

  /** The addresses a request names: both ends in either order, or all that share the prefix. */
  ghost predicate Asked(ip: int, ipTo: Option<int>, cidr: Option<nat>, x: int) {
    if ipTo.Some? then ip <= x <= ipTo.value || ipTo.value <= x <= ip
    else cidr.Some? && cidr.value < 32 && IsAddr(x) && Mask(x, cidr.value) == Mask(ip, cidr.value)
  }

  lemma RangeAsked(ip: int, ipTo: Option<int>, cidr: Option<nat>, x: int)
    requires IsAddr(ip) && (ipTo.Some? ==> IsAddr(ipTo.value)) && (cidr.Some? ==> cidr.value < HOST_MASK)
    requires ipTo.Some? || cidr.Some?
    ensures var (a, b) := Range(ip, ipTo, cidr).value; a <= x <= b <==> Asked(ip, ipTo, cidr, x)
  {
    hide Mask, Hosts, Aligned;
    if ipTo.None? {
      MaskAddr(ip, cidr.value);
      if IsAddr(x) {
        MaskCovers(Mask(ip, cidr.value), cidr.value, x);
      }
    }
  }

  /** The two ends decoded are the ends of what is asked for. */
  lemma RangeEnds(ip: int, ipTo: Option<int>, cidr: Option<nat>, lo: int, hi: int)
    requires IsAddr(ip) && (ipTo.Some? ==> IsAddr(ipTo.value)) && (cidr.Some? ==> cidr.value < HOST_MASK)
    requires lo <= hi && forall x :: lo <= x <= hi <==> Asked(ip, ipTo, cidr, x)
    ensures Range(ip, ipTo, cidr) == Some((lo, hi))
  {
    hide Asked;
    Present(ip, ipTo, cidr, lo);
    RangeOk(ip, ipTo, cidr);
    var (a, b) := Range(ip, ipTo, cidr).value;
    RangeAsked(ip, ipTo, cidr, a);
    RangeAsked(ip, ipTo, cidr, b);
    RangeAsked(ip, ipTo, cidr, lo);
    RangeAsked(ip, ipTo, cidr, hi);
  }

  lemma Present(ip: int, ipTo: Option<int>, cidr: Option<nat>, x: int)
    requires Asked(ip, ipTo, cidr, x)
    ensures ipTo.Some? || (cidr.Some? && cidr.value < 32)
  {
  }

  /** With a second end the prefix length is not looked at. */
  lemma SecondEnd(ip: int, ipTo: Option<int>, cidr: Option<nat>, c: Option<nat>, x: int)
    requires c == if ipTo.None? then cidr else None
    ensures Asked(ip, ipTo, c, x) <==> Asked(ip, ipTo, cidr, x)
  {
  }

  /** What is asked for decides: a set of the subnets of the addresses lo..hi, or which error. */
  lemma CreateIff(ip: int, ipTo: Option<int>, cidr: Option<nat>, mask: Option<nat>, lo: int, hi: int)
    requires IsAddr(ip) && (ipTo.Some? ==> IsAddr(ipTo.value))
    requires lo <= hi && forall x :: lo <= x <= hi <==> Asked(ip, ipTo, cidr, x)
    ensures var d, n := Create(ip, ipTo, cidr, mask), if mask.Some? then mask.value else 32;
            && (d == InvalidNetmask <==> n > 32)
            && (n == 32 ==> d == if hi - lo + 1 > 0x1_0000 then RangeSize else Created(Map(lo, hi, hi - lo + 1, 1, 32)))
            && (n < 32 ==>
                  var first, last := Mask(lo, n), Last(hi, n);
                  && d in {RangeError, RangeSize, Created(Map(first, last, if d.Created? then d.m.elements else 0, Hosts(n), n))}
                  && (d == RangeError <==>
                        || (exists b :: n <= b < 32 && Mask(last, b) == first)
                        || ((forall b :: 0 < b < 32 ==> Mask(last, b) != first) && (first, last) != (0, U32 - 1)))
                  && (d == RangeSize ==> 2 * (last - first) >= 0x1_0000 * Hosts(n))
                  && (d.Created? ==> 2 * (last - first) >= d.m.elements * Hosts(n)))
  {
    hide Mask, Last, Hosts, Pow2, Asked, RangeBits;
    Present(ip, ipTo, cidr, lo);
    var c, n := if ipTo.None? then cidr else None, if mask.Some? then mask.value else 32;
    forall x
      ensures lo <= x <= hi <==> Asked(ip, ipTo, c, x)
    {
      SecondEnd(ip, ipTo, cidr, c, x);
    }
    RangeEnds(ip, ipTo, c, lo, hi);
    RangeOk(ip, ipTo, c);
    HostMask(lo);
    HostMask(hi);
    if n < 32 {
      MaskAddr(lo, n);
      MaskAddr(hi, n);
      var first, last := Mask(lo, n), Last(hi, n);
      BitsIff(first, last, n);
      var bits := RangeBits(first, last, 31);
      WholeRange(last);
      if bits < n && (bits > 0 || (first == 0 && last == U32 - 1)) {
        HalfFull(first, last, n, bits);
      }
    }
  }

  lemma BitsIff(first: int, last: int, n: nat)
    requires n < 32
    ensures var bits := RangeBits(first, last, 31);
            && (n <= bits <==> n == 0 || exists b :: n <= b < 32 && Mask(last, b) == first)
            && (bits == 0 <==> forall b :: 0 < b < 32 ==> Mask(last, b) != first)
            && (bits > 0 ==> Mask(last, bits) == first)
            && (bits < 31 ==> Mask(last, bits + 1) != first)
  {
    hide Mask;
  }

  /** The bits of a map are fewer than twice as many as its subnets need. */
  lemma HalfFull(first: int, last: int, n: nat, bits: nat)
    requires bits < n < 32 && IsAddr(last) && first == Mask(last, bits) && Mask(last, bits + 1) != first
    ensures 2 * (last - first) >= Pow2(n - bits) * Hosts(n)
    ensures Pow2(n - bits) > 0x1_0000 ==> 2 * (last - first) >= 0x1_0000 * Hosts(n)
  {
    SubnetsFill(last, n, bits);
    assert Hosts(bits) == 2 * Hosts(bits + 1);
    AboveHalf(last, Hosts(bits + 1));
    if Pow2(n - bits) > 0x1_0000 {
      MulMono(0x1_0000, Pow2(n - bits), Hosts(n));
    }
  }

  lemma AboveHalf(x: int, h: int)
    requires h > 0 && x - x % (2 * h) != x - x % h
    ensures x % (2 * h) >= h
  {
    if x % (2 * h) < h {
      assert x == (x / (2 * h)) * (2 * h) + x % (2 * h);
      DivUnique(x, h, 2 * (x / (2 * h)), x % (2 * h));
    }
  }

  lemma CreateRefused(ip: int, ipTo: Option<int>, cidr: Option<nat>, mask: Option<nat>)
    ensures Create(ip, ipTo, cidr, mask) == InvalidCidr <==> ipTo.None? && cidr.Some? && cidr.value >= 32
    ensures Create(ip, ipTo, cidr, mask) == Protocol <==> ipTo.None? && cidr.None?
  {
  }

  lemma WholeRange(last: int)
    requires IsAddr(last)
    ensures Mask(last, 0) == 0
  {
    Pow2Values();
  }

  lemma MulDistributes(i: int, f: int, h: int)
    ensures i * h - f * h == (i - f) * h
  {
  }

  /** Numbering the blocks of h numbers from `first` on. */
  lemma BlockNumber(first: int, ip: int, h: int, e: int)
    requires h > 0 && first % h == 0 && first <= ip < first + e * h
    ensures var base := (ip / h) * h;
            first <= base && 0 <= (base - first) / h < e && first + (base - first) / h * h == base
  {
    var f, i := first / h, ip / h;
    assert first == f * h && i * h <= ip < i * h + h;
    MulDistributes(i, f, h);
    DivUnique((i - f) * h, h, i - f, 0);
    if i < f {
      MulMono(i + 1, f, h);
    }
    if i - f >= e {
      MulMono(e, i - f, h);
    }
  }

  /** The first number of block id has that number. */
  lemma NumberOfBlock(first: int, id: int, h: int)
    requires h > 0 && first % h == 0
    ensures var ip := first + id * h; (ip / h) * h == ip && (ip - first) / h == id
  {
    var f := first / h;
    assert first + id * h == (f + id) * h by {
      MulDistributes(f + id, id, h);
    }
    DivUnique((f + id) * h, h, f + id, 0);
    DivUnique(id * h, h, id, 0);
  }

  /** Every address of the range has a bit below `elements`, from which its subnet is recovered without wrap-around. */
  lemma IdOfAddress(m: Map, ip: int)
    requires MapOk(m) && m.first <= ip <= m.last
    ensures 0 <= IpToId(m, ip) < m.elements <= MAX_RANGE + 1
    ensures m.first + IpToId(m, ip) * m.hosts == Mask(ip, m.netmask)
  {
    hide Hosts, Mask;
    MaskAddr(ip, m.netmask);
    MaskIsFloor(ip, m.netmask);
    BlockNumber(m.first, ip, m.hosts, m.elements);
  }

  /** Two addresses share a bit exactly when they are in the same subnet. */
  lemma SameIdIff(m: Map, ip: int, ip': int)
    requires MapOk(m) && m.first <= ip <= m.last && m.first <= ip' <= m.last
    ensures IpToId(m, ip) == IpToId(m, ip') <==> Mask(ip, m.netmask) == Mask(ip', m.netmask)
  {
    IdOfAddress(m, ip);
    IdOfAddress(m, ip');
  }

  /** The address that do_list reports for a bit has that bit. */
  lemma AddressOfId(m: Map, id: int)
    requires MapOk(m) && 0 <= id < m.elements
    ensures var ip := m.first + id * m.hosts; 0 <= ip < U32 && (ip <= m.last ==> IpToId(m, ip) == id)
  {
    hide Hosts, Mask;
    MulMono(0, id, m.hosts);
    MulMono(id + 1, m.elements, m.hosts);
    var ip := m.first + id * m.hosts;
    NumberOfBlock(m.first, id, m.hosts);
    MaskIsFloor(ip, m.netmask);
  }
}
