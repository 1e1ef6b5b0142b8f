/**
 Range add and delete of hash:ip IPv4 sets: a loop over subnets of `hosts` addresses with a guard
 against wrapping past 255.255.255.255, resumed from h->next like the loops of the other types.

 The set behind the loop is reduced to what the loop sees of it: each element is processed, or it is
 refused with -EAGAIN and h->next saved, or it fails.
 */
module HashIpRange {
  import opened Options
  import opened Pfxlen
  import opened HashSpec
  import opened HashModel
  import opened RangeAdd

  // ---------- Decoding ----------

  datatype IpDecoded = IpRange(lo: int, hi: int) | ZeroElem | BadCidr

  /** The range part of hash_ip4_uadt; `ip` is the address after masking with the set's bitmask. */
  function DecodeIp(ip: int, ipTo: Option<int>, cidr: Option<nat>): IpDecoded {
    if ip == 0 then ZeroElem
    else if ipTo.Some? then
      if ip > ipTo.value then
        if ipTo.value == 0 then ZeroElem else IpRange(ipTo.value, ip)
      else IpRange(ip, ipTo.value)
    else if cidr.Some? then
      if !(1 <= cidr.value <= HOST_MASK) then BadCidr else IpRange(Mask(ip, cidr.value), Last(ip, cidr.value))
    else IpRange(ip, ip)
  }

  /** The addresses a request names: both ends in either order, or all that share the prefix, or the one given. */
  ghost predicate Asked(ip: int, ipTo: Option<int>, cidr: Option<nat>, x: int) {
    if ipTo.Some? then Between(x, ip, ipTo.value)
    else if cidr.Some? then CidrOk(cidr) && IsAddr(x) && Mask(x, cidr.value) == Mask(ip, cidr.value)
    else x == ip
  }

  /** The range decoded is the one asked for; 0.0.0.0 as an end and a bad prefix length are refused. */
  lemma DecodeIpIff(ip: int, ipTo: Option<int>, cidr: Option<nat>)
    requires IsAddr(ip) && (ipTo.Some? ==> IsAddr(ipTo.value))
    ensures var d := DecodeIp(ip, ipTo, cidr);
            && (d == ZeroElem <==> ip == 0 || ipTo == Some(0))
            && (d == BadCidr <==> ip != 0 && ipTo.None? && !CidrOk(cidr))
            && (d.IpRange? ==> forall x :: d.lo <= x <= d.hi <==> Asked(ip, ipTo, cidr, x))
  {
    hide Mask, Last, Hosts;
    if ip != 0 && ipTo.None? && cidr.Some? && CidrOk(cidr) {
      forall x
        ensures Mask(ip, cidr.value) <= x <= Last(ip, cidr.value) <==> Asked(ip, ipTo, cidr, x)
      {
        SharePrefix(ip, cidr.value, x);
      }
    }
  }

  /** Either the start is a subnet address or a whole subnet fits between the end and 2^32. */
  ghost predicate StepsSafe(lo: int, hi: int, hosts: int) {
    IsAddr(lo) && IsAddr(hi) && lo <= hi && hosts > 0 && U32 % hosts == 0 && (lo % hosts == 0 || hi <= U32 - hosts)
  }

  lemma HostsDivide(netmask: nat)
    requires netmask <= HOST_MASK
    ensures U32 % Hosts(netmask) == 0
  {
    Pow2Add(netmask, HOST_MASK - netmask);
    Pow2Values();
    DivUnique(U32, Hosts(netmask), Pow2(netmask), 0);
  }

  /** The largest multiple of a divisor of 2^32 below 2^32 is one subnet short of it. */
  lemma AlignedBelowEnd(x: int, hosts: int)
    requires IsAddr(x) && hosts > 0 && x % hosts == 0 && U32 % hosts == 0
    ensures x + hosts <= U32
  {
    var q, n := x / hosts, U32 / hosts;
    assert x == q * hosts && U32 == n * hosts;
    if q >= n {
      MulMono(n, q, hosts);
    }
    MulMono(q + 1, n, hosts);
  }

  lemma DecodeIpSafe(ip: int, ipTo: Option<int>, cidr: Option<nat>, netmask: nat)
    requires IsAddr(ip) && (ipTo.Some? ==> IsAddr(ipTo.value)) && 1 <= netmask <= HOST_MASK && Aligned(ip, netmask)
    ensures var d := DecodeIp(ip, ipTo, cidr); d.IpRange? ==> StepsSafe(d.lo, d.hi, Hosts(netmask))
  {
    HostsDivide(netmask);
    AlignedBelowEnd(ip, Hosts(netmask));
    if cidr.Some? && 1 <= cidr.value <= HOST_MASK {
      MaskAddr(ip, cidr.value);
      if cidr.value <= netmask {
        AlignedMono(Mask(ip, cidr.value), cidr.value, netmask);
      } else {
        AlignedMono(ip, netmask, cidr.value);
      }
    }
  }

  // ---------- The loop ----------

  /** The subnets lo, lo + hosts, ... up to hi, counted without wrapping. */
  ghost function Steps(lo: int, hi: int, hosts: int): seq<int>
    requires hosts > 0
    decreases hi - lo
  {
    if lo > hi then [] else [lo] + Steps(lo + hosts, hi, hosts)
  }

  /** In closed form: element n is lo + n * hosts, and they are all those up to hi. */
  lemma {:induction false} StepsAre(lo: int, hi: int, hosts: int, n: nat)
    requires hosts > 0
    ensures n < |Steps(lo, hi, hosts)| <==> lo + n * hosts <= hi
    ensures n < |Steps(lo, hi, hosts)| ==> Steps(lo, hi, hosts)[n] == lo + n * hosts
    decreases hi - lo
  {
    if lo <= hi && n > 0 {
      StepsAre(lo + hosts, hi, hosts, n - 1);
      assert n * hosts == (n - 1) * hosts + hosts;
    }
    MulMono(0, n, hosts);
  }

  class IpSet {
    var log: seq<int>
    /** The elements refused, each with the error. */
    var refused: seq<(int, Ret)>
    var next: int
    var bits: nat

    constructor (bits: nat)
      ensures log == [] && refused == [] && this.bits == bits
    {
      log, refused, next, this.bits := [], [], 0, bits;
    }

    /** adtfn: an element is processed (and logged), or refused. */
    method Adt(ip: int, exist: bool) returns (ret: Ret)
      modifies `log, `refused, `next
      ensures log == if Good(ret, exist) then old(log) + [ip] else old(log)
      ensures refused == if Good(ret, exist) then old(refused) else old(refused) + [(ip, ret)]
      ensures next == if ret.Again? then ip else old(next)
    {
      ret := *;
      if Good(ret, exist) {
        log := log + [ip];
        return;
      }
      refused := refused + [(ip, ret)];
      if ret.Again? {
        next := ip;
      }
    }

    /** mtype_resize, as far as the retry loop depends on it. */
    method Grow() returns (ret: Ret)
      modifies `bits
      ensures ret in {Ok, Full} && (ret.Ok? ==> old(bits) < bits <= MAX_BITS)
    {
      var more: nat := *;
      if bits < more <= MAX_BITS {
        bits := more;
        return Ok;
      }
      ret := Full;
    }

    /** The loop of hash_ip4_uadt. */
    method Uadt(lo: int, hi: int, hosts: int, exist: bool, retried: bool) returns (ret: LoopRet, ghost done: seq<int>)
      requires StepsSafe(if retried then next else lo, hi, hosts)
      modifies `log, `refused, `next
      ensures log == old(log) + done
      ensures !ret.Failed? ==> refused == old(refused)
      ensures ret.Failed? ==>
                var steps := Steps(if retried then old(next) else lo, hi, hosts);
                |done| < |steps| && refused == old(refused) + [(steps[|done|], ret.ret)] && !Good(ret.ret, exist)
      ensures var start := if retried then old(next) else lo;
              && done <= Steps(start, hi, hosts)
              && (ret.Complete? ==> done == Steps(start, hi, hosts))
              && (ret.RangeCut? || ret == Failed(Again) ==>
                    StepsSafe(next, hi, hosts) && done + Steps(next, hi, hosts) == Steps(start, hi, hosts))
      ensures ret.RangeCut? ==> |done| > IPSET_MAX_RANGE
    {
      hide Steps;
      var ip := if retried then next else lo;
      ghost var start := ip;
      var i := 0;
      done := [];
      while ip <= hi
        invariant StepsSafe(start, hi, hosts) && start <= ip && ip < U32 && i == |done|
        invariant ip <= hi ==> StepsSafe(ip, hi, hosts)
        invariant log == old(log) + done && refused == old(refused)
        invariant done + Steps(ip, hi, hosts) == Steps(start, hi, hosts)
        decreases U32 - ip
      {
        if i > IPSET_MAX_RANGE {
          next := ip;
          return RangeCut, done;
        }
        var r := Adt(ip, exist);
        StepOn(ip, hi, hosts);
        if !Good(r, exist) {
          assert (done + Steps(ip, hi, hosts))[|done|] == ip;
          return Failed(r), done;
        }
        done := done + [ip];
        assert done[..|done| - 1] + Steps(ip, hi, hosts) == done + Steps(ip + hosts, hi, hosts);
        ip := (ip + hosts) % U32;
        if ip == 0 {
          return Complete, done;
        }
        i := i + 1;
      }
      StepsEnd(ip, hi, hosts);
      ret := Complete;
    }

    /**
     CALL_AD over the loop: every subnet of the range is processed once, in order, up to one that is
     refused for another reason than -EAGAIN, or for which the table cannot grow.
     */
    method CallAd(lo: int, hi: int, hosts: int, exist: bool) returns (ret: LoopRet, ghost done: seq<int>)
      requires StepsSafe(lo, hi, hosts)
      modifies this
      ensures !ret.RangeCut? && log == old(log) + done
      ensures if ret.Complete? then done == Steps(lo, hi, hosts) else done <= Steps(lo, hi, hosts)
      ensures ret.Failed? ==> |done| < |Steps(lo, hi, hosts)| && refused != []
      ensures ret.Failed? ==>
                var (at, why) := refused[|refused| - 1];
                at == Steps(lo, hi, hosts)[|done|] && ret.ret != Again && !Good(why, exist)
                && (why == ret.ret || (why == Again && ret.ret == Full))
    {
      hide Steps;
      ghost var here := lo;
      var retried := false;
      done := [];
      while true
        invariant StepsSafe(here, hi, hosts) && log == old(log) + done
        invariant done + Steps(here, hi, hosts) == Steps(lo, hi, hosts)
        invariant if retried then here == next else here == lo
        decreases |Steps(here, hi, hosts)|, if bits <= MAX_BITS then MAX_BITS - bits else 0
      {
        ghost var part;
        ret, part := Uadt(lo, hi, hosts, exist, retried);
        Joined(done, part, Steps(here, hi, hosts), Steps(next, hi, hosts));
        AfterDone(done, part, Steps(here, hi, hosts));
        done := done + part;
        if ret == Failed(Again) {
          var r := Grow();
          if !r.Ok? {
            ret := Failed(r);
            return;
          }
        } else if !ret.RangeCut? {
          return;
        }
        here := next;
        retried := true;
      }
    }
  }

  lemma AfterDone(done: seq<int>, part: seq<int>, rest: seq<int>)
    ensures |part| < |rest| ==> (done + rest)[|done + part|] == rest[|part|]
  {
  }

  lemma StepsEnd(ip: int, hi: int, hosts: int)
    requires hosts > 0 && ip > hi
    ensures Steps(ip, hi, hosts) == []
  {
  }

  lemma Joined(done: seq<int>, part: seq<int>, rest: seq<int>, rest': seq<int>)
    requires part <= rest
    ensures done + part <= done + rest
    ensures part + rest' == rest ==> (done + part) + rest' == done + rest && |rest'| == |rest| - |part|
    ensures part == rest ==> done + part == done + rest
  {
    assert (done + part) + rest' == done + (part + rest');
  }

  /** One step on: past the end of the range, or still below 2^32. */
  lemma StepOn(ip: int, hi: int, hosts: int)
    requires StepsSafe(ip, hi, hosts)
    ensures ip + hosts <= U32
    ensures Steps(ip, hi, hosts) == [ip] + Steps(ip + hosts, hi, hosts)
    ensures ip + hosts == U32 ==> (ip + hosts) % U32 == 0 && Steps(ip + hosts, hi, hosts) == []
    ensures ip + hosts < U32 ==> (ip + hosts) % U32 == ip + hosts > 0
    ensures ip + hosts <= hi ==> StepsSafe(ip + hosts, hi, hosts)
  {
    if ip % hosts == 0 {
      AlignedBelowEnd(ip, hosts);
      ModStep(ip, hosts);
    }
  }

  lemma ModStep(x: int, d: int)
    requires d > 0 && x % d == 0
    ensures (x + d) % d == 0
  {
    assert x == (x / d) * d;
    DivUnique(x + d, d, x / d + 1, 0);
  }
}
