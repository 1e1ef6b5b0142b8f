/**
 Adding and deleting ranges of hash:ip,port,net elements: the decoding of the attributes, the triple
 loop over addresses, ports and blocks, and the outer loop that resumes it from h->next.

 The clock does not advance and no other command runs between the retries of one request.
 */
module RangeAdd {
  import opened Options
  import opened Pfxlen
  import opened HashModel
  import opened HashTable
  import opened HashSpec
  import opened HashSets
  import opened HashResize
  import NetIndex

  const IPSET_MAX_RANGE: nat := 0x4000
  const IPPROTO_ICMP: int := 1

  /** ip_set_proto_with_ports: TCP, UDP, SCTP, UDPLITE. */
  predicate ProtoWithPorts(proto: int) {
    proto in {6, 17, 132, 136}
  }

  // ---------- Decoding ----------

  datatype Attrs = Attrs(ip: int, ipTo: Option<int>, cidr: Option<nat>, port: int, portTo: Option<int>,
                         proto: Option<int>, ip2: int, ip2To: Option<int>, cidr2: Option<nat>)

  ghost predicate AttrsOk(a: Attrs) {
    && IsAddr(a.ip) && IsAddr(a.ip2) && 0 <= a.port < 0x1_0000
    && (a.ipTo.Some? ==> IsAddr(a.ipTo.value)) && (a.ip2To.Some? ==> IsAddr(a.ip2To.value))
    && (a.portTo.Some? ==> 0 <= a.portTo.value < 0x1_0000) && (a.proto.Some? ==> 0 <= a.proto.value < 256)
    && (a.cidr.Some? ==> a.cidr.value < 256) && (a.cidr2.Some? ==> a.cidr2.value < 256)
  }

  /** The three ranges of a request. */
  datatype Job = Job(ip: int, ipTo: int, port: int, portTo: int, ip2: int, ip2To: int, proto: int)

  datatype Decoded = One(k: Key) | Many(job: Job) | InvalidCidr | InvalidProto | MissingProto | HashRange

  function Swap(a: int, b: int): (int, int) {
    if a > b then (b, a) else (a, b)
  }

  /** The attribute part of hash_ipportnet4_uadt, for a test or an add/delete. */
  function Decode(a: Attrs, test: bool): Decoded {
    if a.cidr2.Some? && !(1 <= a.cidr2.value <= HOST_MASK) then InvalidCidr
    else if a.proto.None? then MissingProto
    else if a.proto.value == 0 then InvalidProto
    else
      var prefix := if a.cidr2.Some? then a.cidr2.value else HOST_MASK;
      var proto := a.proto.value;
      var port := if ProtoWithPorts(proto) || proto == IPPROTO_ICMP then a.port else 0;
      if test || !(a.cidr.Some? || a.ipTo.Some? || (ProtoWithPorts(proto) && a.portTo.Some?) || a.ip2To.Some?) then
        One(Key(a.ip, Mask(a.ip2, prefix), port, proto, prefix - 1))
      else if a.ipTo.None? && a.cidr.Some? && !(1 <= a.cidr.value <= HOST_MASK) then InvalidCidr
      else
        var ips := if a.ipTo.Some? then Swap(a.ip, a.ipTo.value)
                   else if a.cidr.Some? then (Mask(a.ip, a.cidr.value), Last(a.ip, a.cidr.value))
                   else (a.ip, a.ip);
        var ports := if a.portTo.Some? then Swap(port, a.portTo.value) else (port, port);
        var nets := if a.ip2To.Some? then Swap(a.ip2, a.ip2To.value) else (Mask(a.ip2, prefix), Last(a.ip2, prefix));
        if a.ip2To.Some? && (nets.0 + (U32 - 1)) % U32 == nets.1 then HashRange
        else Many(Job(ips.0, ips.1, ports.0, ports.1, nets.0, nets.1, proto))
  }

  ghost predicate JobOk(j: Job) {
    && 0 <= j.ip <= j.ipTo < U32 && 0 <= j.port <= j.portTo < 0x1_0000 && 0 <= j.ip2 <= j.ip2To < U32
    && 0 < j.proto < 256
  }

  /** Decoding yields a masked element or three non-empty ranges; the full block range is refused. */
  lemma DecodeOk(a: Attrs, test: bool)
    requires AttrsOk(a)
    ensures var d := Decode(a, test);
            && (d.One? ==> KeyOk(d.k) && Covers(d.k.ip2, Prefix(d.k), a.ip2))
            && (d.Many? ==> JobOk(d.job) && !test)
            && (d.HashRange? ==> a.ip2To.Some? && Swap(a.ip2, a.ip2To.value) == (0, U32 - 1))
  {
    hide Hosts, Pow2, Mask, Aligned, Last;
    var prefix := if a.cidr2.Some? then a.cidr2.value else HOST_MASK;
    if 1 <= prefix <= HOST_MASK {
      MaskAddr(a.ip2, prefix);
      MaskCovers(Mask(a.ip2, prefix), prefix, a.ip2);
    }
    if a.cidr.Some? && 1 <= a.cidr.value <= HOST_MASK {
      MaskAddr(a.ip, a.cidr.value);
    }
  }

  ghost predicate Between(x: int, a: int, b: int) {
    a <= x <= b || b <= x <= a
  }

  /** The addresses a request names: both ends in either order, or all that share the prefix, or the one given. */
  ghost predicate AsksIp(a: Attrs, x: int) {
    if a.ipTo.Some? then Between(x, a.ip, a.ipTo.value)
    else if a.cidr.Some? then CidrOk(a.cidr) && IsAddr(x) && Mask(x, a.cidr.value) == Mask(a.ip, a.cidr.value)
    else x == a.ip
  }

  /**
   The ports likewise; a protocol that has none is stored with port 0.  A second end alone makes a range
   only where the protocol has ports.
   */
  ghost predicate AsksPort(a: Attrs, x: int) {
    var p := if a.proto in {Some(1), Some(6), Some(17), Some(132), Some(136)} then a.port else 0;
    if a.portTo.Some? && Ranged(a) then Between(x, p, a.portTo.value) else x == p
  }

  /** The second addresses likewise: without a second end, all that share the prefix, which is the host without one. */
  ghost predicate AsksIp2(a: Attrs, x: int) {
    if a.ip2To.Some? then Between(x, a.ip2, a.ip2To.value)
    else if a.cidr2.Some? then CidrOk(a.cidr2) && IsAddr(x) && Mask(x, a.cidr2.value) == Mask(a.ip2, a.cidr2.value)
    else x == a.ip2
  }

  ghost predicate Asks(a: Attrs, w: Pos) {
    AsksIp(a, w.ip) && AsksPort(a, w.p) && AsksIp2(a, w.x)
  }

  /** A prefix length given is one of a network or host. */
  ghost predicate CidrOk(c: Option<nat>) {
    c.Some? ==> 1 <= c.value <= 32
  }

  /** More than one element may be asked for. */
  ghost predicate Ranged(a: Attrs) {
    a.ipTo.Some? || a.cidr.Some? || a.ip2To.Some? || (a.portTo.Some? && a.proto in {Some(6), Some(17), Some(132), Some(136)})
  }

  lemma SharePrefix(ip: int, c: nat, x: int)
    requires IsAddr(ip) && 1 <= c <= 32
    ensures IsAddr(x) && Mask(x, c) == Mask(ip, c) <==> Mask(ip, c) <= x <= Last(ip, c)
  {
    hide Mask, Hosts, Aligned;
    MaskAddr(ip, c);
    if IsAddr(x) {
      MaskCovers(Mask(ip, c), c, x);
    }
  }

  /** The job of an accepted range request covers exactly what the attributes name. */
  lemma DecodeCovers(a: Attrs, w: Pos)
    requires AttrsOk(a) && Decode(a, false).Many?
    ensures InJob(Decode(a, false).job, w) <==> Asks(a, w)
    ensures a.proto == Some(Decode(a, false).job.proto)
  {
    hide Mask, Hosts, Last;
    var prefix := if a.cidr2.Some? then a.cidr2.value else HOST_MASK;
    SharePrefix(a.ip2, prefix, w.x);
    if a.cidr.Some? && a.ipTo.None? {
      SharePrefix(a.ip, a.cidr.value, w.ip);
    }
    HostAlone(a.ip2);
  }

  lemma HostAlone(ip: int)
    requires IsAddr(ip)
    ensures Mask(ip, HOST_MASK) == ip == Last(ip, HOST_MASK)
  {
    assert Hosts(HOST_MASK) == Pow2(0) == 1;
    assert ip % 1 == 0;
  }

  /** A single element has the address, port, protocol and prefix that the attributes name. */
  lemma DecodeSingle(a: Attrs, test: bool)
    requires AttrsOk(a) && Decode(a, test).One?
    ensures var k := Decode(a, test).k;
            && k.ip == a.ip && a.proto == Some(k.proto) && k.cidr == (if a.cidr2.Some? then a.cidr2.value else 32) - 1
            && k.port == (if k.proto in {1, 6, 17, 132, 136} then a.port else 0)
            && forall x :: Covers(k.ip2, Prefix(k), x) && IsAddr(x) <==>
                           if a.cidr2.Some? then IsAddr(x) && Mask(x, a.cidr2.value) == Mask(a.ip2, a.cidr2.value) else x == a.ip2
  {
    hide Mask, Hosts, Aligned, Covers;
    var k := Decode(a, test).k;
    var prefix := if a.cidr2.Some? then a.cidr2.value else 32;
    MaskAddr(a.ip2, prefix);
    HostAlone(a.ip2);
    forall x
      ensures Covers(k.ip2, prefix, x) && IsAddr(x) <==> IsAddr(x) && Mask(x, prefix) == Mask(a.ip2, prefix)
    {
      if IsAddr(x) {
        MaskCovers(k.ip2, prefix, x);
        HostAlone(x);
      }
    }
    forall x | IsAddr(x)
      ensures Mask(x, 32) == x
    {
      HostAlone(x);
    }
  }

  /** Which answer the decoding gives. */
  lemma DecodeIff(a: Attrs, test: bool)
    requires AttrsOk(a)
    ensures var d, many := Decode(a, test), Ranged(a) && !test;
            var all := a.ip2To.Some? && (forall x :: IsAddr(x) ==> Between(x, a.ip2, a.ip2To.value));
            && (d == MissingProto <==> CidrOk(a.cidr2) && a.proto.None?)
            && (d == InvalidProto <==> CidrOk(a.cidr2) && a.proto == Some(0))
            && (d.One? <==> CidrOk(a.cidr2) && a.proto.Some? && a.proto != Some(0) && !many)
            && (d.Many? <==> CidrOk(a.cidr2) && a.proto.Some? && a.proto != Some(0) && many
                             && (a.ipTo.None? ==> CidrOk(a.cidr)) && !all)
            && (d == HashRange <==> CidrOk(a.cidr2) && a.proto.Some? && a.proto != Some(0) && many
                                    && (a.ipTo.None? ==> CidrOk(a.cidr)) && all)
  {
    hide Mask, Hosts, Last;
    if a.ip2To.Some? && forall x :: IsAddr(x) ==> Between(x, a.ip2, a.ip2To.value) {
      assert Between(0, a.ip2, a.ip2To.value) && Between(U32 - 1, a.ip2, a.ip2To.value);
    }
  }

  // ---------- The list of elements of a range ----------

  /** Loop variables ip, p and ip2 of the triple loop. */
  datatype Pos = Pos(ip: int, p: int, x: int)

  ghost predicate PosOk(j: Job, at: Pos) {
    && JobOk(j) && j.ip <= at.ip <= j.ipTo + 1 && j.port <= at.p <= j.portTo + 1 && j.ip2 <= at.x <= j.ip2To
  }

  ghost predicate PosIn(j: Job, at: Pos) {
    PosOk(j, at) && at.ip <= j.ipTo && at.p <= j.portTo
  }

  /** The element whose block starts at the position. */
  function ElemAt(j: Job, at: Pos): (k: Key)
    requires IsAddr(at.x) && IsAddr(j.ip2To) && at.x <= j.ip2To
  {
    Key(at.ip, at.x, at.p, j.proto, BlockCidr(at.x, j.ip2To, 1) - 1)
  }

  function LastOf(k: Key): int
    requires 0 <= k.cidr < HOST_MASK
  {
    k.ip2 + Hosts(Prefix(k)) - 1
  }

  lemma ElemFits(j: Job, at: Pos)
    requires PosIn(j, at)
    ensures var k := ElemAt(j, at); KeyOk(k) && at.x <= LastOf(k) <= j.ip2To
  {
    BlockFits(at.x, j.ip2To);
  }

  /** The position after the block at a position: behind it, or at the first block of the next port. */
  ghost function Advance(j: Job, at: Pos): (next: Pos)
    requires PosIn(j, at)
    ensures PosOk(j, next)
    ensures next.ip == at.ip && ((next.p == at.p && next.x > at.x) || next.p == at.p + 1)
  {
    ElemFits(j, at);
    var last := LastOf(ElemAt(j, at));
    if last < j.ip2To then at.(x := last + 1) else Pos(at.ip, at.p + 1, j.ip2)
  }

  /** The elements from a position on, in lexicographic order. */
  ghost function From(j: Job, at: Pos): seq<Key>
    requires PosOk(j, at)
    decreases j.ipTo + 1 - at.ip, j.portTo + 1 - at.p, j.ip2To - at.x
  {
    if at.ip > j.ipTo then []
    else if at.p > j.portTo then From(j, Pos(at.ip + 1, j.port, j.ip2))
    else [ElemAt(j, at)] + From(j, Advance(j, at))
  }

  ghost function Start(j: Job): Pos {
    Pos(j.ip, j.port, j.ip2)
  }

  ghost function All(j: Job): seq<Key>
    requires JobOk(j)
  {
    From(j, Start(j))
  }

  /** Lexicographic order of positions. */
  ghost predicate Less(a: Pos, b: Pos) {
    a.ip < b.ip || (a.ip == b.ip && (a.p < b.p || (a.p == b.p && a.x < b.x)))
  }

  ghost predicate InJob(j: Job, at: Pos) {
    j.ip <= at.ip <= j.ipTo && j.port <= at.p <= j.portTo && j.ip2 <= at.x <= j.ip2To
  }

  /** Element k of the list stands for address, port and second address of `at`. */
  ghost predicate StandsFor(k: Key, at: Pos) {
    k.ip == at.ip && k.port == at.p && 0 <= k.cidr < HOST_MASK && k.ip2 <= at.x <= LastOf(k)
  }

  /** Every element listed is a valid block of the job at or after the position. */
  lemma {:induction false} FromSound(j: Job, at: Pos, n: int)
    requires PosOk(j, at) && 0 <= n < |From(j, at)|
    ensures var k := From(j, at)[n];
            && KeyOk(k) && k.proto == j.proto && k.ip2 <= LastOf(k) <= j.ip2To
            && InJob(j, Pos(k.ip, k.port, k.ip2)) && !Less(Pos(k.ip, k.port, k.ip2), at)
    decreases j.ipTo + 1 - at.ip, j.portTo + 1 - at.p, j.ip2To - at.x
  {
    hide LastOf, KeyOk, ElemAt;
    if at.p > j.portTo {
      FromSound(j, Pos(at.ip + 1, j.port, j.ip2), n);
    } else {
      ElemFits(j, at);
      ElemIs(j, at);
      if n > 0 {
        FromSound(j, Advance(j, at), n - 1);
      }
    }
  }

  lemma ElemIs(j: Job, at: Pos)
    requires PosIn(j, at)
    ensures var k := ElemAt(j, at); k.ip == at.ip && k.port == at.p && k.ip2 == at.x && k.proto == j.proto
  {
  }

  /** The list is strictly increasing, and blocks of the same address and port do not overlap. */
  lemma {:induction false} FromOrdered(j: Job, at: Pos, m: int, n: int)
    requires PosOk(j, at) && 0 <= m < n < |From(j, at)|
    ensures var a, b := From(j, at)[m], From(j, at)[n];
            0 <= a.cidr < HOST_MASK && Less(Pos(a.ip, a.port, LastOf(a)), Pos(b.ip, b.port, b.ip2))
    decreases j.ipTo + 1 - at.ip, j.portTo + 1 - at.p, j.ip2To - at.x
  {
    hide LastOf, KeyOk, ElemAt;
    if at.p > j.portTo {
      FromOrdered(j, Pos(at.ip + 1, j.port, j.ip2), m, n);
    } else {
      ElemFits(j, at);
      ElemIs(j, at);
      if m > 0 {
        FromOrdered(j, Advance(j, at), m - 1, n - 1);
      } else {
        FromSound(j, Advance(j, at), n - 1);
        CidrInRange(j, at);
      }
    }
  }

  lemma CidrInRange(j: Job, at: Pos)
    requires PosIn(j, at)
    ensures 0 <= ElemAt(j, at).cidr < HOST_MASK
  {
  }

  /** Every triple of the job at or after the position has an element. */
  lemma {:induction false} FromComplete(j: Job, at: Pos, w: Pos) returns (n: int)
    requires PosOk(j, at) && InJob(j, w) && !Less(w, at)
    ensures 0 <= n < |From(j, at)| && StandsFor(From(j, at)[n], w)
    decreases j.ipTo + 1 - at.ip, j.portTo + 1 - at.p, j.ip2To - at.x
  {
    hide LastOf, KeyOk, ElemAt;
    if at.p > j.portTo {
      n := FromComplete(j, Pos(at.ip + 1, j.port, j.ip2), w);
    } else {
      ElemFits(j, at);
      ElemIs(j, at);
      CidrInRange(j, at);
      if StandsFor(ElemAt(j, at), w) {
        n := 0;
      } else {
        n := FromComplete(j, Advance(j, at), w);
        n := n + 1;
      }
    }
  }

  /**
   The elements of a job are valid blocks inside it, in strictly increasing order, and every
   (address, port, address) triple of the job belongs to exactly one of them.
   */
  lemma AllTiles(j: Job, w: Pos)
    requires JobOk(j) && InJob(j, w)
    ensures exists n :: 0 <= n < |All(j)| && StandsFor(All(j)[n], w)
                        && forall m :: 0 <= m < |All(j)| && StandsFor(All(j)[m], w) ==> m == n
  {
    hide LastOf, From;
    var n := FromComplete(j, Start(j), w);
    assert StandsFor(All(j)[n], w);
    forall m | 0 <= m < |All(j)| && StandsFor(All(j)[m], w)
      ensures m == n
    {
      if m < n {
        FromOrdered(j, Start(j), m, n);
      } else if n < m {
        FromOrdered(j, Start(j), n, m);
      }
    }
  }

  // ---------- What adding or deleting a list means ----------

  datatype Request = Request(add: bool, nomatch: bool, timeout: nat, data: int, exist: bool)

  /** The live elements after adding or deleting the elements of a list one by one. */
  ghost function Apply(live: map<Key, Entry>, ks: seq<Key>, rq: Request, wt: bool, now: nat): map<Key, Entry> {
    if ks == [] then live
    else
      var before := Apply(live, ks[..|ks| - 1], rq, wt, now);
      var k := ks[|ks| - 1];
      if rq.add then before[k := MakeEntry(wt, k, rq.nomatch, rq.timeout, rq.data, now)] else before - {k}
  }

  lemma ApplySnoc(live: map<Key, Entry>, ks: seq<Key>, k: Key, rq: Request, wt: bool, now: nat)
    ensures Apply(live, ks + [k], rq, wt, now)
            == var before := Apply(live, ks, rq, wt, now);
               if rq.add then before[k := MakeEntry(wt, k, rq.nomatch, rq.timeout, rq.data, now)] else before - {k}
  {
    assert (ks + [k])[..|ks|] == ks;
  }

  lemma {:induction false} ApplyConcat(live: map<Key, Entry>, a: seq<Key>, b: seq<Key>, rq: Request, wt: bool, now: nat)
    ensures Apply(live, a + b, rq, wt, now) == Apply(Apply(live, a, rq, wt, now), b, rq, wt, now)
    decreases |b|
  {
    if b == [] {
      assert a + b == a;
    } else {
      var b', k := b[..|b| - 1], b[|b| - 1];
      ApplyConcat(live, a, b', rq, wt, now);
      assert a + b == (a + b') + [k] && b == b' + [k];
      ApplySnoc(live, a + b', k, rq, wt, now);
      ApplySnoc(Apply(live, a, rq, wt, now), b', k, rq, wt, now);
    }
  }

  /** In closed form: all listed elements are live with the request's data, or none is; the rest is as before. */
  lemma {:induction false} ApplyIs(live: map<Key, Entry>, ks: seq<Key>, rq: Request, wt: bool, now: nat, k: Key)
    ensures var after := Apply(live, ks, rq, wt, now);
            if k in ks then
              if rq.add then
                && k in after && after[k].key == k && after[k].nomatch == rq.nomatch && after[k].ext.data == rq.data
                && forall t :: t >= now ==> (Dead(wt, after[k], t) <==> wt && rq.timeout != 0 && t > now + rq.timeout)
              else k !in after
            else (k in after <==> k in live) && (k in live ==> after[k] == live[k])
  {
    if ks != [] {
      var ks', last := ks[..|ks| - 1], ks[|ks| - 1];
      ApplyIs(live, ks', rq, wt, now, k);
      assert ks == ks' + [last];
    }
  }

  // ---------- The loops ----------

  /** How one run of the triple loop ends: 0, -ERANGE, or an error of the add or delete function. */
  datatype LoopRet = Complete | RangeCut | Failed(ret: Ret)

  ghost function PosOf(next: Key): Pos {
    Pos(next.ip, next.port, next.ip2)
  }

  /** Results that do not stop the loop: success, or an ignored -IPSET_ERR_EXIST. */
  predicate Good(ret: Ret, exist: bool) {
    ret.Ok? || (ret.Exist? && exist)
  }

  /** No slot in the bucket of k can be reused. */
  ghost predicate NoSlot(t: Table, k: Key, wt: bool, now: int) {
    |t.b| == Pow2(t.bits) && (t.b[Home(t, k)].Some? ==> PlaceSpec(t.b[Home(t, k)].value, k, wt, now, AtEnd))
  }

  /** That bucket is full and may not grow. */
  ghost predicate AtMaximum(t: Table, max: nat, k: Key) {
    && |t.b| == Pow2(t.bits)
    && var b := t.b[Home(t, k)]; b.Some? && b.value.pos >= b.value.size >= max
  }

  lemma InTable(s: HashSet, k: Key, now: int)
    requires s.Valid()
    ensures s.Crowded(k, now) <==> NoSlot(s.table.Val(), k, s.withTimeout, now)
    ensures s.BucketFull(s.Hkey(k)) <==> AtMaximum(s.table.Val(), s.bucketsize, k)
  {
    hide PlaceSpec, TableOk;
    s.Facts();
  }

  /** Why adtfn may answer r for an element, in the state it leaves. */
  ghost predicate Refusal(s: HashSet, k: Key, rq: Request, mem: bool, now: nat, r: Ret)
    requires s.Valid()
    reads s, s.Repr()
  {
    match r
    case Ok => false
    case Exist => !rq.exist && (k in s.Live(now) <==> rq.add)
    case Full => rq.add && k !in s.Live(now) && NoSlot(s.table.Val(), k, s.withTimeout, now) && |s.Elems()| >= s.maxelem
    case Again =>
      rq.add && k !in s.Live(now) && NoSlot(s.table.Val(), k, s.withTimeout, now) && AtMaximum(s.table.Val(), s.bucketsize, k)
    case NoMem => rq.add && k !in s.Live(now) && !mem
  }

  /** adtfn on one element. */
  method AdOne(s: HashSet, k: Key, rq: Request, mem: bool, now: nat) returns (ret: Ret)
    requires s.Valid() && KeyOk(k)
    modifies s`next, s.table.bucket, s.table.hregion, s.nets.cidr, s.nets.nets
    ensures s.Valid()
    ensures s.Live(now) == if Good(ret, rq.exist) then Apply(old(s.Live(now)), [k], rq, s.withTimeout, now) else old(s.Live(now))
    ensures ret.Again? ==> PosOf(s.next) == Pos(k.ip, k.port, k.ip2)
    ensures !Good(ret, rq.exist) ==> Refusal(s, k, rq, mem, now, ret)
  {
    hide s.Valid, s.Elems, s.Crowded, s.BucketFull, s.Over, s.Tallied, KeyOk, NoHoles, NumLocks, NoSlot, AtMaximum;
    assert [k][..0] == [];
    if rq.add {
      ret := s.Add(k, rq.nomatch, rq.timeout, rq.data, rq.exist, mem, now);
      InTable(s, k, now);
    } else {
      LiveDrop(s.Elems(), k, s.withTimeout, now);
      ret := s.Del(k, mem, now);
    }
  }

  /** mtype_data_next does not touch the elements. */
  method SaveNext(s: HashSet, k: Key, now: nat)
    requires s.Valid()
    modifies s`next
    ensures s.Valid() && s.Live(now) == old(s.Live(now)) && PosOf(s.next) == Pos(k.ip, k.port, k.ip2)
  {
    s.DataNext(k);
  }

  lemma LiveDrop(m: map<Key, Entry>, k: Key, wt: bool, now: int)
    ensures LiveOf(m - {k}, wt, now) == LiveOf(m, wt, now) - {k}
  {
  }

  /**
   A part of the loops that starts at position `at`, processed `done`, turned the live elements l0
   into l1 and left h->next at `next`.  Completed, it arrives at `to`; cut short, h->next is where
   the unprocessed rest starts; failed, it is element `bad` that comes next.
   */
  ghost predicate LoopSpec(l0: map<Key, Entry>, l1: map<Key, Entry>, next: Pos, j: Job, at: Pos, to: Pos, rq: Request,
                           wt: bool, now: nat, ret: LoopRet, done: seq<Key>, bad: Key)
  {
    && PosOk(j, at) && PosOk(j, to)
    && l1 == Apply(l0, done, rq, wt, now)
    && (ret.Complete? ==> done + From(j, to) == From(j, at))
    && (ret.RangeCut? || ret == Failed(Again) ==> PosIn(j, next) && done + From(j, next) == From(j, at))
    && (ret.Failed? ==> done + [bad] <= From(j, at))
  }

  lemma LoopNone(l0: map<Key, Entry>, next: Pos, j: Job, at: Pos, rq: Request, wt: bool, now: nat)
    requires PosOk(j, at)
    ensures LoopSpec(l0, l0, next, j, at, at, rq, wt, now, Complete, [], ZERO_KEY)
  {
  }

  lemma LoopThen(l0: map<Key, Entry>, l1: map<Key, Entry>, l2: map<Key, Entry>, n1: Pos, n2: Pos, j: Job, at: Pos, mid: Pos,
                 to: Pos, rq: Request, wt: bool, now: nat, ret: LoopRet, d1: seq<Key>, d2: seq<Key>, b1: Key, bad: Key)
    requires LoopSpec(l0, l1, n1, j, at, mid, rq, wt, now, Complete, d1, b1)
    requires LoopSpec(l1, l2, n2, j, mid, to, rq, wt, now, ret, d2, bad)
    ensures LoopSpec(l0, l2, n2, j, at, to, rq, wt, now, ret, d1 + d2, bad)
  {
    hide Apply, From, PosOk, PosIn;
    ApplyConcat(l0, d1, d2, rq, wt, now);
    assert forall rest: seq<Key> :: (d1 + d2) + rest == d1 + (d2 + rest);
    assert d2 + [bad] <= From(j, mid) ==> d1 + (d2 + [bad]) <= d1 + From(j, mid);
  }

  /** One element processed, or refused with h->next on it. */
  lemma LoopOne(l0: map<Key, Entry>, next: Pos, j: Job, at: Pos, rq: Request, wt: bool, now: nat, ret: LoopRet)
    requires PosIn(j, at) && (ret.RangeCut? || ret == Failed(Again) ==> next == at)
    ensures var k := ElemAt(j, at);
            if ret.Complete? then
              LoopSpec(l0, Apply(l0, [k], rq, wt, now), next, j, at, Advance(j, at), rq, wt, now, ret, [k], k)
            else LoopSpec(l0, l0, next, j, at, at, rq, wt, now, ret, [], k)
  {
    assert [] + From(j, at) == From(j, at);
  }

  /** A cut or failed part ends wherever: its target is not reached. */
  lemma LoopAnywhere(l0: map<Key, Entry>, l1: map<Key, Entry>, next: Pos, j: Job, at: Pos, to: Pos, to': Pos, rq: Request,
                     wt: bool, now: nat, ret: LoopRet, done: seq<Key>, bad: Key)
    requires LoopSpec(l0, l1, next, j, at, to, rq, wt, now, ret, done, bad) && !ret.Complete? && PosOk(j, to')
    ensures LoopSpec(l0, l1, next, j, at, to', rq, wt, now, ret, done, bad)
  {
  }

  /** One round of the do-while loop: the i-th element of this run. */
  method BlockStep(s: HashSet, j: Job, rq: Request, mem: bool, now: nat, at: Pos, i: nat)
    returns (ret: LoopRet, last: int, ghost done: seq<Key>, ghost bad: Key)
    requires s.Valid() && PosIn(j, at)
    modifies s`next, s.table.bucket, s.table.hregion, s.nets.cidr, s.nets.nets
    ensures s.Valid()
    ensures LoopSpec(old(s.Live(now)), s.Live(now), PosOf(s.next), j, at, Advance(j, at), rq, s.withTimeout, now, ret, done,
                     bad)
    ensures ret.Failed? ==> Refusal(s, bad, rq, mem, now, ret.ret)
    ensures Advance(j, at) == if last < j.ip2To then Pos(at.ip, at.p, last + 1) else Pos(at.ip, at.p + 1, j.ip2)
    ensures at.x <= last <= j.ip2To
    ensures ret.RangeCut? <==> i > IPSET_MAX_RANGE
    ensures |done| == if ret.Complete? then 1 else 0
  {
    hide CountsOk, TableOk, Conserved, Stored, NetIndex.Indexed, LiveOf, LoopSpec, Apply, From, ElemAt, KeyOk, Advance,
         BlockCidr, Hosts, Refusal;
    var cidr;
    last, cidr := RangeToCidr(at.x, j.ip2To);
    var e := Key(at.ip, at.x, at.p, j.proto, cidr - 1);
    BlockElem(j, at, last, cidr);
    bad := e;
    ghost var l0 := s.Live(now);
    if i > IPSET_MAX_RANGE {
      SaveNext(s, e, now);
      ret := RangeCut;
    } else {
      var r := AdOne(s, e, rq, mem, now);
      ret := if Good(r, rq.exist) then Complete else Failed(r);
    }
    done := if ret.Complete? then [e] else [];
    LoopOne(l0, PosOf(s.next), j, at, rq, s.withTimeout, now, ret);
    if !ret.Complete? {
      LoopAnywhere(l0, l0, PosOf(s.next), j, at, at, Advance(j, at), rq, s.withTimeout, now, ret, [], bad);
    }
  }

  /** The do-while loop over the blocks of one address and port; i counts the elements of this run. */
  method Blocks(s: HashSet, j: Job, rq: Request, mem: bool, now: nat, at: Pos, i0: nat)
    returns (ret: LoopRet, i: nat, ghost done: seq<Key>, ghost bad: Key)
    requires s.Valid() && PosIn(j, at)
    modifies s`next, s.table.bucket, s.table.hregion, s.nets.cidr, s.nets.nets
    ensures s.Valid()
    ensures LoopSpec(old(s.Live(now)), s.Live(now), PosOf(s.next), j, at, Pos(at.ip, at.p + 1, j.ip2), rq, s.withTimeout,
                     now, ret, done, bad)
    ensures ret.Failed? ==> Refusal(s, bad, rq, mem, now, ret.ret)
    ensures ret.Complete? ==> i0 < i == i0 + |done| <= IPSET_MAX_RANGE
    ensures ret.RangeCut? ==> i0 + |done| >= IPSET_MAX_RANGE
  {
    hide s.Valid, s.Live, Refusal, LoopSpec, Apply, From, ElemAt, KeyOk, Advance;
    ghost var live, wt, end := s.Live(now), s.withTimeout, Pos(at.ip, at.p + 1, j.ip2);
    var ip2 := at.x;
    ghost var here := at;
    i, done, bad := i0, [], ZERO_KEY;
    LoopNone(live, PosOf(s.next), j, at, rq, wt, now);
    while true
      invariant s.Valid() && PosIn(j, here) && here == Pos(at.ip, at.p, ip2) && i == i0 + |done|
      invariant LoopSpec(live, s.Live(now), PosOf(s.next), j, at, here, rq, wt, now, Complete, done, bad)
      decreases j.ip2To - ip2
    {
      i := i + 1;
      ghost var l1, n1, b1 := s.Live(now), PosOf(s.next), bad;
      var last;
      ghost var one;
      ret, last, one, bad := BlockStep(s, j, rq, mem, now, Pos(at.ip, at.p, ip2), i);
      LoopThen(live, l1, s.Live(now), n1, PosOf(s.next), j, at, here, Advance(j, here), rq, wt, now, ret, done, one, b1, bad);
      done := done + one;
      here := Advance(j, here);
      if !ret.Complete? {
        LoopAnywhere(live, s.Live(now), PosOf(s.next), j, at, here, end, rq, wt, now, ret, done, bad);
        return;
      }
      if !(last < j.ip2To) {
        return;
      }
      ip2 := last + 1;
    }
  }

  lemma BlockElem(j: Job, at: Pos, last: int, cidr: nat)
    requires PosIn(j, at) && cidr == BlockCidr(at.x, j.ip2To, 1) && last == at.x + Hosts(cidr) - 1
    ensures ElemAt(j, at) == Key(at.ip, at.x, at.p, j.proto, cidr - 1) && KeyOk(ElemAt(j, at))
    ensures at.x <= last <= j.ip2To
    ensures Advance(j, at) == if last < j.ip2To then Pos(at.ip, at.p, last + 1) else Pos(at.ip, at.p + 1, j.ip2)
  {
    ElemFits(j, at);
  }

  /** The loop over the ports of one address. */
  method Ports(s: HashSet, j: Job, rq: Request, mem: bool, now: nat, at: Pos, i0: nat)
    returns (ret: LoopRet, i: nat, ghost done: seq<Key>, ghost bad: Key)
    requires s.Valid() && PosIn(j, at)
    modifies s`next, s.table.bucket, s.table.hregion, s.nets.cidr, s.nets.nets
    ensures s.Valid()
    ensures LoopSpec(old(s.Live(now)), s.Live(now), PosOf(s.next), j, at, Pos(at.ip, j.portTo + 1, j.ip2), rq, s.withTimeout,
                     now, ret, done, bad)
    ensures ret.Failed? ==> Refusal(s, bad, rq, mem, now, ret.ret)
    ensures ret.Complete? ==> i0 < i == i0 + |done| <= IPSET_MAX_RANGE
    ensures ret.RangeCut? ==> i0 + |done| >= IPSET_MAX_RANGE
  {
    hide s.Valid, s.Live, Refusal, LoopSpec, Apply, From, ElemAt, KeyOk, Advance;
    ghost var live, wt, end := s.Live(now), s.withTimeout, Pos(at.ip, j.portTo + 1, j.ip2);
    var here := at;
    i, done, ret, bad := i0, [], Complete, ZERO_KEY;
    LoopNone(live, PosOf(s.next), j, at, rq, wt, now);
    while here.p <= j.portTo
      invariant s.Valid() && PosOk(j, here) && here.ip == at.ip && i == i0 + |done| && ret.Complete?
      invariant here.p > j.portTo ==> here == end && i0 < i <= IPSET_MAX_RANGE
      invariant LoopSpec(live, s.Live(now), PosOf(s.next), j, at, here, rq, wt, now, Complete, done, bad)
      decreases j.portTo - here.p
    {
      ghost var l1, n1, d, b1 := s.Live(now), PosOf(s.next), done, bad;
      ghost var part;
      ret, i, part, bad := Blocks(s, j, rq, mem, now, here, i);
      var after := Pos(here.ip, here.p + 1, j.ip2);
      LoopThen(live, l1, s.Live(now), n1, PosOf(s.next), j, at, here, after, rq, wt, now, ret, d, part, b1, bad);
      done := d + part;
      if !ret.Complete? {
        LoopAnywhere(live, s.Live(now), PosOf(s.next), j, at, after, end, rq, wt, now, ret, done, bad);
        return;
      }
      here := after;
    }
  }

  /** ip++ in 32 bits. */
  function NextIp(ip: int): int {
    (ip + 1) % U32
  }

  // A range up to 255.255.255.255: ip++ wraps to 0.0.0.0 and the loop goes round all addresses.

  predicate Endless(j: Job) {
    j.ipTo == U32 - 1
  }

  /** The addresses the loop can reach. */
  function Wide(j: Job): Job {
    if Endless(j) then j.(ip := 0) else j
  }

  /** All elements of the job, n times over. */
  ghost function Laps(j: Job, n: nat): seq<Key>
    requires JobOk(j)
  {
    if n == 0 then [] else Laps(j, n - 1) + All(j)
  }

  lemma {:induction false} LapsAdd(j: Job, m: nat, n: nat)
    requires JobOk(j)
    ensures Laps(j, m) + Laps(j, n) == Laps(j, m + n)
  {
    hide All;
    if n == 0 {
      assert Laps(j, m) + [] == Laps(j, m);
    } else {
      LapsAdd(j, m, n - 1);
      assert Laps(j, m) + (Laps(j, n - 1) + All(j)) == (Laps(j, m) + Laps(j, n - 1)) + All(j);
    }
  }

  /** What follows a position does not depend on where the range began. */
  lemma {:induction false} FromWide(j: Job, at: Pos)
    requires PosOk(j, at)
    ensures PosOk(Wide(j), at) && From(Wide(j), at) == From(j, at)
    decreases j.ipTo + 1 - at.ip, j.portTo + 1 - at.p, j.ip2To - at.x
  {
    hide ElemAt, LastOf;
    if at.ip <= j.ipTo {
      if at.p > j.portTo {
        FromWide(j, Pos(at.ip + 1, j.port, j.ip2));
      } else {
        WideStep(j, at);
        FromWide(j, Advance(j, at));
      }
    }
  }

  lemma WideStep(j: Job, at: Pos)
    requires PosIn(j, at)
    ensures PosIn(Wide(j), at) && ElemAt(Wide(j), at) == ElemAt(j, at) && Advance(Wide(j), at) == Advance(j, at)
  {
  }

  /**
   One run of the triple loop from position `at`: `done` is the beginning of the rest of the job
   followed by `laps` rounds over all reachable addresses, all of it if completed.  Cut short,
   h->next is where the rest of that starts; failed, it is element `bad` that comes next.
   */
  ghost predicate RunSpec(l0: map<Key, Entry>, l1: map<Key, Entry>, next: Pos, j: Job, at: Pos, laps: nat, rq: Request,
                          wt: bool, now: nat, ret: LoopRet, done: seq<Key>, bad: Key)
  {
    && PosOk(j, at)
    && l1 == Apply(l0, done, rq, wt, now)
    && done <= From(j, at) + Laps(j, laps)
    && (ret.Failed? ==> done + [bad] <= From(j, at) + Laps(j, laps))
    && (ret.Complete? ==> done == From(j, at) + Laps(j, laps))
    && (ret.RangeCut? || ret == Failed(Again) ==> PosIn(j, next) && done + From(j, next) == From(j, at) + Laps(j, laps))
  }

  /** A run on its way: what is done, and the position where the rest starts. */
  ghost predicate Underway(l0: map<Key, Entry>, l1: map<Key, Entry>, j: Job, at: Pos, here: Pos, laps: nat, rq: Request,
                           wt: bool, now: nat, done: seq<Key>)
  {
    && PosOk(j, at) && PosOk(j, here)
    && l1 == Apply(l0, done, rq, wt, now)
    && done + From(j, here) == From(j, at) + Laps(j, laps)
  }

  lemma NotBegun(l0: map<Key, Entry>, j: Job, at: Pos, rq: Request, wt: bool, now: nat)
    requires PosOk(j, at)
    ensures Underway(l0, l0, j, at, at, 0, rq, wt, now, [])
  {
    hide From;
    assert [] + From(j, at) == From(j, at) + [];
  }

  /** The ports of one address, done or cut short. */
  lemma OneAddress(l0: map<Key, Entry>, l1: map<Key, Entry>, l2: map<Key, Entry>, next: Pos, j: Job, at: Pos, here: Pos,
                   mid: Pos, laps: nat, rq: Request, wt: bool, now: nat, ret: LoopRet, d1: seq<Key>, d2: seq<Key>, bad: Key)
    requires Underway(l0, l1, j, at, here, laps, rq, wt, now, d1)
    requires LoopSpec(l1, l2, next, j, here, mid, rq, wt, now, ret, d2, bad)
    ensures ret.Complete? ==> Underway(l0, l2, j, at, mid, laps, rq, wt, now, d1 + d2)
    ensures !ret.Complete? ==> RunSpec(l0, l2, next, j, at, laps, rq, wt, now, ret, d1 + d2, bad)
  {
    hide Apply, From, PosIn, PosOk, Laps;
    ApplyConcat(l0, d1, d2, rq, wt, now);
    assert forall rest: seq<Key> :: (d1 + d2) + rest == d1 + (d2 + rest);
    if ret.Failed? {
      assert d1 + (d2 + [bad]) <= d1 + From(j, here);
    } else if ret.RangeCut? {
      assert d2 <= From(j, here);
      assert d1 + d2 <= d1 + From(j, here);
    }
  }

  /** ip++: on to the next address, or round to the first one reachable. */
  lemma NextAddress(l0: map<Key, Entry>, l1: map<Key, Entry>, j: Job, at: Pos, ip: int, laps: nat, rq: Request, wt: bool,
                    now: nat, done: seq<Key>)
    requires JobOk(j) && j.ip <= ip <= j.ipTo && (Endless(j) ==> j.ip == 0)
    requires Underway(l0, l1, j, at, Pos(ip, j.portTo + 1, j.ip2), laps, rq, wt, now, done)
    ensures var more := if ip == U32 - 1 then laps + 1 else laps;
            Underway(l0, l1, j, at, Pos(NextIp(ip), j.port, j.ip2), more, rq, wt, now, done)
  {
    hide Apply, ElemAt, Advance;
    if ip == U32 - 1 {
      var rest := From(j, Pos(ip, j.portTo + 1, j.ip2));
      assert From(j, Pos(U32, j.port, j.ip2)) == [];
      assert rest == [] && done + rest == done;
      assert done + All(j) == From(j, at) + (Laps(j, laps) + All(j));
    }
  }

  lemma Ended(l0: map<Key, Entry>, l1: map<Key, Entry>, next: Pos, j: Job, at: Pos, here: Pos, laps: nat, rq: Request, wt: bool,
              now: nat, done: seq<Key>)
    requires Underway(l0, l1, j, at, here, laps, rq, wt, now, done) && here.ip > j.ipTo
    ensures RunSpec(l0, l1, next, j, at, laps, rq, wt, now, Complete, done, ZERO_KEY)
  {
    hide Apply;
    assert done + [] == done;
  }

  /**
   The triple loop of hash_ipportnet4_uadt, started afresh or resumed at h->next.  For a range up to
   255.255.255.255 it never completes: it goes on with the addresses from 0.0.0.0, until cut or failed.
   */
  method Uadt(s: HashSet, j: Job, rq: Request, mem: bool, now: nat, retried: bool)
    returns (ret: LoopRet, ghost done: seq<Key>, ghost laps: nat, ghost bad: Key)
    requires s.Valid() && JobOk(j)
    requires retried ==> PosIn(Wide(j), PosOf(s.next))
    modifies s`next, s.table.bucket, s.table.hregion, s.nets.cidr, s.nets.nets
    ensures s.Valid()
    ensures RunSpec(old(s.Live(now)), s.Live(now), PosOf(s.next), Wide(j), if retried then old(PosOf(s.next)) else Start(j),
                    laps, rq, s.withTimeout, now, ret, done, bad)
    ensures ret.Failed? ==> Refusal(s, bad, rq, mem, now, ret.ret)
    ensures if Endless(j) then !ret.Complete? else laps == 0
    ensures ret.RangeCut? ==> |done| >= IPSET_MAX_RANGE
  {
    hide s.Valid, s.Live, Refusal, LoopSpec, RunSpec, Underway, Apply, From, ElemAt, KeyOk, Advance, Laps;
    ghost var live, wt, w := s.Live(now), s.withTimeout, Wide(j);
    var start := if retried then Pos(s.next.ip, s.next.port, s.next.ip2) else Pos(j.ip, j.port, j.ip2);
    var here, i := start, 0;
    done, laps, ret, bad := [], 0, Complete, ZERO_KEY;
    NotBegun(live, w, start, rq, wt, now);
    while here.ip <= j.ipTo
      invariant s.Valid() && PosOk(w, here) && here.p <= j.portTo && i == |done| && ret.Complete?
      invariant if Endless(j) then here.ip <= j.ipTo else laps == 0
      invariant Underway(live, s.Live(now), w, start, here, laps, rq, wt, now, done)
      invariant i <= IPSET_MAX_RANGE
      decreases IPSET_MAX_RANGE - i
    {
      ghost var l1, d := s.Live(now), done;
      ghost var part;
      ret, i, part, bad := Ports(s, Wide(j), rq, mem, now, here, i);
      ghost var mid := Pos(here.ip, j.portTo + 1, j.ip2);
      OneAddress(live, l1, s.Live(now), PosOf(s.next), w, start, here, mid, laps, rq, wt, now, ret, d, part, bad);
      done := d + part;
      if !ret.Complete? {
        return;
      }
      NextAddress(live, s.Live(now), w, start, here.ip, laps, rq, wt, now, done);
      laps := if here.ip == U32 - 1 then laps + 1 else laps;
      here := Pos(NextIp(here.ip), j.port, j.ip2);
    }
    bad := ZERO_KEY;
    Ended(live, s.Live(now), PosOf(s.next), w, start, here, laps, rq, wt, now, done);
  }

  // ---------- Retrying ----------

  /** Why a request may fail at an element, with r, in the state it leaves. */
  ghost predicate GivenUp(s: HashSet, k: Key, rq: Request, mem: bool, now: nat, r: Ret)
    requires s.Valid()
    reads s, s.Repr()
  {
    match r
    case Again => false
    case Full => Refusal(s, k, rq, mem, now, Full) || (Refusal(s, k, rq, mem, now, Again) && NoLargerTable(s, now))
    case NoMem => rq.add && k !in s.Live(now) && !mem
    case _ => Refusal(s, k, rq, mem, now, r)
  }

  /** No table that can be allocated and is larger can take the live elements. */
  ghost predicate NoLargerTable(s: HashSet, now: nat)
    requires s.Valid()
    reads s, s.Repr()
  {
    forall b :: s.table.bits < b <= MAX_BITS ==> !Spreads(s.Live(now), s.hash, b, s.bucketsize)
  }

  /** The resize after -EAGAIN. */
  method Enlarge(s: HashSet, ghost k: Key, ghost rq: Request, mem: bool, now: nat) returns (r: Ret)
    requires s.Valid() && Refusal(s, k, rq, mem, now, Again)
    modifies s`table
    ensures s.Valid() && s.Live(now) == old(s.Live(now)) && r in {Ok, Full, NoMem}
    ensures r.Ok? ==> fresh(s.table) && fresh(s.table.bucket) && fresh(s.table.hregion)
                      && old(s.table.bits) < s.table.bits <= MAX_BITS
    ensures !r.Ok? ==> s.table == old(s.table) && GivenUp(s, k, rq, mem, now, r)
  {
    hide s.Valid, s.Live, s.Elems, NoSlot, AtMaximum, Spreads;
    r := Resize(s, mem, now);
  }

  /**
   CALL_AD: repeating the loop after -ERANGE, and after -EAGAIN once the table has been resized.
   However often it is cut, a successful request has processed exactly the elements of the job, each
   once and in order; a failed one those before the element that was refused, with good reason.  A
   request up to 255.255.255.255 never succeeds and need not end: RangeCut is the state after `rounds` rounds of it.
   */
  method CallAd(s: HashSet, j: Job, rq: Request, mem: bool, now: nat, rounds: nat)
    returns (ret: LoopRet, ghost done: seq<Key>, ghost laps: nat, ghost bad: Key)
    requires s.Valid() && JobOk(j)
    modifies s.Repr()
    ensures s.Valid() && fresh(s.Repr() - old(s.Repr()))
    ensures s.Live(now) == Apply(old(s.Live(now)), done, rq, s.withTimeout, now)
    ensures if Endless(j) then !ret.Complete? else !ret.RangeCut? && laps == 0
    ensures if ret.Complete? then done == All(j) else done <= All(j) + Laps(Wide(j), laps)
    ensures ret.Failed? ==> done + [bad] <= All(j) + Laps(Wide(j), laps) && GivenUp(s, bad, rq, mem, now, ret.ret)
  {
    hide s.Valid, s.Live, s.Elems, Refusal, GivenUp, RunSpec, Apply, From, ElemAt, KeyOk, Advance, Laps;
    ghost var live, wt, w := s.Live(now), s.withTimeout, Wide(j);
    ghost var here := Start(j);
    var retried, left := false, rounds;
    done, laps := [], 0;
    FromWide(j, here);
    NotBegun(live, w, here, rq, wt, now);
    while true
      invariant s.Valid() && fresh(s.Repr() - old(s.Repr()))
      invariant Underway(live, s.Live(now), w, Start(j), here, laps, rq, wt, now, done)
      invariant retried ==> PosIn(w, here) && here == PosOf(s.next)
      invariant !retried ==> here == Start(j)
      invariant !Endless(j) ==> laps == 0
      decreases left, |From(w, here)|, if s.table.bits <= MAX_BITS then MAX_BITS - s.table.bits else 0
    {
      ghost var l1, part, more := s.Live(now), [], 0;
      ret, part, more, bad := Uadt(s, j, rq, mem, now, retried);
      RunMeans(l1, s.Live(now), PosOf(s.next), w, here, more, rq, wt, now, ret, part, bad);
      Resume(live, l1, s.Live(now), PosOf(s.next), w, Start(j), here, laps, more, rq, wt, now, ret, done, part, bad);
      done, laps := done + part, laps + more;
      if ret == Failed(Again) {
        var r := Enlarge(s, bad, rq, mem, now);
        if !r.Ok? {
          ret := Failed(r);
          return;
        }
      } else if !ret.RangeCut? {
        NotAgain(s, bad, rq, mem, now, ret);
        return;
      }
      if Endless(j) {
        if left == 0 {
          ret := RangeCut;
          return;
        }
        left := left - 1;
      }
      here := PosOf(s.next);
      retried := true;
    }
  }

  lemma NotAgain(s: HashSet, k: Key, rq: Request, mem: bool, now: nat, ret: LoopRet)
    requires s.Valid() && ret != Failed(Again) && (ret.Failed? ==> Refusal(s, k, rq, mem, now, ret.ret))
    ensures ret.Failed? ==> GivenUp(s, k, rq, mem, now, ret.ret)
  {
  }

  /** Behind the request, a range up to 255.255.255.255 goes on with 0.0.0.0, whatever was asked for. */
  lemma {:induction false} BeyondRequest(j: Job, laps: nat, done: seq<Key>)
    requires JobOk(j) && Endless(j) && done <= All(j) + Laps(Wide(j), laps) && |done| > |All(j)|
    ensures done[|All(j)|].ip == 0
    ensures 0 < j.ip ==> done[|All(j)|] !in All(j)
  {
    hide ElemAt, From;
    var w, n := Wide(j), |All(j)|;
    LapBegins(w, laps);
    assert done[n] == (All(j) + Laps(w, laps))[n] == Laps(w, laps)[0];
    if done[n] in All(j) {
      var i :| 0 <= i < n && All(j)[i] == done[n];
      FromSound(j, Start(j), i);
    }
  }

  lemma {:induction false} LapBegins(j: Job, n: nat)
    requires JobOk(j) && Laps(j, n) != []
    ensures Laps(j, n)[0].ip == j.ip
  {
    hide ElemAt;
    ElemIs(j, Start(j));
    if n > 1 {
      if Laps(j, n - 1) != [] {
        LapBegins(j, n - 1);
      }
    } else {
      assert Laps(j, 0) + All(j) == All(j);
    }
  }

  lemma RunMeans(l0: map<Key, Entry>, l1: map<Key, Entry>, next: Pos, j: Job, at: Pos, laps: nat, rq: Request,
                 wt: bool, now: nat, ret: LoopRet, done: seq<Key>, bad: Key)
    requires RunSpec(l0, l1, next, j, at, laps, rq, wt, now, ret, done, bad)
    ensures laps == 0 && (ret.RangeCut? || ret == Failed(Again)) ==>
              PosIn(j, next) && |From(j, next)| == |From(j, at)| - |done|
    ensures ret.RangeCut? || ret == Failed(Again) ==> PosIn(j, next)
  {
    hide From, Apply;
  }

  /** A run resumed: what is done so far and its part together. */
  lemma Resume(l0: map<Key, Entry>, l1: map<Key, Entry>, l2: map<Key, Entry>, next: Pos, j: Job, at: Pos, here: Pos, laps: nat,
               more: nat, rq: Request, wt: bool, now: nat, ret: LoopRet, d1: seq<Key>, d2: seq<Key>, bad: Key)
    requires Underway(l0, l1, j, at, here, laps, rq, wt, now, d1)
    requires RunSpec(l1, l2, next, j, here, more, rq, wt, now, ret, d2, bad)
    ensures l2 == Apply(l0, d1 + d2, rq, wt, now)
    ensures d1 + d2 <= From(j, at) + Laps(j, laps + more)
    ensures ret.Complete? ==> d1 + d2 == From(j, at) + Laps(j, laps + more)
    ensures ret.Failed? ==> d1 + d2 + [bad] <= From(j, at) + Laps(j, laps + more)
    ensures ret.RangeCut? || ret == Failed(Again) ==>
              Underway(l0, l2, j, at, next, laps + more, rq, wt, now, d1 + d2)
  {
    hide Apply, From, Laps;
    ApplyConcat(l0, d1, d2, rq, wt, now);
    LapsAdd(j, laps, more);
    var all, turns := From(j, at), Laps(j, laps);
    assert d1 + (From(j, here) + Laps(j, more)) == (d1 + From(j, here)) + Laps(j, more)
        == (all + turns) + Laps(j, more) == all + (turns + Laps(j, more));
    assert forall rest: seq<Key> :: (d1 + d2) + rest == d1 + (d2 + rest);
    assert d1 + d2 <= d1 + (From(j, here) + Laps(j, more));
    if ret.Failed? {
      assert d1 + (d2 + [bad]) <= d1 + (From(j, here) + Laps(j, more));
    }
  }

  /** The host address to test for a triple of the job. */
  function HostKey(j: Job, w: Pos): Key {
    Key(w.ip, w.x, w.p, j.proto, HOST_MASK - 1)
  }

  /** After a successful range add every address of the range is found in the set. */
  method AddRangeThenTest(s: HashSet, j: Job, rq: Request, mem: bool, now: nat, rounds: nat, w: Pos)
    returns (ret: LoopRet, v: Verdict)
    requires s.Valid() && JobOk(j) && rq.add && InJob(j, w)
    modifies s.Repr()
    ensures s.Valid()
    ensures ret.Complete? ==> v != Miss
  {
    hide s.Valid, s.Live, Apply, GivenUp, From, KeyOk;
    ghost var live, done, laps, bad;
    live := s.Live(now);
    ret, done, laps, bad := CallAd(s, j, rq, mem, now, rounds);
    v := s.Test(HostKey(j, w), now);
    if ret.Complete? {
      RangeIsCandidate(s.Live(now), live, j, rq, s.withTimeout, now, w);
    }
  }

  /**
   The add or delete command from its attributes on: the element they name, or all elements of the ranges
   they name.  `ret` is the outcome where they are accepted.
   */
  method AddDel(s: HashSet, a: Attrs, rq: Request, mem: bool, now: nat, rounds: nat)
    returns (d: Decoded, ret: LoopRet, ghost done: seq<Key>)
    requires s.Valid() && AttrsOk(a)
    modifies s.Repr()
    ensures s.Valid() && fresh(s.Repr() - old(s.Repr())) && d == Decode(a, false)
    ensures !d.One? && !d.Many? ==> s.Live(now) == old(s.Live(now))
    ensures s.Live(now) == Apply(old(s.Live(now)), done, rq, s.withTimeout, now)
    ensures d.One? && ret.Complete? ==> done == [d.k]
    ensures d.One? ==> !ret.RangeCut? && (ret.Failed? ==> done == [] && GivenUp(s, d.k, rq, mem, now, ret.ret))
    ensures d.Many? ==> JobOk(d.job) && (ret.Complete? ==> done == All(d.job))
    ensures d.Many? && Endless(d.job) ==> !ret.Complete?
    ensures d.Many? && !Endless(d.job) ==> !ret.RangeCut? && (ret.Failed? ==>
              exists k :: done + [k] <= All(d.job) && GivenUp(s, k, rq, mem, now, ret.ret))
  {
    hide s.Valid, s.Live, Apply, Refusal, GivenUp, JobOk, From, KeyOk;
    d := Decode(a, false);
    DecodeOk(a, false);
    done, ret := [], Complete;
    ApplyNone(s.Live(now), rq, s.withTimeout, now);
    match d {
      case One(k) =>
        ret, done := CallOne(s, k, rq, mem, now);
      case Many(j) =>
        ghost var laps, bad;
        ret, done, laps, bad := CallAd(s, j, rq, mem, now, rounds);
        NoLaps(j);
      case _ =>
    }
  }

  lemma ApplyNone(live: map<Key, Entry>, rq: Request, wt: bool, now: nat)
    ensures Apply(live, [], rq, wt, now) == live
  {
  }

  lemma NoLaps(j: Job)
    requires JobOk(j)
    ensures All(j) + Laps(Wide(j), 0) == All(j)
  {
  }

  /** CALL_AD for a single element. */
  method CallOne(s: HashSet, k: Key, rq: Request, mem: bool, now: nat) returns (ret: LoopRet, ghost done: seq<Key>)
    requires s.Valid() && KeyOk(k)
    modifies s.Repr()
    ensures s.Valid() && fresh(s.Repr() - old(s.Repr())) && !ret.RangeCut?
    ensures s.Live(now) == Apply(old(s.Live(now)), done, rq, s.withTimeout, now)
    ensures ret.Complete? ==> done == [k]
    ensures ret.Failed? ==> done == [] && GivenUp(s, k, rq, mem, now, ret.ret)
  {
    hide s.Valid, s.Live, Apply, Refusal, GivenUp, KeyOk;
    done := [];
    ApplyNone(s.Live(now), rq, s.withTimeout, now);
    while true
      invariant s.Valid() && fresh(s.Repr() - old(s.Repr())) && s.Live(now) == old(s.Live(now)) && done == []
      decreases if s.table.bits <= MAX_BITS then MAX_BITS - s.table.bits else 0
    {
      var r := AdOne(s, k, rq, mem, now);
      if Good(r, rq.exist) {
        return Complete, [k];
      }
      if r != Again {
        NotAgain(s, k, rq, mem, now, Failed(r));
        return Failed(r), [];
      }
      r := Enlarge(s, k, rq, mem, now);
      if !r.Ok? {
        return Failed(r), [];
      }
    }
  }

  /** The test command from its attributes on. */
  method TestOne(s: HashSet, a: Attrs, now: nat) returns (d: Decoded, v: Verdict)
    requires s.Valid() && AttrsOk(a)
    ensures d == Decode(a, true) && !d.Many? && (d.One? ==> TestSpec(s.Live(now), d.k, v))
  {
    d := Decode(a, true);
    DecodeOk(a, true);
    v := Miss;
    if d.One? {
      v := s.Test(d.k, now);
    }
  }

  /** After a successful add command every address, port and second address it names is found in the set. */
  method AddThenTest(s: HashSet, a: Attrs, rq: Request, mem: bool, now: nat, rounds: nat, w: Pos)
    returns (d: Decoded, ret: LoopRet, v: Verdict)
    requires s.Valid() && AttrsOk(a) && rq.add && Asks(a, w) && a.proto.Some?
    modifies s.Repr()
    ensures s.Valid()
    ensures (d.One? || d.Many?) && ret.Complete? ==> v != Miss
  {
    hide s.Valid, s.Live, Apply, GivenUp, From, KeyOk, Asks, AttrsOk, Decode;
    ghost var live, done := s.Live(now), [];
    d, ret, done := AddDel(s, a, rq, mem, now, rounds);
    var host := Key(w.ip, w.x, w.p, a.proto.value, HOST_MASK - 1);
    v := s.Test(host, now);
    if d.Many? && ret.Complete? {
      DecodeCovers(a, w);
      RangeIsCandidate(s.Live(now), live, d.job, rq, s.withTimeout, now, w);
    }
    if d.One? && ret.Complete? {
      OneIsCandidate(s.Live(now), live, a, rq, s.withTimeout, now, w);
    }
  }

  lemma OneIsCandidate(after: map<Key, Entry>, live: map<Key, Entry>, a: Attrs, rq: Request, wt: bool, now: nat, w: Pos)
    requires AttrsOk(a) && Asks(a, w) && rq.add && Decode(a, false).One?
    requires after == Apply(live, [Decode(a, false).k], rq, wt, now)
    ensures Candidate(after, Key(w.ip, w.x, w.p, a.proto.value, HOST_MASK - 1), Decode(a, false).k)
  {
    hide Apply, Mask, Covers;
    DecodeOk(a, false);
    DecodeSingle(a, false);
    DecodeIff(a, false);
    ApplyIs(live, [Decode(a, false).k], rq, wt, now, Decode(a, false).k);
  }

  lemma RangeIsCandidate(after: map<Key, Entry>, live: map<Key, Entry>, j: Job, rq: Request, wt: bool, now: nat, w: Pos)
    requires JobOk(j) && InJob(j, w) && rq.add && after == Apply(live, All(j), rq, wt, now)
    ensures exists k :: Candidate(after, HostKey(j, w), k)
  {
    hide Apply, From;
    var n := FromComplete(j, Start(j), w);
    var k := All(j)[n];
    FromSound(j, Start(j), n);
    ApplyIs(live, All(j), rq, wt, now, k);
    assert Candidate(after, HostKey(j, w), k);
  }
}
