/**
 What the hash set operations mean: on the map of stored elements, on the set of live ones, and on
 the per-length counts of the prefix index.
 */
module HashSpec {
  import opened Options
  import opened Pfxlen
  import opened HashModel
  import opened HashTable
  import NetIndex

  /** 0, -IPSET_ERR_EXIST, -IPSET_ERR_HASH_FULL, -EAGAIN, -ENOMEM. */
  datatype Ret = Ok | Exist | Full | Again | NoMem

  /** Outcome of a test: 0, 1, or -ENOTEMPTY for an entry flagged nomatch. */
  datatype Verdict = Miss | Match | NotEmpty

  /** ip_set_timeout_set: the expiry time of a new element. */
  function Deadline(withTimeout: bool, value: nat, now: nat): nat {
    if withTimeout && value != 0 then now + value else 0
  }

  /** The element mtype_add stores: it lasts for `timeout`, or for ever where that is 0 or the set has no timeouts. */
  function MakeEntry(wt: bool, k: Key, nomatch: bool, timeout: nat, data: int, now: nat): (e: Entry)
    ensures e.key == k && e.nomatch == nomatch && e.ext.data == data && !Dead(wt, e, now)
    ensures forall t :: t >= now ==> (Dead(wt, e, t) <==> wt && timeout != 0 && t > now + timeout)
  {
    Entry(k, nomatch, Ext(Deadline(wt, timeout, now), data))
  }

  // ---------- What the operations mean on the map of elements ----------

  ghost function HomeIn(hash: Key -> nat, bits: nat, k: Key): nat {
    hash(k) % Pow2(bits)
  }

  /** The map without the expired elements of buckets lo..hi-1. */
  ghost function Purge(m: map<Key, Entry>, hash: Key -> nat, bits: nat, lo: int, hi: int, wt: bool, now: int)
    : map<Key, Entry>
  {
    map k | k in m && !(lo <= HomeIn(hash, bits, k) < hi && Dead(wt, m[k], now)) :: m[k]
  }

  lemma PurgeStep(m: map<Key, Entry>, hash: Key -> nat, bits: nat, lo: int, i: int, wt: bool, now: int)
    requires lo <= i
    ensures Purge(Purge(m, hash, bits, lo, i, wt, now), hash, bits, i, i + 1, wt, now)
            == Purge(m, hash, bits, lo, i + 1, wt, now)
  {
  }

  lemma PurgeNone(m: map<Key, Entry>, hash: Key -> nat, bits: nat, lo: int, wt: bool, now: int)
    ensures Purge(m, hash, bits, lo, lo, wt, now) == m
  {
  }

  lemma PurgeLive(m: map<Key, Entry>, hash: Key -> nat, bits: nat, lo: int, hi: int, wt: bool, now: int)
    ensures LiveOf(Purge(m, hash, bits, lo, hi, wt, now), wt, now) == LiveOf(m, wt, now)
    ensures OnlyExpiredGone(m, Purge(m, hash, bits, lo, hi, wt, now), wt, now)
  {
  }

  /** Collecting range after range is collecting them at once. */
  lemma PurgeTwice(m: map<Key, Entry>, hash: Key -> nat, bits: nat, lo: int, mid: int, hi: int, wt: bool, now: int)
    requires lo <= mid <= hi
    ensures Purge(Purge(m, hash, bits, lo, mid, wt, now), hash, bits, mid, hi, wt, now) == Purge(m, hash, bits, lo, hi, wt, now)
  {
  }

  /** What is left of m when the first n regions have been collected. */
  ghost function PurgeRegions(m: map<Key, Entry>, hash: Key -> nat, bits: nat, n: nat, wt: bool, now: int): map<Key, Entry> {
    if n == 0 then m
    else Purge(PurgeRegions(m, hash, bits, n - 1, wt, now), hash, bits, RegionStart(n - 1, bits), RegionEnd(n - 1, bits), wt, now)
  }

  /** A round of the collector over all regions leaves exactly the live elements. */
  lemma PurgeRound(m: map<Key, Entry>, hash: Key -> nat, bits: nat, wt: bool, now: int)
    ensures PurgeRegions(m, hash, bits, NumLocks(bits), wt, now) == LiveOf(m, wt, now)
  {
    hide NumLocks, RegionStart, RegionEnd;
    PurgeFirst(m, hash, bits, NumLocks(bits), wt, now);
    RegionsAbut(NumLocks(bits) - 1, bits);
    assert Purge(m, hash, bits, 0, Pow2(bits), wt, now) == LiveOf(m, wt, now);
  }

  lemma {:induction false} PurgeFirst(m: map<Key, Entry>, hash: Key -> nat, bits: nat, n: nat, wt: bool, now: int)
    requires 0 < n <= NumLocks(bits)
    ensures PurgeRegions(m, hash, bits, n, wt, now) == Purge(m, hash, bits, 0, RegionEnd(n - 1, bits), wt, now)
  {
    hide NumLocks, RegionStart, RegionEnd, Purge;
    RegionsAbut(n - 1, bits);
    if n > 1 {
      PurgeFirst(m, hash, bits, n - 1, wt, now);
      RegionsAbut(n - 2, bits);
      RegionInTable(n - 1, bits);
      PurgeTwice(m, hash, bits, 0, RegionStart(n - 1, bits), RegionEnd(n - 1, bits), wt, now);
    } else {
      assert PurgeRegions(m, hash, bits, 0, wt, now) == m;
    }
  }

  /** m' is m without some of its expired elements. */
  ghost predicate OnlyExpiredGone(m: map<Key, Entry>, m': map<Key, Entry>, wt: bool, now: int) {
    && (forall k :: k in m' ==> k in m && m'[k] == m[k])
    && (forall k :: k in m && k !in m' ==> Dead(wt, m[k], now))
  }

  lemma OnlyExpiredLive(m: map<Key, Entry>, m': map<Key, Entry>, wt: bool, now: int)
    requires OnlyExpiredGone(m, m', wt, now)
    ensures LiveOf(m', wt, now) == LiveOf(m, wt, now)
  {
  }

  /** Adding e to a mathematical set of live elements. */
  ghost predicate AddSpec(m: map<Key, Entry>, m': map<Key, Entry>, e: Entry, exist: bool, wt: bool, now: int, ret: Ret) {
    var live, live' := LiveOf(m, wt, now), LiveOf(m', wt, now);
    && live' == (if ret.Ok? then live[e.key := e] else live)
    && (e.key in live ==> ret == if exist then Ok else Exist)
    && (ret.Exist? ==> e.key in live && !exist)
  }

  /** A new element stored after only expired ones went. */
  lemma AddFresh(m: map<Key, Entry>, mid: map<Key, Entry>, e: Entry, exist: bool, wt: bool, now: int)
    requires OnlyExpiredGone(m, mid, wt, now) && e.key !in mid && !Dead(wt, e, now)
    ensures AddSpec(m, mid[e.key := e], e, exist, wt, now, Ok)
  {
    OnlyExpiredLive(m, mid, wt, now);
    assert LiveOf(mid[e.key := e], wt, now) == LiveOf(mid, wt, now)[e.key := e];
  }

  /** An element found stored: overwritten when allowed or expired, else refused. */
  lemma AddFound(m: map<Key, Entry>, mid: map<Key, Entry>, e: Entry, exist: bool, wt: bool, now: int)
    requires OnlyExpiredGone(m, mid, wt, now) && e.key in mid && !Dead(wt, e, now)
    ensures if exist || Dead(wt, mid[e.key], now) then AddSpec(m, mid[e.key := e], e, exist, wt, now, Ok)
            else AddSpec(m, mid, e, exist, wt, now, Exist)
  {
    OnlyExpiredLive(m, mid, wt, now);
    assert LiveOf(mid[e.key := e], wt, now) == LiveOf(mid, wt, now)[e.key := e];
  }

  lemma AddRefused(m: map<Key, Entry>, mid: map<Key, Entry>, e: Entry, exist: bool, wt: bool, now: int, ret: Ret)
    requires OnlyExpiredGone(m, mid, wt, now) && e.key !in mid && !ret.Ok? && !ret.Exist?
    ensures AddSpec(m, mid, e, exist, wt, now, ret)
  {
    OnlyExpiredLive(m, mid, wt, now);
  }

  /** After a successful add the element is there with its flag and data, and lasts for the timeout asked for. */
  lemma AddLasts(m: map<Key, Entry>, m': map<Key, Entry>, k: Key, nomatch: bool, timeout: nat, data: int, exist: bool,
                 wt: bool, now: nat, ret: Ret)
    requires AddSpec(m, m', MakeEntry(wt, k, nomatch, timeout, data, now), exist, wt, now, ret) && ret.Ok?
    ensures k in m' && m'[k].key == k && m'[k].nomatch == nomatch && m'[k].ext.data == data
    ensures forall t :: t >= now ==> (k in LiveOf(m', wt, t) <==> !(wt && timeout != 0 && t > now + timeout))
  {
    var e := MakeEntry(wt, k, nomatch, timeout, data, now);
    assert LiveOf(m', wt, now)[k] == e;
  }

  lemma ErasedGone(m: map<Key, Entry>, mid: map<Key, Entry>, k: Key, wt: bool, now: int)
    requires OnlyExpiredGone(m, mid, wt, now) && k in mid && Dead(wt, mid[k], now)
    ensures OnlyExpiredGone(m, mid - {k}, wt, now)
  {
  }

  /** Where mtype_add may put an element: over the equal one, in a hole or an expired slot, or at the end. */
  datatype Place = Found(at: int) | Reuse(at: int, deleted: bool) | AtEnd

  ghost predicate PlaceSpec(n: Bucket, k: Key, wt: bool, now: int, p: Place) {
    match p
    case Found(j) => Hit(n, j, k)
    case Reuse(j, deleted) =>
      && 0 <= j < n.pos && j < |n.used| && j < |n.value| && (deleted <==> !n.used[j])
      && (!deleted ==> Dead(wt, n.value[j], now)) && forall x :: !Hit(n, x, k)
    case AtEnd =>
      && (forall x :: !Hit(n, x, k))
      && (n.pos <= |n.used| && n.pos <= |n.value| ==> forall x :: 0 <= x < n.pos ==> n.used[x] && !Dead(wt, n.value[x], now))
  }

  /** Every slot of the bucket holds an unexpired element. */
  ghost predicate Tight(b: Option<Bucket>, wt: bool, now: int) {
    b.Some? ==>
      var n := b.value;
      n.pos <= |n.used| && n.pos <= |n.value| && forall x :: 0 <= x < n.pos ==> n.used[x] && !Dead(wt, n.value[x], now)
  }

  /** Such buckets are the same in both tables. */
  ghost predicate TightKept(t: Table, t': Table, wt: bool, now: int) {
    |t'.b| == |t.b| && forall i :: 0 <= i < |t.b| && Tight(t.b[i], wt, now) ==> t'.b[i] == t.b[i]
  }

  lemma NoHitAbsent(t: Table, max: nat, k: Key)
    requires TableOk(t, max)
    requires var b := t.b[Home(t, k)]; b.Some? ==> forall x :: !Hit(b.value, x, k)
    ensures k !in Stored(t, max)
  {
    if k in Stored(t, max) {
      var j := StoredIsUsed(t, max, k);
    }
  }

  /** What lets an add through: room in the region's share, else room in the whole set of n elements. */
  predicate AddGuard(count: int, share: int, n: int, maxelem: int) {
    count < share || n < maxelem
  }

  /** A stored prefix that contains the tested address and agrees on the other fields. */
  ghost predicate Candidate(live: map<Key, Entry>, d: Key, k: Key) {
    && k in live && k.ip == d.ip && k.port == d.port && k.proto == d.proto
    && 0 <= k.cidr < HOST_MASK && Covers(k.ip2, Prefix(k), d.ip2)
  }

  ghost predicate LongestCandidate(live: map<Key, Entry>, d: Key, k: Key) {
    Candidate(live, d, k) && forall o :: Candidate(live, d, o) ==> o.cidr <= k.cidr
  }

  /** Longest-prefix match. */
  ghost predicate LpmSpec(live: map<Key, Entry>, d: Key, v: Verdict) {
    match v
    case Miss => forall k :: !Candidate(live, d, k)
    case Match => exists k :: LongestCandidate(live, d, k) && !live[k].nomatch
    case NotEmpty => exists k :: LongestCandidate(live, d, k) && live[k].nomatch
  }

  /** A test of a host address is a longest-prefix match, a test of a network is exact. */
  ghost predicate TestSpec(live: map<Key, Entry>, d: Key, v: Verdict) {
    if Prefix(d) == HOST_MASK then LpmSpec(live, d, v)
    else if d !in live then v == Miss
    else v == if live[d].nomatch then NotEmpty else Match
  }

  /** There is at most one prefix of a given length around an address, so the verdict is unique. */
  lemma LpmUnique(live: map<Key, Entry>, d: Key, v: Verdict, w: Verdict)
    requires forall k :: k in live ==> KeyOk(k)
    requires LpmSpec(live, d, v) && LpmSpec(live, d, w)
    ensures v == w
  {
    if v != Miss && w != Miss {
      var a :| LongestCandidate(live, d, a) && (v.NotEmpty? <==> live[a].nomatch);
      var b :| LongestCandidate(live, d, b) && (w.NotEmpty? <==> live[b].nomatch);
      assert a.cidr == b.cidr;
      MaskCovers(a.ip2, Prefix(a), d.ip2);
      MaskCovers(b.ip2, Prefix(b), d.ip2);
      assert a == b;
    }
  }

  /** So each answer is given exactly when it is due. */
  lemma LpmIff(live: map<Key, Entry>, d: Key, v: Verdict)
    requires forall k :: k in live ==> KeyOk(k)
    requires LpmSpec(live, d, v)
    ensures v == Miss <==> forall k :: !Candidate(live, d, k)
    ensures v == Match <==> exists k :: LongestCandidate(live, d, k) && !live[k].nomatch
    ensures v == NotEmpty <==> exists k :: LongestCandidate(live, d, k) && live[k].nomatch
  {
    hide KeyOk;
    forall w | LpmSpec(live, d, w)
      ensures w == v
    {
      LpmUnique(live, d, v, w);
    }
    assert LpmSpec(live, d, Miss) <==> v == Miss;
    assert LpmSpec(live, d, Match) <==> v == Match;
    assert LpmSpec(live, d, NotEmpty) <==> v == NotEmpty;
  }

  /** mtype_data_netmask with the prefix listed as value c in the index. */
  function Masked(d: Key, c: int): Key
    requires NetIndex.IsNcidr(c)
  {
    d.(ip2 := Mask(d.ip2, c - 1), cidr := c - 2)
  }

  /** Masking in place, longest prefix first, equals masking the original address. */
  lemma MaskedTwice(d: Key, longer: int, shorter: int)
    requires NetIndex.IsNcidr(longer) && NetIndex.IsNcidr(shorter) && shorter <= longer
    ensures Masked(Masked(d, longer), shorter) == Masked(d, shorter)
  {
    MaskMask(d.ip2, longer - 1, shorter - 1);
  }

  /** A candidate of a length is the tested element masked to that length, and conversely. */
  lemma CandidateIsMasked(live: map<Key, Entry>, d: Key, k: Key)
    requires KeyOk(k) && k in live
    ensures Candidate(live, d, k) <==> k == Masked(d, Ncidr(k))
  {
    MaskCovers(k.ip2, Prefix(k), d.ip2);
  }

  /** What the index and the probes of longer prefixes tell about a hit at entry j, or about no hit. */
  lemma LpmFromIndex(live: map<Key, Entry>, d: Key, col: seq<int>, n: int, j: int, v: Verdict)
    requires forall k :: k in live ==> KeyOk(k) && Ncidr(k) in col
    requires NetIndex.SortedColumn(col, n) && 0 <= j <= n
    requires forall p :: 0 <= p < j ==> Masked(d, col[p]) !in live
    requires if v.Miss? then j == n else j < n && Masked(d, col[j]) in live && (v.NotEmpty? <==> live[Masked(d, col[j])].nomatch)
    ensures LpmSpec(live, d, v)
  {
    forall k | Candidate(live, d, k)
      ensures exists p :: j <= p < n && col[p] == Ncidr(k)
    {
      CandidateIsMasked(live, d, k);
      var p :| 0 <= p < |col| && col[p] == Ncidr(k);
      assert p < n;
    }
    if !v.Miss? {
      var best := Masked(d, col[j]);
      CandidateIsMasked(live, d, best);
      assert LongestCandidate(live, d, best);
    }
  }

  // ---------- Prefix counts ----------

  /** Each count covers the stored elements of its length, exactly so without timeouts. */
  ghost predicate CountsOk(counts: seq<int>, m: map<Key, Entry>, exact: bool) {
    |counts| == NetIndex.NLEN
    && forall c :: NetIndex.IsNcidr(c) ==>
         counts[NetIndex.CidrPos(c)] >= NetCount(m, c)
         && (exact ==> counts[NetIndex.CidrPos(c)] == NetCount(m, c))
  }

  lemma CountsPut(counts: seq<int>, m: map<Key, Entry>, e: Entry, exact: bool)
    requires CountsOk(counts, m, exact) && KeyOk(e.key) && e.key !in m
    ensures var p := NetIndex.CidrPos(Ncidr(e.key));
            CountsOk(counts[p := counts[p] + 1], m[e.key := e], exact)
  {
    forall c | NetIndex.IsNcidr(c)
      ensures NetCount(m[e.key := e], c) == NetCount(m, c) + if Ncidr(e.key) == c then 1 else 0
    {
      NetCountPut(m, e, c);
    }
  }

  lemma CountsOverwrite(counts: seq<int>, m: map<Key, Entry>, e: Entry, exact: bool)
    requires CountsOk(counts, m, exact) && e.key in m
    ensures CountsOk(counts, m[e.key := e], exact)
  {
    forall c | NetIndex.IsNcidr(c)
      ensures NetCount(m[e.key := e], c) == NetCount(m, c)
    {
      NetCountPut(m, e, c);
    }
  }

  lemma CountsDrop(counts: seq<int>, m: map<Key, Entry>, k: Key, exact: bool)
    requires CountsOk(counts, m, exact) && KeyOk(k) && k in m
    ensures counts[NetIndex.CidrPos(Ncidr(k))] > 0
    ensures var p := NetIndex.CidrPos(Ncidr(k));
            CountsOk(counts[p := counts[p] - 1], m - {k}, exact)
  {
    var p := NetIndex.CidrPos(Ncidr(k));
    forall c | NetIndex.IsNcidr(c)
      ensures NetCount(m - {k}, c) == NetCount(m, c) - if Ncidr(k) == c then 1 else 0
    {
      NetCountDrop(m, k, c);
    }
    assert counts[p] >= NetCount(m, Ncidr(k));
  }

  lemma CountsShrink(counts: seq<int>, m: map<Key, Entry>, m': map<Key, Entry>, exact: bool)
    requires CountsOk(counts, m, exact) && m'.Keys <= m.Keys && (exact ==> m'.Keys == m.Keys)
    ensures CountsOk(counts, m', exact)
  {
    forall c | NetIndex.IsNcidr(c)
      ensures NetCount(m', c) <= NetCount(m, c) && (exact ==> NetCount(m', c) == NetCount(m, c))
    {
      NetCountMono(m', m, c);
      if exact {
        NetCountMono(m, m', c);
      }
    }
  }

  /** A stored element's prefix length has a positive count, so the index lists it. */
  lemma CountPositive(counts: seq<int>, m: map<Key, Entry>, k: Key, exact: bool)
    requires CountsOk(counts, m, exact) && k in m && KeyOk(k)
    ensures counts[NetIndex.CidrPos(Ncidr(k))] > 0
  {
    CountsDrop(counts, m, k, exact);
  }

  // ---------- Expiry ----------

  /** Elements other than expired ones of bucket i are untouched. */
  ghost predicate PartlySwept(m: map<Key, Entry>, m': map<Key, Entry>, t: Table, i: int, wt: bool, now: int) {
    && (forall k :: k in m' ==> k in m && m'[k] == m[k])
    && (forall k :: k in m && k !in m' ==> Home(t, k) == i && Dead(wt, m[k], now))
  }

  /** State of the expiry loop of mtype_gc_do: slots below j are swept, d of them are unused. */
  ghost predicate Swept(m: map<Key, Entry>, m': map<Key, Entry>, t: Table, max: nat, i: int, j: int, d: int, pos: int,
                        wt: bool, now: int)
  {
    && 0 <= i < |t.b| && t.b[i].Some? && BucketOk(t.b[i].value, max)
    && var b := t.b[i].value;
    && 0 <= j <= pos == b.pos && d == j - UsedCount(b.used, j)
    && PartlySwept(m, m', t, i, wt, now)
    && forall x :: x < j && Used(b, x) ==> !Dead(wt, b.value[x], now)
  }

  lemma SweepStart(t: Table, max: nat, i: int, wt: bool, now: int)
    requires TableOk(t, max) && 0 <= i < |t.b| && t.b[i].Some?
    ensures Swept(Stored(t, max), Stored(t, max), t, max, i, 0, 0, t.b[i].value.pos, wt, now)
  {
    ShapeOf(t, max, i);
  }

  lemma SweepDead(m: map<Key, Entry>, t: Table, max: nat, i: int, j: int, d: int, pos: int, wt: bool, now: int)
    requires TableOk(t, max) && Swept(m, Stored(t, max), t, max, i, j, d, pos, wt, now)
    requires UsedAt(t, i, j) && Dead(wt, t.b[i].value.value[j], now)
    ensures var b := t.b[i].value;
            Swept(m, Stored(t, max) - {KeyAt(t, i, j)}, With(t, i, Some(Cleared(b, j))), max, i, j + 1, d + 1, pos, wt, now)
  {
    var b := t.b[i].value;
    UsedIsStored(t, max, i, j);
    UsedCountPrefix(b.used, Cleared(b, j).used, j);
    BucketClear(b, max, j, KeyAt(t, i, j), Cleared(b, j));
    assert forall k :: Home(With(t, i, Some(Cleared(b, j))), k) == Home(t, k);
  }

  lemma SweptAll(m: map<Key, Entry>, t: Table, max: nat, i: int, wt: bool, now: int)
    requires TableOk(t, max) && 0 <= i < |t.b| && t.b[i].Some?
    requires PartlySwept(m, Stored(t, max), t, i, wt, now)
    requires forall j :: Used(t.b[i].value, j) ==> !Dead(wt, t.b[i].value.value[j], now)
    ensures Stored(t, max) == Purge(m, t.hash, t.bits, i, i + 1, wt, now)
  {
    forall k | k in Stored(t, max) && Home(t, k) == i
      ensures !Dead(wt, Stored(t, max)[k], now)
    {
      var j := StoredIsUsed(t, max, k);
    }
  }

  lemma EmptyPurge(t: Table, max: nat, i: int, wt: bool, now: int)
    requires TableOk(t, max) && 0 <= i < |t.b| && t.b[i].None?
    ensures Stored(t, max) == Purge(Stored(t, max), t.hash, t.bits, i, i + 1, wt, now)
  {
    forall k | k in Stored(t, max)
      ensures Home(t, k) != i
    {
      var j := StoredIsUsed(t, max, k);
    }
  }
}
