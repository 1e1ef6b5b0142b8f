/**
 Values of the generic hash set: elements, array buckets with holes, and the table they form,
 with the finite map of stored elements that a table stands for.
 */
module HashModel {
  import opened Options
  import opened Pfxlen

  /**
   An hash:ip,port,net IPv4 element with its nomatch flag stripped: what data_equal compares and
   what the hash reads.  The prefix length of ip2 is stored packed, as length minus one.
   */
  datatype Key = Key(ip: int, ip2: int, port: int, proto: int, cidr: int)

  /** Extensions: the expiry time (0: permanent) and everything else as opaque data. */
  datatype Ext = Ext(timeout: int, data: int)

  datatype Entry = Entry(key: Key, nomatch: bool, ext: Ext)

  const ZERO_KEY: Key := Key(0, 0, 0, 0, 0)
  const ZERO_ENTRY: Entry := Entry(ZERO_KEY, false, Ext(0, 0))

  /** DCIDR_GET: the prefix length of an element. */
  function Prefix(k: Key): (p: int) {
    k.cidr + 1
  }

  /** NCIDR_PUT(DCIDR_GET): the value under which the prefix index lists an element. */
  function Ncidr(k: Key): (c: int) {
    Prefix(k) + 1
  }

  /** What the callers of the generic functions guarantee: a prefix of length 1..32, masked. */
  ghost predicate KeyOk(k: Key) {
    && IsAddr(k.ip) && IsAddr(k.ip2) && 0 <= k.port < 0x1_0000 && 0 <= k.proto < 256
    && 0 <= k.cidr < HOST_MASK && Aligned(k.ip2, Prefix(k))
  }

  /** SET_ELEM_EXPIRED. */
  predicate Dead(withTimeout: bool, e: Entry, now: int) {
    withTimeout && e.ext.timeout != 0 && e.ext.timeout < now
  }

  ghost function LiveOf(m: map<Key, Entry>, withTimeout: bool, now: int): map<Key, Entry> {
    map k | k in m && !Dead(withTimeout, m[k], now) :: m[k]
  }

  // ---------- Buckets ----------

  const AHASH_INIT_SIZE: nat := 2
  const AHASH_MAX_SIZE: nat := 12
  const AHASH_MAX_TUNED: nat := 64

  datatype Bucket = Bucket(size: nat, pos: nat, used: seq<bool>, value: seq<Entry>)

  ghost predicate Used(b: Bucket, j: int) {
    0 <= j < b.pos && j < |b.used| && j < |b.value| && b.used[j]
  }

  ghost predicate Hit(b: Bucket, j: int, k: Key) {
    Used(b, j) && b.value[j].key == k
  }

  /** pos <= size <= bucketsize <= 64, size even, no used bit at or past pos. */
  ghost predicate BucketShape(b: Bucket, max: nat) {
    && b.pos <= b.size <= max <= AHASH_MAX_TUNED && b.size % 2 == 0
    && |b.used| == AHASH_MAX_TUNED && |b.value| == b.size
    && forall j :: b.pos <= j < AHASH_MAX_TUNED ==> !b.used[j]
  }

  ghost predicate UniqueKeys(b: Bucket) {
    forall i, j :: Used(b, i) && Used(b, j) && i != j ==> b.value[i].key != b.value[j].key
  }

  ghost predicate BucketOk(b: Bucket, max: nat) {
    BucketShape(b, max) && UniqueKeys(b)
  }

  /** The entry found among the first n slots. */
  ghost function FindIn(b: Bucket, n: int, k: Key): Option<Entry> {
    if exists j :: j < n && Hit(b, j, k) then
      var j :| j < n && Hit(b, j, k);
      Some(b.value[j])
    else None
  }

  ghost function Find(b: Option<Bucket>, k: Key): Option<Entry> {
    if b.None? then None else FindIn(b.value, b.value.pos, k)
  }

  lemma FindHit(b: Bucket, n: int, j: int, k: Key)
    requires UniqueKeys(b) && Hit(b, j, k) && j < n
    ensures FindIn(b, n, k) == Some(b.value[j])
  {
  }

  lemma FindStep(b: Bucket, j: int, k: Key)
    requires UniqueKeys(b)
    ensures FindIn(b, j + 1, k) == if Hit(b, j, k) then Some(b.value[j]) else FindIn(b, j, k)
  {
    if Hit(b, j, k) {
      FindHit(b, j + 1, j, k);
    } else if exists i :: i < j && Hit(b, i, k) {
      var i :| i < j && Hit(b, i, k);
      FindHit(b, j, i, k);
      FindHit(b, j + 1, i, k);
    }
  }

  /** Filling a free slot below pos. */
  lemma BucketPut(b: Bucket, max: nat, j: int, e: Entry, b': Bucket)
    requires BucketOk(b, max) && 0 <= j < b.pos && !b.used[j]
    requires FindIn(b, b.pos, e.key).None?
    requires b' == b.(used := b.used[j := true], value := b.value[j := e])
    ensures BucketOk(b', max)
    ensures forall x :: Find(Some(b'), x) == if x == e.key then Some(e) else Find(Some(b), x)
    ensures forall i :: Used(b', i) ==> b'.value[i] == e || (Used(b, i) && b'.value[i] == b.value[i])
  {
    assert UniqueKeys(b') by {
      forall i | Used(b, i)
        ensures b.value[i].key != e.key
      {
        assert Hit(b, i, b.value[i].key);
      }
    }
    forall x
      ensures FindIn(b', b.pos, x) == if x == e.key then Some(e) else FindIn(b, b.pos, x)
    {
      if x == e.key {
        FindHit(b', b.pos, j, x);
      } else if i :| i < b.pos && Hit(b, i, x) {
        FindHit(b, b.pos, i, x);
        FindHit(b', b.pos, i, x);
      } else {
        assert forall i :: Hit(b', i, x) ==> Hit(b, i, x);
      }
    }
  }

  /** Clearing a used bit. */
  lemma BucketClear(b: Bucket, max: nat, j: int, k: Key, b': Bucket)
    requires BucketOk(b, max) && Hit(b, j, k)
    requires b' == b.(used := b.used[j := false])
    ensures BucketOk(b', max)
    ensures forall x :: Find(Some(b'), x) == if x == k then None else Find(Some(b), x)
    ensures forall i :: Used(b', i) ==> Used(b, i)
  {
    forall x
      ensures FindIn(b', b.pos, x) == if x == k then None else FindIn(b, b.pos, x)
    {
      if x == k {
        assert forall i :: Hit(b', i, x) ==> Hit(b, i, x);
      } else if i :| i < b.pos && Hit(b, i, x) {
        FindHit(b, b.pos, i, x);
        FindHit(b', b.pos, i, x);
      } else {
        assert forall i :: Hit(b', i, x) ==> Hit(b, i, x);
      }
    }
  }

  /** Overwriting flags and extensions of the entry in slot j. */
  lemma BucketOverwrite(b: Bucket, max: nat, j: int, e: Entry, b': Bucket)
    requires BucketOk(b, max) && Hit(b, j, e.key)
    requires b' == b.(value := b.value[j := e])
    ensures BucketOk(b', max)
    ensures forall x :: Find(Some(b'), x) == if x == e.key then Some(e) else Find(Some(b), x)
    ensures forall i :: Used(b', i) ==> Used(b, i) && b'.value[i].key == b.value[i].key
  {
    forall x
      ensures FindIn(b', b.pos, x) == if x == e.key then Some(e) else FindIn(b, b.pos, x)
    {
      if x == e.key {
        FindHit(b', b.pos, j, x);
      } else if i :| i < b.pos && Hit(b, i, x) {
        FindHit(b, b.pos, i, x);
        FindHit(b', b.pos, i, x);
      } else {
        assert forall i :: Hit(b', i, x) ==> Hit(b, i, x);
      }
    }
  }

  /** Growing the array or moving pos over free slots does not change what is found. */
  lemma BucketRelayout(b: Bucket, max: nat, b': Bucket)
    requires BucketOk(b, max) && BucketShape(b', max)
    requires b'.used == b.used
    requires forall j :: Used(b, j) ==> j < b'.pos && b'.value[j] == b.value[j]
    ensures BucketOk(b', max)
    ensures forall x :: Find(Some(b'), x) == Find(Some(b), x)
    ensures forall j :: Used(b', j) <==> Used(b, j)
  {
    forall x
      ensures FindIn(b', b'.pos, x) == FindIn(b, b.pos, x)
    {
      if i :| i < b.pos && Hit(b, i, x) {
        FindHit(b, b.pos, i, x);
        FindHit(b', b'.pos, i, x);
      } else {
        assert forall i :: Hit(b', i, x) ==> Hit(b, i, x);
      }
    }
  }

  // ---------- Tables ----------

  const HTABLE_REGION_BITS: nat := 10
  /** The largest table that can be allocated has 2^MAX_BITS buckets. */
  const MAX_BITS: nat := 27

  /** ahash_numof_locks. */
  function NumLocks(bits: nat): (l: nat)
    ensures l > 0
  {
    if bits < HTABLE_REGION_BITS then 1 else Pow2(bits - HTABLE_REGION_BITS)
  }

  /** ahash_bucket_start. */
  function RegionStart(r: nat, bits: nat): nat {
    if bits < HTABLE_REGION_BITS then 0 else r * Pow2(HTABLE_REGION_BITS)
  }

  /** ahash_bucket_end. */
  function RegionEnd(r: nat, bits: nat): nat {
    if bits < HTABLE_REGION_BITS then Pow2(bits) else (r + 1) * Pow2(HTABLE_REGION_BITS)
  }

  lemma RegionInTable(r: nat, bits: nat)
    requires r < NumLocks(bits)
    ensures RegionStart(r, bits) <= RegionEnd(r, bits) <= Pow2(bits)
  {
    if bits >= HTABLE_REGION_BITS {
      Pow2Add(bits - HTABLE_REGION_BITS, HTABLE_REGION_BITS);
      MulMono(r + 1, NumLocks(bits), Pow2(HTABLE_REGION_BITS));
      MulMono(r, r + 1, Pow2(HTABLE_REGION_BITS));
    }
  }

  /** Successive regions abut, from the first bucket to the last. */
  lemma RegionsAbut(r: nat, bits: nat)
    requires r < NumLocks(bits)
    ensures RegionStart(0, bits) == 0
    ensures r + 1 < NumLocks(bits) ==> RegionStart(r + 1, bits) == RegionEnd(r, bits)
    ensures r + 1 == NumLocks(bits) ==> RegionEnd(r, bits) == Pow2(bits)
  {
    if bits >= HTABLE_REGION_BITS {
      Pow2Add(bits - HTABLE_REGION_BITS, HTABLE_REGION_BITS);
    }
  }

  /** The contiguous ranges of the regions cover every bucket exactly once. */
  lemma RegionsPartition(i: nat, bits: nat, r: nat)
    requires i < Pow2(bits) && r < NumLocks(bits)
    ensures i / Pow2(HTABLE_REGION_BITS) < NumLocks(bits)
    ensures RegionStart(r, bits) <= i < RegionEnd(r, bits) <==> r == i / Pow2(HTABLE_REGION_BITS)
  {
    var w := Pow2(HTABLE_REGION_BITS);
    Pow2Values();
    if bits < HTABLE_REGION_BITS {
      Pow2Mono(bits, HTABLE_REGION_BITS);
    } else {
      Pow2Add(bits - HTABLE_REGION_BITS, HTABLE_REGION_BITS);
      assert Pow2(bits) == NumLocks(bits) * 1024;
    }
  }

  datatype Table = Table(hash: Key -> nat, bits: nat, b: seq<Option<Bucket>>)

  /** HKEY: the bucket an element belongs to; the hash never sees the nomatch flag. */
  ghost function Home(t: Table, k: Key): nat {
    t.hash(k) % Pow2(t.bits)
  }

  ghost predicate Placed(t: Table, i: int, b: Bucket) {
    forall j :: Used(b, j) ==> KeyOk(b.value[j].key) && Home(t, b.value[j].key) == i
  }

  ghost predicate SlotOk(t: Table, i: int, b: Option<Bucket>, max: nat) {
    b.Some? ==> BucketOk(b.value, max) && Placed(t, i, b.value)
  }

  /** Every bucket is well shaped, without duplicates, and holds only elements that hash to it. */
  ghost predicate TableOk(t: Table, max: nat) {
    |t.b| == Pow2(t.bits) && forall i :: 0 <= i < |t.b| ==> SlotOk(t, i, t.b[i], max)
  }

  ghost function Look(t: Table, k: Key): Option<Entry>
    requires |t.b| == Pow2(t.bits)
  {
    Find(t.b[Home(t, k)], k)
  }

  ghost predicate UsedAt(t: Table, i: int, j: int) {
    0 <= i < |t.b| && t.b[i].Some? && Used(t.b[i].value, j)
  }

  ghost function KeyAt(t: Table, i: int, j: int): Key
    requires UsedAt(t, i, j)
  {
    t.b[i].value.value[j].key
  }

  /** The positions of all used slots. */
  ghost function UsedSlots(t: Table): set<(int, int)> {
    set i, j | 0 <= i < |t.b| && 0 <= j < AHASH_MAX_TUNED && UsedAt(t, i, j) :: (i, j)
  }

  ghost function Keys(t: Table): set<Key> {
    set i, j | 0 <= i < |t.b| && 0 <= j < AHASH_MAX_TUNED && UsedAt(t, i, j) :: KeyAt(t, i, j)
  }

  lemma KeysLook(t: Table, max: nat)
    requires TableOk(t, max)
    ensures forall k :: k in Keys(t) <==> Look(t, k).Some?
    ensures forall k :: Look(t, k).Some? ==> Look(t, k).value.key == k && KeyOk(k)
  {
    forall k
      ensures k in Keys(t) <==> Look(t, k).Some?
      ensures Look(t, k).Some? ==> Look(t, k).value.key == k && KeyOk(k)
    {
      var i := Home(t, k);
      assert SlotOk(t, i, t.b[i], max);
      if k in Keys(t) {
        var i', j :| 0 <= i' < |t.b| && 0 <= j < AHASH_MAX_TUNED && UsedAt(t, i', j) && KeyAt(t, i', j) == k;
        assert SlotOk(t, i', t.b[i'], max);
        FindHit(t.b[i].value, t.b[i].value.pos, j, k);
      }
      if Look(t, k).Some? {
        var b := t.b[i].value;
        var j :| j < b.pos && Hit(b, j, k);
        FindHit(b, b.pos, j, k);
        assert UsedAt(t, i, j) && KeyAt(t, i, j) == k;
      }
    }
  }

  /** The finite map of stored elements (live or expired) that a table stands for. */
  ghost function Stored(t: Table, max: nat): (m: map<Key, Entry>)
    requires TableOk(t, max)
    ensures forall k :: k in m <==> Look(t, k).Some?
    ensures forall k :: k in m ==> m[k] == Look(t, k).value && m[k].key == k && KeyOk(k)
  {
    KeysLook(t, max);
    map k | k in Keys(t) :: Look(t, k).value
  }

  /** Replacing one bucket. */
  lemma ReplaceBucket(t: Table, max: nat, i: int, nb: Option<Bucket>, t': Table)
    requires TableOk(t, max) && 0 <= i < |t.b| && SlotOk(t, i, nb, max)
    requires t' == t.(b := t.b[i := nb])
    ensures TableOk(t', max)
    ensures forall k :: Look(t', k) == if Home(t, k) == i then Find(nb, k) else Look(t, k)
  {
    forall x | 0 <= x < |t'.b|
      ensures SlotOk(t', x, t'.b[x], max)
    {
      assert SlotOk(t, x, t.b[x], max);
    }
  }

  lemma StoredPut(t: Table, max: nat, i: int, nb: Option<Bucket>, t': Table, e: Entry)
    requires TableOk(t, max) && 0 <= i < |t.b| && SlotOk(t, i, nb, max)
    requires t' == t.(b := t.b[i := nb]) && Home(t, e.key) == i
    requires forall x :: Find(nb, x) == if x == e.key then Some(e) else Find(t.b[i], x)
    ensures TableOk(t', max) && Stored(t', max) == Stored(t, max)[e.key := e]
  {
    hide TableOk, SlotOk, Find, KeyOk;
    ReplaceBucket(t, max, i, nb, t');
  }

  lemma StoredDrop(t: Table, max: nat, i: int, nb: Option<Bucket>, t': Table, k: Key)
    requires TableOk(t, max) && 0 <= i < |t.b| && SlotOk(t, i, nb, max)
    requires t' == t.(b := t.b[i := nb]) && Home(t, k) == i
    requires forall x :: Find(nb, x) == if x == k then None else Find(t.b[i], x)
    ensures TableOk(t', max) && Stored(t', max) == Stored(t, max) - {k}
  {
    hide TableOk, SlotOk, Find, KeyOk;
    ReplaceBucket(t, max, i, nb, t');
  }

  lemma StoredSame(t: Table, max: nat, i: int, nb: Option<Bucket>, t': Table)
    requires TableOk(t, max) && 0 <= i < |t.b| && SlotOk(t, i, nb, max)
    requires t' == t.(b := t.b[i := nb])
    requires forall x :: Find(nb, x) == Find(t.b[i], x)
    ensures TableOk(t', max) && Stored(t', max) == Stored(t, max)
  {
    hide TableOk, SlotOk, Find, KeyOk;
    ReplaceBucket(t, max, i, nb, t');
  }

  /** Uniqueness makes the number of used slots the number of stored elements. */
  lemma SlotCount(t: Table, max: nat)
    requires TableOk(t, max)
    ensures |UsedSlots(t)| == |Stored(t, max)|
  {
    KeysLook(t, max);
    assert Stored(t, max).Keys == Keys(t);
    SlotsToKeys(t, max, UsedSlots(t), Keys(t));
  }

  lemma {:induction false} SlotsToKeys(t: Table, max: nat, slots: set<(int, int)>, keys: set<Key>)
    requires TableOk(t, max)
    requires forall s :: s in slots ==> UsedAt(t, s.0, s.1) && KeyAt(t, s.0, s.1) in keys
    requires forall k :: k in keys ==> exists s :: s in slots && UsedAt(t, s.0, s.1) && KeyAt(t, s.0, s.1) == k
    ensures |slots| == |keys|
    decreases |slots|
  {
    if slots != {} {
      var s :| s in slots;
      var k := KeyAt(t, s.0, s.1);
      forall o | o in slots && o != s
        ensures KeyAt(t, o.0, o.1) != k
      {
        assert SlotOk(t, s.0, t.b[s.0], max) && SlotOk(t, o.0, t.b[o.0], max);
      }
      SlotsToKeys(t, max, slots - {s}, keys - {k});
    } else {
      assert keys == {};
    }
  }

  // ---------- A table holds far fewer than 2^32 elements ----------

  /** The first m slots of bucket i. */
  ghost function Row(i: int, m: nat): (s: set<(int, int)>)
    ensures forall p :: p in s <==> p.0 == i && 0 <= p.1 < m
    ensures |s| <= m
  {
    if m == 0 then {} else Row(i, m - 1) + {(i, m - 1)}
  }

  /** The first m slots of the first n buckets. */
  ghost function Grid(n: nat, m: nat): (s: set<(int, int)>)
    ensures forall p :: p in s <==> 0 <= p.0 < n && 0 <= p.1 < m
    ensures |s| <= n * m
  {
    if n == 0 then {}
    else
      assert n * m == (n - 1) * m + m;
      Grid(n - 1, m) + Row(n - 1, m)
  }

  /** No more elements than slots. */
  lemma StoredBound(t: Table, max: nat)
    requires TableOk(t, max)
    ensures |Stored(t, max)| <= |t.b| * max
  {
    SlotCount(t, max);
    forall p | p in UsedSlots(t)
      ensures p in Grid(|t.b|, max)
    {
      assert SlotOk(t, p.0, t.b[p.0], max);
    }
    SubsetSize(UsedSlots(t), Grid(|t.b|, max));
  }

  /** Of the tables that can exist none comes near 2^32 elements. */
  lemma StoredSmall(t: Table, max: nat)
    requires TableOk(t, max) && t.bits <= MAX_BITS && max <= AHASH_MAX_SIZE
    ensures |Stored(t, max)| < HALF
  {
    StoredBound(t, max);
    Pow2Mono(t.bits, MAX_BITS);
    Pow2Values();
    assert Pow2(31) == 2 * Pow2(30) && Pow2(30) == 2 * Pow2(29) && Pow2(29) == 2 * Pow2(28) && Pow2(28) == 2 * Pow2(27);
    MulMono(|t.b|, Pow2(MAX_BITS), max);
    MulMono(max, AHASH_MAX_SIZE, Pow2(MAX_BITS));
  }

  // ---------- Counting ----------

  /** Stored elements listed under prefix value c. */
  ghost function NetCount(m: map<Key, Entry>, c: int): nat {
    |set k | k in m.Keys && Ncidr(k) == c|
  }

  lemma NetCountPut(m: map<Key, Entry>, e: Entry, c: int)
    ensures NetCount(m[e.key := e], c)
            == NetCount(m, c) + if e.key !in m && Ncidr(e.key) == c then 1 else 0
  {
    var s := set k | k in m.Keys && Ncidr(k) == c;
    var s' := set k | k in m[e.key := e].Keys && Ncidr(k) == c;
    assert s' == if Ncidr(e.key) == c then s + {e.key} else s;
  }

  lemma NetCountDrop(m: map<Key, Entry>, k: Key, c: int)
    requires k in m
    ensures NetCount(m - {k}, c) == NetCount(m, c) - if Ncidr(k) == c then 1 else 0
  {
    var s := set x | x in m.Keys && Ncidr(x) == c;
    var s' := set x | x in (m - {k}).Keys && Ncidr(x) == c;
    assert s' == s - {k};
  }

  lemma NetCountMono(m: map<Key, Entry>, m': map<Key, Entry>, c: int)
    requires m.Keys <= m'.Keys
    ensures NetCount(m, c) <= NetCount(m', c)
  {
    var s := set k | k in m.Keys && Ncidr(k) == c;
    var s' := set k | k in m'.Keys && Ncidr(k) == c;
    SubsetSize(s, s');
  }

  lemma SubsetSize<T>(a: set<T>, b: set<T>)
    requires a <= b
    ensures |a| <= |b|
  {
    assert b == a + (b - a);
  }

  ghost function Sum(s: seq<int>): int {
    if s == [] then 0 else s[0] + Sum(s[1..])
  }

  lemma {:induction false} SumUpdate(s: seq<int>, i: int, v: int)
    requires 0 <= i < |s|
    ensures Sum(s[i := v]) == Sum(s) - s[i] + v
  {
    if i == 0 {
      assert s[i := v][1..] == s[1..];
    } else {
      SumUpdate(s[1..], i - 1, v);
      assert s[i := v][1..] == s[1..][i - 1 := v];
    }
  }

  lemma {:induction false} SumSnoc(s: seq<int>, v: int)
    ensures Sum(s + [v]) == Sum(s) + v
  {
    if s != [] {
      SumSnoc(s[1..], v);
      assert (s + [v])[1..] == s[1..] + [v];
    }
  }

  /** Adding in 32 bits as one goes is adding and reducing at the end. */
  lemma SumMod(s: seq<int>, v: int)
    ensures (Sum(s) % U32 + v) % U32 == Sum(s + [v]) % U32
  {
    SumSnoc(s, v);
  }

  lemma {:induction false} SumZero(s: seq<int>)
    requires forall i :: 0 <= i < |s| ==> s[i] == 0
    ensures Sum(s) == 0
  {
    if s != [] {
      SumZero(s[1..]);
    }
  }

  /** The 32-bit region counters add up, modulo 2^32, to the number of stored elements. */
  ghost predicate Conserved(regions: seq<int>, n: int) {
    (forall r :: 0 <= r < |regions| ==> 0 <= regions[r] < U32) && (Sum(regions) - n) % U32 == 0
  }

  lemma ConservedTotal(regions: seq<int>, n: int)
    requires Conserved(regions, n)
    ensures Sum(regions) % U32 == n % U32
  {
  }

  lemma ConservedStep(regions: seq<int>, r: int, n: int, d: int)
    requires Conserved(regions, n) && 0 <= r < |regions| && -1 <= d <= 1
    ensures Conserved(regions[r := (regions[r] + d) % U32], n + d)
  {
    SumUpdate(regions, r, (regions[r] + d) % U32);
  }
}
