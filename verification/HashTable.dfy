/**
 The hash table proper: bucket objects changed in place, a bucket array that publishes them, and
 the per-region element counters.  `Contents` is the map of elements a table stores.
 */
module HashTable {
  import opened Options
  import opened Pfxlen
  import opened HashModel

  // ---------- Table sizes ----------

  const INT_MAX: nat := 0x7FFF_FFFF
  /** sizeof(struct htable) and sizeof(struct hbucket *) on a 64-bit machine. */
  const HTABLE_SIZE: nat := 24
  const PTR_SIZE: nat := 8

  /** htable_size: 0 when the table would be too large to allocate. */
  function HtableSize(hbits: nat): nat {
    if hbits > 31 then 0
    else if (INT_MAX - HTABLE_SIZE) / PTR_SIZE < Pow2(hbits) then 0
    else Pow2(hbits) * PTR_SIZE + HTABLE_SIZE
  }

  /** Table sizes are bounded, which is what makes the retry loop of mtype_resize terminate. */
  lemma HtableSizeBound(hbits: nat)
    ensures HtableSize(hbits) != 0 <==> hbits <= MAX_BITS
  {
    Pow2Values();
    assert Pow2(31) == 2 * Pow2(30) && Pow2(30) == 2 * Pow2(29) && Pow2(29) == 2 * Pow2(28);
    assert Pow2(28) == 2 * Pow2(27);
    if hbits <= MAX_BITS {
      Pow2Mono(hbits, MAX_BITS);
    } else {
      Pow2Mono(MAX_BITS + 1, hbits);
    }
  }

  /** fls(): the position of the highest bit, counted from 1. */
  function Fls(x: nat): (n: nat)
    ensures x < Pow2(n) && (n > 0 ==> Pow2(n - 1) <= x)
  {
    if x == 0 then 0 else Fls(x / 2) + 1
  }

  const DEFAULT_HASHSIZE: nat := 1024
  const MINIMAL_HASHSIZE: nat := 64

  /** The table size create chooses, as a power of two: the least one that is enough. */
  function Hbits(hashsize: Option<nat>): (h: nat)
    ensures var wanted := if hashsize.Some? then hashsize.value else DEFAULT_HASHSIZE;
            wanted <= Pow2(h) && (wanted > MINIMAL_HASHSIZE ==> h > 0 && Pow2(h - 1) < wanted)
  {
    var wanted := match hashsize
      case None => DEFAULT_HASHSIZE
      case Some(n) => if n < MINIMAL_HASHSIZE then MINIMAL_HASHSIZE else n;
    Fls(wanted - 1)
  }

  // ---------- Used slots ----------

  /** Number of used slots among the first n. */
  ghost function UsedCount(used: seq<bool>, n: nat): (c: nat)
    requires n <= |used|
    ensures c <= n
  {
    if n == 0 then 0 else UsedCount(used, n - 1) + if used[n - 1] then 1 else 0
  }

  lemma {:induction false} UsedCountPrefix(a: seq<bool>, b: seq<bool>, n: nat)
    requires n <= |a| && n <= |b| && a[..n] == b[..n]
    ensures UsedCount(a, n) == UsedCount(b, n)
  {
    if n > 0 {
      assert a[..n - 1] == a[..n][..n - 1] && b[..n - 1] == b[..n][..n - 1];
      assert a[n - 1] == a[..n][n - 1] && b[n - 1] == b[..n][n - 1];
      UsedCountPrefix(a, b, n - 1);
    }
  }

  lemma {:induction false} UsedCountZero(used: seq<bool>, n: nat, j: nat)
    requires n <= |used| && UsedCount(used, n) == 0 && j < n
    ensures !used[j]
  {
    if j < n - 1 {
      UsedCountZero(used, n - 1, j);
    }
  }

  lemma {:induction false} AllUsed(used: seq<bool>, n: nat)
    requires n <= |used| && forall j :: 0 <= j < n ==> used[j]
    ensures UsedCount(used, n) == n
  {
    if n > 0 {
      AllUsed(used, n - 1);
    }
  }

  lemma {:induction false} UsedCountMono(used: seq<bool>, m: nat, n: nat)
    requires m <= n <= |used|
    ensures UsedCount(used, m) <= UsedCount(used, n)
    decreases n - m
  {
    if m < n {
      UsedCountMono(used, m, n - 1);
    }
  }

  /** Appending an element at pos, as copying into a compacted or rehashed bucket does. */
  lemma BucketAppend(b: Bucket, max: nat, e: Entry, b': Bucket)
    requires BucketOk(b, max) && b.pos < b.size && FindIn(b, b.pos, e.key).None?
    requires b' == b.(pos := b.pos + 1, used := b.used[b.pos := true], value := b.value[b.pos := e])
    ensures BucketOk(b', max)
    ensures forall x :: Find(Some(b'), x) == if x == e.key then Some(e) else Find(Some(b), x)
    ensures forall i :: Used(b', i) ==> b'.value[i] == e || (Used(b, i) && b'.value[i] == b.value[i])
  {
    var wider := b.(pos := b.pos + 1);
    BucketRelayout(b, max, wider);
    assert Find(Some(b), e.key).None? && Find(Some(wider), e.key).None?;
    BucketPut(wider, max, b.pos, e, b');
  }

  function EmptyBucket(n: nat): Bucket {
    Bucket(n, 0, seq(AHASH_MAX_TUNED, _ => false), seq(n, _ => ZERO_ENTRY))
  }

  lemma EmptyBucketOk(n: nat, max: nat)
    requires n <= max <= AHASH_MAX_TUNED && n % 2 == 0
    ensures BucketOk(EmptyBucket(n), max)
    ensures forall j :: !Used(EmptyBucket(n), j)
  {
  }

  // ---------- The four table updates, as values ----------

  /** Bucket i of the table becomes b. */
  ghost function With(t: Table, i: int, b: Option<Bucket>): Table
    requires 0 <= i < |t.b|
  {
    t.(b := t.b[i := b])
  }

  /** One region counter changed by d, in 32 bits. */
  ghost function Bump(regions: seq<int>, r: int, d: int): seq<int>
    requires 0 <= r < |regions|
  {
    regions[r := (regions[r] + d) % U32]
  }

  function Cleared(b: Bucket, j: int): Bucket
    requires 0 <= j < |b.used|
  {
    b.(used := b.used[j := false])
  }

  function Overwritten(b: Bucket, j: int, e: Entry): Bucket
    requires 0 <= j < |b.value|
  {
    b.(value := b.value[j := e])
  }

  function Lowered(b: Bucket): Bucket
    requires b.pos > 0
  {
    b.(pos := b.pos - 1)
  }

  lemma ClearTable(t: Table, max: nat, i: int, j: int, b': Bucket)
    requires TableOk(t, max) && UsedAt(t, i, j)
    requires b' == Cleared(t.b[i].value, j)
    ensures TableOk(With(t, i, Some(b')), max)
    ensures KeyAt(t, i, j) in Stored(t, max)
    ensures Stored(With(t, i, Some(b')), max) == Stored(t, max) - {KeyAt(t, i, j)}
  {
    var k, b := KeyAt(t, i, j), t.b[i].value;
    assert SlotOk(t, i, t.b[i], max);
    FindHit(b, b.pos, j, k);
    assert Look(t, k).Some?;
    BucketClear(b, max, j, k, b');
    StoredDrop(t, max, i, Some(b'), With(t, i, Some(b')), k);
  }

  /** Bucket n stores what bucket i of the table stores, and has free slot j below pos. */
  ghost predicate Receives(t: Table, max: nat, i: int, n: Bucket, j: int)
    requires |t.b| == Pow2(t.bits)
  {
    && 0 <= i < |t.b| && SlotOk(t, i, Some(n), max) && 0 <= j < n.pos && !n.used[j]
    && forall x :: Find(Some(n), x) == Find(t.b[i], x)
  }

  /** A bucket whose array has room for one more element at pos, grown first if it is full. */
  function Opened(b: Bucket): (b': Bucket)
    ensures b'.pos == b.pos + 1
  {
    if b.pos >= b.size then
      b.(size := b.size + AHASH_INIT_SIZE, pos := b.pos + 1, value := b.value + [ZERO_ENTRY, ZERO_ENTRY])
    else b.(pos := b.pos + 1)
  }

  lemma OpenedReceives(t: Table, max: nat, i: int)
    requires TableOk(t, max) && 0 <= i < |t.b| && t.b[i].Some?
    requires var b := t.b[i].value; b.pos < b.size || b.size + AHASH_INIT_SIZE <= max
    ensures var b' := Opened(t.b[i].value);
            b'.pos <= |b'.used| && b'.pos <= |b'.value| && Receives(t, max, i, b', b'.pos - 1)
  {
    var b := t.b[i].value;
    assert SlotOk(t, i, t.b[i], max);
    BucketRelayout(b, max, Opened(b));
    assert forall j :: Used(Opened(b), j) ==> Used(b, j) && Opened(b).value[j] == b.value[j];
  }

  lemma OpenedNoHoles(t: Table, max: nat, i: int, e: Entry)
    requires TableOk(t, max) && NoHoles(t) && 0 <= i < |t.b|
    requires t.b[i].Some? ==> t.b[i].value.pos < AHASH_MAX_TUNED
    ensures var b := Opened(if t.b[i].Some? then t.b[i].value else EmptyBucket(AHASH_INIT_SIZE));
            b.pos <= |b.used| && b.pos <= |b.value| && NoHoles(With(t, i, Some(Filled(b, b.pos - 1, e))))
  {
    if t.b[i].Some? {
      ShapeOf(t, max, i);
    }
    var b := Opened(if t.b[i].Some? then t.b[i].value else EmptyBucket(AHASH_INIT_SIZE));
    var t' := With(t, i, Some(Filled(b, b.pos - 1, e)));
    forall x, j | 0 <= x < |t'.b| && t'.b[x].Some? && 0 <= j < t'.b[x].value.pos
      ensures UsedAt(t', x, j)
    {
      if x != i || j < b.pos - 1 {
        assert UsedAt(t, x, j);
      }
    }
  }

  lemma OverwriteNoHoles(t: Table, i: int, j: int, e: Entry)
    requires NoHoles(t) && UsedAt(t, i, j)
    ensures NoHoles(With(t, i, Some(Overwritten(t.b[i].value, j, e))))
  {
    var t' := With(t, i, Some(Overwritten(t.b[i].value, j, e)));
    forall x, y | 0 <= x < |t'.b| && t'.b[x].Some? && 0 <= y < t'.b[x].value.pos
      ensures UsedAt(t', x, y)
    {
      assert UsedAt(t, x, y);
    }
  }

  lemma EmptyReceives(t: Table, max: nat, i: int)
    requires TableOk(t, max) && 0 <= i < |t.b| && t.b[i].None? && 2 <= max <= AHASH_MAX_TUNED
    ensures var b' := Opened(EmptyBucket(AHASH_INIT_SIZE));
            b'.pos <= |b'.used| && b'.pos <= |b'.value| && Receives(t, max, i, b', 0)
  {
    var b := EmptyBucket(AHASH_INIT_SIZE);
    EmptyBucketOk(AHASH_INIT_SIZE, max);
    BucketRelayout(b, max, Opened(b));
    assert forall j :: !Used(Opened(b), j);
  }

  lemma HoleReceives(t: Table, max: nat, i: int, j: int)
    requires TableOk(t, max) && 0 <= i < |t.b| && t.b[i].Some?
    requires var b := t.b[i].value; 0 <= j < b.pos && j < |b.used| && !b.used[j]
    ensures var b := t.b[i].value; b.pos <= |b.used| && b.pos <= |b.value| && Receives(t, max, i, b, j)
  {
    assert SlotOk(t, i, t.b[i], max);
  }

  function Filled(n: Bucket, j: int, e: Entry): Bucket
    requires 0 <= j < |n.used| && j < |n.value|
  {
    n.(used := n.used[j := true], value := n.value[j := e])
  }

  lemma PutTable(t: Table, max: nat, i: int, n: Bucket, j: int, e: Entry)
    requires TableOk(t, max) && Receives(t, max, i, n, j)
    requires KeyOk(e.key) && Home(t, e.key) == i && e.key !in Stored(t, max)
    ensures TableOk(With(t, i, Some(Filled(n, j, e))), max)
    ensures Stored(With(t, i, Some(Filled(n, j, e))), max) == Stored(t, max)[e.key := e]
  {
    var b' := Filled(n, j, e);
    assert Look(t, e.key).None?;
    assert Find(Some(n), e.key).None?;
    BucketPut(n, max, j, e, b');
    assert Placed(t, i, b');
    StoredPut(t, max, i, Some(b'), With(t, i, Some(b')), e);
  }

  lemma ConservedPut(regions: seq<int>, r: int, m: map<Key, Entry>, e: Entry)
    requires Conserved(regions, |m|) && 0 <= r < |regions| && e.key !in m
    ensures Conserved(Bump(regions, r, 1), |m[e.key := e]|)
  {
    assert m[e.key := e].Keys == m.Keys + {e.key};
    ConservedStep(regions, r, |m|, 1);
  }

  lemma ConservedDrop(regions: seq<int>, r: int, m: map<Key, Entry>, k: Key)
    requires Conserved(regions, |m|) && 0 <= r < |regions| && k in m
    ensures Conserved(Bump(regions, r, -1), |m - {k}|)
  {
    assert (m - {k}).Keys == m.Keys - {k};
    ConservedStep(regions, r, |m|, -1);
  }

  lemma OverwriteTable(t: Table, max: nat, i: int, j: int, e: Entry, b': Bucket)
    requires TableOk(t, max) && UsedAt(t, i, j) && KeyAt(t, i, j) == e.key
    requires b' == Overwritten(t.b[i].value, j, e)
    ensures TableOk(With(t, i, Some(b')), max)
    ensures e.key in Stored(t, max)
    ensures Stored(With(t, i, Some(b')), max) == Stored(t, max)[e.key := e]
    ensures |Stored(With(t, i, Some(b')), max)| == |Stored(t, max)|
  {
    var b, m := t.b[i].value, Stored(t, max);
    assert SlotOk(t, i, t.b[i], max);
    FindHit(b, b.pos, j, e.key);
    assert Look(t, e.key).Some?;
    BucketOverwrite(b, max, j, e, b');
    assert Placed(t, i, b');
    StoredPut(t, max, i, Some(b'), With(t, i, Some(b')), e);
    assert m[e.key := e].Keys == m.Keys;
  }

  lemma UsedIsStored(t: Table, max: nat, i: int, j: int)
    requires TableOk(t, max) && UsedAt(t, i, j)
    ensures KeyAt(t, i, j) in Stored(t, max) && Stored(t, max)[KeyAt(t, i, j)] == t.b[i].value.value[j]
    ensures Home(t, KeyAt(t, i, j)) == i && KeyOk(KeyAt(t, i, j))
  {
    var b := t.b[i].value;
    assert SlotOk(t, i, t.b[i], max);
    FindHit(b, b.pos, j, KeyAt(t, i, j));
    assert Look(t, KeyAt(t, i, j)).Some?;
  }

  lemma StoredIsUsed(t: Table, max: nat, k: Key) returns (j: int)
    requires TableOk(t, max) && k in Stored(t, max)
    ensures UsedAt(t, Home(t, k), j) && Hit(t.b[Home(t, k)].value, j, k)
    ensures t.b[Home(t, k)].value.value[j] == Stored(t, max)[k]
  {
    var i := Home(t, k);
    assert Look(t, k).Some?;
    var b := t.b[i].value;
    assert SlotOk(t, i, t.b[i], max);
    j :| j < b.pos && Hit(b, j, k);
    FindHit(b, b.pos, j, k);
  }

  /** No bucket has a hole below pos. */
  ghost predicate NoHoles(t: Table) {
    forall i, j :: 0 <= i < |t.b| && t.b[i].Some? && 0 <= j < t.b[i].value.pos ==> UsedAt(t, i, j)
  }

  lemma StoredFind(t: Table, max: nat, k: Key)
    requires TableOk(t, max)
    ensures k in Stored(t, max) <==> Find(t.b[Home(t, k)], k).Some?
    ensures k in Stored(t, max) ==> Stored(t, max)[k] == Find(t.b[Home(t, k)], k).value
  {
    assert Look(t, k) == Find(t.b[Home(t, k)], k);
  }

  lemma TableLength(t: Table, max: nat)
    requires TableOk(t, max)
    ensures |t.b| == Pow2(t.bits)
  {
  }

  lemma ShapeOf(t: Table, max: nat, i: int)
    requires TableOk(t, max) && 0 <= i < |t.b| && t.b[i].Some?
    ensures BucketOk(t.b[i].value, max)
  {
    assert SlotOk(t, i, t.b[i], max);
  }

  /** n->pos-- over a free slot. */
  lemma LowerTable(t: Table, max: nat, i: int)
    requires TableOk(t, max) && 0 <= i < |t.b| && t.b[i].Some?
    requires var b := t.b[i].value; 0 < b.pos <= |b.used| && !b.used[b.pos - 1]
    ensures var t' := With(t, i, Some(Lowered(t.b[i].value)));
            TableOk(t', max) && Stored(t', max) == Stored(t, max)
  {
    var b := t.b[i].value;
    var b' := Lowered(b);
    ShapeOf(t, max, i);
    assert Placed(t, i, b) by {
      assert SlotOk(t, i, t.b[i], max);
    }
    BucketRelayout(b, max, b');
    StoredSame(t, max, i, Some(b'), With(t, i, Some(b')));
  }

  /** Fewer holes than a compaction removes. */
  ghost predicate Dense(b: Option<Bucket>) {
    b.Some? ==> b.value.pos <= |b.value.used| && b.value.pos < UsedCount(b.value.used, b.value.pos) + AHASH_INIT_SIZE
  }

  /** Bucket b' is b with its used entries moved: the same elements, nothing else. */
  ghost predicate Repacks(b: Bucket, b': Bucket, max: nat) {
    && BucketOk(b', max)
    && (forall x :: Find(Some(b'), x) == Find(Some(b), x))
    && (forall i :: Used(b', i) ==> exists j :: Used(b, j) && b.value[j] == b'.value[i])
  }

  lemma RepackTable(t: Table, max: nat, i: int, b': Bucket)
    requires TableOk(t, max) && 0 <= i < |t.b| && t.b[i].Some? && Repacks(t.b[i].value, b', max)
    ensures TableOk(With(t, i, Some(b')), max) && Stored(With(t, i, Some(b')), max) == Stored(t, max)
  {
    assert SlotOk(t, i, t.b[i], max);
    assert SlotOk(t, i, Some(b'), max);
    StoredSame(t, max, i, Some(b'), With(t, i, Some(b')));
  }

  lemma FreeTable(t: Table, max: nat, i: int)
    requires TableOk(t, max) && 0 <= i < |t.b| && t.b[i].Some?
    requires var b := t.b[i].value; b.pos <= |b.used| && UsedCount(b.used, b.pos) == 0
    ensures TableOk(With(t, i, None), max) && Stored(With(t, i, None), max) == Stored(t, max)
  {
    var b := t.b[i].value;
    forall j
      ensures !Used(b, j)
    {
      if 0 <= j < b.pos {
        UsedCountZero(b.used, b.pos, j);
      }
    }
    StoredSame(t, max, i, None, With(t, i, None));
  }

  /** The first j slots of b have been copied into b'. */
  ghost predicate Copied(b: Bucket, j: int, b': Bucket, max: nat) {
    && BucketOk(b', max)
    && (forall x :: Find(Some(b'), x) == FindIn(b, j, x))
    && (forall i :: Used(b', i) ==> exists i' :: Used(b, i') && b.value[i'] == b'.value[i])
  }

  lemma EmptyCopy(b: Bucket, b': Bucket, max: nat)
    requires BucketOk(b', max) && forall j :: !Used(b', j)
    ensures Copied(b, 0, b', max)
  {
  }

  lemma SkipSlot(b: Bucket, j: int, b': Bucket, max: nat)
    requires BucketOk(b, max) && Copied(b, j, b', max) && !Used(b, j)
    ensures Copied(b, j + 1, b', max)
  {
    forall x
      ensures FindIn(b, j + 1, x) == FindIn(b, j, x)
    {
      FindStep(b, j, x);
    }
  }

  lemma CopySlot(b: Bucket, j: int, b': Bucket, max: nat)
    requires BucketOk(b, max) && Copied(b, j, b', max) && Used(b, j) && b'.pos < b'.size
    ensures b'.pos < |b'.used| && b'.pos < |b'.value|
    ensures Copied(b, j + 1, b'.(pos := b'.pos + 1, used := b'.used[b'.pos := true],
                                 value := b'.value[b'.pos := b.value[j]]), max)
  {
    var e := b.value[j];
    forall x
      ensures FindIn(b, j + 1, x) == if x == e.key then Some(e) else FindIn(b, j, x)
    {
      FindStep(b, j, x);
    }
    assert FindIn(b, j, e.key).None?;
    assert Find(Some(b'), e.key).None?;
    BucketAppend(b', max, e, b'.(pos := b'.pos + 1, used := b'.used[b'.pos := true],
                                 value := b'.value[b'.pos := e]));
  }

  /** The copy loop of a compaction: a smaller array with the used entries only. */
  method Packed(n: Bucket, ghost max: nat) returns (tmp: Bucket)
    requires BucketOk(n, max) && UsedCount(n.used, n.pos) + AHASH_INIT_SIZE <= n.size
    ensures Repacks(n, tmp, max)
    ensures tmp.size == n.size - AHASH_INIT_SIZE && tmp.pos == UsedCount(n.used, n.pos)
    ensures tmp.pos <= |tmp.used| && forall x :: 0 <= x < tmp.pos ==> tmp.used[x]
  {
    tmp := EmptyBucket(n.size - AHASH_INIT_SIZE);
    EmptyBucketOk(tmp.size, max);
    EmptyCopy(n, tmp, max);
    for j := 0 to n.pos
      invariant tmp.pos == UsedCount(n.used, j) <= tmp.size == n.size - AHASH_INIT_SIZE
      invariant Copied(n, j, tmp, max)
      invariant tmp.pos <= |tmp.used| && forall x :: 0 <= x < tmp.pos ==> tmp.used[x]
    {
      UsedCountMono(n.used, j + 1, n.pos);
      hide Copied, BucketOk;
      if n.used[j] {
        CopySlot(n, j, tmp, max);
        tmp := tmp.(pos := tmp.pos + 1, used := tmp.used[tmp.pos := true],
                    value := tmp.value[tmp.pos := n.value[j]]);
      } else {
        SkipSlot(n, j, tmp, max);
      }
    }
  }

  /**
   struct htable.  A bucket is a record in the array: writing through a bucket pointer and
   publishing a replacement bucket are both updates of the array element.
   */
  class HTable {
    const hash: Key -> nat
    const bits: nat
    const max: nat
    const maxelem: nat
    const bucket: array<Option<Bucket>>
    const hregion: array<int>

    ghost function Val(): (t: Table)
      reads bucket
    {
      Table(hash, bits, bucket[..])
    }

    ghost predicate Valid()
      reads bucket, hregion
    {
      && TableOk(Val(), max)
      && 2 <= max <= AHASH_MAX_TUNED && max % 2 == 0
      && hregion.Length == NumLocks(bits)
      && Conserved(hregion[..], |Contents()|)
    }

    ghost function Contents(): map<Key, Entry>
      requires TableOk(Val(), max)
      reads bucket
    {
      Stored(Val(), max)
    }

    lemma Facts()
      requires Valid()
      ensures TableOk(Val(), max) && bucket.Length == Pow2(bits) && hregion.Length == NumLocks(bits)
    {
    }

    constructor (hash: Key -> nat, bits: nat, max: nat, maxelem: nat)
      requires 2 <= max <= AHASH_MAX_TUNED && max % 2 == 0
      ensures this.hash == hash && this.bits == bits && this.max == max && this.maxelem == maxelem
      ensures fresh(bucket) && fresh(hregion)
      ensures Valid() && Contents() == map[]
      ensures forall i :: 0 <= i < bucket.Length ==> bucket[i] == None
      ensures forall r :: 0 <= r < hregion.Length ==> hregion[r] == 0
    {
      this.hash, this.bits, this.max, this.maxelem := hash, bits, max, maxelem;
      bucket := new Option<Bucket>[Pow2(bits)](_ => None);
      hregion := new int[NumLocks(bits)](_ => 0);
      new;
      SumZero(hregion[..]);
      assert forall k :: Look(Val(), k).None?;
      assert Contents() == map[];
    }

    /** clear_bit and the decrement of the region counter. */
    method Clear(i: int, j: int, r: int)
      requires Valid() && UsedAt(Val(), i, j) && 0 <= r < hregion.Length
      modifies bucket, hregion
      ensures Valid()
      ensures old(KeyAt(Val(), i, j)) in old(Contents())
      ensures Contents() == old(Contents()) - {old(KeyAt(Val(), i, j))}
      ensures Val() == With(old(Val()), i, Some(Cleared(old(bucket[i]).value, j)))
      ensures hregion[..] == Bump(old(hregion[..]), r, -1)
    {
      hide TableOk, Conserved, Stored;
      ghost var t, regions := Val(), hregion[..];
      var n := bucket[i].value;
      var n' := Cleared(n, j);
      ClearTable(t, max, i, j, n');
      ConservedDrop(regions, r, Contents(), KeyAt(t, i, j));
      bucket[i] := Some(n');
      hregion[r] := (hregion[r] - 1) % U32;
      assert Val() == With(t, i, Some(n'));
    }

    /** Writing element e into free slot j of bucket n and publishing n at i. */
    method Insert(i: int, n: Bucket, j: int, e: Entry, r: int)
      requires Valid() && 0 <= r < hregion.Length && 0 <= i < bucket.Length
      requires n.pos <= |n.used| && n.pos <= |n.value| && Receives(Val(), max, i, n, j)
      requires KeyOk(e.key) && Home(Val(), e.key) == i && e.key !in Contents()
      modifies bucket, hregion
      ensures Valid()
      ensures Contents() == old(Contents())[e.key := e]
      ensures Val() == With(old(Val()), i, Some(Filled(n, j, e)))
      ensures hregion[..] == Bump(old(hregion[..]), r, 1)
    {
      hide TableOk, Conserved, Stored, KeyOk, Home;
      ghost var t, regions := Val(), hregion[..];
      PutTable(t, max, i, n, j, e);
      ConservedPut(regions, r, Contents(), e);
      bucket[i] := Some(Filled(n, j, e));
      hregion[r] := (hregion[r] + 1) % U32;
      assert Val() == With(t, i, Some(Filled(n, j, e)));
    }

    /** overwrite_extensions: new flags and extensions for the element in slot j. */
    method Overwrite(i: int, j: int, e: Entry)
      requires Valid() && UsedAt(Val(), i, j) && KeyAt(Val(), i, j) == e.key
      modifies bucket
      ensures Valid()
      ensures Contents() == old(Contents())[e.key := e] && e.key in old(Contents())
      ensures Val() == With(old(Val()), i, Some(Overwritten(old(bucket[i]).value, j, e)))
    {
      hide TableOk, Conserved, Stored;
      ghost var t := Val();
      var n := bucket[i].value;
      var n' := Overwritten(n, j, e);
      OverwriteTable(t, max, i, j, e, n');
      bucket[i] := Some(n');
      assert Val() == With(t, i, Some(n'));
    }

    /** n->pos-- after clearing the last slot. */
    method LowerPos(i: int)
      requires Valid() && 0 <= i < bucket.Length && bucket[i].Some?
      requires var b := bucket[i].value; 0 < b.pos <= |b.used| && !b.used[b.pos - 1]
      modifies bucket
      ensures Valid() && Contents() == old(Contents())
      ensures Val() == With(old(Val()), i, Some(Lowered(old(bucket[i]).value)))
    {
      hide TableOk, Conserved, Stored;
      ghost var t := Val();
      var n := bucket[i].value;
      LowerTable(t, max, i);
      bucket[i] := Some(Lowered(n));
      assert Val() == With(t, i, Some(Lowered(n)));
    }

    /** Unpublishing a bucket without used slots. */
    method Free(i: int)
      requires Valid() && 0 <= i < bucket.Length && bucket[i].Some? && bucket[i].value.pos <= |bucket[i].value.used|
      requires UsedCount(bucket[i].value.used, bucket[i].value.pos) == 0
      modifies bucket
      ensures Valid() && Contents() == old(Contents())
      ensures Val() == With(old(Val()), i, None)
    {
      hide TableOk, Conserved, Stored;
      ghost var t := Val();
      FreeTable(t, max, i);
      bucket[i] := None;
      assert Val() == With(t, i, None);
    }

    /** Replacing a bucket with two or more holes by a smaller one. */
    method Compact(i: int)
      requires Valid() && 0 <= i < bucket.Length && bucket[i].Some? && bucket[i].value.pos <= |bucket[i].value.used|
      requires UsedCount(bucket[i].value.used, bucket[i].value.pos) + AHASH_INIT_SIZE <= bucket[i].value.size
      modifies bucket
      ensures Valid() && Contents() == old(Contents())
      ensures bucket[i].Some? && Val() == With(old(Val()), i, bucket[i])
      ensures bucket[i].value.size == old(bucket[i]).value.size - AHASH_INIT_SIZE && Dense(bucket[i])
    {
      ghost var t := Val();
      assert SlotOk(t, i, t.b[i], max);
      hide TableOk, Conserved, Stored, Repacks, BucketOk;
      var b := Packed(bucket[i].value, max);
      RepackTable(t, max, i, b);
      AllUsed(b.used, b.pos);
      bucket[i] := Some(b);
      assert Val() == With(t, i, Some(b));
    }
  }
}
