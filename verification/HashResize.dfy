/**
 mtype_resize: moving the unexpired elements into a table with twice the buckets, doubling again
 whenever a bucket of the new table overflows.
 */
module HashResize {
  import opened Options
  import opened Pfxlen
  import opened HashModel
  import opened HashTable
  import opened HashSpec
  import opened HashSets
  import NetIndex

  // ---------- Progress of the copy ----------

  /** Element k sits before slot j of bucket i. */
  ghost predicate Before(t: Table, i: int, j: int, k: Key)
    requires |t.b| == Pow2(t.bits)
  {
    Home(t, k) < i || (Home(t, k) == i && t.b[i].Some? && exists x :: x < j && Hit(t.b[i].value, x, k))
  }

  /** c holds the unexpired elements before slot j of bucket i. */
  ghost predicate Carried(t: Table, max: nat, c: map<Key, Entry>, i: int, j: int, wt: bool, now: int)
    requires TableOk(t, max)
  {
    var m := Stored(t, max);
    && (forall k :: k in c <==> k in m && !Dead(wt, m[k], now) && Before(t, i, j, k))
    && (forall k :: k in c ==> c[k] == m[k])
  }

  lemma CarrySkip(t: Table, max: nat, c: map<Key, Entry>, i: int, j: int, wt: bool, now: int)
    requires TableOk(t, max) && 0 <= i < |t.b| && t.b[i].Some? && Carried(t, max, c, i, j, wt, now)
    requires UsedAt(t, i, j) ==> Dead(wt, t.b[i].value.value[j], now)
    ensures Carried(t, max, c, i, j + 1, wt, now)
  {
    var b := t.b[i].value;
    forall k | Hit(b, j, k)
      ensures k in Stored(t, max) && Dead(wt, Stored(t, max)[k], now)
    {
      assert UsedAt(t, i, j) && KeyAt(t, i, j) == k;
      UsedIsStored(t, max, i, j);
    }
  }

  /** The slots up to and including j hold k as well as what was before. */
  lemma BeforeSlot(t: Table, max: nat, i: int, j: int)
    requires TableOk(t, max) && UsedAt(t, i, j)
    ensures !Before(t, i, j, KeyAt(t, i, j))
    ensures forall o :: Before(t, i, j + 1, o) <==> Before(t, i, j, o) || o == KeyAt(t, i, j)
  {
    UsedIsStored(t, max, i, j);
    ShapeOf(t, max, i);
    var b, k := t.b[i].value, KeyAt(t, i, j);
    assert forall x :: x < j ==> !Hit(b, x, k);
    forall o
      ensures Before(t, i, j + 1, o) <==> Before(t, i, j, o) || o == k
    {
      assert Hit(b, j, o) <==> o == k;
    }
  }

  lemma CarrySlot(t: Table, max: nat, c: map<Key, Entry>, i: int, j: int, wt: bool, now: int)
    requires TableOk(t, max) && Carried(t, max, c, i, j, wt, now)
    requires UsedAt(t, i, j) && !Dead(wt, t.b[i].value.value[j], now)
    ensures KeyAt(t, i, j) !in c && KeyOk(KeyAt(t, i, j))
    ensures Carried(t, max, c[KeyAt(t, i, j) := t.b[i].value.value[j]], i, j + 1, wt, now)
  {
    hide TableOk, Stored, Before, Dead, KeyOk;
    UsedIsStored(t, max, i, j);
    BeforeSlot(t, max, i, j);
  }

  lemma CarryNext(t: Table, max: nat, c: map<Key, Entry>, i: int, wt: bool, now: int)
    requires TableOk(t, max) && 0 <= i < |t.b|
    requires Carried(t, max, c, i, if t.b[i].Some? then t.b[i].value.pos else 0, wt, now)
    ensures Carried(t, max, c, i + 1, 0, wt, now)
  {
    forall k | k in Stored(t, max)
      ensures Before(t, i + 1, 0, k) <==> Before(t, i, if t.b[i].Some? then t.b[i].value.pos else 0, k)
    {
      var j := StoredIsUsed(t, max, k);
    }
  }

  lemma CarryStart(t: Table, max: nat, wt: bool, now: int)
    requires TableOk(t, max)
    ensures Carried(t, max, map[], 0, 0, wt, now)
  {
  }

  lemma CarryEnd(t: Table, max: nat, c: map<Key, Entry>, wt: bool, now: int)
    requires TableOk(t, max) && Carried(t, max, c, |t.b|, 0, wt, now)
    ensures c == LiveOf(Stored(t, max), wt, now)
  {
  }

  // ---------- Which tables are large enough ----------

  /** The elements of m that belong in bucket i of a table of 2^bits buckets. */
  ghost function Load(m: map<Key, Entry>, hash: Key -> nat, bits: nat, i: int): set<Key> {
    set k | k in m.Keys && hash(k) % Pow2(bits) == i
  }

  /** No bucket of such a table gets more than max elements. */
  ghost predicate Spreads(m: map<Key, Entry>, hash: Key -> nat, bits: nat, max: nat) {
    forall i :: 0 <= i < Pow2(bits) ==> |Load(m, hash, bits, i)| <= max
  }

  /** The elements in the first n slots. */
  ghost function KeysIn(b: Bucket, n: nat): set<Key>
    requires n <= b.pos && n <= |b.used| && n <= |b.value|
  {
    if n == 0 then {} else if b.used[n - 1] then KeysIn(b, n - 1) + {b.value[n - 1].key} else KeysIn(b, n - 1)
  }

  lemma {:induction false} KeysInAt(b: Bucket, n: nat, k: Key)
    requires n <= b.pos && n <= |b.used| && n <= |b.value|
    ensures k in KeysIn(b, n) <==> exists j :: j < n && Hit(b, j, k)
  {
    if n > 0 {
      KeysInAt(b, n - 1, k);
      assert Hit(b, n - 1, k) <==> b.used[n - 1] && b.value[n - 1].key == k;
    }
  }

  lemma {:induction false} KeysInCount(b: Bucket, n: nat)
    requires n <= b.pos && n <= |b.used| && n <= |b.value| && UniqueKeys(b)
    ensures |KeysIn(b, n)| == UsedCount(b.used, n)
  {
    if n > 0 {
      KeysInCount(b, n - 1);
      if b.used[n - 1] {
        KeysInAt(b, n - 1, b.value[n - 1].key);
        assert Used(b, n - 1);
      }
    }
  }

  /** A bucket holds what belongs there, no more than max, and without holes one element a slot. */
  lemma LoadOfBucket(t: Table, max: nat, i: int)
    requires TableOk(t, max) && 0 <= i < |t.b|
    ensures |Load(Stored(t, max), t.hash, t.bits, i)| <= max
    ensures t.b[i].Some? && NoHoles(t) ==> |Load(Stored(t, max), t.hash, t.bits, i)| == t.b[i].value.pos
  {
    hide TableOk, Stored;
    var load := Load(Stored(t, max), t.hash, t.bits, i);
    if t.b[i].None? {
      forall k | k in load
        ensures false
      {
        var j := StoredIsUsed(t, max, k);
      }
      assert load == {};
    } else {
      var b := t.b[i].value;
      ShapeOf(t, max, i);
      KeysInCount(b, b.pos);
      forall k
        ensures k in load <==> k in KeysIn(b, b.pos)
      {
        KeysInAt(b, b.pos, k);
        if k in load {
          var j := StoredIsUsed(t, max, k);
        } else if k in KeysIn(b, b.pos) {
          var j :| j < b.pos && Hit(b, j, k);
          assert UsedAt(t, i, j);
          UsedIsStored(t, max, i, j);
        }
      }
      assert load == KeysIn(b, b.pos);
      if NoHoles(t) {
        forall j | 0 <= j < b.pos
          ensures b.used[j]
        {
          assert UsedAt(t, i, j);
        }
        AllUsed(b.used, b.pos);
      }
    }
  }

  /** A table that holds m shows that m fits. */
  lemma SpreadsIn(t: Table, max: nat)
    requires TableOk(t, max)
    ensures Spreads(Stored(t, max), t.hash, t.bits, max)
  {
    hide TableOk, Stored, Load;
    TableLength(t, max);
    forall i | 0 <= i < Pow2(t.bits)
      ensures |Load(Stored(t, max), t.hash, t.bits, i)| <= max
    {
      LoadOfBucket(t, max, i);
    }
  }

  /** One more element for a bucket that holds max of them already. */
  lemma Overflows(m: map<Key, Entry>, c: map<Key, Entry>, k: Key, hash: Key -> nat, bits: nat, max: nat)
    requires c.Keys <= m.Keys && k in m && k !in c && |Load(c, hash, bits, hash(k) % Pow2(bits))| >= max
    ensures !Spreads(m, hash, bits, max)
  {
    var i := hash(k) % Pow2(bits);
    var some, all := Load(c, hash, bits, i) + {k}, Load(m, hash, bits, i);
    SubsetSize(some, all);
    assert 0 <= i < Pow2(bits) && |all| > max;
  }

  // ---------- The copy ----------

  /** The element goes into the last slot of bucket n. */
  method Append(t: HTable, key: nat, n: Bucket, e: Entry, nr: nat)
    requires t.Valid() && nr < t.hregion.Length && key < t.bucket.Length && KeyOk(e.key) && e.key !in t.Contents()
    requires 0 < n.pos <= |n.used| && n.pos <= |n.value| && Receives(t.Val(), t.max, key, n, n.pos - 1)
    requires Home(t.Val(), e.key) == key && NoHoles(With(t.Val(), key, Some(Filled(n, n.pos - 1, e))))
    modifies t.bucket, t.hregion
    ensures t.Valid() && NoHoles(t.Val()) && t.Contents() == old(t.Contents())[e.key := e]
  {
    hide TableOk, Conserved, Stored, Receives, KeyOk, Filled, Bump, NoHoles, With, Home;
    t.Insert(key, n, n.pos - 1, e, nr);
  }

  /** Inserting one element into the new table: the body of the innermost loop. */
  method RehashOne(t: HTable, e: Entry, mem: bool) returns (ret: Ret)
    requires t.Valid() && KeyOk(e.key) && e.key !in t.Contents() && NoHoles(t.Val())
    modifies t.bucket, t.hregion
    ensures t.Valid() && NoHoles(t.Val()) && ret in {Ok, Again, NoMem}
    ensures t.Contents() == if ret.Ok? then old(t.Contents())[e.key := e] else old(t.Contents())
    ensures ret.NoMem? ==> !mem
    ensures ret.Again? ==> |Load(t.Contents(), t.hash, t.bits, t.hash(e.key) % Pow2(t.bits))| >= t.max
  {
    hide TableOk, Conserved, Stored, Receives, KeyOk, Filled, Opened, Bump, NoHoles, Load, With, UsedCount;
    var key := t.hash(e.key) % Pow2(t.bits);
    var nr := key % NumLocks(t.bits);
    TableLength(t.Val(), t.max);
    var got: bool := *;
    if t.bucket[key].None? {
      if !(mem || got) {
        return NoMem;
      }
      EmptyReceives(t.Val(), t.max, key);
      OpenedNoHoles(t.Val(), t.max, key, e);
      var n := Opened(EmptyBucket(AHASH_INIT_SIZE));
      Append(t, key, n, e, nr);
    } else {
      var m := t.bucket[key].value;
      ShapeOf(t.Val(), t.max, key);
      if m.pos >= m.size {
        if m.size >= t.max {
          LoadOfBucket(t.Val(), t.max, key);
          return Again;
        }
        if !(mem || got) {
          return NoMem;
        }
      }
      OpenedReceives(t.Val(), t.max, key);
      OpenedNoHoles(t.Val(), t.max, key, e);
      var n := Opened(m);
      Append(t, key, n, e, nr);
    }
    ret := Ok;
  }

  /** What is carried over so far and the element that found its bucket full. */
  lemma TooMany(t: Table, max: nat, c: map<Key, Entry>, i: int, j: int, wt: bool, now: int, hash: Key -> nat, bits: nat,
                size: nat)
    requires TableOk(t, max) && Carried(t, max, c, i, j, wt, now)
    requires UsedAt(t, i, j) && !Dead(wt, t.b[i].value.value[j], now) && KeyAt(t, i, j) !in c
    requires |Load(c, hash, bits, hash(KeyAt(t, i, j)) % Pow2(bits))| >= size
    ensures !Spreads(LiveOf(Stored(t, max), wt, now), hash, bits, size)
  {
    hide TableOk, Stored, Before, Load, Spreads;
    UsedIsStored(t, max, i, j);
    Overflows(LiveOf(Stored(t, max), wt, now), c, KeyAt(t, i, j), hash, bits, size);
  }

  /** The loop over the slots of one bucket of the old table. */
  method RehashBucket(orig: HTable, t: HTable, i: int, wt: bool, now: int, mem: bool,
                      ghost live: map<Key, Entry>)
    returns (ret: Ret)
    requires orig.Valid() && live == LiveOf(orig.Contents(), wt, now)
    requires t.Valid() && orig.bucket != t.bucket && orig.hregion != t.hregion
    requires 0 <= i < orig.bucket.Length && Carried(orig.Val(), orig.max, t.Contents(), i, 0, wt, now) && NoHoles(t.Val())
    modifies t.bucket, t.hregion
    ensures t.Valid() && NoHoles(t.Val()) && ret in {Ok, Again, NoMem}
    ensures ret.NoMem? ==> !mem
    ensures ret.Again? ==> !Spreads(live, t.hash, t.bits, t.max)
    ensures ret.Ok? ==> Carried(orig.Val(), orig.max, t.Contents(), i + 1, 0, wt, now)
  {
    hide HTable.Valid, TableOk, Stored, Carried, KeyOk, NoHoles, Spreads, Load, LiveOf;
    ghost var ot := orig.Val();
    orig.Facts();
    t.Facts();
    if orig.bucket[i].Some? {
      var n := orig.bucket[i].value;
      ShapeOf(ot, orig.max, i);
      for j := 0 to n.pos
        invariant t.Valid() && TableOk(t.Val(), t.max) && NoHoles(t.Val())
        invariant Carried(ot, orig.max, t.Contents(), i, j, wt, now)
      {
        if !n.used[j] || Dead(wt, n.value[j], now) {
          CarrySkip(ot, orig.max, t.Contents(), i, j, wt, now);
        } else {
          CarrySlot(ot, orig.max, t.Contents(), i, j, wt, now);
          ghost var c := t.Contents();
          ret := RehashOne(t, n.value[j], mem);
          t.Facts();
          if !ret.Ok? {
            if ret.Again? {
              TooMany(ot, orig.max, c, i, j, wt, now, t.hash, t.bits, t.max);
            }
            return;
          }
        }
      }
    }
    CarryNext(ot, orig.max, t.Contents(), i, wt, now);
    ret := Ok;
  }

  /** The loop over the buckets of one region of the old table. */
  method RehashRegion(orig: HTable, t: HTable, r: nat, wt: bool, now: int, mem: bool,
                      ghost live: map<Key, Entry>)
    returns (ret: Ret)
    requires orig.Valid() && live == LiveOf(orig.Contents(), wt, now)
    requires t.Valid() && orig.bucket != t.bucket && orig.hregion != t.hregion
    requires r < NumLocks(orig.bits) && NoHoles(t.Val())
    requires Carried(orig.Val(), orig.max, t.Contents(), RegionStart(r, orig.bits), 0, wt, now)
    modifies t.bucket, t.hregion
    ensures t.Valid() && NoHoles(t.Val()) && ret in {Ok, Again, NoMem}
    ensures ret.NoMem? ==> !mem
    ensures ret.Again? ==> !Spreads(live, t.hash, t.bits, t.max)
    ensures ret.Ok? ==> Carried(orig.Val(), orig.max, t.Contents(), RegionEnd(r, orig.bits), 0, wt, now)
  {
    hide HTable.Valid, TableOk, Carried, RegionStart, RegionEnd, Pow2, NumLocks, NoHoles, Spreads, LiveOf;
    ghost var ot := orig.Val();
    orig.Facts();
    t.Facts();
    RegionInTable(r, orig.bits);
    for i := RegionStart(r, orig.bits) to RegionEnd(r, orig.bits)
      invariant t.Valid() && TableOk(t.Val(), t.max) && Carried(ot, orig.max, t.Contents(), i, 0, wt, now)
      invariant NoHoles(t.Val())
    {
      ret := RehashBucket(orig, t, i, wt, now, mem, live);
      t.Facts();
      if !ret.Ok? {
        return;
      }
    }
    ret := Ok;
  }

  /** The loop over the regions of the old table. */
  method Rehash(orig: HTable, t: HTable, wt: bool, now: int, mem: bool,
                ghost live: map<Key, Entry>)
    returns (ret: Ret)
    requires orig.Valid() && live == LiveOf(orig.Contents(), wt, now)
    requires t.Valid() && orig.bucket != t.bucket && orig.hregion != t.hregion && t.Contents() == map[]
    requires NoHoles(t.Val())
    modifies t.bucket, t.hregion
    ensures t.Valid() && ret in {Ok, Again, NoMem}
    ensures ret.NoMem? ==> !mem
    ensures ret.Again? ==> !Spreads(live, t.hash, t.bits, t.max)
    ensures ret.Ok? ==> Spreads(live, t.hash, t.bits, t.max)
    ensures ret.Ok? ==> t.Contents() == live
  {
    hide HTable.Valid, TableOk, Carried, RegionStart, RegionEnd, Pow2, LiveOf, NumLocks, NoHoles, Spreads;
    ghost var ot := orig.Val();
    orig.Facts();
    t.Facts();
    CarryStart(ot, orig.max, wt, now);
    RegionsAbut(0, orig.bits);
    var locks := NumLocks(orig.bits);
    for r := 0 to locks
      invariant t.Valid() && TableOk(t.Val(), t.max) && NoHoles(t.Val())
      invariant Carried(ot, orig.max, t.Contents(), if r < locks then RegionStart(r, orig.bits) else Pow2(orig.bits), 0, wt, now)
    {
      RegionsAbut(r, orig.bits);
      ret := RehashRegion(orig, t, r, wt, now, mem, live);
      t.Facts();
      if !ret.Ok? {
        return;
      }
    }
    CarryEnd(ot, orig.max, t.Contents(), wt, now);
    SpreadsIn(t.Val(), t.max);
    ret := Ok;
  }

  /**
   mtype_resize.  On success the current table is new, larger, and holds exactly the unexpired
   elements with their flags and extensions; it is the smallest larger one whose buckets can take them.
   On failure the old table is current and unchanged, and there was no such table or no memory.
   */
  method Resize(s: HashSet, mem: bool, now: nat) returns (ret: Ret)
    requires s.Valid()
    modifies s`table
    ensures s.Valid() && ret in {Ok, Full, NoMem}
    ensures ret.Ok? ==> fresh(s.table) && fresh(s.table.bucket) && fresh(s.table.hregion)
                        && old(s.table.bits) < s.table.bits <= MAX_BITS
    ensures s.Live(now) == old(s.Live(now)) && (ret.Ok? ==> s.Elems() == old(s.Live(now)))
    ensures !ret.Ok? ==> s.table == old(s.table) && s.Elems() == old(s.Elems())
    ensures old(s.table).Valid() && old(s.table).Contents() == old(s.Elems())
    ensures ret.Ok? ==>
              && Spreads(old(s.Live(now)), s.hash, s.table.bits, s.bucketsize)
              && forall b :: old(s.table.bits) < b < s.table.bits ==> !Spreads(old(s.Live(now)), s.hash, b, s.bucketsize)
    ensures ret.Full? ==> forall b :: old(s.table.bits) < b <= MAX_BITS ==> !Spreads(old(s.Live(now)), s.hash, b, s.bucketsize)
    ensures ret.NoMem? ==> !mem
    ensures mem ==> (ret.Ok? <==> exists b :: old(s.table.bits) < b <= MAX_BITS
                                              && Spreads(old(s.Live(now)), s.hash, b, s.bucketsize))
  {
    hide s.Valid, s.Live, s.Elems, HtableSize, LiveOf, NumLocks, Spreads, HTable.Valid, HTable.Contents;
    Current(s);
    var bits := s.table.bits;
    while true
      invariant s.Valid() && bits >= s.table.bits && s.table == old(s.table)
      invariant s.Live(now) == old(s.Live(now)) && s.Elems() == old(s.Elems())
      invariant old(s.table).Valid() && old(s.table).Contents() == old(s.Elems())
      invariant forall b :: old(s.table.bits) < b <= bits && b <= MAX_BITS ==> !Spreads(old(s.Live(now)), s.hash, b, s.bucketsize)
      decreases if bits <= MAX_BITS then MAX_BITS + 1 - bits else 0
    {
      bits := bits + 1;
      HtableSizeBound(bits);
      if HtableSize(bits) == 0 {
        return Full;
      }
      var t;
      ret, t := Attempt(s, bits, mem, now);
      if ret.NoMem? {
        return;
      }
      if ret.Ok? {
        Install(s, t, now);
        return;
      }
    }
  }

  lemma Current(s: HashSet)
    requires s.Valid()
    ensures s.table.Valid() && s.table.Contents() == s.Elems()
  {
  }

  /** One round of the retry loop: a new table of 2^bits buckets, filled as far as it goes. */
  method Attempt(s: HashSet, bits: nat, mem: bool, now: nat) returns (ret: Ret, t: HTable?)
    requires s.Valid() && bits <= MAX_BITS
    ensures s.Valid() && s.Live(now) == old(s.Live(now)) && s.Elems() == old(s.Elems()) && ret in {Ok, Again, NoMem}
    ensures s.table.Valid() && s.table.Contents() == s.Elems()
    ensures ret.NoMem? ==> !mem
    ensures ret.Again? ==> !Spreads(s.Live(now), s.hash, bits, s.bucketsize)
    ensures ret.Ok? ==>
              && Spreads(s.Live(now), s.hash, bits, s.bucketsize)
              && t != null && fresh(t) && fresh(t.bucket) && fresh(t.hregion) && t.Valid() && t.hash == s.hash && t.bits == bits
              && t.max == s.bucketsize && t.maxelem == s.maxelem / NumLocks(bits) && t.Contents() == s.Live(now)
  {
    hide TableOk, Conserved, Stored, CountsOk, NetIndex.Indexed, LiveOf, NumLocks, Spreads;
    t := null;
    var got: bool := *;
    if !(mem || got) {
      return NoMem, t;
    }
    ShareNat(s.maxelem, NumLocks(bits));
    t := new HTable(s.hash, bits, s.bucketsize, s.maxelem / NumLocks(bits));
    assert NoHoles(t.Val());
    ret := Rehash(s.table, t, s.withTimeout, now, mem, s.Live(now));
  }

  /** The new table becomes the current one. */
  method Install(s: HashSet, t: HTable, now: nat)
    requires s.Valid() && t.Valid() && t.hash == s.hash && t.max == s.bucketsize && t.bits <= MAX_BITS
    requires t.maxelem == s.maxelem / NumLocks(t.bits) && t.Contents() == s.Live(now)
    requires t.hregion != s.nets.cidr && t.hregion != s.nets.nets
    modifies s`table
    ensures s.Valid() && s.table == t && s.Elems() == old(s.Live(now)) && s.Live(now) == old(s.Live(now))
  {
    hide TableOk, Conserved, Stored, CountsOk, NetIndex.Indexed, LiveOf, NumLocks;
    ResizeCounts(s.nets.nets[..], s.Elems(), s.withTimeout, now);
    s.table := t;
  }

  lemma ShareNat(n: nat, parts: nat)
    requires parts > 0
    ensures n / parts >= 0
  {
  }

  lemma ResizeCounts(counts: seq<int>, m: map<Key, Entry>, wt: bool, now: int)
    requires CountsOk(counts, m, !wt)
    ensures CountsOk(counts, LiveOf(m, wt, now), !wt)
    ensures LiveOf(LiveOf(m, wt, now), wt, now) == LiveOf(m, wt, now)
  {
    if !wt {
      assert LiveOf(m, wt, now).Keys == m.Keys;
    }
    CountsShrink(counts, m, LiveOf(m, wt, now), !wt);
  }
}
