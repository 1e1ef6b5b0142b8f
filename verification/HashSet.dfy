/**
 The generic hash set of ip_set_hash_gen.h for the IPv4 hash:ip,port,net element: add, delete,
 test, garbage collection and flush over one table, with the prefix index kept beside it.

 Calls are sequential, forceadd is off and the add/del backlog is empty.  `now` is the clock read
 by a call.  With `mem` every allocation of a call succeeds, without it any may fail.
 */
module HashSets {
  import opened Options
  import opened Pfxlen
  import opened HashModel
  import opened HashTable
  import opened HashSpec
  import NetIndex

  class HashSet {
    const hash: Key -> nat
    const maxelem: nat
    const bucketsize: nat
    const withTimeout: bool
    const nets: NetIndex.NetPrefixes
    var table: HTable
    /** The resume position h->next that mtype_data_next saves. */
    var next: Key
    /** The region the garbage collector visits next. */
    var gcRegion: nat

    ghost function Repr(): set<object>
      reads this
    {
      {this, table.bucket, table.hregion, nets.cidr, nets.nets}
    }

    ghost predicate Valid()
      reads Repr()
    {
      && table.Valid() && table.hash == hash && table.max == bucketsize <= AHASH_MAX_SIZE && table.bits <= MAX_BITS
      && maxelem < U32 && table.maxelem == maxelem / NumLocks(table.bits)
      && nets.Valid() && table.hregion != nets.cidr && table.hregion != nets.nets
      && CountsOk(nets.nets[..], table.Contents(), !withTimeout)
    }

    /** All stored elements, expired ones included. */
    ghost function Elems(): map<Key, Entry>
      requires Valid()
      reads Repr()
    {
      table.Contents()
    }

    /** The mathematical set of live elements. */
    ghost function Live(now: int): map<Key, Entry>
      requires Valid()
      reads Repr()
    {
      LiveOf(Elems(), withTimeout, now)
    }

    lemma Facts()
      requires Valid()
      ensures table.Valid() && TableOk(table.Val(), table.max) && table.hash == hash && table.max == bucketsize <= AHASH_MAX_SIZE
      ensures table.bucket.Length == Pow2(table.bits) && table.hregion.Length == NumLocks(table.bits)
      ensures table.maxelem == maxelem / NumLocks(table.bits) && Elems() == Stored(table.Val(), table.max)
    {
    }

    /** The bucket size clamp of create. */
    static function ClampBucketsize(requested: Option<nat>): (b: nat)
      ensures AHASH_INIT_SIZE <= b <= AHASH_MAX_SIZE && b % 2 == 0
      ensures requested.Some? && 2 <= requested.value <= 12 ==> requested.value <= b <= requested.value + 1
      ensures requested.None? || requested.value >= 12 ==> b == 12
      ensures requested.Some? && requested.value <= 2 ==> b == 2
    {
      match requested
      case None => AHASH_MAX_SIZE
      case Some(n) =>
        if n < AHASH_INIT_SIZE then AHASH_INIT_SIZE
        else if n > AHASH_MAX_SIZE then AHASH_MAX_SIZE
        else if n % 2 == 1 then n + 1
        else n
    }

    constructor (hash: Key -> nat, bits: nat, maxelem: nat, bucketsize: Option<nat>, withTimeout: bool)
      requires maxelem < U32 && bits <= MAX_BITS
      ensures Valid() && fresh(Repr()) && Elems() == map[]
      ensures this.hash == hash && this.withTimeout == withTimeout && this.maxelem == maxelem && table.bits == bits
      ensures this.bucketsize == ClampBucketsize(bucketsize)
      ensures NoHoles(table.Val()) && forall r :: 0 <= r < table.hregion.Length ==> table.hregion[r] == 0
    {
      var size := ClampBucketsize(bucketsize);
      this.hash, this.maxelem, this.bucketsize, this.withTimeout := hash, maxelem, size, withTimeout;
      var t := new HTable(hash, bits, size, maxelem / NumLocks(bits));
      var n := new NetIndex.NetPrefixes();
      table, nets, next, gcRegion := t, n, ZERO_KEY, 0;
      new;
      assert forall c :: NetCount(map[], c) == 0;
    }

    /** HKEY. */
    function Hkey(k: Key): (i: nat)
      reads `table
      ensures i < Pow2(table.bits)
    {
      hash(k) % Pow2(table.bits)
    }

    /** mtype_add_cidr for a new element. */
    method CountCidr(e: Entry, ghost m: map<Key, Entry>)
      requires nets.Valid() && CountsOk(nets.nets[..], m, !withTimeout) && KeyOk(e.key) && e.key !in m
      modifies nets.cidr, nets.nets
      ensures nets.Valid() && CountsOk(nets.nets[..], m[e.key := e], !withTimeout)
    {
      CountsPut(nets.nets[..], m, e, !withTimeout);
      nets.AddCidr(Ncidr(e.key));
    }

    /** mtype_del_cidr for an element that goes. */
    method UncountCidr(k: Key, ghost m: map<Key, Entry>)
      requires nets.Valid() && CountsOk(nets.nets[..], m, !withTimeout) && KeyOk(k) && k in m
      modifies nets.cidr, nets.nets
      ensures nets.Valid() && CountsOk(nets.nets[..], m - {k}, !withTimeout)
    {
      CountsDrop(nets.nets[..], m, k, !withTimeout);
      nets.DelCidr(Ncidr(k));
    }

    /** Removing the element in slot j of bucket i: used bit, region counter and prefix count. */
    method Erase(i: int, j: int, r: int)
      requires Valid() && UsedAt(table.Val(), i, j) && 0 <= r < table.hregion.Length
      modifies table.bucket, table.hregion, nets.cidr, nets.nets
      ensures Valid()
      ensures Elems() == old(Elems()) - {old(KeyAt(table.Val(), i, j))}
      ensures table.Val() == With(old(table.Val()), i, Some(Cleared(old(table.bucket[i]).value, j)))
      ensures table.hregion[..] == Bump(old(table.hregion[..]), r, -1)
    {
      hide CountsOk, TableOk, Conserved, Stored, NetIndex.Indexed, KeyOk, Home, Bump, Cleared, NumLocks, With, UsedCount;
      UsedIsStored(table.Val(), table.max, i, j);
      UncountCidr(table.bucket[i].value.value[j].key, Elems());
      table.Clear(i, j, r);
    }

    /** Writing a new element into free slot j of bucket value n, published at i. */
    method Store(i: int, n: Bucket, j: int, e: Entry, r: int)
      requires Valid() && 0 <= r < table.hregion.Length && 0 <= i < table.bucket.Length
      requires n.pos <= |n.used| && n.pos <= |n.value| && Receives(table.Val(), bucketsize, i, n, j)
      requires KeyOk(e.key) && Home(table.Val(), e.key) == i && e.key !in Elems()
      modifies table.bucket, table.hregion, nets.cidr, nets.nets
      ensures Valid()
      ensures Elems() == old(Elems())[e.key := e]
      ensures table.Val() == With(old(table.Val()), i, Some(Filled(n, j, e)))
      ensures table.hregion[..] == Bump(old(table.hregion[..]), r, 1)
    {
      hide CountsOk, TableOk, Conserved, Stored, NetIndex.Indexed, Receives, KeyOk, Home, Bump, Filled;
      CountCidr(e, Elems());
      table.Insert(i, n, j, e, r);
    }

    /** overwrite_extensions of an element already stored. */
    method Overwrite(i: int, j: int, e: Entry)
      requires Valid() && UsedAt(table.Val(), i, j) && KeyAt(table.Val(), i, j) == e.key
      modifies table.bucket
      ensures Valid()
      ensures Elems() == old(Elems())[e.key := e] && e.key in old(Elems())
      ensures table.Val() == With(old(table.Val()), i, Some(Overwritten(old(table.bucket[i]).value, j, e)))
    {
      hide CountsOk, TableOk, Conserved, Stored, NetIndex.Indexed;
      UsedIsStored(table.Val(), table.max, i, j);
      CountsOverwrite(nets.nets[..], Elems(), e, !withTimeout);
      table.Overwrite(i, j, e);
    }

    // ---------- Garbage collection ----------

    /** An expired element of the swept bucket is removed. */
    method Expire(i: int, j: int, r: int, now: int, ghost m: map<Key, Entry>, ghost d: int, ghost pos: int)
      requires Valid() && 0 <= r < table.hregion.Length
      requires Swept(m, Elems(), table.Val(), table.max, i, j, d, pos, withTimeout, now) && UsedAt(table.Val(), i, j)
      requires Dead(withTimeout, table.bucket[i].value.value[j], now)
      modifies table.bucket, table.hregion, nets.cidr, nets.nets
      ensures Valid() && Swept(m, Elems(), table.Val(), table.max, i, j + 1, d + 1, pos, withTimeout, now)
      ensures forall x :: 0 <= x < table.bucket.Length && x != i ==> table.bucket[x] == old(table.bucket[x])
    {
      hide CountsOk, TableOk, Conserved, Stored, NetIndex.Indexed, Bump, Swept, Dead;
      SweepDead(m, table.Val(), table.max, i, j, d, pos, withTimeout, now);
      Erase(i, j, r);
    }

    /** The expiry loop of mtype_gc_do over one bucket; d counts its unused slots. */
    method Sweep(i: int, r: int, now: int) returns (d: int)
      requires Valid() && 0 <= i < table.bucket.Length && table.bucket[i].Some? && 0 <= r < table.hregion.Length
      modifies table.bucket, table.hregion, nets.cidr, nets.nets
      ensures Valid() && table.bucket[i].Some?
      ensures Elems() == Purge(old(Elems()), hash, table.bits, i, i + 1, withTimeout, now)
      ensures var b := table.bucket[i].value; b.pos <= b.size && b.pos <= |b.used| && d == b.pos - UsedCount(b.used, b.pos)
      ensures forall x :: 0 <= x < table.bucket.Length && x != i ==> table.bucket[x] == old(table.bucket[x])
      ensures old(Tight(table.bucket[i], withTimeout, now)) ==> d == 0 && table.bucket[i] == old(table.bucket[i])
    {
      hide CountsOk, TableOk, Conserved, Stored, NetIndex.Indexed, KeyOk, Bump, Purge, PartlySwept;
      ghost var m := Elems();
      var pos := table.bucket[i].value.pos;
      SweepStart(table.Val(), table.max, i, withTimeout, now);
      d := 0;
      for j := 0 to pos
        invariant Valid() && Swept(m, Elems(), table.Val(), table.max, i, j, d, pos, withTimeout, now)
        invariant forall x :: 0 <= x < table.bucket.Length && x != i ==> table.bucket[x] == old(table.bucket[x])
        invariant old(Tight(table.bucket[i], withTimeout, now)) ==> d == 0 && table.bucket[i] == old(table.bucket[i])
      {
        var n := table.bucket[i].value;
        if !n.used[j] {
          d := d + 1;
        } else if Dead(withTimeout, n.value[j], now) {
          Expire(i, j, r, now, m, d, pos);
          d := d + 1;
        }
      }
      SweptAll(m, table.Val(), table.max, i, withTimeout, now);
    }

    /** The body of the bucket loop of mtype_gc_do. */
    method GcBucket(i: int, r: int, mem: bool, now: int)
      requires Valid() && 0 <= i < table.bucket.Length && 0 <= r < table.hregion.Length
      modifies table.bucket, table.hregion, nets.cidr, nets.nets
      ensures Valid()
      ensures Elems() == Purge(old(Elems()), hash, table.bits, i, i + 1, withTimeout, now)
      ensures TightKept(old(table.Val()), table.Val(), withTimeout, now)
      ensures mem ==> Dense(table.bucket[i])
      ensures forall x :: 0 <= x < table.bucket.Length && x != i ==> table.bucket[x] == old(table.bucket[x])
    {
      hide Valid, Elems, TableOk, Stored, Purge, Tight, TightKept;
      Facts();
      ghost var was := table.Val();
      if table.bucket[i].None? {
        EmptyPurge(table.Val(), table.max, i, withTimeout, now);
        SameTight(was, was, i, now);
        return;
      }
      var d := Sweep(i, r, now);
      Reclaim(i, d, mem);
      SameTight(was, table.Val(), i, now);
    }

    lemma SameTight(t: Table, t': Table, i: int, now: int)
      requires |t'.b| == |t.b| && 0 <= i < |t.b| && forall x :: 0 <= x < |t.b| && x != i ==> t'.b[x] == t.b[x]
      requires Tight(t.b[i], withTimeout, now) ==> t'.b[i] == t.b[i]
      ensures TightKept(t, t', withTimeout, now)
    {
    }

    /** A swept bucket is freed when nothing is left, and made smaller when there are two holes and memory. */
    method Reclaim(i: int, d: int, mem: bool)
      requires Valid() && 0 <= i < table.bucket.Length && table.bucket[i].Some?
      requires var b := table.bucket[i].value; b.pos <= b.size && b.pos <= |b.used| && d == b.pos - UsedCount(b.used, b.pos)
      modifies table.bucket
      ensures Valid() && Elems() == old(Elems())
      ensures forall x :: 0 <= x < table.bucket.Length && x != i ==> table.bucket[x] == old(table.bucket[x])
      ensures d < AHASH_INIT_SIZE ==> table.bucket[i] == old(table.bucket[i])
      ensures mem ==> Dense(table.bucket[i])
      ensures AHASH_INIT_SIZE <= d && old(table.bucket[i]).value.size <= d ==> table.bucket[i].None?
    {
      hide CountsOk, TableOk, Conserved, Stored, NetIndex.Indexed;
      if d >= AHASH_INIT_SIZE {
        if d >= table.bucket[i].value.size {
          table.Free(i);
        } else {
          var got: bool := *;
          if mem || got {
            table.Compact(i);
          }
        }
      }
    }

    /** No bucket from lo on below hi has holes that could be reclaimed. */
    ghost predicate Compacted(lo: int, hi: int)
      reads `table, table.bucket
    {
      forall x :: lo <= x < hi && 0 <= x < table.bucket.Length ==> Dense(table.bucket[x])
    }

    /** mtype_gc_do: exactly the expired elements of the region's buckets go. */
    method GcDo(r: nat, mem: bool, now: int)
      requires Valid() && r < NumLocks(table.bits)
      modifies table.bucket, table.hregion, nets.cidr, nets.nets
      ensures Valid()
      ensures Elems() == Purge(old(Elems()), hash, table.bits, RegionStart(r, table.bits), RegionEnd(r, table.bits),
                               withTimeout, now)
      ensures TightKept(old(table.Val()), table.Val(), withTimeout, now)
      ensures mem ==> Compacted(RegionStart(r, table.bits), RegionEnd(r, table.bits))
    {
      hide Valid, Elems, TableOk, Stored, Purge, RegionStart, RegionEnd, NumLocks, Tight, Dense;
      var lo, hi := RegionStart(r, table.bits), RegionEnd(r, table.bits);
      RegionInTable(r, table.bits);
      Facts();
      ghost var m := Elems();
      PurgeNone(m, hash, table.bits, lo, withTimeout, now);
      for i := lo to hi
        invariant Valid()
        invariant Elems() == Purge(m, hash, table.bits, lo, i, withTimeout, now)
        invariant TightKept(old(table.Val()), table.Val(), withTimeout, now) && (mem ==> Compacted(lo, i))
      {
        GcBucket(i, r, mem, now);
        PurgeStep(m, hash, table.bits, lo, i, withTimeout, now);
      }
    }

    /** The region to visit; after the last one the first is visited twice. */
    method NextRegion() returns (r: nat)
      requires Valid()
      modifies `gcRegion
      ensures Valid() && Elems() == old(Elems())
      ensures r < NumLocks(table.bits)
      ensures if old(gcRegion) < NumLocks(table.bits) then r == old(gcRegion) && gcRegion == r + 1 else r == gcRegion == 0
    {
      hide TableOk, Conserved, Stored, CountsOk, NetIndex.Indexed, NumLocks;
      r := gcRegion;
      gcRegion := gcRegion + 1;
      if r >= NumLocks(table.bits) {
        r, gcRegion := 0, 0;
      }
    }

    /** mtype_gc: the expired elements of one region per run go, starting over at region 0 after the last. */
    method Gc(mem: bool, now: int)
      requires Valid()
      modifies `gcRegion, table.bucket, table.hregion, nets.cidr, nets.nets
      ensures Valid()
      ensures Live(now) == old(Live(now)) && OnlyExpiredGone(old(Elems()), Elems(), withTimeout, now)
      ensures var r := if old(gcRegion) < NumLocks(table.bits) then old(gcRegion) else 0;
              && gcRegion == (if old(gcRegion) < NumLocks(table.bits) then r + 1 else 0)
              && Elems() == Purge(old(Elems()), hash, table.bits, RegionStart(r, table.bits), RegionEnd(r, table.bits),
                                  withTimeout, now)
              && (forall k :: k in Elems() && RegionStart(r, table.bits) <= Hkey(k) < RegionEnd(r, table.bits) ==>
                                !Dead(withTimeout, Elems()[k], now))
              && (mem ==> Compacted(RegionStart(r, table.bits), RegionEnd(r, table.bits)))
    {
      hide Valid, Elems, Purge, RegionStart, RegionEnd, OnlyExpiredGone, TightKept, Dead, Compacted;
      var r := NextRegion();
      PurgeLive(Elems(), hash, table.bits, RegionStart(r, table.bits), RegionEnd(r, table.bits), withTimeout, now);
      GcDo(r, mem, now);
      NoneDead(old(Elems()), RegionStart(r, table.bits), RegionEnd(r, table.bits), now);
    }

    lemma NoneDead(m: map<Key, Entry>, lo: int, hi: int, now: int)
      ensures var u := Purge(m, hash, table.bits, lo, hi, withTimeout, now);
              forall k :: k in u && lo <= Hkey(k) < hi ==> !Dead(withTimeout, u[k], now)
    {
    }

    // ---------- Adding ----------

    /**
     The 32-bit sum over the regions that mtype_add forms when its region's share is used up: the
     number of stored elements, because no table can hold enough for the sum to wrap.
     */
    method TotalElements() returns (n: int)
      requires Valid()
      ensures n == |Elems()|
    {
      hide Valid, Elems;
      n := 0;
      for e := 0 to table.hregion.Length
        invariant Valid() && n == Sum(table.hregion[..e]) % U32
      {
        SumMod(table.hregion[..e], table.hregion[e]);
        n := (n + table.hregion[e]) % U32;
        assert table.hregion[..e + 1] == table.hregion[..e] + [table.hregion[e]];
      }
      assert table.hregion[..table.hregion.Length] == table.hregion[..];
      TotalIs();
    }

    lemma TotalIs()
      requires Valid()
      ensures Sum(table.hregion[..]) % U32 == |Elems()|
    {
      hide CountsOk, TableOk, Stored, NetIndex.Indexed, Conserved;
      ConservedTotal(table.hregion[..], |Elems()|);
      StoredSmall(table.Val(), table.max);
    }

    /** The elements once the capacity check has been made: with the share used up the region is collected first. */
    ghost function Checked(m: map<Key, Entry>, r: nat, count: int, now: int): map<Key, Entry>
      reads `table
    {
      if withTimeout && count >= table.maxelem then
        Purge(m, hash, table.bits, RegionStart(r, table.bits), RegionEnd(r, table.bits), withTimeout, now)
      else m
    }

    /** Neither the share of the element's region nor, after collecting, the whole set has room. */
    ghost predicate Over(k: Key, now: int)
      requires Valid()
      reads Repr()
    {
      Facts();
      var r := Hkey(k) % NumLocks(table.bits);
      table.hregion[r] >= table.maxelem && |Checked(Elems(), r, table.hregion[r], now)| >= maxelem
    }

    /** The capacity check of mtype_add; it may collect the region first. */
    method Admission(r: nat, mem: bool, now: int) returns (full: bool)
      requires Valid() && r < NumLocks(table.bits)
      modifies table.bucket, table.hregion, nets.cidr, nets.nets
      ensures Valid() && OnlyExpiredGone(old(Elems()), Elems(), withTimeout, now)
      ensures !withTimeout ==> table.Val() == old(table.Val()) && table.hregion[..] == old(table.hregion[..])
      ensures Elems() == Checked(old(Elems()), r, old(table.hregion[r]), now)
      ensures TightKept(old(table.Val()), table.Val(), withTimeout, now)
      ensures full <==> !AddGuard(old(table.hregion[r]), table.maxelem, |Elems()|, maxelem)
    {
      hide CountsOk, TableOk, Conserved, Stored, NetIndex.Indexed, Purge, RegionStart, RegionEnd, Sum, TightKept;
      NothingYet(now);
      var elements, max := table.hregion[r], table.maxelem;
      if elements >= max {
        if withTimeout {
          PurgeLive(Elems(), hash, table.bits, RegionStart(r, table.bits), RegionEnd(r, table.bits), withTimeout, now);
          GcDo(r, mem, now);
        }
        max := maxelem;
        elements := TotalElements();
      }
      full := elements >= max;
    }

    lemma NothingYet(now: int)
      ensures TightKept(table.Val(), table.Val(), withTimeout, now)
    {
    }

    /** mtype_data_next. */
    method DataNext(k: Key)
      modifies `next
      ensures next == old(next).(ip := k.ip, port := k.port, ip2 := k.ip2)
    {
      next := next.(ip := k.ip, port := k.port, ip2 := k.ip2);
    }

    /** A bucket of the largest size with every slot in use or a hole. */
    predicate BucketFull(i: int)
      reads `table, table.bucket
    {
      && 0 <= i < table.bucket.Length && table.bucket[i].Some?
      && table.bucket[i].value.pos >= table.bucket[i].value.size >= bucketsize
    }

    /** Nothing in the bucket of k can be reused: every slot holds another, unexpired element. */
    ghost predicate Crowded(k: Key, now: int)
      reads `table, table.bucket
    {
      var i := Hkey(k);
      i < table.bucket.Length && table.bucket[i].Some? ==> PlaceSpec(table.bucket[i].value, k, withTimeout, now, AtEnd)
    }

    /** Adding behind the last slot of a bucket, which is created or grown for it when there is memory. */
    method Append(i: int, e: Entry, r: int, mem: bool, ghost now: int) returns (ret: Ret)
      requires Valid() && 0 <= r < table.hregion.Length && 0 <= i < table.bucket.Length
      requires KeyOk(e.key) && Home(table.Val(), e.key) == i && e.key !in Elems()
      modifies `next, table.bucket, table.hregion, nets.cidr, nets.nets
      ensures Valid() && ret in {Ok, Again, NoMem}
      ensures Elems() == if ret.Ok? then old(Elems())[e.key := e] else old(Elems())
      ensures table.hregion[..] == if ret.Ok? then Bump(old(table.hregion[..]), r, 1) else old(table.hregion[..])
      ensures next == if ret.Again? then old(next).(ip := e.key.ip, port := e.key.port, ip2 := e.key.ip2) else old(next)
      ensures old(NoHoles(table.Val())) ==> NoHoles(table.Val())
      ensures (ret.Again? <==> old(BucketFull(i))) && (ret.Again? ==> BucketFull(i)) && (ret.NoMem? ==> !mem)
      ensures !ret.Ok? && old(Crowded(e.key, now)) ==> Crowded(e.key, now)
    {
      hide CountsOk, TableOk, Conserved, Stored, NetIndex.Indexed, Receives, KeyOk, Home, NoHoles, Filled, Opened, Bump;
      if table.bucket[i].None? {
        if !mem {
          return NoMem;
        }
        EmptyReceives(table.Val(), table.max, i);
        AppendNoHoles(i, e);
        Store(i, Opened(EmptyBucket(AHASH_INIT_SIZE)), 0, e, r);
      } else {
        var n := table.bucket[i].value;
        ShapeOf(table.Val(), table.max, i);
        if n.pos >= n.size {
          if n.size >= bucketsize {
            DataNext(e.key);
            return Again;
          }
          if !mem {
            return NoMem;
          }
        }
        OpenedReceives(table.Val(), table.max, i);
        AppendNoHoles(i, e);
        Store(i, Opened(n), n.pos, e, r);
      }
      ret := Ok;
    }

    lemma AppendNoHoles(i: int, e: Entry)
      requires Valid() && 0 <= i < table.bucket.Length
      requires table.bucket[i].Some? ==> table.bucket[i].value.pos < AHASH_MAX_TUNED
      ensures var b := Opened(if table.bucket[i].Some? then table.bucket[i].value else EmptyBucket(AHASH_INIT_SIZE));
              b.pos <= |b.used| && b.pos <= |b.value|
              && (NoHoles(table.Val()) ==> NoHoles(With(table.Val(), i, Some(Filled(b, b.pos - 1, e)))))
    {
      if table.bucket[i].Some? {
        ShapeOf(table.Val(), table.max, i);
      }
      if NoHoles(table.Val()) {
        OpenedNoHoles(table.Val(), table.max, i, e);
      }
    }

    /** Storing the element over a hole or an expired element of its bucket. */
    method StoreInHole(i: int, j: int, deleted: bool, e: Entry, r: int, exist: bool, now: int, ghost m: map<Key, Entry>)
      requires Valid() && 0 <= r < table.hregion.Length && 0 <= i < table.bucket.Length && table.bucket[i].Some?
      requires OnlyExpiredGone(m, Elems(), withTimeout, now) && !Dead(withTimeout, e, now)
      requires KeyOk(e.key) && Home(table.Val(), e.key) == i
      requires PlaceSpec(table.bucket[i].value, e.key, withTimeout, now, Reuse(j, deleted))
      modifies table.bucket, table.hregion, nets.cidr, nets.nets
      ensures Valid() && AddSpec(m, Elems(), e, exist, withTimeout, now, Ok)
    {
      hide CountsOk, TableOk, Conserved, Stored, NetIndex.Indexed, Receives, KeyOk, Filled, Bump,
           OnlyExpiredGone, AddSpec, Dead;
      NoHitAbsent(table.Val(), table.max, e.key);
      if !deleted {
        UsedIsStored(table.Val(), table.max, i, j);
        ErasedGone(m, Elems(), table.bucket[i].value.value[j].key, withTimeout, now);
        Erase(i, j, r);
      }
      HoleReceives(table.Val(), table.max, i, j);
      AddFresh(m, Elems(), e, exist, withTimeout, now);
      Store(i, table.bucket[i].value, j, e, r);
    }

    /**
     mtype_add.  A new element is refused only when no slot of its bucket can be reused; when none could
     be from the start, -HASH_FULL, -EAGAIN and success are each given exactly when due.
     */
    method Add(k: Key, nomatch: bool, timeout: nat, data: int, exist: bool, mem: bool, now: nat) returns (ret: Ret)
      requires Valid() && KeyOk(k)
      modifies `next, table.bucket, table.hregion, nets.cidr, nets.nets
      ensures Valid()
      ensures AddSpec(old(Elems()), Elems(), MakeEntry(withTimeout, k, nomatch, timeout, data, now), exist, withTimeout, now, ret)
      ensures ret.Ok? ==>
                && k in Elems() && Elems()[k].nomatch == nomatch && Elems()[k].ext.data == data
                && forall t :: t >= now ==> (k in Live(t) <==> !(withTimeout && timeout != 0 && t > now + timeout))
      ensures next == if ret.Again? then old(next).(ip := k.ip, port := k.port, ip2 := k.ip2) else old(next)
      ensures !withTimeout && old(NoHoles(table.Val())) ==>
                NoHoles(table.Val())
                && Tallied(old(table.hregion[..]), table.hregion[..], Hkey(k) % NumLocks(table.bits), |old(Elems())|,
                           ret.Ok? && k !in old(Elems()))
      ensures ret in {Full, Again, NoMem} ==> Crowded(k, now)
      ensures Hkey(k) % NumLocks(table.bits) < old(table.hregion.Length)
      ensures ret.Full? ==> !AddGuard(old(table.hregion[..])[Hkey(k) % NumLocks(table.bits)], table.maxelem, |Elems()|, maxelem)
      ensures ret.Again? ==> BucketFull(Hkey(k))
      ensures ret.NoMem? ==> !mem
      ensures old(Crowded(k, now)) ==>
                && (ret.Full? <==> old(Over(k, now)))
                && (ret.Again? <==> old(!Over(k, now) && BucketFull(Hkey(k))))
                && (mem && old(!Over(k, now) && !BucketFull(Hkey(k))) ==> ret.Ok?)
    {
      hide Valid, Elems, Live, TableOk, Stored, KeyOk, Bump, NoHoles, OnlyExpiredGone, AddSpec, AddGuard, Dead, Crowded, Over,
           BucketFull, PlaceSpec, LiveOf;
      var key := Hkey(k);
      var r := key % NumLocks(table.bits);
      var e := MakeEntry(withTimeout, k, nomatch, timeout, data, now);
      ghost var m := Elems();
      Facts();
      var full := IsFull(k, r, mem, now);
      Facts();
      var p := Locate(k, now);
      ret := Settle(p, key, e, r, full, mem, exist, now, m);
      if ret.Ok? {
        Lasting(m, k, nomatch, timeout, data, exist, now, ret);
      }
    }

    /** The capacity check for an element: no room in the share of its region, nor in the whole set. */
    method IsFull(k: Key, r: nat, mem: bool, now: nat) returns (full: bool)
      requires Valid() && r == Hkey(k) % NumLocks(table.bits) < table.hregion.Length
      modifies table.bucket, table.hregion, nets.cidr, nets.nets
      ensures Valid() && OnlyExpiredGone(old(Elems()), Elems(), withTimeout, now)
      ensures full == old(Over(k, now)) == !AddGuard(old(table.hregion[..])[r], table.maxelem, |Elems()|, maxelem)
      ensures !withTimeout ==> table.Val() == old(table.Val()) && table.hregion[..] == old(table.hregion[..])
                               && Elems() == old(Elems())
      ensures old(Crowded(k, now)) ==> Crowded(k, now) && BucketFull(Hkey(k)) == old(BucketFull(Hkey(k)))
    {
      hide Valid, Elems, Purge, TightKept, PlaceSpec, OnlyExpiredGone, TableOk, Stored;
      ghost var was := table.Val();
      Facts();
      full := Admission(r, mem, now);
      StillCrowded(was, k, now);
    }

    lemma Lasting(m: map<Key, Entry>, k: Key, nomatch: bool, timeout: nat, data: int, exist: bool, now: nat, ret: Ret)
      requires Valid() && ret.Ok?
      requires AddSpec(m, Elems(), MakeEntry(withTimeout, k, nomatch, timeout, data, now), exist, withTimeout, now, ret)
      ensures k in Elems() && Elems()[k].nomatch == nomatch && Elems()[k].ext.data == data
      ensures forall t :: t >= now ==> (k in Live(t) <==> !(withTimeout && timeout != 0 && t > now + timeout))
    {
      hide Valid, AddSpec, LiveOf, Elems;
      AddLasts(m, Elems(), k, nomatch, timeout, data, exist, withTimeout, now, ret);
    }

    /** Collecting does not touch the bucket of an element where nothing can be reused. */
    lemma StillCrowded(was: Table, k: Key, now: int)
      requires Valid() && TableOk(was, table.max) && TightKept(was, table.Val(), withTimeout, now)
      ensures Hkey(k) < |was.b| == table.bucket.Length
      ensures var b := was.b[Hkey(k)];
              (b.Some? ==> PlaceSpec(b.value, k, withTimeout, now, AtEnd)) ==> Crowded(k, now) && table.bucket[Hkey(k)] == b
    {
      hide Conserved, CountsOk, Stored, Dead, NetIndex.Indexed, TableOk;
      Facts();
      if was.b[Hkey(k)].Some? {
        ShapeOf(was, table.max, Hkey(k));
      }
    }

    /** mtype_add once the place is found. */
    method Settle(p: Place, key: nat, e: Entry, r: int, full: bool, mem: bool, exist: bool, now: nat, ghost m: map<Key, Entry>)
      returns (ret: Ret)
      requires Valid() && KeyOk(e.key) && key == Hkey(e.key) < table.bucket.Length && 0 <= r < table.hregion.Length
      requires Home(table.Val(), e.key) == key && !Dead(withTimeout, e, now)
      requires OnlyExpiredGone(m, Elems(), withTimeout, now)
      requires p.AtEnd? ==> Crowded(e.key, now)
      requires !p.AtEnd? ==> table.bucket[key].Some? && PlaceSpec(table.bucket[key].value, e.key, withTimeout, now, p)
      requires p.Found? ==> UsedAt(table.Val(), key, p.at) && e.key in Elems()
                            && Elems()[e.key] == table.bucket[key].value.value[p.at]
      requires !p.Found? ==> e.key !in Elems()
      modifies `next, table.bucket, table.hregion, nets.cidr, nets.nets
      ensures Valid() && AddSpec(m, Elems(), e, exist, withTimeout, now, ret)
      ensures next == if ret.Again? then old(next).(ip := e.key.ip, port := e.key.port, ip2 := e.key.ip2) else old(next)
      ensures !withTimeout && old(NoHoles(table.Val())) ==>
                && NoHoles(table.Val())
                && table.hregion[..] == (if ret.Ok? && e.key !in old(Elems()) then Bump(old(table.hregion[..]), r, 1)
                                         else old(table.hregion[..]))
                && (ret.Ok? && e.key !in old(Elems()) ==> !full)
      ensures ret in {Full, Again, NoMem} ==> p.AtEnd? && Crowded(e.key, now)
      ensures !ret.Ok? ==> Elems() == old(Elems())
      ensures p.AtEnd? ==>
                && (ret.Full? <==> full) && (ret.Again? <==> !full && old(BucketFull(key)))
                && (mem && !full && !old(BucketFull(key)) ==> ret.Ok?)
      ensures (ret.Again? ==> BucketFull(key)) && (ret.NoMem? ==> !mem) && (ret.Full? ==> full)
    {
      hide Valid, Elems, TableOk, Stored, KeyOk, Filled, Bump, NoHoles, OnlyExpiredGone, AddSpec, Dead, Crowded, BucketFull;
      match p {
        case Found(j) =>
          AddFound(m, Elems(), e, exist, withTimeout, now);
          var data := table.bucket[key].value.value[j];
          if exist || Dead(withTimeout, data, now) {
            OverwriteKeepsFull(key, j, e);
            Overwrite(key, j, e);
            ret := Ok;
          } else {
            ret := Exist;
          }
        case Reuse(j, deleted) =>
          ReuseHasHole(key, j, deleted, now);
          StoreInHole(key, j, deleted, e, r, exist, now, m);
          ret := Ok;
        case AtEnd =>
          ret := AddAtEnd(key, e, r, full, mem, exist, now, m);
      }
    }

    /** mtype_add when nothing can be reused: refused where the set is full, else stored behind the last slot. */
    method AddAtEnd(i: int, e: Entry, r: int, full: bool, mem: bool, ghost exist: bool, ghost now: int, ghost m: map<Key, Entry>)
      returns (ret: Ret)
      requires Valid() && 0 <= r < table.hregion.Length && 0 <= i < table.bucket.Length
      requires KeyOk(e.key) && Home(table.Val(), e.key) == i && e.key !in Elems() && Crowded(e.key, now)
      requires OnlyExpiredGone(m, Elems(), withTimeout, now) && !Dead(withTimeout, e, now)
      modifies `next, table.bucket, table.hregion, nets.cidr, nets.nets
      ensures Valid() && ret in {Ok, Full, Again, NoMem} && (ret.Full? <==> full)
      ensures AddSpec(m, Elems(), e, exist, withTimeout, now, ret) && (!ret.Ok? ==> Elems() == old(Elems()))
      ensures table.hregion[..] == if ret.Ok? then Bump(old(table.hregion[..]), r, 1) else old(table.hregion[..])
      ensures next == if ret.Again? then old(next).(ip := e.key.ip, port := e.key.port, ip2 := e.key.ip2) else old(next)
      ensures old(NoHoles(table.Val())) ==> NoHoles(table.Val())
      ensures (ret.Again? <==> !full && old(BucketFull(i))) && (ret.Again? ==> BucketFull(i)) && (ret.NoMem? ==> !mem)
      ensures !ret.Ok? ==> Crowded(e.key, now)
    {
      hide Valid, Elems, TableOk, Stored, KeyOk, Bump, NoHoles, OnlyExpiredGone, AddSpec, Dead, Crowded, Home, BucketFull;
      ghost var mid := Elems();
      if full {
        AddRefused(m, mid, e, exist, withTimeout, now, Full);
        return Full;
      }
      AddFresh(m, mid, e, exist, withTimeout, now);
      ret := Append(i, e, r, mem, now);
      if !ret.Ok? {
        AddRefused(m, mid, e, exist, withTimeout, now, ret);
      }
    }

    /** The bucket of an element and the place mtype_add finds for it there. */
    method Locate(k: Key, now: nat) returns (p: Place)
      requires Valid()
      ensures Valid() && Elems() == old(Elems()) && table.Val() == old(table.Val())
      ensures Hkey(k) < table.bucket.Length && Home(table.Val(), k) == Hkey(k)
      ensures p.AtEnd? <==> Crowded(k, now)
      ensures !p.AtEnd? ==> table.bucket[Hkey(k)].Some? && PlaceSpec(table.bucket[Hkey(k)].value, k, withTimeout, now, p)
      ensures p.Found? ==> UsedAt(table.Val(), Hkey(k), p.at) && k in Elems()
                           && Elems()[k] == table.bucket[Hkey(k)].value.value[p.at]
      ensures !p.Found? ==> k !in Elems()
    {
      hide TableOk, Stored, Dead, CountsOk, Conserved, NetIndex.Indexed;
      Facts();
      p := AtEnd;
      if table.bucket[Hkey(k)].Some? {
        ShapeOf(table.Val(), table.max, Hkey(k));
        p := FindPlace(table.bucket[Hkey(k)].value, k, withTimeout, now);
      }
      if p.Found? {
        UsedIsStored(table.Val(), table.max, Hkey(k), p.at);
      } else {
        NoHitAbsent(table.Val(), table.max, k);
      }
    }

    /** In a set without timeouts only a hole is reused. */
    lemma ReuseHasHole(i: int, j: int, deleted: bool, now: int)
      requires Valid() && 0 <= i < table.bucket.Length && table.bucket[i].Some?
      requires 0 <= j < table.bucket[i].value.pos && j < |table.bucket[i].value.used| && j < |table.bucket[i].value.value|
      requires deleted <==> !table.bucket[i].value.used[j]
      requires !deleted ==> Dead(withTimeout, table.bucket[i].value.value[j], now)
      ensures !withTimeout ==> !NoHoles(table.Val())
    {
      assert !withTimeout ==> !UsedAt(table.Val(), i, j);
    }

    lemma OverwriteKeepsFull(i: int, j: int, e: Entry)
      requires Valid() && UsedAt(table.Val(), i, j)
      ensures NoHoles(table.Val()) ==> NoHoles(With(table.Val(), i, Some(Overwritten(table.bucket[i].value, j, e))))
    {
      if NoHoles(table.Val()) {
        OverwriteNoHoles(table.Val(), i, j, e);
      }
    }

    /** One region gained an element within the capacity check, or no region changed. */
    ghost predicate Tallied(before: seq<int>, after: seq<int>, r: int, n: int, added: bool)
      reads `table
    {
      && 0 <= r < |before|
      && if added then AddGuard(before[r], table.maxelem, n, maxelem) && after == Bump(before, r, 1)
         else after == before
    }

    // ---------- Deleting ----------

    /** The last slot in use is given up. */
    method DropLast(i: int, at: int, holes: int)
      requires Valid() && 0 <= i < table.bucket.Length && table.bucket[i].Some?
      requires var b := table.bucket[i].value;
               0 <= at < b.pos && b.pos <= |b.used| && b.pos <= b.size && !b.used[at] && holes == at - UsedCount(b.used, at)
      modifies table.bucket
      ensures Valid() && Elems() == old(Elems()) && table.bucket[i].Some?
      ensures var b := table.bucket[i].value;
              at <= b.pos <= |b.used| && b.pos <= b.size && holes == at - UsedCount(b.used, at)
    {
      hide CountsOk, TableOk, Conserved, Stored, NetIndex.Indexed, UsedCount;
      if at + 1 == table.bucket[i].value.pos {
        table.LowerPos(i);
      }
    }

    /** The part of mtype_del that follows clearing slot `at`; k counts the holes below it. */
    method Tidy(i: int, at: int, holes: int, mem: bool)
      requires Valid() && 0 <= i < table.bucket.Length && table.bucket[i].Some?
      requires var b := table.bucket[i].value;
               0 <= at < b.pos && b.pos <= |b.used| && b.pos <= b.size && !b.used[at] && holes == at - UsedCount(b.used, at)
      modifies table.bucket
      ensures Valid() && Elems() == old(Elems()) && (mem ==> Dense(table.bucket[i]))
    {
      hide CountsOk, TableOk, Conserved, Stored, NetIndex.Indexed, UsedCount;
      DropLast(i, at, holes);
      var n := table.bucket[i].value;
      var k := CountHoles(n, at, holes);
      Shrink(i, k, mem);
    }

    /** mtype_del frees a bucket that never had more, and compacts one with two holes. */
    method Shrink(i: int, k: int, mem: bool)
      requires Valid() && 0 <= i < table.bucket.Length && table.bucket[i].Some?
      requires var b := table.bucket[i].value; b.pos <= |b.used| && b.pos <= b.size && k == b.pos - UsedCount(b.used, b.pos)
      modifies table.bucket
      ensures Valid() && Elems() == old(Elems()) && (mem ==> Dense(table.bucket[i]))
    {
      hide CountsOk, TableOk, Conserved, Stored, NetIndex.Indexed;
      if table.bucket[i].value.pos == 0 && k == 0 {
        table.Free(i);
      } else if k >= AHASH_INIT_SIZE {
        var got: bool := *;
        if mem || got {
          table.Compact(i);
        }
      }
    }

    /** mtype_del. */
    method Del(k: Key, mem: bool, now: nat) returns (ret: Ret)
      requires Valid()
      modifies table.bucket, table.hregion, nets.cidr, nets.nets
      ensures Valid() && ret in {Ok, Exist}
      ensures ret.Ok? <==> k in old(Live(now))
      ensures Elems() == if ret.Ok? then old(Elems()) - {k} else old(Elems())
      ensures Hkey(k) < table.bucket.Length && (ret.Ok? && mem ==> Dense(table.bucket[Hkey(k)]))
    {
      hide CountsOk, TableOk, Conserved, Stored, NetIndex.Indexed, Bump;
      var key := Hkey(k);
      var r := key % NumLocks(table.bits);
      TableLength(table.Val(), table.max);
      if table.bucket[key].None? {
        NoHitAbsent(table.Val(), table.max, k);
        return Exist;
      }
      var n := table.bucket[key].value;
      ShapeOf(table.Val(), table.max, key);
      var at, holes := FindSlot(n, k);
      if at < 0 {
        NoHitAbsent(table.Val(), table.max, k);
        return Exist;
      }
      UsedIsStored(table.Val(), table.max, key, at);
      if Dead(withTimeout, n.value[at], now) {
        return Exist;
      }
      Remove(key, at, holes, r, mem);
      ret := Ok;
    }

    /** The element in slot `at` goes, and the bucket is tidied. */
    method Remove(i: int, at: int, holes: int, r: int, mem: bool)
      requires Valid() && UsedAt(table.Val(), i, at) && 0 <= r < table.hregion.Length
      requires var n := table.bucket[i].value; n.pos <= |n.used| && n.pos <= n.size && holes == at - UsedCount(n.used, at)
      modifies table.bucket, table.hregion, nets.cidr, nets.nets
      ensures Valid() && Elems() == old(Elems()) - {old(KeyAt(table.Val(), i, at))} && (mem ==> Dense(table.bucket[i]))
    {
      hide CountsOk, TableOk, Conserved, Stored, NetIndex.Indexed, Bump, UsedCount;
      UsedCountPrefix(table.bucket[i].value.used, Cleared(table.bucket[i].value, at).used, at);
      Erase(i, at, r);
      Tidy(i, at, holes, mem);
    }

    // ---------- Testing ----------

    /** The hash lookup of an exact element, skipping it when expired. */
    method Probe(d: Key, now: nat) returns (v: Verdict)
      requires Valid()
      ensures v == Miss <==> d !in Live(now)
      ensures v == Match <==> d in Live(now) && !Live(now)[d].nomatch
    {
      hide CountsOk, TableOk, Conserved, Stored, NetIndex.Indexed;
      var key := Hkey(d);
      TableLength(table.Val(), table.max);
      StoredFind(table.Val(), table.max, d);
      if table.bucket[key].None? {
        return Miss;
      }
      ShapeOf(table.Val(), table.max, key);
      v := MatchIn(table.bucket[key].value, d, withTimeout, now);
    }

    /** mtype_test_cidrs: probing with the address masked to every listed length, longest first. */
    method TestCidrs(d0: Key, now: nat) returns (v: Verdict)
      requires Valid() && Prefix(d0) == HOST_MASK
      ensures LpmSpec(Live(now), d0, v)
      ensures v == Match <==> exists k :: LongestCandidate(Live(now), d0, k) && !Live(now)[k].nomatch
      ensures v == NotEmpty <==> exists k :: LongestCandidate(Live(now), d0, k) && Live(now)[k].nomatch
    {
      hide CountsOk, TableOk, Conserved, Stored, LpmSpec, NetIndex.Lists, LiveOf, LongestCandidate, Candidate, KeyOk;
      AllListed(now);
      ghost var col, n, live := nets.cidr[..], NetIndex.Filled(nets.cidr[..]), Live(now);
      var d, j := d0, 0;
      while j < NetIndex.NLEN && nets.cidr[j] != 0
        invariant 0 <= j <= n && NetIndex.SortedColumn(col, n)
        invariant d == if j == 0 then d0 else Masked(d0, col[j - 1])
        invariant forall p :: 0 <= p < j ==> Masked(d0, col[p]) !in live
      {
        if j > 0 {
          MaskedTwice(d0, col[j - 1], col[j]);
        }
        d := Masked(d, nets.cidr[j]);
        v := Probe(d, now);
        if v != Miss {
          LpmFromIndex(live, d0, col, n, j, v);
          LpmIff(live, d0, v);
          return;
        }
        j := j + 1;
      }
      v := Miss;
      LpmFromIndex(live, d0, col, n, n, v);
      LpmIff(live, d0, v);
    }

    /** Every live element's prefix length is listed in the index. */
    lemma AllListed(now: nat)
      requires Valid()
      ensures forall k :: k in Live(now) ==> KeyOk(k) && Ncidr(k) in nets.cidr[..]
    {
      forall k | k in Live(now)
        ensures KeyOk(k) && Ncidr(k) in nets.cidr[..]
      {
        CountPositive(nets.nets[..], Elems(), k, !withTimeout);
      }
    }

    /** mtype_test: a host address is tested against all prefixes, a network exactly. */
    method Test(d: Key, now: nat) returns (v: Verdict)
      requires Valid()
      ensures TestSpec(Live(now), d, v)
      ensures Prefix(d) == HOST_MASK ==> (v == Match <==> exists k :: LongestCandidate(Live(now), d, k) && !Live(now)[k].nomatch)
      ensures Prefix(d) != HOST_MASK ==> (v == Match <==> d in Live(now) && !Live(now)[d].nomatch)
    {
      if Prefix(d) == HOST_MASK {
        v := TestCidrs(d, now);
      } else {
        v := Probe(d, now);
      }
    }

    // ---------- Flushing ----------

    /** The body of the region loop of mtype_flush. */
    method FlushRegion(r: nat)
      requires r < NumLocks(table.bits) == table.hregion.Length && table.bucket.Length == Pow2(table.bits)
      requires forall x :: 0 <= x < RegionStart(r, table.bits) && x < table.bucket.Length ==> table.bucket[x].None?
      requires forall x :: 0 <= x < r ==> table.hregion[x] == 0
      modifies table.bucket, table.hregion
      ensures forall x :: 0 <= x < RegionEnd(r, table.bits) && x < table.bucket.Length ==> table.bucket[x].None?
      ensures forall x :: 0 <= x <= r ==> table.hregion[x] == 0
    {
      hide RegionStart, RegionEnd, NumLocks, Pow2;
      RegionInTable(r, table.bits);
      for i := RegionStart(r, table.bits) to RegionEnd(r, table.bits)
        invariant forall x :: 0 <= x < i ==> table.bucket[x].None?
        invariant forall x :: 0 <= x < r ==> table.hregion[x] == 0
      {
        table.bucket[i] := None;
      }
      table.hregion[r] := 0;
    }

    /** mtype_flush. */
    method Flush()
      requires Valid()
      modifies table.bucket, table.hregion, nets.cidr, nets.nets
      ensures Valid() && Elems() == map[]
    {
      hide Conserved, TableOk, Stored, RegionStart, RegionEnd, Pow2, NetIndex.Indexed, CountsOk;
      TableLength(table.Val(), table.max);
      var locks := NumLocks(table.bits);
      RegionsAbut(0, table.bits);
      for r := 0 to locks
        invariant forall x :: 0 <= x < (if r < locks then RegionStart(r, table.bits) else Pow2(table.bits)) ==>
                    x < table.bucket.Length ==> table.bucket[x].None?
        invariant forall x :: 0 <= x < r ==> table.hregion[x] == 0
        invariant nets.Valid()
      {
        RegionsAbut(r, table.bits);
        RegionInTable(r, table.bits);
        FlushRegion(r);
      }
      nets.Clear();
      Emptied();
      NoneCounted(nets.nets[..], !withTimeout);
    }

    lemma NoneCounted(counts: seq<int>, exact: bool)
      requires |counts| == NetIndex.NLEN && forall i :: 0 <= i < |counts| ==> counts[i] == 0
      ensures CountsOk(counts, map[], exact)
    {
      assert forall c :: NetCount(map[], c) == 0;
    }

    lemma Emptied()
      requires table.bucket.Length == Pow2(table.bits) && table.hregion.Length == NumLocks(table.bits)
      requires forall i :: 0 <= i < table.bucket.Length ==> table.bucket[i].None?
      requires forall r :: 0 <= r < table.hregion.Length ==> table.hregion[r] == 0
      ensures TableOk(table.Val(), table.max) && table.Contents() == map[]
      ensures Conserved(table.hregion[..], 0)
    {
      SumZero(table.hregion[..]);
      assert forall k :: Look(table.Val(), k).None?;
    }
  }

  const DEFAULT_MAXELEM: nat := 65536

  /** The create command once its attributes are read: no set when the table is too large or memory is short. */
  method CreateSet(hash: Key -> nat, hashsize: Option<nat>, maxelem: Option<nat>, bucketsize: Option<nat>, withTimeout: bool,
                   mem: bool)
    returns (s: HashSet?)
    requires maxelem.Some? ==> maxelem.value < U32
    ensures s == null <==> Hbits(hashsize) > MAX_BITS || !mem
    ensures s != null ==>
              && fresh(s) && fresh(s.Repr()) && s.Valid() && s.Elems() == map[] && NoHoles(s.table.Val())
              && s.hash == hash && s.withTimeout == withTimeout && s.table.bits == Hbits(hashsize)
              && s.maxelem == (if maxelem.Some? then maxelem.value else DEFAULT_MAXELEM)
              && s.bucketsize == HashSet.ClampBucketsize(bucketsize)
              && forall r :: 0 <= r < s.table.hregion.Length ==> s.table.hregion[r] == 0
  {
    var hbits := Hbits(hashsize);
    HtableSizeBound(hbits);
    if HtableSize(hbits) == 0 || !mem {
      return null;
    }
    s := new HashSet(hash, hbits, if maxelem.Some? then maxelem.value else DEFAULT_MAXELEM, bucketsize, withTimeout);
  }

  /** The search loop of mtype_add. */
  method FindPlace(n: Bucket, k: Key, wt: bool, now: int) returns (p: Place)
    requires n.pos <= |n.used| && n.pos <= |n.value|
    ensures PlaceSpec(n, k, wt, now, p)
  {
    var j, deleted, reuse := -1, false, false;
    for i := 0 to n.pos
      invariant forall x :: x < i ==> !Hit(n, x, k)
      invariant reuse <==> j != -1
      invariant j == -1 ==> !deleted && forall x :: 0 <= x < i ==> n.used[x] && !Dead(wt, n.value[x], now)
      invariant j != -1 ==> 0 <= j < i && (deleted <==> !n.used[j]) && (!deleted ==> Dead(wt, n.value[j], now))
    {
      if !n.used[i] {
        if j == -1 {
          deleted, reuse, j := true, true, i;
        }
        continue;
      }
      if n.value[i].key == k {
        return Found(i);
      }
      if Dead(wt, n.value[i], now) && j == -1 {
        j, reuse := i, true;
      }
    }
    p := if reuse then Reuse(j, deleted) else AtEnd;
  }

  /** The search loop of mtype_del: the slot of an element and the holes passed on the way. */
  method FindSlot(n: Bucket, k: Key) returns (at: int, holes: int)
    requires n.pos <= |n.used| && n.pos <= |n.value|
    ensures at < 0 ==> forall x :: !Hit(n, x, k)
    ensures at >= 0 ==> Hit(n, at, k) && holes == at - UsedCount(n.used, at)
  {
    holes := 0;
    for i := 0 to n.pos
      invariant forall x :: x < i ==> !Hit(n, x, k)
      invariant holes == i - UsedCount(n.used, i)
    {
      if !n.used[i] {
        holes := holes + 1;
      } else if n.value[i].key == k {
        return i, holes;
      }
    }
    at := -1;
  }

  /** The second hole-counting loop of mtype_del. */
  method CountHoles(n: Bucket, at: nat, holes: int) returns (k: int)
    requires at <= n.pos <= |n.used| && holes == at - UsedCount(n.used, at)
    ensures k == n.pos - UsedCount(n.used, n.pos)
  {
    k := holes;
    for x := at to n.pos
      invariant k == x - UsedCount(n.used, x)
    {
      if !n.used[x] {
        k := k + 1;
      }
    }
  }

  /** The bucket loop of the tests: mtype_data_equal and mtype_data_match. */
  method MatchIn(n: Bucket, d: Key, wt: bool, now: int) returns (v: Verdict)
    requires n.pos <= |n.used| && n.pos <= |n.value| && UniqueKeys(n)
    ensures var f := Find(Some(n), d);
            if f.None? || Dead(wt, f.value, now) then v == Miss else v == if f.value.nomatch then NotEmpty else Match
  {
    for i := 0 to n.pos
      invariant forall x :: x < i && Hit(n, x, d) ==> Dead(wt, n.value[x], now)
    {
      if n.used[i] && n.value[i].key == d && !Dead(wt, n.value[i], now) {
        FindHit(n, n.pos, i, d);
        return if n.value[i].nomatch then NotEmpty else Match;
      }
    }
    v := Miss;
  }
}
