/**
 How far maxelem bounds a hash set: runs of adds only, without timeouts, over a table of L regions.

 Each region may fill its share maxelem / L without looking at the others, and beyond it as long as
 the whole set has fewer than maxelem elements, so the total can pass maxelem, but by at most
 L - 1 shares.
 */
module Capacity {
  import opened Options
  import opened Pfxlen
  import opened HashModel
  import opened HashTable
  import opened HashSpec
  import opened HashSets

  function Max(a: int, b: int): int {
    if a < b then b else a
  }

  /** The sum of max(count, share) over the regions. */
  ghost function Claimed(regions: seq<int>, cap: int): int {
    if regions == [] then 0 else Max(regions[0], cap) + Claimed(regions[1..], cap)
  }

  function Bound(maxelem: int, locks: nat): int
    requires locks > 0
  {
    maxelem + (locks - 1) * (maxelem / locks)
  }

  ghost predicate CapInv(regions: seq<int>, maxelem: int) {
    && |regions| > 0 && maxelem >= 0
    && (forall r :: 0 <= r < |regions| ==> regions[r] >= 0)
    && Claimed(regions, maxelem / |regions|) <= Bound(maxelem, |regions|)
  }

  lemma {:induction false} ClaimedUpdate(regions: seq<int>, cap: int, r: int, v: int)
    requires 0 <= r < |regions|
    ensures Claimed(regions[r := v], cap) == Claimed(regions, cap) - Max(regions[r], cap) + Max(v, cap)
  {
    if r == 0 {
      assert regions[r := v][1..] == regions[1..];
    } else {
      ClaimedUpdate(regions[1..], cap, r - 1, v);
      assert regions[r := v][1..] == regions[1..][r - 1 := v];
    }
  }

  lemma {:induction false} SumBelowClaimed(regions: seq<int>, cap: int)
    ensures Sum(regions) <= Claimed(regions, cap)
  {
    if regions != [] {
      SumBelowClaimed(regions[1..], cap);
    }
  }

  /** Beyond a full region, every other region claims at most its count plus one share. */
  lemma {:induction false} ClaimedAbove(regions: seq<int>, cap: int)
    requires cap >= 0 && forall q :: 0 <= q < |regions| ==> regions[q] >= 0
    ensures Claimed(regions, cap) <= Sum(regions) + |regions| * cap
  {
    if regions != [] {
      ClaimedAbove(regions[1..], cap);
      assert |regions| * cap == |regions[1..]| * cap + cap;
    }
  }

  lemma ClaimedFull(regions: seq<int>, cap: int, r: int)
    requires cap >= 0 && 0 <= r < |regions| && regions[r] >= cap
    requires forall q :: 0 <= q < |regions| ==> regions[q] >= 0
    ensures Claimed(regions, cap) <= Sum(regions) + (|regions| - 1) * cap
  {
    var others := regions[r := 0];
    ClaimedUpdate(regions, cap, r, 0);
    SumUpdate(regions, r, 0);
    ClaimedAbove(others, cap);
    assert |regions| * cap == (|regions| - 1) * cap + cap;
  }

  lemma BoundStep(maxelem: int, locks: nat, sum: int, cap: int)
    requires locks > 0 && cap == maxelem / locks && sum < maxelem
    ensures sum + (locks - 1) * cap < Bound(maxelem, locks)
  {
  }

  /** An add that passes the capacity check keeps the invariant, and no counter wraps. */
  lemma CapStep(regions: seq<int>, maxelem: int, r: int)
    requires CapInv(regions, maxelem) && Sum(regions) < HALF && 0 <= r < |regions|
    requires AddGuard(regions[r], maxelem / |regions|, Sum(regions), maxelem)
    ensures regions[r] + 1 < U32 && CapInv(Bump(regions, r, 1), maxelem)
    ensures Sum(Bump(regions, r, 1)) == Sum(regions) + 1
  {
    hide Bound, Bump, Claimed, Sum;
    var cap := maxelem / |regions|;
    SumNonneg(regions, r);
    ShareBelow(maxelem, |regions|);
    BumpExact(regions, r);
    ClaimedUpdate(regions, cap, r, regions[r] + 1);
    SumUpdate(regions, r, regions[r] + 1);
    if regions[r] >= cap {
      FullRegion(regions, maxelem, r);
    }
  }

  lemma BumpExact(regions: seq<int>, r: int)
    requires 0 <= r < |regions| && 0 <= regions[r] && regions[r] + 1 < U32
    ensures Bump(regions, r, 1) == regions[r := regions[r] + 1]
  {
  }

  /** Where the share is used up, the whole set must have room, and then so has the bound. */
  lemma FullRegion(regions: seq<int>, maxelem: int, r: int)
    requires CapInv(regions, maxelem) && 0 <= r < |regions|
    requires Sum(regions) < maxelem && regions[r] >= maxelem / |regions|
    ensures Claimed(regions, maxelem / |regions|) < Bound(maxelem, |regions|)
  {
    hide Bound;
    var cap := maxelem / |regions|;
    SumBelowClaimed(regions, cap);
    AllNonneg(regions);
    ClaimedFull(regions, cap, r);
    BoundStep(maxelem, |regions|, Sum(regions), cap);
  }

  lemma {:induction false} SumNonneg(regions: seq<int>, r: int)
    requires forall q :: 0 <= q < |regions| ==> regions[q] >= 0
    requires 0 <= r < |regions|
    ensures 0 <= regions[r] <= Sum(regions)
  {
    AllNonneg(regions[1..]);
    if r > 0 {
      SumNonneg(regions[1..], r - 1);
    }
  }

  lemma {:induction false} AllNonneg(regions: seq<int>)
    requires forall q :: 0 <= q < |regions| ==> regions[q] >= 0
    ensures Sum(regions) >= 0
  {
    if regions != [] {
      AllNonneg(regions[1..]);
    }
  }

  lemma ShareBelow(maxelem: int, locks: nat)
    requires maxelem >= 0 && locks > 0
    ensures 0 <= maxelem / locks <= maxelem <= Bound(maxelem, locks)
  {
    var q := maxelem / locks;
    assert maxelem == q * locks + maxelem % locks;
    MulMono(0, locks - 1, q);
    assert q * locks == (locks - 1) * q + q;
  }

  lemma {:induction false} ClaimedEmpty(regions: seq<int>, cap: int)
    requires cap >= 0 && forall q :: 0 <= q < |regions| ==> regions[q] == 0
    ensures Claimed(regions, cap) == |regions| * cap
  {
    if regions != [] {
      ClaimedEmpty(regions[1..], cap);
      assert |regions| * cap == |regions[1..]| * cap + cap;
    }
  }

  lemma CapStart(regions: seq<int>, maxelem: int)
    requires |regions| > 0 && maxelem >= 0 && forall q :: 0 <= q < |regions| ==> regions[q] == 0
    ensures CapInv(regions, maxelem)
  {
    var l, cap := |regions|, maxelem / |regions|;
    ClaimedEmpty(regions, cap);
    assert l * cap == (l - 1) * cap + cap;
    ShareBelow(maxelem, l);
  }

  /** With one region the bound is maxelem itself. */
  lemma BoundOneRegion(maxelem: int)
    ensures Bound(maxelem, 1) == maxelem
  {
  }

  datatype NewElem = NewElem(k: Key, nomatch: bool, data: int, exist: bool, now: nat)

  /**
   Any run of adds into a new set without timeouts stays within the bound, for every size that create
   accepts, and the counters add up to the number of elements without wrapping.
   */
  method AddAll(hash: Key -> nat, hashsize: Option<nat>, maxelem: Option<nat>, bucketsize: Option<nat>, mem: bool,
                elems: seq<NewElem>)
    returns (s: HashSet?)
    requires (maxelem.Some? ==> maxelem.value < U32) && forall i :: 0 <= i < |elems| ==> KeyOk(elems[i].k)
    ensures s == null <==> Hbits(hashsize) > MAX_BITS || !mem
    ensures s != null ==> s.Valid() && s.table.bits == Hbits(hashsize)
                          && s.maxelem == if maxelem.Some? then maxelem.value else DEFAULT_MAXELEM
    ensures s != null ==> Sum(s.table.hregion[..]) == |s.Elems()| <= Bound(s.maxelem, NumLocks(s.table.bits))
  {
    hide HashSet.Valid, NoHoles, CapInv, Bound, AddSpec, AddGuard, Bump, NumLocks, Sum;
    s := CreateSet(hash, hashsize, maxelem, bucketsize, false, mem);
    if s == null {
      return;
    }
    ghost var t := s.table;
    Facts(s);
    CapStart(t.hregion[..], s.maxelem);
    SumZero(t.hregion[..]);
    for i := 0 to |elems|
      invariant s.Valid() && s.table == t && NoHoles(t.Val()) && fresh(s) && fresh(s.Repr())
      invariant CapInv(t.hregion[..], s.maxelem) && Sum(t.hregion[..]) == |s.Elems()|
    {
      var e := elems[i];
      Facts(s);
      Small(s);
      ghost var m, regions := s.Elems(), t.hregion[..];
      var got: bool := *;
      var ret := s.Add(e.k, e.nomatch, 0, e.data, e.exist, got, e.now);
      AddedSize(m, s.Elems(), MakeEntry(false, e.k, e.nomatch, 0, e.data, e.now), e.exist, e.now, ret);
      if ret.Ok? && e.k !in m {
        CapStep(regions, s.maxelem, s.Hkey(e.k) % NumLocks(t.bits));
      }
    }
    Facts(s);
    Total(t.hregion[..], s.maxelem);
  }

  lemma Small(s: HashSet)
    requires s.Valid()
    ensures |s.Elems()| < HALF
  {
    StoredSmall(s.table.Val(), s.table.max);
  }

  lemma Facts(s: HashSet)
    requires s.Valid()
    ensures |s.table.hregion[..]| == NumLocks(s.table.bits)
    ensures s.table.maxelem == s.maxelem / NumLocks(s.table.bits)
  {
  }

  lemma Total(regions: seq<int>, maxelem: int)
    requires CapInv(regions, maxelem)
    ensures Sum(regions) <= Bound(maxelem, |regions|)
  {
    SumBelowClaimed(regions, maxelem / |regions|);
  }

  lemma AddedSize(m: map<Key, Entry>, m': map<Key, Entry>, e: Entry, exist: bool, now: int, ret: Ret)
    requires AddSpec(m, m', e, exist, false, now, ret)
    ensures |m'| == |m| + if ret.Ok? && e.key !in m then 1 else 0
  {
    assert LiveOf(m, false, now) == m && LiveOf(m', false, now) == m';
    assert m[e.key := e].Keys == m.Keys + {e.key};
  }
}
