/**
 mtype_list: dumping a table over several netlink messages of limited room.
 The table is fixed: a dump holds a reference to it.
 */
module HashList {
  import opened Options
  import opened HashModel
  import opened HashTable

  /** 0 or -EMSGSIZE. */
  datatype ListRet = Done | TooBig

  /** The unexpired entries among the first j slots of a bucket, in slot order. */
  ghost function SlotsLive(b: Bucket, j: nat, wt: bool, now: int): seq<Entry>
    requires j <= |b.used| && j <= |b.value|
  {
    if j == 0 then []
    else SlotsLive(b, j - 1, wt, now)
         + if b.used[j - 1] && !Dead(wt, b.value[j - 1], now) then [b.value[j - 1]] else []
  }

  ghost function BucketLive(b: Option<Bucket>, wt: bool, now: int): seq<Entry> {
    if b.Some? && b.value.pos <= |b.value.used| && b.value.pos <= |b.value.value|
    then SlotsLive(b.value, b.value.pos, wt, now) else []
  }

  /** What a message listing buckets lo..hi-1 contains. */
  ghost function RangeLive(t: Table, lo: nat, hi: nat, wt: bool, now: int): seq<Entry>
    requires lo <= hi <= |t.b|
    decreases hi
  {
    if lo == hi then [] else RangeLive(t, lo, hi - 1, wt, now) + BucketLive(t.b[hi - 1], wt, now)
  }

  lemma {:induction false} RangeSplit(t: Table, lo: nat, mid: nat, hi: nat, wt: bool, now: int)
    requires lo <= mid <= hi <= |t.b|
    ensures RangeLive(t, lo, hi, wt, now) == RangeLive(t, lo, mid, wt, now) + RangeLive(t, mid, hi, wt, now)
    decreases hi
  {
    if mid < hi {
      RangeSplit(t, lo, mid, hi - 1, wt, now);
      Assoc(RangeLive(t, lo, mid, wt, now), RangeLive(t, mid, hi - 1, wt, now), BucketLive(t.b[hi - 1], wt, now));
    }
  }

  lemma Assoc<T>(a: seq<T>, b: seq<T>, c: seq<T>)
    ensures (a + b) + c == a + (b + c)
  {
  }

  // ---------- A complete listing names every live element once ----------

  ghost predicate NoTwice(s: seq<Entry>) {
    forall i, j :: 0 <= i < j < |s| ==> s[i].key != s[j].key
  }

  lemma {:induction false} SlotsMembers(b: Bucket, max: nat, j: nat, wt: bool, now: int)
    requires BucketOk(b, max) && j <= b.pos
    ensures NoTwice(SlotsLive(b, j, wt, now))
    ensures forall e :: e in SlotsLive(b, j, wt, now)
                        <==> exists x :: 0 <= x < j && Used(b, x) && b.value[x] == e && !Dead(wt, e, now)
  {
    if j > 0 {
      SlotsMembers(b, max, j - 1, wt, now);
      var rest := SlotsLive(b, j - 1, wt, now);
      forall i | 0 <= i < |rest| && b.used[j - 1]
        ensures rest[i].key != b.value[j - 1].key
      {
        assert rest[i] in rest;
      }
      if b.used[j - 1] {
        assert Used(b, j - 1);
      }
    }
  }

  lemma {:induction false} RangeMembers(t: Table, max: nat, hi: nat, wt: bool, now: int)
    requires TableOk(t, max) && hi <= |t.b|
    ensures NoTwice(RangeLive(t, 0, hi, wt, now))
    ensures forall e :: e in RangeLive(t, 0, hi, wt, now)
                        <==> exists i, x :: 0 <= i < hi && UsedAt(t, i, x) && t.b[i].value.value[x] == e && !Dead(wt, e, now)
  {
    if hi > 0 {
      RangeMembers(t, max, hi - 1, wt, now);
      var rest, new_ := RangeLive(t, 0, hi - 1, wt, now), BucketLive(t.b[hi - 1], wt, now);
      BucketMembers(t, max, hi - 1, wt, now);
      OtherBucket(t, max, hi - 1, rest, new_);
      OneMore(t, hi - 1, rest, new_, wt, now);
    }
  }

  lemma BucketMembers(t: Table, max: nat, i: nat, wt: bool, now: int)
    requires TableOk(t, max) && i < |t.b|
    ensures NoTwice(BucketLive(t.b[i], wt, now))
    ensures forall e :: e in BucketLive(t.b[i], wt, now)
                        <==> exists x :: UsedAt(t, i, x) && t.b[i].value.value[x] == e && !Dead(wt, e, now)
  {
    if t.b[i].Some? {
      ShapeOf(t, max, i);
      var b := t.b[i].value;
      SlotsMembers(b, max, b.pos, wt, now);
      assert forall x :: UsedAt(t, i, x) <==> 0 <= x < b.pos && Used(b, x);
    }
  }

  /** The members of one more bucket. */
  lemma OneMore(t: Table, last: nat, rest: seq<Entry>, new_: seq<Entry>, wt: bool, now: int)
    requires last < |t.b|
    requires forall e :: e in rest
                         <==> exists i, x :: 0 <= i < last && UsedAt(t, i, x) && t.b[i].value.value[x] == e && !Dead(wt, e, now)
    requires forall e :: e in new_ <==> exists x :: UsedAt(t, last, x) && t.b[last].value.value[x] == e && !Dead(wt, e, now)
    ensures forall e :: e in rest + new_
                        <==> exists i, x :: 0 <= i < last + 1 && UsedAt(t, i, x) && t.b[i].value.value[x] == e && !Dead(wt, e, now)
  {
    hide UsedAt, Dead;
  }

  lemma OtherBucket(t: Table, max: nat, last: nat, rest: seq<Entry>, new_: seq<Entry>)
    requires TableOk(t, max) && last < |t.b|
    requires forall e :: e in rest ==> exists i, x :: 0 <= i < last && UsedAt(t, i, x) && t.b[i].value.value[x] == e
    requires forall e :: e in new_ ==> exists x :: UsedAt(t, last, x) && t.b[last].value.value[x] == e
    ensures forall i, j :: 0 <= i < |rest| && 0 <= j < |new_| ==> rest[i].key != new_[j].key
  {
    forall i, j | 0 <= i < |rest| && 0 <= j < |new_|
      ensures rest[i].key != new_[j].key
    {
      assert rest[i] in rest && new_[j] in new_;
      var a, x :| 0 <= a < last && UsedAt(t, a, x) && t.b[a].value.value[x] == rest[i];
      var y :| UsedAt(t, last, y) && t.b[last].value.value[y] == new_[j];
      UsedIsStored(t, max, a, x);
      UsedIsStored(t, max, last, y);
    }
  }

  /** A complete listing is exactly the set of live elements, each once. */
  lemma ListingExact(t: Table, max: nat, wt: bool, now: int)
    requires TableOk(t, max)
    ensures var out, live := RangeLive(t, 0, |t.b|, wt, now), LiveOf(Stored(t, max), wt, now);
            && NoTwice(out)
            && (forall e :: e in out <==> e.key in live && live[e.key] == e)
  {
    var out, m := RangeLive(t, 0, |t.b|, wt, now), Stored(t, max);
    RangeMembers(t, max, |t.b|, wt, now);
    forall e
      ensures e in out <==> e.key in LiveOf(m, wt, now) && LiveOf(m, wt, now)[e.key] == e
    {
      if e in out {
        var i, x :| 0 <= i < |t.b| && UsedAt(t, i, x) && t.b[i].value.value[x] == e && !Dead(wt, e, now);
        UsedIsStored(t, max, i, x);
      }
      if e.key in LiveOf(m, wt, now) && LiveOf(m, wt, now)[e.key] == e {
        var x := StoredIsUsed(t, max, e.key);
        assert UsedAt(t, Home(t, e.key), x) && t.b[Home(t, e.key)].value.value[x] == e;
      }
    }
  }

  // ---------- Room in a message ----------

  /** The header of a nested attribute. */
  const NEST_HDR: nat := 4

  /** Bytes of listed entries, each in a nest of its own around `size` bytes of element and extensions. */
  ghost function Bytes(s: seq<Entry>, size: Entry -> nat): nat {
    if s == [] then 0 else Bytes(s[..|s| - 1], size) + NEST_HDR + size(s[|s| - 1])
  }

  lemma {:induction false} BytesCat(a: seq<Entry>, b: seq<Entry>, size: Entry -> nat)
    ensures Bytes(a + b, size) == Bytes(a, size) + Bytes(b, size)
  {
    if b == [] {
      assert a + b == a;
    } else {
      BytesCat(a, b[..|b| - 1], size);
      assert (a + b)[..|a + b| - 1] == a + b[..|b| - 1];
    }
  }

  /** What bucket i lists fits into an empty message with `room` bytes. */
  ghost predicate BucketFits(t: Table, i: nat, wt: bool, now: int, room: nat, size: Entry -> nat)
    requires i < |t.b|
  {
    NEST_HDR + Bytes(BucketLive(t.b[i], wt, now), size) <= room
  }

  /** The same for the buckets lo..hi-1. */
  ghost predicate EachFits(t: Table, lo: nat, hi: nat, wt: bool, now: int, room: nat, size: Entry -> nat)
    requires hi <= |t.b|
  {
    forall i :: lo <= i < hi ==> BucketFits(t, i, wt, now, room, size)
  }

  /** Bucket 0 fits the first message, which has room for `head` bytes, and each other one a later message. */
  ghost predicate Listable(t: Table, hi: nat, wt: bool, now: int, head: nat, room: nat, size: Entry -> nat)
    requires hi <= |t.b|
  {
    (hi > 0 ==> BucketFits(t, 0, wt, now, head, size)) && EachFits(t, 1, hi, wt, now, room, size)
  }

  /** Listing goes on at `first`: what one more message means for it. */
  lemma ListableMore(t: Table, first: nat, hi: nat, wt: bool, now: int, head: nat, room: nat, size: Entry -> nat)
    requires first < hi <= |t.b| && head <= room && Listable(t, first, wt, now, head, room, size)
    ensures var here := if first == 0 then head else room;
            && (EachFits(t, first, hi, wt, now, here, size) ==> Listable(t, hi, wt, now, head, room, size))
            && (!BucketFits(t, first, wt, now, here, size) ==> !Listable(t, |t.b|, wt, now, head, room, size))
  {
    hide Bytes, BucketLive;
    if first == 0 && EachFits(t, first, hi, wt, now, head, size) {
      assert BucketFits(t, 0, wt, now, head, size);
      forall i | 1 <= i < hi
        ensures BucketFits(t, i, wt, now, room, size)
      {
        assert BucketFits(t, i, wt, now, head, size);
      }
    }
  }

  lemma RangeMore(t: Table, lo: nat, hi: nat, wt: bool, now: int, size: Entry -> nat)
    requires lo <= hi < |t.b|
    ensures Bytes(RangeLive(t, lo, hi + 1, wt, now), size)
            == Bytes(RangeLive(t, lo, hi, wt, now), size) + Bytes(BucketLive(t.b[hi], wt, now), size)
  {
    BytesCat(RangeLive(t, lo, hi, wt, now), BucketLive(t.b[hi], wt, now), size);
  }

  lemma SlotsGrow(b: Bucket, i: nat, j: nat, wt: bool, now: int, size: Entry -> nat)
    requires i <= j <= |b.used| && j <= |b.value|
    ensures Bytes(SlotsLive(b, i, wt, now), size) <= Bytes(SlotsLive(b, j, wt, now), size)
    decreases j
  {
    if i < j {
      SlotsGrow(b, i, j - 1, wt, now, size);
      BytesCat(SlotsLive(b, j - 1, wt, now), if b.used[j - 1] && !Dead(wt, b.value[j - 1], now) then [b.value[j - 1]] else [],
               size);
    }
  }

  // ---------- The calls ----------

  /** The slot loop behind `len` bytes: the entries of one bucket, or the point where there is no room. */
  method ListBucket(b: Bucket, ghost max: nat, wt: bool, now: int, len: nat, room: nat, size: Entry -> nat)
    returns (full: bool, nested: bool, out: seq<Entry>, end: nat)
    requires BucketOk(b, max) && len <= room
    ensures full <==> len + Bytes(SlotsLive(b, b.pos, wt, now), size) > room
    ensures !full ==> out == SlotsLive(b, b.pos, wt, now) && end == len + Bytes(out, size)
  {
    out, end := [], len;
    for i := 0 to b.pos
      invariant out == SlotsLive(b, i, wt, now)
      invariant end == len + Bytes(out, size) <= room
    {
      if b.used[i] && !Dead(wt, b.value[i], now) {
        BytesCat(out, [b.value[i]], size);
        SlotsGrow(b, i + 1, b.pos, wt, now, size);
        if end + NEST_HDR > room {
          return true, false, out, end;
        }
        if end + NEST_HDR + size(b.value[i]) > room {
          return true, true, out, end;
        }
        out, end := out + [b.value[i]], end + NEST_HDR + size(b.value[i]);
      }
    }
    full, nested := false, false;
  }

  /**
   One mtype_list call resuming at bucket `first`.  It lists whole buckets only, as many as there is
   room for: to the end of the table, with the cursor back at 0, or up to a later bucket where the
   next call goes on.  It fails, with an empty message, exactly when not even the first bucket fits.
   */
  method ListCall(t: HTable, first: nat, wt: bool, now: int, room: nat, size: Entry -> nat)
    returns (ret: ListRet, cursor: nat, msg: seq<Entry>)
    requires t.Valid() && first < t.bucket.Length
    ensures ret.TooBig? <==> !BucketFits(t.Val(), first, wt, now, room, size)
    ensures ret.TooBig? ==> msg == [] && cursor in {0, first}
    ensures ret.Done? ==> NEST_HDR + Bytes(msg, size) <= room
    ensures ret.Done? && cursor == 0 ==> msg == RangeLive(t.Val(), first, t.bucket.Length, wt, now)
    ensures ret.Done? && cursor != 0 ==>
              && first < cursor < t.bucket.Length && msg == RangeLive(t.Val(), first, cursor, wt, now)
              && NEST_HDR + Bytes(RangeLive(t.Val(), first, cursor + 1, wt, now), size) > room
    ensures ret.Done? ==>
              EachFits(t.Val(), first, if cursor == 0 then t.bucket.Length else cursor, wt, now, room, size)
  {
    hide t.Valid, TableOk, SlotsLive, Bytes, BucketFits, RangeLive, BucketLive;
    ghost var v := t.Val();
    msg, cursor := [], first;
    Begins(v, first, wt, now, room, size);
    if NEST_HDR > room {
      return TooBig, cursor, [];
    }
    var len := NEST_HDR;
    while cursor < t.bucket.Length
      invariant first <= cursor <= t.bucket.Length
      invariant msg == RangeLive(v, first, cursor, wt, now) && len == NEST_HDR + Bytes(msg, size) <= room
      invariant EachFits(v, first, cursor, wt, now, room, size)
    {
      var incomplete := |msg|;
      NextBucket(v, first, cursor, wt, now, len, room, size);
      if t.bucket[cursor].Some? {
        AtBucket(t, cursor, wt, now);
        var full, nested, out, end := ListBucket(t.bucket[cursor].value, t.max, wt, now, len, room, size);
        if full {
          msg := msg + out;
          if !nested && cursor == first {
            return TooBig, cursor, [];
          }
          msg := msg[..incomplete];
          if cursor == first {
            return TooBig, 0, msg;
          }
          FirstFits(v, first, cursor, wt, now, room, size);
          return Done, cursor, msg;
        }
        msg, len := msg + out, end;
      } else {
        NoBucket(v, cursor, wt, now);
        assert msg + [] == msg;
      }
      cursor := cursor + 1;
    }
    FirstFits(v, first, cursor, wt, now, room, size);
    ret, cursor := Done, 0;
  }

  lemma Begins(t: Table, first: nat, wt: bool, now: int, room: nat, size: Entry -> nat)
    requires first < |t.b|
    ensures RangeLive(t, first, first, wt, now) == [] && Bytes([], size) == 0
    ensures NEST_HDR > room ==> !BucketFits(t, first, wt, now, room, size)
  {
  }

  lemma FirstFits(t: Table, first: nat, hi: nat, wt: bool, now: int, room: nat, size: Entry -> nat)
    requires first < hi <= |t.b| && EachFits(t, first, hi, wt, now, room, size)
    ensures BucketFits(t, first, wt, now, room, size)
  {
  }

  lemma NoBucket(t: Table, i: nat, wt: bool, now: int)
    requires i < |t.b| && t.b[i].None?
    ensures BucketLive(t.b[i], wt, now) == []
  {
  }

  lemma AtBucket(t: HTable, i: nat, wt: bool, now: int)
    requires t.Valid() && i < t.bucket.Length && t.bucket[i].Some?
    ensures var b := t.bucket[i].value;
            BucketOk(b, t.max) && BucketLive(t.bucket[i], wt, now) == SlotsLive(b, b.pos, wt, now)
  {
    hide TableOk, Conserved, Stored, SlotsLive;
    ShapeOf(t.Val(), t.max, i);
  }

  /** What one more bucket means for the message so far. */
  lemma NextBucket(t: Table, first: nat, i: nat, wt: bool, now: int, len: nat, room: nat, size: Entry -> nat)
    requires first <= i < |t.b| && len == NEST_HDR + Bytes(RangeLive(t, first, i, wt, now), size)
    requires EachFits(t, first, i, wt, now, room, size)
    ensures var here := BucketLive(t.b[i], wt, now);
            && RangeLive(t, first, i + 1, wt, now) == RangeLive(t, first, i, wt, now) + here
            && NEST_HDR + Bytes(RangeLive(t, first, i + 1, wt, now), size) == len + Bytes(here, size)
            && (len + Bytes(here, size) <= room ==> EachFits(t, first, i + 1, wt, now, room, size))
            && (first == i ==> (BucketFits(t, i, wt, now, room, size) <==> len + Bytes(here, size) <= room))
  {
    hide Bytes, BucketLive;
    RangeMore(t, first, i, wt, now, size);
    Begins(t, first, wt, now, room, size);
  }

  /**
   Repeating the call until the cursor returns to 0, as the dump loop of the core does.  The first
   message also holds the head of the set and has room for `head` bytes, the others for `room`.  The
   listing is completed exactly when bucket 0 fits the first message and every other bucket an empty one.
   */
  method ListAll(t: HTable, wt: bool, now: int, head: nat, room: nat, size: Entry -> nat)
    returns (ret: ListRet, msgs: seq<seq<Entry>>)
    requires t.Valid() && head <= room
    ensures ret.Done? <==> Listable(t.Val(), t.bucket.Length, wt, now, head, room, size)
    ensures ret.Done? ==> Flatten(msgs) == RangeLive(t.Val(), 0, t.bucket.Length, wt, now)
    ensures ret.Done? ==> NoTwice(Flatten(msgs))
                          && forall e :: e in Flatten(msgs) <==> e.key in LiveOf(t.Contents(), wt, now)
                                                                 && LiveOf(t.Contents(), wt, now)[e.key] == e
  {
    hide t.Valid, TableOk, Stored, LiveOf, NoTwice, BucketFits, EachFits, Listable, RangeLive;
    ghost var v := t.Val();
    TableSize(t);
    msgs := [];
    var cursor := 0;
    var more := true;
    StartAt(v, wt, now, head, room, size);
    while more
      invariant more ==> cursor < t.bucket.Length
      invariant Flatten(msgs) == RangeLive(v, 0, if more then cursor else t.bucket.Length, wt, now)
      invariant Listable(v, if more then cursor else t.bucket.Length, wt, now, head, room, size)
      invariant more ==> (cursor == 0 <==> msgs == [])
      decreases more, t.bucket.Length - cursor
    {
      ghost var first := cursor;
      var msg;
      ret, cursor, msg := ListCall(t, cursor, wt, now, if msgs == [] then head else room, size);
      ghost var hi := if ret.Done? && cursor != 0 then cursor else t.bucket.Length;
      ListableMore(v, first, hi, wt, now, head, room, size);
      if ret.TooBig? {
        return;
      }
      RangeSplit(v, 0, first, hi, wt, now);
      FlattenSnoc(msgs, msg);
      msgs := msgs + [msg];
      more := cursor != 0;
    }
    ret := Done;
    AllListed(t, wt, now);
  }

  lemma TableSize(t: HTable)
    requires t.Valid()
    ensures t.bucket.Length > 0 && |t.Val().b| == t.bucket.Length
  {
    hide TableOk, Conserved, Stored;
    TableLength(t.Val(), t.max);
  }

  lemma StartAt(t: Table, wt: bool, now: int, head: nat, room: nat, size: Entry -> nat)
    ensures RangeLive(t, 0, 0, wt, now) == [] && Listable(t, 0, wt, now, head, room, size)
  {
  }

  lemma AllListed(t: HTable, wt: bool, now: int)
    requires t.Valid()
    ensures var out, live := RangeLive(t.Val(), 0, t.bucket.Length, wt, now), LiveOf(t.Contents(), wt, now);
            NoTwice(out) && forall e :: e in out <==> e.key in live && live[e.key] == e
  {
    hide TableOk, Conserved, Stored, LiveOf, NoTwice, RangeLive;
    ListingExact(t.Val(), t.max, wt, now);
  }

  ghost function Flatten(msgs: seq<seq<Entry>>): seq<Entry> {
    if msgs == [] then [] else msgs[0] + Flatten(msgs[1..])
  }

  lemma {:induction false} FlattenSnoc(msgs: seq<seq<Entry>>, m: seq<Entry>)
    ensures Flatten(msgs + [m]) == Flatten(msgs) + m
  {
    if msgs != [] {
      FlattenSnoc(msgs[1..], m);
      assert (msgs + [m])[1..] == msgs[1..] + [m];
    } else {
      assert (msgs + [m])[1..] == [];
    }
  }
}
