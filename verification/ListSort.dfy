/**
 list_sort: bottom-up merge sort relinking a circular doubly linked list in place.

 Chains are null-terminated singly linked runs of nodes, described by the sequence of their nodes.
 `inverted` is the polarity of the level-cap test: the fallback definition of unlikely(x) in
 list_sort.h evaluates to the negation of x, and the sort is correct either way.
 */
module ListSort {
  import opened StableSort

  const MAX_LIST_LENGTH_BITS: nat := 20

  ghost function First<T>(s: seq<Node<T>>): Node?<T> {
    if s == [] then null else s[0]
  }

  /** n starts a null-terminated chain of the nodes s. */
  ghost predicate Chain<T>(n: Node?<T>, s: seq<Node<T>>)
    reads s
  {
    && n == First(s)
    && (forall i :: 0 <= i < |s| - 1 ==> s[i].next == s[i + 1])
    && (s != [] ==> s[|s| - 1].next == null)
  }

  /** The nodes s are linked forwards one after the other; where the last one points is left open. */
  ghost predicate Linked<T>(s: seq<Node<T>>)
    reads s
  {
    forall i :: 0 <= i < |s| - 1 ==> s[i].next == s[i + 1]
  }

  /** A proper circular list of head and the nodes s. */
  ghost predicate Circular<T>(head: Node<T>, s: seq<Node<T>>)
    reads head, s
  {
    && NoDup(s) && head !in s
    && head.next == (if s == [] then head else s[0])
    && head.prev == (if s == [] then head else s[|s| - 1])
    && (forall i :: 0 <= i < |s| ==> s[i].next == if i + 1 < |s| then s[i + 1] else head)
    && (forall i :: 0 <= i < |s| ==> s[i].prev == PrevOf(head, s, i))
  }

  lemma NoDupParts<T>(s: seq<T>)
    requires NoDup(s) && s != []
    ensures NoDup(s[1..]) && s[0] !in s[1..]
  {
  }

  /** The three runs share no node and repeat none. */
  ghost predicate Separate<T>(out: seq<Node<T>>, a: seq<Node<T>>, b: seq<Node<T>>) {
    NoDup(out) && NoDup(a) && NoDup(b) && Apart(out, a) && Apart(out, b) && Apart(a, b)
  }

  lemma Take<T>(out: seq<Node<T>>, a: seq<Node<T>>, b: seq<Node<T>>)
    requires Separate(out, a, b) && a != []
    ensures Separate(out + [a[0]], a[1..], b)
    ensures a[0] !in out && a[0] !in a[1..] && a[0] !in b
  {
  }

  lemma MergeStep<T>(cmp: Cmp<T>, out: seq<Node<T>>, a: seq<Node<T>>, b: seq<Node<T>>)
    requires a != [] && b != []
    ensures if Le(cmp, a[0], b[0]) then out + Merge(cmp, a, b) == (out + [a[0]]) + Merge(cmp, a[1..], b)
            else out + Merge(cmp, a, b) == (out + [b[0]]) + Merge(cmp, a, b[1..])
  {
  }

  /** State of the merge loop: `out` is linked behind head up to tail, a and b start what is left. */
  ghost predicate Merging<T>(head: Node<T>, tail: Node<T>, out: seq<Node<T>>, a: Node?<T>, ra: seq<Node<T>>, b: Node?<T>,
                             rb: seq<Node<T>>)
    reads head, out, ra, rb
  {
    && Separate(out, ra, rb) && head !in out && head !in ra && head !in rb
    && Chain(a, ra) && Chain(b, rb)
    && Linked(out) && (out != [] ==> head.next == out[0])
    && tail == if out == [] then head else out[|out| - 1]
  }

  lemma SwapRuns<T>(head: Node<T>, tail: Node<T>, out: seq<Node<T>>, a: Node?<T>, ra: seq<Node<T>>, b: Node?<T>,
                    rb: seq<Node<T>>)
    requires Merging(head, tail, out, a, ra, b, rb)
    ensures Merging(head, tail, out, b, rb, a, ra)
  {
  }

  /** The first node of a run moves behind the last merged node. */
  method LinkNext<T>(head: Node<T>, tail: Node<T>, x: Node<T>, ghost y: Node?<T>, ghost out: seq<Node<T>>, ghost rx: seq<Node<T>>,
                     ghost ry: seq<Node<T>>)
    returns (x': Node?<T>)
    requires Merging(head, tail, out, x, rx, y, ry)
    modifies tail`next
    ensures rx != [] && rx[0] == x
    ensures Merging(head, x, out + [x], x', rx[1..], y, ry)
  {
    Take(out, rx, ry);
    tail.next := x;
    x' := x.next;
    hide Separate;
  }

  /** Linking the rest behind tail completes the chain. */
  method LinkRest<T>(head: Node<T>, tail: Node<T>, x: Node?<T>, ghost out: seq<Node<T>>, ghost rx: seq<Node<T>>)
    requires Merging(head, tail, out, x, rx, null, [])
    modifies tail`next
    ensures Chain(head.next, out + rx)
    ensures forall i :: 0 <= i < |out| ==> out[i].prev == old(out[i].prev)
  {
    tail.next := x;
  }

  /** merge(): the nodes of two chains relinked into one, taking from a while equal. */
  method MergeChains<T>(cmp: Cmp<T>, a0: Node<T>, b0: Node?<T>, ghost sa: seq<Node<T>>, ghost sb: seq<Node<T>>)
    returns (r: Node?<T>)
    requires Chain(a0, sa) && Chain(b0, sb) && Separate([], sa, sb)
    modifies sa, sb
    ensures Chain(r, Merge(cmp, sa, sb))
  {
    hide Merging, Merge, Separate;
    var head := new Node(a0.item);
    var tail: Node<T>, a: Node?<T>, b := head, a0, b0;
    ghost var out: seq<Node<T>>, ra, rb := [], sa, sb;
    StartMerge(head, a0, sa, b0, sb);
    assert out + Merge(cmp, ra, rb) == Merge(cmp, sa, sb);
    while a != null && b != null
      invariant Merging(head, tail, out, a, ra, b, rb) && fresh(head)
      invariant out + Merge(cmp, ra, rb) == Merge(cmp, sa, sb)
      invariant forall x :: x in out || x in ra || x in rb ==> x in sa || x in sb
      invariant tail == head || tail in out
      decreases |ra| + |rb|
    {
      NonEmpty(head, tail, out, a, ra, b, rb);
      MergeStep(cmp, out, ra, rb);
      if cmp(a.item, b.item) <= 0 {
        var n := LinkNext(head, tail, a, b, out, ra, rb);
        out, ra := out + [a], ra[1..];
        tail, a := a, n;
      } else {
        SwapRuns(head, tail, out, a, ra, b, rb);
        var n := LinkNext(head, tail, b, a, out, rb, ra);
        out, rb := out + [b], rb[1..];
        tail, b := b, n;
        SwapRuns(head, tail, out, b, rb, a, ra);
      }
    }
    EndMerge(cmp, head, tail, out, a, ra, b, rb);
    if a != null {
      LinkRest(head, tail, a, out, ra);
    } else {
      SwapRuns(head, tail, out, a, ra, b, rb);
      LinkRest(head, tail, b, out, rb);
    }
    r := head.next;
  }

  lemma StartMerge<T>(head: Node<T>, a: Node?<T>, sa: seq<Node<T>>, b: Node?<T>, sb: seq<Node<T>>)
    requires Chain(a, sa) && Chain(b, sb) && Separate([], sa, sb) && head !in sa && head !in sb
    ensures Merging(head, head, [], a, sa, b, sb)
  {
  }

  lemma EndMerge<T>(cmp: Cmp<T>, head: Node<T>, tail: Node<T>, out: seq<Node<T>>, a: Node?<T>, ra: seq<Node<T>>, b: Node?<T>,
                    rb: seq<Node<T>>)
    requires Merging(head, tail, out, a, ra, b, rb) && (a == null || b == null)
    ensures a != null ==> rb == [] && b == null && Merge(cmp, ra, rb) == ra
    ensures a == null ==> ra == [] && Merge(cmp, ra, rb) == rb
  {
  }

  lemma NonEmpty<T>(head: Node<T>, tail: Node<T>, out: seq<Node<T>>, a: Node<T>, ra: seq<Node<T>>, b: Node<T>, rb: seq<Node<T>>)
    requires Merging(head, tail, out, a, ra, b, rb)
    ensures ra != [] && ra[0] == a && rb != [] && rb[0] == b
  {
  }

  // ---------- The final merge, which restores the back links ----------

  ghost function PrevOf<T>(head: Node<T>, s: seq<Node<T>>, i: int): Node<T>
    requires 0 <= i <= |s|
  {
    if i > 0 then s[i - 1] else head
  }

  /** The prev links of the nodes merged so far. */
  ghost predicate BackLinked<T>(head: Node<T>, out: seq<Node<T>>, k: int)
    reads out
  {
    k <= |out| && forall i :: 0 <= i < k ==> out[i].prev == PrevOf(head, out, i)
  }

  /** The first node of a run moves behind the last merged node and is linked back to it. */
  method LinkBoth<T>(head: Node<T>, tail: Node<T>, x: Node<T>, ghost y: Node?<T>, ghost out: seq<Node<T>>,
                     ghost rx: seq<Node<T>>, ghost ry: seq<Node<T>>)
    returns (x': Node?<T>)
    requires Merging(head, tail, out, x, rx, y, ry) && BackLinked(head, out, |out|)
    modifies tail`next, x`prev
    ensures rx != [] && rx[0] == x
    ensures Merging(head, x, out + [x], x', rx[1..], y, ry) && BackLinked(head, out + [x], |out| + 1)
  {
    Take(out, rx, ry);
    tail.next := x;
    x.prev := tail;
    x' := x.next;
    forall i | 0 <= i < |out| + 1
      ensures (out + [x])[i].prev == PrevOf(head, out + [x], i)
    {
      if i < |out| {
        assert out[i] in out;
        assert old(out[i].prev) == PrevOf(head, out, i);
      }
    }
  }

  /** The chain w behind head, back links restored for its first k nodes, tail the last of these. */
  ghost predicate Restoring<T>(head: Node<T>, tail: Node<T>, w: seq<Node<T>>, k: int)
    reads head, w
  {
    && NoDup(w) && head !in w && 0 <= k <= |w| && w != []
    && Chain(head.next, w) && BackLinked(head, w, k)
    && tail == if k == 0 then head else w[k - 1]
  }

  /** What is left of the longer run is hung behind the last merged node, its back links still old. */
  method LinkLast<T>(head: Node<T>, tail: Node<T>, x: Node<T>, ghost out: seq<Node<T>>, ghost rx: seq<Node<T>>)
    requires Merging(head, tail, out, x, rx, null, []) && BackLinked(head, out, |out|)
    modifies tail`next
    ensures Restoring(head, tail, out + rx, |out|) && rx != []
  {
    Joined(out, rx);
    LinkRest(head, tail, x, out, rx);
    forall i | 0 <= i < |out|
      ensures (out + rx)[i].prev == PrevOf(head, out + rx, i)
    {
      assert old(out[i].prev) == PrevOf(head, out, i);
    }
  }

  lemma Joined<T>(out: seq<Node<T>>, rx: seq<Node<T>>)
    requires Separate(out, rx, [])
    ensures NoDup(out + rx)
  {
  }

  /** The do-while loop and the closing of the ring. */
  method RestoreRest<T>(head: Node<T>, tail0: Node<T>, ghost w: seq<Node<T>>, ghost k0: int)
    requires Restoring(head, tail0, w, k0) && k0 < |w|
    modifies head, w
    ensures Circular(head, w)
  {
    var tail: Node<T> := tail0;
    ghost var k := k0;
    while true
      invariant Restoring(head, tail, w, k) && k < |w|
      decreases |w| - k
    {
      tail := RestoreOne(head, tail, w, k);
      k := k + 1;
      if tail.next == null {
        break;
      }
      assert w[k - 1].next != null;
    }
    CloseRing(head, tail, w);
  }

  /** One round of the restoring loop: the next node is linked back, and becomes the last one restored. */
  method RestoreOne<T>(head: Node<T>, tail: Node<T>, ghost w: seq<Node<T>>, ghost k: int) returns (n: Node<T>)
    requires Restoring(head, tail, w, k) && k < |w|
    modifies w
    ensures Restoring(head, n, w, k + 1)
    ensures n.next == null <==> k + 1 == |w|
  {
    assert w[0] == head.next;
    assert k > 0 ==> w[k - 1].next == w[k];
    n := tail.next;
    assert k < |w| - 1 ==> w[k].next == w[k + 1];
    n.prev := tail;
    forall i | 0 <= i < |w| - 1
      ensures w[i].next == w[i + 1]
    {
      assert old(w[i].next) == w[i + 1];
    }
    forall i | 0 <= i < k + 1
      ensures w[i].prev == PrevOf(head, w, i)
    {
      assert i < k ==> old(w[i].prev) == PrevOf(head, w, i);
    }
  }

  /** The last node and the head are linked to each other, which closes the circle. */
  method CloseRing<T>(head: Node<T>, tail: Node<T>, ghost w: seq<Node<T>>)
    requires Restoring(head, tail, w, |w|)
    modifies head`prev, tail`next
    ensures Circular(head, w)
  {
    assert w[0] == head.next;
    tail.next := head;
    head.prev := tail;
    forall i | 0 <= i < |w|
      ensures w[i].next == if i + 1 < |w| then w[i + 1] else head
      ensures w[i].prev == PrevOf(head, w, i)
    {
      assert i < |w| - 1 ==> old(w[i].next) == w[i + 1];
      assert old(w[i].prev) == PrevOf(head, w, i);
    }
  }

  /** merge_and_restore_back_links(), for a first chain that is not empty. */
  method MergeAndRestore<T>(cmp: Cmp<T>, head: Node<T>, a0: Node<T>, b0: Node?<T>, ghost sa: seq<Node<T>>, ghost sb: seq<Node<T>>)
    requires Chain(a0, sa) && Chain(b0, sb) && Separate([], sa, sb) && head !in sa && head !in sb
    modifies head, sa, sb
    ensures Circular(head, Merge(cmp, sa, sb))
  {
    hide Merging, Merge, Separate, Restoring, Circular;
    var tail: Node<T>, a: Node?<T>, b := head, a0, b0;
    ghost var out: seq<Node<T>>, ra, rb := [], sa, sb;
    StartMerge(head, a0, sa, b0, sb);
    assert out + Merge(cmp, ra, rb) == Merge(cmp, sa, sb);
    while a != null && b != null
      invariant Merging(head, tail, out, a, ra, b, rb) && BackLinked(head, out, |out|)
      invariant a != null || b != null
      invariant out + Merge(cmp, ra, rb) == Merge(cmp, sa, sb)
      invariant forall x :: x in out || x in ra || x in rb ==> x in sa || x in sb
      invariant tail == head || tail in out
      decreases |ra| + |rb|
    {
      NonEmpty(head, tail, out, a, ra, b, rb);
      assert a in ra && b in rb;
      MergeStep(cmp, out, ra, rb);
      if cmp(a.item, b.item) <= 0 {
        var n := LinkBoth(head, tail, a, b, out, ra, rb);
        out, ra := out + [a], ra[1..];
        tail, a := a, n;
      } else {
        SwapRuns(head, tail, out, a, ra, b, rb);
        var n := LinkBoth(head, tail, b, a, out, rb, ra);
        out, rb := out + [b], rb[1..];
        tail, b := b, n;
        SwapRuns(head, tail, out, b, rb, a, ra);
      }
    }
    EndMerge(cmp, head, tail, out, a, ra, b, rb);
    if a != null {
      LinkLast(head, tail, a, out, ra);
    } else {
      SwapRuns(head, tail, out, a, ra, b, rb);
      LinkLast(head, tail, b, out, rb);
    }
    ghost var w := if a != null then out + ra else out + rb;
    assert w == Merge(cmp, sa, sb);
    forall i | 0 <= i < |w|
      ensures w[i] in sa || w[i] in sb
    {
      assert w[i] in out || w[i] in ra || w[i] in rb;
    }
    RestoreRest(head, tail, w, |out|);
  }

  // ---------- list_sort ----------

  /** Number of slots of part[]: one more than the highest level ever used. */
  const SLOTS: int := MAX_LIST_LENGTH_BITS + 1

  /** The condition of the level cap, in either polarity of unlikely(). */
  predicate CapHit(lev: int, inverted: bool) {
    if inverted then !(lev >= MAX_LIST_LENGTH_BITS) else lev >= MAX_LIST_LENGTH_BITS
  }

  ghost predicate Within<T>(s: seq<T>, all: seq<T>) {
    forall i :: 0 <= i < |s| ==> s[i] in all
  }

  lemma WithinIf<T>(s: seq<Node<T>>, all: seq<Node<T>>)
    requires forall x :: x in s ==> x in all
    ensures Within(s, all)
  {
    assert forall i :: 0 <= i < |s| ==> s[i] in s;
  }

  /** From level lo on, slot l of part[] is the chain of the sorted segment seg[l]; lower segments are empty. */
  ghost predicate Levels<T>(cmp: Cmp<T>, part: array<Node?<T>>, seg: seq<seq<Node<T>>>, lo: int, all: seq<Node<T>>)
    reads part, all
  {
    && part.Length == |seg| == SLOTS
    && (forall l :: 0 <= l < lo && l < SLOTS ==> seg[l] == [])
    && (forall l :: 0 <= l < SLOTS ==> Within(Sort(cmp, seg[l]), all))
    && (forall l :: 0 <= l < SLOTS ==> lo <= l ==> Chain(part[l], Sort(cmp, seg[l])))
  }

  /** The slots, the chain being inserted and the unread list make up the whole input, in order. */
  ghost predicate Partition<T>(seg: seq<seq<Node<T>>>, c: seq<Node<T>>, rest: seq<Node<T>>, all: seq<Node<T>>) {
    |seg| == SLOTS && NoDup(all) && Cat(seg, SLOTS) + c + rest == all
  }

  ghost predicate Sorting<T>(cmp: Cmp<T>, part: array<Node?<T>>, seg: seq<seq<Node<T>>>, lo: int, cur: Node?<T>, c: seq<Node<T>>,
                             list: Node?<T>, rest: seq<Node<T>>, all: seq<Node<T>>)
    reads part, all
  {
    && Partition(seg, c, rest, all) && Within(rest, all) && Within(Sort(cmp, c), all)
    && Levels(cmp, part, seg, lo, all) && Chain(cur, Sort(cmp, c)) && Chain(list, rest)
  }

  /** What distinctness of all nodes says about the chain being inserted and the unread list. */
  lemma CurApart<T>(cmp: Cmp<T>, seg: seq<seq<Node<T>>>, c: seq<Node<T>>, rest: seq<Node<T>>, all: seq<Node<T>>)
    requires Partition(seg, c, rest, all)
    ensures NoDup(Sort(cmp, c)) && NoDup(rest) && NoDup(Cat(seg, SLOTS))
    ensures forall x :: x in Sort(cmp, c) ==> x in c
    ensures forall x :: x in Cat(seg, SLOTS) || x in c ==> x !in rest
    ensures forall x :: x in Cat(seg, SLOTS) ==> x !in c
    ensures forall x :: x in Cat(seg, SLOTS) || x in c || x in rest ==> x in all
    ensures Within(Sort(cmp, c), all) && Within(rest, all) && Apart(Sort(cmp, c), rest)
  {
    hide Sort, Cat, NoDup, Within, Apart;
    var cat := Cat(seg, SLOTS);
    ConcatNoDup(cat + c, rest);
    ConcatNoDup(cat, c);
    SortMembers(cmp, c);
    assert forall x :: x in cat || x in c ==> x in cat + c;
    assert forall x :: x in cat + c || x in rest ==> x in (cat + c) + rest;
    WithinIf(Sort(cmp, c), all);
    WithinIf(rest, all);
    ApartFromIn(Sort(cmp, c), rest);
  }

  /** The same for the chain of level l and the segment of another level m. */
  lemma LevelApart<T>(cmp: Cmp<T>, seg: seq<seq<Node<T>>>, c: seq<Node<T>>, rest: seq<Node<T>>, all: seq<Node<T>>, l: int, m: int)
    requires Partition(seg, c, rest, all) && 0 <= l < SLOTS && 0 <= m < SLOTS
    ensures NoDup(Sort(cmp, seg[l])) && Within(Sort(cmp, seg[l]), all)
    ensures Apart(Sort(cmp, seg[l]), Sort(cmp, c)) && Apart(Sort(cmp, seg[l]), rest)
    ensures m != l ==> Apart(Sort(cmp, seg[l]), Sort(cmp, seg[m]))
  {
    hide Sort, Cat, NoDup, Within, Apart;
    CurApart(cmp, seg, c, rest, all);
    CatNoDup(seg, SLOTS, l, m);
    CatNoDup(seg, SLOTS, m, l);
    SortMembers(cmp, seg[l]);
    SortMembers(cmp, seg[m]);
    forall x | x in seg[l]
      ensures x in Cat(seg, SLOTS)
    {
      CatMember(seg, SLOTS, l, x);
    }
    WithinIf(Sort(cmp, seg[l]), all);
    ApartFromIn(Sort(cmp, seg[l]), Sort(cmp, c));
    ApartFromIn(Sort(cmp, seg[l]), rest);
    if m != l {
      ApartFromIn(Sort(cmp, seg[l]), Sort(cmp, seg[m]));
    }
  }

  lemma ApartFromIn<T>(a: seq<Node<T>>, b: seq<Node<T>>)
    requires forall x :: x in a ==> x !in b
    ensures Apart(a, b)
  {
    forall i, j | 0 <= i < |a| && 0 <= j < |b|
      ensures a[i] != b[j]
    {
      assert a[i] in a;
    }
  }

  /** Merging the segment of a level in front of the chain keeps the whole input in order. */
  lemma PartitionMerge<T(!new)>(cmp: Cmp<T>, seg: seq<seq<Node<T>>>, c: seq<Node<T>>, rest: seq<Node<T>>, all: seq<Node<T>>,
                                lev: int)
    requires Preorder(cmp) && Partition(seg, c, rest, all) && 0 <= lev < SLOTS && forall l :: 0 <= l < lev ==> seg[l] == []
    ensures Partition(seg[lev := []], seg[lev] + c, rest, all)
    ensures Merge(cmp, Sort(cmp, seg[lev]), Sort(cmp, c)) == Sort(cmp, seg[lev] + c)
    ensures Within(Sort(cmp, seg[lev] + c), all) && Sort(cmp, seg[lev := []][lev]) == []
  {
    hide Sort, Merge, Cat, NoDup, Preorder;
    CatTake(seg, lev, SLOTS);
    var cat := Cat(seg[lev := []], SLOTS);
    assert cat + (seg[lev] + c) + rest == (cat + seg[lev]) + c + rest;
    MergeSort(cmp, seg[lev], c);
    CurApart(cmp, seg[lev := []], seg[lev] + c, rest, all);
    SortPerm(cmp, seg[lev := []][lev]);
  }

  /** A level is merged with the nodes at hand, the level being the earlier; also the step of the last loop. */
  method MergeLevel<T(!new)>(cmp: Cmp<T>, part: array<Node?<T>>, lev: int, cur: Node?<T>, list: Node?<T>,
                       ghost seg: seq<seq<Node<T>>>, ghost c: seq<Node<T>>, ghost rest: seq<Node<T>>, ghost all: seq<Node<T>>)
    returns (r: Node?<T>)
    requires Preorder(cmp) && 0 <= lev < SLOTS && Sorting(cmp, part, seg, lev, cur, c, list, rest, all)
    requires part[lev] != null
    modifies all
    ensures Sorting(cmp, part, seg[lev := []], lev + 1, r, seg[lev] + c, list, rest, all)
    ensures r != null
  {
    hide Partition, Sort, Merge, Preorder, Cat, NoDup;
    PartitionMerge(cmp, seg, c, rest, all, lev);
    ghost var sa, sb := Sort(cmp, seg[lev]), Sort(cmp, c);
    CurApart(cmp, seg, c, rest, all);
    LevelApart(cmp, seg, c, rest, all, lev, lev);
    ApartEmpty(sa, sb);
    r := MergeChains(cmp, part[lev], cur, sa, sb);
    MergeNonEmpty(cmp, sa, sb);
    forall l | 0 <= l < SLOTS && l != lev && lev <= l
      ensures Chain(part[l], Sort(cmp, seg[l]))
    {
      LevelApart(cmp, seg, c, rest, all, l, lev);
      ghost var s := Sort(cmp, seg[l]);
      assert old(Chain(part[l], s));
    }
    assert old(Chain(list, rest));
  }

  lemma ApartEmpty<T>(a: seq<Node<T>>, b: seq<Node<T>>)
    requires NoDup(a) && NoDup(b) && Apart(a, b)
    ensures Separate([], a, b)
  {
  }

  lemma MergeNonEmpty<T>(cmp: Cmp<T>, a: seq<Node<T>>, b: seq<Node<T>>)
    requires a != []
    ensures Merge(cmp, a, b) != []
  {
  }

  /** The first node of the input is cut off and becomes the nodes at hand. */
  method Read<T>(cmp: Cmp<T>, part: array<Node?<T>>, list: Node<T>, ghost seg: seq<seq<Node<T>>>, ghost rest: seq<Node<T>>,
                 ghost all: seq<Node<T>>)
    returns (next: Node?<T>)
    requires Sorting(cmp, part, seg, 0, null, [], list, rest, all)
    modifies all
    ensures rest != [] && rest[0] == list
    ensures Sorting(cmp, part, seg, 0, list, [list], next, rest[1..], all)
  {
    hide Sort, Cat, NoDup, Apart, Partition;
    ReadParts(cmp, seg, list, rest, all);
    next := list.next;
    list.next := null;
    forall l | 0 <= l < SLOTS
      ensures Chain(part[l], Sort(cmp, seg[l]))
    {
      ghost var s := Sort(cmp, seg[l]);
      LevelApart(cmp, seg, [], rest, all, l, l);
      ApartHead(s, rest);
      assert old(Chain(part[l], s));
    }
    ghost var tail := rest[1..];
    assert old(Chain(next, tail));
  }

  lemma ApartHead<T>(s: seq<Node<T>>, rest: seq<Node<T>>)
    requires Apart(s, rest) && rest != []
    ensures rest[0] !in s
  {
  }

  lemma SortOne<T>(cmp: Cmp<T>, x: Node<T>)
    ensures Sort(cmp, [x]) == [x]
  {
    assert Sort(cmp, [x][1..]) == [];
  }

  lemma ReadParts<T>(cmp: Cmp<T>, seg: seq<seq<Node<T>>>, list: Node<T>, rest: seq<Node<T>>, all: seq<Node<T>>)
    requires Partition(seg, [], rest, all) && Chain(list, rest)
    ensures rest != [] && rest[0] == list && Chain(list.next, rest[1..]) && list !in rest[1..]
    ensures Partition(seg, [list], rest[1..], all) && Sort(cmp, [list]) == [list]
    ensures list in all && Within(rest[1..], all)
  {
    hide Sort, Cat, NoDup, Apart;
    CurApart(cmp, seg, [], rest, all);
    NoDupParts(rest);
    SortOne(cmp, list);
    var cat := Cat(seg, SLOTS);
    assert cat + [] + rest == cat + [list] + rest[1..];
    assert rest[0] in all;
    assert forall i :: 0 <= i < |rest[1..]| ==> rest[1..][i] == rest[i + 1];
  }

  /** The nodes at hand become level lev, which is empty like everything below it. */
  method Place<T>(cmp: Cmp<T>, part: array<Node?<T>>, ghost lo: int, lev: int, cur: Node?<T>, list: Node?<T>,
                  ghost seg: seq<seq<Node<T>>>, ghost c: seq<Node<T>>, ghost rest: seq<Node<T>>, ghost all: seq<Node<T>>)
    requires 0 <= lev < SLOTS && lo <= lev + 1 && Sorting(cmp, part, seg, lo, cur, c, list, rest, all)
    requires forall l :: 0 <= l < lo && l < SLOTS ==> part[l] == null
    requires forall l :: 0 <= l <= lev ==> seg[l] == []
    modifies part
    ensures Sorting(cmp, part, seg[lev := c], 0, null, [], list, rest, all)
    ensures part[..] == old(part[..])[lev := cur]
  {
    hide Cat, NoDup;
    part[lev] := cur;
    CatPut(seg, lev, c, SLOTS);
    assert Cat(seg, SLOTS) + c + rest == Cat(seg[lev := c], SLOTS) + [] + rest;
    forall l | 0 <= l < SLOTS && l != lev
      ensures Chain(part[l], Sort(cmp, seg[l]))
    {
      assert lo <= l ==> old(Chain(part[l], Sort(cmp, seg[l])));
    }
  }

  /** A level is emptied once its chain has been merged into the nodes at hand. */
  method ClearSlot<T>(cmp: Cmp<T>, part: array<Node?<T>>, lev: int, cur: Node?<T>, list: Node?<T>, ghost seg: seq<seq<Node<T>>>,
                      ghost c: seq<Node<T>>, ghost rest: seq<Node<T>>, ghost all: seq<Node<T>>)
    requires 0 <= lev < SLOTS && Sorting(cmp, part, seg, lev + 1, cur, c, list, rest, all)
    modifies part
    ensures Sorting(cmp, part, seg, lev + 1, cur, c, list, rest, all)
    ensures part[..] == old(part[..])[lev := null]
  {
    hide Partition, Sort;
    part[lev] := null;
    forall l | 0 <= l < SLOTS && lev + 1 <= l
      ensures Chain(part[l], Sort(cmp, seg[l]))
    {
      assert old(Chain(part[l], Sort(cmp, seg[l])));
    }
  }

  /** A slot is empty exactly when it holds no input. */
  lemma SlotNull<T>(cmp: Cmp<T>, part: array<Node?<T>>, lo: int, lev: int, cur: Node?<T>, list: Node?<T>,
                    seg: seq<seq<Node<T>>>, c: seq<Node<T>>, rest: seq<Node<T>>, all: seq<Node<T>>)
    requires 0 <= lo <= lev < SLOTS && Sorting(cmp, part, seg, lo, cur, c, list, rest, all)
    ensures part.Length == |seg| == SLOTS && (part[lev] == null <==> seg[lev] == [])
    ensures cur == null <==> c == []
    ensures list == null <==> rest == []
    ensures part[lev] == null && lo == lev ==> Sorting(cmp, part, seg, lev + 1, cur, c, list, rest, all)
  {
    hide Sort, Partition, Within;
    SortPerm(cmp, seg[lev]);
    SortPerm(cmp, c);
  }

  /** The highest level in use is never empty, the levels above it are. */
  ghost predicate TopLevel<T>(seg: seq<seq<Node<T>>>, maxLev: int, inverted: bool, started: bool) {
    && |seg| == SLOTS && 0 <= maxLev < MAX_LIST_LENGTH_BITS && (inverted ==> maxLev == 0)
    && (forall l :: maxLev < l < SLOTS ==> seg[l] == [])
    && (if started then seg[maxLev] != [] else maxLev == 0)
  }

  /** The inner loop: merge cur through the occupied levels up to the first free one. */
  method Climb<T(!new)>(cmp: Cmp<T>, part: array<Node?<T>>, cur0: Node<T>, list: Node?<T>, ghost seg0: seq<seq<Node<T>>>,
                  ghost c0: seq<Node<T>>, ghost rest: seq<Node<T>>, ghost all: seq<Node<T>>, ghost maxLev: int,
                  ghost inverted: bool, ghost started: bool)
    returns (lev: int, cur: Node?<T>, ghost seg: seq<seq<Node<T>>>, ghost c: seq<Node<T>>)
    requires Preorder(cmp) && Sorting(cmp, part, seg0, 0, cur0, c0, list, rest, all)
    requires TopLevel(seg0, maxLev, inverted, started)
    modifies part, all
    ensures 0 <= lev <= maxLev + 1 && Sorting(cmp, part, seg, lev, cur, c, list, rest, all)
    ensures c != [] && |seg| == SLOTS && forall l :: lev <= l < SLOTS ==> seg[l] == seg0[l]
    ensures forall l :: 0 <= l < lev ==> part[l] == null
    ensures forall l :: 0 <= l <= lev ==> seg[l] == []
  {
    hide Partition, Levels, Within, Chain, Sort, Preorder;
    seg, c := seg0, c0;
    lev, cur := 0, cur0;
    SlotNull(cmp, part, lev, lev, cur, list, seg, c, rest, all);
    while part[lev] != null
      invariant 0 <= lev <= maxLev + 1 && Sorting(cmp, part, seg, lev, cur, c, list, rest, all)
      invariant part.Length == |seg| == SLOTS && forall l :: lev <= l < SLOTS ==> seg[l] == seg0[l]
      invariant forall l :: 0 <= l < lev ==> part[l] == null && seg[l] == []
      invariant c != []
      invariant part[lev] == null <==> seg[lev] == []
      decreases SLOTS - lev
    {
      cur := MergeLevel(cmp, part, lev, cur, list, seg, c, rest, all);
      ClearSlot(cmp, part, lev, cur, list, seg[lev := []], seg[lev] + c, rest, all);
      seg, c := seg[lev := []], seg[lev] + c;
      lev := lev + 1;
      SlotNull(cmp, part, lev, lev, cur, list, seg, c, rest, all);
    }
  }

  /** Body of the reading loop: one node is taken from the list into the levels. */
  method InsertNode<T(!new)>(cmp: Cmp<T>, part: array<Node?<T>>, list: Node<T>, maxLev: int, inverted: bool,
                       ghost seg: seq<seq<Node<T>>>, ghost rest: seq<Node<T>>, ghost all: seq<Node<T>>, ghost started: bool)
    returns (next: Node?<T>, maxLev': int, ghost seg': seq<seq<Node<T>>>)
    requires Preorder(cmp) && Sorting(cmp, part, seg, 0, null, [], list, rest, all) && TopLevel(seg, maxLev, inverted, started)
    modifies part, all
    ensures rest != [] && Sorting(cmp, part, seg', 0, null, [], next, rest[1..], all) && TopLevel(seg', maxLev', inverted, true)
  {
    hide Partition, Levels, Within, Chain, Sort, Preorder;
    next := Read(cmp, part, list, seg, rest, all);
    ghost var seg1, c;
    var lev, cur;
    lev, cur, seg1, c := Climb(cmp, part, list, next, seg, [list], rest[1..], all, maxLev, inverted, started);
    ghost var lo := lev;
    maxLev' := maxLev;
    if lev > maxLev {
      if CapHit(lev, inverted) {
        lev := lev - 1;
      }
      maxLev' := lev;
    }
    Place(cmp, part, lo, lev, cur, next, seg1, c, rest[1..], all);
    seg' := seg1[lev := c];
  }

  /** The last loop: everything below the highest level is merged, later input last. */
  method Collect<T(!new)>(cmp: Cmp<T>, part: array<Node?<T>>, maxLev: int, ghost seg0: seq<seq<Node<T>>>, ghost all: seq<Node<T>>,
                    ghost inverted: bool)
    returns (list: Node?<T>, ghost seg: seq<seq<Node<T>>>, ghost c: seq<Node<T>>)
    requires Preorder(cmp) && Sorting(cmp, part, seg0, 0, null, [], null, [], all) && TopLevel(seg0, maxLev, inverted, true)
    modifies all
    ensures Sorting(cmp, part, seg, maxLev, list, c, null, [], all) && TopLevel(seg, maxLev, inverted, true)
    ensures forall l :: 0 <= l < maxLev ==> seg[l] == []
  {
    hide Partition, Levels, Within, Chain, Sort, Preorder;
    seg, c, list := seg0, [], null;
    var lev := 0;
    SlotNull(cmp, part, lev, lev, list, null, seg, c, [], all);
    while lev < maxLev
      invariant 0 <= lev <= maxLev && Sorting(cmp, part, seg, lev, list, c, null, [], all)
      invariant part.Length == |seg| == SLOTS && TopLevel(seg, maxLev, inverted, true)
      invariant forall l :: 0 <= l < lev ==> seg[l] == []
    {
      SlotNull(cmp, part, lev, lev, list, null, seg, c, [], all);
      if part[lev] != null {
        list := MergeLevel(cmp, part, lev, list, null, seg, c, [], all);
        seg, c := seg[lev := []], seg[lev] + c;
      }
      lev := lev + 1;
    }
  }

  /** What is left to do is one merge of the highest level with the rest. */
  lemma LastMerge<T(!new)>(cmp: Cmp<T>, part: array<Node?<T>>, maxLev: int, list: Node?<T>, seg: seq<seq<Node<T>>>,
                           c: seq<Node<T>>, all: seq<Node<T>>, inverted: bool, head: Node<T>)
    requires Preorder(cmp) && Sorting(cmp, part, seg, maxLev, list, c, null, [], all) && TopLevel(seg, maxLev, inverted, true)
    requires (forall l :: 0 <= l < maxLev ==> seg[l] == []) && head !in all
    ensures part[maxLev] != null && Chain(part[maxLev], Sort(cmp, seg[maxLev])) && Chain(list, Sort(cmp, c))
    ensures Separate([], Sort(cmp, seg[maxLev]), Sort(cmp, c))
    ensures head !in Sort(cmp, seg[maxLev]) && head !in Sort(cmp, c)
    ensures Within(Sort(cmp, seg[maxLev]), all) && Within(Sort(cmp, c), all)
    ensures Merge(cmp, Sort(cmp, seg[maxLev]), Sort(cmp, c)) == Sort(cmp, all)
  {
    hide Sort, Merge, Cat, NoDup, Preorder, Apart;
    SlotNull(cmp, part, maxLev, maxLev, list, null, seg, c, [], all);
    PartitionMerge(cmp, seg, c, [], all, maxLev);
    CatEmpty(seg[maxLev := []], SLOTS);
    assert [] + (seg[maxLev] + c) + [] == seg[maxLev] + c;
    CurApart(cmp, seg, c, [], all);
    LevelApart(cmp, seg, c, [], all, maxLev, maxLev);
    ApartEmpty(Sort(cmp, seg[maxLev]), Sort(cmp, c));
  }

  /** The list opened at its end: nothing is read yet. */
  lemma Opened<T>(cmp: Cmp<T>, part: array<Node?<T>>, list: Node<T>, seg: seq<seq<Node<T>>>, s: seq<Node<T>>)
    requires |seg| == part.Length == SLOTS && NoDup(s) && Chain(list, s)
    requires forall l :: 0 <= l < SLOTS ==> part[l] == null && seg[l] == []
    ensures Sorting(cmp, part, seg, 0, null, [], list, s, s)
  {
    CatEmpty(seg, SLOTS);
    assert [] + [] + s == s;
  }

  /**
   list_sort(), in either polarity: the circular list of s becomes the circular list r of the same nodes,
   ascending by cmp, and what does not compare greater than a later node stays in front of it.
   */
  method SortList<T(!new)>(cmp: Cmp<T>, head: Node<T>, inverted: bool, ghost s: seq<Node<T>>) returns (ghost r: seq<Node<T>>)
    requires Preorder(cmp) && Circular(head, s)
    modifies head, s
    ensures r == Sort(cmp, s) && Circular(head, r) && multiset(r) == multiset(s)
    ensures forall i, j :: 0 <= i < j < |r| ==> cmp(r[i].item, r[j].item) <= 0
    ensures forall i, j :: 0 <= i < j < |s| && cmp(s[i].item, s[j].item) <= 0 ==> Before(r, s[i], s[j])
  {
    r := Sort(cmp, s);
    SortMeans(cmp, s);
    if head.next == head {
      assert s == [];
      return;
    }
    OpenRing(head, s);
    OpenedSort(cmp, head, inverted, s);
  }

  /** The circle is cut open behind its last node. */
  method OpenRing<T>(head: Node<T>, ghost s: seq<Node<T>>)
    requires Circular(head, s) && s != []
    modifies s
    ensures Chain(head.next, s) && NoDup(s) && head !in s
  {
    var last := head.prev;
    last.next := null;
  }

  method OpenedSort<T(!new)>(cmp: Cmp<T>, head: Node<T>, inverted: bool, ghost s: seq<Node<T>>)
    requires Preorder(cmp) && Chain(head.next, s) && NoDup(s) && head !in s && s != []
    modifies head, s
    ensures Circular(head, Sort(cmp, s))
  {
    hide Circular, Partition, Levels, Sort, Preorder, Separate, Merge, NoDup;
    var part := new Node?<T>[SLOTS](_ => null);
    ghost var seg: seq<seq<Node<T>>> := seq(SLOTS, _ => []);
    var list, maxLev := head.next, 0;
    Opened(cmp, part, list, seg, s);
    ghost var rest, started := s, false;
    while list != null
      invariant Sorting(cmp, part, seg, 0, null, [], list, rest, s) && TopLevel(seg, maxLev, inverted, started)
      invariant !started ==> list != null
      decreases |rest|
    {
      list, maxLev, seg := InsertNode(cmp, part, list, maxLev, inverted, seg, rest, s, started);
      rest, started := rest[1..], true;
    }
    ghost var c;
    SlotNull(cmp, part, 0, 0, null, list, seg, [], rest, s);
    list, seg, c := Collect(cmp, part, maxLev, seg, s, inverted);
    LastMerge(cmp, part, maxLev, list, seg, c, s, inverted, head);
    MergeAndRestore(cmp, head, part[maxLev], list, Sort(cmp, seg[maxLev]), Sort(cmp, c));
  }
}
