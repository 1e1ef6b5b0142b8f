/**
 The specification of list_sort: a stable insertion sort over sequences, the merge of two sorted
 sequences, and the law that connects them.
 */
module StableSort {
  /** A list link with its payload; the payload of a list head is never looked at. */
  class Node<T> {
    var next: Node?<T>
    var prev: Node?<T>
    const item: T

    constructor (item: T)
      ensures this.item == item && next == null && prev == null
    {
      this.item := item;
      next, prev := null, null;
    }
  }

  type Cmp<!T> = (T, T) -> int

  /** The comparison function orders its arguments by a total preorder. */
  ghost predicate Preorder<T(!new)>(cmp: Cmp<T>) {
    && (forall a, b :: cmp(a, b) <= 0 || cmp(b, a) <= 0)
    && (forall a, b, c :: cmp(a, b) <= 0 && cmp(b, c) <= 0 ==> cmp(a, c) <= 0)
  }

  predicate Le<T>(cmp: Cmp<T>, a: Node<T>, b: Node<T>) {
    cmp(a.item, b.item) <= 0
  }

  ghost function Merge<T>(cmp: Cmp<T>, a: seq<Node<T>>, b: seq<Node<T>>): seq<Node<T>>
    decreases |a| + |b|
  {
    if a == [] then b
    else if b == [] then a
    else if Le(cmp, a[0], b[0]) then [a[0]] + Merge(cmp, a[1..], b)
    else [b[0]] + Merge(cmp, a, b[1..])
  }

  /** Before the first element that is not smaller. */
  ghost function Insert<T>(cmp: Cmp<T>, x: Node<T>, s: seq<Node<T>>): seq<Node<T>> {
    if s == [] then [x]
    else if Le(cmp, x, s[0]) then [x] + s
    else [s[0]] + Insert(cmp, x, s[1..])
  }

  ghost function Sort<T>(cmp: Cmp<T>, s: seq<Node<T>>): seq<Node<T>> {
    if s == [] then [] else Insert(cmp, s[0], Sort(cmp, s[1..]))
  }

  ghost predicate Sorted<T>(cmp: Cmp<T>, s: seq<Node<T>>) {
    forall i, j :: 0 <= i < j < |s| ==> cmp(s[i].item, s[j].item) <= 0
  }

  ghost predicate NoDup<T>(s: seq<T>) {
    forall i, j :: 0 <= i < j < |s| ==> s[i] != s[j]
  }

  ghost predicate Apart<T>(a: seq<T>, b: seq<T>) {
    forall i, j :: 0 <= i < |a| && 0 <= j < |b| ==> a[i] != b[j]
  }

  /** x comes before y in s. */
  ghost predicate Before<T>(s: seq<T>, x: T, y: T) {
    exists i, j :: 0 <= i < j < |s| && s[i] == x && s[j] == y
  }

  // ---------- Sort is a sorted stable permutation ----------

  lemma {:induction false} InsertPerm<T>(cmp: Cmp<T>, x: Node<T>, s: seq<Node<T>>)
    ensures multiset(Insert(cmp, x, s)) == multiset{x} + multiset(s)
  {
    if s != [] {
      assert s == [s[0]] + s[1..];
      if !Le(cmp, x, s[0]) {
        InsertPerm(cmp, x, s[1..]);
      }
    }
  }

  lemma {:induction false} SortPerm<T>(cmp: Cmp<T>, s: seq<Node<T>>)
    ensures multiset(Sort(cmp, s)) == multiset(s) && |Sort(cmp, s)| == |s|
  {
    if s != [] {
      SortPerm(cmp, s[1..]);
      InsertPerm(cmp, s[0], Sort(cmp, s[1..]));
      assert s == [s[0]] + s[1..];
    }
    assert |multiset(Sort(cmp, s))| == |multiset(s)|;
  }

  lemma {:induction false} InsertSorted<T(!new)>(cmp: Cmp<T>, x: Node<T>, s: seq<Node<T>>)
    requires Preorder(cmp) && Sorted(cmp, s)
    ensures Sorted(cmp, Insert(cmp, x, s))
  {
    if s != [] && !Le(cmp, x, s[0]) {
      InsertSorted(cmp, x, s[1..]);
      InsertPerm(cmp, x, s[1..]);
      var rest := Insert(cmp, x, s[1..]);
      forall j | 0 <= j < |rest|
        ensures Le(cmp, s[0], rest[j])
      {
        assert rest[j] in multiset(rest);
        assert rest[j] == x || rest[j] in s[1..];
      }
    }
  }

  lemma {:induction false} SortSorted<T(!new)>(cmp: Cmp<T>, s: seq<Node<T>>)
    requires Preorder(cmp)
    ensures Sorted(cmp, Sort(cmp, s))
  {
    if s != [] {
      SortSorted(cmp, s[1..]);
      InsertSorted(cmp, s[0], Sort(cmp, s[1..]));
    }
  }

  lemma BeforeTail<T>(s: seq<T>, x: T, y: T)
    requires s != [] && Before(s[1..], x, y)
    ensures Before(s, x, y)
  {
    var i, j :| 0 <= i < j < |s[1..]| && s[1..][i] == x && s[1..][j] == y;
    assert s[i + 1] == x && s[j + 1] == y;
  }

  /** Insertion keeps the order of the others. */
  lemma {:induction false} InsertKeeps<T>(cmp: Cmp<T>, x: Node<T>, s: seq<Node<T>>, u: Node<T>, v: Node<T>)
    requires Before(s, u, v)
    ensures Before(Insert(cmp, x, s), u, v)
  {
    var i, j :| 0 <= i < j < |s| && s[i] == u && s[j] == v;
    var r := Insert(cmp, x, s);
    if Le(cmp, x, s[0]) {
      assert r[1..] == s;
      BeforeTail(r, u, v);
    } else {
      assert r[1..] == Insert(cmp, x, s[1..]);
      if i == 0 {
        InsertPerm(cmp, x, s[1..]);
        assert v == s[1..][j - 1];
        assert v in multiset(s[1..]);
        assert v in multiset(r[1..]);
        var k :| 0 <= k < |r[1..]| && r[1..][k] == v;
        assert r[0] == u && r[k + 1] == v;
      } else {
        assert s[1..][i - 1] == u && s[1..][j - 1] == v;
        InsertKeeps(cmp, x, s[1..], u, v);
        BeforeTail(r, u, v);
      }
    }
  }

  /** The inserted element comes before everything it is not greater than. */
  lemma {:induction false} InsertFirst<T(!new)>(cmp: Cmp<T>, x: Node<T>, s: seq<Node<T>>, v: Node<T>)
    requires Preorder(cmp) && Sorted(cmp, s) && v in s && Le(cmp, x, v)
    ensures Before(Insert(cmp, x, s), x, v)
  {
    var r := Insert(cmp, x, s);
    var j :| 0 <= j < |s| && s[j] == v;
    if Le(cmp, x, s[0]) {
      assert r[0] == x && r[j + 1] == v;
    } else {
      assert s[1..][j - 1] == v;
      InsertFirst(cmp, x, s[1..], v);
      assert r[1..] == Insert(cmp, x, s[1..]);
      BeforeTail(r, x, v);
    }
  }

  /** Stability: an element keeps its place before any later one that does not sort before it. */
  lemma {:induction false} SortStable<T(!new)>(cmp: Cmp<T>, s: seq<Node<T>>, i: int, j: int)
    requires Preorder(cmp) && 0 <= i < j < |s| && cmp(s[i].item, s[j].item) <= 0
    ensures Before(Sort(cmp, s), s[i], s[j])
  {
    var rest := Sort(cmp, s[1..]);
    SortSorted(cmp, s[1..]);
    if i == 0 {
      SortPerm(cmp, s[1..]);
      assert s[j] == s[1..][j - 1];
      assert s[j] in multiset(s[1..]);
      assert s[j] in multiset(rest);
      InsertFirst(cmp, s[0], rest, s[j]);
    } else {
      SortStable(cmp, s[1..], i - 1, j - 1);
      InsertKeeps(cmp, s[0], rest, s[i], s[j]);
    }
  }

  /**
   What the sort promises, in terms of the comparison function itself: the nodes of s, each in front of
   all those it compares greater than, and in its old place among those it does not.
   */
  lemma SortMeans<T(!new)>(cmp: Cmp<T>, s: seq<Node<T>>)
    requires Preorder(cmp)
    ensures var r := Sort(cmp, s);
            && multiset(r) == multiset(s)
            && (forall i, j :: 0 <= i < j < |r| ==> cmp(r[i].item, r[j].item) <= 0)
            && (forall i, j :: 0 <= i < j < |s| && cmp(s[i].item, s[j].item) <= 0 ==> Before(r, s[i], s[j]))
            && (forall i, j :: 0 <= i < j < |s| && cmp(s[i].item, s[j].item) > 0 ==> Before(r, s[j], s[i]))
  {
    var r := Sort(cmp, s);
    SortPerm(cmp, s);
    SortSorted(cmp, s);
    forall i, j | 0 <= i < j < |s| && cmp(s[i].item, s[j].item) <= 0
      ensures Before(r, s[i], s[j])
    {
      SortStable(cmp, s, i, j);
    }
    forall i, j | 0 <= i < j < |s| && cmp(s[i].item, s[j].item) > 0
      ensures Before(r, s[j], s[i])
    {
      Greater(cmp, s, r, i, j);
    }
  }

  /** What compares greater ends up behind. */
  lemma Greater<T(!new)>(cmp: Cmp<T>, s: seq<Node<T>>, r: seq<Node<T>>, i: int, j: int)
    requires Preorder(cmp) && multiset(r) == multiset(s) && Sorted(cmp, r)
    requires 0 <= i < j < |s| && !Le(cmp, s[i], s[j])
    ensures Before(r, s[j], s[i])
  {
    assert s[i] in multiset(r) && s[j] in multiset(r);
    var p :| 0 <= p < |r| && r[p] == s[i];
    var q :| 0 <= q < |r| && r[q] == s[j];
    SortedUpTo(cmp, r, p, q);
  }

  lemma SortedUpTo<T(!new)>(cmp: Cmp<T>, r: seq<Node<T>>, p: int, q: int)
    requires Preorder(cmp) && Sorted(cmp, r) && 0 <= p < |r| && 0 <= q < |r|
    ensures p <= q ==> Le(cmp, r[p], r[q])
  {
  }

  // ---------- Merging sorted halves sorts the whole ----------

  lemma {:induction false} MergeInsert<T(!new)>(cmp: Cmp<T>, x: Node<T>, a: seq<Node<T>>, b: seq<Node<T>>)
    requires Preorder(cmp) && Sorted(cmp, a) && Sorted(cmp, b)
    ensures Merge(cmp, Insert(cmp, x, a), b) == Insert(cmp, x, Merge(cmp, a, b))
    decreases |a| + |b|
  {
    var xa := Insert(cmp, x, a);
    if b == [] {
    } else if a == [] {
      if !Le(cmp, x, b[0]) {
        MergeInsert(cmp, x, a, b[1..]);
      }
    } else if Le(cmp, x, a[0]) {
      assert xa[1..] == a;
      if !Le(cmp, x, b[0]) {
        assert !Le(cmp, a[0], b[0]);
        MergeInsert(cmp, x, a, b[1..]);
      }
    } else {
      assert xa[0] == a[0] && xa[1..] == Insert(cmp, x, a[1..]);
      if Le(cmp, a[0], b[0]) {
        MergeInsert(cmp, x, a[1..], b);
      } else {
        MergeInsert(cmp, x, a, b[1..]);
      }
    }
  }

  /** The law of bottom-up merge sort: earlier input to the left, equal elements from the left first. */
  lemma {:induction false} MergeSort<T(!new)>(cmp: Cmp<T>, s: seq<Node<T>>, t: seq<Node<T>>)
    requires Preorder(cmp)
    ensures Merge(cmp, Sort(cmp, s), Sort(cmp, t)) == Sort(cmp, s + t)
    decreases |s|
  {
    hide Sorted, Preorder, Insert;
    if s == [] {
      assert s + t == t;
    } else {
      MergeSort(cmp, s[1..], t);
      SortSorted(cmp, s[1..]);
      SortSorted(cmp, t);
      MergeInsert(cmp, s[0], Sort(cmp, s[1..]), Sort(cmp, t));
      assert (s + t)[0] == s[0] && (s + t)[1..] == s[1..] + t;
    }
  }

  // ---------- Permutations and repeated nodes ----------

  lemma {:induction false} NoDupCount<T>(s: seq<T>, x: T)
    requires NoDup(s)
    ensures multiset(s)[x] <= 1
  {
    if s != [] {
      assert s == [s[0]] + s[1..];
      NoDupCount(s[1..], x);
      if x == s[0] {
        assert x !in s[1..];
        assert multiset(s[1..])[x] == 0;
      }
    }
  }

  lemma PermNoDup<T>(s: seq<T>, t: seq<T>)
    requires multiset(s) == multiset(t) && NoDup(s)
    ensures NoDup(t)
  {
    forall i, j | 0 <= i < j < |t|
      ensures t[i] != t[j]
    {
      var a, b := t[..j], t[j..];
      assert t == a + b;
      assert multiset(t) == multiset(a) + multiset(b);
      assert a[i] in multiset(a) && b[0] in multiset(b);
      NoDupCount(s, t[j]);
    }
  }

  lemma SortMembers<T>(cmp: Cmp<T>, s: seq<Node<T>>)
    requires NoDup(s)
    ensures NoDup(Sort(cmp, s))
    ensures forall x :: x in Sort(cmp, s) ==> x in s
    ensures forall x :: x in s ==> x in Sort(cmp, s)
  {
    SortPerm(cmp, s);
    PermNoDup(s, Sort(cmp, s));
    forall x | x in Sort(cmp, s)
      ensures x in s
    {
      assert x in multiset(Sort(cmp, s));
    }
    forall x | x in s
      ensures x in Sort(cmp, s)
    {
      assert x in multiset(s);
    }
  }

  // ---------- The levels of the merge ----------

  /** The input segments held by levels n-1 down to 0, in input order: higher levels hold earlier input. */
  ghost function Cat<T>(seg: seq<seq<T>>, n: int): seq<T>
    requires 0 <= n <= |seg|
    decreases n
  {
    if n == 0 then [] else seg[n - 1] + Cat(seg, n - 1)
  }

  lemma {:induction false} CatEmpty<T>(seg: seq<seq<T>>, n: int)
    requires 0 <= n <= |seg| && forall i :: 0 <= i < n ==> seg[i] == []
    ensures Cat(seg, n) == []
    decreases n
  {
    if n > 0 {
      CatEmpty(seg, n - 1);
    }
  }

  /** With the lower levels empty, level lev holds the end of the input so far. */
  lemma {:induction false} CatPut<T>(seg: seq<seq<T>>, lev: int, c: seq<T>, n: int)
    requires 0 <= lev < n <= |seg| && forall i :: 0 <= i <= lev ==> seg[i] == []
    ensures Cat(seg[lev := c], n) == Cat(seg, n) + c
    decreases n
  {
    if n == lev + 1 {
      CatEmpty(seg, lev);
      CatEmpty(seg[lev := c], lev);
    } else {
      CatPut(seg, lev, c, n - 1);
      assert seg[n - 1] + (Cat(seg, n - 1) + c) == (seg[n - 1] + Cat(seg, n - 1)) + c;
    }
  }

  lemma CatTake<T>(seg: seq<seq<T>>, lev: int, n: int)
    requires 0 <= lev < n <= |seg| && forall i :: 0 <= i < lev ==> seg[i] == []
    ensures Cat(seg, n) == Cat(seg[lev := []], n) + seg[lev]
  {
    CatPut(seg[lev := []], lev, seg[lev], n);
    assert seg[lev := []][lev := seg[lev]] == seg;
  }

  lemma {:induction false} CatMember<T>(seg: seq<seq<T>>, n: int, l: int, x: T)
    requires 0 <= l < n <= |seg| && x in seg[l]
    ensures x in Cat(seg, n)
    decreases n
  {
    if l < n - 1 {
      CatMember(seg, n - 1, l, x);
    }
  }

  lemma ConcatNoDup<T>(a: seq<T>, b: seq<T>)
    requires NoDup(a + b)
    ensures NoDup(a) && NoDup(b) && forall x :: x in a ==> x !in b
  {
    assert forall i :: 0 <= i < |a| ==> (a + b)[i] == a[i];
    assert forall i :: 0 <= i < |b| ==> (a + b)[|a| + i] == b[i];
  }

  /** Distinct nodes overall: every segment is without repetition and shares nothing with another. */
  lemma {:induction false} CatNoDup<T>(seg: seq<seq<T>>, n: int, l: int, m: int)
    requires 0 <= l < n <= |seg| && 0 <= m < n && NoDup(Cat(seg, n))
    ensures NoDup(seg[l])
    ensures l != m ==> forall x :: x in seg[l] ==> x !in seg[m]
    decreases n
  {
    ConcatNoDup(seg[n - 1], Cat(seg, n - 1));
    if l < n - 1 && m < n - 1 {
      CatNoDup(seg, n - 1, l, m);
    } else {
      if l < n - 1 {
        CatNoDup(seg, n - 1, l, l);
      }
      forall x | l != m && x in seg[l]
        ensures x !in seg[m]
      {
        if l < n - 1 {
          CatMember(seg, n - 1, l, x);
        } else if x in seg[m] {
          CatMember(seg, n - 1, m, x);
        }
      }
    }
  }
}
