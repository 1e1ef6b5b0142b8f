/**
 The prefix-length index nets[] of the net-storing hash types.

 Entry i of the column `cidr` holds a stored prefix length plus one (so that 0 means "no entry"),
 longest first; `nets` counts the elements of each length at CIDR_POS of the stored value.
 The two columns of the kernel's array of structs are two arrays here.
 */
module NetIndex {
  const NLEN: nat := 32
  const MIN_CIDR: int := 2
  const MAX_CIDR: int := 33

  function CidrPos(c: int): (p: int) {
    c - 2
  }

  ghost predicate IsNcidr(c: int) {
    MIN_CIDR <= c <= MAX_CIDR
  }

  /** The first n entries are prefix lengths in strictly decreasing order, the rest is zero. */
  ghost predicate SortedColumn(col: seq<int>, n: int) {
    && 0 <= n <= |col|
    && (forall i :: 0 <= i < n ==> IsNcidr(col[i]))
    && (forall i, j :: 0 <= i < j < n ==> col[i] > col[j])
    && (forall i :: n <= i < |col| ==> col[i] == 0)
  }

  /** The column lists exactly the lengths with a positive count. */
  ghost predicate Lists(col: seq<int>, counts: seq<int>) {
    && |counts| == NLEN
    && (forall i :: 0 <= i < NLEN ==> counts[i] >= 0)
    && (forall c :: IsNcidr(c) ==> (c in col <==> counts[CidrPos(c)] > 0))
  }

  ghost predicate Indexed(col: seq<int>, counts: seq<int>) {
    |col| == NLEN && (exists n :: SortedColumn(col, n)) && Lists(col, counts)
  }

  ghost function Filled(col: seq<int>): (n: int)
    requires exists n :: SortedColumn(col, n)
    ensures SortedColumn(col, n)
  {
    var n :| SortedColumn(col, n); n
  }

  /** n strictly decreasing values below a bound leave room: entry i is at most 33 - i. */
  lemma {:induction false} ColumnBounds(col: seq<int>, n: int, i: int)
    requires SortedColumn(col, n) && 0 <= i < n
    ensures MIN_CIDR + (n - 1 - i) <= col[i] <= MAX_CIDR - i
  {
    ColumnUpper(col, n, i);
    ColumnLower(col, n, i);
  }

  lemma {:induction false} ColumnUpper(col: seq<int>, n: int, i: int)
    requires SortedColumn(col, n) && 0 <= i < n
    ensures col[i] <= MAX_CIDR - i
  {
    if i > 0 {
      ColumnUpper(col, n, i - 1);
    }
  }

  lemma {:induction false} ColumnLower(col: seq<int>, n: int, i: int)
    requires SortedColumn(col, n) && 0 <= i < n
    ensures MIN_CIDR + (n - 1 - i) <= col[i]
    decreases n - i
  {
    if i < n - 1 {
      ColumnLower(col, n, i + 1);
    }
  }

  /** Pigeonhole: a full column lists every prefix length, so a missing length finds a free entry. */
  lemma FullColumn(col: seq<int>, n: int, c: int)
    requires |col| == NLEN && SortedColumn(col, n) && IsNcidr(c) && c !in col[..n]
    ensures n < NLEN
  {
    if n == NLEN {
      ColumnBounds(col, n, MAX_CIDR - c);
    }
  }

  /** The counts determine the column: there is only one sorted listing of a set of lengths. */
  lemma {:induction false} ColumnUnique(a: seq<int>, b: seq<int>, n: int, m: int, i: int)
    requires |a| == |b| && SortedColumn(a, n) && SortedColumn(b, m) && 0 <= i <= |a|
    requires forall c :: IsNcidr(c) ==> (c in a <==> c in b)
    ensures a[..i] == b[..i]
  {
    if i > 0 {
      ColumnUnique(a, b, n, m, i - 1);
      if i - 1 < n {
        Occurs(a, b, n, m, i - 1);
      }
      if i - 1 < m {
        Occurs(b, a, m, n, i - 1);
      }
      assert a[i - 1] == b[i - 1];
      assert a[..i] == a[..i - 1] + [a[i - 1]] && b[..i] == b[..i - 1] + [b[i - 1]];
    }
  }

  lemma Occurs(a: seq<int>, b: seq<int>, n: int, m: int, i: int)
    requires |a| == |b| && SortedColumn(a, n) && SortedColumn(b, m) && 0 <= i < n
    requires forall c :: IsNcidr(c) ==> (c in a <==> c in b)
    requires a[..i] == b[..i]
    ensures i < m && b[i] >= a[i]
  {
    assert a[i] in b;
    var j :| 0 <= j < |b| && b[j] == a[i];
    assert forall k :: 0 <= k < i ==> b[k] == a[..i][k] && b[k] > a[i];
  }

  class NetPrefixes {
    const cidr: array<int>
    const nets: array<int>

    ghost predicate Valid()
      reads cidr, nets
    {
      cidr != nets && cidr.Length == NLEN && nets.Length == NLEN && Indexed(cidr[..], nets[..])
    }

    constructor ()
      ensures Valid() && fresh(cidr) && fresh(nets)
      ensures forall i :: 0 <= i < NLEN ==> nets[i] == 0
    {
      cidr := new int[NLEN](_ => 0);
      nets := new int[NLEN](_ => 0);
      new;
      assert SortedColumn(cidr[..], 0);
    }

    /** The search loop of mtype_add_cidr: the entry of c, or the place where it belongs. */
    method FindPlace(c: int, ghost n: int) returns (found: bool, i: int, j: int)
      requires Valid() && IsNcidr(c) && SortedColumn(cidr[..], n)
      ensures found ==> c in cidr[..]
      ensures !found ==> i == n < NLEN && c !in cidr[..]
      ensures !found ==> j == -1 || 0 <= j < n
      ensures !found ==> var at := if j == -1 then n else j; SplitsAt(cidr[..], n, at, c)
    {
      found, i, j := false, 0, -1;
      while i < NLEN && cidr[i] != 0
        invariant 0 <= i <= n
        invariant j == -1 ==> forall k :: 0 <= k < i ==> cidr[k] > c
        invariant j != -1 ==> 0 <= j < i && cidr[j] < c && forall k :: 0 <= k < j ==> cidr[k] > c
      {
        if j != -1 {
        } else if cidr[i] < c {
          j := i;
        } else if cidr[i] == c {
          return true, i, j;
        }
        i := i + 1;
      }
      assert i == n;
      assert forall k :: 0 <= k < NLEN ==> cidr[k] != c;
      FullColumn(cidr[..], n, c);
    }

    /** The shift loop of mtype_add_cidr: entries j..i-1 move up by one. */
    method ShiftRight(i0: int, j: int)
      requires cidr != nets && cidr.Length == NLEN && 0 <= j < i0 < NLEN
      modifies cidr
      ensures forall k :: 0 <= k < NLEN && (k <= j || k > i0) ==> cidr[k] == old(cidr[k])
      ensures forall k :: j < k <= i0 ==> cidr[k] == old(cidr[k - 1])
    {
      var i := i0;
      while i > j
        invariant j <= i <= i0
        invariant forall k :: 0 <= k < NLEN && (k <= i || k > i0) ==> cidr[k] == old(cidr[k])
        invariant forall k :: i < k <= i0 ==> cidr[k] == old(cidr[k - 1])
      {
        cidr[i] := cidr[i - 1];
        i := i - 1;
      }
    }

    /** mtype_add_cidr. */
    method AddCidr(c: int)
      requires Valid() && IsNcidr(c)
      modifies cidr, nets
      ensures Valid()
      ensures nets[..] == old(nets[..])[CidrPos(c) := old(nets[CidrPos(c)]) + 1]
    {
      ghost var col, counts, n := cidr[..], nets[..], Filled(cidr[..]);
      var found, i, j := FindPlace(c, n);
      if found {
        nets[CidrPos(c)] := nets[CidrPos(c)] + 1;
        assert cidr[..] == col;
        return;
      }
      ghost var at := if j == -1 then n else j;
      if j != -1 {
        ShiftRight(i, j);
      }
      i := if j == -1 then i else j;
      cidr[i] := c;
      nets[CidrPos(c)] := 1;
      InsertSorted(col, n, at, c, cidr[..]);
      InsertMembers(col, n, at, c, cidr[..]);
      assert nets[..] == counts[CidrPos(c) := 1];
    }

    /** mtype_del_cidr. */
    method DelCidr(c: int)
      requires Valid() && IsNcidr(c)
      modifies cidr, nets
      ensures Valid()
      ensures nets[..] == if old(nets[CidrPos(c)]) == 0 then old(nets[..])
                          else old(nets[..])[CidrPos(c) := old(nets[CidrPos(c)]) - 1]
    {
      for i := 0 to NLEN
        invariant cidr[..] == old(cidr[..]) && nets[..] == old(nets[..])
        invariant forall k :: 0 <= k < i ==> cidr[k] != c
      {
        if cidr[i] == c {
          assert c in cidr[..];
          nets[CidrPos(c)] := nets[CidrPos(c)] - 1;
          assert cidr[..] == old(cidr[..]);
          if nets[CidrPos(c)] == 0 {
            ShiftLeft(i, c);
          }
          return;
        }
      }
      assert c !in cidr[..];
    }

    /** The second loop of mtype_del_cidr: closes the gap left by entry i. */
    method ShiftLeft(i: int, c: int)
      requires cidr != nets && cidr.Length == NLEN && 0 <= i < NLEN && cidr[i] == c && IsNcidr(c)
      requires exists n :: SortedColumn(cidr[..], n)
      modifies cidr
      ensures exists n :: SortedColumn(cidr[..], n)
      ensures forall x :: IsNcidr(x) ==> (x in cidr[..] <==> x in old(cidr[..]) && x != c)
    {
      ghost var col, n := cidr[..], Filled(cidr[..]);
      var j := i;
      while j < NLEN - 1 && cidr[j] != 0
        invariant i <= j < NLEN && j <= n
        invariant forall k :: 0 <= k < i ==> cidr[k] == col[k]
        invariant forall k :: i <= k < j ==> cidr[k] == col[k + 1]
        invariant forall k :: j <= k < NLEN ==> cidr[k] == col[k]
      {
        cidr[j] := cidr[j + 1];
        j := j + 1;
      }
      cidr[j] := 0;
      RemoveSorted(col, n, i, c, cidr[..]);
      RemoveMembers(col, n, i, c, cidr[..]);
    }

    /** The memset of mtype_flush. */
    method Clear()
      requires Valid()
      modifies cidr, nets
      ensures Valid()
      ensures forall i :: 0 <= i < NLEN ==> nets[i] == 0
    {
      for i := 0 to NLEN
        invariant forall k :: 0 <= k < i ==> cidr[k] == 0 && nets[k] == 0
      {
        cidr[i], nets[i] := 0, 0;
      }
      assert SortedColumn(cidr[..], 0);
    }
  }

  /** Position `at` is where c belongs in the sorted part. */
  ghost predicate SplitsAt(col: seq<int>, n: int, at: int, c: int) {
    && 0 <= at <= n < |col|
    && (forall k :: 0 <= k < at ==> col[k] > c)
    && (at < n ==> col[at] < c)
  }

  ghost predicate InsertedAt(col: seq<int>, n: int, at: int, c: int, res: seq<int>) {
    && |res| == |col| && 0 <= at <= n < |col| && res[at] == c
    && (forall k :: 0 <= k < at ==> res[k] == col[k])
    && (forall k :: at < k <= n ==> res[k] == col[k - 1])
    && (forall k :: n < k < |col| ==> res[k] == 0)
  }

  lemma InsertSorted(col: seq<int>, n: int, at: int, c: int, res: seq<int>)
    requires SortedColumn(col, n) && SplitsAt(col, n, at, c) && IsNcidr(c)
    requires InsertedAt(col, n, at, c, res)
    ensures SortedColumn(res, n + 1)
  {
    forall i, j | 0 <= i < j < n + 1
      ensures res[i] > res[j]
    {
      var oldI, oldJ := if i < at then i else i - 1, if j < at then j else j - 1;
      if i == at {
        assert res[j] == col[j - 1] <= col[at];
      } else if j != at {
        assert col[oldI] > col[oldJ];
      }
    }
  }

  lemma InsertMembers(col: seq<int>, n: int, at: int, c: int, res: seq<int>)
    requires SortedColumn(col, n) && SplitsAt(col, n, at, c)
    requires InsertedAt(col, n, at, c, res)
    ensures forall x :: IsNcidr(x) ==> (x in res <==> x in col || x == c)
  {
    forall x | IsNcidr(x)
      ensures x in res <==> x in col || x == c
    {
      if x in col {
        var k :| 0 <= k < |col| && col[k] == x;
        assert k < n;
        assert res[if k < at then k else k + 1] == x;
      }
      if x in res {
        var k :| 0 <= k < |res| && res[k] == x;
        assert k <= n;
        assert k != at ==> col[if k < at then k else k - 1] == x;
      }
    }
  }

  ghost predicate RemovedAt(col: seq<int>, n: int, at: int, c: int, res: seq<int>) {
    && |res| == |col| && 0 <= at < n <= |col| && col[at] == c
    && (forall k :: 0 <= k < at ==> res[k] == col[k])
    && (forall k :: at <= k < n - 1 ==> res[k] == col[k + 1])
    && (forall k :: n - 1 <= k < |col| ==> res[k] == 0)
  }

  lemma RemoveSorted(col: seq<int>, n: int, at: int, c: int, res: seq<int>)
    requires SortedColumn(col, n) && RemovedAt(col, n, at, c, res)
    ensures SortedColumn(res, n - 1)
  {
    forall i, j | 0 <= i < j < n - 1
      ensures res[i] > res[j]
    {
      var oldI, oldJ := if i < at then i else i + 1, if j < at then j else j + 1;
      assert col[oldI] > col[oldJ];
    }
  }

  lemma RemoveMembers(col: seq<int>, n: int, at: int, c: int, res: seq<int>)
    requires SortedColumn(col, n) && RemovedAt(col, n, at, c, res)
    ensures forall x :: IsNcidr(x) ==> (x in res <==> x in col && x != c)
  {
    forall x | IsNcidr(x)
      ensures x in res <==> x in col && x != c
    {
      if x in col && x != c {
        var k :| 0 <= k < |col| && col[k] == x;
        assert res[if k < at then k else k - 1] == x;
      }
      if x in res {
        var k :| 0 <= k < |res| && res[k] == x;
        assert col[if k < at then k else k + 1] == x;
      }
    }
  }
}
