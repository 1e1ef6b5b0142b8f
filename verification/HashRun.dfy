/**
 Whole runs of the hash set: any sequence of adds, deletes, tests, collections, flushes and resizes
 behaves like one on a mathematical set of elements that never collects, hashes or resizes.
 */
module HashRun {
  import opened Options
  import opened Pfxlen
  import opened HashModel
  import opened HashTable
  import opened HashSpec
  import opened HashSets
  import opened HashResize

  datatype Op =
    | AddOp(k: Key, nomatch: bool, timeout: nat, data: int, exist: bool, mem: bool)
    | DelOp(k: Key, mem: bool)
    | TestOp(k: Key)
    | GcOp(mem: bool)
    | FlushOp
    | ResizeOp(mem: bool)

  datatype Step = Step(op: Op, now: nat)

  datatype Outcome = Returned(ret: Ret) | Tested(verdict: Verdict) | Nothing

  ghost predicate StepOk(s: Step) {
    s.op.AddOp? ==> KeyOk(s.op.k)
  }

  /** One operation on the mathematical set a of elements, some of which may have expired. */
  ghost predicate Means(a: map<Key, Entry>, a': map<Key, Entry>, s: Step, wt: bool, o: Outcome) {
    var live := LiveOf(a, wt, s.now);
    match s.op
    case AddOp(k, nomatch, timeout, data, exist, mem) =>
      && o.Returned?
      && a' == (if o.ret.Ok? then a[k := MakeEntry(wt, k, nomatch, timeout, data, s.now)] else a)
      && (k in live ==> o.ret == if exist then Ok else Exist)
      && (o.ret.Exist? ==> k in live && !exist)
      && (o.ret.NoMem? ==> !mem)
    case DelOp(k, _) =>
      && o == Returned(if k in live then Ok else Exist)
      && a' == if k in live then a - {k} else a
    case TestOp(d) => o.Tested? && TestSpec(live, d, o.verdict) && a' == a
    case GcOp(_) => a' == a
    case FlushOp => a' == map[]
    case ResizeOp(_) => o.Returned? && o.ret in {Ok, Full, NoMem} && a' == a
  }

  /** What an add that succeeds leaves: the element with its flag and data, for as long as was asked. */
  lemma AddedLasts(a: map<Key, Entry>, a': map<Key, Entry>, s: Step, wt: bool, o: Outcome)
    requires Means(a, a', s, wt, o) && s.op.AddOp? && o.ret.Ok?
    ensures s.op.k in a' && a'[s.op.k].nomatch == s.op.nomatch && a'[s.op.k].ext.data == s.op.data
    ensures forall t :: t >= s.now ==>
              (s.op.k in LiveOf(a', wt, t) <==> !(wt && s.op.timeout != 0 && t > s.now + s.op.timeout))
    ensures forall k :: k != s.op.k ==> (k in a' <==> k in a) && (k in a ==> a'[k] == a[k])
  {
  }

  /**
   Why an add may be refused, read off the table t it leaves: no slot of the element's bucket can be
   reused, and the set holds at least maxelem elements or the bucket is full at its largest size.
   A resize leaves the smallest larger table that can take the live elements, or there is none or no memory.
   */
  ghost predicate Refused(was: Table, t: Table, max: nat, maxelem: nat, s: Step, wt: bool, o: Outcome) {
    TableOk(t, max) &&
    (s.op.AddOp? && o.Returned? && o.ret in {Full, Again, NoMem} ==>
       var b := t.b[Home(t, s.op.k)];
       && (b.Some? ==> PlaceSpec(b.value, s.op.k, wt, s.now, AtEnd))
       && (o.ret.Full? ==> |Stored(t, max)| >= maxelem)
       && (o.ret.Again? ==> b.Some? && b.value.pos >= b.value.size >= max))
    && (s.op.ResizeOp? && o.Returned? ==> ResizeDue(was, t, max, s, wt, o.ret))
  }

  ghost predicate ResizeDue(was: Table, t: Table, max: nat, s: Step, wt: bool, ret: Ret)
    requires s.op.ResizeOp? && TableOk(t, max)
  {
    var live := LiveOf(Stored(t, max), wt, s.now);
    && (ret.Ok? ==>
          was.bits < t.bits <= MAX_BITS && Spreads(live, t.hash, t.bits, max)
          && forall b :: was.bits < b < t.bits ==> !Spreads(live, t.hash, b, max))
    && (ret.Full? ==> t == was && forall b :: was.bits < b <= MAX_BITS ==> !Spreads(live, t.hash, b, max))
    && (ret.NoMem? ==> t == was && !s.op.mem)
  }

  /** The stored elements m and the mathematical set a have the same live elements from `now` on. */
  ghost predicate Agree(m: map<Key, Entry>, a: map<Key, Entry>, wt: bool, now: int) {
    LiveOf(m, wt, now) == LiveOf(a, wt, now)
  }

  /** Time only expires elements, so agreement lasts. */
  lemma AgreeLater(m: map<Key, Entry>, a: map<Key, Entry>, wt: bool, now: int, later: int)
    requires Agree(m, a, wt, now) && now <= later
    ensures Agree(m, a, wt, later)
  {
    forall k
      ensures k in LiveOf(m, wt, later) <==> k in LiveOf(a, wt, later)
      ensures k in LiveOf(m, wt, later) ==> m[k] == a[k]
    {
      assert k in LiveOf(m, wt, now) <==> k in LiveOf(a, wt, now);
      assert k in LiveOf(m, wt, now) ==> LiveOf(m, wt, now)[k] == LiveOf(a, wt, now)[k];
    }
  }

  lemma AgreeAdd(m: map<Key, Entry>, m': map<Key, Entry>, a: map<Key, Entry>, e: Entry, exist: bool, wt: bool, now: int, ret: Ret)
    requires Agree(m, a, wt, now) && AddSpec(m, m', e, exist, wt, now, ret) && !Dead(wt, e, now)
    ensures Agree(m', if ret.Ok? then a[e.key := e] else a, wt, now)
  {
    assert LiveOf(a[e.key := e], wt, now) == LiveOf(a, wt, now)[e.key := e];
  }

  lemma AgreeDel(m: map<Key, Entry>, a: map<Key, Entry>, k: Key, wt: bool, now: int)
    requires Agree(m, a, wt, now)
    ensures Agree(m - {k}, a - {k}, wt, now)
  {
    assert LiveOf(m - {k}, wt, now) == LiveOf(m, wt, now) - {k};
    assert LiveOf(a - {k}, wt, now) == LiveOf(a, wt, now) - {k};
  }

  method DoAdd(s: HashSet, step: Step, ghost a: map<Key, Entry>) returns (o: Outcome, ghost a': map<Key, Entry>)
    requires s.Valid() && StepOk(step) && step.op.AddOp? && Agree(s.Elems(), a, s.withTimeout, step.now)
    modifies s.Repr()
    ensures s.Valid() && s.Repr() == old(s.Repr())
    ensures Means(a, a', step, s.withTimeout, o) && Agree(s.Elems(), a', s.withTimeout, step.now)
    ensures Refused(old(s.table.Val()), s.table.Val(), s.bucketsize, s.maxelem, step, s.withTimeout, o)
  {
    ghost var was := s.table.Val();
    hide s.Valid, s.Elems, s.Live, s.Crowded, s.BucketFull, s.Over, s.Tallied, AddSpec, LiveOf, NoHoles, NumLocks, Agree, Refused,
         Means, MakeEntry, KeyOk, AddGuard;
    ghost var m, wt := s.Elems(), s.withTimeout;
    var op := step.op;
    KeyOfStep(step);
    var ret := s.Add(op.k, op.nomatch, op.timeout, op.data, op.exist, op.mem, step.now);
    OverLimit(s, ret);
    Due(s, was, step, ret);
    a' := AddMeans(m, s.Elems(), a, step, wt, ret);
    o := Returned(ret);
  }

  lemma KeyOfStep(step: Step)
    requires StepOk(step) && step.op.AddOp?
    ensures KeyOk(step.op.k)
  {
  }

  lemma OverLimit(s: HashSet, ret: Ret)
    requires s.Valid()
    ensures forall count, share :: !AddGuard(count, share, |s.Elems()|, s.maxelem) ==> |s.Elems()| >= s.maxelem
  {
  }

  /** The same add on the mathematical set. */
  lemma AddMeans(m: map<Key, Entry>, m': map<Key, Entry>, a: map<Key, Entry>, step: Step, wt: bool, ret: Ret)
    returns (a': map<Key, Entry>)
    requires step.op.AddOp? && Agree(m, a, wt, step.now) && (ret.NoMem? ==> !step.op.mem)
    requires var op := step.op;
             AddSpec(m, m', MakeEntry(wt, op.k, op.nomatch, op.timeout, op.data, step.now), op.exist, wt, step.now, ret)
    ensures Means(a, a', step, wt, Returned(ret)) && Agree(m', a', wt, step.now)
  {
    hide AddSpec, Agree, LiveOf;
    var op := step.op;
    var e := MakeEntry(wt, op.k, op.nomatch, op.timeout, op.data, step.now);
    AgreeAdd(m, m', a, e, op.exist, wt, step.now, ret);
    AddVerdict(m, m', a, e, op.exist, wt, step.now, ret);
    a' := if ret.Ok? then a[op.k := e] else a;
  }

  /** What the add promises about a refusal, in terms of the table alone. */
  lemma Due(s: HashSet, was: Table, step: Step, ret: Ret)
    requires s.Valid() && step.op.AddOp?
    requires ret in {Full, Again, NoMem} ==> s.Crowded(step.op.k, step.now)
    requires ret.Full? ==> |s.Elems()| >= s.maxelem
    requires ret.Again? ==> s.BucketFull(s.Hkey(step.op.k))
    ensures Refused(was, s.table.Val(), s.bucketsize, s.maxelem, step, s.withTimeout, Returned(ret))
  {
    hide TableOk, Conserved, Stored, CountsOk, PlaceSpec;
    TableLength(s.table.Val(), s.table.max);
  }

  method DoDel(s: HashSet, step: Step, ghost a: map<Key, Entry>) returns (o: Outcome, ghost a': map<Key, Entry>)
    requires s.Valid() && step.op.DelOp? && Agree(s.Elems(), a, s.withTimeout, step.now)
    modifies s.Repr()
    ensures s.Valid() && s.Repr() == old(s.Repr())
    ensures Means(a, a', step, s.withTimeout, o) && Agree(s.Elems(), a', s.withTimeout, step.now)
  {
    hide s.Valid, s.Elems, LiveOf;
    AgreeDel(s.Elems(), a, step.op.k, s.withTimeout, step.now);
    var ret := s.Del(step.op.k, step.op.mem, step.now);
    a' := if ret.Ok? then a - {step.op.k} else a;
    o := Returned(ret);
  }

  /** Tests, collections and flushes. */
  method DoOther(s: HashSet, step: Step, ghost a: map<Key, Entry>) returns (o: Outcome, ghost a': map<Key, Entry>)
    requires s.Valid() && (step.op.TestOp? || step.op.GcOp? || step.op.FlushOp?)
    requires Agree(s.Elems(), a, s.withTimeout, step.now)
    modifies s.Repr()
    ensures s.Valid() && s.Repr() == old(s.Repr())
    ensures Means(a, a', step, s.withTimeout, o) && Agree(s.Elems(), a', s.withTimeout, step.now)
  {
    hide TableOk, Conserved, Stored, CountsOk, LiveOf, TestSpec, OnlyExpiredGone;
    if step.op.TestOp? {
      var v := s.Test(step.op.k, step.now);
      o, a' := Tested(v), a;
    } else if step.op.GcOp? {
      s.Gc(step.op.mem, step.now);
      o, a' := Nothing, a;
    } else {
      s.Flush();
      o, a' := Nothing, map[];
    }
  }

  lemma TableOf(s: HashSet, now: int)
    requires s.Valid()
    ensures var t := s.table.Val();
            && TableOk(t, s.bucketsize) && t.hash == s.hash && t.bits == s.table.bits <= MAX_BITS
            && LiveOf(Stored(t, s.bucketsize), s.withTimeout, now) == s.Live(now)
  {
    hide TableOk, Conserved, Stored, CountsOk, LiveOf;
  }

  /** What the resize promises, in terms of the tables alone. */
  lemma ResizeRefused(was: Table, t: Table, max: nat, maxelem: nat, live: map<Key, Entry>, step: Step, wt: bool, ret: Ret)
    requires TableOk(t, max) && live == LiveOf(Stored(t, max), wt, step.now) && step.op.ResizeOp? && t.bits <= MAX_BITS
    requires ret.Ok? ==>
               && was.bits < t.bits && Spreads(live, t.hash, t.bits, max)
               && forall b :: was.bits < b < t.bits ==> !Spreads(live, t.hash, b, max)
    requires ret.Full? ==> t == was && forall b :: was.bits < b <= MAX_BITS ==> !Spreads(live, t.hash, b, max)
    requires ret.NoMem? ==> t == was && !step.op.mem
    ensures Refused(was, t, max, maxelem, step, wt, Returned(ret))
  {
    hide TableOk, Stored, Spreads, LiveOf;
  }

  lemma AgreeLive(s: HashSet, a: map<Key, Entry>, now: int)
    requires s.Valid()
    ensures Agree(s.Elems(), a, s.withTimeout, now) <==> s.Live(now) == LiveOf(a, s.withTimeout, now)
  {
  }

  method DoResize(s: HashSet, step: Step, ghost a: map<Key, Entry>) returns (o: Outcome)
    requires s.Valid() && step.op.ResizeOp? && Agree(s.Elems(), a, s.withTimeout, step.now)
    modifies s.Repr()
    ensures s.Valid() && fresh(s.Repr() - old(s.Repr()))
    ensures Means(a, a, step, s.withTimeout, o) && Agree(s.Elems(), a, s.withTimeout, step.now)
    ensures Refused(old(s.table.Val()), s.table.Val(), s.bucketsize, s.maxelem, step, s.withTimeout, o)
  {
    hide s.Valid, s.Elems, s.Live, LiveOf, Spreads, Refused, Agree;
    ghost var was, live := s.table.Val(), s.Live(step.now);
    AgreeLive(s, a, step.now);
    var ret := Resize(s, step.op.mem, step.now);
    TableOf(s, step.now);
    ResizeRefused(was, s.table.Val(), s.bucketsize, s.maxelem, live, step, s.withTimeout, ret);
    AgreeLive(s, a, step.now);
    o := Returned(ret);
  }

  method DoStep(s: HashSet, step: Step, ghost a: map<Key, Entry>) returns (o: Outcome, ghost a': map<Key, Entry>)
    requires s.Valid() && StepOk(step) && Agree(s.Elems(), a, s.withTimeout, step.now)
    modifies s.Repr()
    ensures s.Valid() && fresh(s.Repr() - old(s.Repr()))
    ensures Means(a, a', step, s.withTimeout, o)
    ensures Agree(s.Elems(), a', s.withTimeout, step.now)
    ensures Refused(old(s.table.Val()), s.table.Val(), s.bucketsize, s.maxelem, step, s.withTimeout, o)
  {
    hide TableOk, Conserved, Stored, CountsOk, LiveOf, Means, Agree, PlaceSpec;
    a' := a;
    match step.op {
      case AddOp(_, _, _, _, _, _) => o, a' := DoAdd(s, step, a);
      case DelOp(_, _) => o, a' := DoDel(s, step, a);
      case ResizeOp(_) => o := DoResize(s, step, a);
      case _ => o, a' := DoOther(s, step, a);
    }
  }

  lemma AddVerdict(m: map<Key, Entry>, m': map<Key, Entry>, a: map<Key, Entry>, e: Entry, exist: bool, wt: bool, now: int,
                   ret: Ret)
    requires AddSpec(m, m', e, exist, wt, now, ret) && Agree(m, a, wt, now)
    ensures e.key in LiveOf(a, wt, now) ==> ret == if exist then Ok else Exist
    ensures ret.Exist? ==> e.key in LiveOf(a, wt, now) && !exist
  {
  }

  ghost predicate Ordered(steps: seq<Step>) {
    forall i, j :: 0 <= i < j < |steps| ==> steps[i].now <= steps[j].now
  }

  /** The outcomes of a run from `start` are those of the mathematical set, state by state. */
  ghost predicate RunMeans(start: map<Key, Entry>, steps: seq<Step>, wt: bool, outs: seq<Outcome>, states: seq<map<Key, Entry>>) {
    && |outs| <= |steps| && |states| == |outs| + 1 && states[0] == start
    && forall i :: 0 <= i < |outs| ==> Means(states[i], states[i + 1], steps[i], wt, outs[i])
  }

  lemma RunNone(start: map<Key, Entry>, steps: seq<Step>, wt: bool)
    ensures RunMeans(start, steps, wt, [], [start])
  {
  }

  lemma OrderedAt(steps: seq<Step>, i: int)
    requires Ordered(steps) && 0 < i < |steps|
    ensures steps[i - 1].now <= steps[i].now
  {
  }

  lemma RunSnoc(start: map<Key, Entry>, steps: seq<Step>, wt: bool, outs: seq<Outcome>, states: seq<map<Key, Entry>>,
                o: Outcome, a: map<Key, Entry>)
    requires |outs| < |steps| && RunMeans(start, steps, wt, outs, states)
    requires Means(states[|outs|], a, steps[|outs|], wt, o)
    ensures RunMeans(start, steps, wt, outs + [o], states + [a])
  {
  }

  /** Every refusal of a run is due: tables[i + 1] is the table step i leaves. */
  ghost predicate Refusals(max: nat, maxelem: nat, steps: seq<Step>, wt: bool, outs: seq<Outcome>, tables: seq<Table>) {
    && |outs| <= |steps| && |tables| == |outs| + 1
    && forall i :: 0 <= i < |outs| ==> Refused(tables[i], tables[i + 1], max, maxelem, steps[i], wt, outs[i])
  }

  lemma RefusalSnoc(max: nat, maxelem: nat, steps: seq<Step>, wt: bool, outs: seq<Outcome>, tables: seq<Table>,
                    o: Outcome, t: Table)
    requires |outs| < |steps| && Refusals(max, maxelem, steps, wt, outs, tables)
    requires Refused(tables[|outs|], t, max, maxelem, steps[|outs|], wt, o)
    ensures Refusals(max, maxelem, steps, wt, outs + [o], tables + [t])
  {
  }

  /** Any run of operations on one set, its clock not going back. */
  method Run(s: HashSet, steps: seq<Step>)
    returns (outs: seq<Outcome>, ghost states: seq<map<Key, Entry>>, ghost tables: seq<Table>)
    requires s.Valid() && Ordered(steps) && forall i :: 0 <= i < |steps| ==> StepOk(steps[i])
    modifies s.Repr()
    ensures s.Valid() && fresh(s.Repr() - old(s.Repr()))
    ensures |outs| == |steps| && RunMeans(old(s.Elems()), steps, s.withTimeout, outs, states)
    ensures Refusals(s.bucketsize, s.maxelem, steps, s.withTimeout, outs, tables)
    ensures tables[0] == old(s.table.Val()) && tables[|steps|] == s.table.Val()
    ensures steps != [] ==> Agree(s.Elems(), states[|steps|], s.withTimeout, steps[|steps| - 1].now)
  {
    hide s.Valid, LiveOf, Means, Agree, StepOk, RunMeans, Ordered, Refused;
    RunNone(s.Elems(), steps, s.withTimeout);
    outs, states, tables := [], [s.Elems()], [s.table.Val()];
    for i := 0 to |steps|
      invariant s.Valid() && fresh(s.Repr() - old(s.Repr()))
      invariant |outs| == i && |states| == i + 1 && RunMeans(old(s.Elems()), steps, s.withTimeout, outs, states)
      invariant Refusals(s.bucketsize, s.maxelem, steps, s.withTimeout, outs, tables)
      invariant tables[0] == old(s.table.Val()) && tables[i] == s.table.Val()
      invariant i == 0 ==> s.Elems() == states[0]
      invariant i > 0 ==> Agree(s.Elems(), states[i], s.withTimeout, steps[i - 1].now)
    {
      if i == 0 {
        AgreeSelf(s.Elems(), s.withTimeout, steps[0].now);
      } else {
        OrderedAt(steps, i);
        AgreeLater(s.Elems(), states[i], s.withTimeout, steps[i - 1].now, steps[i].now);
      }
      var o, a := DoStep(s, steps[i], states[i]);
      RunSnoc(old(s.Elems()), steps, s.withTimeout, outs, states, o, a);
      RefusalSnoc(s.bucketsize, s.maxelem, steps, s.withTimeout, outs, tables, o, s.table.Val());
      outs, states, tables := outs + [o], states + [a], tables + [s.table.Val()];
    }
  }

  lemma AgreeSelf(m: map<Key, Entry>, wt: bool, now: int)
    ensures Agree(m, m, wt, now)
  {
  }

  /** Any run from a newly created set, for every size that create accepts. */
  method RunNew(hash: Key -> nat, hashsize: Option<nat>, maxelem: Option<nat>, bucketsize: Option<nat>, wt: bool, mem: bool,
                steps: seq<Step>)
    returns (s: HashSet?, outs: seq<Outcome>, ghost states: seq<map<Key, Entry>>, ghost tables: seq<Table>)
    requires maxelem.Some? ==> maxelem.value < U32
    requires Ordered(steps) && forall i :: 0 <= i < |steps| ==> StepOk(steps[i])
    ensures s == null <==> Hbits(hashsize) > MAX_BITS || !mem
    ensures s != null ==>
              && s.Valid() && s.withTimeout == wt && |outs| == |steps| && RunMeans(map[], steps, wt, outs, states)
              && Refusals(s.bucketsize, s.maxelem, steps, wt, outs, tables) && tables[|steps|] == s.table.Val()
              && (steps != [] ==> Agree(s.Elems(), states[|steps|], wt, steps[|steps| - 1].now))
  {
    hide HashSet.Valid, LiveOf, Means, Agree, StepOk, RunMeans, Ordered, Refusals, NoHoles;
    outs, states, tables := [], [], [];
    s := CreateSet(hash, hashsize, maxelem, bucketsize, wt, mem);
    if s != null {
      outs, states, tables := Run(s, steps);
    }
  }
}
