/**
 Runs of the registry: commands, external holders and dumps in any order.  Every index somebody
 holds stays valid, and both counts of every slot are exactly what is outstanding.
 */
module RegistryRun {
  import opened Options
  import opened RegistryModel
  import opened DumpModel
  import opened XtSet

  /** Who holds references: a checked match or target rule, or a list:set set with a member. */
  datatype Holder = Match(info: Info) | Target(target: TargetInfo) | Member(index: nat)

  ghost function Refs(h: Holder): multiset<int> {
    match h
    case Match(info) => multiset{info.index}
    case Target(g) => Indexes(g)
    case Member(i) => multiset{i}
  }

  /**
   The table, the holders, the dumps under way, and how far the destruction of all sets has come
   while it is: is_destroyed is then set.
   */
  datatype State = State(t: Table, holders: seq<Holder>, dumps: seq<Args>, destroying: Option<nat>)

  datatype Op =
    | Create(name: string, body: Body, exist: bool, alloc: bool)
    | Destroy(name: string, exist: bool)
    | BeginDestroyAll
    | ClearSlot
    | EndDestroyAll
    | Rename(name: string, name2: string)
    | Swap(name: string, name2: string)
    | CheckMatch(info: Info)
    | CheckTarget(target: TargetInfo)
    | AddMember(name: string)
    | Drop(holder: nat)
    | DumpStart(what: Option<string>, listSetname: bool, listHeader: bool)
    | DumpCall(dump: nat, skb: Skb)
    | DumpStop(dump: nat)

  ghost function HeldBy(hs: seq<Holder>, i: int): nat {
    if hs == [] then 0 else Refs(hs[0])[i] + HeldBy(hs[1..], i)
  }

  ghost function DumpedBy(ds: seq<Args>, i: int): nat {
    if ds == [] then 0 else Holds(ds[0], i) + DumpedBy(ds[1..], i)
  }

  ghost predicate Inv(s: State) {
    && Ok(s.t)
    && (forall i :: Ref(s.t, i) == HeldBy(s.holders, i))
    && (forall i :: Net(s.t, i) == DumpedBy(s.dumps, i))
    && (forall d :: d in s.dumps ==> MidOk(s.t, d))
    && DestroyingOk(s.t, s.destroying)
  }

  /** While all sets are being destroyed none is referenced, and those in the first slots are gone. */
  ghost predicate DestroyingOk(t: Table, destroying: Option<nat>) {
    destroying.Some? ==> Unused(t) && destroying.value <= |t| && forall k :: 0 <= k < destroying.value ==> t[k].None?
  }

  /** Commands, checks and the start of a dump wait until all sets are destroyed. */
  predicate Waits(op: Op) {
    op.Create? || op.Destroy? || op.BeginDestroyAll? || op.Rename? || op.Swap? || op.CheckMatch? || op.CheckTarget?
    || op.AddMember? || op.DumpStart?
  }

  function Without<T>(x: seq<T>, k: nat): seq<T>
    requires k < |x|
  {
    x[..k] + x[k + 1..]
  }

  ghost function Step(s: State, op: Op, same: (Body, Body) -> bool): State
    requires Inv(s)
  {
    if s.destroying.Some? && Waits(op) then s
    else match op
    case Create(name, body, exist, alloc) => s.(t := RegistryModel.Create(s.t, name, body, exist, same, alloc).0)
    case Destroy(name, exist) => s.(t := RegistryModel.Destroy(s.t, name, exist).0)
    case BeginDestroyAll => if Unused(s.t) then s.(destroying := Some(0)) else s
    case ClearSlot =>
      if s.destroying.Some? && s.destroying.value < |s.t| then
        s.(t := s.t[s.destroying.value := None], destroying := Some(s.destroying.value + 1))
      else s
    case EndDestroyAll => if s.destroying == Some(|s.t|) then s.(destroying := None) else s
    case Rename(name, name2) => s.(t := RegistryModel.Rename(s.t, name, name2).0)
    case Swap(name, name2) => s.(t := RegistryModel.Swap(s.t, name, name2).0)
    case CheckMatch(info) =>
      if Held(s.t, info.index) && info.dim <= DIM_MAX then Taken(s, Match(info)) else s
    case CheckTarget(g) => if Verdict(s.t, g) == Done then Taken(s, Target(g)) else s
    case AddMember(name) => if Find(s.t, name).Some? then Taken(s, Member(Find(s.t, name).value)) else s
    case Drop(k) => if k < |s.holders| then Dropped(s, k) else s
    case DumpStart(what, setname, header) =>
      var a := Start(s.t, what, setname, header);
      if a.Some? then s.(dumps := s.dumps + [a.value]) else s
    case DumpCall(k, skb) =>
      if k < |s.dumps| then
        var r := Do(s.t, s.destroying.Some?, s.dumps[k], skb);
        s.(t := r.0, dumps := s.dumps[k := r.1])
      else s
    case DumpStop(k) => if k < |s.dumps| then s.(t := Stop(s.t, s.dumps[k]), dumps := Without(s.dumps, k)) else s
  }

  ghost function Dropped(s: State, k: nat): State
    requires k < |s.holders|
  {
    s.(t := Release(s.t, Refs(s.holders[k])), holders := Without(s.holders, k))
  }

  ghost function Taken(s: State, h: Holder): State {
    s.(t := Hold(s.t, Refs(h)), holders := s.holders + [h])
  }

  ghost function Init(max: nat): State {
    State(Empties(max), [], [], None)
  }

  // ---------- Sums ----------

  lemma {:induction false} HeldByAppend(hs: seq<Holder>, m: Holder, i: int)
    ensures HeldBy(hs + [m], i) == HeldBy(hs, i) + Refs(m)[i]
  {
    if hs == [] {
      assert [] + [m] == [m];
    } else {
      HeldByAppend(hs[1..], m, i);
      assert (hs + [m])[1..] == hs[1..] + [m];
    }
  }

  lemma {:induction false} HeldByWithout(hs: seq<Holder>, k: nat, i: int)
    requires k < |hs|
    ensures HeldBy(hs, i) == HeldBy(Without(hs, k), i) + Refs(hs[k])[i]
  {
    if k == 0 {
      assert Without(hs, 0) == hs[1..];
    } else {
      HeldByWithout(hs[1..], k - 1, i);
      assert Without(hs, k)[1..] == Without(hs[1..], k - 1);
    }
  }

  lemma {:induction false} DumpedByAppend(ds: seq<Args>, d: Args, i: int)
    ensures DumpedBy(ds + [d], i) == DumpedBy(ds, i) + Holds(d, i)
  {
    if ds == [] {
      assert [] + [d] == [d];
    } else {
      DumpedByAppend(ds[1..], d, i);
      assert (ds + [d])[1..] == ds[1..] + [d];
    }
  }

  lemma {:induction false} DumpedByWithout(ds: seq<Args>, k: nat, i: int)
    requires k < |ds|
    ensures DumpedBy(ds, i) == DumpedBy(Without(ds, k), i) + Holds(ds[k], i)
  {
    if k == 0 {
      assert Without(ds, 0) == ds[1..];
    } else {
      DumpedByWithout(ds[1..], k - 1, i);
      assert Without(ds, k)[1..] == Without(ds[1..], k - 1);
    }
  }

  lemma DumpedByPut(ds: seq<Args>, k: nat, d: Args, i: int)
    requires k < |ds|
    ensures DumpedBy(ds[k := d], i) == DumpedBy(ds, i) - Holds(ds[k], i) + Holds(d, i)
  {
    DumpedByWithout(ds, k, i);
    DumpedByWithout(ds[k := d], k, i);
    assert Without(ds[k := d], k) == Without(ds, k);
  }

  // ---------- Held indexes are valid ----------

  /** What a holder holds is there to be given back: no put meets an empty slot or a zero count. */
  lemma HeldIsThere(s: State, k: nat)
    requires Inv(s) && k < |s.holders|
    ensures Covers(s.t, Refs(s.holders[k]))
    ensures forall i :: i in Refs(s.holders[k]) ==> 0 <= i < |s.t| && i != INVALID_ID && s.t[i].Some? && s.t[i].value.ref > 0
  {
    var m := Refs(s.holders[k]);
    forall i | i in m
      ensures m[i] <= Ref(s.t, i)
    {
      HeldByWithout(s.holders, k, i);
    }
    assert forall i :: i in m ==> Ref(s.t, i) > 0;
  }

  /** A set inside which a dump is can be neither destroyed nor renamed nor swapped, a held one not destroyed or renamed. */
  lemma HeldRefuses(t: Table, i: nat, exist: bool, other: string)
    requires Ok(t) && Held(t, i)
    ensures var name := t[i].value.name;
            && (Ref(t, i) > 0 || Net(t, i) > 0 ==>
                  && RegistryModel.Destroy(t, name, exist) == (t, Busy)
                  && RegistryModel.DestroyAll(t) == (t, Busy)
                  && RegistryModel.Rename(t, name, other) == (t, Referenced))
            && (Net(t, i) > 0 ==> RegistryModel.Swap(t, name, other).0 == t && RegistryModel.Swap(t, other, name).0 == t)
  {
    var name := t[i].value.name;
    assert Named(t, i, name);
    var k := Find(t, name).value;
    assert Named(t, k, name) && k == i;
  }

  // ---------- Every run ----------

  lemma CommandInv(s: State, u: Table)
    requires Inv(s) && Ok(u) && Keeps(s.t, u) && s.destroying.None?
    ensures Inv(s.(t := u))
  {
    forall d | d in s.dumps
      ensures MidOk(u, d)
    {
      assert MidOk(s.t, d);
    }
  }

  lemma TakenInv(s: State, h: Holder)
    requires Inv(s) && s.destroying.None? && forall i :: i in Refs(h) ==> Held(s.t, i)
    ensures Inv(Taken(s, h))
  {
    hide Refs;
    var m := Refs(h);
    var u := Hold(s.t, m);
    forall i
      ensures Ref(u, i) == HeldBy(s.holders + [h], i) && Net(u, i) == Net(s.t, i)
    {
      HeldByAppend(s.holders, h, i);
      assert i !in m ==> m[i] == 0;
    }
    SameButRef(s, u);
  }

  /** Changes of external counts alone keep every dump where it is. */
  lemma SameButRef(s: State, u: Table)
    requires Inv(s) && |u| == |s.t|
    requires forall i :: 0 <= i < |u| ==> u[i] == if s.t[i].None? then None else Some(s.t[i].value.(ref := Ref(u, i)))
    ensures Ok(u) && forall d :: d in s.dumps ==> MidOk(u, d)
  {
    forall d | d in s.dumps
      ensures MidOk(u, d)
    {
      assert MidOk(s.t, d);
    }
  }

  lemma DropInv(s: State, k: nat)
    requires Inv(s) && k < |s.holders|
    ensures Inv(Dropped(s, k))
  {
    hide MidOk, Ok, Without, Refs, DestroyingOk;
    var m := Refs(s.holders[k]);
    var u := Release(s.t, m);
    HeldIsThere(s, k);
    forall i
      ensures Ref(u, i) == HeldBy(Without(s.holders, k), i) && Net(u, i) == Net(s.t, i)
    {
      HeldByWithout(s.holders, k, i);
      assert i in m ==> m[i] <= Ref(s.t, i);
    }
    SameButRef(s, u);
    StillUnused(s.t, u, s.destroying);
  }

  /** Counts that do not grow keep a destruction where it is. */
  lemma StillUnused(t: Table, u: Table, destroying: Option<nat>)
    requires DestroyingOk(t, destroying) && |u| == |t| && forall i :: 0 <= i < |t| ==> u[i].Some? == t[i].Some?
    requires forall i :: Ref(u, i) <= Ref(t, i) && Net(u, i) <= Net(t, i)
    ensures DestroyingOk(u, destroying)
  {
  }

  lemma ClearInv(s: State)
    requires Inv(s) && s.destroying.Some? && s.destroying.value < |s.t|
    ensures Inv(s.(t := s.t[s.destroying.value := None], destroying := Some(s.destroying.value + 1)))
  {
    var u := s.t[s.destroying.value := None];
    forall i
      ensures Ref(u, i) == Ref(s.t, i) == 0 && Net(u, i) == Net(s.t, i) == 0
    {
      assert 0 <= i < |s.t| && s.t[i].Some? ==> Ref(s.t, i) == 0;
    }
    forall d | d in s.dumps
      ensures MidOk(u, d)
    {
      assert MidOk(s.t, d);
    }
  }

  /** While all sets are being destroyed a dump emits nothing and changes nothing. */
  lemma DestroyedNothing(s: State, k: nat, skb: Skb)
    requires Inv(s) && k < |s.dumps| && s.destroying.Some?
    ensures MidOk(s.t, s.dumps[k]) && Stop(s.t, s.dumps[k]) == s.t
    ensures var r := Do(s.t, true, s.dumps[k], skb); r.0 == s.t && r.1 == s.dumps[k] && !r.2.Message?
  {
    assert MidOk(s.t, s.dumps[k]);
    var i := s.dumps[k].index;
    assert Net(s.t, i) == 0;
  }

  /** A dump's call changes nothing but its own part of ref_netlink; the other dumps stay where they are. */
  lemma OthersMid(s: State, k: nat, u: Table)
    requires Inv(s) && k < |s.dumps| && SameSets(s.t, u)
    requires forall i :: Net(u, i) >= Net(s.t, i) - Holds(s.dumps[k], i)
    ensures Ok(u) && forall i :: Ref(u, i) == Ref(s.t, i)
    ensures forall j :: 0 <= j < |s.dumps| && j != k ==> MidOk(u, s.dumps[j])
  {
    forall j | 0 <= j < |s.dumps| && j != k
      ensures MidOk(u, s.dumps[j])
    {
      var d := s.dumps[j];
      assert MidOk(s.t, d);
      var i := d.index;
      DumpedByWithout(s.dumps, k, i);
      var w := Without(s.dumps, k);
      var j' := if j < k then j else j - 1;
      assert w[j'] == d;
      DumpedByWithout(w, j', i);
    }
  }

  lemma DumpCallInv(s: State, k: nat, skb: Skb, same: (Body, Body) -> bool)
    requires Inv(s) && k < |s.dumps|
    ensures Inv(Step(s, DumpCall(k, skb), same))
  {
    hide Do, SameSets, MidOk, Ok, DestroyingOk;
    assert MidOk(s.t, s.dumps[k]);
    var destroyed := s.destroying.Some?;
    if destroyed {
      DestroyedNothing(s, k, skb);
      assert s.dumps[k := s.dumps[k]] == s.dumps;
      return;
    }
    OkSize(s.t);
    Balanced(s.t, destroyed, s.dumps[k], skb);
    var (u, b, r) := Do(s.t, destroyed, s.dumps[k], skb);
    forall i
      ensures Net(u, i) == DumpedBy(s.dumps[k := b], i)
    {
      DumpedByPut(s.dumps, k, b, i);
    }
    OthersMid(s, k, u);
    NotDestroying(u, s.destroying);
    forall d | d in s.dumps[k := b]
      ensures MidOk(u, d)
    {
      var j :| 0 <= j < |s.dumps| && s.dumps[k := b][j] == d;
    }
  }

  lemma NotDestroying(t: Table, destroying: Option<nat>)
    requires destroying.None?
    ensures DestroyingOk(t, destroying)
  {
  }

  lemma OkSize(t: Table)
    requires Ok(t)
    ensures |t| < INVALID_ID
  {
  }

  lemma StopKeeps(s: State, k: nat)
    requires Inv(s) && k < |s.dumps|
    ensures MidOk(s.t, s.dumps[k]) && DestroyingOk(Stop(s.t, s.dumps[k]), s.destroying)
  {
    assert MidOk(s.t, s.dumps[k]);
    if s.destroying.Some? {
      DestroyedNothing(s, k, Skb(true, true, true, true, true, 0));
    }
  }

  lemma DumpStopInv(s: State, k: nat, same: (Body, Body) -> bool)
    requires Inv(s) && k < |s.dumps|
    ensures Inv(Step(s, DumpStop(k), same))
  {
    hide SameSets, MidOk, Ok, DestroyingOk;
    assert MidOk(s.t, s.dumps[k]);
    StopBalanced(s.t, s.dumps[k]);
    StopKeeps(s, k);
    var u := Stop(s.t, s.dumps[k]);
    forall i
      ensures Net(u, i) == DumpedBy(Without(s.dumps, k), i)
    {
      DumpedByWithout(s.dumps, k, i);
    }
    OthersMid(s, k, u);
    var w := Without(s.dumps, k);
    forall d | d in w
      ensures MidOk(u, d)
    {
      var j :| 0 <= j < |w| && w[j] == d;
      assert d == s.dumps[if j < k then j else j + 1];
    }
  }

  lemma StepInv(s: State, op: Op, same: (Body, Body) -> bool)
    requires Inv(s)
    ensures Inv(Step(s, op, same))
  {
    hide Inv, Ok, Keeps, MidOk, Hold, Release, Refs, Do, Stop, Start, Verdict, FindFrom, HeldBy, DumpedBy;
    hide RegistryModel.Create, RegistryModel.Destroy, RegistryModel.DestroyAll, RegistryModel.Rename, RegistryModel.Swap;
    hide DestroyingOk;
    InvOk(s);
    if s.destroying.Some? && Waits(op) {
      return;
    }
    match op {
      case Create(name, body, exist, alloc) =>
        CreateKeeps(s.t, name, body, exist, same, alloc);
        CommandInv(s, RegistryModel.Create(s.t, name, body, exist, same, alloc).0);
      case Destroy(name, exist) =>
        DestroyKeeps(s.t, name, exist);
        CommandInv(s, RegistryModel.Destroy(s.t, name, exist).0);
      case BeginDestroyAll => BeginEndInv(s);
      case ClearSlot =>
        if s.destroying.Some? && s.destroying.value < |s.t| {
          ClearInv(s);
        }
      case EndDestroyAll => BeginEndInv(s);
      case Rename(name, name2) =>
        RenameKeeps(s.t, name, name2);
        CommandInv(s, RegistryModel.Rename(s.t, name, name2).0);
      case Swap(name, name2) =>
        SwapKeeps(s.t, name, name2);
        CommandInv(s, RegistryModel.Swap(s.t, name, name2).0);
      case CheckMatch(info) =>
        if Held(s.t, info.index) && info.dim <= DIM_MAX {
          OneRef(Match(info), info.index);
          TakenInv(s, Match(info));
        }
      case CheckTarget(g) =>
        if Verdict(s.t, g) == Done {
          AcceptedHeld(s.t, g);
          TakenInv(s, Target(g));
        }
      case AddMember(name) =>
        if Find(s.t, name).Some? {
          OneRef(Member(Find(s.t, name).value), Find(s.t, name).value);
          TakenInv(s, Member(Find(s.t, name).value));
        }
      case Drop(k) =>
        if k < |s.holders| {
          DropInv(s, k);
        }
      case DumpStart(what, setname, header) =>
        if Start(s.t, what, setname, header).Some? {
          DumpStartInv(s, what, setname, header);
        }
      case DumpCall(k, skb) =>
        if k < |s.dumps| {
          DumpCallInv(s, k, skb, same);
        }
      case DumpStop(k) =>
        if k < |s.dumps| {
          DumpStopInv(s, k, same);
        }
    }
  }

  lemma BeginEndInv(s: State)
    requires Inv(s)
    ensures Unused(s.t) ==> Inv(s.(destroying := Some(0)))
    ensures Inv(s.(destroying := None))
  {
  }

  lemma OneRef(h: Holder, i: nat)
    requires h == Member(i) || (h.Match? && h.info.index == i)
    ensures forall k :: k in Refs(h) ==> k == i
  {
  }

  lemma AcceptedHeld(t: Table, g: TargetInfo)
    requires Verdict(t, g) == Done
    ensures forall i :: i in Refs(Target(g)) ==> Held(t, i)
  {
  }

  lemma InvOk(s: State)
    requires Inv(s)
    ensures Ok(s.t) && forall d :: d in s.dumps ==> MidOk(s.t, d)
  {
  }

  lemma DumpStartInv(s: State, what: Option<string>, setname: bool, header: bool)
    requires Inv(s) && s.destroying.None? && Start(s.t, what, setname, header).Some?
    ensures Inv(s.(dumps := s.dumps + [Start(s.t, what, setname, header).value]))
  {
    var a := Start(s.t, what, setname, header).value;
    forall i
      ensures DumpedBy(s.dumps + [a], i) == DumpedBy(s.dumps, i)
    {
      DumpedByAppend(s.dumps, a, i);
    }
  }

  ghost function Run(s: State, ops: seq<Op>, same: (Body, Body) -> bool): State
    requires Inv(s)
    decreases |ops|
  {
    if ops == [] then s
    else
      StepInv(s, ops[0], same);
      Run(Step(s, ops[0], same), ops[1..], same)
  }

  /**
   In every run from an empty registry: names are distinct, 65535 is no valid index, every slot's two
   counts are what the holders and the dumps have taken, and whatever is held is there.
   */
  lemma {:induction false} RunInv(s: State, ops: seq<Op>, same: (Body, Body) -> bool)
    requires Inv(s)
    ensures var r := Run(s, ops, same);
            && Inv(r) && |s.t| <= |r.t| < INVALID_ID
            && forall k :: 0 <= k < |r.holders| ==> Covers(r.t, Refs(r.holders[k]))
    decreases |ops|
  {
    hide Step, Inv, Stable, Covers;
    if ops == [] {
      InvOk(s);
      OkSize(s.t);
      forall k | 0 <= k < |s.holders|
        ensures Covers(s.t, Refs(s.holders[k]))
      {
        HeldIsThere(s, k);
      }
    } else {
      StepInv(s, ops[0], same);
      StepStable(s, ops[0], same);
      StableSize(s.t, Step(s, ops[0], same).t);
      RunInv(Step(s, ops[0], same), ops[1..], same);
    }
  }

  lemma {:induction false} InitInv(max: nat)
    requires max < INVALID_ID
    ensures Inv(Init(max))
  {
    assert forall i :: Ref(Empties(max), i) == 0 && Net(Empties(max), i) == 0;
  }

  /**
   What somebody holds stays: the table only grows, a held slot keeps its set's name, and a slot
   inside which a dump is keeps its content too.
   */
  ghost predicate Stable(t: Table, u: Table) {
    && |t| <= |u|
    && (forall i :: 0 <= i < |t| && (Ref(t, i) > 0 || Net(t, i) > 0) ==> u[i].Some? && u[i].value.name == t[i].value.name)
    && (forall i :: 0 <= i < |t| && Net(t, i) > 0 ==> u[i].value.body == t[i].value.body)
  }

  lemma CommandStable(t: Table, u: Table)
    requires Keeps(t, u)
    ensures Stable(t, u)
  {
  }

  lemma CountsStable(t: Table, u: Table)
    requires |u| == |t|
    requires forall i :: 0 <= i < |u| && t[i].Some? ==>
               u[i].Some? && u[i].value.name == t[i].value.name && u[i].value.body == t[i].value.body
    ensures Stable(t, u)
  {
  }

  lemma HoldStable(t: Table, m: multiset<int>)
    ensures Stable(t, Hold(t, m)) && Stable(t, Release(t, m))
  {
    CountsStable(t, Hold(t, m));
    CountsStable(t, Release(t, m));
  }

  lemma ClearStable(s: State)
    requires Inv(s) && s.destroying.Some? && s.destroying.value < |s.t|
    ensures Stable(s.t, s.t[s.destroying.value := None])
  {
    assert DestroyingOk(s.t, s.destroying);
  }

  lemma DumpStable(t: Table, u: Table)
    requires SameSets(t, u)
    ensures Stable(t, u)
  {
    CountsStable(t, u);
  }

  lemma StepStable(s: State, op: Op, same: (Body, Body) -> bool)
    requires Inv(s)
    ensures Stable(s.t, Step(s, op, same).t)
  {
    hide Inv, Ok, Keeps, MidOk, Hold, Release, Stable, Do, SameSets, Stop, DestroyingOk;
    InvOk(s);
    CountsStable(s.t, s.t);
    if s.destroying.Some? && Waits(op) {
      return;
    }
    match op {
      case Create(name, body, exist, alloc) =>
        CreateKeeps(s.t, name, body, exist, same, alloc);
        CommandStable(s.t, Step(s, op, same).t);
      case Destroy(name, exist) =>
        DestroyKeeps(s.t, name, exist);
        CommandStable(s.t, Step(s, op, same).t);
      case BeginDestroyAll =>
      case ClearSlot =>
        if s.destroying.Some? && s.destroying.value < |s.t| {
          ClearStable(s);
        }
      case EndDestroyAll =>
      case Rename(name, name2) =>
        RenameKeeps(s.t, name, name2);
        CommandStable(s.t, Step(s, op, same).t);
      case Swap(name, name2) =>
        SwapKeeps(s.t, name, name2);
        CommandStable(s.t, Step(s, op, same).t);
      case CheckMatch(info) => HoldStable(s.t, multiset{info.index});
      case CheckTarget(g) => HoldStable(s.t, Indexes(g));
      case AddMember(name) =>
        if Find(s.t, name).Some? {
          HoldStable(s.t, multiset{Find(s.t, name).value});
        }
      case Drop(k) =>
        if k < |s.holders| {
          HoldStable(s.t, Refs(s.holders[k]));
        }
      case DumpStart(_, _, _) =>
      case DumpCall(k, skb) =>
        if k < |s.dumps| {
          OkSize(s.t);
          Balanced(s.t, s.destroying.Some?, s.dumps[k], skb);
          DumpStable(s.t, Step(s, op, same).t);
        }
      case DumpStop(k) =>
        if k < |s.dumps| {
          StopBalanced(s.t, s.dumps[k]);
          DumpStable(s.t, Step(s, op, same).t);
        }
    }
  }

  lemma StableSize(t: Table, u: Table)
    requires Stable(t, u)
    ensures |t| <= |u|
  {
  }

  // ---------- What the steps do ----------

  /** u has one more holder, and m more references. */
  ghost predicate TakenBy(s: State, u: State, h: Holder, m: multiset<int>) {
    u.holders == s.holders + [h] && u.dumps == s.dumps && u.destroying == s.destroying && u.t == Hold(s.t, m)
  }

  /** A match rule that passes its check adds a holder, with one reference on its set; one that fails changes nothing. */
  lemma CheckMatchIff(s: State, info: Info, same: (Body, Body) -> bool)
    requires Inv(s) && s.destroying.None?
    ensures var u := Step(s, CheckMatch(info), same);
            if info.index < |s.t| && s.t[info.index].Some? && info.dim <= 6
            then TakenBy(s, u, Match(info), multiset{info.index}) else u == s
  {
    hide Inv, Hold;
  }

  /** A target rule likewise, with one reference for each use of a set. */
  lemma CheckTargetIff(s: State, g: TargetInfo, same: (Body, Body) -> bool)
    requires Inv(s) && s.destroying.None?
    ensures var u := Step(s, CheckTarget(g), same);
            if Found(s.t, g.add) && Found(s.t, g.del) && Found(s.t, g.mapped) && HooksOk(g)
               && g.add.dim <= 6 && g.del.dim <= 6 && g.mapped.dim <= 6
            then TakenBy(s, u, Target(g), Indexes(g)) else u == s
  {
    hide Inv, Hold, Found, HooksOk, XtSet.Verdict;
    VerdictIff(s.t, g);
  }

  /** A list set that gets a member likewise. */
  lemma AddMemberIff(s: State, name: string, same: (Body, Body) -> bool)
    requires Inv(s) && s.destroying.None?
    ensures var u := Step(s, AddMember(name), same);
            && (forall i: nat :: Is(s.t, i, name) ==> TakenBy(s, u, Member(i), multiset{i}))
            && ((forall i :: !Is(s.t, i, name)) ==> u == s)
  {
    hide Inv, Hold, Ok, MidOk;
    InvOk(s);
    FindNone(s.t, name);
    forall i | Is(s.t, i, name)
      ensures Find(s.t, name) == Some(i)
    {
      FindIs(s.t, name, i);
    }
  }

  /** A holder that goes gives back what it took. */
  lemma DropIff(s: State, k: nat, same: (Body, Body) -> bool)
    requires Inv(s) && k < |s.holders|
    ensures var u := Step(s, Drop(k), same);
            u.holders == s.holders[..k] + s.holders[k + 1..] && u.dumps == s.dumps && Hold(u.t, Refs(s.holders[k])) == s.t
  {
    hide Inv, Refs, Hold, Release;
    HeldIsThere(s, k);
    GivenBack(s.t, Refs(s.holders[k]));
  }

  /** A dump that is started is there until it is stopped. */
  lemma DumpStartIff(s: State, what: Option<string>, listSetname: bool, listHeader: bool, same: (Body, Body) -> bool)
    requires Inv(s) && s.destroying.None?
    ensures var u := Step(s, DumpStart(what, listSetname, listHeader), same);
            && u.t == s.t && u.holders == s.holders
            && (what.None? ==> u.dumps == s.dumps + [Args(All, listSetname, listHeader, 0, 0)])
            && (what.Some? ==> forall i :: Is(s.t, i, what.value) ==>
                                              u.dumps == s.dumps + [Args(One, listSetname, listHeader, i, 0)])
            && (what.Some? && (forall i :: !Is(s.t, i, what.value)) ==> u == s)
  {
    hide Inv, Start, Ok, MidOk;
    InvOk(s);
    StartIff(s.t, what, listSetname, listHeader);
  }

  lemma DumpStopIff(s: State, k: nat, same: (Body, Body) -> bool)
    requires Inv(s) && k < |s.dumps|
    ensures var u := Step(s, DumpStop(k), same);
            && u.dumps == s.dumps[..k] + s.dumps[k + 1..] && u.holders == s.holders
            && SameSets(s.t, u.t) && forall i :: Net(u.t, i) == Net(s.t, i) - Holds(s.dumps[k], i)
  {
    hide Inv, Stop, SameSets, MidOk;
    InvOk(s);
    StopBalanced(s.t, s.dumps[k]);
  }

  lemma GivenBack(t: Table, m: multiset<int>)
    requires Covers(t, m) && forall i :: i in m ==> Held(t, i)
    ensures Hold(Release(t, m), m) == t
  {
    hide More, Less, Covers;
    var u := Hold(Release(t, m), m);
    forall i | 0 <= i < |t|
      ensures u[i] == t[i]
    {
      assert u[i] == More(Release(t, m)[i], m[i]) == More(Less(t[i], m[i]), m[i]);
      MoreLess(t, m, i);
    }
  }

  lemma MoreLess(t: Table, m: multiset<int>, i: int)
    requires Covers(t, m) && 0 <= i < |t|
    ensures More(Less(t[i], m[i]), m[i]) == t[i]
  {
    assert i in m ==> m[i] <= Ref(t, i);
  }

  // ---------- Destroying all sets ----------

  function Clears(n: nat): seq<Op> {
    if n == 0 then [EndDestroyAll] else [ClearSlot] + Clears(n - 1)
  }

  /** The emptying loop from a slot on, undisturbed. */
  lemma {:induction false} ClearsAll(s: State, same: (Body, Body) -> bool)
    requires Inv(s) && s.destroying.Some?
    ensures s.destroying.value <= |s.t|
    ensures Run(s, Clears(|s.t| - s.destroying.value), same) == s.(t := Empties(|s.t|), destroying := None)
    decreases |s.t| - s.destroying.value
  {
    hide Inv;
    Cleared(s);
    var i := s.destroying.value;
    if i == |s.t| {
      OneOp(s, EndDestroyAll, same);
    } else {
      var u := Step(s, ClearSlot, same);
      StepInv(s, ClearSlot, same);
      ClearsAll(u, same);
      RunCons(s, ClearSlot, Clears(|s.t| - i - 1), same);
    }
  }

  lemma Cleared(s: State)
    requires Inv(s) && s.destroying.Some?
    ensures s.destroying.value <= |s.t|
    ensures s.destroying.value == |s.t| ==> s.t == Empties(|s.t|)
  {
  }

  lemma RunCons(s: State, op: Op, ops: seq<Op>, same: (Body, Body) -> bool)
    requires Inv(s)
    ensures Inv(Step(s, op, same)) && Run(s, [op] + ops, same) == Run(Step(s, op, same), ops, same)
  {
    hide Inv, Step;
    StepInv(s, op, same);
    assert ([op] + ops)[0] == op && ([op] + ops)[1..] == ops;
  }

  lemma OneOp(s: State, op: Op, same: (Body, Body) -> bool)
    requires Inv(s)
    ensures Run(s, [op], same) == Step(s, op, same)
  {
    hide Inv, Step;
    RunCons(s, op, [], same);
    assert [op] + [] == [op];
  }

  /** The steps of destroying all sets, with nothing in between, are the one step of the model of the table. */
  lemma DestroyAllSteps(s: State, same: (Body, Body) -> bool)
    requires Inv(s) && s.destroying.None?
    ensures Run(s, [BeginDestroyAll] + Clears(|s.t|), same).t == RegistryModel.DestroyAll(s.t).0
  {
    hide Inv;
    StepInv(s, BeginDestroyAll, same);
    RunCons(s, BeginDestroyAll, Clears(|s.t|), same);
    if Unused(s.t) {
      ClearsAll(Step(s, BeginDestroyAll, same), same);
    } else {
      ClearsNothing(s, |s.t|, same);
    }
  }

  lemma {:induction false} ClearsNothing(s: State, n: nat, same: (Body, Body) -> bool)
    requires Inv(s) && s.destroying.None?
    ensures Run(s, Clears(n), same) == s
  {
    hide Inv;
    if n == 0 {
      OneOp(s, EndDestroyAll, same);
    } else {
      RunCons(s, ClearSlot, Clears(n - 1), same);
      ClearsNothing(s, n - 1, same);
    }
  }
}
