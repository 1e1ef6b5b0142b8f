/**
 Runs of the registry in memory: every command, check, put and dump call on the slot array, the set
 objects and the callbacks is the step of the state machine in RegistryRun.
 */
module RegistryExec {
  import opened Options
  import opened RegistryModel
  import opened RegistryRun
  import opened XtSet
  import Registry
  import DumpModel
  import Dump

  /** What lies outside the registry: the holders' data, one callback a dump, the loop that destroys all sets. */
  datatype Outside = Outside(holders: seq<Holder>, cbs: seq<Dump.Callback>, destroying: Option<nat>)

  /** The objects show the state. */
  ghost predicate Shows(net: Registry.IpSetNet, o: Outside, s: State)
    reads net, net.list, net.list[..], o.cbs
  {
    && net.Valid() && net.table == s.t && net.isDestroyed == s.destroying.Some? && o.destroying == s.destroying
    && o.holders == s.holders && Callbacks(o.cbs, s.dumps)
  }

  ghost predicate Callbacks(cbs: seq<Dump.Callback>, ds: seq<DumpModel.Args>)
    reads cbs
  {
    && |cbs| == |ds| && (forall i :: 0 <= i < |cbs| ==> cbs[i].View() == ds[i])
    && (forall i, j :: 0 <= i < j < |cbs| ==> cbs[i] != cbs[j])
  }

  predicate IsCommand(op: Op) {
    op.Create? || op.Destroy? || op.Rename? || op.Swap?
  }

  predicate IsDestroyingAll(op: Op) {
    op.BeginDestroyAll? || op.ClearSlot? || op.EndDestroyAll?
  }

  predicate IsHolding(op: Op) {
    op.CheckMatch? || op.CheckTarget? || op.AddMember? || op.Drop?
  }

  method Command(net: Registry.IpSetNet, op: Op, same: (Body, Body) -> bool, ghost s: State)
    requires net.Valid() && s.destroying.None? && net.table == s.t && Inv(s) && IsCommand(op)
    modifies net, net.list, net.list[..]
    ensures net.Valid() && net.isDestroyed == old(net.isDestroyed) && Step(s, op, same) == s.(t := net.table)
    ensures net.list == old(net.list) || fresh(net.list)
    ensures fresh(net.Members() - old(net.Members()))
  {
    hide net.Valid, Inv;
    hide RegistryModel.Create, RegistryModel.Destroy, RegistryModel.DestroyAll, RegistryModel.Rename, RegistryModel.Swap;
    var ret;
    match op {
      case Create(name, body, exist, alloc) => ret := net.Create(name, body, exist, same, alloc);
      case Destroy(name, exist) => ret := net.Destroy(name, exist);
      case Rename(name, name2) => ret := net.Rename(name, name2);
      case Swap(name, name2) => ret := net.Swap(name, name2);
    }
  }

  /** A step of the destruction of all sets. */
  method DestroyingAll(net: Registry.IpSetNet, destroying: Option<nat>, op: Op, same: (Body, Body) -> bool, ghost s: State)
    returns (destroying': Option<nat>)
    requires net.Valid() && net.table == s.t && net.isDestroyed == s.destroying.Some? && destroying == s.destroying
    requires Inv(s) && IsDestroyingAll(op) && !(s.destroying.Some? && Waits(op))
    modifies net`table, net`isDestroyed, net.list
    ensures net.Valid() && net.isDestroyed == destroying'.Some? && net.Members() <= old(net.Members())
    ensures Step(s, op, same) == s.(t := net.table, destroying := destroying')
  {
    hide net.Valid, Inv;
    destroying' := destroying;
    match op {
      case BeginDestroyAll =>
        var ret := net.BeginDestroyAll();
        destroying' := if ret == Done then Some(0) else None;
      case ClearSlot =>
        var n := net.Max();
        if destroying.Some? && destroying.value < n {
          Sized(net);
          net.ClearSlot(destroying.value);
          destroying' := Some(destroying.value + 1);
        }
      case EndDestroyAll =>
        var n := net.Max();
        if destroying == Some(n) {
          net.EndDestroyAll();
          destroying' := None;
        }
    }
  }

  lemma Sized(net: Registry.IpSetNet)
    requires net.Valid()
    ensures net.list.Length == |net.table|
  {
  }

  method Holding(net: Registry.IpSetNet, holders: seq<Holder>, op: Op, same: (Body, Body) -> bool, ghost s: State)
    returns (holders': seq<Holder>)
    requires net.Valid() && net.table == s.t && holders == s.holders && Inv(s) && IsHolding(op)
    requires !(s.destroying.Some? && Waits(op))
    modifies net`table, net.list[..]
    ensures net.Valid() && Step(s, op, same) == s.(t := net.table, holders := holders')
  {
    hide net.Valid, Inv, Verdict, Hold, Release, Covers;
    holders' := holders;
    match op {
      case CheckMatch(info) =>
        var ret := MatchCheckentry(net, info);
        if ret == Done {
          holders' := holders + [Match(info)];
        }
      case CheckTarget(g) =>
        var ret := TargetCheckentry(net, g);
        if ret == Done {
          holders' := holders + [Target(g)];
        }
      case AddMember(name) =>
        var i := net.GetByName(name);
        if i != INVALID_ID {
          holders' := holders + [Member(i)];
        }
      case Drop(k) =>
        if k < |holders| {
          Give(net, holders[k], k, s);
          holders' := Without(holders, k);
        }
    }
  }

  /** A holder goes: everything it took is given back. */
  method Give(net: Registry.IpSetNet, h: Holder, ghost k: nat, ghost s: State)
    requires net.Valid() && net.table == s.t && Inv(s) && k < |s.holders| && h == s.holders[k]
    modifies net`table, net.list[..]
    ensures net.Valid() && net.table == Release(s.t, Refs(h))
  {
    hide Inv, Release;
    HeldIsThere(s, k);
    match h {
      case Match(info) =>
        assert info.index in Refs(h);
        MatchDestroy(net, info);
      case Target(g) => TargetDestroy(net, g);
      case Member(i) =>
        assert i in Refs(h);
        ReleaseOne(net.table, i);
        net.Put(i);
    }
  }

  method Dumping(net: Registry.IpSetNet, cbs: seq<Dump.Callback>, op: Op, same: (Body, Body) -> bool, ghost s: State)
    returns (cbs': seq<Dump.Callback>)
    requires net.Valid() && net.isDestroyed == s.destroying.Some? && net.table == s.t && Callbacks(cbs, s.dumps) && Inv(s)
    requires !IsCommand(op) && !IsDestroyingAll(op) && !IsHolding(op) && !(s.destroying.Some? && Waits(op))
    modifies net`table, net.list[..], cbs
    ensures net.Valid() && Step(s, op, same) == s.(t := net.table, dumps := Step(s, op, same).dumps)
    ensures Callbacks(cbs', Step(s, op, same).dumps) && forall k :: 0 <= k < |cbs'| ==> cbs'[k] in cbs || fresh(cbs'[k])
  {
    hide net.Valid, Inv, DumpModel.Do, DumpModel.Start, DumpModel.Stop, DumpModel.MidOk;
    InvOk(s);
    cbs' := cbs;
    match op {
      case DumpStart(what, setname, header) =>
        var cb := Dump.DumpStart(net, what, setname, header);
        if cb != null {
          cbs' := cbs + [cb];
        }
      case DumpCall(k, skb) =>
        if k < |cbs| {
          assert s.dumps[k] in s.dumps;
          var _ := Dump.DumpDo(net, cbs[k], skb);
        }
      case DumpStop(k) =>
        if k < |cbs| {
          assert s.dumps[k] in s.dumps;
          Dump.DumpDone(net, cbs[k]);
          cbs' := Without(cbs, k);
        }
    }
  }

  lemma Waiting(s: State, op: Op, same: (Body, Body) -> bool)
    requires Inv(s) && s.destroying.Some? && Waits(op)
    ensures Step(s, op, same) == s
  {
  }

  /** Any one step. */
  method Execute(net: Registry.IpSetNet, o: Outside, op: Op, same: (Body, Body) -> bool, ghost s: State) returns (r: Outside)
    requires Shows(net, o, s) && Inv(s)
    modifies net, net.list, net.list[..], o.cbs
    ensures Shows(net, r, Step(s, op, same)) && Inv(Step(s, op, same))
    ensures net.list == old(net.list) || fresh(net.list)
    ensures fresh(net.Members() - old(net.Members())) && forall k :: 0 <= k < |r.cbs| ==> r.cbs[k] in o.cbs || fresh(r.cbs[k])
  {
    hide net.Valid, Inv, Step, Callbacks;
    StepInv(s, op, same);
    r := o;
    if o.destroying.Some? && Waits(op) {
      Waiting(s, op, same);
      return;
    }
    if IsCommand(op) {
      Command(net, op, same, s);
    } else if IsDestroyingAll(op) {
      var d := DestroyingAll(net, o.destroying, op, same, s);
      r := o.(destroying := d);
    } else if IsHolding(op) {
      var holders := Holding(net, o.holders, op, same, s);
      r := o.(holders := holders);
    } else {
      var cbs := Dumping(net, o.cbs, op, same, s);
      r := o.(cbs := cbs);
    }
  }

  /** Any run from a newly created registry is the run of the state machine, whose invariant then holds of the objects. */
  method RunNew(maxSets: nat, configured: nat, ops: seq<Op>, same: (Body, Body) -> bool)
    returns (net: Registry.IpSetNet, o: Outside, ghost s: State)
    requires maxSets < 0x1_0000 && configured < 0x1_0000
    ensures Inv(s) && Shows(net, o, s)
    ensures exists max: nat :: max < INVALID_ID && Inv(Init(max)) && s == Run(Init(max), ops, same)
  {
    hide Inv, Step;
    net := new Registry.IpSetNet(maxSets, configured);
    o := Outside([], [], None);
    ghost var max := |net.table|;
    InitInv(max);
    s := Init(max);
    assert ops[0..] == ops;
    for i := 0 to |ops|
      invariant Shows(net, o, s) && Inv(s)
      invariant fresh(net) && fresh(net.list) && fresh(net.Members()) && forall k :: 0 <= k < |o.cbs| ==> fresh(o.cbs[k])
      invariant Run(Init(max), ops, same) == Run(s, ops[i..], same)
    {
      assert ops[i..][0] == ops[i] && ops[i..][1..] == ops[i + 1..];
      StepInv(s, ops[i], same);
      forall k | 0 <= k < net.list.Length && net.list[k] != null
        ensures fresh(net.list[k])
      {
        assert net.list[k] in net.Members();
      }
      o := Execute(net, o, ops[i], same, s);
      s := Step(s, ops[i], same);
    }
  }
}
