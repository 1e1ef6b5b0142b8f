/**
 The external holder of set references: how an iptables rule takes references when it is checked and
 gives them back when it is destroyed.
 */
module XtSet {
  import opened RegistryModel
  import Registry

  const DIM_MAX: nat := 6

  datatype Hook = PreRouting | LocalIn | Forward | LocalOut | PostRouting

  /** One set of a rule: its index, or INVALID_ID for none, and its dimension. */
  datatype Info = Info(index: nat, dim: nat)

  datatype TargetInfo = TargetInfo(add: Info, del: Info, mapped: Info, mapPrio: bool, mapQueue: bool, hooks: set<Hook>)

  ghost function Given(i: Info): multiset<int> {
    if i.index == INVALID_ID then multiset{} else multiset{i.index}
  }

  /** The references a checked rule holds. */
  ghost function Indexes(g: TargetInfo): multiset<int> {
    Given(g.add) + Given(g.del) + Given(g.mapped)
  }

  predicate Missing(t: Table, i: Info) {
    i.index != INVALID_ID && !Held(t, i.index)
  }

  predicate BadHook(g: TargetInfo) {
    g.mapped.index != INVALID_ID && (g.mapPrio || g.mapQueue) && g.hooks - {Forward, LocalOut, PostRouting} != {}
  }

  /** What the check of a version 3 target answers. */
  function Verdict(t: Table, g: TargetInfo): Ret {
    if Missing(t, g.add) || Missing(t, g.del) then NoEntry else MapVerdict(t, g)
  }

  /** The verdict on the map set, once the other two are found. */
  function MapVerdict(t: Table, g: TargetInfo): Ret {
    if BadHook(g) then Invalid
    else if Missing(t, g.mapped) then NoEntry
    else if g.add.dim > DIM_MAX || g.del.dim > DIM_MAX || g.mapped.dim > DIM_MAX then Range
    else Done
  }

  /** No set is named, or one that is there. */
  ghost predicate Found(t: Table, i: Info) {
    i.index == 65535 || (i.index < |t| && t[i.index].Some?)
  }

  /** Priorities and queues are mapped only where packets leave or pass through. */
  ghost predicate HooksOk(g: TargetInfo) {
    g.mapped.index == 65535 || (!g.mapPrio && !g.mapQueue) || (PreRouting !in g.hooks && LocalIn !in g.hooks)
  }

  /** Each answer is given exactly when it is due. */
  lemma VerdictIff(t: Table, g: TargetInfo)
    ensures var two, all := Found(t, g.add) && Found(t, g.del), Found(t, g.add) && Found(t, g.del) && Found(t, g.mapped);
            var small := g.add.dim <= 6 && g.del.dim <= 6 && g.mapped.dim <= 6;
            && (Verdict(t, g) == Done <==> all && HooksOk(g) && small)
            && (Verdict(t, g) == Range <==> all && HooksOk(g) && !small)
            && (Verdict(t, g) == Invalid <==> two && !HooksOk(g))
            && (Verdict(t, g) == NoEntry <==> !two || (HooksOk(g) && !all))
  {
    WrongHooks(g.hooks);
  }

  lemma WrongHooks(hooks: set<Hook>)
    ensures hooks - {Forward, LocalOut, PostRouting} == {} <==> PreRouting !in hooks && LocalIn !in hooks
  {
    var wrong := hooks - {Forward, LocalOut, PostRouting};
    assert PreRouting in hooks ==> PreRouting in wrong;
    assert LocalIn in hooks ==> LocalIn in wrong;
    forall h | h in wrong
      ensures h == PreRouting || h == LocalIn
    {
      match h {
        case PreRouting =>
        case LocalIn =>
        case Forward =>
        case LocalOut =>
        case PostRouting =>
      }
    }
  }

  lemma MissingSame(t: Table, taken: Info, i: Info)
    ensures Missing(Hold(t, Given(taken)), i) == Missing(t, i)
  {
  }

  /** set_match_v1_checkentry(). */
  method MatchCheckentry(net: Registry.IpSetNet, info: Info) returns (ret: Ret)
    requires net.Valid()
    modifies net`table, net.list[..]
    ensures net.Valid()
    ensures ret == if !Held(old(net.table), info.index) then NoEntry else if info.dim > DIM_MAX then Range else Done
    ensures net.table == if ret == Done then Hold(old(net.table), multiset{info.index}) else old(net.table)
  {
    hide Hold, Release;
    if Held(net.table, info.index) {
      HoldOne(net.table, info.index);
    }
    var index := net.GetByIndex(info.index);
    if index == INVALID_ID {
      return NoEntry;
    }
    if info.dim > DIM_MAX {
      net.Put(info.index);
      return Range;
    }
    ret := Done;
  }

  /** set_match_v1_destroy(), for a rule that holds its reference. */
  method MatchDestroy(net: Registry.IpSetNet, info: Info)
    requires net.Valid() && Ref(net.table, info.index) > 0
    modifies net`table, net.list[..]
    ensures net.Valid()
    ensures net.table == Release(old(net.table), multiset{info.index})
  {
    hide Release;
    ReleaseOne(net.table, info.index);
    net.Put(info.index);
  }

  /** get, if there is a set to get; false when it cannot be found. */
  method Take(net: Registry.IpSetNet, info: Info) returns (ok: bool)
    requires net.Valid()
    modifies net`table, net.list[..]
    ensures net.Valid()
    ensures ok == !Missing(old(net.table), info)
    ensures net.table == if ok then Hold(old(net.table), Given(info)) else old(net.table)
    ensures ok ==> forall i :: i in Given(info) ==> Held(old(net.table), i)
  {
    ok := true;
    if info.index != INVALID_ID {
      var index := net.GetByIndex(info.index);
      if index == INVALID_ID {
        ok := false;
      }
    }
  }

  /** put, if there is a set to put. */
  method Give(net: Registry.IpSetNet, info: Info)
    requires net.Valid() && Covers(net.table, Given(info))
    modifies net`table, net.list[..]
    ensures net.Valid()
    ensures net.table == Release(old(net.table), Given(info))
  {
    assert info.index in Given(info) <==> info.index != INVALID_ID;
    if info.index != INVALID_ID {
      net.Put(info.index);
    }
  }

  /** The part of set_target_v3_checkentry() from the map set on, with its cleanup_mark. */
  method CheckMap(net: Registry.IpSetNet, g: TargetInfo) returns (ret: Ret)
    requires net.Valid()
    modifies net`table, net.list[..]
    ensures net.Valid()
    ensures ret == MapVerdict(old(net.table), g)
    ensures net.table == if ret == Done then Hold(old(net.table), Given(g.mapped)) else old(net.table)
    ensures ret == Done ==> forall i :: i in Given(g.mapped) ==> Held(old(net.table), i)
  {
    hide net.Valid, Hold, Release, Covers, Missing, Given;
    if g.mapped.index != INVALID_ID {
      if (g.mapPrio || g.mapQueue) && g.hooks - {Forward, LocalOut, PostRouting} != {} {
        return Invalid;
      }
    }
    ghost var t := net.table;
    var ok := Take(net, g.mapped);
    if !ok {
      return NoEntry;
    }
    if g.add.dim > DIM_MAX || g.del.dim > DIM_MAX || g.mapped.dim > DIM_MAX {
      ReleaseHold(t, Given(g.mapped));
      Give(net, g.mapped);
      return Range;
    }
    ret := Done;
  }

  /** The part from the del set on, with its cleanup_del. */
  method CheckDel(net: Registry.IpSetNet, g: TargetInfo) returns (ret: Ret)
    requires net.Valid()
    modifies net`table, net.list[..]
    ensures net.Valid()
    ensures ret == if Missing(old(net.table), g.del) then NoEntry else MapVerdict(old(net.table), g)
    ensures net.table == if ret == Done then Hold(old(net.table), Given(g.del) + Given(g.mapped)) else old(net.table)
    ensures ret == Done ==> forall i :: i in Given(g.del) + Given(g.mapped) ==> Held(old(net.table), i)
  {
    hide net.Valid, Hold, Release, Covers, Missing, Given;
    ghost var t := net.table;
    var ok := Take(net, g.del);
    if !ok {
      return NoEntry;
    }
    HoldSame(t, Given(g.del));
    MissingSame(t, g.del, g.mapped);
    ret := CheckMap(net, g);
    if ret == Done {
      HoldTwice(t, Given(g.del), Given(g.mapped));
    } else {
      ReleaseHold(t, Given(g.del));
      Give(net, g.del);
    }
  }

  lemma HoldSame(t: Table, m: multiset<int>)
    ensures forall i :: Held(Hold(t, m), i) <==> Held(t, i)
  {
  }

  /**
   set_target_v3_checkentry(): every reference taken before a failure is given back, so that a failed
   check leaves the table as it was; a passed one holds each index once per use.
   */
  method TargetCheckentry(net: Registry.IpSetNet, g: TargetInfo) returns (ret: Ret)
    requires net.Valid()
    modifies net`table, net.list[..]
    ensures net.Valid()
    ensures ret == Verdict(old(net.table), g)
    ensures ret != Done ==> net.table == old(net.table)
    ensures ret == Done ==> net.table == Hold(old(net.table), Indexes(g)) && Covers(net.table, Indexes(g))
  {
    hide net.Valid, Hold, Release, Covers, Missing, Given, BadHook;
    ghost var t := net.table;
    var ok := Take(net, g.add);
    if !ok {
      return NoEntry;
    }
    HoldSame(t, Given(g.add));
    MissingSame(t, g.add, g.del);
    MissingSame(t, g.add, g.mapped);
    ret := CheckDel(net, g);
    if ret == Done {
      HoldTwice(t, Given(g.add), Given(g.del) + Given(g.mapped));
      assert Given(g.add) + (Given(g.del) + Given(g.mapped)) == Indexes(g);
      ReleaseHold(t, Indexes(g));
    } else {
      ReleaseHold(t, Given(g.add));
      Give(net, g.add);
    }
  }

  /** set_target_v3_destroy(), for a rule that holds its references. */
  method TargetDestroy(net: Registry.IpSetNet, g: TargetInfo)
    requires net.Valid() && Covers(net.table, Indexes(g))
    modifies net`table, net.list[..]
    ensures net.Valid()
    ensures net.table == Release(old(net.table), Indexes(g))
  {
    hide net.Valid, Release, Covers;
    ReleaseTwice(net.table, Given(g.add) + Given(g.del), Given(g.mapped));
    ReleaseTwice(net.table, Given(g.add), Given(g.del));
    Give(net, g.add);
    Give(net, g.del);
    Give(net, g.mapped);
  }
}
