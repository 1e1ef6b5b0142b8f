/** The dump callbacks on the registry in memory, proved against DumpModel. */
module Dump {
  import opened Options
  import opened RegistryModel
  import opened DumpModel
  import Registry

  /** struct netlink_callback, with cb->args as fields. */
  class Callback {
    var dump: DumpType
    var index: nat
    var arg0: nat
    const listSetname: bool
    const listHeader: bool

    function View(): Args
      reads this
    {
      Args(dump, listSetname, listHeader, index, arg0)
    }

    constructor (a: Args)
      ensures View() == a
    {
      dump, index, arg0, listSetname, listHeader := a.dump, a.index, a.arg0, a.listSetname, a.listHeader;
    }
  }

  /** ip_set_dump_start(); no callback when the set asked for does not exist. */
  method DumpStart(net: Registry.IpSetNet, name: Option<string>, listSetname: bool, listHeader: bool) returns (cb: Callback?)
    requires net.Valid()
    ensures if cb == null then Start(net.table, name, listSetname, listHeader).None?
            else fresh(cb) && Start(net.table, name, listSetname, listHeader) == Some(cb.View())
  {
    match name {
      case None => cb := new Callback(Args(All, listSetname, listHeader, 0, 0));
      case Some(n) =>
        var index := net.FindSetAndId(n);
        if index == INVALID_ID {
          return null;
        }
        cb := new Callback(Args(One, listSetname, listHeader, index, 0));
    }
  }

  /** next_set and release_refcount. */
  method FinishSet(net: Registry.IpSetNet, cb: Callback, advance: bool, failed: bool) returns (r: Reply)
    requires net.Valid() && Net(net.table, cb.index) > 0
    modifies net`table, net.list[..], cb
    ensures net.Valid()
    ensures (net.table, cb.View(), r) == Finish(old(net.table), old(cb.View()), advance, failed)
  {
    var index := cb.index;
    r := if failed then Failed else Message(index, cb.arg0 == 0);
    if advance {
      cb.index := if cb.dump == One then INVALID_ID else cb.index + 1;
    }
    if failed || cb.arg0 == 0 {
      net.PutNetlink(index);
      cb.arg0 := 0;
    }
  }

  /** One message about the set in slot cb.index. */
  method EmitSet(net: Registry.IpSetNet, cb: Callback, e: Skb) returns (r: Reply)
    requires net.Valid() && Held(net.table, cb.index) && (cb.arg0 != 0 ==> Net(net.table, cb.index) > 0)
    modifies net`table, net.list[..], cb
    ensures net.Valid()
    ensures (net.table, cb.View(), r) == Emit(old(net.table), old(cb.View()), e)
  {
    hide net.Valid;
    if cb.arg0 == 0 {
      net.GetNetlink(cb.index);
    }
    if !e.start {
      r := FinishSet(net, cb, false, true);
    } else if !e.setname {
      r := FinishSet(net, cb, true, true);
    } else if cb.listSetname {
      r := FinishSet(net, cb, true, false);
    } else {
      if cb.arg0 == 0 {
        if !e.header {
          r := FinishSet(net, cb, true, true);
          return;
        }
        if !e.head {
          r := FinishSet(net, cb, false, true);
          return;
        }
        if cb.listHeader {
          r := FinishSet(net, cb, true, false);
          return;
        }
      }
      cb.arg0 := e.arg0;
      r := FinishSet(net, cb, cb.arg0 == 0, !e.list);
    }
  }

  lemma NextStep(t: Table, ty: DumpType, i: nat, max: nat)
    requires i < max
    ensures Next(t, ty, i, max) == if Picks(t, ty, i) then Some(i) else Next(t, ty, i + 1, max)
  {
  }

  datatype Scan = Found | Exhausted | Gone | Destroyed

  /** The for loop over the slots, up to the first set this phase emits. */
  method ScanPhase(net: Registry.IpSetNet, cb: Callback, max: nat) returns (s: Scan)
    requires net.Valid() && cb.index <= max <= |net.table| && (cb.dump == One ==> max == cb.index + 1)
    modifies cb`index
    ensures var t, i := net.table, old(cb.index);
            if i < max && (net.isDestroyed || (cb.dump == One && t[i].None?)) then
              s == (if cb.dump == One then Gone else Destroyed) && cb.index == i
            else
              match Next(t, cb.dump, i, max)
              case Some(k) => s == Found && cb.index == k
              case None => s == Exhausted && cb.index == max
  {
    hide Next, net.Valid;
    ghost var t := net.table;
    while cb.index < max
      invariant net.Valid() && old(cb.index) <= cb.index <= max <= |t|
      invariant cb.index > old(cb.index) ==> cb.dump != One && !net.isDestroyed
      invariant Next(t, cb.dump, old(cb.index), max) == Next(t, cb.dump, cb.index, max)
    {
      NextStep(t, cb.dump, cb.index, max);
      var found := net.At(cb.index);
      if found == null || net.isDestroyed {
        if cb.dump == One {
          return Gone;
        }
        if net.isDestroyed {
          return Destroyed;
        }
      } else if cb.dump == One || (cb.dump == All) != DumpedLast(found.body) {
        return Found;
      }
      cb.index := cb.index + 1;
    }
    NextEnd(t, cb.dump, max);
    s := Exhausted;
  }

  /** ip_set_dump_do(): scan this phase, then the sets to be dumped last, up to the first set to emit. */
  method DumpDo(net: Registry.IpSetNet, cb: Callback, e: Skb) returns (r: Reply)
    requires net.Valid() && MidOk(net.table, cb.View())
    modifies net`table, net.list[..], cb
    ensures net.Valid()
    ensures (net.table, cb.View(), r) == Do(old(net.table), net.isDestroyed, old(cb.View()), e)
  {
    hide Next, Emit, net.Valid;
    var length := net.Max();
    if cb.index >= length {
      return Nothing;
    }
    ChosenArg(net.table, cb.View());
    if cb.dump == One && net.table[cb.index].Some? {
      NextOne(net.table, cb.index);
    }
    var max := if cb.dump == One then cb.index + 1 else length;
    var s := ScanPhase(net, cb, max);
    if s == Exhausted && cb.dump == All {
      cb.dump := Last;
      cb.index := 0;
      s := ScanPhase(net, cb, length);
    }
    match s {
      case Gone => r := Failed;
      case Destroyed => r := Nothing;
      case Exhausted => r := Nothing;
      case Found => r := EmitSet(net, cb, e);
    }
  }

  lemma NextEnd(t: Table, ty: DumpType, max: nat)
    ensures Next(t, ty, max, max) == None
  {
  }

  /** ip_set_dump_done(). */
  method DumpDone(net: Registry.IpSetNet, cb: Callback)
    requires net.Valid() && MidOk(net.table, cb.View())
    modifies net`table, net.list[..]
    ensures net.Valid()
    ensures net.table == Stop(old(net.table), cb.View())
  {
    if cb.arg0 != 0 {
      net.PutNetlink(cb.index);
    }
  }
}
