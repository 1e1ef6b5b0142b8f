/**
 The set registry in memory: an array of pointers to set objects whose names and counts are updated
 in place, proved command by command against RegistryModel.
 */
module Registry {
  import opened Options
  import opened RegistryModel

  class IpSet {
    var name: string
    var ref: nat
    var refNetlink: nat
    const body: Body

    constructor (name: string, body: Body)
      ensures this.name == name && this.body == body && ref == 0 && refNetlink == 0
    {
      this.name, this.body, ref, refNetlink := name, body, 0, 0;
    }
  }

  ghost function Seen(s: IpSet?): Option<Live>
    reads s
  {
    if s == null then None else Some(Live(s.name, s.ref, s.refNetlink, s.body))
  }

  class IpSetNet {
    var list: array<IpSet?>
    var isDestroyed: bool
    ghost var table: Table

    /** The array shows the table, and no object is behind two indexes. */
    ghost predicate Valid()
      reads this, list, list[..]
    {
      && list.Length == |table| < INVALID_ID
      && (forall i :: 0 <= i < |table| ==> table[i] == Seen(list[i]))
      && (forall i, j :: 0 <= i < j < |table| && list[i] != null ==> list[i] != list[j])
    }

    /** The set objects of the table. */
    ghost function Members(): set<IpSet>
      reads this, list
    {
      set s: IpSet | s in list[..]
    }

    /** ip_set_net_init(). */
    constructor (maxSets: nat, configured: nat)
      requires maxSets < 0x1_0000 && configured < 0x1_0000
      ensures Valid() && fresh(list) && !isDestroyed && Ok(table)
      ensures table == Empties(|table|)
    {
      var max := if maxSets != 0 then maxSets else configured;
      if max >= INVALID_ID {
        max := INVALID_ID - 1;
      }
      list := new IpSet?[max](_ => null);
      isDestroyed := false;
      table := Empties(max);
    }

    // ---------- Read-only searches ----------

    /** ip_set(inst, id). */
    method At(id: nat) returns (s: IpSet?)
      requires Valid() && id < |table|
      ensures s == null <==> table[id].None?
      ensures s != null ==> table[id].value.body == s.body
    {
      s := list[id];
    }

    method Max() returns (n: nat)
      requires Valid()
      ensures n == |table| < INVALID_ID
    {
      n := list.Length;
    }

    method FindSetAndId(name: string) returns (id: nat)
      requires Valid()
      ensures Find(table, name) == if id == INVALID_ID then None else Some(id)
      ensures id != INVALID_ID ==> id < list.Length && list[id] != null
    {
      id := 0;
      while id < list.Length
        invariant 0 <= id <= list.Length
        invariant FindFrom(table, name, 0) == FindFrom(table, name, id)
      {
        var s := list[id];
        if s != null && s.name == name {
          return;
        }
        id := id + 1;
      }
      id := INVALID_ID;
    }

    /** find_free_id(): a name clash anywhere wins over a free slot found before it. */
    method FindFreeId(name: string) returns (ret: Ret, index: nat, clash: IpSet?)
      requires Valid()
      ensures ret == Exists ==> clash != null && Find(table, name).Some? && list[Find(table, name).value] == clash
      ensures ret == Done ==> Find(table, name).None? && FreeFrom(table, 0) == Some(index)
      ensures ret == MaxSets ==> Find(table, name).None? && FreeFrom(table, 0).None?
      ensures ret in {Exists, Done, MaxSets}
    {
      index, clash := INVALID_ID, null;
      var i := 0;
      while i < list.Length
        invariant 0 <= i <= list.Length && (index == INVALID_ID || index < i)
        invariant FindFrom(table, name, 0) == FindFrom(table, name, i)
        invariant FreeFrom(table, 0) == if index == INVALID_ID then FreeFrom(table, i) else Some(index)
      {
        var s := list[i];
        if s == null {
          if index == INVALID_ID {
            index := i;
          }
        } else if s.name == name {
          return Exists, index, s;
        }
        i := i + 1;
      }
      ret := if index == INVALID_ID then MaxSets else Done;
    }

    // ---------- Commands ----------

    method Create(name: string, body: Body, exist: bool, same: (Body, Body) -> bool, alloc: bool) returns (ret: Ret)
      requires Valid()
      modifies this, list
      ensures Valid() && (list == old(list) || fresh(list)) && isDestroyed == old(isDestroyed)
      ensures (table, ret) == RegistryModel.Create(old(table), name, body, exist, same, alloc)
      ensures fresh(Members() - old(Members()))
    {
      var target := new IpSet(name, body);
      var index, clash;
      ret, index, clash := FindFreeId(name);
      if ret == Exists {
        var other := clash.body;
        if exist && SameType(body, other) && same(body, other) {
          ret := Done;
        }
        return;
      } else if ret == MaxSets {
        var i := (list.Length + IP_SET_INC) % 0x1_0000;
        if i < list.Length || i == INVALID_ID {
          return;
        }
        if !alloc {
          return;
        }
        index := list.Length;
        Grow(i);
        ret := Done;
      }
      Install(index, target);
      assert index == |old(table)| ==>
          table == old(table) + [Some(Live(name, 0, 0, body))] + Empties(|table| - |old(table)| - 1);
    }

    method Install(index: nat, target: IpSet)
      requires Valid() && index < list.Length && list[index] == null && target !in list[..]
      modifies this`table, list
      ensures Members() <= old(Members()) + {target}
      ensures Valid() && table == old(table)[index := Some(Live(target.name, target.ref, target.refNetlink, target.body))]
    {
      list[index] := target;
      table := table[index := Seen(target)];
    }

    /** The copy into a larger array: every set stays behind its index. */
    method Grow(max: nat)
      requires Valid() && list.Length < max < INVALID_ID
      modifies this
      ensures Valid() && fresh(list) && list.Length == max && isDestroyed == old(isDestroyed)
      ensures table == old(table) + Empties(max - |old(table)|)
      ensures Members() == old(Members())
      ensures forall i :: 0 <= i < |old(table)| ==> list[i] == old(list)[i]
    {
      var tmp := list;
      var bigger := new IpSet?[max](_ => null);
      var k := 0;
      while k < tmp.Length
        modifies bigger
        invariant 0 <= k <= tmp.Length
        invariant forall i :: 0 <= i < max ==> bigger[i] == if i < k then tmp[i] else null
      {
        bigger[k] := tmp[k];
        k := k + 1;
      }
      list := bigger;
      table := table + Empties(max - |table|);
    }

    method Destroy(name: string, exist: bool) returns (ret: Ret)
      requires Valid()
      modifies this, list
      ensures Valid() && list == old(list) && isDestroyed == old(isDestroyed)
      ensures (table, ret) == RegistryModel.Destroy(old(table), name, exist)
      ensures Members() <= old(Members())
    {
      var i := FindSetAndId(name);
      if i == INVALID_ID {
        return if exist then Done else NoEntry;
      }
      var s := list[i];
      if s.ref != 0 || s.refNetlink != 0 {
        return Busy;
      }
      list[i] := null;
      table := table[i := None];
      ret := Done;
    }

    /** Destroying all sets begins when no count of any set is left. */
    method BeginDestroyAll() returns (ret: Ret)
      requires Valid() && !isDestroyed
      modifies this`isDestroyed
      ensures Valid() && ret == (if Unused(table) then Done else Busy) && isDestroyed == Unused(table)
    {
      var i := 0;
      while i < list.Length
        invariant 0 <= i <= list.Length && Valid() && !isDestroyed
        invariant forall k :: 0 <= k < i ==> Ref(table, k) == 0 && Net(table, k) == 0
      {
        var s := list[i];
        if s != null && (s.ref != 0 || s.refNetlink != 0) {
          assert Ref(table, i) != 0 || Net(table, i) != 0;
          return Busy;
        }
        i := i + 1;
      }
      isDestroyed := true;
      ret := Done;
    }

    /** One round of the emptying loop. */
    method ClearSlot(i: nat)
      requires Valid() && i < list.Length
      modifies this`table, list
      ensures Valid() && table == old(table)[i := None] && Members() <= old(Members())
    {
      list[i] := null;
      table := table[i := None];
    }

    /** Only the command that destroys all sets clears the flag. */
    method EndDestroyAll()
      requires Valid()
      modifies this`isDestroyed
      ensures Valid() && !isDestroyed
    {
      isDestroyed := false;
    }

    /** Destroying all sets: first every count is looked at, then every slot is emptied. */
    method DestroyAll() returns (ret: Ret)
      requires Valid() && !isDestroyed
      modifies this, list
      ensures Valid() && list == old(list) && !isDestroyed
      ensures (table, ret) == RegistryModel.DestroyAll(old(table))
      ensures Members() <= old(Members())
    {
      ret := BeginDestroyAll();
      if ret != Done {
        return;
      }
      var i := 0;
      while i < list.Length
        invariant 0 <= i <= list.Length && list == old(list) && Valid() && |table| == |old(table)|
        invariant Members() <= old(Members())
        invariant forall k :: 0 <= k < i ==> table[k].None?
      {
        ClearSlot(i);
        i := i + 1;
      }
      assert table == Empties(|table|);
      EndDestroyAll();
    }

    method Rename(name: string, name2: string) returns (ret: Ret)
      requires Valid()
      modifies this`table, list[..]
      ensures Valid()
      ensures (table, ret) == RegistryModel.Rename(old(table), name, name2)
    {
      var id := FindSetAndId(name);
      if id == INVALID_ID {
        return NoEntry;
      }
      var target := list[id];
      if target.ref != 0 || target.refNetlink != 0 {
        return Referenced;
      }
      var i := 0;
      while i < list.Length
        invariant 0 <= i <= list.Length
        invariant FindFrom(table, name2, 0) == FindFrom(table, name2, i)
      {
        var s := list[i];
        if s != null && s.name == name2 {
          return ExistSetname2;
        }
        i := i + 1;
      }
      target.name := name2;
      table := table[id := Seen(target)];
      ret := Done;
    }

    /** The objects change places and exchange names and external counts. */
    method Swap(name: string, name2: string) returns (ret: Ret)
      requires Valid()
      modifies this, list, list[..]
      ensures Valid() && list == old(list) && isDestroyed == old(isDestroyed)
      ensures (table, ret) == RegistryModel.Swap(old(table), name, name2)
      ensures Members() <= old(Members())
    {
      var fromId := FindSetAndId(name);
      if fromId == INVALID_ID {
        return NoEntry;
      }
      var toId := FindSetAndId(name2);
      if toId == INVALID_ID {
        return ExistSetname2;
      }
      var from, to := list[fromId], list[toId];
      if !Swappable(from.body, to.body) {
        return TypeMismatch;
      }
      if from.refNetlink != 0 || to.refNetlink != 0 {
        return Busy;
      }
      Exchange(fromId, toId);
      ret := Done;
    }

    /** Names and counts go the other way than the pointers, so they stay with the slots. */
    method Exchange(fromId: nat, toId: nat)
      requires Valid() && fromId < list.Length && toId < list.Length && list[fromId] != null && list[toId] != null
      requires list[fromId].refNetlink == 0 && list[toId].refNetlink == 0
      modifies this, list, list[..]
      ensures Valid() && list == old(list) && isDestroyed == old(isDestroyed)
      ensures table == RegistryModel.Exchange(old(table), fromId, toId)
      ensures Members() <= old(Members())
    {
      var from, to := list[fromId], list[toId];
      var fromName := from.name;
      from.name := to.name;
      to.name := fromName;
      var ref := from.ref;
      from.ref := to.ref;
      to.ref := ref;
      list[fromId] := to;
      list[toId] := from;
      table := RegistryModel.Exchange(table, fromId, toId);
    }

    // ---------- References ----------

    /** ip_set_nfnl_get_byindex(): the index again, or INVALID_ID. */
    method GetByIndex(index: nat) returns (r: nat)
      requires Valid()
      modifies this`table, list[..]
      ensures Valid()
      ensures r == if Held(old(table), index) then index else INVALID_ID
      ensures table == if Held(old(table), index) then AddRef(old(table), index, 1) else old(table)
    {
      if index >= list.Length {
        return INVALID_ID;
      }
      var target := list[index];
      if target != null {
        target.ref := target.ref + 1;
        table := AddRef(table, index, 1);
        r := index;
      } else {
        r := INVALID_ID;
      }
    }

    /** ip_set_get_byname(). */
    method GetByName(name: string) returns (r: nat)
      requires Valid()
      modifies this`table, list[..]
      ensures Valid()
      ensures Find(old(table), name) == if r == INVALID_ID then None else Some(r)
      ensures table == if r == INVALID_ID then old(table) else Hold(old(table), multiset{r})
    {
      hide Hold;
      r := 0;
      while r < list.Length
        invariant 0 <= r <= list.Length && Valid() && table == old(table)
        invariant FindFrom(table, name, 0) == FindFrom(table, name, r)
      {
        var s := list[r];
        if s != null && s.name == name {
          HoldOne(table, r);
          s.ref := s.ref + 1;
          table := AddRef(table, r, 1);
          return;
        }
        r := r + 1;
      }
      r := INVALID_ID;
    }

    /** ip_set_nfnl_put(); the kernel reads the slot without a bound check and stops at a zero count. */
    method Put(index: nat)
      requires Valid() && index < list.Length && (list[index] != null ==> list[index].ref > 0)
      modifies this`table, list[..]
      ensures Valid()
      ensures table == if Held(old(table), index) then AddRef(old(table), index, -1) else old(table)
    {
      var target := list[index];
      if target != null {
        target.ref := target.ref - 1;
        table := AddRef(table, index, -1);
      }
    }

    /** set->ref_netlink++. */
    method GetNetlink(index: nat)
      requires Valid() && Held(table, index)
      modifies this`table, list[..]
      ensures Valid()
      ensures table == AddNet(old(table), index, 1)
    {
      var s := list[index];
      s.refNetlink := s.refNetlink + 1;
      table := AddNet(table, index, 1);
    }

    /** __ip_set_put_netlink(); the kernel stops at a zero count. */
    method PutNetlink(index: nat)
      requires Valid() && Net(table, index) > 0
      modifies this`table, list[..]
      ensures Valid()
      ensures table == AddNet(old(table), index, -1)
    {
      var s := list[index];
      s.refNetlink := s.refNetlink - 1;
      table := AddNet(table, index, -1);
    }
  }
}
