/**
 The set registry as a value: what each command of ip_set_core.c does to the slot table, and the
 properties of names, slots and reference counts that all commands keep.
 */
module RegistryModel {
  import opened Options

  const INVALID_ID: int := 65535
  const IP_SET_INC: int := 64
  const DUMP_LAST: int := 256

  /** What a slot of the table refers to besides name and counts: the set's type and its content. */
  datatype Body = Body(typeName: string, typeFamily: int, revisionMin: int, revisionMax: int, family: int, features: nat,
                       data: int)

  /** A set as found behind its index. `net` is ref_netlink. */
  datatype Live = Live(name: string, ref: nat, net: nat, body: Body)

  type Table = seq<Option<Live>>

  datatype Ret =
    | Done
    | Exists | NoEntry | MaxSets | Busy | Referenced | ExistSetname2 | TypeMismatch | Range | Invalid

  predicate DumpedLast(b: Body) {
    b.features / DUMP_LAST % 2 == 1
  }

  // ---------- Lookup ----------

  predicate Named(t: Table, i: int, name: string) {
    0 <= i < |t| && t[i].Some? && t[i].value.name == name
  }

  /** The first slot from i on that holds a set of that name. */
  function FindFrom(t: Table, name: string, i: nat): (r: Option<nat>)
    requires i <= |t|
    ensures r.Some? ==> i <= r.value && Named(t, r.value, name)
    ensures forall k :: i <= k < (if r.Some? then r.value else |t|) ==> !Named(t, k, name)
    decreases |t| - i
  {
    if i == |t| then None else if Named(t, i, name) then Some(i) else FindFrom(t, name, i + 1)
  }

  function Find(t: Table, name: string): Option<nat> {
    FindFrom(t, name, 0)
  }

  /** The first empty slot from i on. */
  function FreeFrom(t: Table, i: nat): (r: Option<nat>)
    requires i <= |t|
    ensures r.Some? ==> i <= r.value < |t| && t[r.value].None?
    ensures forall k :: i <= k < (if r.Some? then r.value else |t|) ==> t[k].Some?
    decreases |t| - i
  {
    if i == |t| then None else if t[i].None? then Some(i) else FreeFrom(t, i + 1)
  }

  // ---------- Counts ----------

  function Ref(t: Table, i: int): (n: nat) {
    if 0 <= i < |t| && t[i].Some? then t[i].value.ref else 0
  }

  function Net(t: Table, i: int): (n: nat) {
    if 0 <= i < |t| && t[i].Some? then t[i].value.net else 0
  }

  predicate Held(t: Table, i: int) {
    0 <= i < |t| && t[i].Some?
  }

  /** set->ref += d. */
  function AddRef(t: Table, i: int, d: int): Table
    requires Held(t, i) && 0 <= t[i].value.ref + d
  {
    t[i := Some(t[i].value.(ref := t[i].value.ref + d))]
  }

  /** set->ref_netlink += d. */
  function AddNet(t: Table, i: int, d: int): Table
    requires Held(t, i) && 0 <= t[i].value.net + d
  {
    t[i := Some(t[i].value.(net := t[i].value.net + d))]
  }

  function More(s: Option<Live>, n: nat): Option<Live> {
    if s.None? then s else Some(s.value.(ref := s.value.ref + n))
  }

  function Less(s: Option<Live>, n: nat): Option<Live> {
    if s.None? || s.value.ref < n then s else Some(s.value.(ref := s.value.ref - n))
  }

  /** Every slot's external count raised by the number of times its index is in m. */
  ghost function Hold(t: Table, m: multiset<int>): (u: Table)
    ensures |u| == |t| && forall i :: 0 <= i < |t| ==> u[i] == More(t[i], m[i])
  {
    seq(|t|, i requires 0 <= i < |t| => More(t[i], m[i]))
  }

  /** Every slot's external count lowered by the number of times its index is in m. */
  ghost function Release(t: Table, m: multiset<int>): (u: Table)
    ensures |u| == |t| && forall i :: 0 <= i < |t| ==> u[i] == Less(t[i], m[i])
  {
    seq(|t|, i requires 0 <= i < |t| => Less(t[i], m[i]))
  }

  /** The references of m can be given back. */
  ghost predicate Covers(t: Table, m: multiset<int>) {
    forall i :: i in m ==> m[i] <= Ref(t, i)
  }

  lemma HoldOne(t: Table, i: int)
    requires Held(t, i)
    ensures Hold(t, multiset{i}) == AddRef(t, i, 1)
    ensures AddRef(AddRef(t, i, 1), i, -1) == t
  {
    forall k | 0 <= k < |t|
      ensures Hold(t, multiset{i})[k] == AddRef(t, i, 1)[k]
    {
    }
  }

  lemma ReleaseOne(t: Table, i: int)
    requires Held(t, i) && t[i].value.ref > 0
    ensures Release(t, multiset{i}) == AddRef(t, i, -1)
  {
    forall k | 0 <= k < |t|
      ensures Release(t, multiset{i})[k] == AddRef(t, i, -1)[k]
    {
    }
  }

  lemma HoldTwice(t: Table, a: multiset<int>, b: multiset<int>)
    ensures Hold(Hold(t, a), b) == Hold(t, a + b)
  {
  }

  lemma ReleaseTwice(t: Table, a: multiset<int>, b: multiset<int>)
    requires Covers(t, a + b)
    ensures Covers(t, a) && Covers(Release(t, a), b) && Release(Release(t, a), b) == Release(t, a + b)
  {
    assert forall i :: i in a || i in b ==> i in a + b;
    forall i | 0 <= i < |t|
      ensures Less(Less(t[i], a[i]), b[i]) == Less(t[i], (a + b)[i])
    {
      assert (a + b)[i] == a[i] + b[i];
      assert i in a + b ==> (a + b)[i] <= Ref(t, i);
    }
    assert forall i :: i in b ==> (a + b)[i] <= Ref(t, i);
  }

  lemma ReleaseHold(t: Table, a: multiset<int>)
    requires forall i :: i in a ==> Held(t, i)
    ensures Covers(Hold(t, a), a) && Release(Hold(t, a), a) == t
  {
  }

  // ---------- Commands ----------

  function Empties(n: nat): (t: Table)
    ensures |t| == n && forall i :: 0 <= i < n ==> t[i].None?
  {
    seq(n, _ => None)
  }

  /** The new size of a full table, in 16 bits; refused when it wraps or would make 65535 an index bound. */
  function Grown(max: nat): Option<nat> {
    var i := (max + IP_SET_INC) % 0x1_0000;
    if i < max || i == INVALID_ID then None else Some(i)
  }

  predicate SameType(a: Body, b: Body) {
    a.typeName == b.typeName && a.typeFamily == b.typeFamily && a.revisionMin == b.revisionMin && a.revisionMax == b.revisionMax
  }

  /** ip_set_create() once the set itself is built; `same` is the type's same_set comparison. */
  function Create(t: Table, name: string, body: Body, exist: bool, same: (Body, Body) -> bool, alloc: bool): (Table, Ret) {
    var s := Some(Live(name, 0, 0, body));
    match Find(t, name)
    case Some(i) =>
      var other := t[i].value.body;
      (t, if exist && SameType(body, other) && same(body, other) then Done else Exists)
    case None =>
      match FreeFrom(t, 0)
      case Some(i) => (t[i := s], Done)
      case None =>
        if Grown(|t|).None? || !alloc then (t, MaxSets)
        else (t + [s] + Empties(Grown(|t|).value - |t| - 1), Done)
  }

  function Destroy(t: Table, name: string, exist: bool): (Table, Ret) {
    match Find(t, name)
    case None => (t, if exist then Done else NoEntry)
    case Some(i) => if t[i].value.ref != 0 || t[i].value.net != 0 then (t, Busy) else (t[i := None], Done)
  }

  predicate Unused(t: Table) {
    forall i :: 0 <= i < |t| ==> Ref(t, i) == 0 && Net(t, i) == 0
  }

  function DestroyAll(t: Table): (Table, Ret) {
    if Unused(t) then (Empties(|t|), Done) else (t, Busy)
  }

  function Rename(t: Table, name: string, name2: string): (Table, Ret) {
    match Find(t, name)
    case None => (t, NoEntry)
    case Some(i) =>
      if t[i].value.ref != 0 || t[i].value.net != 0 then (t, Referenced)
      else if Find(t, name2).Some? then (t, ExistSetname2)
      else (t[i := Some(t[i].value.(name := name2))], Done)
  }

  predicate Swappable(a: Body, b: Body) {
    a.features == b.features && a.family == b.family
  }

  /** The contents of two slots change places. */
  function Exchange(t: Table, i: int, j: int): Table
    requires Held(t, i) && Held(t, j)
  {
    t[i := Some(t[i].value.(body := t[j].value.body))][j := Some(t[j].value.(body := t[i].value.body))]
  }

  /** Only the contents change places: the names and the external counts stay with their slots. */
  function Swap(t: Table, name: string, name2: string): (Table, Ret) {
    match Find(t, name)
    case None => (t, NoEntry)
    case Some(i) =>
      match Find(t, name2)
      case None => (t, ExistSetname2)
      case Some(j) =>
        if !Swappable(t[i].value.body, t[j].value.body) then (t, TypeMismatch)
        else if t[i].value.net != 0 || t[j].value.net != 0 then (t, Busy)
        else (Exchange(t, i, j), Done)
  }

  // ---------- What every command keeps ----------

  /** No two sets share a name, and no slot has the index that means "no set". */
  ghost predicate Ok(t: Table) {
    |t| < INVALID_ID && forall i, j :: 0 <= i < j < |t| && t[i].Some? && t[j].Some? ==> t[i].value.name != t[j].value.name
  }

  /**
   What a command may do while slot i is held: the slot stays where it is with a set in it, its name
   and both counts stay, and while a dump holds it its content stays too.
   */
  ghost predicate Keeps(t: Table, u: Table) {
    && |t| <= |u|
    && (forall i :: Ref(u, i) == Ref(t, i) && Net(u, i) == Net(t, i))
    && (forall i :: 0 <= i < |t| && (Ref(t, i) != 0 || Net(t, i) != 0) ==> u[i].Some? && u[i].value.name == t[i].value.name)
    && (forall i :: 0 <= i < |t| && Net(t, i) != 0 ==> u[i] == t[i])
  }

  lemma CreateKeeps(t: Table, name: string, body: Body, exist: bool, same: (Body, Body) -> bool, alloc: bool)
    requires Ok(t)
    ensures var r := Create(t, name, body, exist, same, alloc);
            && Ok(r.0) && Keeps(t, r.0) && |r.0| in {|t|, |t| + IP_SET_INC}
            && (forall i :: 0 <= i < |t| && t[i].Some? ==> r.0[i] == t[i])
            && (r.1 == Done ==> Find(r.0, name).Some?)
            && (r.1 != Done ==> r.0 == t)
            && (r.1 == Exists ==> Find(t, name).Some?)
            && (r.1 == MaxSets ==> (forall i :: 0 <= i < |t| ==> t[i].Some?) && (alloc ==> |t| + IP_SET_INC >= INVALID_ID))
  {
    var r := Create(t, name, body, exist, same, alloc);
    if Find(t, name).None? && r.1 == Done {
      var i := if FreeFrom(t, 0).Some? then FreeFrom(t, 0).value else |t|;
      assert Named(r.0, i, name);
      forall k | 0 <= k < |t| && t[k].Some?
        ensures t[k].value.name != name
      {
        assert !Named(t, k, name);
      }
    }
  }

  lemma DestroyKeeps(t: Table, name: string, exist: bool)
    requires Ok(t)
    ensures var r := Destroy(t, name, exist);
            && Ok(r.0) && Keeps(t, r.0)
            && (r.1 == Done ==> Find(r.0, name).None?)
            && (r.1 != Done ==> r.0 == t)
            && (forall i :: 0 <= i < |t| && !Named(t, i, name) ==> r.0[i] == t[i])
  {
    var r := Destroy(t, name, exist);
    if r.1 == Done && Find(r.0, name).Some? {
      var k := Find(r.0, name).value;
      assert Named(t, k, name);
    }
  }

  lemma DestroyAllKeeps(t: Table)
    requires Ok(t)
    ensures var r := DestroyAll(t); Ok(r.0) && Keeps(t, r.0)
  {
  }

  lemma RenameKeeps(t: Table, name: string, name2: string)
    requires Ok(t)
    ensures var r := Rename(t, name, name2);
            && Ok(r.0) && Keeps(t, r.0) && (r.1 != Done ==> r.0 == t)
            && (r.1 == Done ==> Find(r.0, name2) == Find(t, name) && name != name2)
  {
    var r := Rename(t, name, name2);
    if r.1 == Done {
      var i := Find(t, name).value;
      forall k | 0 <= k < |t| && t[k].Some?
        ensures t[k].value.name != name2
      {
        assert !Named(t, k, name2);
      }
      assert Named(r.0, i, name2);
    }
  }

  /** Swapping keeps every slot's name and counts, and exchanges the contents behind the two names. */
  lemma SwapKeeps(t: Table, name: string, name2: string)
    requires Ok(t)
    ensures var r := Swap(t, name, name2);
            && Ok(r.0) && Keeps(t, r.0) && |r.0| == |t| && (r.1 != Done ==> r.0 == t)
            && (forall i :: 0 <= i < |t| ==> r.0[i].Some? == t[i].Some?)
            && (forall i :: 0 <= i < |t| && t[i].Some? ==> r.0[i].value.name == t[i].value.name)
            && (r.1 == Done ==> Find(t, name).Some? && Find(t, name2).Some?)
            && (r.1 == Done ==> r.0[Find(t, name).value].value.body == t[Find(t, name2).value].value.body)
            && (r.1 == Done ==> r.0[Find(t, name2).value].value.body == t[Find(t, name).value].value.body)
            && (forall i :: 0 <= i < |t| && !Named(t, i, name) && !Named(t, i, name2) ==> r.0[i] == t[i])
  {
  }

  /** The table never reaches 65535 slots: growth is refused in time, also where 16 bits would wrap. */
  lemma GrowthBounded(max: nat)
    requires max < INVALID_ID
    ensures Grown(max).Some? <==> max + IP_SET_INC < INVALID_ID
    ensures Grown(max).Some? ==> Grown(max).value == max + IP_SET_INC
  {
  }

  // ---------- What every command does ----------

  /** Slot i holds a set of that name. */
  ghost predicate Is(t: Table, i: int, name: string) {
    0 <= i < |t| && t[i].Some? && t[i].value.name == name
  }

  /** Where names are distinct, the search finds the one set of a name. */
  lemma FindIs(t: Table, name: string, i: int)
    requires Ok(t) && Is(t, i, name)
    ensures Find(t, name) == Some(i)
  {
    assert Named(t, i, name);
    var k := Find(t, name).value;
    assert Named(t, k, name);
  }

  lemma FindNone(t: Table, name: string)
    ensures Find(t, name).None? <==> forall i :: !Is(t, i, name)
    ensures Find(t, name).Some? ==> Is(t, Find(t, name).value, name)
  {
    if Find(t, name).None? {
      forall i
        ensures !Is(t, i, name)
      {
        assert !Named(t, i, name);
      }
    } else {
      assert Named(t, Find(t, name).value, name) && Is(t, Find(t, name).value, name);
    }
  }

  /** A name in use is a success only for an equal set and with the exist flag; nothing changes then. */
  lemma CreateClash(t: Table, name: string, body: Body, exist: bool, same: (Body, Body) -> bool, alloc: bool, i: int)
    requires Ok(t) && Is(t, i, name)
    ensures var r, b := Create(t, name, body, exist, same, alloc), t[i].value.body;
            && r.0 == t && r.1 in {Done, Exists}
            && (r.1 == Done <==> exist && body.typeName == b.typeName && body.typeFamily == b.typeFamily
                                 && body.revisionMin == b.revisionMin && body.revisionMax == b.revisionMax && same(body, b))
  {
    FindIs(t, name, i);
  }

  /** A new name gets the first empty slot, or the first one of a table enlarged by 64 slots, unreferenced. */
  lemma CreateNew(t: Table, name: string, body: Body, exist: bool, same: (Body, Body) -> bool, alloc: bool)
    requires Ok(t) && forall i :: !Is(t, i, name)
    ensures var r, room := Create(t, name, body, exist, same, alloc), exists i :: 0 <= i < |t| && t[i].None?;
            && r.1 in {Done, MaxSets}
            && (r.1 == Done <==> room || (alloc && |t| + 64 < 65535))
            && (r.1 == Done ==> exists i :: 0 <= i < |r.0| && PutAt(t, r.0, i, Live(name, 0, 0, body)))
  {
    FindNone(t, name);
    GrowthBounded(|t|);
    var r := Create(t, name, body, exist, same, alloc);
    if r.1 == Done {
      var i := if FreeFrom(t, 0).Some? then FreeFrom(t, 0).value else |t|;
      assert PutAt(t, r.0, i, Live(name, 0, 0, body));
    }
  }

  /** u is t with s in slot i, the first empty one, and perhaps more empty slots. */
  ghost predicate PutAt(t: Table, u: Table, i: int, s: Live) {
    && |t| <= |u| && 0 <= i < |u| && u[i] == Some(s)
    && (forall k :: 0 <= k < i ==> k < |t| && t[k].Some?) && (i < |t| ==> t[i].None?)
    && forall k :: 0 <= k < |u| && k != i ==> u[k] == if k < |t| then t[k] else None
  }

  /** A set is destroyed exactly when it is there without references; a missing one is excused by the exist flag. */
  lemma DestroyIff(t: Table, name: string, exist: bool)
    requires Ok(t)
    ensures var r := Destroy(t, name, exist);
            && ((forall i :: !Is(t, i, name)) ==> r == (t, if exist then Done else NoEntry))
            && forall i :: Is(t, i, name) ==>
                             if t[i].value.ref == 0 && t[i].value.net == 0 then r == (t[i := None], Done) else r == (t, Busy)
  {
    FindNone(t, name);
    forall i | Is(t, i, name)
      ensures Find(t, name) == Some(i)
    {
      FindIs(t, name, i);
    }
  }

  /** All sets are destroyed exactly when none is referenced. */
  lemma DestroyAllIff(t: Table)
    ensures var r := DestroyAll(t);
            && |r.0| == |t|
            && if forall i :: 0 <= i < |t| && t[i].Some? ==> t[i].value.ref == 0 && t[i].value.net == 0
               then r.1 == Done && forall i :: 0 <= i < |t| ==> r.0[i].None?
               else r == (t, Busy)
  {
    forall i | 0 <= i < |t| && t[i].Some?
      ensures Ref(t, i) == t[i].value.ref && Net(t, i) == t[i].value.net
    {
    }
  }

  /** A set gets a new name exactly when it is there, unreferenced, and nobody has that name. */
  lemma RenameIff(t: Table, name: string, name2: string)
    requires Ok(t)
    ensures var r := Rename(t, name, name2);
            && ((forall i :: !Is(t, i, name)) ==> r == (t, NoEntry))
            && forall i :: Is(t, i, name) ==>
                             if t[i].value.ref != 0 || t[i].value.net != 0 then r == (t, Referenced)
                             else if exists k :: Is(t, k, name2) then r == (t, ExistSetname2)
                             else r == (t[i := Some(t[i].value.(name := name2))], Done)
  {
    FindNone(t, name);
    FindNone(t, name2);
    forall i | Is(t, i, name)
      ensures Find(t, name) == Some(i)
    {
      FindIs(t, name, i);
    }
  }

  /** Two sets change contents exactly when both are there, of the same kind, and no dump is inside either. */
  lemma SwapIff(t: Table, name: string, name2: string, i: int, j: int)
    requires Ok(t) && Is(t, i, name) && Is(t, j, name2)
    ensures var r, a, b := Swap(t, name, name2), t[i].value, t[j].value;
            if a.body.features != b.body.features || a.body.family != b.body.family then r == (t, TypeMismatch)
            else if a.net > 0 || b.net > 0 then r == (t, Busy)
            else
              && r.1 == Done && |r.0| == |t|
              && r.0[i] == Some(Live(name, a.ref, a.net, b.body)) && r.0[j] == Some(Live(name2, b.ref, b.net, a.body))
              && forall k :: 0 <= k < |t| && k != i && k != j ==> r.0[k] == t[k]
  {
    FindIs(t, name, i);
    FindIs(t, name2, j);
  }

  lemma SwapMissing(t: Table, name: string, name2: string)
    requires Ok(t)
    ensures (forall i :: !Is(t, i, name)) ==> Swap(t, name, name2) == (t, NoEntry)
    ensures (exists i :: Is(t, i, name)) && (forall i :: !Is(t, i, name2)) ==> Swap(t, name, name2) == (t, ExistSetname2)
  {
    FindNone(t, name);
    FindNone(t, name2);
  }
}
