/**
 The dump of the registry as a state machine over its callback arguments: one call fills one message,
 and a set stays referenced from its first message to its last.
 */
module DumpModel {
  import opened Options
  import opened RegistryModel

  datatype DumpType = All | One | Last

  /** cb->args: what is dumped, the slot reached, and the type's own cursor (0 outside a set). */
  datatype Args = Args(dump: DumpType, listSetname: bool, listHeader: bool, index: nat, arg0: nat)

  /** Which of the calls that fill the message succeed, and the cursor the type's list leaves. */
  datatype Skb = Skb(start: bool, setname: bool, header: bool, head: bool, list: bool, arg0: nat)

  /** An empty reply ends the dump; a message is about one slot, and is its last one when complete. */
  datatype Reply = Nothing | Failed | Message(index: nat, complete: bool)

  predicate Picks(t: Table, ty: DumpType, i: int) {
    0 <= i < |t| && t[i].Some? && (ty == One || (ty == All) != DumpedLast(t[i].value.body))
  }

  /** The first slot from i on, below max, that this phase emits. */
  function Next(t: Table, ty: DumpType, i: nat, max: nat): (r: Option<nat>)
    ensures r.Some? ==> i <= r.value < max && Picks(t, ty, r.value)
    ensures forall k :: i <= k < (if r.Some? then r.value else max) ==> !Picks(t, ty, k)
    decreases max - i
  {
    if i >= max then None else if Picks(t, ty, i) then Some(i) else Next(t, ty, i + 1, max)
  }

  /** ip_set_dump_start(). */
  function Start(t: Table, name: Option<string>, listSetname: bool, listHeader: bool): Option<Args> {
    if name.None? then Some(Args(All, listSetname, listHeader, 0, 0))
    else match Find(t, name.value)
      case None => None
      case Some(i) => Some(Args(One, listSetname, listHeader, i, 0))
  }

  /** next_set, unless a message for the same set is to follow, then release_refcount. */
  function Finish(t: Table, a: Args, advance: bool, failed: bool): (Table, Args, Reply)
    requires Held(t, a.index) && t[a.index].value.net > 0
  {
    var next := if !advance then a.index else if a.dump == One then INVALID_ID else a.index + 1;
    var r := if failed then Failed else Message(a.index, a.arg0 == 0);
    if failed || a.arg0 == 0 then (AddNet(t, a.index, -1), a.(index := next, arg0 := 0), r)
    else (t, a.(index := next), r)
  }

  /** One message about the set in slot a.index. */
  function Emit(t: Table, a: Args, e: Skb): (Table, Args, Reply)
    requires Held(t, a.index) && (a.arg0 != 0 ==> t[a.index].value.net > 0)
  {
    var u := if a.arg0 == 0 then AddNet(t, a.index, 1) else t;
    if !e.start then Finish(u, a, false, true)
    else if !e.setname then Finish(u, a, true, true)
    else if a.listSetname then Finish(u, a, true, false)
    else if a.arg0 == 0 && !e.header then Finish(u, a, true, true)
    else if a.arg0 == 0 && !e.head then Finish(u, a, false, true)
    else if a.arg0 == 0 && a.listHeader then Finish(u, a, true, false)
    else Finish(u, a.(arg0 := e.arg0), e.arg0 == 0, !e.list)
  }

  function Max(t: Table, a: Args): nat {
    if a.dump == One then a.index + 1 else |t|
  }

  /** Where the call ends up: the rest of this phase, then from the first slot the sets to dump last. */
  function Chosen(t: Table, a: Args): (r: Option<Args>)
    ensures r.Some? ==> Picks(t, r.value.dump, r.value.index) && r.value.arg0 == a.arg0
  {
    match Next(t, a.dump, a.index, Max(t, a))
    case Some(i) => Some(a.(index := i))
    case None =>
      if a.dump != All then None
      else match Next(t, Last, 0, |t|)
        case Some(i) => Some(a.(dump := Last, index := i))
        case None => None
  }

  /** A dump inside a set holds the slot it is at, and that slot is of the kind it emits. */
  ghost predicate MidOk(t: Table, a: Args) {
    a.arg0 != 0 ==> Picks(t, a.dump, a.index) && Net(t, a.index) > 0 && !a.listSetname && !a.listHeader
  }

  lemma ChosenMid(t: Table, a: Args)
    requires MidOk(t, a) && a.arg0 != 0
    ensures Chosen(t, a) == Some(a)
  {
  }

  /** One call of ip_set_dump_do(). */
  ghost function Do(t: Table, destroyed: bool, a: Args, e: Skb): (Table, Args, Reply)
    requires MidOk(t, a)
  {
    if a.index >= |t| then (t, a, Nothing)
    else if destroyed || (a.dump == One && t[a.index].None?) then (t, a, if a.dump == One then Failed else Nothing)
    else match Chosen(t, a)
      case None => (t, a.(dump := Last, index := |t|), Nothing)
      case Some(b) => ChosenArg(t, a); Emit(t, b, e)
  }

  lemma ChosenArg(t: Table, a: Args)
    requires MidOk(t, a)
    ensures Chosen(t, a).Some? && a.arg0 != 0 ==> Chosen(t, a) == Some(a)
  {
    if a.arg0 != 0 {
      ChosenMid(t, a);
    }
  }

  /** Where there is nothing to emit any more a dump of one set fails, any other ends, and nothing changes. */
  lemma DoRefused(t: Table, destroyed: bool, a: Args, e: Skb)
    requires MidOk(t, a) && a.index < |t| && (destroyed || (a.dump == One && t[a.index].None?))
    ensures Do(t, destroyed, a, e) == (t, a, if a.dump == One then Failed else Nothing)
  {
  }

  /** ip_set_dump_done(), also when the reader goes away early. */
  ghost function Stop(t: Table, a: Args): Table
    requires MidOk(t, a)
  {
    if a.arg0 != 0 then AddNet(t, a.index, -1) else t
  }

  // ---------- Balance of ref_netlink ----------

  /** What a dump contributes to ref_netlink of slot i. */
  function Holds(a: Args, i: int): (n: nat) {
    if a.arg0 != 0 && a.index == i then 1 else 0
  }

  /** Same slots, names, contents and external counts; only ref_netlink may differ. */
  ghost predicate SameSets(t: Table, u: Table) {
    |u| == |t| && forall i :: 0 <= i < |t| ==> u[i] == if t[i].None? then None else Some(t[i].value.(net := Net(u, i)))
  }

  lemma EmitBalanced(t: Table, a: Args, e: Skb)
    requires MidOk(t, a) && Picks(t, a.dump, a.index) && a.index < INVALID_ID
    ensures var (u, b, r) := Emit(t, a, e);
            && MidOk(u, b) && SameSets(t, u) && (forall i :: Net(u, i) - Holds(b, i) == Net(t, i) - Holds(a, i))
            && (r == Failed ==> b.arg0 == 0)
            && (r.Message? ==> r.index == a.index && (r.complete <==> b.arg0 == 0))
  {
  }

  /** Every exit of a call leaves ref_netlink raised exactly by what the dump still holds. */
  lemma Balanced(t: Table, destroyed: bool, a: Args, e: Skb)
    requires |t| < INVALID_ID && MidOk(t, a)
    ensures var (u, b, r) := Do(t, destroyed, a, e);
            && MidOk(u, b) && SameSets(t, u) && (forall i :: Net(u, i) - Holds(b, i) == Net(t, i) - Holds(a, i))
            && (a.arg0 == 0 && r == Failed ==> b.arg0 == 0)
  {
    if a.index < |t| && !destroyed && !(a.dump == One && t[a.index].None?) {
      ChosenArg(t, a);
      if Chosen(t, a).Some? {
        EmitBalanced(t, Chosen(t, a).value, e);
      }
    }
  }

  lemma StopBalanced(t: Table, a: Args)
    requires MidOk(t, a)
    ensures SameSets(t, Stop(t, a)) && forall i :: Net(Stop(t, a), i) == Net(t, i) - Holds(a, i)
  {
  }

  // ---------- What a whole dump emits ----------

  datatype Kind = Empty | Plain | Listy

  function KindOf(s: Option<Live>): Kind {
    if s.None? then Empty else if DumpedLast(s.value.body) then Listy else Plain
  }

  function Kinds(t: Table): (ks: seq<Kind>)
    ensures |ks| == |t| && forall i :: 0 <= i < |t| ==> ks[i] == KindOf(t[i])
  {
    seq(|t|, i requires 0 <= i < |t| => KindOf(t[i]))
  }

  /** The slots of one kind from i on, in slot order. */
  function Slots(ks: seq<Kind>, kind: Kind, i: nat): (r: seq<nat>)
    requires i <= |ks|
    decreases |ks| - i
  {
    if i == |ks| then [] else (if ks[i] == kind then [i] else []) + Slots(ks, kind, i + 1)
  }

  /** The last slot holds a set that is not a list: the dump then ends before the list phase. */
  predicate EndsEarly(ks: seq<Kind>) {
    |ks| > 0 && ks[|ks| - 1] == Plain
  }

  /** The list phase. */
  function Lists(ks: seq<Kind>): seq<nat> {
    if EndsEarly(ks) then [] else Slots(ks, Listy, 0)
  }

  function Expected(ks: seq<Kind>): seq<nat> {
    Slots(ks, Plain, 0) + Lists(ks)
  }

  /** What a dump still emits. */
  function Remaining(ks: seq<Kind>, a: Args): seq<nat> {
    if a.index >= |ks| then []
    else match a.dump
      case All => Slots(ks, Plain, a.index) + Lists(ks)
      case Last => Slots(ks, Listy, a.index)
      case One => if ks[a.index] == Empty then [] else [a.index]
  }

  /** Every call that fills the message succeeds. */
  predicate Fine(e: Skb) {
    e.start && e.setname && e.header && e.head && e.list
  }

  /** Repeated calls, one per element of es: the sets completed, and whether the dump ended. */
  ghost function Trace(t: Table, a: Args, es: seq<Skb>): (seq<nat>, bool)
    requires |t| < INVALID_ID && MidOk(t, a)
    decreases |es|
  {
    if es == [] then ([], false)
    else
      Balanced(t, false, a, es[0]);
      var (u, b, r) := Do(t, false, a, es[0]);
      if !r.Message? then ([], true)
      else
        var (rest, ended) := Trace(u, b, es[1..]);
        ((if r.complete then [r.index] else []) + rest, ended)
  }

  lemma {:induction false} SlotsMembers(ks: seq<Kind>, kind: Kind, i: nat)
    requires i <= |ks|
    ensures forall x :: x in Slots(ks, kind, i) <==> i <= x < |ks| && ks[x] == kind
    decreases |ks| - i
  {
    if i < |ks| {
      SlotsMembers(ks, kind, i + 1);
    }
  }

  lemma {:induction false} SlotsAscending(ks: seq<Kind>, kind: Kind, i: nat)
    requires i <= |ks|
    ensures forall a, b :: 0 <= a < b < |Slots(ks, kind, i)| ==> Slots(ks, kind, i)[a] < Slots(ks, kind, i)[b]
    decreases |ks| - i
  {
    if i < |ks| {
      SlotsAscending(ks, kind, i + 1);
      SlotsMembers(ks, kind, i + 1);
      var rest := Slots(ks, kind, i + 1);
      assert forall a :: 0 <= a < |rest| ==> rest[a] in rest;
    }
  }

  lemma {:induction false} SlotsSkip(ks: seq<Kind>, kind: Kind, i: nat, j: nat)
    requires i <= j <= |ks| && forall k :: i <= k < j ==> ks[k] != kind
    ensures Slots(ks, kind, i) == Slots(ks, kind, j)
    decreases j - i
  {
    if i < j {
      SlotsSkip(ks, kind, i + 1, j);
    }
  }

  function KindFor(ty: DumpType): Kind {
    if ty == Last then Listy else Plain
  }

  lemma PicksKind(t: Table, ty: DumpType, i: int)
    requires 0 <= i < |t| && ty != One
    ensures Picks(t, ty, i) <==> Kinds(t)[i] == KindFor(ty)
  {
  }

  /** The scan of one phase finds the head of what the phase emits. */
  lemma NextHead(t: Table, ty: DumpType, i: nat)
    requires i <= |t| && ty != One
    ensures var r := Next(t, ty, i, |t|);
            if r.None? then Slots(Kinds(t), KindFor(ty), i) == [] && (i < |t| ==> Kinds(t)[|t| - 1] != KindFor(ty))
            else Slots(Kinds(t), KindFor(ty), i) == Slots(Kinds(t), KindFor(ty), r.value)
                 && Slots(Kinds(t), KindFor(ty), r.value) == [r.value] + Slots(Kinds(t), KindFor(ty), r.value + 1)
                 && Kinds(t)[r.value] == KindFor(ty)
    ensures Slots(Kinds(t), KindFor(ty), |t|) == []
  {
    hide Picks;
    var ks, r := Kinds(t), Next(t, ty, i, |t|);
    var stop := if r.Some? then r.value else |t|;
    forall k | i <= k < stop
      ensures ks[k] != KindFor(ty)
    {
      PicksKind(t, ty, k);
    }
    SlotsSkip(ks, KindFor(ty), i, stop);
    if r.Some? {
      PicksKind(t, ty, stop);
    }
  }

  /** b is about to be emitted, and the head of what remains of a. */
  ghost predicate Heads(ks: seq<Kind>, a: Args, b: Args) {
    && Remaining(ks, a) == Remaining(ks, b)
    && Remaining(ks, a) == [b.index] + Remaining(ks, b.(index := After(b), arg0 := 0))
  }

  lemma Assoc(x: nat, s: seq<nat>, rest: seq<nat>)
    ensures ([x] + s) + rest == [x] + (s + rest)
    ensures [x] + [] == [x] && rest + [] == rest && [] + rest == rest
  {
  }

  lemma HeadSame(ks: seq<Kind>, a: Args, i: nat)
    requires a.index <= i < |ks| && a.dump != One && ks[i] == KindFor(a.dump)
    requires Slots(ks, KindFor(a.dump), a.index) == Slots(ks, KindFor(a.dump), i)
    requires Slots(ks, KindFor(a.dump), i) == [i] + Slots(ks, KindFor(a.dump), i + 1)
    requires Slots(ks, KindFor(a.dump), |ks|) == []
    ensures Heads(ks, a, a.(index := i))
  {
    hide Slots;
    if a.dump == All {
      Assoc(i, Slots(ks, Plain, i + 1), Lists(ks));
      assert i + 1 == |ks| ==> Lists(ks) == [];
    }
  }

  lemma HeadNextPhase(ks: seq<Kind>, a: Args, i: nat)
    requires a.index < |ks| && i < |ks| && a.dump == All && !EndsEarly(ks) && Slots(ks, Plain, a.index) == []
    requires Slots(ks, Listy, 0) == Slots(ks, Listy, i)
    requires Slots(ks, Listy, i) == [i] + Slots(ks, Listy, i + 1)
    requires Slots(ks, Listy, |ks|) == []
    ensures Heads(ks, a, a.(dump := Last, index := i))
  {
    hide Slots;
    Assoc(0, [], Lists(ks));
  }

  /** The set about to be emitted is the head of what remains. */
  lemma ChosenHead(t: Table, a: Args)
    requires |t| < INVALID_ID && a.index < |t| && (a.dump == One ==> t[a.index].Some?)
    ensures Chosen(t, a).None? ==> Remaining(Kinds(t), a) == []
    ensures Chosen(t, a).Some? ==>
              var b := Chosen(t, a).value;
              Heads(Kinds(t), a, b) && b == a.(dump := b.dump, index := b.index) && (b.dump == One <==> a.dump == One)
  {
    hide Slots, Next, Picks, Kinds, Remaining, Heads, Lists, EndsEarly;
    if a.dump == One {
      NextOne(t, a.index);
      OneHead(Kinds(t), a);
    } else {
      NextHead(t, a.dump, a.index);
      if Next(t, a.dump, a.index, |t|).Some? {
        HeadSame(Kinds(t), a, Next(t, a.dump, a.index, |t|).value);
      } else {
        NextHead(t, Last, 0);
        NoneLeft(Kinds(t), a);
        if a.dump == All && Next(t, Last, 0, |t|).Some? {
          HeadNextPhase(Kinds(t), a, Next(t, Last, 0, |t|).value);
        }
      }
    }
  }

  lemma OneHead(ks: seq<Kind>, a: Args)
    requires a.index < |ks| < INVALID_ID && a.dump == One && ks[a.index] != Empty
    ensures Heads(ks, a, a)
  {
  }

  /** A phase with nothing left: the last slot is not of its kind. */
  lemma NoneLeft(ks: seq<Kind>, a: Args)
    requires a.index < |ks| && a.dump != One && Slots(ks, KindFor(a.dump), a.index) == []
    requires ks[|ks| - 1] != KindFor(a.dump)
    ensures a.dump == All ==> !EndsEarly(ks)
    ensures a.dump == Last || Slots(ks, Listy, 0) == [] ==> Remaining(ks, a) == []
  {
    hide Slots;
  }

  lemma NextOne(t: Table, i: nat)
    requires i < |t| && t[i].Some?
    ensures Next(t, One, i, i + 1) == Some(i)
  {
  }

  function After(a: Args): nat {
    if a.dump == One then INVALID_ID else a.index + 1
  }

  lemma EmitFine(t: Table, a: Args, e: Skb)
    requires MidOk(t, a) && Picks(t, a.dump, a.index) && Fine(e)
    ensures var (u, b, r) := Emit(t, a, e);
            && r.Message? && r.index == a.index && (!r.complete ==> e.arg0 != 0)
            && b == if r.complete then a.(index := After(a), arg0 := 0) else a.(arg0 := e.arg0)
  {
  }

  lemma SameKinds(t: Table, u: Table)
    requires SameSets(t, u)
    ensures Kinds(u) == Kinds(t) && forall i :: 0 <= i < |t| ==> u[i].Some? == t[i].Some?
  {
  }

  /** A call that succeeds emits the head of what remains, or pauses in it, or ends with nothing left. */
  lemma DoHead(t: Table, a: Args, e: Skb)
    requires |t| < INVALID_ID && MidOk(t, a) && (a.dump == One && a.index < |t| ==> t[a.index].Some?) && Fine(e)
    ensures var (u, b, r) := Do(t, false, a, e);
            && r != Failed && Kinds(u) == Kinds(t) && |u| == |t| && (b.dump == One && b.index < |u| ==> u[b.index].Some?)
            && (r == Nothing ==> Remaining(Kinds(t), a) == [])
            && (r.Message? ==>
                  Remaining(Kinds(t), a) == (if r.complete then [r.index] else []) + Remaining(Kinds(t), b))
            && (r.Message? && !r.complete ==> e.arg0 != 0)
  {
    hide Chosen, Slots, SameSets, Kinds, Emit, Fine;
    Balanced(t, false, a, e);
    SameKinds(t, Do(t, false, a, e).0);
    if a.index < |t| {
      ChosenArg(t, a);
      ChosenHead(t, a);
      if Chosen(t, a).Some? {
        var b := Chosen(t, a).value;
        EmitFine(t, b, e);
        RemainingArg(Kinds(t), b, e.arg0);
      }
    }
  }

  lemma RemainingArg(ks: seq<Kind>, a: Args, arg0: nat)
    ensures Remaining(ks, a.(arg0 := arg0)) == Remaining(ks, a)
  {
  }

  /**
   A dump of an unchanging table, with any split of each set into messages: the sets it completes are
   what remains, in order, and all of it when the dump ends.
   */
  lemma {:induction false} TraceExact(t: Table, a: Args, es: seq<Skb>)
    requires |t| < INVALID_ID && MidOk(t, a) && (a.dump == One && a.index < |t| ==> t[a.index].Some?)
    requires forall e :: e in es ==> Fine(e)
    ensures Trace(t, a, es).0 <= Remaining(Kinds(t), a)
    ensures Trace(t, a, es).1 ==> Trace(t, a, es).0 == Remaining(Kinds(t), a)
    decreases |es|
  {
    hide Do, Remaining, Kinds, SameSets, MidOk, Fine;
    if es != [] {
      Balanced(t, false, a, es[0]);
      DoHead(t, a, es[0]);
      var (u, b, r) := Do(t, false, a, es[0]);
      if r.Message? {
        TraceExact(u, b, es[1..]);
      }
    }
  }

  /** A whole-table dump that ends has emitted the plain sets, then the lists unless it ended early. */
  lemma DumpAll(t: Table, listSetname: bool, listHeader: bool, es: seq<Skb>)
    requires |t| < INVALID_ID && forall e :: e in es ==> Fine(e)
    ensures var a := Args(All, listSetname, listHeader, 0, 0); Trace(t, a, es).1 ==> Trace(t, a, es).0 == Expected(Kinds(t))
  {
    var a := Args(All, listSetname, listHeader, 0, 0);
    TraceExact(t, a, es);
    assert |t| == 0 ==> Expected(Kinds(t)) == [];
  }

  /** The exact condition under which a whole-table dump emits every live set. */
  lemma DumpAllCompleteIff(t: Table)
    ensures (forall i :: 0 <= i < |t| && t[i].Some? ==> i in Expected(Kinds(t)))
            <==> !(EndsEarly(Kinds(t)) && exists i :: 0 <= i < |t| && Kinds(t)[i] == Listy)
  {
    var ks := Kinds(t);
    var ex := Expected(ks);
    SlotsMembers(ks, Plain, 0);
    SlotsMembers(ks, Listy, 0);
    if EndsEarly(ks) && exists i :: 0 <= i < |t| && ks[i] == Listy {
      var i :| 0 <= i < |t| && ks[i] == Listy;
      assert i !in Slots(ks, Plain, 0);
      assert t[i].Some? && i !in ex;
    } else {
      forall i | 0 <= i < |t| && t[i].Some?
        ensures i in ex
      {
        assert ks[i] == Plain ==> i in Slots(ks, Plain, 0);
        assert ks[i] == Listy ==> i in Slots(ks, Listy, 0);
      }
    }
  }

  /** A dump of one set starts in the slot of that name and is refused when there is none; else all slots are gone through. */
  lemma StartIff(t: Table, name: Option<string>, listSetname: bool, listHeader: bool)
    requires Ok(t)
    ensures var a := Start(t, name, listSetname, listHeader);
            && (name.None? ==> a == Some(Args(All, listSetname, listHeader, 0, 0)))
            && (name.Some? && (forall i :: !Is(t, i, name.value)) ==> a == None)
            && (name.Some? ==> forall i :: Is(t, i, name.value) ==> a == Some(Args(One, listSetname, listHeader, i, 0)))
  {
    if name.Some? {
      FindNone(t, name.value);
      forall i | Is(t, i, name.value)
        ensures Find(t, name.value) == Some(i)
      {
        FindIs(t, name.value, i);
      }
    }
  }

  /** A dump of one set emits that set alone. */
  lemma DumpNamed(t: Table, name: string, i: nat, listSetname: bool, listHeader: bool, es: seq<Skb>)
    requires Ok(t) && Is(t, i, name) && forall e :: e in es ==> Fine(e)
    requires |es| > 1 + Pauses(es)
    ensures Start(t, Some(name), listSetname, listHeader).Some?
    ensures Trace(t, Start(t, Some(name), listSetname, listHeader).value, es) == ([i], true)
  {
    hide Trace, Fine, Pauses;
    StartIff(t, Some(name), listSetname, listHeader);
    var a := Args(One, listSetname, listHeader, i, 0);
    assert Remaining(Kinds(t), a) == [i];
    TraceEnds(t, a, es);
    TraceExact(t, a, es);
  }

  /** Which call's failure leaves the dump at the set, to be asked for again, and which goes on to the next. */
  lemma EmitFails(t: Table, a: Args, e: Skb)
    requires Held(t, a.index) && a.index < INVALID_ID && (a.arg0 != 0 ==> t[a.index].value.net > 0)
    ensures var (_, b, r) := Emit(t, a, e);
            var first, names := a.arg0 == 0, a.listSetname;
            var elems := e.start && e.setname && !names && (first ==> e.header && e.head && !a.listHeader);
            && (r == Failed <==> !e.start || !e.setname || (!names && first && (!e.header || !e.head)) || (elems && !e.list))
            && (b.index == a.index <==> !e.start || (e.setname && !names && first && e.header && !e.head) || (elems && e.arg0 != 0))
            && (b.index != a.index ==> b.index == if a.dump == One then INVALID_ID else a.index + 1)
            && b.arg0 == (if elems && e.list then e.arg0 else if r == Failed || first then 0 else a.arg0)
  {
  }

  /** Enough calls end the dump: one per set, one per continued message, and the empty last one. */
  function Pauses(es: seq<Skb>): (n: nat) {
    if es == [] then 0 else (if es[0].arg0 != 0 then 1 else 0) + Pauses(es[1..])
  }

  lemma {:induction false} TraceEnds(t: Table, a: Args, es: seq<Skb>)
    requires |t| < INVALID_ID && MidOk(t, a) && (a.dump == One && a.index < |t| ==> t[a.index].Some?)
    requires (forall e :: e in es ==> Fine(e)) && |es| > |Remaining(Kinds(t), a)| + Pauses(es)
    ensures Trace(t, a, es).1
    decreases |es|
  {
    hide Do, Remaining, Kinds, SameSets, MidOk, Fine;
    Balanced(t, false, a, es[0]);
    DoHead(t, a, es[0]);
    var (u, b, r) := Do(t, false, a, es[0]);
    if r.Message? {
      TraceEnds(u, b, es[1..]);
    }
  }

  /** A set of the given features in a registry of two. */
  function TwoSets(first: nat, second: nat): (t: Table) {
    [Some(Live("a", 0, 0, Body("", 2, 0, 0, 2, first, 0))), Some(Live("b", 0, 0, Body("", 2, 0, 0, 2, second, 0)))]
  }

  /** A list in slot 0 before a plain set in slot 1 is left out; the other way round both are emitted. */
  lemma ListLeftOut(es: seq<Skb>)
    requires |es| > 2 && forall e :: e in es ==> Fine(e) && e.arg0 == 0
    ensures Trace(TwoSets(DUMP_LAST, 0), Args(All, false, false, 0, 0), es) == ([1], true)
    ensures Trace(TwoSets(0, DUMP_LAST), Args(All, false, false, 0, 0), es) == ([0, 1], true)
  {
    hide Trace, Fine, Expected, Remaining, Kinds;
    NoPauses(es);
    ExpectedOfTwo();
    TraceEnds(TwoSets(DUMP_LAST, 0), Args(All, false, false, 0, 0), es);
    DumpAll(TwoSets(DUMP_LAST, 0), false, false, es);
    TraceEnds(TwoSets(0, DUMP_LAST), Args(All, false, false, 0, 0), es);
    DumpAll(TwoSets(0, DUMP_LAST), false, false, es);
  }

  lemma {:induction false} NoPauses(es: seq<Skb>)
    requires forall e :: e in es ==> e.arg0 == 0
    ensures Pauses(es) == 0
  {
    if es != [] {
      NoPauses(es[1..]);
    }
  }

  lemma ExpectedOfTwo()
    ensures var t := TwoSets(DUMP_LAST, 0); Expected(Kinds(t)) == Remaining(Kinds(t), Args(All, false, false, 0, 0)) == [1]
    ensures var t := TwoSets(0, DUMP_LAST); Expected(Kinds(t)) == Remaining(Kinds(t), Args(All, false, false, 0, 0)) == [0, 1]
  {
    var ks, ls := Kinds(TwoSets(DUMP_LAST, 0)), Kinds(TwoSets(0, DUMP_LAST));
    assert ks == [Listy, Plain] && ls == [Plain, Listy];
    assert Slots(ks, Plain, 2) == [] && Slots(ks, Plain, 1) == [1] && Slots(ks, Plain, 0) == [1];
    assert Slots(ls, Plain, 2) == Slots(ls, Listy, 2) == [] && Slots(ls, Plain, 1) == [] && Slots(ls, Plain, 0) == [0];
    assert Slots(ls, Listy, 1) == [1] && Slots(ls, Listy, 0) == [1];
  }
}
