/**
 The generic bitmap set instantiated for bitmap:ip,mac: bits, MAC slots, stored and running timeouts,
 and the element counter that has to equal the number of set bits.
 */
module Bitmap {
  // The outcomes of do_add besides 0, a new element.
  const STORE_PLAIN_TIMEOUT: int := -1
  const ADD_FAILED: int := 1
  const START_STORED_TIMEOUT: int := 2

  datatype Elem = Elem(id: nat, ether: int, addMac: bool)

  /** One bit with its extensions; the extensions of a clear bit are stale. */
  datatype Slot = Slot(bit: bool, filled: bool, ether: int, timeout: nat)

  datatype Config = Config(withTimeout: bool, timeout: nat)

  datatype Ret = Ok | Exists

  datatype TestRet = No | Yes | Again

  /** ip_set_timeout_expired(), when the set has timeouts. */
  predicate Expired(c: Config, timeout: nat, now: nat) {
    c.withTimeout && timeout != 0 && timeout < now
  }

  /** ip_set_timeout_set(). */
  function Deadline(value: nat, now: nat): nat {
    if value == 0 then 0 else now + value
  }

  /** bitmap_ipmac_add_timeout(): without a MAC the plain value is kept, not yet running. */
  function AddTimeout(c: Config, stored: nat, e: Elem, value: nat, mode: int, now: nat): nat {
    if !c.withTimeout then stored
    else if mode == START_STORED_TIMEOUT then Deadline(if value == c.timeout then stored else value, now)
    else if e.addMac then Deadline(value, now) else value
  }

  /** A set bit may be written again when asked for or when its time is up. */
  predicate Rewritable(c: Config, s: Slot, exist: bool, now: nat) {
    exist || Expired(c, s.timeout, now)
  }

  /** What an add makes of its slot. */
  function AddSlot(c: Config, s: Slot, e: Elem, value: nat, exist: bool, now: nat): (Slot, Ret) {
    if !s.bit then
      (Slot(true, e.addMac, if e.addMac then e.ether else s.ether, AddTimeout(c, s.timeout, e, value, 0, now)), Ok)
    else if !s.filled && e.addMac then
      (Slot(true, true, e.ether, AddTimeout(c, s.timeout, e, value, START_STORED_TIMEOUT, now)), Ok)
    else if !Rewritable(c, s, exist, now) then (s, Exists)
    else
      (Slot(true, s.filled, if s.filled && e.addMac && exist then e.ether else s.ether,
            AddTimeout(c, s.timeout, e, value, 0, now)), Ok)
  }

  /** What do_add leaves in the slot, the bit down while it is rewritten, and its outcome. */
  function DoAddSlot(s: Slot, e: Elem, exist: bool): (Slot, int) {
    if !s.bit then
      (s.(filled := e.addMac, ether := if e.addMac then e.ether else s.ether), if e.addMac then 0 else STORE_PLAIN_TIMEOUT)
    else if !s.filled && e.addMac then (s.(bit := false, filled := true, ether := e.ether), START_STORED_TIMEOUT)
    else if e.addMac && exist && s.ether != e.ether then (s.(bit := false, ether := e.ether), ADD_FAILED)
    else (s, ADD_FAILED)
  }

  /** The add, put together from do_add and what mtype_add makes of its outcome. */
  lemma AddInSteps(c: Config, s: Slot, e: Elem, value: nat, exist: bool, now: nat)
    ensures var (d, mode) := DoAddSlot(s, e, exist);
            var expired := mode == ADD_FAILED && Expired(c, d.timeout, now);
            if mode == ADD_FAILED && !expired && !exist then AddSlot(c, s, e, value, exist, now) == (d.(bit := true), Exists)
            else AddSlot(c, s, e, value, exist, now) ==
                 (d.(bit := true, timeout := AddTimeout(c, d.timeout, e, value, if expired then 0 else mode, now)), Ok)
    ensures DoAddSlot(s, e, exist).1 > 0 <==> s.bit
    ensures DoAddSlot(s, e, exist).1 in {STORE_PLAIN_TIMEOUT, 0, ADD_FAILED, START_STORED_TIMEOUT}
  {
  }

  /** An unfilled element is not running a timer, so gc leaves it alone. */
  predicate Collected(c: Config, s: Slot, now: nat) {
    s.bit && s.filled && Expired(c, s.timeout, now)
  }

  /** mtype_del() on its slot. */
  function DelSlot(c: Config, s: Slot, now: nat): (Slot, Ret) {
    (s.(bit := false), if s.bit && !Expired(c, s.timeout, now) then Ok else Exists)
  }

  function TestSlot(s: Slot, e: Elem): TestRet {
    if !s.bit then No
    else if e.addMac && s.filled then if e.ether == s.ether then Yes else No
    else Again
  }

  // ---------- What follows about single elements ----------

  /** A running timeout is over from the tick after it on. */
  ghost predicate Over(c: Config, s: Slot, now: nat) {
    c.withTimeout && s.timeout != 0 && now > s.timeout
  }

  /** An add is refused exactly for an element that is there, not over, not completed by it and not to be overwritten. */
  lemma AddIff(c: Config, s: Slot, e: Elem, value: nat, exist: bool, now: nat)
    ensures var (r, ret) := AddSlot(c, s, e, value, exist, now);
            && (ret == Exists <==> s.bit && !(e.addMac && !s.filled) && !exist && !Over(c, s, now))
            && (ret == Exists ==> r == s)
            && (ret == Ok ==>
                  && r.bit && (r.filled <==> (s.bit && s.filled) || e.addMac)
                  && r.ether == if e.addMac && (!s.bit || !s.filled || exist) then e.ether else s.ether)
  {
  }

  /** How long an added element lasts: with its MAC from now on, without it the timeout is kept for later. */
  lemma AddLasts(c: Config, s: Slot, e: Elem, value: nat, exist: bool, now: nat, t: nat)
    requires AddSlot(c, s, e, value, exist, now).1 == Ok && t >= now
    ensures var r := AddSlot(c, s, e, value, exist, now).0;
            var lasts := if s.bit && !s.filled && value == c.timeout then s.timeout else value;
            && (e.addMac ==> (Over(c, r, t) <==> c.withTimeout && lasts != 0 && t > now + lasts))
            && (!e.addMac && c.withTimeout ==> r.timeout == value)
            && (!c.withTimeout ==> r.timeout == s.timeout)
  {
  }

  /** A delete clears the bit and succeeds exactly for an element that is there and not over. */
  lemma DelIff(c: Config, s: Slot, now: nat)
    ensures var (r, ret) := DelSlot(c, s, now);
            r == s.(bit := false) && (ret == Ok <==> s.bit && !Over(c, s, now))
  {
  }

  /** A test answers yes exactly for an element that is there with the MAC given, and asks for a MAC that is missing. */
  lemma TestIff(s: Slot, e: Elem)
    ensures TestSlot(s, e) == Yes <==> s.bit && s.filled && e.addMac && s.ether == e.ether
    ensures TestSlot(s, e) == Again <==> s.bit && (!s.filled || !e.addMac)
  {
  }

  /**
   After an add with a MAC that reports success the stored MAC is the requested one, except exactly when
   an expired element is revived without the exist flag: then the old MAC stays.
   */
  lemma AddStoresMacIff(c: Config, s: Slot, e: Elem, value: nat, exist: bool, now: nat)
    requires e.addMac && AddSlot(c, s, e, value, exist, now).1 == Ok
    ensures TestSlot(AddSlot(c, s, e, value, exist, now).0, e) == Yes
            <==> !(s.bit && s.filled && !exist && s.ether != e.ether)
  {
  }

  lemma RevivedWithOldMac()
    ensures var c := Config(true, 600);
            var r := AddSlot(c, Slot(true, true, 7, 10), Elem(0, 9, true), 600, false, 20);
            r.1 == Ok && r.0.ether == 7 && TestSlot(r.0, Elem(0, 9, true)) == No
  {
  }

  /** Stored first and completed later, the timeout given first counts from the completion. */
  lemma CompletedTimeout(c: Config, s: Slot, ether: int, id: nat, first: nat, then_: nat, later: nat)
    requires c.withTimeout && !s.bit
    ensures var a := AddSlot(c, s, Elem(id, 0, false), first, false, then_).0;
            var b := AddSlot(c, a, Elem(id, ether, true), c.timeout, false, later);
            b == (Slot(true, true, ether, Deadline(first, later)), Ok)
  {
  }

  /**
   An element still waiting for its MAC never expires, but its stored timeout is read as a time: from
   then on a delete removes it and reports it missing, and it can be added again without the exist flag.
   */
  lemma WaitingTakenForExpired(c: Config, s: Slot, id: nat, value: nat, then_: nat, now: nat)
    requires c.withTimeout && !s.bit
    ensures var a := AddSlot(c, s, Elem(id, 0, false), value, false, then_).0;
            && a.bit && !Collected(c, a, now)
            && (DelSlot(c, a, now).1 == Exists <==> 0 < value < now)
            && (AddSlot(c, a, Elem(id, 0, false), value, false, now).1 == Ok <==> 0 < value < now)
  {
  }

  // ---------- The set in memory ----------

  class BitmapSet {
    const c: Config
    const members: array<bool>
    const filled: array<bool>
    const ether: array<int>
    const timeout: array<nat>
    var elements: int

    /** The bit numbers that are set. */
    ghost function Bits(): set<nat>
      reads members
    {
      set i: nat | i < members.Length && members[i]
    }

    function At(i: nat): Slot
      requires Shape() && i < members.Length
      reads members, filled, ether, timeout
    {
      Slot(members[i], filled[i], ether[i], timeout[i])
    }

    predicate Shape() {
      && members.Length == filled.Length == ether.Length == timeout.Length <= 0x1_0000
      && members != filled
    }

    /** The counter is the number of set bits. */
    ghost predicate Valid()
      reads this, members
    {
      Shape() && elements == |Bits()|
    }

    constructor (c: Config, n: nat)
      requires n <= 0x1_0000
      ensures Valid() && this.c == c && members.Length == n && Bits() == {}
      ensures fresh(members) && fresh(filled) && fresh(ether) && fresh(timeout)
    {
      this.c := c;
      members := new bool[n](_ => false);
      filled := new bool[n](_ => false);
      ether := new int[n](_ => 0);
      timeout := new nat[n](_ => 0);
      elements := 0;
    }

    method SetBit(i: nat)
      requires i < members.Length
      modifies members
      ensures members[i] && forall k :: 0 <= k < members.Length && k != i ==> members[k] == old(members[k])
      ensures Bits() == old(Bits()) + {i}
    {
      members[i] := true;
    }

    method ClearBit(i: nat)
      requires i < members.Length
      modifies members
      ensures !members[i] && forall k :: 0 <= k < members.Length && k != i ==> members[k] == old(members[k])
      ensures Bits() == old(Bits()) - {i}
    {
      members[i] := false;
    }

    /** bitmap_ipmac_do_add(): the bit is down while the MAC is written. */
    method DoAdd(e: Elem, exist: bool) returns (mode: int)
      requires Shape() && e.id < members.Length
      modifies members, filled, ether
      ensures forall k :: 0 <= k < members.Length && k != e.id ==> At(k) == old(At(k))
      ensures Bits() - {e.id} == old(Bits()) - {e.id}
      ensures (At(e.id), mode) == DoAddSlot(old(At(e.id)), e, exist)
    {
      var id := e.id;
      if members[id] {
        if filled[id] {
          if e.addMac && exist && e.ether != ether[id] {
            ClearBit(id);
            ether[id] := e.ether;
          }
          return ADD_FAILED;
        } else if !e.addMac {
          return ADD_FAILED;
        }
        ClearBit(id);
        ether[id] := e.ether;
        filled[id] := true;
        return START_STORED_TIMEOUT;
      } else if e.addMac {
        ether[id] := e.ether;
        filled[id] := true;
        return 0;
      }
      filled[id] := false;
      mode := STORE_PLAIN_TIMEOUT;
    }

    /** The bits besides i, and i. */
    lemma Split(i: nat)
      requires i < members.Length
      ensures Bits() == if members[i] then (Bits() - {i}) + {i} else Bits() - {i}
      ensures |Bits()| == |Bits() - {i}| + if members[i] then 1 else 0
    {
    }

    /** mtype_add(). */
    method Add(e: Elem, value: nat, exist: bool, now: nat) returns (ret: Ret)
      requires Valid() && e.id < members.Length
      modifies this`elements, members, filled, ether, timeout
      ensures Valid() && Bits() == old(Bits()) + {e.id}
      ensures (At(e.id), ret) == AddSlot(c, old(At(e.id)), e, value, exist, now)
      ensures forall k :: 0 <= k < members.Length && k != e.id ==> At(k) == old(At(k))
      ensures ret == Exists <==> old(members[e.id]) && !(e.addMac && !old(filled[e.id])) && !exist
                                 && !Over(c, old(At(e.id)), now)
    {
      hide Bits, AddSlot, DoAddSlot, AddTimeout, Expired;
      var id := e.id;
      ghost var s, others := At(id), Bits() - {id};
      Split(id);
      assert Bits() + {id} == others + {id};
      AddInSteps(c, s, e, value, exist, now);
      AddIff(c, s, e, value, exist, now);
      var mode := DoAdd(e, exist);
      assert Bits() - {id} == others;
      Split(id);
      if mode == ADD_FAILED {
        if Expired(c, timeout[id], now) {
          elements := elements - 1;
          mode := 0;
        } else if !exist {
          SetBit(id);
          assert Bits() == others + {id};
          Split(id);
          return Exists;
        }
      }
      if mode > 0 {
        elements := elements - 1;
      }
      Activate(id, AddTimeout(c, timeout[id], e, value, mode, now));
      ret := Ok;
    }

    /** The slot is counted again from here on. */
    method Activate(id: nat, t: nat)
      requires Shape() && id < members.Length && elements == |Bits() - {id}|
      modifies this`elements, members, timeout
      ensures Valid() && Bits() == (old(Bits()) - {id}) + {id}
      ensures At(id) == old(At(id)).(bit := true, timeout := t)
      ensures forall k :: 0 <= k < members.Length && k != id ==> At(k) == old(At(k))
    {
      ghost var others := Bits() - {id};
      timeout[id] := t;
      SetBit(id);
      assert Bits() - {id} == others;
      Split(id);
      elements := elements + 1;
    }

    /** mtype_del(): an element whose time is up is removed but reported missing. */
    method Del(id: nat, now: nat) returns (ret: Ret)
      requires Valid() && id < members.Length
      modifies this`elements, members
      ensures Valid() && Bits() == old(Bits()) - {id}
      ensures (At(id), ret) == DelSlot(c, old(At(id)), now)
      ensures forall k :: 0 <= k < members.Length && k != id ==> At(k) == old(At(k))
    {
      if !members[id] {
        return Exists;
      }
      ClearBit(id);
      elements := elements - 1;
      ret := if Expired(c, timeout[id], now) then Exists else Ok;
    }

    /** mtype_gc(). */
    method Gc(now: nat)
      requires Valid()
      modifies this`elements, members
      ensures Valid()
      ensures forall k :: 0 <= k < members.Length ==>
                At(k) == old(At(k)).(bit := old(members[k]) && !Collected(c, old(At(k)), now))
      ensures forall k :: 0 <= k < members.Length ==>
                (members[k] <==> old(members[k]) && !(filled[k] && c.withTimeout && timeout[k] != 0 && now > timeout[k]))
    {
      var id := 0;
      while id < members.Length
        invariant 0 <= id <= members.Length && Valid()
        invariant forall k :: 0 <= k < members.Length ==>
                    At(k) == if k < id then old(At(k)).(bit := old(members[k]) && !Collected(c, old(At(k)), now)) else old(At(k))
      {
        if members[id] && filled[id] {
          if Expired(c, timeout[id], now) {
            ClearBit(id);
            elements := elements - 1;
          }
        }
        id := id + 1;
      }
    }

    /** mtype_flush(). */
    method Flush()
      requires Valid()
      modifies this`elements, members
      ensures Valid() && Bits() == {}
      ensures forall k :: 0 <= k < members.Length ==> At(k) == old(At(k)).(bit := false)
    {
      forall k | 0 <= k < members.Length {
        members[k] := false;
      }
      elements := 0;
    }

    /** bitmap_ipmac_do_test(). */
    method Test(e: Elem) returns (ret: TestRet)
      requires Valid() && e.id < members.Length
      ensures ret == TestSlot(At(e.id), e)
      ensures ret == Yes <==> members[e.id] && filled[e.id] && e.addMac && ether[e.id] == e.ether
    {
      if !members[e.id] {
        return No;
      }
      if e.addMac && filled[e.id] {
        return if e.ether == ether[e.id] then Yes else No;
      }
      ret := Again;
    }

    method Do(op: Op, ghost s: seq<Slot>)
      requires Valid() && InRange(op, members.Length) && |s| == members.Length && forall k :: 0 <= k < |s| ==> At(k) == s[k]
      modifies this`elements, members, filled, ether, timeout
      ensures Valid() && forall k :: 0 <= k < members.Length ==> At(k) == Step(c, s, op)[k]
    {
      hide AddSlot, Collected, Bits;
      match op {
        case Put(e, value, exist, now) => var _ := Add(e, value, exist, now);
        case Remove(id, now) => var _ := Del(id, now);
        case Collect(now) => Gc(now);
        case Clear => Flush();
      }
    }

    /** Any sequence of operations: the slots are those of the specification, the counter counts them. */
    method Run(ops: seq<Op>, ghost start: seq<Slot>)
      requires Valid() && |start| == members.Length && forall k :: 0 <= k < |start| ==> At(k) == start[k]
      requires forall i :: 0 <= i < |ops| ==> InRange(ops[i], members.Length)
      modifies this`elements, members, filled, ether, timeout
      ensures Valid() && |After(c, start, ops)| == members.Length
      ensures forall k :: 0 <= k < members.Length ==> At(k) == After(c, start, ops)[k]
    {
      hide Step, Bits;
      var i := 0;
      ghost var slots := start;
      while i < |ops|
        invariant 0 <= i <= |ops| && Valid() && |slots| == members.Length
        invariant forall k :: 0 <= k < |slots| ==> At(k) == slots[k]
        invariant After(c, start, ops) == After(c, slots, ops[i..])
      {
        Do(ops[i], slots);
        slots := Step(c, slots, ops[i]);
        i := i + 1;
      }
    }
  }

  // ---------- Runs ----------

  datatype Op =
    | Put(elem: Elem, value: nat, exist: bool, now: nat)
    | Remove(id: nat, now: nat)
    | Collect(now: nat)
    | Clear

  predicate InRange(op: Op, n: nat) {
    match op
    case Put(e, _, _, _) => e.id < n
    case Remove(id, _) => id < n
    case _ => true
  }

  ghost function Step(c: Config, s: seq<Slot>, op: Op): (r: seq<Slot>)
    requires InRange(op, |s|)
    ensures |r| == |s|
  {
    match op
    case Put(e, value, exist, now) => s[e.id := AddSlot(c, s[e.id], e, value, exist, now).0]
    case Remove(id, _) => s[id := s[id].(bit := false)]
    case Collect(now) => seq(|s|, i requires 0 <= i < |s| => s[i].(bit := s[i].bit && !Collected(c, s[i], now)))
    case Clear => seq(|s|, i requires 0 <= i < |s| => s[i].(bit := false))
  }

  ghost function After(c: Config, s: seq<Slot>, ops: seq<Op>): (r: seq<Slot>)
    requires forall i :: 0 <= i < |ops| ==> InRange(ops[i], |s|)
    ensures |r| == |s|
    decreases |ops|
  {
    if ops == [] then s else After(c, Step(c, s, ops[0]), ops[1..])
  }
}
