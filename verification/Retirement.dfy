/**
 Retirement of a replaced hash table, as a state machine over the interleaved steps of one resizer
 and any number of users (kernel-side add and delete, gc, dump).

 Assumptions: an RCU grace period ends only after every section that had loaded the old table
 pointer has taken its reference or left; a user's decrement and its following look at `ref` are one
 step.  The resizer's two steps at the start (setting ref, taking its own reference) stay separate.
 */
module Retirement {
  /** A user outside, inside its RCU section with the table pointer loaded, or holding a reference. */
  datatype User = Idle | Reading(t: int) | Using(t: int)

  /** Where mtype_resize is, and with which old table. */
  datatype Resizer =
    | Quiet
    | Flagged(t: int)     // ref set to 1, own reference not yet taken
    | Copying(t: int)     // own reference taken
    | Undoing(t: int)     // failed: ref back to 0, own reference still held
    | Published(t: int)   // h->table replaced, waiting for the grace period
    | Draining(t: int)    // grace period over, own reference still held

  /** Tables are numbered in order of allocation; `freed` counts how often each was destroyed. */
  datatype State = State(current: int, ref: seq<bool>, uref: seq<int>, users: map<int, User>, resizer: Resizer,
                         freed: multiset<int>)

  datatype Step =
    | Load(u: int)      // rcu_read_lock, rcu_dereference(h->table)
    | Take(u: int)      // atomic_inc(&t->uref), rcu_read_unlock
    | Drop(u: int)      // a reader that takes no reference leaves its RCU section
    | Leave(u: int)     // atomic_dec_and_test(&t->uref) && atomic_read(&t->ref), destroy
    | SetRef | Hold | Fail | Undone | Publish | GraceEnd | Drain

  ghost predicate Enabled(s: State, a: Step) {
    match a
    case Load(u) => u in s.users && s.users[u].Idle?
    case Take(u) => u in s.users && s.users[u].Reading? && 0 <= s.users[u].t < |s.uref|
    case Drop(u) => u in s.users && s.users[u].Reading?
    case Leave(u) => u in s.users && s.users[u].Using? && 0 <= s.users[u].t < |s.uref| == |s.ref|
    case SetRef => s.resizer.Quiet? && 0 <= s.current < |s.ref|
    case Hold => s.resizer.Flagged? && 0 <= s.resizer.t < |s.uref|
    case Fail => s.resizer.Copying? && 0 <= s.resizer.t < |s.ref|
    case Undone => s.resizer.Undoing? && 0 <= s.resizer.t < |s.uref|
    case Publish => s.resizer.Copying?
    case GraceEnd => s.resizer.Published? && forall u :: u in s.users ==> s.users[u] != Reading(s.resizer.t)
    case Drain => s.resizer.Draining? && 0 <= s.resizer.t < |s.uref|
  }

  ghost function Do(s: State, a: Step): State
    requires Enabled(s, a)
  {
    match a
    case Load(u) => s.(users := s.users[u := Reading(s.current)])
    case Take(u) =>
      var t := s.users[u].t;
      s.(users := s.users[u := Using(t)], uref := s.uref[t := s.uref[t] + 1])
    case Drop(u) => s.(users := s.users[u := Idle])
    case Leave(u) =>
      var t := s.users[u].t;
      var left := s.uref[t] - 1;
      s.(users := s.users[u := Idle], uref := s.uref[t := left],
         freed := if left == 0 && s.ref[t] then s.freed + multiset{t} else s.freed)
    case SetRef => s.(ref := s.ref[s.current := true], resizer := Flagged(s.current))
    case Hold => s.(uref := s.uref[s.resizer.t := s.uref[s.resizer.t] + 1], resizer := Copying(s.resizer.t))
    case Fail => s.(ref := s.ref[s.resizer.t := false], resizer := Undoing(s.resizer.t))
    case Undone => s.(uref := s.uref[s.resizer.t := s.uref[s.resizer.t] - 1], resizer := Quiet)
    case Publish =>
      s.(current := |s.uref|, ref := s.ref + [false], uref := s.uref + [0], resizer := Published(s.resizer.t))
    case GraceEnd => s.(resizer := Draining(s.resizer.t))
    case Drain =>
      var t := s.resizer.t;
      var left := s.uref[t] - 1;
      s.(uref := s.uref[t := left], resizer := Quiet, freed := if left == 0 then s.freed + multiset{t} else s.freed)
  }

  ghost predicate Init(s: State) {
    && s.current == 0 && s.ref == [false] && s.uref == [0] && s.resizer == Quiet && s.freed == multiset{}
    && forall u :: u in s.users ==> s.users[u] == Idle
  }

  // ---------- The invariant ----------

  ghost function Users(s: State, t: int): set<int> {
    set u | u in s.users && s.users[u] == Using(t)
  }

  ghost predicate Holds(r: Resizer, t: int) {
    !r.Quiet? && !r.Flagged? && r.t == t
  }

  ghost predicate ResizerOk(s: State) {
    match s.resizer
    case Quiet => true
    case Flagged(t) => t == s.current
    case Copying(t) => t == s.current
    case Undoing(t) => t == s.current
    case Published(t) => 0 <= t < s.current
    case Draining(t) => 0 <= t < s.current
  }

  ghost predicate UserOk(s: State, u: User) {
    match u
    case Idle => true
    case Reading(t) => t == s.current || s.resizer == Published(t)
    case Using(t) => 0 <= t <= s.current
  }

  /** A table counts its users and the resizer. */
  ghost predicate Counted(s: State, t: int)
    requires 0 <= t < |s.uref|
  {
    s.uref[t] == |Users(s, t)| + if Holds(s.resizer, t) then 1 else 0
  }

  /** ref marks the replaced tables and the one being copied. */
  ghost predicate Marked(s: State, t: int)
    requires 0 <= t < |s.ref|
  {
    s.ref[t] <==> t != s.current || s.resizer == Flagged(t) || s.resizer == Copying(t)
  }

  /** A replaced table has been destroyed exactly once if nobody uses it, else not at all; the current one never. */
  ghost predicate FreedRight(s: State, t: int)
    requires 0 <= t < |s.uref|
  {
    s.freed[t] == if t != s.current && s.uref[t] == 0 then 1 else 0
  }

  ghost predicate Inv(s: State) {
    && s.current == |s.ref| - 1 == |s.uref| - 1 && s.current >= 0
    && ResizerOk(s) && (forall u :: u in s.users ==> UserOk(s, s.users[u]))
    && (forall t :: 0 <= t < |s.uref| ==> Counted(s, t) && Marked(s, t) && FreedRight(s, t))
    && (forall t :: t in s.freed ==> 0 <= t < |s.uref|)
  }

  /** The race: the last user leaves the table between the resizer's first two steps. */
  ghost predicate Race(s: State, a: Step) {
    && a.Leave? && Enabled(s, a) && s.resizer == Flagged(s.users[a.u].t) && s.uref[s.users[a.u].t] == 1
  }

  // ---------- Safety ----------

  /** No table in use is destroyed, the current one least of all, and none is destroyed twice. */
  ghost predicate Safe(s: State) {
    && s.freed[s.current] == 0
    && (forall t :: s.freed[t] <= 1)
    && (forall u :: u in s.users && !s.users[u].Idle? ==> s.freed[s.users[u].t] == 0)
    && (!s.resizer.Quiet? ==> s.freed[s.resizer.t] == 0)
  }

  /** Nothing leaks: a replaced table without users is destroyed. */
  ghost predicate Reclaimed(s: State) {
    forall t :: 0 <= t < s.current && Users(s, t) == {} && !Holds(s.resizer, t) ==> s.freed[t] == 1
  }

  lemma UserMoves(s: State, s': State, u: int, t: int)
    requires u in s.users && u in s'.users && s'.users == s.users[u := s'.users[u]]
    ensures |Users(s', t)| == |Users(s, t)|
                              - (if s.users[u] == Using(t) then 1 else 0) + if s'.users[u] == Using(t) then 1 else 0
  {
    var rest := Users(s, t) - {u};
    assert Users(s, t) == if s.users[u] == Using(t) then rest + {u} else rest;
    assert Users(s', t) == if s'.users[u] == Using(t) then rest + {u} else rest;
  }

  lemma InvUser(s: State, a: Step)
    requires Inv(s) && Enabled(s, a) && (a.Load? || a.Take? || a.Drop? || a.Leave?) && !Race(s, a)
    ensures Inv(Do(s, a))
  {
    var s' := Do(s, a);
    forall t | 0 <= t < |s'.uref|
      ensures Counted(s', t) && Marked(s', t) && FreedRight(s', t)
    {
      UserMoves(s, s', a.u, t);
      assert Counted(s, t) && Marked(s, t) && FreedRight(s, t);
    }
    assert UserOk(s, s.users[a.u]);
  }

  lemma InvResizer(s: State, a: Step)
    requires Inv(s) && Enabled(s, a) && !(a.Load? || a.Take? || a.Drop? || a.Leave?)
    ensures Inv(Do(s, a))
  {
    var s' := Do(s, a);
    NoneYet(s, |s.uref|);
    forall t | 0 <= t < |s'.uref|
      ensures Counted(s', t) && Marked(s', t) && FreedRight(s', t)
    {
      assert Users(s', t) == Users(s, t);
      if t < |s.uref| {
        assert Counted(s, t) && Marked(s, t) && FreedRight(s, t);
      }
    }
    forall u | u in s'.users
      ensures UserOk(s', s'.users[u])
    {
      assert UserOk(s, s.users[u]);
    }
  }

  lemma NoneYet(s: State, t: int)
    requires Inv(s) && t >= |s.uref|
    ensures Users(s, t) == {}
  {
    forall u | u in s.users
      ensures s.users[u] != Using(t)
    {
      assert UserOk(s, s.users[u]);
    }
  }

  lemma InvStep(s: State, a: Step)
    requires Inv(s) && Enabled(s, a) && !Race(s, a)
    ensures Inv(Do(s, a))
  {
    if a.Load? || a.Take? || a.Drop? || a.Leave? {
      InvUser(s, a);
    } else {
      InvResizer(s, a);
    }
  }

  lemma UsersPositive(s: State, u: int)
    requires u in s.users && s.users[u].Using?
    ensures |Users(s, s.users[u].t)| > 0
  {
    assert u in Users(s, s.users[u].t);
  }

  lemma InvSafe(s: State)
    requires Inv(s)
    ensures Safe(s) && Reclaimed(s)
  {
    assert FreedRight(s, s.current);
    forall t
      ensures s.freed[t] <= 1
    {
      assert 0 <= t < |s.uref| ==> FreedRight(s, t);
    }
    forall u | u in s.users && !s.users[u].Idle?
      ensures s.freed[s.users[u].t] == 0
    {
      assert UserOk(s, s.users[u]);
      var t := s.users[u].t;
      assert Counted(s, t) && FreedRight(s, t);
      if s.users[u].Using? {
        UsersPositive(s, u);
      }
    }
    if !s.resizer.Quiet? {
      assert Counted(s, s.resizer.t) && FreedRight(s, s.resizer.t);
    }
    forall t | 0 <= t < s.current && Users(s, t) == {} && !Holds(s.resizer, t)
      ensures s.freed[t] == 1
    {
      assert Counted(s, t) && FreedRight(s, t);
    }
  }

  /** The race destroys the current table. */
  lemma RaceUnsafe(s: State, a: Step)
    requires Inv(s) && Race(s, a)
    ensures !Safe(Do(s, a))
  {
    var t := s.users[a.u].t;
    assert Marked(s, t) && FreedRight(s, t);
  }

  // ---------- Runs ----------

  ghost predicate IsRun(states: seq<State>, steps: seq<Step>) {
    && |states| == |steps| + 1 && Init(states[0])
    && forall i :: 0 <= i < |steps| ==> Enabled(states[i], steps[i]) && states[i + 1] == Do(states[i], steps[i])
  }

  lemma InitInv(s: State)
    requires Init(s)
    ensures Inv(s)
  {
    forall u | u in s.users
      ensures s.users[u] != Using(0)
    {
      assert s.users[u] == Idle;
    }
    assert Users(s, 0) == {};
  }

  lemma {:induction false} RunInv(states: seq<State>, steps: seq<Step>, n: int)
    requires IsRun(states, steps) && 0 <= n <= |steps|
    requires forall i :: 0 <= i < n ==> !Race(states[i], steps[i])
    ensures Inv(states[n])
  {
    if n == 0 {
      InitInv(states[0]);
    } else {
      RunInv(states, steps, n - 1);
      InvStep(states[n - 1], steps[n - 1]);
    }
  }

  /** A run is safe throughout exactly when no last user leaves between the resizer's first two steps. */
  lemma RunSafeIff(states: seq<State>, steps: seq<Step>)
    requires IsRun(states, steps)
    ensures (forall i :: 0 <= i <= |steps| ==> Safe(states[i])) <==> (forall i :: 0 <= i < |steps| ==> !Race(states[i], steps[i]))
  {
    if forall i :: 0 <= i < |steps| ==> !Race(states[i], steps[i]) {
      forall i | 0 <= i <= |steps|
        ensures Safe(states[i])
      {
        RunInv(states, steps, i);
        InvSafe(states[i]);
      }
    } else {
      var i := FirstRace(states, steps, 0);
      RunInv(states, steps, i);
      RaceUnsafe(states[i], steps[i]);
      assert !Safe(states[i + 1]);
    }
  }

  lemma FirstRace(states: seq<State>, steps: seq<Step>, from: int) returns (i: int)
    requires IsRun(states, steps) && 0 <= from < |steps|
    requires forall k :: 0 <= k < from ==> !Race(states[k], steps[k])
    requires exists k :: 0 <= k < |steps| && Race(states[k], steps[k])
    ensures 0 <= i < |steps| && Race(states[i], steps[i])
    ensures forall k :: 0 <= k < i ==> !Race(states[k], steps[k])
    decreases |steps| - from
  {
    if Race(states[from], steps[from]) {
      i := from;
    } else {
      i := FirstRace(states, steps, from + 1);
    }
  }

  /** Without the race every replaced table is destroyed once it has no users. */
  lemma RunReclaims(states: seq<State>, steps: seq<Step>, n: int)
    requires IsRun(states, steps) && 0 <= n <= |steps|
    requires forall i :: 0 <= i < n ==> !Race(states[i], steps[i])
    ensures Reclaimed(states[n])
  {
    RunInv(states, steps, n);
    InvSafe(states[n]);
  }

  /** The resizer sets ref and takes its reference in one go. */
  ghost predicate AtomicStart(steps: seq<Step>) {
    forall i :: 0 <= i < |steps| && steps[i] == SetRef && i + 1 < |steps| ==> steps[i + 1] == Hold
  }

  lemma {:induction false} FlaggedAfterSetRef(states: seq<State>, steps: seq<Step>, n: int)
    requires IsRun(states, steps) && AtomicStart(steps) && 0 <= n <= |steps| && states[n].resizer.Flagged?
    ensures n > 0 && steps[n - 1] == SetRef
  {
    if n > 0 && states[n - 1].resizer.Flagged? {
      FlaggedAfterSetRef(states, steps, n - 1);
    }
  }

  /** With an atomic start every run is safe. */
  lemma AtomicStartSafe(states: seq<State>, steps: seq<Step>)
    requires IsRun(states, steps) && AtomicStart(steps)
    ensures forall i :: 0 <= i <= |steps| ==> Safe(states[i]) && Reclaimed(states[i])
  {
    forall i | 0 <= i < |steps|
      ensures !Race(states[i], steps[i])
    {
      if states[i].resizer.Flagged? {
        FlaggedAfterSetRef(states, steps, i);
      }
    }
    forall i | 0 <= i <= |steps|
      ensures Safe(states[i]) && Reclaimed(states[i])
    {
      RunInv(states, steps, i);
      InvSafe(states[i]);
    }
  }

  /** A run that destroys the current table: one user, leaving between the resizer's two steps. */
  lemma RaceHappens() returns (states: seq<State>, steps: seq<Step>)
    ensures IsRun(states, steps) && steps == [Load(0), Take(0), SetRef, Leave(0)]
    ensures states[4].current == 0 && states[4].freed[0] == 1
  {
    var s0 := State(0, [false], [0], map[0 := Idle], Quiet, multiset{});
    var s1 := Do(s0, Load(0));
    var s2 := Do(s1, Take(0));
    var s3 := Do(s2, SetRef);
    var s4 := Do(s3, Leave(0));
    states, steps := [s0, s1, s2, s3, s4], [Load(0), Take(0), SetRef, Leave(0)];
  }

  // ---------- Nobody is stuck ----------

  /** In every reachable state a user can go on from where it is, and so can the resizer, but for the grace period. */
  lemma CanGoOn(s: State, u: int)
    requires Inv(s)
    ensures u in s.users ==>
              match s.users[u]
              case Idle => Enabled(s, Load(u))
              case Reading(_) => Enabled(s, Take(u)) && Enabled(s, Drop(u))
              case Using(_) => Enabled(s, Leave(u))
    ensures match s.resizer
            case Quiet => Enabled(s, SetRef)
            case Flagged(_) => Enabled(s, Hold)
            case Copying(_) => Enabled(s, Fail) && Enabled(s, Publish)
            case Undoing(_) => Enabled(s, Undone)
            case Published(t) => (forall v :: v in s.users ==> s.users[v] != Reading(t)) ==> Enabled(s, GraceEnd)
            case Draining(_) => Enabled(s, Drain)
  {
    if u in s.users {
      assert UserOk(s, s.users[u]);
    }
  }

  /** The states of a resize with user 0 inside all along and user 1 coming after it. */
  ghost function Resized(n: nat): State {
    var m := multiset{};
    match n
    case 0 => State(0, [false], [0], map[0 := Idle, 1 := Idle], Quiet, m)
    case 1 => State(0, [false], [0], map[0 := Reading(0), 1 := Idle], Quiet, m)
    case 2 => State(0, [false], [1], map[0 := Using(0), 1 := Idle], Quiet, m)
    case 3 => State(0, [true], [1], map[0 := Using(0), 1 := Idle], Flagged(0), m)
    case 4 => State(0, [true], [2], map[0 := Using(0), 1 := Idle], Copying(0), m)
    case 5 => State(1, [true, false], [2, 0], map[0 := Using(0), 1 := Idle], Published(0), m)
    case 6 => State(1, [true, false], [2, 0], map[0 := Using(0), 1 := Idle], Draining(0), m)
    case 7 => State(1, [true, false], [1, 0], map[0 := Using(0), 1 := Idle], Quiet, m)
    case 8 => State(1, [true, false], [1, 0], map[0 := Using(0), 1 := Reading(1)], Quiet, m)
    case 9 => State(1, [true, false], [1, 1], map[0 := Using(0), 1 := Using(1)], Quiet, m)
    case 10 => State(1, [true, false], [0, 1], map[0 := Idle, 1 := Using(1)], Quiet, multiset{0})
    case _ => State(1, [true, false], [0, 0], map[0 := Idle, 1 := Idle], Quiet, multiset{0})
  }

  ghost predicate Leads(n: nat, a: Step) {
    Enabled(Resized(n), a) && Do(Resized(n), a) == Resized(n + 1)
  }

  lemma ResizedBefore()
    ensures Leads(0, Load(0)) && Leads(1, Take(0)) && Leads(2, SetRef) && Leads(3, Hold) && Leads(4, Publish)
  {
  }

  lemma ResizedAfter()
    ensures Leads(5, GraceEnd) && Leads(6, Drain) && Leads(7, Load(1))
  {
  }

  lemma ResizedTaken()
    ensures Leads(8, Take(1))
  {
  }

  /** The last user of the old table destroys it. */
  lemma ResizedLeft()
    ensures Leads(9, Leave(0))
  {
    var s, s' := Resized(9), Do(Resized(9), Leave(0));
    assert s.users[0] == Using(0) && s.uref[0] == 1 && s.ref[0];
    assert s'.freed == multiset{0} && s'.uref == [0, 1];
  }

  lemma ResizedLast()
    ensures Leads(10, Leave(1))
  {
    var s, s' := Resized(10), Do(Resized(10), Leave(1));
    assert s.users[1] == Using(1) && s.uref[1] == 1 && !s.ref[1];
    assert s'.uref == [0, 0];
  }

  /** So a whole resize can happen: the old table is destroyed once, when its last user leaves, and the new one is not. */
  lemma ResizeHappens() returns (states: seq<State>, steps: seq<Step>)
    ensures IsRun(states, steps)
    ensures steps == [Load(0), Take(0), SetRef, Hold, Publish, GraceEnd, Drain, Load(1), Take(1), Leave(0), Leave(1)]
    ensures states[7].resizer == Quiet && states[7].current == 1 && states[7].freed == multiset{}
    ensures states[11].current == 1 && states[11].freed == multiset{0}
  {
    hide Do, Enabled, Init, Resized;
    states := seq(12, (n: nat) => Resized(n));
    steps := [Load(0), Take(0), SetRef, Hold, Publish, GraceEnd, Drain, Load(1), Take(1), Leave(0), Leave(1)];
    ResizedBefore();
    ResizedAfter();
    ResizedTaken();
    ResizedLeft();
    ResizedLast();
    ResizedEnds();
    forall i | 0 <= i < |steps|
      ensures Leads(i, steps[i])
    {
    }
  }

  lemma ResizedEnds()
    ensures Init(Resized(0))
    ensures Resized(7).resizer == Quiet && Resized(7).current == 1 && Resized(7).freed == multiset{}
    ensures Resized(11).current == 1 && Resized(11).freed == multiset{0}
  {
  }
}
