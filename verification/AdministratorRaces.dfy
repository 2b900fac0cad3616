/**
 Changes of users as they interleave: the guards of `updateUser` and `deleteUser` are read outside any
 transaction, so other calls may come between a guard and the write it allows.
 */
module AdministratorRaces {
  import opened Wrappers
  import opened AccessTables
  import opened AccessControl
  import opened Collections
  import UserDeletion

  type Users = map<int, UserRow>

  datatype Change = Update(role: Option<SystemRole>, active: Option<bool>) | Delete(receiver: int)
  datatype Call = Call(subject: Subject, target: int, change: Change)

  /**
   Looked: the guards have seen this row of the target; Passed: they are passed; Fixed: the repository has
   read the row again and will write these columns.
   */
  datatype Phase = Looked(seen: UserRow) | Passed(seen: UserRow) | Fixed(seen: UserRow, row: UserRow) | Over
  datatype Flight = Flight(call: Call, phase: Phase)

  /**
   `undeletable` are the users whom an audit row names through a foreign key, `holders` those who own a
   group, a resource or a tag.
   */
  datatype State = State(users: Users, flights: seq<Flight>, undeletable: set<int>, holders: set<int>)
  {
    function With(i: nat, phase: Phase): State
      requires i < |flights|
    {
      this.(flights := flights[i := flights[i].(phase := phase)])
    }
  }

  /** Quit stands for a refusal or a failure at any point; the last three are what other calls do. */
  datatype Event =
    | Look(call: Call)
    | Count(i: nat)
    | Read(i: nat)
    | Write(i: nat)
    | Quit(i: nat)
    | Insert(id: int, row: UserRow)
    | Audit(user: int)
    | Regroup(holders: set<int>)

  predicate IsActiveSuperAdmin(row: UserRow) { row.role == SuperAdmin && row.active }

  function SuperAdmins(users: Users): set<int> {
    set u | u in users && IsActiveSuperAdmin(users[u])
  }

  /** The change takes the rights of an active super administrator, if it is applied to one. */
  predicate WouldRemove(change: Change) {
    change.Delete? || change.active == Some(false) || (change.role.Some? && change.role.value != SuperAdmin)
  }

  /** The guards that come before the count of the active super administrators. */
  predicate MayTry(users: Users, call: Call) {
    var s := call.subject;
    && call.target in users
    && match call.change
       case Update(role, active) =>
         && IsSystemAdministrator(s) && !(s.userId == call.target && active == Some(false))
         && (s.role == SuperAdmin || !(Privileged(users[call.target].role) || (role.Some? && Privileged(role.value))))
       case Delete(receiver) =>
         && s.role == SuperAdmin && s.userId != call.target && call.target != receiver
         && receiver in users && users[receiver].active
  }

  /** The guard that counts: it applies only if the row read first was that of an active super administrator. */
  predicate MustCount(f: Flight) {
    f.phase.Looked? && IsActiveSuperAdmin(f.phase.seen) && WouldRemove(f.call.change)
  }

  predicate Enabled(s: State, e: Event) {
    match e
    case Look(call) => MayTry(s.users, call)
    case Count(i) =>
      i < |s.flights| && s.flights[i].phase.Looked? && (MustCount(s.flights[i]) ==> |SuperAdmins(s.users)| > 1)
    case Read(i) =>
      && i < |s.flights| && s.flights[i].phase.Passed? && s.flights[i].call.change.Update?
      && s.flights[i].call.target in s.users
    case Write(i) =>
      i < |s.flights| && (s.flights[i].phase.Fixed? || (s.flights[i].phase.Passed? && MayDelete(s, s.flights[i].call)))
    case Quit(i) => i < |s.flights|
    case Insert(id, _) => id !in s.users
    case _ => true
  }

  /** The deletion transaction is not refused: `DeletionIsWrite` compares this with its statements. */
  predicate MayDelete(s: State, call: Call) {
    && call.change.Delete? && call.target in s.users && call.target !in s.undeletable
    && (call.change.receiver in s.users || call.target !in s.holders)
  }

  function Written(s: State, f: Flight): State {
    var target := f.call.target;
    if f.phase.Passed? && f.call.change.Delete? then
      s.(users := s.users - {target},
         holders := if target in s.holders then s.holders - {target} + {f.call.change.receiver} else s.holders)
    else if f.phase.Fixed? && target in s.users then
      s.(users := s.users[target := s.users[target].(role := f.phase.row.role, active := f.phase.row.active)])
    else s
  }

  function Step(s: State, e: Event): State
    requires Enabled(s, e)
  {
    match e
    case Look(call) => s.(flights := s.flights + [Flight(call, Looked(s.users[call.target]))])
    case Count(i) => s.With(i, Passed(s.flights[i].phase.seen))
    case Read(i) =>
      var call := s.flights[i].call;
      s.With(i, Fixed(s.flights[i].phase.seen, UpdatedRow(s.users[call.target], call.change.role, call.change.active)))
    case Write(i) => Written(s, s.flights[i]).With(i, Over)
    case Quit(i) => s.With(i, Over)
    case Insert(id, row) => s.(users := s.users[id := row])
    case Audit(user) => s.(undeletable := s.undeletable + {user})
    case Regroup(holders) => s.(holders := holders)
  }

  ghost predicate IsRun(s: State, events: seq<Event>)
    decreases |events|
  {
    events == [] || (Enabled(s, events[0]) && IsRun(Step(s, events[0]), events[1..]))
  }

  ghost function After(s: State, events: seq<Event>): State
    requires IsRun(s, events)
    decreases |events|
  {
    if events == [] then s else After(Step(s, events[0]), events[1..])
  }

  // ---------- When a super administrator is safe ----------

  /** The audit log keeps the call from deleting its target. */
  predicate Spared(s: State, call: Call) {
    call.change.Delete? && call.target in s.undeletable
  }

  /** Neither what the call still reads nor the audit log will keep it from removing its target. */
  predicate Threatens(s: State, f: Flight) {
    match f.phase
    case Looked(seen) => WouldRemove(f.call.change) && !IsActiveSuperAdmin(seen) && !Spared(s, f.call)
    case Passed(_) => WouldRemove(f.call.change) && !Spared(s, f.call)
    case Fixed(_, row) => !IsActiveSuperAdmin(row)
    case Over => false
  }

  ghost predicate Threatened(s: State, user: int) {
    exists i :: 0 <= i < |s.flights| && s.flights[i].call.target == user && Threatens(s, s.flights[i])
  }

  ghost predicate Safe(s: State, user: int) {
    user in SuperAdmins(s.users) && !Threatened(s, user)
  }

  /** Some active super administrator is not the target of any call that can still remove it. */
  ghost predicate Sheltered(s: State) {
    exists user :: Safe(s, user)
  }

  /** Everything but a passing count leaves a safe one safe. */
  lemma SafeStays(s: State, e: Event, user: int)
    requires Enabled(s, e) && Safe(s, user)
    requires e.Count? && MustCount(s.flights[e.i]) ==>
      s.flights[e.i].call.target != user || Spared(s, s.flights[e.i].call)
    ensures Safe(Step(s, e), user)
  {
    var t := Step(s, e);
    forall j | 0 <= j < |t.flights| && t.flights[j].call.target == user ensures !Threatens(t, t.flights[j]) {
      if j < |s.flights| { assert !Threatens(s, s.flights[j]); }
    }
    if e.Write? && s.flights[e.i].call.target == user { assert !Threatens(s, s.flights[e.i]); }
  }

  /**
   A count that passes keeps a shelter if and only if some super administrator is safe other than its
   target, or its target is and the audit log spares it.
   */
  lemma CountKeepsShelter(s: State, i: nat)
    requires Enabled(s, Count(i)) && MustCount(s.flights[i])
    ensures Sheltered(Step(s, Count(i))) <==>
      exists user :: Safe(s, user) && (user != s.flights[i].call.target || Spared(s, s.flights[i].call))
  {
    var t, call := Step(s, Count(i)), s.flights[i].call;
    assert t.flights[i].call == call && (Threatens(t, t.flights[i]) || Spared(s, call));
    if user :| Safe(s, user) && (user != call.target || Spared(s, call)) { SafeStays(s, Count(i), user); }
    if user :| Safe(t, user) {
      forall j | 0 <= j < |s.flights| && s.flights[j].call.target == user ensures !Threatens(s, s.flights[j]) {
        if j != i { assert t.flights[j] == s.flights[j]; }
      }
      assert Safe(s, user) && (user != call.target || Spared(s, call));
    }
  }

  // ---------- Main results ----------

  /** When a count passes, no other call threatens another active super administrator. */
  ghost predicate CountsAlone(s: State, e: Event) {
    e.Count? && e.i < |s.flights| && MustCount(s.flights[e.i]) ==>
      forall user :: user in SuperAdmins(s.users) && user != s.flights[e.i].call.target ==> !Threatened(s, user)
  }

  ghost predicate EveryCountAlone(s: State, events: seq<Event>)
    requires IsRun(s, events)
    decreases |events|
  {
    events == [] || (CountsAlone(s, events[0]) && EveryCountAlone(Step(s, events[0]), events[1..]))
  }

  lemma StepKeepsShelter(s: State, e: Event)
    requires Enabled(s, e) && Sheltered(s) && CountsAlone(s, e)
    ensures Sheltered(Step(s, e))
  {
    if e.Count? && MustCount(s.flights[e.i]) {
      var other := AnotherOne(SuperAdmins(s.users), s.flights[e.i].call.target);
      assert Safe(s, other);
      CountKeepsShelter(s, e.i);
    } else {
      var user :| Safe(s, user);
      SafeStays(s, e, user);
    }
  }

  /**
   However calls interleave, an active super administrator always remains if no count passes while
   another call is about to remove another one; in particular if such calls do not overlap.
   */
  lemma {:induction false} AdministratorRemains(s: State, events: seq<Event>)
    requires IsRun(s, events) && Sheltered(s) && EveryCountAlone(s, events)
    ensures Sheltered(After(s, events)) && SuperAdmins(After(s, events).users) != {}
    decreases |events|
  {
    if events == [] {
      var user :| Safe(s, user);
    } else {
      StepKeepsShelter(s, events[0]);
      AdministratorRemains(Step(s, events[0]), events[1..]);
    }
  }

  // ---------- Exactly when the calls under way can remove everyone ----------

  /** Only calls already under way go on, without any further count. */
  predicate IsDecided(s: State, e: Event) {
    match e
    case Count(i) => i < |s.flights| && !MustCount(s.flights[i])
    case Read(_) => true
    case Write(_) => true
    case Quit(_) => true
    case _ => false
  }

  ghost predicate Decided(s: State, events: seq<Event>)
    requires IsRun(s, events)
    decreases |events|
  {
    events == [] || (IsDecided(s, events[0]) && Decided(Step(s, events[0]), events[1..]))
  }

  /** No deletion hands its target over to itself, which `MayTry` sees to. */
  predicate WellFormed(s: State) {
    forall i :: 0 <= i < |s.flights| && s.flights[i].call.change.Delete? ==>
      s.flights[i].call.change.receiver != s.flights[i].call.target
  }

  lemma StepKeepsWellFormed(s: State, e: Event)
    requires Enabled(s, e) && WellFormed(s)
    ensures WellFormed(Step(s, e))
  {
  }

  predicate IsDeletion(f: Flight) { f.call.change.Delete? && !f.phase.Fixed? }

  /** The call deletes its target and hands over to a member of the ring, or to a user who is gone. */
  predicate StaysInside(s: State, ring: set<int>, f: Flight) {
    IsDeletion(f) && (f.call.change.receiver in ring || f.call.change.receiver !in s.users)
  }

  /** Nothing threatens the ring but deletions that hand over inside it. */
  ghost predicate Closed(s: State, ring: set<int>) {
    forall i :: 0 <= i < |s.flights| && s.flights[i].call.target in ring && Threatens(s, s.flights[i])
      ==> StaysInside(s, ring, s.flights[i])
  }

  /** The one who holds something cannot be deleted before having handed it to another one of the ring. */
  ghost predicate Anchors(s: State, user: int) {
    user in s.holders || !Threatened(s, user)
  }

  /**
   Active super administrators whom the calls under way cannot all remove: a safe one, or a closed ring
   in which somebody owns a group, a resource or a tag.
   */
  ghost predicate Refuge(s: State, ring: set<int>) {
    ring <= SuperAdmins(s.users) && Closed(s, ring) && exists user :: user in ring && Anchors(s, user)
  }

  lemma SafeIsRefuge(s: State, user: int)
    requires Safe(s, user)
    ensures Refuge(s, {user})
  {
    assert forall i :: 0 <= i < |s.flights| && s.flights[i].call.target == user ==> !Threatens(s, s.flights[i]);
    assert Anchors(s, user);
  }

  /** A call under way threatens nobody it did not threaten before. */
  lemma ThreatsShrink(s: State, e: Event, j: nat)
    requires Enabled(s, e) && IsDecided(s, e) && j < |s.flights| && s.flights[j].call.target in SuperAdmins(s.users)
    requires Threatens(Step(s, e), Step(s, e).flights[j])
    ensures Threatens(s, s.flights[j]) && IsDeletion(Step(s, e).flights[j]) == IsDeletion(s.flights[j])
  {
  }

  lemma RefugeStays(s: State, e: Event, ring: set<int>) returns (smaller: set<int>)
    requires Enabled(s, e) && IsDecided(s, e) && WellFormed(s) && Refuge(s, ring)
    ensures Refuge(Step(s, e), smaller)
  {
    var t := Step(s, e);
    if e.Write? && s.flights[e.i].phase.Passed? && s.flights[e.i].call.target in ring {
      smaller := RingMemberDeleted(s, e.i, ring);
    } else {
      smaller := ring;
      var user :| user in ring && Anchors(s, user);
      RingUntouched(s, e, ring);
      AnchorStays(s, e, user);
    }
  }

  lemma RingUntouched(s: State, e: Event, ring: set<int>)
    requires Enabled(s, e) && IsDecided(s, e) && ring <= SuperAdmins(s.users) && Closed(s, ring)
    requires !(e.Write? && s.flights[e.i].phase.Passed? && s.flights[e.i].call.target in ring)
    ensures ring <= SuperAdmins(Step(s, e).users) && Closed(Step(s, e), ring)
  {
    var t := Step(s, e);
    forall user | user in ring ensures user in SuperAdmins(t.users) {
      if e.Write? && s.flights[e.i].call.target == user {
        assert Threatens(s, s.flights[e.i]) ==> StaysInside(s, ring, s.flights[e.i]);
      }
    }
    forall j | 0 <= j < |t.flights| && t.flights[j].call.target in ring && Threatens(t, t.flights[j])
      ensures StaysInside(t, ring, t.flights[j])
    {
      ThreatsShrink(s, e, j);
      assert StaysInside(s, ring, s.flights[j]);
    }
  }

  lemma AnchorStays(s: State, e: Event, user: int)
    requires Enabled(s, e) && IsDecided(s, e) && Anchors(s, user) && user in SuperAdmins(s.users)
    requires !(e.Write? && s.flights[e.i].phase.Passed? && s.flights[e.i].call.target == user)
    ensures Anchors(Step(s, e), user)
  {
    var t := Step(s, e);
    if user !in t.holders {
      forall j | 0 <= j < |t.flights| && t.flights[j].call.target == user ensures !Threatens(t, t.flights[j]) {
        if Threatens(t, t.flights[j]) { ThreatsShrink(s, e, j); }
      }
    }
  }

  /** A member of the ring is deleted: whatever it held goes to another member. */
  lemma RingMemberDeleted(s: State, i: nat, ring: set<int>) returns (smaller: set<int>)
    requires Enabled(s, Write(i)) && WellFormed(s) && Refuge(s, ring)
    requires s.flights[i].phase.Passed? && s.flights[i].call.target in ring
    ensures Refuge(Step(s, Write(i)), smaller)
  {
    var t, target, receiver := Step(s, Write(i)), s.flights[i].call.target, s.flights[i].call.change.receiver;
    smaller := ring - {target};
    assert Threatens(s, s.flights[i]) && StaysInside(s, ring, s.flights[i]);
    forall j | 0 <= j < |t.flights| && t.flights[j].call.target in smaller && Threatens(t, t.flights[j])
      ensures StaysInside(t, smaller, t.flights[j])
    {
      ThreatsShrink(s, Write(i), j);
      assert StaysInside(s, ring, s.flights[j]);
    }
    var user :| user in ring && Anchors(s, user);
    if user == target {
      assert Threatened(s, target);
      assert receiver in smaller && Anchors(t, receiver);
    } else {
      AnchorStays(s, Write(i), user);
      assert user in smaller && Anchors(t, user);
    }
  }

  lemma {:induction false} DecidedKeepsRefuge(s: State, events: seq<Event>, ring: set<int>)
    requires IsRun(s, events) && Decided(s, events) && WellFormed(s) && Refuge(s, ring)
    ensures SuperAdmins(After(s, events).users) != {}
    decreases |events|
  {
    if events == [] {
      var user :| user in ring && Anchors(s, user);
    } else {
      StepKeepsWellFormed(s, events[0]);
      var smaller := RefugeStays(s, events[0], ring);
      DecidedKeepsRefuge(Step(s, events[0]), events[1..], smaller);
    }
  }

  /** The call threatens an active super administrator, and its deletion would not be refused. */
  predicate CanFinish(s: State, i: nat) {
    && i < |s.flights| && s.flights[i].call.target in SuperAdmins(s.users) && Threatens(s, s.flights[i])
    && (IsDeletion(s.flights[i]) ==>
          s.flights[i].call.change.receiver in s.users || s.flights[i].call.target !in s.holders)
  }

  /** Apart from its target, finishing a call leaves users, flights and the audit log alone. */
  ghost predicate OnlyRemoves(s: State, gone: set<int>, t: State) {
    && SuperAdmins(t.users) == SuperAdmins(s.users) - gone
    && t.undeletable == s.undeletable
    && (forall user :: user !in gone ==> (user in t.users <==> user in s.users))
    && |t.flights| == |s.flights|
    && forall j :: 0 <= j < |s.flights| && s.flights[j].call.target !in gone ==> t.flights[j] == s.flights[j]
  }

  lemma Finish(s: State, i: nat) returns (events: seq<Event>, t: State)
    requires CanFinish(s, i)
    ensures IsRun(s, events) && Decided(s, events) && t == After(s, events)
    ensures OnlyRemoves(s, {s.flights[i].call.target}, t)
    ensures s.flights[i].call.target !in s.holders ==> t.holders == s.holders
    decreases match s.flights[i].phase case Looked(_) => 3 case Passed(_) => 2 case Fixed(_, _) => 1 case Over => 0
  {
    var e := match s.flights[i].phase
      case Looked(_) => Count(i)
      case Passed(_) => if s.flights[i].call.change.Delete? then Write(i) else Read(i)
      case Fixed(_, _) => Write(i);
    if e.Write? {
      t := Step(s, e);
      events := [e];
      assert [e][1..] == [];
      assert SuperAdmins(t.users) == SuperAdmins(s.users) - {s.flights[i].call.target};
    } else {
      var later;
      later, t := Finish(Step(s, e), i);
      events := [e] + later;
      assert events[1..] == later;
    }
  }

  lemma {:induction false} DecidedConcat(s: State, a: seq<Event>, b: seq<Event>)
    requires IsRun(s, a) && Decided(s, a) && IsRun(After(s, a), b) && Decided(After(s, a), b)
    ensures IsRun(s, a + b) && Decided(s, a + b) && After(s, a + b) == After(After(s, a), b)
    decreases |a|
  {
    if a == [] {
      assert a + b == b;
    } else {
      DecidedConcat(Step(s, a[0]), a[1..], b);
      assert (a + b)[1..] == a[1..] + b;
    }
  }

  /** A ring whose members are all threatened and hold nothing can be removed. */
  lemma {:induction false} ClearRing(s: State, ring: set<int>) returns (events: seq<Event>, t: State)
    requires ring <= SuperAdmins(s.users)
    requires forall user :: user in ring ==> user !in s.holders && Threatened(s, user)
    ensures IsRun(s, events) && Decided(s, events) && t == After(s, events)
    ensures OnlyRemoves(s, ring, t)
    decreases |ring|
  {
    if ring == {} {
      events, t := [], s;
    } else {
      var user := SomeElement(ring);
      var i :| 0 <= i < |s.flights| && s.flights[i].call.target == user && Threatens(s, s.flights[i]);
      var first, middle := Finish(s, i);
      StillThreatened(s, {user}, middle, ring - {user});
      var later;
      later, t := ClearRing(middle, ring - {user});
      DecidedConcat(s, first, later);
      events := first + later;
    }
  }

  lemma StillThreatened(s: State, gone: set<int>, t: State, users: set<int>)
    requires OnlyRemoves(s, gone, t) && users !! gone
    requires forall user :: user in users ==> Threatened(s, user)
    ensures forall user :: user in users ==> Threatened(t, user)
  {
    forall user | user in users ensures Threatened(t, user) {
      var j :| 0 <= j < |s.flights| && s.flights[j].call.target == user && Threatens(s, s.flights[j]);
      assert t.flights[j] == s.flights[j];
    }
  }

  // ---------- An order in which receivers are still there ----------

  function TargetOf(s: State, i: nat): int {
    if i < |s.flights| then s.flights[i].call.target else 0
  }

  function Targets(s: State, order: seq<nat>): set<int> {
    if order == [] then {} else {TargetOf(s, order[0])} + Targets(s, order[1..])
  }

  /** The call threatens an active super administrator; a deletion hands over to somebody there but not among these. */
  predicate HandsOut(s: State, among: set<int>, i: nat) {
    && i < |s.flights| && s.flights[i].call.target in SuperAdmins(s.users) && Threatens(s, s.flights[i])
    && (IsDeletion(s.flights[i]) ==>
          s.flights[i].call.change.receiver in s.users && s.flights[i].call.change.receiver !in among)
  }

  /** With these users gone already, each call removes another one, and hands over to somebody not yet removed. */
  predicate Orderly(s: State, order: seq<nat>, gone: set<int>) {
    order == [] ||
    (&& TargetOf(s, order[0]) !in gone && HandsOut(s, gone + {TargetOf(s, order[0])}, order[0])
     && Orderly(s, order[1..], gone + {TargetOf(s, order[0])}))
  }

  /** Neither targets nor receivers of the calls are among these users. */
  predicate Outside(s: State, order: seq<nat>, among: set<int>) {
    order == [] || (TargetOf(s, order[0]) !in among && HandsOut(s, among, order[0]) && Outside(s, order[1..], among))
  }

  lemma {:induction false} MoreAreGone(s: State, order: seq<nat>, gone: set<int>, more: set<int>)
    requires Orderly(s, order, gone) && Outside(s, order, more)
    ensures Orderly(s, order, gone + more)
    decreases |order|
  {
    if order != [] {
      var target := TargetOf(s, order[0]);
      MoreAreGone(s, order[1..], gone + {target}, more);
      assert gone + {target} + more == gone + more + {target};
    }
  }

  lemma {:induction false} FewerOutside(s: State, order: seq<nat>, among: set<int>, fewer: set<int>)
    requires Outside(s, order, among) && fewer <= among
    ensures Outside(s, order, fewer)
    decreases |order|
  {
    if order != [] { FewerOutside(s, order[1..], among, fewer); }
  }

  /** Takes calls to the front of the order until only a closed ring is left. */
  lemma {:induction false} Arrange(s: State, order: seq<nat>) returns (all: seq<nat>)
    requires WellFormed(s) && Orderly(s, order, {}) && Outside(s, order, SuperAdmins(s.users) - Targets(s, order))
    ensures Orderly(s, all, {})
    ensures Closed(s, SuperAdmins(s.users) - Targets(s, all))
    ensures Outside(s, all, SuperAdmins(s.users) - Targets(s, all))
    decreases |SuperAdmins(s.users) - Targets(s, order)|
  {
    var rest := SuperAdmins(s.users) - Targets(s, order);
    if Closed(s, rest) {
      all := order;
    } else {
      var i: nat :| i < |s.flights| && s.flights[i].call.target in rest && Threatens(s, s.flights[i])
        && !StaysInside(s, rest, s.flights[i]);
      Prepend(s, i, order, rest);
      SmallerSet(rest - {TargetOf(s, i)}, rest);
      all := Arrange(s, [i] + order);
    }
  }

  lemma Prepend(s: State, i: nat, order: seq<nat>, rest: set<int>)
    requires Orderly(s, order, {}) && Outside(s, order, rest) && rest == SuperAdmins(s.users) - Targets(s, order)
    requires TargetOf(s, i) in rest && HandsOut(s, rest, i)
    ensures Orderly(s, [i] + order, {}) && Outside(s, [i] + order, rest - {TargetOf(s, i)})
    ensures SuperAdmins(s.users) - Targets(s, [i] + order) == rest - {TargetOf(s, i)}
  {
    var target, longer := TargetOf(s, i), [i] + order;
    assert longer[1..] == order;
    FewerOutside(s, order, rest, {target});
    MoreAreGone(s, order, {}, {target});
    assert {} + {target} == {target};
    FewerOutside(s, order, rest, rest - {target});
  }

  lemma OnlyRemovesMore(s: State, gone: set<int>, middle: State, more: set<int>, t: State)
    requires OnlyRemoves(s, gone, middle) && OnlyRemoves(middle, more, t)
    ensures OnlyRemoves(s, gone + more, t)
  {
  }

  /** The calls of an order can finish one after another, from any state in which just these users are gone. */
  lemma {:induction false} RunOrder(s: State, order: seq<nat>, gone: set<int>, current: State)
    returns (events: seq<Event>, t: State)
    requires Orderly(s, order, gone) && OnlyRemoves(s, gone, current)
    ensures IsRun(current, events) && Decided(current, events) && t == After(current, events)
    ensures OnlyRemoves(s, gone + Targets(s, order), t)
    decreases |order|
  {
    if order == [] {
      events, t := [], current;
      assert gone + Targets(s, order) == gone;
    } else {
      var i, target := order[0], TargetOf(s, order[0]);
      assert current.flights[i] == s.flights[i];
      var first, middle := Finish(current, i);
      OnlyRemovesMore(s, gone, current, {target}, middle);
      var later;
      later, t := RunOrder(s, order[1..], gone + {target}, middle);
      DecidedConcat(current, first, later);
      events := first + later;
      assert gone + {target} + Targets(s, order[1..]) == gone + Targets(s, order);
    }
  }

  // ---------- Main results about the calls under way ----------

  /** Without a refuge the calls under way can remove every active super administrator. */
  lemma UnrefugedLosesAll(s: State) returns (events: seq<Event>)
    requires WellFormed(s) && forall ring :: !Refuge(s, ring)
    ensures IsRun(s, events) && Decided(s, events) && SuperAdmins(After(s, events).users) == {}
  {
    var order := Arrange(s, []);
    var rest := SuperAdmins(s.users) - Targets(s, order);
    assert !Refuge(s, rest);
    forall user | user in rest ensures user !in s.holders && Threatened(s, user) {
      assert !Anchors(s, user);
    }
    var first, middle := ClearRing(s, rest);
    MoreAreGone(s, order, {}, rest);
    assert {} + rest == rest;
    var later, t := RunOrder(s, order, rest, middle);
    DecidedConcat(s, first, later);
    events := first + later;
    assert SuperAdmins(s.users) - (rest + Targets(s, order)) == {};
  }

  /**
   The calls under way can leave the system without an active super administrator if and only if there is
   no refuge: every one is the target of a call that nothing will stop, and every ring of them that is
   deleted only for the benefit of its own members or of users who are gone owns nothing.
   */
  lemma LosableExactlyWithoutRefuge(s: State)
    requires WellFormed(s)
    ensures (forall ring :: !Refuge(s, ring)) <==>
      exists events :: IsRun(s, events) && Decided(s, events) && SuperAdmins(After(s, events).users) == {}
  {
    if forall ring :: !Refuge(s, ring) {
      var events := UnrefugedLosesAll(s);
    } else {
      var ring :| Refuge(s, ring);
      forall events | IsRun(s, events) && Decided(s, events) ensures SuperAdmins(After(s, events).users) != {} {
        DecidedKeepsRefuge(s, events, ring);
      }
    }
  }

  /** Two active super administrators who disable each other at the same time both get through. */
  lemma TwoAdministratorsRemoveEachOther(s0: State, a: int, b: int) returns (events: seq<Event>)
    requires s0.flights == [] && a != b && SuperAdmins(s0.users) == {a, b}
    ensures IsRun(s0, events) && SuperAdmins(After(s0, events).users) == {}
  {
    var disable := Update(None, Some(false));
    var first, second := Call(Subject(a, SuperAdmin), b, disable), Call(Subject(b, SuperAdmin), a, disable);
    assert a in SuperAdmins(s0.users) && b in SuperAdmins(s0.users);
    var s1 := Step(s0, Look(first));
    var s2 := Step(s1, Look(second));
    assert |{a, b}| == 2;
    var s3 := Step(s2, Count(0));
    var s4 := Step(s3, Count(1));
    assert s4.flights[0].call.target == b && Threatens(s4, s4.flights[0]) && !IsDeletion(s4.flights[0]);
    assert s4.flights[1].call.target == a && Threatens(s4, s4.flights[1]) && !IsDeletion(s4.flights[1]);
    forall ring ensures !Refuge(s4, ring) {
      assert a in ring || b in ring ==> !Closed(s4, ring);
    }
    var later := UnrefugedLosesAll(s4);
    events := [Look(first)] + ([Look(second)] + ([Count(0)] + ([Count(1)] + later)));
    RunOfFirst(s3, Count(1), later);
    RunOfFirst(s2, Count(0), [Count(1)] + later);
    RunOfFirst(s1, Look(second), [Count(0)] + ([Count(1)] + later));
    RunOfFirst(s0, Look(first), [Look(second)] + ([Count(0)] + ([Count(1)] + later)));
  }

  lemma RunOfFirst(s: State, e: Event, later: seq<Event>)
    ensures IsRun(s, [e] + later) <==> Enabled(s, e) && IsRun(Step(s, e), later)
    ensures IsRun(s, [e] + later) ==> After(s, [e] + later) == After(Step(s, e), later)
  {
    assert ([e] + later)[1..] == later;
  }

  // ---------- The tables behind the state ----------

  ghost function Undeletable(t: Tables): set<int> {
    set u | u in t.users && UserDeletion.NamedInAudit(t, u)
  }

  ghost function Holders(t: Tables): set<int> {
    set u | u in t.users && UserDeletion.HasHoldings(t, u)
  }

  ghost function StateOf(t: Tables, flights: seq<Flight>): State {
    State(t.users, flights, Undeletable(t), Holders(t))
  }

  /** On valid tables the write of a deletion is the deletion transaction: refused with it, with the same result. */
  lemma DeletionIsWrite(t: Tables, flights: seq<Flight>, i: nat)
    requires Valid(t) && i < |flights| && flights[i].phase.Passed? && flights[i].call.change.Delete?
    requires flights[i].call.change.receiver != flights[i].call.target
    ensures var s, call := StateOf(t, flights), flights[i].call;
            var after := UserDeletion.DeleteUserRows(t, call.target, call.change.receiver);
            && (Enabled(s, Write(i)) <==> after.Some?)
            && (after.Some? ==> Step(s, Write(i)) == StateOf(after.value, s.With(i, Over).flights))
  {
    DeletionDecided(t, flights[i].call.target, flights[i].call.change.receiver);
  }

  /** When the deletion transaction is refused, and what it does to the users and those who own something. */
  lemma DeletionDecided(t: Tables, target: int, receiver: int)
    requires Valid(t) && receiver != target
    ensures var after := UserDeletion.DeleteUserRows(t, target, receiver);
            && (after.Some? <==>
                  target in t.users && target !in Undeletable(t) && (receiver in t.users || target !in Holders(t)))
            && (after.Some? ==> IsDeleted(t, target, receiver, after.value))
  {
    if target !in t.users {
      UserDeletion.UnknownUserIsRefused(t, target, receiver);
    } else if receiver in t.users {
      DecidedWithReceiver(t, target, receiver);
    } else {
      DecidedWithoutReceiver(t, target, receiver);
    }
  }

  lemma DecidedWithReceiver(t: Tables, target: int, receiver: int)
    requires Valid(t) && receiver != target && target in t.users && receiver in t.users
    ensures var after := UserDeletion.DeleteUserRows(t, target, receiver);
            && (after.Some? <==> !UserDeletion.NamedInAudit(t, target))
            && (after.Some? ==> IsDeleted(t, target, receiver, after.value))
  {
    TransfersAreDeletions(t, target, receiver);
    UserDeletion.DeletionTransfers(t, target, receiver);
  }

  lemma TransfersAreDeletions(t: Tables, target: int, receiver: int)
    requires receiver != target && {target, receiver} <= t.users.Keys
    ensures forall after ::
      UserDeletion.Deleted(t, target, receiver, after) ==> IsDeleted(t, target, receiver, after)
  {
    forall after | UserDeletion.Deleted(t, target, receiver, after) ensures IsDeleted(t, target, receiver, after) {
      DeletedWithReceiver(t, target, receiver, after);
    }
  }

  lemma DecidedWithoutReceiver(t: Tables, target: int, receiver: int)
    requires Valid(t) && target in t.users && receiver !in t.users
    ensures var after := UserDeletion.DeleteUserRows(t, target, receiver);
            && (after.Some? <==> !UserDeletion.NamedInAudit(t, target) && !UserDeletion.HasHoldings(t, target))
            && (after.Some? ==> IsDeleted(t, target, receiver, after.value))
  {
    UserDeletion.DeletionWithoutReceiver(t, target, receiver);
    var after := UserDeletion.DeleteUserRows(t, target, receiver);
    if after.Some? { DeletedWithoutReceiver(t, target, after.value); }
  }

  ghost predicate IsDeleted(t: Tables, target: int, receiver: int, after: Tables) {
    && after.users == t.users - {target} && Undeletable(after) == Undeletable(t)
    && Holders(after) == if target in Holders(t) then Holders(t) - {target} + {receiver} else Holders(t)
  }

  lemma DeletedWithReceiver(t: Tables, target: int, receiver: int, after: Tables)
    requires target != receiver && {target, receiver} <= t.users.Keys
    requires UserDeletion.Deleted(t, target, receiver, after)
    ensures after.users == t.users - {target} && Undeletable(after) == Undeletable(t)
    ensures Holders(after) == if target in Holders(t) then Holders(t) - {target} + {receiver} else Holders(t)
  {
    forall u ensures UserDeletion.HasHoldings(after, u) <==>
      u != target && (UserDeletion.HasHoldings(t, u) || (u == receiver && UserDeletion.HasHoldings(t, target)))
    {
      UserDeletion.HoldingsAfterDeletion(t, target, receiver, after, u);
    }
    assert target in t.users && receiver in t.users;
  }

  // ---------- What other calls do is a step as well ----------

  /** A new user, whatever the role. */
  lemma InsertionIsStep(t: Tables, flights: seq<Flight>, id: int, name: string, role: SystemRole)
    requires Valid(t) && id > 0 && id !in t.users && InsertUser(t, id, name, role).Ok?
    ensures var s, e := StateOf(t, flights), Insert(id, UserRow(name, role, true));
            Enabled(s, e) && Step(s, e) == StateOf(InsertUser(t, id, name, role).value, flights)
  {
    var after := InsertUser(t, id, name, role).value;
    NewUserHoldsNothing(t, id);
    assert forall u :: UserDeletion.NamedInAudit(after, u) <==> UserDeletion.NamedInAudit(t, u);
    assert Undeletable(after) == Undeletable(t) && Holders(after) == Holders(t);
  }

  lemma NewUserHoldsNothing(t: Tables, id: int)
    requires Valid(t) && id !in t.users
    ensures !UserDeletion.HasHoldings(t, id) && !UserDeletion.NamedInAudit(t, id)
  {
    forall g ensures !UserDeletion.Owns(t.members, g, id) {
      assert (g, id) in t.members ==> (g, id).1 in t.users;
    }
  }

  /** A new audit row that refers to a user by a foreign key. */
  lemma AuditIsStep(t: Tables, flights: seq<Flight>, row: int, user: int)
    requires t.auditForeignKey && user in t.users && row !in t.auditActors
    ensures var s, outcome := StateOf(t, flights), AppendAudit(t, row, Some(user));
            && outcome.Ok? && Enabled(s, Audit(user))
            && Step(s, Audit(user)) == StateOf(outcome.value, flights)
  {
    var after := AppendAudit(t, row, Some(user)).value;
    assert after.auditActors[row] == Some(user);
    forall u | u in t.users
      ensures UserDeletion.NamedInAudit(after, u) <==> UserDeletion.NamedInAudit(t, u) || u == user
    {
      if UserDeletion.NamedInAudit(t, u) {
        var r :| r in t.auditActors && t.auditActors[r] == Some(u);
        assert after.auditActors[r] == Some(u);
      }
    }
    assert Holders(after) == Holders(t);
  }

  /** Whatever changes neither users nor audit rows. */
  lemma RegroupingIsStep(t: Tables, after: Tables, flights: seq<Flight>)
    requires after.users == t.users && after.auditActors == t.auditActors && after.auditForeignKey == t.auditForeignKey
    ensures var s, e := StateOf(t, flights), Regroup(Holders(after));
            Enabled(s, e) && Step(s, e) == StateOf(after, flights)
  {
  }

  /** The steps of a call, its flight being the n-th. */
  function StepsOf(n: nat, call: Call): seq<Event> {
    [Look(call)] + ([Count(n)] + ((if call.change.Update? then [Read(n)] else []) + [Write(n)]))
  }

  /** The guards of a call that nothing disturbs. */
  predicate PassesGuards(users: Users, call: Call) {
    && MayTry(users, call)
    && (IsActiveSuperAdmin(users[call.target]) && WouldRemove(call.change) ==> |SuperAdmins(users)| > 1)
  }

  lemma UndisturbedGuards(s: State, call: Call, later: seq<Event>)
    ensures var steps := [Look(call)] + ([Count(|s.flights|)] + later);
            if !PassesGuards(s.users, call) then !IsRun(s, steps) else
              var passed := s.(flights := s.flights + [Flight(call, Passed(s.users[call.target]))]);
              && (IsRun(s, steps) <==> IsRun(passed, later))
              && (IsRun(s, steps) ==> After(s, steps) == After(passed, later))
  {
    var n := |s.flights|;
    RunOfFirst(s, Look(call), [Count(n)] + later);
    if MayTry(s.users, call) {
      var looked := Step(s, Look(call));
      assert looked.flights[n] == Flight(call, Looked(s.users[call.target]));
      RunOfFirst(looked, Count(n), later);
      if PassesGuards(s.users, call) {
        assert Step(looked, Count(n)).flights == s.flights + [Flight(call, Passed(s.users[call.target]))];
      }
    }
  }

  lemma UndisturbedUpdate(s: State, call: Call)
    requires call.change.Update?
    ensures var steps := StepsOf(|s.flights|, call);
            && (IsRun(s, steps) <==> PassesGuards(s.users, call))
            && (IsRun(s, steps) ==>
                  var row := UpdatedRow(s.users[call.target], call.change.role, call.change.active);
                  After(s, steps)
                    == s.(users := s.users[call.target := row], flights := s.flights + [Flight(call, Over)]))
  {
    var n := |s.flights|;
    UndisturbedGuards(s, call, [Read(n)] + [Write(n)]);
    if PassesGuards(s.users, call) { PassedUpdate(s, call); }
  }

  lemma PassedUpdate(s: State, call: Call)
    requires call.change.Update? && call.target in s.users
    ensures var passed := s.(flights := s.flights + [Flight(call, Passed(s.users[call.target]))]);
            var steps := [Read(|s.flights|)] + [Write(|s.flights|)];
            && IsRun(passed, steps)
            && var row := UpdatedRow(s.users[call.target], call.change.role, call.change.active);
               After(passed, steps)
                 == s.(users := s.users[call.target := row], flights := s.flights + [Flight(call, Over)])
  {
    var n, seen := |s.flights|, s.users[call.target];
    var passed := s.(flights := s.flights + [Flight(call, Passed(seen))]);
    var fixed := s.(flights := s.flights
      + [Flight(call, Fixed(seen, UpdatedRow(seen, call.change.role, call.change.active)))]);
    assert Step(passed, Read(n)) == fixed;
    RunOfFirst(passed, Read(n), [Write(n)]);
    OneStep(fixed, Write(n));
    assert Step(fixed, Write(n)).flights == s.flights + [Flight(call, Over)];
  }

  lemma OneStep(s: State, e: Event)
    ensures IsRun(s, [e]) <==> Enabled(s, e)
    ensures IsRun(s, [e]) ==> After(s, [e]) == Step(s, e)
  {
    assert [e] + [] == [e];
    RunOfFirst(s, e, []);
  }

  lemma UpdateGuards(t: Tables, s: Subject, userId: int, role: Option<SystemRole>, active: Option<bool>)
    ensures var outcome := UpdateUser(t, s, userId, role, active);
            && (outcome.Ok? <==> PassesGuards(t.users, Call(s, userId, Update(role, active))))
            && (outcome.Ok? ==>
                  outcome.value == t.(users := t.users[userId := UpdatedRow(t.users[userId], role, active)]))
  {
    assert forall u :: u in SuperAdmins(t.users) <==> u in ActiveSuperAdmins(t);
    assert SuperAdmins(t.users) == ActiveSuperAdmins(t);
  }

  lemma SameHolders(t: Tables, users: Users)
    requires users.Keys == t.users.Keys
    ensures Undeletable(t.(users := users)) == Undeletable(t) && Holders(t.(users := users)) == Holders(t)
  {
  }

  /** `AccessControl.UpdateUser` is a call of the machine, undisturbed. */
  lemma UpdateIsItsSteps(t: Tables, s: Subject, userId: int, role: Option<SystemRole>, active: Option<bool>)
    ensures var outcome, call := UpdateUser(t, s, userId, role, active), Call(s, userId, Update(role, active));
            && (outcome.Ok? <==> IsRun(StateOf(t, []), StepsOf(0, call)))
            && (outcome.Ok? ==> After(StateOf(t, []), StepsOf(0, call)) == StateOf(outcome.value, [Flight(call, Over)]))
  {
    UpdateGuards(t, s, userId, role, active);
    UndisturbedUpdate(StateOf(t, []), Call(s, userId, Update(role, active)));
    if userId in t.users { SameHolders(t, t.users[userId := UpdatedRow(t.users[userId], role, active)]); }
  }

  lemma DeletionGuards(t: Tables, s: Subject, userId: int, receiver: int)
    ensures var outcome, after := DeleteUser(t, s, userId, receiver), UserDeletion.DeleteUserRows(t, userId, receiver);
            if PassesGuards(t.users, Call(s, userId, Delete(receiver)))
            then outcome == (if after.Some? then Ok(after.value) else Err(ConstraintViolated))
            else !outcome.Ok?
  {
    assert forall u :: u in SuperAdmins(t.users) <==> u in ActiveSuperAdmins(t);
    assert SuperAdmins(t.users) == ActiveSuperAdmins(t);
  }

  lemma UndisturbedDeletion(t: Tables, call: Call)
    requires Valid(t) && call.change.Delete?
    ensures var start, after := StateOf(t, []), UserDeletion.DeleteUserRows(t, call.target, call.change.receiver);
            && (IsRun(start, StepsOf(0, call)) <==> PassesGuards(t.users, call) && after.Some?)
            && (IsRun(start, StepsOf(0, call)) ==>
                  After(start, StepsOf(0, call)) == StateOf(after.value, [Flight(call, Over)]))
  {
    var start := StateOf(t, []);
    UndisturbedGuards(start, call, [Write(0)]);
    assert [] + [Write(0)] == [Write(0)];
    if PassesGuards(t.users, call) {
      var seen := t.users[call.target];
      assert start.flights + [Flight(call, Passed(seen))] == [Flight(call, Passed(seen))];
      PassedDeletion(t, call, seen);
    }
  }

  lemma PassedDeletion(t: Tables, call: Call, seen: UserRow)
    requires Valid(t) && call.change.Delete? && call.change.receiver != call.target
    ensures var passed, after := StateOf(t, [Flight(call, Passed(seen))]),
                                 UserDeletion.DeleteUserRows(t, call.target, call.change.receiver);
            && (IsRun(passed, [Write(0)]) <==> after.Some?)
            && (after.Some? ==> After(passed, [Write(0)]) == StateOf(after.value, [Flight(call, Over)]))
  {
    var flights := [Flight(call, Passed(seen))];
    OneStep(StateOf(t, flights), Write(0));
    DeletionIsWrite(t, flights, 0);
  }

  /** So is `DeleteUser`. */
  lemma DeletionIsItsSteps(t: Tables, s: Subject, userId: int, receiver: int)
    requires Valid(t)
    ensures var outcome, call := DeleteUser(t, s, userId, receiver), Call(s, userId, Delete(receiver));
            && (outcome.Ok? <==> IsRun(StateOf(t, []), StepsOf(0, call)))
            && (outcome.Ok? ==> After(StateOf(t, []), StepsOf(0, call)) == StateOf(outcome.value, [Flight(call, Over)]))
  {
    DeletionGuards(t, s, userId, receiver);
    UndisturbedDeletion(t, Call(s, userId, Delete(receiver)));
  }

  lemma DeletedWithoutReceiver(t: Tables, target: int, after: Tables)
    requires !UserDeletion.NamedInAudit(t, target) && !UserDeletion.HasHoldings(t, target)
    requires UserDeletion.OnlyUserGone(t, target, after)
    ensures after.users == t.users - {target} && Undeletable(after) == Undeletable(t) && Holders(after) == Holders(t)
  {
  }
}
