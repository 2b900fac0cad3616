/**
 Membership changes of one group as they interleave: `saveMember` and `deleteMember` read the roles of the
 acting user and of the target before the transaction, which itself counts the owners and writes.
 */
module GroupRaces {
  import opened Wrappers
  import opened AccessTables
  import opened AccessControl
  import opened Collections
  import UserDeletion

  type Members = map<int, GroupRole>

  datatype Change = Save(role: GroupRole) | Remove
  datatype Call = Call(subject: Subject, user: int, change: Change)

  /** Knows: the role of the subject has been read; Passed: that of the target as well, and the guards are passed. */
  datatype Phase =
    | Started
    | Knows(actor: Option<GroupRole>)
    | Passed(actor: Option<GroupRole>, target: Option<GroupRole>)
    | Over

  datatype Flight = Flight(call: Call, phase: Phase)

  datatype State = State(members: Members, flights: seq<Flight>)
  {
    function With(i: nat, phase: Phase): State
      requires i < |flights|
    {
      this.(flights := flights[i := flights[i].(phase := phase)])
    }
  }

  /** Quit stands for a refusal or a failure at any point; Handover for the deletion of a user. */
  datatype Event =
    | Start(call: Call)
    | ReadActor(i: nat)
    | ReadTarget(i: nat)
    | Write(i: nat)
    | Quit(i: nat)
    | Handover(user: int, receiver: int)

  function RoleOf(members: Members, user: int): Option<GroupRole> {
    if user in members then Some(members[user]) else None
  }

  function OwnersOf(members: Members): set<int> {
    set u | u in members && members[u] == Owner
  }

  /** The guards of the application on the roles it has read; a system administrator's own role is not read. */
  predicate Allowed(s: Subject, actor: Option<GroupRole>, target: Option<GroupRole>, change: Change) {
    var ownsOrRuns := IsSystemAdministrator(s) || actor == Some(Owner);
    && (change.Remove? ==> target.Some?)
    && (IsSystemAdministrator(s) || OwnerOrAdmin(actor))
    && (OwnerOrAdmin(target) ==> ownsOrRuns)
    && (change.Save? && OwnerOrAdmin(Some(change.role)) ==> ownsOrRuns)
  }

  function Changed(members: Members, user: int, change: Change): Members {
    match change
    case Save(role) => members[user := role]
    case Remove => members - {user}
  }

  /** The transaction does not throw: the member to be deleted is there, and the last owner stays. */
  predicate MayWrite(members: Members, user: int, change: Change) {
    && (change.Remove? ==> user in members)
    && (RoleOf(members, user) == Some(Owner) && change != Save(Owner) ==> |OwnersOf(members)| > 1)
  }

  predicate Enabled(s: State, e: Event) {
    match e
    case Start(_) => true
    case ReadActor(i) => i < |s.flights| && s.flights[i].phase.Started?
    case ReadTarget(i) =>
      && i < |s.flights| && s.flights[i].phase.Knows?
      && Allowed(s.flights[i].call.subject, s.flights[i].phase.actor,
                 RoleOf(s.members, s.flights[i].call.user), s.flights[i].call.change)
    case Write(i) =>
      && i < |s.flights| && s.flights[i].phase.Passed?
      && MayWrite(s.members, s.flights[i].call.user, s.flights[i].call.change)
    case Quit(i) => i < |s.flights|
    case Handover(user, receiver) => user != receiver
  }

  function Step(s: State, e: Event): State
    requires Enabled(s, e)
  {
    match e
    case Start(call) => s.(flights := s.flights + [Flight(call, Started)])
    case ReadActor(i) =>
      var subject := s.flights[i].call.subject;
      s.With(i, Knows(if IsSystemAdministrator(subject) then None else RoleOf(s.members, subject.userId)))
    case ReadTarget(i) => s.With(i, Passed(s.flights[i].phase.actor, RoleOf(s.members, s.flights[i].call.user)))
    case Write(i) => s.With(i, Over).(members := Changed(s.members, s.flights[i].call.user, s.flights[i].call.change))
    case Quit(i) => s.With(i, Over)
    case Handover(user, receiver) =>
      s.(members := HandedOver(s.members, user, receiver))
  }

  ghost predicate IsRun(s: State, events: seq<Event>)
    decreases |events|
  {
    events == [] || (Enabled(s, events[0]) && IsRun(Step(s, events[0]), events[1..]))
  }

  ghost function After(s: State, events: seq<Event>): State
    requires IsRun(s, events)
    decreases |events|
  {
    if events == [] then s else After(Step(s, events[0]), events[1..])
  }

  // ---------- An owner always remains ----------

  lemma StepKeepsAnOwner(s: State, e: Event)
    requires Enabled(s, e) && OwnersOf(s.members) != {}
    ensures OwnersOf(Step(s, e).members) != {}
  {
    var t := Step(s, e);
    var owner := SomeElement(OwnersOf(s.members));
    if e.Write? && owner == s.flights[e.i].call.user && |OwnersOf(s.members)| > 1 {
      owner := AnotherOne(OwnersOf(s.members), owner);
    } else if e.Handover? && owner == e.user {
      owner := e.receiver;
    }
    assert owner in OwnersOf(t.members);
  }

  /**
   However membership changes and deletions of users interleave, the group keeps an owner: the count is
   part of the transaction.
   */
  lemma {:induction false} OwnerRemains(s: State, events: seq<Event>)
    requires IsRun(s, events) && OwnersOf(s.members) != {}
    ensures OwnersOf(After(s, events).members) != {}
    decreases |events|
  {
    if events != [] {
      StepKeepsAnOwner(s, events[0]);
      OwnerRemains(Step(s, events[0]), events[1..]);
    }
  }

  // ---------- Who changes leading roles ----------

  function Leading(role: Option<GroupRole>): Option<GroupRole> {
    if OwnerOrAdmin(role) then role else None
  }

  /** What a call has passed, it passed on the roles it remembers. */
  predicate GuardsHeld(s: State) {
    forall i :: 0 <= i < |s.flights| && s.flights[i].phase.Passed? ==>
      Allowed(s.flights[i].call.subject, s.flights[i].phase.actor, s.flights[i].phase.target, s.flights[i].call.change)
  }

  /** Of a system administrator no role is remembered. */
  predicate ActorsRead(s: State) {
    forall i :: 0 <= i < |s.flights| && IsSystemAdministrator(s.flights[i].call.subject) ==>
      match s.flights[i].phase
      case Knows(actor) => actor == None
      case Passed(actor, _) => actor == None
      case _ => true
  }

  lemma {:induction false} RunsHoldGuards(s: State, events: seq<Event>)
    requires IsRun(s, events) && GuardsHeld(s) && ActorsRead(s)
    ensures GuardsHeld(After(s, events)) && ActorsRead(After(s, events))
    decreases |events|
  {
    if events != [] {
      RunsHoldGuards(Step(s, events[0]), events[1..]);
    }
  }

  /** The write changes whether or how its target leads the group. */
  predicate TouchesLeader(s: State, i: nat)
    requires i < |s.flights|
  {
    var call := s.flights[i].call;
    Leading(RoleOf(Changed(s.members, call.user, call.change), call.user)) != Leading(RoleOf(s.members, call.user))
  }

  predicate OwnsOrRuns(s: State, subject: Subject) {
    IsSystemAdministrator(subject) || RoleOf(s.members, subject.userId) == Some(Owner)
  }

  /** A write by somebody who at that time may not do it changes a leading role. */
  predicate Intrudes(s: State, i: nat) {
    Enabled(s, Write(i)) && TouchesLeader(s, i) && !OwnsOrRuns(s, s.flights[i].call.subject)
  }

  /** The subject owned the group when its role was read, and does not any more. */
  predicate LostOwnership(s: State, i: nat)
    requires i < |s.flights| && s.flights[i].phase.Passed?
  {
    s.flights[i].phase.actor == Some(Owner) && RoleOf(s.members, s.flights[i].call.subject.userId) != Some(Owner)
  }

  /**
   The subject was a group administrator when its role was read, and has not become an owner; the target
   did not lead the group when its role was read, and now does.
   */
  predicate TargetPromoted(s: State, i: nat)
    requires i < |s.flights| && s.flights[i].phase.Passed?
  {
    var f := s.flights[i];
    && f.phase.actor == Some(GroupAdmin) && RoleOf(s.members, f.call.subject.userId) != Some(Owner)
    && !OwnerOrAdmin(f.phase.target) && OwnerOrAdmin(RoleOf(s.members, f.call.user))
  }

  predicate Overtaken(s: State, i: nat)
    requires i < |s.flights| && s.flights[i].phase.Passed?
  {
    LostOwnership(s, i) || TargetPromoted(s, i)
  }

  /**
   A write that changes a leading role is by somebody who may not do it if and only if the subject has lost
   its ownership since the guards, or it was a mere group administrator and the target has been promoted.
   */
  lemma IntrudesExactlyWhenOvertaken(s: State, i: nat)
    requires GuardsHeld(s) && ActorsRead(s) && Enabled(s, Write(i)) && TouchesLeader(s, i)
    ensures Intrudes(s, i) <==> Overtaken(s, i)
  {
    var f := s.flights[i];
    assert Allowed(f.call.subject, f.phase.actor, f.phase.target, f.call.change);
  }

  /** No call is overtaken when it changes a leading role. */
  ghost predicate NoneOvertaken(s: State, events: seq<Event>)
    requires IsRun(s, events)
    decreases |events|
  {
    events == [] ||
    (&& (events[0].Write? && TouchesLeader(s, events[0].i) ==> !Overtaken(s, events[0].i))
     && NoneOvertaken(Step(s, events[0]), events[1..]))
  }

  /** Every write that changes a leading role is by somebody who may do it at that time. */
  ghost predicate OnlyOwnersTouch(s: State, events: seq<Event>)
    requires IsRun(s, events)
    decreases |events|
  {
    events == [] ||
    ((events[0].Write? ==> !Intrudes(s, events[0].i)) && OnlyOwnersTouch(Step(s, events[0]), events[1..]))
  }

  /**
   Over every run leading roles change only by the hands of those who may do it if and only if no such
   change is overtaken.
   */
  lemma {:induction false} OwnersAloneTouchLeaders(s: State, events: seq<Event>)
    requires IsRun(s, events) && GuardsHeld(s) && ActorsRead(s)
    ensures OnlyOwnersTouch(s, events) <==> NoneOvertaken(s, events)
    decreases |events|
  {
    if events != [] {
      var e := events[0];
      if e.Write? && TouchesLeader(s, e.i) { IntrudesExactlyWhenOvertaken(s, e.i); }
      assert [e][1..] == [];
      RunsHoldGuards(s, [e]);
      OwnersAloneTouchLeaders(Step(s, e), events[1..]);
    }
  }

  /** An owner who is demoted between guard and transaction still appoints another owner. */
  lemma DemotedOwnerAppoints(members: Members, a: Subject, b: Subject, c: int) returns (events: seq<Event>)
    requires !IsSystemAdministrator(a) && a.userId != b.userId && c != a.userId && c != b.userId
    requires RoleOf(members, a.userId) == Some(Owner) && RoleOf(members, b.userId) == Some(Owner)
    requires RoleOf(members, c) == Some(Viewer)
    ensures IsRun(State(members, []), events)
    ensures var t := After(State(members, []), events); Intrudes(t, 0) && LostOwnership(t, 0)
  {
    var appoint, demote := Call(a, c, Save(Owner)), Call(b, a.userId, Save(Viewer));
    TwoOwners(members, a.userId, b.userId);
    events := Overtaking(members, appoint, demote);
  }

  /** A group administrator whose guard saw a mere viewer removes the owner whom that viewer has become. */
  lemma AdministratorRemovesNewOwner(members: Members, a: Subject, b: Subject, c: int) returns (events: seq<Event>)
    requires !IsSystemAdministrator(a) && a.userId != b.userId && c != a.userId && c != b.userId
    requires RoleOf(members, a.userId) == Some(GroupAdmin) && RoleOf(members, b.userId) == Some(Owner)
    requires RoleOf(members, c) == Some(Viewer)
    ensures IsRun(State(members, []), events)
    ensures var t := After(State(members, []), events); Intrudes(t, 0) && TargetPromoted(t, 0)
  {
    var remove, appoint := Call(a, c, Remove), Call(b, c, Save(Owner));
    TwoOwners(members[c := Owner], c, b.userId);
    events := Overtaking(members, remove, appoint);
  }

  lemma TwoOwners(members: Members, a: int, b: int)
    requires a != b && RoleOf(members, a) == Some(Owner) && RoleOf(members, b) == Some(Owner)
    ensures |OwnersOf(members)| > 1
  {
    SmallerSubset({a, b}, OwnersOf(members));
  }

  /** The first call passes its guards, then the second one runs as a whole. */
  lemma Overtaking(members: Members, first: Call, second: Call) returns (events: seq<Event>)
    requires PassesGuards(members, first) && PassesGuards(members, second)
    requires MayWrite(members, second.user, second.change)
    ensures IsRun(State(members, []), events)
    ensures var t := After(State(members, []), events);
            && t.members == Changed(members, second.user, second.change)
            && t.flights == [Flight(first, Passed(ActorOf(members, first), RoleOf(members, first.user))),
                             Flight(second, Over)]
  {
    var s0 := State(members, []);
    var s1 := Step(s0, Start(first));
    var s2 := Step(s1, ReadActor(0));
    var s3 := Step(s2, ReadTarget(0));
    var s4 := Step(s3, Start(second));
    var s5 := Step(s4, ReadActor(1));
    var s6 := Step(s5, ReadTarget(1));
    var s7 := Step(s6, Write(1));
    assert IsRun(s7, []) && After(s7, []) == s7;
    events := [];
    events := RunOfFirst(s6, Write(1), events);
    events := RunOfFirst(s5, ReadTarget(1), events);
    events := RunOfFirst(s4, ReadActor(1), events);
    events := RunOfFirst(s3, Start(second), events);
    events := RunOfFirst(s2, ReadTarget(0), events);
    events := RunOfFirst(s1, ReadActor(0), events);
    events := RunOfFirst(s0, Start(first), events);
  }

  function ActorOf(members: Members, call: Call): Option<GroupRole> {
    if IsSystemAdministrator(call.subject) then None else RoleOf(members, call.subject.userId)
  }

  predicate PassesGuards(members: Members, call: Call) {
    Allowed(call.subject, ActorOf(members, call), RoleOf(members, call.user), call.change)
  }

  lemma RunOfFirst(s: State, e: Event, later: seq<Event>) returns (events: seq<Event>)
    requires Enabled(s, e) && IsRun(Step(s, e), later)
    ensures IsRun(s, events) && After(s, events) == After(Step(s, e), later)
  {
    events := [e] + later;
    FirstStep(s, e, later);
  }

  // ---------- The tables behind the state ----------

  function MembersOf(t: Tables, group: int): Members {
    map m | m in t.members && m.0 == group :: m.1 := t.members[m]
  }

  /** The transactions of the repository are these writes, on the members of their group. */
  lemma SaveIsWrite(t: Tables, group: int, user: int, role: GroupRole)
    requires group in t.groups && user in t.users
    ensures var outcome := SaveMembership(t, group, user, role);
            && (outcome.Ok? <==> MayWrite(MembersOf(t, group), user, Save(role)))
            && (outcome.Ok? ==>
                  SameMembers(MembersOf(outcome.value, group), Changed(MembersOf(t, group), user, Save(role))))
  {
    OwnersAreTheSame(t, group);
  }

  lemma DeleteIsWrite(t: Tables, group: int, user: int)
    ensures var outcome := DeleteMembership(t, group, user);
            && (outcome.Ok? <==> MayWrite(MembersOf(t, group), user, Remove))
            && (outcome.Ok? ==>
                  SameMembers(MembersOf(outcome.value, group), Changed(MembersOf(t, group), user, Remove)))
  {
    OwnersAreTheSame(t, group);
  }

  lemma OwnersAreTheSame(t: Tables, group: int)
    ensures OwnersOf(MembersOf(t, group)) == Owners(t, group)
  {
  }

  function StepsOf(call: Call): seq<Event> { [Start(call)] + ([ReadActor(0)] + ([ReadTarget(0)] + [Write(0)])) }

  /** An undisturbed call passes its guards and writes, or is refused. */
  lemma UndisturbedSteps(members: Members, call: Call)
    ensures IsRun(State(members, []), StepsOf(call)) <==>
      PassesGuards(members, call) && MayWrite(members, call.user, call.change)
    ensures IsRun(State(members, []), StepsOf(call)) ==>
      After(State(members, []), StepsOf(call)).members == Changed(members, call.user, call.change)
  {
    var s0 := State(members, []);
    var s1 := Step(s0, Start(call));
    var s2 := Step(s1, ReadActor(0));
    FirstStep(s0, Start(call), [ReadActor(0)] + ([ReadTarget(0)] + [Write(0)]));
    FirstStep(s1, ReadActor(0), [ReadTarget(0)] + [Write(0)]);
    FirstStep(s2, ReadTarget(0), [Write(0)]);
    if Enabled(s2, ReadTarget(0)) {
      assert [Write(0)] + [] == [Write(0)];
      FirstStep(Step(s2, ReadTarget(0)), Write(0), []);
    }
  }

  lemma FirstStep(s: State, e: Event, later: seq<Event>)
    ensures IsRun(s, [e] + later) <==> Enabled(s, e) && IsRun(Step(s, e), later)
    ensures IsRun(s, [e] + later) ==> After(s, [e] + later) == After(Step(s, e), later)
  {
    assert ([e] + later)[1..] == later;
  }

  lemma GuardsOfSaving(t: Tables, s: Subject, group: int, user: int, role: GroupRole)
    ensures var outcome := SaveMember(t, s, group, user, role);
            if PassesGuards(MembersOf(t, group), Call(s, user, Save(role)))
            then outcome == SaveMembership(t, group, user, role) else !outcome.Ok?
  {
  }

  lemma GuardsOfDeleting(t: Tables, s: Subject, group: int, user: int)
    ensures var outcome := DeleteMember(t, s, group, user);
            if PassesGuards(MembersOf(t, group), Call(s, user, Remove))
            then outcome == DeleteMembership(t, group, user) else !outcome.Ok?
  {
  }

  /** `AccessControl.SaveMember` and `DeleteMember` are these calls, undisturbed. */
  lemma SaveMemberIsItsSteps(t: Tables, s: Subject, group: int, user: int, role: GroupRole)
    requires group in t.groups && user in t.users
    ensures var outcome, start, steps :=
              SaveMember(t, s, group, user, role), State(MembersOf(t, group), []), StepsOf(Call(s, user, Save(role)));
            && (outcome.Ok? <==> IsRun(start, steps))
            && (outcome.Ok? ==> SameMembers(MembersOf(outcome.value, group), After(start, steps).members))
  {
    GuardsOfSaving(t, s, group, user, role);
    SaveIsWrite(t, group, user, role);
    UndisturbedSteps(MembersOf(t, group), Call(s, user, Save(role)));
  }

  lemma DeleteMemberIsItsSteps(t: Tables, s: Subject, group: int, user: int)
    ensures var outcome, start, steps :=
              DeleteMember(t, s, group, user), State(MembersOf(t, group), []), StepsOf(Call(s, user, Remove));
            && (outcome.Ok? <==> IsRun(start, steps))
            && (outcome.Ok? ==> SameMembers(MembersOf(outcome.value, group), After(start, steps).members))
  {
    GuardsOfDeleting(t, s, group, user);
    DeleteIsWrite(t, group, user);
    UndisturbedSteps(MembersOf(t, group), Call(s, user, Remove));
  }

  /** What the deletion of a user does to the members of a group. */
  function HandedOver(members: Members, user: int, receiver: int): Members {
    var rest := members - {user};
    if RoleOf(members, user) == Some(Owner) then rest[receiver := Owner] else rest
  }

  lemma DeletionIsHandover(t: Tables, flights: seq<Flight>, group: int, user: int, receiver: int)
    requires Valid(t) && user != receiver
    ensures var s, after := State(MembersOf(t, group), flights), UserDeletion.DeleteUserRows(t, user, receiver);
            after.Some? ==>
              && Enabled(s, Handover(user, receiver))
              && SameMembers(MembersOf(after.value, group), Step(s, Handover(user, receiver)).members)
  {
    UserDeletion.MembersAfterDeletion(t, user, receiver);
    TransferIsHandover(t, group, user, receiver);
  }

  lemma TransferIsHandover(t: Tables, group: int, user: int, receiver: int)
    requires user != receiver
    ensures forall after: Tables :: UserDeletion.MembersTransferred(t.members, user, receiver, after.members) ==>
      SameMembers(MembersOf(after, group), HandedOver(MembersOf(t, group), user, receiver))
  {
    forall after: Tables | UserDeletion.MembersTransferred(t.members, user, receiver, after.members)
      ensures SameMembers(MembersOf(after, group), HandedOver(MembersOf(t, group), user, receiver))
    {
      MembersHandedOver(t, group, user, receiver, after);
    }
  }

  lemma MembersHandedOver(t: Tables, group: int, user: int, receiver: int, after: Tables)
    requires user != receiver && UserDeletion.MembersTransferred(t.members, user, receiver, after.members)
    ensures SameMembers(MembersOf(after, group), HandedOver(MembersOf(t, group), user, receiver))
  {
    assert UserDeletion.Owns(t.members, group, user) <==> RoleOf(MembersOf(t, group), user) == Some(Owner);
    forall u ensures RoleOf(MembersOf(after, group), u) == RoleOf(HandedOver(MembersOf(t, group), user, receiver), u) {
      assert (group, u) in after.members <==> u in MembersOf(after, group);
    }
  }

  ghost predicate SameMembers(a: Members, b: Members) {
    forall u :: RoleOf(a, u) == RoleOf(b, u)
  }
}
