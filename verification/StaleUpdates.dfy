/**
 What interleaved updates of users do to each other: `updateUser` writes both columns, one of them often as
 it was read before, and its guards have seen the target as it was even earlier.
 */
module StaleUpdates {
  import opened Wrappers
  import opened AccessTables
  import AccessControl
  import opened AdministratorRaces

  /** What the guards have refused is not under way, and what is about to be written has the columns asked for. */
  predicate Remembered(s: State) {
    forall i :: 0 <= i < |s.flights| && !s.flights[i].phase.Over? ==> Consistent(s.flights[i])
  }

  predicate Consistent(f: Flight)
    requires !f.phase.Over?
  {
    && (f.call.subject.role != SuperAdmin ==>
          && f.call.change.Update? && !AccessControl.Privileged(f.phase.seen.role)
          && (f.call.change.role.Some? ==> !AccessControl.Privileged(f.call.change.role.value)))
    && (f.phase.Fixed? ==> f.call.change.Update? && AsAsked(f.phase.row, f.call.change))
  }

  function Asked(row: UserRow, change: Change): UserRow
    requires change.Update?
  {
    AccessControl.UpdatedRow(row, change.role, change.active)
  }

  predicate AsAsked(row: UserRow, change: Change)
    requires change.Update?
  {
    && (change.role.Some? ==> row.role == change.role.value)
    && (change.active.Some? ==> row.active == change.active.value)
  }

  lemma StepKeepsRemembered(s: State, e: Event)
    requires Enabled(s, e) && Remembered(s)
    ensures Remembered(Step(s, e))
  {
    var t := Step(s, e);
    forall j | 0 <= j < |t.flights| && !t.flights[j].phase.Over? ensures Consistent(t.flights[j]) {
      if j < |s.flights| { assert !s.flights[j].phase.Over? && Consistent(s.flights[j]); }
    }
  }

  /** The event is the write of an update whose target is still there. */
  predicate Updates(s: State, e: Event) {
    e.Write? && Enabled(s, e) && s.flights[e.i].phase.Fixed? && s.flights[e.i].call.target in s.users
  }

  // ---------- Lost updates ----------

  /** A column that the call does not change is no longer what the repository has read. */
  predicate Stale(s: State, e: Event)
    requires Updates(s, e) && Remembered(s)
  {
    var f := s.flights[e.i];
    var now := s.users[f.call.target];
    || (f.call.change.role.None? && now.role != f.phase.row.role)
    || (f.call.change.active.None? && now.active != f.phase.row.active)
  }

  /** The users if every write took effect at once: an update changes the columns it was asked to change. */
  function Effect(s: State, e: Event, users: Users): Users
    requires Enabled(s, e)
  {
    match e
    case Write(i) =>
      var f := s.flights[i];
      if f.call.target !in users then users
      else if f.call.change.Update? then users[f.call.target := Asked(users[f.call.target], f.call.change)]
      else users - {f.call.target}
    case Insert(id, row) => users[id := row]
    case _ => users
  }

  ghost function Atomic(s: State, events: seq<Event>, users: Users): Users
    requires IsRun(s, events)
    decreases |events|
  {
    if events == [] then users else Atomic(Step(s, events[0]), events[1..], Effect(s, events[0], users))
  }

  /** A write has the effect asked for, and no other, exactly when it is not stale. */
  lemma TakesEffectUnlessStale(s: State, e: Event)
    requires Enabled(s, e) && Remembered(s)
    ensures Step(s, e).users == Effect(s, e, s.users) <==> !(Updates(s, e) && Stale(s, e))
  {
    if e.Write? {
      var f := s.flights[e.i];
      assert Consistent(f);
      if Updates(s, e) {
        assert Effect(s, e, s.users)[f.call.target] == Asked(s.users[f.call.target], f.call.change);
      }
    }
  }

  ghost predicate NoneStale(s: State, events: seq<Event>)
    requires IsRun(s, events) && Remembered(s)
    decreases |events|
  {
    events == [] ||
    (&& !(Updates(s, events[0]) && Stale(s, events[0]))
     && (StepKeepsRemembered(s, events[0]); NoneStale(Step(s, events[0]), events[1..])))
  }

  lemma {:induction false} Prefix(s: State, events: seq<Event>, n: nat)
    requires IsRun(s, events) && n <= |events|
    ensures IsRun(s, events[..n])
    decreases n
  {
    if n > 0 {
      Prefix(Step(s, events[0]), events[1..], n - 1);
      assert events[..n][1..] == events[1..][..n - 1];
    }
  }

  /** All through the run the users are those that the writes so far leave if each takes effect at once. */
  ghost predicate AlwaysAtomic(s: State, events: seq<Event>)
    requires IsRun(s, events)
  {
    forall n: nat :: n <= |events| ==> AtomicUpTo(s, events, n)
  }

  ghost predicate AtomicUpTo(s: State, events: seq<Event>, n: nat)
    requires IsRun(s, events) && n <= |events|
  {
    Prefix(s, events, n);
    After(s, events[..n]).users == Atomic(s, events[..n], s.users)
  }

  /**
   However updates and deletions interleave, the users are at all times those of whole updates one after
   another in the order of their writes, if and only if no write is stale.
   */
  lemma {:induction false} AtomicExactlyWhenNoneStale(s: State, events: seq<Event>)
    requires IsRun(s, events) && Remembered(s)
    ensures AlwaysAtomic(s, events) <==> NoneStale(s, events)
    decreases |events|
  {
    if events == [] {
      assert events[..0] == [];
    } else {
      var e, later := events[0], events[1..];
      StepKeepsRemembered(s, e);
      TakesEffectUnlessStale(s, e);
      AtomicExactlyWhenNoneStale(Step(s, e), later);
      FirstPrefixes(s, events);
      if Step(s, e).users == Effect(s, e, s.users) {
        forall n: nat | n <= |later| ensures AtomicUpTo(s, events, n + 1) <==> AtomicUpTo(Step(s, e), later, n) {
          Prefix(s, events, n + 1);
          assert events[..n + 1][1..] == later[..n];
        }
        LaterPrefixes(s, events);
      }
    }
  }

  lemma FirstPrefixes(s: State, events: seq<Event>)
    requires IsRun(s, events) && events != []
    ensures AtomicUpTo(s, events, 0)
    ensures AtomicUpTo(s, events, 1) <==> Step(s, events[0]).users == Effect(s, events[0], s.users)
  {
    var e, t := events[0], Step(s, events[0]);
    assert events[..1] == [e] && [e][1..] == [] && IsRun(t, []);
    assert After(s, [e]) == After(t, []) == t;
    assert Atomic(s, [e], s.users) == Atomic(t, [], Effect(s, e, s.users)) == Effect(s, e, s.users);
  }

  lemma LaterPrefixes(s: State, events: seq<Event>)
    requires IsRun(s, events) && events != [] && AtomicUpTo(s, events, 0)
    requires forall n: nat :: n <= |events| - 1 ==>
      (AtomicUpTo(s, events, n + 1) <==> AtomicUpTo(Step(s, events[0]), events[1..], n))
    ensures AlwaysAtomic(s, events) <==> AlwaysAtomic(Step(s, events[0]), events[1..])
  {
    forall m: nat | 0 < m <= |events|
      ensures AtomicUpTo(s, events, m) <==> AtomicUpTo(Step(s, events[0]), events[1..], m - 1)
    {
      assert m - 1 + 1 == m;
    }
  }

  // ---------- Administrators and plain administrators ----------

  predicate IsPlain(f: Flight) { f.call.subject.role != SuperAdmin }

  /** The guards saw somebody who was no administrator, who is one by now. */
  predicate Promoted(s: State, e: Event)
    requires Updates(s, e)
  {
    var f := s.flights[e.i];
    !AccessControl.Privileged(f.phase.seen.role) && AccessControl.Privileged(s.users[f.call.target].role)
  }

  /** The guards saw somebody who was no administrator, the repository read one, who has been demoted since. */
  predicate DemotedAgain(s: State, e: Event)
    requires Updates(s, e)
  {
    var f := s.flights[e.i];
    && !AccessControl.Privileged(f.phase.seen.role) && AccessControl.Privileged(f.phase.row.role)
    && !AccessControl.Privileged(s.users[f.call.target].role)
  }

  predicate ChangesRow(s: State, e: Event)
    requires Updates(s, e)
  {
    var row, now := s.flights[e.i].phase.row, s.users[s.flights[e.i].call.target];
    row.role != now.role || row.active != now.active
  }

  /** Between guard and write the target has been promoted, and the write does something to it. */
  predicate Overtaken(s: State, e: Event)
    requires Updates(s, e)
  {
    (Promoted(s, e) && ChangesRow(s, e)) || DemotedAgain(s, e)
  }

  ghost predicate TouchesAdministrator(s: State, e: Event)
    requires Enabled(s, e)
  {
    exists user :: AccessControl.AdministratorIn(Step(s, e).users, user) != AccessControl.AdministratorIn(s.users, user)
  }

  /**
   An update by somebody who is no super administrator makes, changes or unmakes an administrator if and
   only if it was overtaken; when it sets the role, or is not stale, that is when the target was promoted.
   */
  lemma PlainUpdateTouches(s: State, e: Event)
    requires Remembered(s) && Updates(s, e) && IsPlain(s.flights[e.i])
    ensures TouchesAdministrator(s, e) <==> Overtaken(s, e)
    ensures s.flights[e.i].call.change.role.Some? ==> (TouchesAdministrator(s, e) <==> Promoted(s, e))
    ensures !Stale(s, e) ==> (TouchesAdministrator(s, e) <==> Promoted(s, e) && ChangesRow(s, e))
  {
    var f := s.flights[e.i];
    assert Consistent(f);
    var before, after := s.users[f.call.target], Step(s, e).users[f.call.target];
    assert after == before.(role := f.phase.row.role, active := f.phase.row.active);
    if Overtaken(s, e) {
      assert AccessControl.AdministratorIn(Step(s, e).users, f.call.target)
          != AccessControl.AdministratorIn(s.users, f.call.target);
    }
  }

  /** Administrators are made, changed and unmade by super administrators, or inserted as such. */
  ghost predicate SuperAdminsAlone(s: State, events: seq<Event>)
    requires IsRun(s, events)
    decreases |events|
  {
    events == [] ||
    (&& (TouchesAdministrator(s, events[0]) ==>
           events[0].Insert? || (events[0].Write? && !IsPlain(s.flights[events[0].i])))
     && SuperAdminsAlone(Step(s, events[0]), events[1..]))
  }

  ghost predicate NonePromoted(s: State, events: seq<Event>)
    requires IsRun(s, events)
    decreases |events|
  {
    events == [] ||
    (&& (Updates(s, events[0]) && IsPlain(s.flights[events[0].i]) ==> !Overtaken(s, events[0]))
     && NonePromoted(Step(s, events[0]), events[1..]))
  }

  lemma PlainStepTouches(s: State, e: Event)
    requires Enabled(s, e) && Remembered(s) && !e.Insert? && (e.Write? ==> IsPlain(s.flights[e.i]))
    ensures TouchesAdministrator(s, e) <==> Updates(s, e) && Overtaken(s, e)
  {
    if Updates(s, e) {
      PlainUpdateTouches(s, e);
    } else if e.Write? {
      assert Consistent(s.flights[e.i]);
      assert Step(s, e).users == s.users;
    }
  }

  /** Over every run only super administrators change administrators if and only if no other update is overtaken. */
  lemma {:induction false} SuperAdminsAloneExactly(s: State, events: seq<Event>)
    requires IsRun(s, events) && Remembered(s)
    ensures SuperAdminsAlone(s, events) <==> NonePromoted(s, events)
    decreases |events|
  {
    if events != [] {
      var e := events[0];
      if !e.Insert? && (e.Write? ==> IsPlain(s.flights[e.i])) { PlainStepTouches(s, e); }
      StepKeepsRemembered(s, e);
      SuperAdminsAloneExactly(Step(s, e), events[1..]);
    }
  }

  // ---------- Runs in which that happens ----------

  lemma {:induction false} Concat(s: State, a: seq<Event>, b: seq<Event>)
    requires IsRun(s, a) && IsRun(After(s, a), b)
    ensures IsRun(s, a + b) && After(s, a + b) == After(After(s, a), b)
    decreases |a|
  {
    if a == [] {
      assert a + b == b;
    } else {
      Concat(Step(s, a[0]), a[1..], b);
      assert (a + b)[1..] == a[1..] + b;
    }
  }

  /** The first steps of a call, then another call as a whole. */
  lemma OneInsideAnother(s0: State, start: seq<Event>, s: State, second: Call) returns (events: seq<Event>)
    requires IsRun(s0, start) && After(s0, start) == s && |s.flights| == 1
    requires second.change.Update? && PassesGuards(s.users, second)
    ensures IsRun(s0, events)
    ensures After(s0, events) == s.(
      users := s.users[second.target := Asked(s.users[second.target], second.change)],
      flights := s.flights + [Flight(second, Over)])
  {
    UndisturbedUpdate(s, second);
    Concat(s0, start, StepsOf(1, second));
    events := start + StepsOf(1, second);
  }

  lemma PassedRun(s0: State, call: Call)
    requires s0.flights == [] && PassesGuards(s0.users, call)
    ensures var start := [Look(call)] + ([Count(0)] + []);
            && IsRun(s0, start)
            && After(s0, start) == s0.(flights := [Flight(call, Passed(s0.users[call.target]))])
  {
    UndisturbedGuards(s0, call, []);
  }

  /**
   A plain administrator disables a user who has become an administrator since the guards saw it: the run
   up to the write that does so.
   */
  lemma PlainAdministratorDisablesAnother(
      s0: State, a: AccessControl.Subject, b: AccessControl.Subject, user: int) returns (events: seq<Event>)
    requires s0.flights == [] && a.role == Admin && b.role == SuperAdmin && user != a.userId
    requires user in s0.users && !AccessControl.Privileged(s0.users[user].role) && s0.users[user].active
    ensures IsRun(s0, events)
    ensures var t := After(s0, events);
            Remembered(t) && Updates(t, Write(0)) && IsPlain(t.flights[0]) && TouchesAdministrator(t, Write(0))
  {
    var disable, promote := Call(a, user, Update(None, Some(false))), Call(b, user, Update(Some(Admin), None));
    PassedRun(s0, disable);
    var start := [Look(disable)] + ([Count(0)] + []);
    var run := OneInsideAnother(s0, start, After(s0, start), promote);
    var s := After(s0, run);
    OneStep(s, Read(0));
    Concat(s0, run, [Read(0)]);
    events := run + [Read(0)];
    PlainUpdateTouches(Step(s, Read(0)), Write(0));
  }

  /** A change of status takes back a demotion that was written since the repository read the row. */
  lemma StatusChangeTakesBackDemotion(
      s0: State, a: AccessControl.Subject, b: AccessControl.Subject, user: int) returns (events: seq<Event>)
    requires s0.flights == [] && a.role == SuperAdmin && b.role == SuperAdmin
    requires user in s0.users && s0.users[user].role == Admin
    ensures IsRun(s0, events)
    ensures var t := After(s0, events);
            && Remembered(t) && Updates(t, Write(0)) && t.flights[0].call.target == user && Stale(t, Write(0))
            && t.users[user].role == User
            && Step(t, Write(0)).users[user].role == Admin
  {
    var enable, demote := Call(a, user, Update(None, Some(true))), Call(b, user, Update(Some(User), None));
    PassedRun(s0, enable);
    var passed := [Look(enable)] + ([Count(0)] + []);
    OneStep(After(s0, passed), Read(0));
    Concat(s0, passed, [Read(0)]);
    events := OneInsideAnother(s0, passed + [Read(0)], Step(After(s0, passed), Read(0)), demote);
  }
}
