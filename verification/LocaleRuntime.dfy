/**
 The locale switcher: every request waits for the messages of its locale and of the default locale,
 and the latest request wins. The machine covers every interleaving of requests, message loads and
 promise continuations; the class holds the code between two awaits.
 */
module LocaleRuntime {
  import opened Wrappers

  /**
   A message load. Delivered: the messages are applied, but the promise has not settled yet. Broken:
   loading or applying failed, but the handler that forgets the load has not run yet.
   */
  datatype Stage = Pending | Delivered | Broken | Resolved | Rejected
  datatype Load = Load(locale: string, stage: Stage)

  /** What the promise of a request is: unsettled, settled, or resolved with the promise of another request. */
  datatype Phase = Waiting | Applied | Failed | Adopted(target: nat)
  datatype Request = Request(locale: string, persist: bool, base: nat, own: nat, phase: Phase)

  /**
   Requests are numbered from 0 in the order of their ids, which start at 1. `applied` lists the
   requests whose locale was made active, oldest first.
   */
  datatype State = State(
    requests: seq<Request>,
    loads: seq<Load>,
    loadByLocale: map<string, nat>,
    messages: set<string>,
    applied: seq<nat>,
    active: string,
    stored: Option<nat>)

  function Init(fallback: string): State {
    State([], [], map[], {}, [], fallback, None)
  }

  datatype Event =
    | Call(locale: string, persist: bool)
    | Deliver(load: nat)
    | Break(load: nat)
    | Settle(load: nat)
    | Resume(request: nat, persistFails: bool)

  // ---------- Steps ----------

  function LoadLocale(s: State, locale: string): (after: State)
    ensures locale in after.loadByLocale
  {
    if locale in s.loadByLocale then s else
      s.(loads := s.loads + [Load(locale, Pending)], loadByLocale := s.loadByLocale[locale := |s.loads|])
  }

  function Requested(s: State, fallback: string, locale: string, persist: bool): State {
    var first := LoadLocale(s, fallback);
    var second := LoadLocale(first, locale);
    second.(requests := s.requests + [
      Request(locale, persist, first.loadByLocale[fallback], second.loadByLocale[locale], Waiting)])
  }

  function WithStage(loads: seq<Load>, l: nat, stage: Stage): seq<Load>
    requires l < |loads|
  {
    loads[l := loads[l].(stage := stage)]
  }

  function Settled(s: State, l: nat): State
    requires l < |s.loads|
  {
    if s.loads[l].stage.Delivered? then
      s.(loads := WithStage(s.loads, l, Resolved))
    else
      s.(loads := WithStage(s.loads, l, Rejected), loadByLocale := s.loadByLocale - {s.loads[l].locale})
  }

  predicate LoadsInRange(s: State) {
    forall r :: 0 <= r < |s.requests| ==> s.requests[r].base < |s.loads| && s.requests[r].own < |s.loads|
  }

  predicate BothResolved(s: State, r: nat)
    requires LoadsInRange(s) && r < |s.requests|
  {
    s.loads[s.requests[r].base].stage.Resolved? && s.loads[s.requests[r].own].stage.Resolved?
  }

  predicate OneRejected(s: State, r: nat)
    requires LoadsInRange(s) && r < |s.requests|
  {
    s.loads[s.requests[r].base].stage.Rejected? || s.loads[s.requests[r].own].stage.Rejected?
  }

  function WithPhase(s: State, r: nat, phase: Phase): State
    requires r < |s.requests|
  {
    s.(requests := s.requests[r := s.requests[r].(phase := phase)])
  }

  function Activated(s: State, r: nat, persistFails: bool): State
    requires r < |s.requests|
  {
    WithPhase(s, r, Applied).(
      applied := s.applied + [r],
      active := s.requests[r].locale,
      stored := if s.requests[r].persist && !persistFails then Some(r) else s.stored)
  }

  /** A superseded request takes over the promise of the latest one; the latest one fails or is applied. */
  function Resumed(s: State, r: nat, persistFails: bool): State
    requires LoadsInRange(s) && r < |s.requests|
  {
    if r != |s.requests| - 1 then WithPhase(s, r, Adopted(|s.requests| - 1))
    else if OneRejected(s, r) then WithPhase(s, r, Failed)
    else Activated(s, r, persistFails)
  }

  /** The promise that the request awaits has settled. */
  predicate Resumable(s: State, r: nat)
    requires LoadsInRange(s) && r < |s.requests|
  {
    s.requests[r].phase.Waiting? && (BothResolved(s, r) || OneRejected(s, r))
  }

  predicate Enabled(s: State, e: Event) {
    match e
    case Call(_, _) => true
    case Deliver(l) => l < |s.loads| && s.loads[l].stage.Pending?
    case Break(l) => l < |s.loads| && s.loads[l].stage.Pending?
    case Settle(l) => l < |s.loads| && (s.loads[l].stage.Delivered? || s.loads[l].stage.Broken?)
    case Resume(r, _) => LoadsInRange(s) && r < |s.requests| && Resumable(s, r)
  }

  function Step(s: State, fallback: string, e: Event): State
    requires Enabled(s, e)
  {
    match e
    case Call(locale, persist) => Requested(s, fallback, locale, persist)
    case Deliver(l) => s.(loads := WithStage(s.loads, l, Delivered), messages := s.messages + {s.loads[l].locale})
    case Break(l) => s.(loads := WithStage(s.loads, l, Broken))
    case Settle(l) => Settled(s, l)
    case Resume(r, persistFails) => Resumed(s, r, persistFails)
  }

  ghost predicate IsRun(s: State, fallback: string, events: seq<Event>)
    decreases |events|
  {
    events == [] || (Enabled(s, events[0]) && IsRun(Step(s, fallback, events[0]), fallback, events[1..]))
  }

  ghost function After(s: State, fallback: string, events: seq<Event>): State
    requires IsRun(s, fallback, events)
    decreases |events|
  {
    if events == [] then s else After(Step(s, fallback, events[0]), fallback, events[1..])
  }

  // ---------- The invariant ----------

  predicate Arrived(load: Load) { load.stage.Delivered? || load.stage.Resolved? }

  /** A load is remembered exactly while it has not been rejected; its messages are there once it arrived. */
  ghost predicate LoadsRemembered(s: State) {
    && (forall x :: x in s.loadByLocale ==> IsLiveLoad(s.loads, s.loadByLocale[x], x))
    && (forall l :: 0 <= l < |s.loads| && !s.loads[l].stage.Rejected? ==>
          s.loads[l].locale in s.loadByLocale && s.loadByLocale[s.loads[l].locale] == l)
    && (forall x :: x in s.messages <==> HasArrived(s, x))
  }

  predicate IsLiveLoad(loads: seq<Load>, l: nat, locale: string) {
    l < |loads| && loads[l].locale == locale && !loads[l].stage.Rejected?
  }

  predicate HasArrived(s: State, locale: string) {
    locale in s.loadByLocale && s.loadByLocale[locale] < |s.loads| && Arrived(s.loads[s.loadByLocale[locale]])
  }

  predicate WellFormed(loads: seq<Load>, fallback: string, count: nat, r: nat, request: Request) {
    && request.base < |loads| && loads[request.base].locale == fallback
    && request.own < |loads| && loads[request.own].locale == request.locale
    && match request.phase
       case Waiting => true
       case Applied => loads[request.base].stage.Resolved? && loads[request.own].stage.Resolved?
       case Failed => loads[request.base].stage.Rejected? || loads[request.own].stage.Rejected?
       case Adopted(target) => r < target < count
  }

  ghost predicate RequestsWellFormed(loads: seq<Load>, fallback: string, requests: seq<Request>) {
    forall r :: 0 <= r < |requests| ==> WellFormed(loads, fallback, |requests|, r, requests[r])
  }

  ghost predicate Increasing(ids: seq<nat>) {
    forall i, j :: 0 <= i < j < |ids| ==> ids[i] < ids[j]
  }

  predicate IsApplied(requests: seq<Request>, r: nat) {
    r < |requests| && requests[r].phase.Applied?
  }

  ghost predicate AppliedInOrder(
      requests: seq<Request>, applied: seq<nat>, active: string, stored: Option<nat>, fallback: string)
  {
    && Increasing(applied)
    && (forall r: nat :: r in applied <==> IsApplied(requests, r))
    && active == (if applied == [] then fallback else LocaleOf(requests, applied[|applied| - 1]))
    && (stored.Some? ==> IsApplied(requests, stored.value) && requests[stored.value].persist)
  }

  function LocaleOf(requests: seq<Request>, r: nat): string {
    if r < |requests| then requests[r].locale else ""
  }

  ghost predicate Inv(s: State, fallback: string) {
    && LoadsRemembered(s)
    && RequestsWellFormed(s.loads, fallback, s.requests)
    && AppliedInOrder(s.requests, s.applied, s.active, s.stored, fallback)
  }

  // ---------- Every step keeps the invariant ----------

  /** Loads are only added, and one that is resolved or rejected stays so. */
  ghost predicate LoadsAdvance(loads: seq<Load>, after: seq<Load>) {
    && |loads| <= |after|
    && (forall l :: 0 <= l < |loads| ==> Advances(loads[l], after[l]))
  }

  predicate Advances(load: Load, after: Load) {
    && load.locale == after.locale
    && (load.stage.Resolved? || load.stage.Rejected? ==> after == load)
  }

  lemma AdvancingKeeps(loads: seq<Load>, after: seq<Load>, fallback: string, requests: seq<Request>)
    requires LoadsAdvance(loads, after) && RequestsWellFormed(loads, fallback, requests)
    ensures RequestsWellFormed(after, fallback, requests)
  {
  }

  lemma LoadingKeeps(s: State, fallback: string, locale: string)
    requires Inv(s, fallback)
    ensures var after := LoadLocale(s, locale);
            && Inv(after, fallback) && IsLiveLoad(after.loads, after.loadByLocale[locale], locale)
            && LoadsAdvance(s.loads, after.loads)
  {
    AdvancingKeeps(s.loads, LoadLocale(s, locale).loads, fallback, s.requests);
  }

  lemma RequestAdded(s: State, fallback: string, request: Request)
    requires Inv(s, fallback) && request.phase.Waiting?
    requires request.base < |s.loads| && s.loads[request.base].locale == fallback
    requires request.own < |s.loads| && s.loads[request.own].locale == request.locale
    ensures Inv(s.(requests := s.requests + [request]), fallback)
  {
    var requests := s.requests + [request];
    forall r | 0 <= r < |requests| ensures WellFormed(s.loads, fallback, |requests|, r, requests[r]) {
      if r < |s.requests| { assert WellFormed(s.loads, fallback, |s.requests|, r, s.requests[r]); }
    }
    assert forall r: nat :: IsApplied(requests, r) <==> IsApplied(s.requests, r);
    if s.applied != [] { assert s.applied[|s.applied| - 1] in s.applied; }
  }

  lemma CallKeeps(s: State, fallback: string, locale: string, persist: bool)
    requires Inv(s, fallback)
    ensures Inv(Requested(s, fallback, locale, persist), fallback)
  {
    var first := LoadLocale(s, fallback);
    LoadingKeeps(s, fallback, fallback);
    LoadingKeeps(first, fallback, locale);
    var second := LoadLocale(first, locale);
    var base := first.loadByLocale[fallback];
    assert Advances(first.loads[base], second.loads[base]);
    RequestAdded(second, fallback, Request(locale, persist, base, second.loadByLocale[locale], Waiting));
  }

  /** A load that moves on without being rejected. */
  lemma StageKeeps(s: State, fallback: string, l: nat, stage: Stage, messages: set<string>)
    requires Inv(s, fallback) && l < |s.loads|
    requires s.loads[l].stage.Pending? || s.loads[l].stage.Delivered?
    requires stage.Delivered? || stage.Broken? || stage.Resolved?
    requires s.loads[l].stage.Pending? || stage.Resolved?
    requires messages ==
      if Arrived(Load(s.loads[l].locale, stage)) then s.messages + {s.loads[l].locale} else s.messages
    ensures Inv(s.(loads := WithStage(s.loads, l, stage), messages := messages), fallback)
  {
    AdvancingKeeps(s.loads, WithStage(s.loads, l, stage), fallback, s.requests);
  }

  lemma RejectKeeps(s: State, fallback: string, l: nat)
    requires Inv(s, fallback) && l < |s.loads| && s.loads[l].stage.Broken?
    ensures Inv(Settled(s, l), fallback)
  {
  }

  lemma InvMeansInRange(s: State, fallback: string)
    requires Inv(s, fallback)
    ensures LoadsInRange(s)
  {
  }

  /** A waiting request that fails or adopts the promise of a later one. */
  lemma GivingUpKeeps(s: State, fallback: string, r: nat, phase: Phase)
    requires Inv(s, fallback) && r < |s.requests| && s.requests[r].phase.Waiting? && !phase.Applied?
    requires WellFormed(s.loads, fallback, |s.requests|, r, s.requests[r].(phase := phase))
    ensures Inv(WithPhase(s, r, phase), fallback)
  {
  }

  lemma ApplyingKeeps(s: State, fallback: string, r: nat, persistFails: bool)
    requires Inv(s, fallback) && LoadsInRange(s) && r + 1 == |s.requests|
    requires s.requests[r].phase.Waiting? && BothResolved(s, r)
    ensures Inv(Activated(s, r, persistFails), fallback)
  {
    var after := Activated(s, r, persistFails);
    assert WellFormed(s.loads, fallback, |s.requests|, r, s.requests[r]);
    assert forall k: nat :: IsApplied(after.requests, k) <==> k == r || IsApplied(s.requests, k);
    forall i | 0 <= i < |s.applied| ensures s.applied[i] < r {
      assert s.applied[i] in s.applied;
      assert IsApplied(s.requests, s.applied[i]);
    }
  }

  lemma ResumeKeeps(s: State, fallback: string, r: nat, persistFails: bool)
    requires Inv(s, fallback) && LoadsInRange(s) && r < |s.requests| && Resumable(s, r)
    ensures Inv(Resumed(s, r, persistFails), fallback)
  {
    if r != |s.requests| - 1 {
      AdoptingKeeps(s, fallback, r, |s.requests| - 1);
    } else if OneRejected(s, r) {
      FailingKeeps(s, fallback, r);
    } else {
      ApplyingKeeps(s, fallback, r, persistFails);
    }
  }

  lemma AdoptingKeeps(s: State, fallback: string, r: nat, target: nat)
    requires Inv(s, fallback) && r < target < |s.requests| && s.requests[r].phase.Waiting?
    ensures Inv(WithPhase(s, r, Adopted(target)), fallback)
  {
    assert WellFormed(s.loads, fallback, |s.requests|, r, s.requests[r]);
    GivingUpKeeps(s, fallback, r, Adopted(target));
  }

  lemma FailingKeeps(s: State, fallback: string, r: nat)
    requires Inv(s, fallback) && LoadsInRange(s) && r < |s.requests| && s.requests[r].phase.Waiting?
    requires OneRejected(s, r)
    ensures Inv(WithPhase(s, r, Failed), fallback)
  {
  }

  lemma StepKeeps(s: State, fallback: string, e: Event)
    requires Inv(s, fallback) && Enabled(s, e)
    ensures Inv(Step(s, fallback, e), fallback)
  {
    match e
    case Call(locale, persist) => CallKeeps(s, fallback, locale, persist);
    case Deliver(l) => StageKeeps(s, fallback, l, Delivered, s.messages + {s.loads[l].locale});
    case Break(l) => StageKeeps(s, fallback, l, Broken, s.messages);
    case Settle(l) =>
      if s.loads[l].stage.Delivered? {
        assert s.messages + {s.loads[l].locale} == s.messages;
        StageKeeps(s, fallback, l, Resolved, s.messages);
      } else {
        RejectKeeps(s, fallback, l);
      }
    case Resume(r, persistFails) => ResumeKeeps(s, fallback, r, persistFails);
  }

  lemma {:induction false} RunKeeps(s: State, fallback: string, events: seq<Event>)
    requires Inv(s, fallback) && IsRun(s, fallback, events)
    ensures Inv(After(s, fallback, events), fallback)
    decreases |events|
  {
    if events != [] {
      StepKeeps(s, fallback, events[0]);
      RunKeeps(Step(s, fallback, events[0]), fallback, events[1..]);
    }
  }

  // ---------- Main results ----------

  /** The requests made active have strictly increasing ids, and the last of them is the active one. */
  lemma AppliedIdsIncrease(fallback: string, events: seq<Event>)
    requires IsRun(Init(fallback), fallback, events)
    ensures var s := After(Init(fallback), fallback, events);
            && Increasing(s.applied)
            && (forall k :: 0 <= k < |s.applied| ==> s.applied[k] < |s.requests|)
            && (s.applied != [] ==> s.active == s.requests[s.applied[|s.applied| - 1]].locale)
  {
    RunKeeps(Init(fallback), fallback, events);
    var s := After(Init(fallback), fallback, events);
    forall k | 0 <= k < |s.applied| ensures s.applied[k] < |s.requests| {
      assert s.applied[k] in s.applied;
    }
  }

  /** The active locale changes only to one whose messages, and those of the default locale, are already applied. */
  lemma ActivatedWithItsMessages(fallback: string, events: seq<Event>, e: Event)
    requires IsRun(Init(fallback), fallback, events)
    requires Enabled(After(Init(fallback), fallback, events), e)
    ensures var s := After(Init(fallback), fallback, events);
            var after := Step(s, fallback, e);
            after.applied != s.applied || after.active != s.active ==>
              && after.active in s.messages && fallback in s.messages
              && after.applied == s.applied + [|s.requests| - 1]
  {
    RunKeeps(Init(fallback), fallback, events);
    var s := After(Init(fallback), fallback, events);
    if e.Resume? {
      ResumedWithItsMessages(s, fallback, e.request, e.persistFails);
    } else {
      OnlyResumingApplies(s, fallback, e);
    }
  }

  lemma OnlyResumingApplies(s: State, fallback: string, e: Event)
    requires Enabled(s, e) && !e.Resume?
    ensures Step(s, fallback, e).applied == s.applied && Step(s, fallback, e).active == s.active
  {
  }

  lemma ResumedWithItsMessages(s: State, fallback: string, r: nat, persistFails: bool)
    requires Inv(s, fallback) && Enabled(s, Resume(r, persistFails))
    ensures var after := Resumed(s, r, persistFails);
            after.applied != s.applied || after.active != s.active ==>
              && after.active in s.messages && fallback in s.messages
              && after.applied == s.applied + [|s.requests| - 1]
  {
  }

  /** A locale is loaded again only after its earlier loads were rejected: at most one load of it arrives. */
  lemma OneLiveLoadPerLocale(fallback: string, events: seq<Event>, k: nat, l: nat)
    requires IsRun(Init(fallback), fallback, events)
    requires var loads := After(Init(fallback), fallback, events).loads;
             && k < |loads| && l < |loads| && loads[k].locale == loads[l].locale
             && !loads[k].stage.Rejected? && !loads[l].stage.Rejected?
    ensures k == l
  {
    RunKeeps(Init(fallback), fallback, events);
  }

  /** The request whose own outcome the promise of `r` settles with, or waits for. */
  ghost function Decider(s: State, fallback: string, r: nat): (decider: nat)
    requires Inv(s, fallback) && r < |s.requests|
    ensures r <= decider < |s.requests| && !s.requests[decider].phase.Adopted?
    ensures s.requests[r].phase.Adopted? ==> r < decider
    decreases |s.requests| - r
  {
    assert WellFormed(s.loads, fallback, |s.requests|, r, s.requests[r]);
    if s.requests[r].phase.Adopted? then Decider(s, fallback, s.requests[r].phase.target) else r
  }

  /** The path follows the promises that the requests have taken over, one after another. */
  ghost predicate AdoptionChain(s: State, path: seq<nat>) {
    && path != [] && (forall k :: 0 <= k < |path| ==> path[k] < |s.requests|)
    && (forall k :: 0 < k < |path| ==> s.requests[path[k - 1]].phase == Adopted(path[k]))
  }

  lemma ChainGrows(s: State, r: nat, rest: seq<nat>)
    requires AdoptionChain(s, rest) && Increasing(rest) && r < rest[0]
    requires r < |s.requests| && s.requests[r].phase == Adopted(rest[0])
    ensures AdoptionChain(s, [r] + rest) && Increasing([r] + rest)
  {
    var path := [r] + rest;
    assert forall k :: 1 <= k < |path| ==> path[k] == rest[k - 1] >= rest[0];
  }

  /** A chain of adoptions from a request goes to strictly later ones and ends at its decider, which adopted nothing. */
  lemma {:induction false} AdoptionsEnd(s: State, fallback: string, r: nat) returns (path: seq<nat>)
    requires Inv(s, fallback) && r < |s.requests|
    ensures AdoptionChain(s, path) && Increasing(path)
    ensures path[0] == r && path[|path| - 1] == Decider(s, fallback, r)
    ensures !s.requests[path[|path| - 1]].phase.Adopted?
    decreases |s.requests| - r
  {
    assert WellFormed(s.loads, fallback, |s.requests|, r, s.requests[r]);
    if s.requests[r].phase.Adopted? {
      var rest := AdoptionsEnd(s, fallback, s.requests[r].phase.target);
      path := [r] + rest;
      ChainGrows(s, r, rest);
    } else {
      path := [r];
    }
  }

  /** No other chain from the request ends at one that adopted nothing. */
  lemma {:induction false} AdoptionsAreUnique(s: State, fallback: string, path: seq<nat>)
    requires Inv(s, fallback) && AdoptionChain(s, path) && !s.requests[path[|path| - 1]].phase.Adopted?
    ensures path[|path| - 1] == Decider(s, fallback, path[0])
    decreases |path|
  {
    if |path| > 1 {
      assert s.requests[path[0]].phase == Adopted(path[1]);
      assert forall k :: 0 < k < |path[1..]| ==> path[1..][k] == path[k + 1] && path[1..][k - 1] == path[k];
      AdoptionsAreUnique(s, fallback, path[1..]);
    }
  }

  /** Only new requests can still be made: no load and no request has a step left. */
  ghost predicate Quiescent(s: State) {
    && (forall l :: 0 <= l < |s.loads| ==> s.loads[l].stage.Resolved? || s.loads[l].stage.Rejected?)
    && (forall r :: 0 <= r < |s.requests| ==> !s.requests[r].phase.Waiting?)
  }

  lemma QuiescentMeansNoStep(s: State, fallback: string)
    requires Inv(s, fallback)
    ensures Quiescent(s) <==> forall e :: Enabled(s, e) ==> e.Call?
  {
    if !Quiescent(s) { var e := NeverStuck(s, fallback); }
  }

  /** As long as something is unfinished, something other than a new request can happen. */
  lemma NeverStuck(s: State, fallback: string) returns (e: Event)
    requires Inv(s, fallback) && !Quiescent(s)
    ensures !e.Call? && Enabled(s, e)
  {
    InvMeansInRange(s, fallback);
    if l :| 0 <= l < |s.loads| && !s.loads[l].stage.Resolved? && !s.loads[l].stage.Rejected? {
      e := if s.loads[l].stage.Pending? then Deliver(l) else Settle(l);
    } else {
      var r :| 0 <= r < |s.requests| && s.requests[r].phase.Waiting?;
      assert WellFormed(s.loads, fallback, |s.requests|, r, s.requests[r]);
      e := Resume(r, false);
    }
  }

  /**
   At quiescence the last request is applied exactly when both its loads succeeded, and then its
   locale is the active one; every superseded request has settled as a later one did.
   */
  lemma LastRequestWins(fallback: string, events: seq<Event>)
    requires IsRun(Init(fallback), fallback, events)
    requires var s := After(Init(fallback), fallback, events); Quiescent(s) && s.requests != []
    ensures var s := After(Init(fallback), fallback, events); Inv(s, fallback) && LoadsInRange(s)
    ensures var s := After(Init(fallback), fallback, events);
            var last := |s.requests| - 1;
            && (s.requests[last].phase.Applied? <==> BothResolved(s, last))
            && (BothResolved(s, last) ==> s.active == s.requests[last].locale)
            && (forall r :: 0 <= r < |s.requests| ==>
                  var d := s.requests[Decider(s, fallback, r)].phase; d.Applied? || d.Failed?)
  {
    RunKeeps(Init(fallback), fallback, events);
    var s := After(Init(fallback), fallback, events);
    var last := |s.requests| - 1;
    InvMeansInRange(s, fallback);
    assert WellFormed(s.loads, fallback, |s.requests|, last, s.requests[last]);
    if s.requests[last].phase.Applied? { AppliedLastIsActive(s, fallback); }
  }

  lemma AppliedLastIsActive(s: State, fallback: string)
    requires AppliedInOrder(s.requests, s.applied, s.active, s.stored, fallback)
    requires s.requests != [] && s.requests[|s.requests| - 1].phase.Applied?
    ensures s.active == s.requests[|s.requests| - 1].locale
  {
    var last := |s.requests| - 1;
    assert IsApplied(s.requests, last);
    var i :| 0 <= i < |s.applied| && s.applied[i] == last;
    assert s.applied[|s.applied| - 1] in s.applied;
    assert IsApplied(s.requests, s.applied[|s.applied| - 1]);
  }

  // ---------- Nothing is undone, and everything finishes ----------

  ghost predicate Extends(s: State, after: State) {
    && s.messages <= after.messages
    && |s.applied| <= |after.applied| && after.applied[..|s.applied|] == s.applied
    && |s.requests| <= |after.requests|
    && (forall r :: 0 <= r < |s.requests| ==> SameRequest(s.requests[r], after.requests[r]))
  }

  ghost predicate SameRequest(request: Request, after: Request) {
    after == request || (request.phase.Waiting? && after == request.(phase := after.phase))
  }

  lemma StepExtends(s: State, fallback: string, e: Event)
    requires Enabled(s, e)
    ensures Extends(s, Step(s, fallback, e))
  {
  }

  /** A settled or adopting promise stays as it is, and what was applied stays applied. */
  lemma {:induction false} RunExtends(s: State, fallback: string, events: seq<Event>)
    requires IsRun(s, fallback, events)
    ensures Extends(s, After(s, fallback, events))
    decreases |events|
  {
    if events != [] {
      StepExtends(s, fallback, events[0]);
      var next := Step(s, fallback, events[0]);
      RunExtends(next, fallback, events[1..]);
      var after := After(s, fallback, events);
      assert after.applied[..|s.applied|] == after.applied[..|next.applied|][..|s.applied|];
      assert forall r :: 0 <= r < |s.requests| ==>
        SameRequest(s.requests[r], next.requests[r]) && SameRequest(next.requests[r], after.requests[r]);
    }
  }

  // ---------- What is stored ----------

  /** In a run that ends in `final`, this event stored its locale. */
  predicate Stores(final: State, e: Event) {
    && e.Resume? && !e.persistFails && IsApplied(final.requests, e.request) && final.requests[e.request].persist
  }

  /** The last request that stored its locale. */
  function LastStored(final: State, events: seq<Event>): Option<nat> {
    if events == [] then None else
      var later := LastStored(final, events[1..]);
      if later.Some? then later else if Stores(final, events[0]) then Some(events[0].request) else None
  }

  lemma StepStores(s: State, fallback: string, e: Event, final: State)
    requires Enabled(s, e) && Extends(Step(s, fallback, e), final)
    ensures Step(s, fallback, e).stored == if Stores(final, e) then Some(e.request) else s.stored
  {
    var t := Step(s, fallback, e);
    if e.Resume? { assert SameRequest(t.requests[e.request], final.requests[e.request]); }
  }

  /** What is stored at the end of a run is the latest locale that was applied, was to be stored, and could be. */
  lemma {:induction false} StoredIsLatest(s: State, fallback: string, events: seq<Event>)
    requires IsRun(s, fallback, events)
    ensures var after := After(s, fallback, events);
            after.stored == if LastStored(after, events).Some? then LastStored(after, events) else s.stored
    decreases |events|
  {
    if events != [] {
      var next := Step(s, fallback, events[0]);
      RunExtends(next, fallback, events[1..]);
      StepStores(s, fallback, events[0], After(s, fallback, events));
      StoredIsLatest(next, fallback, events[1..]);
    }
  }

  function StageRank(stage: Stage): nat {
    match stage
    case Pending => 2
    case Delivered => 1
    case Broken => 1
    case Resolved => 0
    case Rejected => 0
  }

  function LoadsRank(loads: seq<Load>): nat {
    if loads == [] then 0 else LoadsRank(loads[..|loads| - 1]) + StageRank(loads[|loads| - 1].stage)
  }

  function RequestsRank(requests: seq<Request>): nat {
    if requests == [] then 0 else
      RequestsRank(requests[..|requests| - 1]) + if requests[|requests| - 1].phase.Waiting? then 1 else 0
  }

  function Rank(s: State): nat { LoadsRank(s.loads) + RequestsRank(s.requests) }

  lemma {:induction false} LoadsRankDrops(loads: seq<Load>, l: nat, stage: Stage)
    requires l < |loads| && StageRank(stage) < StageRank(loads[l].stage)
    ensures LoadsRank(WithStage(loads, l, stage)) < LoadsRank(loads)
  {
    var after, front := WithStage(loads, l, stage), loads[..|loads| - 1];
    if l < |front| {
      assert after[..|after| - 1] == WithStage(front, l, stage);
      LoadsRankDrops(front, l, stage);
    } else {
      assert after[..|after| - 1] == front;
    }
  }

  lemma {:induction false} RequestsRankDrops(requests: seq<Request>, r: nat, after: Request)
    requires r < |requests| && requests[r].phase.Waiting? && !after.phase.Waiting?
    ensures RequestsRank(requests[r := after]) < RequestsRank(requests)
  {
    var changed, front := requests[r := after], requests[..|requests| - 1];
    if r < |front| {
      assert changed[..|changed| - 1] == front[r := after];
      RequestsRankDrops(front, r, after);
    } else {
      assert changed[..|changed| - 1] == front;
    }
  }

  lemma StepDropsRank(s: State, fallback: string, e: Event)
    requires Enabled(s, e) && !e.Call?
    ensures Rank(Step(s, fallback, e)) < Rank(s)
  {
    match e
    case Deliver(l) => LoadsRankDrops(s.loads, l, Delivered);
    case Break(l) => LoadsRankDrops(s.loads, l, Broken);
    case Settle(l) => LoadsRankDrops(s.loads, l, if s.loads[l].stage.Delivered? then Resolved else Rejected);
    case Resume(r, persistFails) =>
      var after := Resumed(s, r, persistFails);
      RequestsRankDrops(s.requests, r, after.requests[r]);
  }

  /** Without new requests only so many steps are left, so every run comes to rest. */
  lemma {:induction false} RequestsComeToRest(s: State, fallback: string, events: seq<Event>)
    requires IsRun(s, fallback, events)
    requires forall k :: 0 <= k < |events| ==> !events[k].Call?
    ensures |events| + Rank(After(s, fallback, events)) <= Rank(s)
    decreases |events|
  {
    if events != [] {
      StepDropsRank(s, fallback, events[0]);
      RequestsComeToRest(Step(s, fallback, events[0]), fallback, events[1..]);
    }
  }
}
