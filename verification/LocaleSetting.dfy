/**
 Saved changes of the locale setting: each one activates a locale, saves the setting, and goes back to
 the previous locale when saving fails. A promise chain runs the changes one after another.
 */
module LocaleSetting {

  /** How a change settled; the last two reject although the locale was activated. */
  datatype Outcome = Saved | NotActivated | GoneBack | NotGoneBack

  datatype Phase =
    | Queued
    | Activating(previous: string)
    | Saving(previous: string)
    | GoingBack(previous: string)
    | Settled(outcome: Outcome)

  datatype Change = Change(locale: string, phase: Phase)

  datatype State = State(changes: seq<Change>, active: string)
  {
    function With(i: nat, phase: Phase): State
      requires i < |changes|
    {
      this.(changes := changes[i := changes[i].(phase := phase)])
    }
  }

  datatype Event =
    | Request(locale: string)
    | Start(i: nat)
    | ActivationEnds(i: nat, ok: bool)
    | SavingEnds(i: nat, ok: bool)
    | GoingBackEnds(i: nat, ok: bool)

  /** The operation of a change is chained to the settling of the one before it. */
  predicate Enabled(s: State, e: Event) {
    match e
    case Request(_) => true
    case Start(i) => i < |s.changes| && s.changes[i].phase.Queued? && (i > 0 ==> s.changes[i - 1].phase.Settled?)
    case ActivationEnds(i, _) => i < |s.changes| && s.changes[i].phase.Activating?
    case SavingEnds(i, _) => i < |s.changes| && s.changes[i].phase.Saving?
    case GoingBackEnds(i, _) => i < |s.changes| && s.changes[i].phase.GoingBack?
  }

  function Step(s: State, e: Event): State
    requires Enabled(s, e)
  {
    match e
    case Request(locale) => s.(changes := s.changes + [Change(locale, Queued)])
    case Start(i) => s.With(i, Activating(s.active))
    case ActivationEnds(i, ok) =>
      if ok then s.With(i, Saving(s.changes[i].phase.previous)).(active := s.changes[i].locale)
      else s.With(i, Settled(NotActivated))
    case SavingEnds(i, ok) =>
      if ok then s.With(i, Settled(Saved)) else s.With(i, GoingBack(s.changes[i].phase.previous))
    case GoingBackEnds(i, ok) =>
      if ok then s.With(i, Settled(GoneBack)).(active := s.changes[i].phase.previous)
      else s.With(i, Settled(NotGoneBack))
  }

  ghost predicate IsRun(s: State, events: seq<Event>)
    decreases |events|
  {
    events == [] || (Enabled(s, events[0]) && IsRun(Step(s, events[0]), events[1..]))
  }

  ghost function After(s: State, events: seq<Event>): State
    requires IsRun(s, events)
    decreases |events|
  {
    if events == [] then s else After(Step(s, events[0]), events[1..])
  }

  // ---------- The invariant ----------

  /** The locale of the change is in effect: it was activated, and not taken back. */
  predicate InEffect(phase: Phase) {
    phase.Saving? || phase.GoingBack? || phase == Settled(Saved) || phase == Settled(NotGoneBack)
  }

  /** The locale of the latest change in effect. */
  function Effect(initial: string, changes: seq<Change>): string {
    if changes == [] then initial else
      var last := changes[|changes| - 1];
      if InEffect(last.phase) then last.locale else Effect(initial, changes[..|changes| - 1])
  }

  ghost predicate InOrder(changes: seq<Change>) {
    forall i, j :: 0 <= i < j < |changes| && !changes[j].phase.Queued? ==> changes[i].phase.Settled?
  }

  ghost predicate RemembersPrevious(initial: string, changes: seq<Change>) {
    forall i :: 0 <= i < |changes|
                && (changes[i].phase.Activating? || changes[i].phase.Saving? || changes[i].phase.GoingBack?)
      ==> changes[i].phase.previous == Effect(initial, changes[..i])
  }

  ghost predicate Inv(initial: string, s: State) {
    InOrder(s.changes) && RemembersPrevious(initial, s.changes) && s.active == Effect(initial, s.changes)
  }

  /** Changes that are still queued have no effect. */
  lemma {:induction false} QueuedHaveNoEffect(initial: string, changes: seq<Change>, n: nat)
    requires n <= |changes| && forall i :: n <= i < |changes| ==> changes[i].phase.Queued?
    ensures Effect(initial, changes) == Effect(initial, changes[..n])
  {
    if n == |changes| {
      assert changes[..n] == changes;
    } else {
      var front := changes[..|changes| - 1];
      QueuedHaveNoEffect(initial, front, n);
      assert front[..n] == changes[..n];
    }
  }

  /** The effect after change i has moved, everything behind it being queued. */
  lemma EffectOfMove(initial: string, s: State, i: nat, phase: Phase)
    requires i < |s.changes| && forall k :: i < k < |s.changes| ==> s.changes[k].phase.Queued?
    ensures var changes := s.With(i, phase).changes;
            Effect(initial, changes) == if InEffect(phase) then s.changes[i].locale else Effect(initial, s.changes[..i])
  {
    var changes := s.With(i, phase).changes;
    QueuedHaveNoEffect(initial, changes, i + 1);
    assert changes[..i + 1][..i] == s.changes[..i];
  }

  lemma MoveKeepsOrder(initial: string, s: State, i: nat, phase: Phase)
    requires Inv(initial, s) && i < |s.changes| && !phase.Queued?
    requires forall k :: 0 <= k < i ==> s.changes[k].phase.Settled?
    requires forall k :: i < k < |s.changes| ==> s.changes[k].phase.Queued?
    requires !phase.Settled? ==> phase.previous == Effect(initial, s.changes[..i])
    ensures InOrder(s.With(i, phase).changes) && RemembersPrevious(initial, s.With(i, phase).changes)
  {
  }

  /** A change can move only when all earlier ones have settled and all later ones are queued. */
  lemma MoverIsAlone(initial: string, s: State, e: Event)
    requires Inv(initial, s) && Enabled(s, e) && !e.Request?
    ensures forall k :: 0 <= k < e.i ==> s.changes[k].phase.Settled?
    ensures forall k :: e.i < k < |s.changes| ==> s.changes[k].phase.Queued?
  {
  }

  /** Moving change i to a phase keeps the invariant if the active locale is set accordingly. */
  lemma MoveKeeps(initial: string, s: State, i: nat, phase: Phase, active: string)
    requires Inv(initial, s) && i < |s.changes| && !phase.Queued?
    requires forall k :: 0 <= k < i ==> s.changes[k].phase.Settled?
    requires forall k :: i < k < |s.changes| ==> s.changes[k].phase.Queued?
    requires !phase.Settled? ==> phase.previous == Effect(initial, s.changes[..i])
    requires active == if InEffect(phase) then s.changes[i].locale else Effect(initial, s.changes[..i])
    ensures Inv(initial, s.With(i, phase).(active := active))
  {
    MoveKeepsOrder(initial, s, i, phase);
    EffectOfMove(initial, s, i, phase);
  }

  /** What is active while change i is in a phase. */
  lemma ActiveWhile(initial: string, s: State, i: nat)
    requires Inv(initial, s) && i < |s.changes| && forall k :: i < k < |s.changes| ==> s.changes[k].phase.Queued?
    ensures s.active == if InEffect(s.changes[i].phase) then s.changes[i].locale else Effect(initial, s.changes[..i])
  {
    EffectOfMove(initial, s, i, s.changes[i].phase);
    assert s.With(i, s.changes[i].phase).changes == s.changes;
  }

  lemma RequestKeeps(initial: string, s: State, locale: string)
    requires Inv(initial, s)
    ensures Inv(initial, s.(changes := s.changes + [Change(locale, Queued)]))
  {
    var changes := s.changes + [Change(locale, Queued)];
    QueuedHaveNoEffect(initial, changes, |s.changes|);
    assert changes[..|s.changes|] == s.changes;
    assert forall i :: 0 <= i < |s.changes| ==> changes[..i] == s.changes[..i];
  }

  lemma StepKeeps(initial: string, s: State, e: Event)
    requires Inv(initial, s) && Enabled(s, e)
    ensures Inv(initial, Step(s, e))
  {
    if e.Request? {
      RequestKeeps(initial, s, e.locale);
    } else {
      MoverIsAlone(initial, s, e);
      ActiveWhile(initial, s, e.i);
      var after := Step(s, e);
      MoveKeeps(initial, s, e.i, after.changes[e.i].phase, after.active);
    }
  }

  lemma {:induction false} RunKeeps(initial: string, s: State, events: seq<Event>)
    requires Inv(initial, s) && IsRun(s, events)
    ensures Inv(initial, After(s, events))
    decreases |events|
  {
    if events != [] {
      StepKeeps(initial, s, events[0]);
      RunKeeps(initial, Step(s, events[0]), events[1..]);
    }
  }

  // ---------- Main results ----------

  lemma {:induction false} EffectIsTheLast(initial: string, changes: seq<Change>, k: nat)
    requires k < |changes| && InEffect(changes[k].phase)
    requires forall i :: k < i < |changes| ==> !InEffect(changes[i].phase)
    ensures Effect(initial, changes) == changes[k].locale
  {
    if k < |changes| - 1 { EffectIsTheLast(initial, changes[..|changes| - 1], k); }
  }

  lemma {:induction false} NoneInEffect(initial: string, changes: seq<Change>)
    requires forall i :: 0 <= i < |changes| ==> !InEffect(changes[i].phase)
    ensures Effect(initial, changes) == initial
  {
    if changes != [] { NoneInEffect(initial, changes[..|changes| - 1]); }
  }

  /**
   Once every change has settled, the active locale is that of the latest change that was saved or
   could not be taken back; without one it is the initial locale. So a change that fails to save and
   is taken back leaves no trace, whatever was requested meanwhile.
   */
  lemma LatestSavedChangeDecides(initial: string, events: seq<Event>)
    requires IsRun(State([], initial), events)
    requires forall i :: 0 <= i < |After(State([], initial), events).changes| ==>
      After(State([], initial), events).changes[i].phase.Settled?
    ensures var s := After(State([], initial), events);
            && (forall k :: 0 <= k < |s.changes| && Lasts(s.changes, k) ==> s.active == s.changes[k].locale)
            && ((forall k :: 0 <= k < |s.changes| ==> !InEffect(s.changes[k].phase)) ==> s.active == initial)
  {
    RunKeeps(initial, State([], initial), events);
    var s := After(State([], initial), events);
    forall k | 0 <= k < |s.changes| && Lasts(s.changes, k) ensures s.active == s.changes[k].locale {
      EffectIsTheLast(initial, s.changes, k);
    }
    if forall k :: 0 <= k < |s.changes| ==> !InEffect(s.changes[k].phase) { NoneInEffect(initial, s.changes); }
  }

  /** Change k is in effect, and no later one is. */
  ghost predicate Lasts(changes: seq<Change>, k: nat)
    requires k < |changes|
  {
    InEffect(changes[k].phase) && forall i :: k < i < |changes| ==> !InEffect(changes[i].phase)
  }

  /** Changes run one at a time, in the order they were requested. */
  lemma ChangesRunInOrder(initial: string, events: seq<Event>, i: nat, j: nat)
    requires IsRun(State([], initial), events)
    requires var changes := After(State([], initial), events).changes;
             i < j < |changes| && !changes[j].phase.Queued?
    ensures After(State([], initial), events).changes[i].phase.Settled?
  {
    RunKeeps(initial, State([], initial), events);
  }

  // ---------- The code of one change ----------

  lemma {:induction false} RunExtends(s: State, events: seq<Event>, e: Event)
    requires IsRun(s, events) && Enabled(After(s, events), e)
    ensures IsRun(s, events + [e]) && After(s, events + [e]) == Step(After(s, events), e)
    decreases |events|
  {
    if events == [] {
      assert [e][1..] == [];
    } else {
      RunExtends(Step(s, events[0]), events[1..], e);
      assert (events + [e])[1..] == events[1..] + [e];
    }
  }

  class Coordinator {
    var changes: seq<Change>
    var active: string

    ghost function View(): State
      reads this
    {
      State(changes, active)
    }

    constructor (active: string)
      ensures View() == State([], active)
    {
      this.changes, this.active := [], active;
    }

    /** `change`, up to the operation being chained to the queue. */
    method Enqueue(locale: string) returns (i: nat)
      modifies this
      ensures i == |old(changes)| && View() == Step(old(View()), Request(locale))
    {
      i := |changes|;
      changes := changes + [Change(locale, Queued)];
    }

    method SetPhase(i: nat, phase: Phase)
      requires i < |changes|
      modifies this`changes
      ensures View() == old(View()).With(i, phase)
    {
      changes := changes[i := changes[i].(phase := phase)];
    }

    /** Activates the locale of a change whose turn has come. */
    method Activate(i: nat, activates: bool) returns (ghost events: seq<Event>)
      requires Enabled(View(), Start(i))
      modifies this
      ensures events == [Start(i), ActivationEnds(i, activates)]
      ensures IsRun(old(View()), events) && View() == After(old(View()), events)
      ensures changes == old(changes)[i := old(changes[i]).(phase :=
                if activates then Saving(old(active)) else Settled(NotActivated))]
      ensures active == if activates then old(changes[i]).locale else old(active)
    {
      ghost var start := View();
      var previousLocale := active;
      SetPhase(i, Activating(previousLocale));
      RunExtends(start, [], Start(i));
      assert [] + [Start(i)] == [Start(i)];
      RunExtends(start, [Start(i)], ActivationEnds(i, activates));
      events := [Start(i)] + [ActivationEnds(i, activates)];
      if activates {
        active := changes[i].locale;
      }
      SetPhase(i, if activates then Saving(previousLocale) else Settled(NotActivated));
    }

    /** The queued operation: activate, save, and go back to the locale read first when saving fails. */
    method RunChange(i: nat, activates: bool, saves: bool, goesBack: bool)
      returns (outcome: Outcome, ghost events: seq<Event>)
      requires Enabled(View(), Start(i))
      modifies this
      ensures IsRun(old(View()), events) && View() == After(old(View()), events)
      ensures changes == old(changes)[i := old(changes[i]).(phase := Settled(outcome))]
      ensures active == if InEffect(Settled(outcome)) then old(changes[i]).locale else old(active)
      ensures outcome ==
        if !activates then NotActivated else if saves then Saved else if goesBack then GoneBack else NotGoneBack
    {
      ghost var start := View();
      var previousLocale := active;
      events := Activate(i, activates);
      if !activates {
        return NotActivated, events;
      }
      RunExtends(start, events, SavingEnds(i, saves));
      events := events + [SavingEnds(i, saves)];
      outcome := Saved;
      if !saves {
        SetPhase(i, GoingBack(previousLocale));
        RunExtends(start, events, GoingBackEnds(i, goesBack));
        events := events + [GoingBackEnds(i, goesBack)];
        if goesBack {
          active := previousLocale;
        }
        outcome := if goesBack then GoneBack else NotGoneBack;
      }
      SetPhase(i, Settled(outcome));
    }
  }
}
