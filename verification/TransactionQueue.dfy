/**
 The promise-chain transaction lock of one SQLite connection.

 Every call of `withTransaction` is a caller with its own program counter; the
 events below are the points at which the event loop may switch to another one.
 A callback is a sequence of statements, and each statement may fail.
 */
module TransactionQueue {
  import opened Wrappers

  /** A database statement of a callback: new local variables and database, or a thrown error. */
  type Statement<!L, !D> = (L, D) -> Option<(L, D)>

  datatype Phase<L> =
    | Waiting                        // awaiting the previous tail
    | Beginning                      // holds the turn, BEGIN in flight
    | Running(pc: nat, local: L)     // statement pc (or COMMIT, after the last one) in flight
    | RollingBack
    | Finishing(ok: bool)            // about to run the finally block
    | Done(ok: bool)

  datatype Caller<!L, !D> =
    Caller(statements: seq<Statement<L, D>>, initial: L, previous: Option<nat>, phase: Phase<L>)

  /**
   `tail` is the map entry of the connection (the caller whose tail promise it holds),
   `settled` the tail promises already resolved, `db` the visible contents and
   `savepoint` the committed contents while a transaction is open.
   */
  datatype State<!L, !D> = State(
    callers: seq<Caller<L, D>>,
    tail: Option<nat>,
    settled: set<nat>,
    db: D,
    savepoint: Option<D>)
  {
    function Committed(): D {
      if savepoint.Some? then savepoint.value else db
    }

    function With(i: nat, phase: Phase<L>): State<L, D>
      requires i < |callers|
    {
      this.(callers := callers[i := callers[i].(phase := phase)])
    }

    /** What the connection looks like once the engine has undone the open transaction. */
    function Undone(): State<L, D> {
      this.(db := Committed(), savepoint := None)
    }
  }

  datatype Event<!L, !D> =
    | Call(statements: seq<Statement<L, D>>, initial: L)
    | Settle(i: nat)
    | Acquire(i: nat)
    | BeginOk(i: nat)
    | BeginFail(i: nat)
    | StatementOk(i: nat)
    | StatementFail(i: nat, engineRollsBack: bool)
    | CommitOk(i: nat)
    | CommitFail(i: nat, engineRollsBack: bool)
    | RollbackOk(i: nat)
    | RollbackFail(i: nat)
    | Finish(i: nat)

  function Init<L, D>(db: D): State<L, D> {
    State([], None, {}, db, None)
  }

  predicate PreviousSettled<L, D>(s: State<L, D>, i: nat)
    requires i < |s.callers|
  {
    var previous := s.callers[i].previous;
    previous.None? || previous.value in s.settled
  }

  predicate Enabled<L, D>(s: State<L, D>, e: Event<L, D>) {
    if e.Call? then true
    else if e.i >= |s.callers| then false
    else
      var c := s.callers[e.i];
      match e
      case Settle(i) => c.phase.Done? && PreviousSettled(s, i) && i !in s.settled
      case Acquire(i) => c.phase.Waiting? && PreviousSettled(s, i)
      case BeginOk(_) => c.phase.Beginning? && s.savepoint.None?
      case BeginFail(_) => c.phase.Beginning?
      case StatementOk(_) => c.phase.Running? && c.phase.pc < |c.statements|
      case StatementFail(_, _) => c.phase.Running? && c.phase.pc < |c.statements|
      case CommitOk(_) => c.phase.Running? && c.phase.pc == |c.statements| && s.savepoint.Some?
      case CommitFail(_, _) => c.phase.Running? && c.phase.pc == |c.statements|
      case RollbackOk(_) => c.phase.RollingBack? && s.savepoint.Some?
      case RollbackFail(_) => c.phase.RollingBack?
      case Finish(_) => c.phase.Finishing?
  }

  function Apply<L, D>(s: State<L, D>, e: Event<L, D>): State<L, D>
    requires Enabled(s, e)
  {
    match e
    case Call(statements, initial) =>
      s.(callers := s.callers + [Caller(statements, initial, s.tail, Waiting)], tail := Some(|s.callers|))
    case Settle(i) => s.(settled := s.settled + {i})
    case Acquire(i) => s.With(i, Beginning)
    case BeginOk(i) => s.With(i, Running(0, s.callers[i].initial)).(savepoint := Some(s.db))
    case BeginFail(i) => s.With(i, Finishing(false))
    case StatementOk(i) =>
      var c := s.callers[i];
      var next := c.statements[c.phase.pc](c.phase.local, s.db);
      if next.None? then s.With(i, RollingBack)
      else s.With(i, Running(c.phase.pc + 1, next.value.0)).(db := next.value.1)
    case StatementFail(i, undo) => (if undo then s.Undone() else s).With(i, RollingBack)
    case CommitOk(i) => s.With(i, Finishing(true)).(savepoint := None)
    case CommitFail(i, undo) => (if undo then s.Undone() else s).With(i, RollingBack)
    case RollbackOk(i) => s.Undone().With(i, Finishing(false))
    case RollbackFail(i) => s.With(i, Finishing(false))
    case Finish(i) =>
      s.With(i, Done(s.callers[i].phase.ok)).(tail := if s.tail == Some(i) then None else s.tail)
  }

  ghost predicate IsRun<L, D>(s: State<L, D>, events: seq<Event<L, D>>)
    decreases |events|
  {
    events == [] || (Enabled(s, events[0]) && IsRun(Apply(s, events[0]), events[1..]))
  }

  ghost function After<L, D>(s: State<L, D>, events: seq<Event<L, D>>): State<L, D>
    requires IsRun(s, events)
    decreases |events|
  {
    if events == [] then s else After(Apply(s, events[0]), events[1..])
  }

  // ---------- The serial reference: whole callbacks, one after another ----------

  /** Runs a callback without interruption. */
  function Execute<L, D>(statements: seq<Statement<L, D>>, local: L, db: D): Option<(L, D)> {
    if statements == [] then Some((local, db)) else
      var last := |statements| - 1;
      var before := Execute(statements[..last], local, db);
      if before.None? then None else statements[last](before.value.0, before.value.1)
  }

  predicate Succeeded<L, D>(c: Caller<L, D>) {
    (c.phase.Finishing? || c.phase.Done?) && c.phase.ok
  }

  /** The successful callers' whole callbacks, in call order. */
  function Replay<L, D>(origin: D, callers: seq<Caller<L, D>>): D {
    if callers == [] then origin else
      var last := callers[|callers| - 1];
      var before := Replay(origin, callers[..|callers| - 1]);
      if !Succeeded(last) then before else
        var ran := Execute(last.statements, last.initial, before);
        if ran.None? then before else ran.value.1
  }

  // ---------- What every event keeps ----------

  predicate Holds<L, D>(c: Caller<L, D>) {
    !c.phase.Waiting? && !c.phase.Done?
  }

  /** Turns are granted in call order, and only after every earlier call is over. */
  ghost predicate Fifo<L, D>(s: State<L, D>) {
    && (forall i, j :: 0 <= i < j < |s.callers| && !s.callers[j].phase.Waiting? ==> s.callers[i].phase.Done?)
    && (forall j :: 0 <= j < |s.callers| && s.callers[j].previous.None? ==>
          forall i :: 0 <= i < j ==> s.callers[i].phase.Done?)
    && (forall j :: 0 <= j < |s.callers| && s.callers[j].previous.Some? ==>
          s.callers[j].previous.value == j - 1)
  }

  /** The connection has a map entry, the latest caller's tail, exactly while that caller is unfinished. */
  ghost predicate TailIsLatest<L, D>(s: State<L, D>) {
    var n := |s.callers|;
    s.tail == if n > 0 && !s.callers[n - 1].phase.Done? then Some(n - 1) else None
  }

  ghost predicate SettledAreDone<L, D>(s: State<L, D>) {
    forall i :: i in s.settled ==> i < |s.callers| && s.callers[i].phase.Done?
  }

  /** The committed contents are those of the serial run; an open callback has run a prefix on top. */
  ghost predicate Serial<L, D>(origin: D, s: State<L, D>) {
    && s.Committed() == Replay(origin, s.callers)
    && (forall i :: 0 <= i < |s.callers| && s.callers[i].phase.Running? ==>
          var c := s.callers[i];
          && s.savepoint.Some?
          && c.phase.pc <= |c.statements|
          && Execute(c.statements[..c.phase.pc], c.initial, s.savepoint.value) == Some((c.phase.local, s.db)))
  }

  ghost predicate Inv<L, D>(origin: D, s: State<L, D>) {
    Fifo(s) && TailIsLatest(s) && SettledAreDone(s) && Serial(origin, s)
  }

  lemma {:induction false} ReplaySame<L, D>(origin: D, a: seq<Caller<L, D>>, b: seq<Caller<L, D>>)
    requires |a| == |b|
    requires forall i :: 0 <= i < |a| ==>
      a[i].statements == b[i].statements && a[i].initial == b[i].initial && Succeeded(a[i]) == Succeeded(b[i])
    ensures Replay(origin, a) == Replay(origin, b)
  {
    if a != [] {
      ReplaySame(origin, a[..|a| - 1], b[..|b| - 1]);
    }
  }

  lemma {:induction false} ReplayIgnoresFailures<L, D>(origin: D, callers: seq<Caller<L, D>>, n: nat)
    requires n <= |callers|
    requires forall i :: n <= i < |callers| ==> !Succeeded(callers[i])
    ensures Replay(origin, callers) == Replay(origin, callers[..n])
  {
    if n == |callers| {
      assert callers[..n] == callers;
    } else {
      var m := |callers| - 1;
      assert callers[..m][..n] == callers[..n];
      ReplayIgnoresFailures(origin, callers[..m], n);
    }
  }

  /** Replacing the phase of one caller that neither was nor becomes a success leaves the replay alone. */
  lemma ReplayWith<L, D>(origin: D, s: State<L, D>, i: nat, phase: Phase<L>)
    requires i < |s.callers|
    requires Succeeded(s.callers[i]) == Succeeded(s.callers[i].(phase := phase))
    ensures Replay(origin, s.With(i, phase).callers) == Replay(origin, s.callers)
  {
    ReplaySame(origin, s.With(i, phase).callers, s.callers);
  }

  lemma CommitExtendsReplay<L, D>(origin: D, s: State<L, D>, i: nat)
    requires Inv(origin, s)
    requires Enabled(s, CommitOk(i))
    ensures Replay(origin, s.With(i, Finishing(true)).callers) == s.db
  {
    var c := s.callers[i];
    var after := s.With(i, Finishing(true)).callers;
    assert c.statements[..|c.statements|] == c.statements;
    ReplayIgnoresFailures(origin, s.callers, i);
    ReplayIgnoresFailures(origin, after, i + 1);
    assert after[..i + 1][..i] == s.callers[..i];
  }

  lemma StatementExtendsExecute<L, D>(c: Caller<L, D>, db: D)
    requires c.phase.Running? && c.phase.pc < |c.statements|
    ensures var before := Execute(c.statements[..c.phase.pc], c.initial, db);
            Execute(c.statements[..c.phase.pc + 1], c.initial, db)
              == if before.None? then None else c.statements[c.phase.pc](before.value.0, before.value.1)
  {
    assert c.statements[..c.phase.pc + 1][..c.phase.pc] == c.statements[..c.phase.pc];
  }

  lemma CallKeeps<L, D>(origin: D, s: State<L, D>, e: Event<L, D>)
    requires Inv(origin, s) && e.Call?
    ensures Inv(origin, Apply(s, e))
  {
    var t := Apply(s, e);
    var n := |s.callers|;
    ReplayIgnoresFailures(origin, t.callers, n);
    assert t.callers[..n] == s.callers;
    if s.tail.None? {
      forall i | 0 <= i < n ensures t.callers[i].phase.Done? {
        if i < n - 1 { assert !s.callers[n - 1].phase.Waiting?; }
      }
    }
  }

  /** A caller may proceed only once every earlier call is over. */
  lemma PreviousSettledMeansAllDone<L, D>(s: State<L, D>, i: nat)
    requires Fifo(s) && SettledAreDone(s)
    requires i < |s.callers| && PreviousSettled(s, i)
    ensures forall j :: 0 <= j < i ==> s.callers[j].phase.Done?
  {
  }

  /** What any event other than a new call does to the callers: one of them moves forward. */
  ghost predicate Moves<L, D>(s: State<L, D>, t: State<L, D>, i: nat) {
    && i < |s.callers| == |t.callers|
    && t.callers == s.callers[i := s.callers[i].(phase := t.callers[i].phase)]
    && (s.callers[i].phase.Done? ==> t.callers[i].phase == s.callers[i].phase)
    && (t.callers[i].phase.Waiting? ==> s.callers[i].phase.Waiting?)
    && (s.callers[i].phase.Waiting? && !t.callers[i].phase.Waiting? ==>
          PreviousSettled(s, i) && t.callers[i].phase.Beginning?)
    && t.tail == (if t.callers[i].phase.Done? && s.tail == Some(i) then None else s.tail)
    && (forall k :: k in t.settled ==> k in s.settled || (k == i && s.callers[i].phase.Done?))
  }

  lemma EventMoves<L, D>(s: State<L, D>, e: Event<L, D>)
    requires Enabled(s, e) && !e.Call? && TailIsLatest(s)
    ensures Moves(s, Apply(s, e), e.i)
  {
  }

  lemma FifoKept<L, D>(s: State<L, D>, t: State<L, D>, i: nat)
    requires Fifo(s) && TailIsLatest(s) && SettledAreDone(s)
    requires Moves(s, t, i)
    ensures Fifo(t) && TailIsLatest(t) && SettledAreDone(t)
  {
    if PreviousSettled(s, i) { PreviousSettledMeansAllDone(s, i); }
    forall j, k | 0 <= j < k < |t.callers| && !t.callers[k].phase.Waiting? ensures t.callers[j].phase.Done? {
      assert k != i ==> !s.callers[k].phase.Waiting?;
      assert s.callers[j].phase.Done?;
    }
  }

  /** Nobody else is inside a transaction while caller i moves. */
  lemma HolderIsAlone<L, D>(s: State<L, D>, i: nat)
    requires Fifo(s) && i < |s.callers| && Holds(s.callers[i])
    ensures forall j :: 0 <= j < |s.callers| && Holds(s.callers[j]) ==> j == i
  {
  }

  lemma StatementKeepsSerial<L, D>(origin: D, s: State<L, D>, e: Event<L, D>)
    requires Inv(origin, s) && Enabled(s, e) && e.StatementOk?
    ensures Serial(origin, Apply(s, e))
  {
    var i, t := e.i, Apply(s, e);
    HolderIsAlone(s, i);
    ReplayWith(origin, s, i, t.callers[i].phase);
    StatementExtendsExecute(s.callers[i], s.savepoint.value);
  }

  lemma CommitKeepsSerial<L, D>(origin: D, s: State<L, D>, e: Event<L, D>)
    requires Inv(origin, s) && Enabled(s, e) && e.CommitOk?
    ensures Serial(origin, Apply(s, e))
  {
    HolderIsAlone(s, e.i);
    CommitExtendsReplay(origin, s, e.i);
  }

  lemma OthersKeepSerial<L, D>(origin: D, s: State<L, D>, e: Event<L, D>)
    requires Inv(origin, s) && Enabled(s, e)
    requires !e.Call? && !e.StatementOk? && !e.CommitOk? && !e.Settle?
    ensures Serial(origin, Apply(s, e))
  {
    var i, t := e.i, Apply(s, e);
    if e.Acquire? { PreviousSettledMeansAllDone(s, i); } else { HolderIsAlone(s, i); }
    ReplayWith(origin, s, i, t.callers[i].phase);
    assert t.callers == s.With(i, t.callers[i].phase).callers;
    if e.BeginOk? { assert t.callers[i].statements[..0] == []; }
  }

  lemma StepKeeps<L, D>(origin: D, s: State<L, D>, e: Event<L, D>)
    requires Inv(origin, s) && Enabled(s, e)
    ensures Inv(origin, Apply(s, e))
  {
    if e.Call? {
      CallKeeps(origin, s, e);
    } else {
      EventMoves(s, e);
      FifoKept(s, Apply(s, e), e.i);
      if e.StatementOk? {
        StatementKeepsSerial(origin, s, e);
      } else if e.CommitOk? {
        CommitKeepsSerial(origin, s, e);
      } else if !e.Settle? {
        OthersKeepSerial(origin, s, e);
      }
    }
  }

  lemma {:induction false} RunKeeps<L, D>(origin: D, s: State<L, D>, events: seq<Event<L, D>>)
    requires Inv(origin, s) && IsRun(s, events)
    ensures Inv(origin, After(s, events))
    decreases |events|
  {
    if events != [] {
      StepKeeps(origin, s, events[0]);
      RunKeeps(origin, Apply(s, events[0]), events[1..]);
    }
  }

  // ---------- Main results about every run ----------

  /** At most one caller holds the turn, and turns are granted in call order. */
  lemma TurnsAreExclusiveAndFifo<L, D>(db: D, events: seq<Event<L, D>>)
    requires IsRun(Init(db), events)
    ensures var s := After(Init(db), events);
            && (forall i, j :: (0 <= i < |s.callers| && 0 <= j < |s.callers|
                  && Holds(s.callers[i]) && Holds(s.callers[j])) ==> i == j)
            && (forall i, j :: 0 <= i < j < |s.callers| && !s.callers[j].phase.Waiting?
                  ==> s.callers[i].phase.Done?)
  {
    RunKeeps(db, Init(db), events);
    HoldersAreOne(After(Init(db), events));
  }

  lemma HoldersAreOne<L, D>(s: State<L, D>)
    requires Fifo(s)
    ensures forall i, j :: (0 <= i < |s.callers| && 0 <= j < |s.callers|
      && Holds(s.callers[i]) && Holds(s.callers[j])) ==> i == j
  {
  }

  /** The connection has a tail-map entry exactly while some call is unfinished. */
  lemma TailEntryMeansUnfinished<L, D>(db: D, events: seq<Event<L, D>>)
    requires IsRun(Init(db), events)
    ensures var s := After(Init(db), events);
            s.tail.Some? <==> exists i :: 0 <= i < |s.callers| && !s.callers[i].phase.Done?
  {
    RunKeeps(db, Init(db), events);
    var s := After(Init(db), events);
    var n := |s.callers|;
    if n > 0 && s.callers[n - 1].phase.Done? {
      assert forall i :: 0 <= i < n - 1 ==> s.callers[i].phase.Done?;
    }
  }

  /** However the calls interleave and fail, the committed contents are those of the serial run. */
  lemma CommittedIsSerial<L, D>(db: D, events: seq<Event<L, D>>)
    requires IsRun(Init(db), events)
    ensures var s := After(Init(db), events); s.Committed() == Replay(db, s.callers)
  {
    RunKeeps(db, Init(db), events);
  }

  // ---------- Every call passes its turn on ----------

  function CallerRank<L, D>(s: State<L, D>, i: nat): nat
    requires i < |s.callers|
  {
    var n := |s.callers[i].statements|;
    (if i in s.settled then 0 else 1) +
    match s.callers[i].phase
    case Waiting => n + 5
    case Beginning => n + 4
    case Running(pc, _) => if pc <= n then n - pc + 3 else 3
    case RollingBack => 2
    case Finishing(_) => 1
    case Done(_) => 0
  }

  function Rank<L, D>(s: State<L, D>, n: nat): nat
    requires n <= |s.callers|
  {
    if n == 0 then 0 else Rank(s, n - 1) + CallerRank(s, n - 1)
  }

  lemma {:induction false} RankDrops<L, D>(s: State<L, D>, t: State<L, D>, i: nat, n: nat)
    requires n <= |s.callers| == |t.callers|
    requires i < |s.callers| && CallerRank(t, i) < CallerRank(s, i)
    requires forall j :: 0 <= j < |s.callers| && j != i ==> CallerRank(t, j) == CallerRank(s, j)
    ensures if i < n then Rank(t, n) < Rank(s, n) else Rank(t, n) == Rank(s, n)
  {
    if n > 0 { RankDrops(s, t, i, n - 1); }
  }

  lemma StepDropsRank<L, D>(origin: D, s: State<L, D>, e: Event<L, D>)
    requires Inv(origin, s) && Enabled(s, e) && !e.Call?
    ensures |Apply(s, e).callers| == |s.callers|
    ensures Rank(Apply(s, e), |s.callers|) < Rank(s, |s.callers|)
  {
    RankDrops(s, Apply(s, e), e.i, |s.callers|);
  }

  /** Without new calls the callers can take only so many more steps. */
  lemma {:induction false} CallersTakeBoundedSteps<L, D>(origin: D, s: State<L, D>, events: seq<Event<L, D>>)
    requires Inv(origin, s) && IsRun(s, events)
    requires forall k :: 0 <= k < |events| ==> !events[k].Call?
    ensures |After(s, events).callers| == |s.callers|
    ensures |events| + Rank(After(s, events), |s.callers|) <= Rank(s, |s.callers|)
    decreases |events|
  {
    if events != [] {
      StepKeeps(origin, s, events[0]);
      StepDropsRank(origin, s, events[0]);
      CallersTakeBoundedSteps(origin, Apply(s, events[0]), events[1..]);
    }
  }

  lemma {:induction false} FirstUnsettled<L, D>(s: State<L, D>, bound: nat) returns (k: nat)
    requires bound !in s.settled
    ensures k <= bound && k !in s.settled && forall j :: 0 <= j < k ==> j in s.settled
    decreases bound
  {
    if j: nat :| j < bound && j !in s.settled {
      k := FirstUnsettled(s, j);
    } else {
      k := bound;
    }
  }

  lemma {:induction false} FirstUnfinished<L, D>(s: State<L, D>, bound: nat) returns (k: nat)
    requires bound < |s.callers| && !s.callers[bound].phase.Done?
    ensures k <= bound && !s.callers[k].phase.Done? && forall j :: 0 <= j < k ==> s.callers[j].phase.Done?
    decreases bound
  {
    if j: nat :| j < bound && !s.callers[j].phase.Done? {
      k := FirstUnfinished(s, j);
    } else {
      k := bound;
    }
  }

  /** While a call is unfinished something other than a new call can happen, whatever failed before. */
  lemma NeverStuck<L, D>(origin: D, s: State<L, D>, unfinished: nat) returns (e: Event<L, D>)
    requires Inv(origin, s)
    requires unfinished < |s.callers| && !s.callers[unfinished].phase.Done?
    ensures !e.Call? && Enabled(s, e)
  {
    var i := FirstUnfinished(s, unfinished);
    match s.callers[i].phase
    case Waiting =>
      if PreviousSettled(s, i) {
        e := Acquire(i);
      } else {
        var k := FirstUnsettled(s, i - 1);
        e := Settle(k);
      }
    case Beginning => e := BeginFail(i);
    case Running(pc, _) => e := if pc < |s.callers[i].statements| then StatementOk(i) else CommitOk(i);
    case RollingBack => e := RollbackFail(i);
    case Finishing(_) => e := Finish(i);
  }

  // ---------- A transaction that nobody is inside ----------

  predicate Inside<L, D>(c: Caller<L, D>) {
    c.phase.Running? || c.phase.RollingBack?
  }

  /** A transaction is open, and nobody is inside it. */
  ghost predicate Jammed<L, D>(s: State<L, D>) {
    s.savepoint.Some? && forall i :: 0 <= i < |s.callers| ==> !Inside(s.callers[i])
  }

  /** From then on turns are still passed on, but every call fails and the contents never change. */
  lemma {:induction false} RefusedRollbackJams<L, D>(s: State<L, D>, events: seq<Event<L, D>>)
    requires Jammed(s) && IsRun(s, events)
    ensures var t := After(s, events);
            && Jammed(t) && t.db == s.db && t.Committed() == s.Committed() && |s.callers| <= |t.callers|
            && (forall i :: 0 <= i < |t.callers| && Succeeded(t.callers[i]) ==>
                  i < |s.callers| && Succeeded(s.callers[i]))
    decreases |events|
  {
    if events != [] {
      RefusedRollbackJams(Apply(s, events[0]), events[1..]);
    }
  }

  /** Only a refused ROLLBACK of an open transaction leaves it open with nobody inside. */
  lemma JammingStep<L, D>(origin: D, s: State<L, D>, e: Event<L, D>)
    requires Inv(origin, s) && Enabled(s, e) && !Jammed(s)
    ensures Jammed(Apply(s, e)) <==> e.RollbackFail? && s.savepoint.Some?
  {
    var t := Apply(s, e);
    if !e.Call? && s.savepoint.Some? {
      var k :| 0 <= k < |s.callers| && Inside(s.callers[k]);
      HolderIsAlone(s, k);
      if e.i != k {
        assert t.callers[k] == s.callers[k];
      } else {
        forall j | 0 <= j < |t.callers| && j != k ensures !Inside(t.callers[j]) {
          assert t.callers[j] == s.callers[j] && !Holds(s.callers[j]);
        }
        assert !e.RollbackFail? ==> t.savepoint.None? || Inside(t.callers[k]);
      }
    } else if e.Call? && s.savepoint.Some? {
      var k :| 0 <= k < |s.callers| && Inside(s.callers[k]);
      assert t.callers[k] == s.callers[k];
    } else if e.BeginOk? {
      assert Inside(t.callers[e.i]);
    }
  }

  lemma {:induction false} RunPrefix<L, D>(s: State<L, D>, events: seq<Event<L, D>>, k: nat)
    requires IsRun(s, events) && k < |events|
    ensures IsRun(s, events[..k]) && Enabled(After(s, events[..k]), events[k])
    ensures IsRun(s, events[..k + 1]) && After(s, events[..k + 1]) == Apply(After(s, events[..k]), events[k])
    decreases k
  {
    if k > 0 {
      RunPrefix(Apply(s, events[0]), events[1..], k - 1);
      assert events[1..][..k - 1] == events[..k][1..] && events[1..][..k] == events[..k + 1][1..];
    } else {
      assert events[..1][1..] == [];
    }
  }

  /** The k-th event is a ROLLBACK that was refused while the transaction was open. */
  ghost predicate RefusedAt<L, D>(s: State<L, D>, events: seq<Event<L, D>>, k: nat) {
    && k < |events| && events[k].RollbackFail?
    && IsRun(s, events[..k]) && After(s, events[..k]).savepoint.Some?
  }

  /** A transaction is open with nobody inside if and only if some earlier ROLLBACK was refused while it was open. */
  lemma {:induction false} JammedMeansRefusedRollback<L, D>(db: D, events: seq<Event<L, D>>)
    requires IsRun(Init(db), events)
    ensures Jammed(After(Init(db), events)) <==> exists k: nat :: RefusedAt(Init(db), events, k)
    decreases |events|
  {
    var start := Init<L, D>(db);
    if events != [] {
      var n := |events| - 1;
      var front, last := events[..n], events[n];
      RunPrefix(start, events, n);
      assert events[..n + 1] == events == front + [last];
      JammedMeansRefusedRollback(db, front);
      RunKeeps(db, start, front);
      RefusalsSoFar(start, front, last);
      if Jammed(After(start, front)) {
        RunOfOne(After(start, front), last);
        RefusedRollbackJams(After(start, front), [last]);
      } else {
        JammingStep(db, After(start, front), last);
      }
    }
  }

  lemma RunOfOne<L, D>(s: State<L, D>, e: Event<L, D>)
    requires Enabled(s, e)
    ensures IsRun(s, [e]) && After(s, [e]) == Apply(s, e)
  {
    assert [e][1..] == [];
  }

  lemma RefusalsSoFar<L, D>(s: State<L, D>, front: seq<Event<L, D>>, last: Event<L, D>)
    ensures (exists k: nat :: RefusedAt(s, front + [last], k)) <==>
      RefusedAt(s, front + [last], |front|) || exists k: nat :: RefusedAt(s, front, k)
  {
    var events := front + [last];
    assert forall k: nat :: k <= |front| ==> events[..k] == front[..k];
    if k: nat :| RefusedAt(s, events, k) && k < |front| { assert RefusedAt(s, front, k); }
    if k: nat :| RefusedAt(s, front, k) { assert RefusedAt(s, events, k); }
  }

  /** Otherwise the callers can be brought to an end without jamming the transaction or committing anything. */
  lemma {:induction false} Drain<L, D>(origin: D, s: State<L, D>) returns (events: seq<Event<L, D>>)
    requires Inv(origin, s) && !Jammed(s)
    ensures IsRun(s, events) && Idle(After(s, events)) && Inv(origin, After(s, events))
    ensures |After(s, events).callers| == |s.callers| && After(s, events).Committed() == s.Committed()
    decreases Rank(s, |s.callers|)
  {
    if i :| 0 <= i < |s.callers| && !s.callers[i].phase.Done? {
      var e := CalmStep(origin, s, i);
      StepKeeps(origin, s, e);
      StepDropsRank(origin, s, e);
      var later := Drain(origin, Apply(s, e));
      events := [e] + later;
      assert events[1..] == later;
    } else {
      events := [];
    }
  }

  /** Every call is over and no transaction is open. */
  ghost predicate Idle<L, D>(s: State<L, D>) {
    s.savepoint.None? && forall i :: 0 <= i < |s.callers| ==> s.callers[i].phase.Done?
  }

  lemma CalmStep<L, D>(origin: D, s: State<L, D>, unfinished: nat) returns (e: Event<L, D>)
    requires Inv(origin, s) && !Jammed(s)
    requires unfinished < |s.callers| && !s.callers[unfinished].phase.Done?
    ensures !e.Call? && Enabled(s, e) && !Jammed(Apply(s, e)) && Apply(s, e).Committed() == s.Committed()
  {
    var i := FirstUnfinished(s, unfinished);
    match s.callers[i].phase {
      case Waiting =>
        if PreviousSettled(s, i) {
          e := Acquire(i);
        } else {
          var k := FirstUnsettled(s, i - 1);
          e := Settle(k);
        }
      case Beginning => e := BeginFail(i);
      case Running(pc, _) =>
        e := if pc < |s.callers[i].statements| then StatementFail(i, true) else CommitFail(i, true);
      case RollingBack => e := if s.savepoint.Some? then RollbackOk(i) else RollbackFail(i);
      case Finishing(_) => e := Finish(i);
    }
    JammingStep(origin, s, e);
  }

  lemma {:induction false} RunConcat<L, D>(s: State<L, D>, a: seq<Event<L, D>>, b: seq<Event<L, D>>)
    requires IsRun(s, a) && IsRun(After(s, a), b)
    ensures IsRun(s, a + b) && After(s, a + b) == After(After(s, a), b)
    decreases |a|
  {
    if a == [] {
      assert a + b == b;
    } else {
      RunConcat(Apply(s, a[0]), a[1..], b);
      assert (a + b)[1..] == a[1..] + b;
    }
  }

  lemma {:induction false} ExecutePrefix<L, D>(statements: seq<Statement<L, D>>, local: L, db: D, k: nat)
    requires k <= |statements| && Execute(statements, local, db).Some?
    ensures Execute(statements[..k], local, db).Some?
  {
    if k == |statements| {
      assert statements[..k] == statements;
    } else {
      var front := statements[..|statements| - 1];
      ExecutePrefix(front, local, db, k);
      assert front[..k] == statements[..k];
    }
  }

  /** A caller inside its transaction can run the rest of a callback that does not throw. */
  lemma {:induction false} RunCallback<L, D>(s: State<L, D>, i: nat) returns (events: seq<Event<L, D>>)
    requires i < |s.callers| && s.savepoint.Some? && InCallback(s, i)
    requires Execute(s.callers[i].statements, s.callers[i].initial, s.savepoint.value).Some?
    ensures IsRun(s, events)
    ensures var t := After(s, events);
            && |t.callers| == |s.callers| && t.savepoint == s.savepoint && InCallback(t, i)
            && t.callers[i].statements == s.callers[i].statements && t.callers[i].initial == s.callers[i].initial
            && t.callers[i].phase.pc == |s.callers[i].statements|
    decreases |s.callers[i].statements| - s.callers[i].phase.pc
  {
    var c := s.callers[i];
    if c.phase.pc == |c.statements| {
      events := [];
    } else {
      ExecutePrefix(c.statements, c.initial, s.savepoint.value, c.phase.pc + 1);
      StatementExtendsExecute(c, s.savepoint.value);
      var later := RunCallback(Apply(s, StatementOk(i)), i);
      events := [StatementOk(i)] + later;
      assert events[1..] == later;
    }
  }

  /** The caller has run a prefix of its callback on top of the committed contents. */
  ghost predicate InCallback<L, D>(s: State<L, D>, i: nat)
    requires i < |s.callers| && s.savepoint.Some?
  {
    var c := s.callers[i];
    && c.phase.Running? && c.phase.pc <= |c.statements|
    && Execute(c.statements[..c.phase.pc], c.initial, s.savepoint.value) == Some((c.phase.local, s.db))
  }

  /** On an idle connection a new call can run undisturbed. */
  lemma IdleCallSucceeds<L, D>(origin: D, s: State<L, D>, statements: seq<Statement<L, D>>, initial: L)
    returns (events: seq<Event<L, D>>)
    requires Inv(origin, s) && Idle(s) && Execute(statements, initial, s.db).Some?
    ensures IsRun(s, events) && HasCommitted(After(s, events), |s.callers|, statements, initial, s.db)
  {
    var i := |s.callers|;
    var called := Apply(s, Call(statements, initial));
    var begun := Apply(Apply(called, Acquire(i)), BeginOk(i));
    var first := [Call(statements, initial), Acquire(i), BeginOk(i)];
    OpeningIsRun(s, statements, initial);
    assert statements[..0] == [];
    var inside := RunCallback(begun, i);
    RunConcat(s, first, inside);
    var ran := After(begun, inside);
    assert statements[..|statements|] == statements;
    RunExtends(s, first + inside, CommitOk(i));
    RunExtends(s, first + inside + [CommitOk(i)], Finish(i));
    events := first + inside + [CommitOk(i)] + [Finish(i)];
  }

  lemma OpeningIsRun<L, D>(s: State<L, D>, statements: seq<Statement<L, D>>, initial: L)
    requires s.savepoint.None? && s.tail.None?
    ensures var i := |s.callers|;
            var events := [Call(statements, initial), Acquire(i), BeginOk(i)];
            && IsRun(s, events)
            && After(s, events) == Apply(Apply(Apply(s, Call(statements, initial)), Acquire(i)), BeginOk(i))
  {
    var i := |s.callers|;
    var empty: seq<Event<L, D>> := [];
    RunExtends(s, empty, Call(statements, initial));
    assert empty + [Call(statements, initial)] == [Call(statements, initial)];
    RunExtends(s, [Call(statements, initial)], Acquire(i));
    assert [Call(statements, initial)] + [Acquire(i)] == [Call(statements, initial), Acquire(i)];
    RunExtends(s, [Call(statements, initial), Acquire(i)], BeginOk(i));
    assert [Call(statements, initial), Acquire(i)] + [BeginOk(i)]
      == [Call(statements, initial), Acquire(i), BeginOk(i)];
  }

  /** Such a state is reached from any idle connection: by a call whose COMMIT and then ROLLBACK are refused. */
  lemma JamIsReachable<L, D>(s: State<L, D>, initial: L) returns (events: seq<Event<L, D>>)
    requires Idle(s) && s.tail.None?
    ensures IsRun(s, events) && Jammed(After(s, events))
  {
    var i := |s.callers|;
    OpeningIsRun(s, [], initial);
    var first := [Call([], initial), Acquire(i), BeginOk(i)];
    RunExtends(s, first, CommitFail(i, false));
    RunExtends(s, first + [CommitFail(i, false)], RollbackFail(i));
    RunExtends(s, first + [CommitFail(i, false)] + [RollbackFail(i)], Finish(i));
    events := first + [CommitFail(i, false)] + [RollbackFail(i)] + [Finish(i)];
  }

  /** Call i has succeeded and its callback is what has become of the contents. */
  ghost predicate HasCommitted<L, D>(
      s: State<L, D>, i: nat, statements: seq<Statement<L, D>>, initial: L, before: D)
  {
    && i < |s.callers| && s.callers[i].phase == Done(true)
    && s.callers[i].statements == statements && s.callers[i].initial == initial
    && var ran := Execute(statements, initial, before); ran.Some? && s.Committed() == ran.value.1
  }

  /** Unless a transaction is open with nobody inside, a new call whose callback does not throw can still succeed. */
  lemma NewCallCanSucceed<L, D>(origin: D, s: State<L, D>, statements: seq<Statement<L, D>>, initial: L)
    returns (events: seq<Event<L, D>>)
    requires Inv(origin, s) && !Jammed(s) && Execute(statements, initial, s.Committed()).Some?
    ensures IsRun(s, events) && HasCommitted(After(s, events), |s.callers|, statements, initial, s.Committed())
  {
    var drained := Drain(origin, s);
    var called := IdleCallSucceeds(origin, After(s, drained), statements, initial);
    RunConcat(s, drained, called);
    events := drained + called;
  }

  // ---------- The code of one call ----------

  lemma {:induction false} RunExtends<L, D>(s: State<L, D>, events: seq<Event<L, D>>, e: Event<L, D>)
    requires IsRun(s, events) && Enabled(After(s, events), e)
    ensures IsRun(s, events + [e]) && After(s, events + [e]) == Apply(After(s, events), e)
    decreases |events|
  {
    if events == [] {
      assert [e][1..] == [];
    } else {
      RunExtends(Apply(s, events[0]), events[1..], e);
      assert (events + [e])[1..] == events[1..] + [e];
    }
  }

  /** Which of the statements issued by one call are refused by the engine. */
  datatype Faults = Faults(begin: bool, statement: set<nat>, commit: bool, rollback: bool, engineRollsBack: bool)

  /** A successful call publishes its whole callback; a failed one publishes nothing. */
  ghost predicate Outcome<L, D>(ok: bool, c: Caller<L, D>, before: D, after: D) {
    if ok then
      var whole := Execute(c.statements, c.initial, before);
      whole.Some? && after == whole.value.1
    else after == before
  }

  /** The engine refuses none of the statements of the callback, and none of them throws. */
  ghost predicate Completes<L, D>(c: Caller<L, D>, faults: Faults, before: D) {
    && (forall k :: 0 <= k < |c.statements| ==> k !in faults.statement)
    && Execute(c.statements, c.initial, before).Some?
  }

  /** A callback that has thrown does not go on. */
  lemma {:induction false} FailureStays<L, D>(statements: seq<Statement<L, D>>, n: nat, local: L, db: D)
    requires n <= |statements| && Execute(statements[..n], local, db).None?
    ensures Execute(statements, local, db).None?
  {
    if n == |statements| {
      assert statements[..n] == statements;
    } else {
      assert statements[..|statements| - 1][..n] == statements[..n];
      FailureStays(statements[..|statements| - 1], n, local, db);
    }
  }

  /** The first statements of the callback have been run. */
  ghost predicate RanTo<L, D>(c: Caller<L, D>, faults: Faults, before: D, pc: nat, local: L, db: D) {
    && pc <= |c.statements| && (forall k :: 0 <= k < pc ==> k !in faults.statement)
    && Execute(c.statements[..pc], c.initial, before) == Some((local, db))
    && (pc == |c.statements| ==> Completes(c, faults, before))
  }

  lemma RanOneMore<L, D>(c: Caller<L, D>, faults: Faults, before: D, pc: nat, local: L, db: D)
    requires RanTo(c, faults, before, pc, local, db) && pc < |c.statements| && pc !in faults.statement
    ensures var next := c.statements[pc](local, db);
            if next.None? then !Completes(c, faults, before)
            else RanTo(c, faults, before, pc + 1, next.value.0, next.value.1)
  {
    assert c.statements[..pc + 1][..pc] == c.statements[..pc];
    if c.statements[pc](local, db).None? { FailureStays(c.statements, pc + 1, c.initial, before); }
    if pc + 1 == |c.statements| { assert c.statements[..pc + 1] == c.statements; }
  }

  /** A transaction that the call opened stays open only if its ROLLBACK is refused and the engine does not end it. */
  predicate LeavesOpen(wasOpen: bool, ok: bool, faults: Faults, open: bool) {
    if wasOpen then !ok && open
    else
      && (ok || faults.begin || !faults.rollback ==> !open)
      && (!ok && !faults.begin && faults.rollback && !faults.engineRollsBack ==> open)
  }

  class Connection<!L, !D> {
    var callers: seq<Caller<L, D>>
    var tail: Option<nat>
    var settled: set<nat>
    var db: D
    var savepoint: Option<D>

    ghost function View(): State<L, D>
      reads this
    {
      State(callers, tail, settled, db, savepoint)
    }

    constructor (db: D)
      ensures View() == Init(db)
    {
      this.callers, this.tail, this.settled, this.db, this.savepoint := [], None, {}, db, None;
    }

    /** The synchronous part of `withTransaction`, up to awaiting the previous tail. */
    method Enter(statements: seq<Statement<L, D>>, initial: L) returns (ticket: nat)
      modifies this
      ensures ticket == |old(callers)|
      ensures View() == Apply(old(View()), Call(statements, initial))
    {
      ticket := |callers|;
      var previous := tail;
      callers := callers + [Caller(statements, initial, previous, Waiting)];
      tail := Some(ticket);
    }

    method SetPhase(i: nat, phase: Phase<L>)
      requires i < |callers|
      modifies this`callers
      ensures View() == old(View()).With(i, phase)
    {
      callers := callers[i := callers[i].(phase := phase)];
    }

    /** What the engine does to the open transaction when it undoes it on its own account. */
    method UndoIf(undo: bool)
      modifies this`db, this`savepoint
      ensures View() == if undo then old(View()).Undone() else old(View())
    {
      if undo && savepoint.Some? {
        db, savepoint := savepoint.value, None;
      }
    }

    /** The connection is where the given events, none of them a new call, lead from `start`. */
    ghost predicate Reached(start: State<L, D>, events: seq<Event<L, D>>)
      reads this
    {
      && IsRun(start, events) && View() == After(start, events)
      && (forall k :: 0 <= k < |events| ==> !events[k].Call?)
    }

    /** BEGIN: nothing is started when the engine refuses it. */
    method Begin(i: nat, fails: bool, ghost start: State<L, D>, ghost before: seq<Event<L, D>>)
      returns (begun: bool, ghost events: seq<Event<L, D>>)
      requires Reached(start, before) && i < |callers| && callers[i].phase == Beginning
      modifies this
      ensures Reached(start, events) && View().Committed() == old(View()).Committed()
      ensures begun <==> !fails && old(savepoint).None?
      ensures savepoint == (if begun then Some(old(db)) else old(savepoint)) && db == old(db)
      ensures callers == old(callers)[i := old(callers[i]).(phase :=
                if begun then Running(0, old(callers[i].initial)) else Finishing(false))]
    {
      begun := !fails && savepoint.None?;
      if begun {
        RunExtends(start, before, BeginOk(i));
        events := before + [BeginOk(i)];
        savepoint := Some(db);
        SetPhase(i, Running(0, callers[i].initial));
      } else {
        RunExtends(start, before, BeginFail(i));
        events := before + [BeginFail(i)];
        SetPhase(i, Finishing(false));
      }
    }

    /** The callback: its statements in order, up to the first one that throws. */
    method RunStatements(i: nat, faults: Faults, ghost start: State<L, D>, ghost before: seq<Event<L, D>>)
      returns (thrown: bool, ghost events: seq<Event<L, D>>)
      requires Reached(start, before) && i < |callers| && savepoint.Some?
      requires callers[i].phase == Running(0, callers[i].initial)
      modifies this
      ensures Reached(start, events) && View().Committed() == old(View()).Committed()
      ensures |callers| == |old(callers)|
      ensures callers == old(callers)[i := old(callers[i]).(phase := callers[i].phase)]
      ensures if thrown then callers[i].phase == RollingBack
              else savepoint.Some? && callers[i].phase.Running? && callers[i].phase.pc == |callers[i].statements|
      ensures thrown <==> !Completes(old(callers[i]), faults, old(db))
      ensures !faults.engineRollsBack ==> savepoint.Some?
    {
      events := before;
      var turn := callers[i];
      var pc, local := 0, turn.initial;
      thrown := false;
      while pc < |turn.statements| && !thrown
        invariant i < |callers| && callers == old(callers)[i := turn.(phase := callers[i].phase)]
        invariant Reached(start, events) && View().Committed() == old(View()).Committed()
        invariant if thrown then callers[i].phase == RollingBack
                  else pc <= |turn.statements| && savepoint.Some? && callers[i].phase == Running(pc, local)
        invariant if thrown then !Completes(turn, faults, old(db))
                  else RanTo(turn, faults, old(db), pc, local, db)
        invariant !faults.engineRollsBack ==> savepoint.Some?
        decreases |turn.statements| - pc, if thrown then 0 else 1
      {
        if pc in faults.statement {
          RunExtends(start, events, StatementFail(i, faults.engineRollsBack));
          events := events + [StatementFail(i, faults.engineRollsBack)];
          UndoIf(faults.engineRollsBack);
          SetPhase(i, RollingBack);
          thrown := true;
        } else {
          RunExtends(start, events, StatementOk(i));
          events := events + [StatementOk(i)];
          var next := turn.statements[pc](local, db);
          RanOneMore(turn, faults, old(db), pc, local, db);
          if next.None? {
            SetPhase(i, RollingBack);
            thrown := true;
          } else {
            local, db, pc := next.value.0, next.value.1, pc + 1;
            SetPhase(i, Running(pc, local));
          }
        }
      }
    }

    /** COMMIT publishes exactly what the whole callback makes of the committed contents. */
    method Commit(i: nat, faults: Faults, ghost origin: D, ghost start: State<L, D>, ghost before: seq<Event<L, D>>)
      returns (ok: bool, ghost events: seq<Event<L, D>>)
      requires Inv(origin, start) && Reached(start, before) && i < |callers| && savepoint.Some?
      requires callers[i].phase.Running? && callers[i].phase.pc == |callers[i].statements|
      modifies this
      ensures Reached(start, events)
      ensures callers == old(callers)[i := old(callers[i]).(phase := if ok then Finishing(true) else RollingBack)]
      ensures Outcome(ok, old(callers[i]), old(View()).Committed(), View().Committed())
      ensures ok <==> !faults.commit
      ensures savepoint.Some? <==> !ok && !faults.engineRollsBack
    {
      ok := !faults.commit;
      if ok {
        RunKeeps(origin, start, before);
        assert callers[i].statements[..callers[i].phase.pc] == callers[i].statements;
        RunExtends(start, before, CommitOk(i));
        events := before + [CommitOk(i)];
        savepoint := None;
        SetPhase(i, Finishing(true));
      } else {
        RunExtends(start, before, CommitFail(i, faults.engineRollsBack));
        events := before + [CommitFail(i, faults.engineRollsBack)];
        UndoIf(faults.engineRollsBack);
        SetPhase(i, RollingBack);
      }
    }

    /** ROLLBACK after a thrown error; a refused rollback is only reported. */
    method Rollback(i: nat, fails: bool, ghost start: State<L, D>, ghost before: seq<Event<L, D>>)
      returns (ghost events: seq<Event<L, D>>)
      requires Reached(start, before) && i < |callers| && callers[i].phase == RollingBack
      modifies this
      ensures Reached(start, events) && View().Committed() == old(View()).Committed()
      ensures callers == old(callers)[i := old(callers[i]).(phase := Finishing(false))]
      ensures savepoint == if fails then old(savepoint) else None
    {
      if fails || savepoint.None? {
        RunExtends(start, before, RollbackFail(i));
        events := before + [RollbackFail(i)];
      } else {
        RunExtends(start, before, RollbackOk(i));
        events := before + [RollbackOk(i)];
        UndoIf(true);
      }
      SetPhase(i, Finishing(false));
    }

    /** The try block of a caller that holds the turn: BEGIN, then the callback and COMMIT or ROLLBACK. */
    method Attempt(i: nat, faults: Faults, ghost origin: D, ghost start: State<L, D>, ghost before: seq<Event<L, D>>)
      returns (ok: bool, ghost events: seq<Event<L, D>>)
      requires Inv(origin, start) && Reached(start, before) && i < |callers| && callers[i].phase == Beginning
      modifies this
      ensures Reached(start, events)
      ensures callers == old(callers)[i := old(callers[i]).(phase := Finishing(ok))]
      ensures Outcome(ok, old(callers[i]), old(View()).Committed(), View().Committed())
      ensures ok <==>
        && !faults.begin && old(savepoint).None? && Completes(old(callers[i]), faults, old(db)) && !faults.commit
      ensures LeavesOpen(old(savepoint).Some?, ok, faults, savepoint.Some?)
    {
      var begun;
      begun, events := Begin(i, faults.begin, start, before);
      ok := false;
      if begun {
        var thrown;
        thrown, events := RunStatements(i, faults, start, events);
        if !thrown {
          ok, events := Commit(i, faults, origin, start, events);
        }
        if !ok {
          events := Rollback(i, faults.rollback, start, events);
        }
      }
    }

    /**
     The rest of `withTransaction` for a caller whose turn has come: the try block and the finally
     block. It is one of the runs the results above quantify over, and the turn is passed on
     whatever failed.
     */
    method RunTurn(i: nat, faults: Faults, ghost origin: D) returns (ok: bool, ghost events: seq<Event<L, D>>)
      requires Inv(origin, View())
      requires Enabled(View(), Acquire(i))
      modifies this
      ensures Reached(old(View()), events)
      ensures callers == old(callers)[i := old(callers[i]).(phase := Done(ok))]
      ensures tail != Some(i)
      ensures Outcome(ok, old(callers[i]), old(View()).Committed(), View().Committed())
      ensures ok <==>
        && !faults.begin && old(savepoint).None? && !faults.commit
        && (forall k :: 0 <= k < |old(callers[i].statements)| ==> k !in faults.statement)
        && Execute(old(callers[i].statements), old(callers[i].initial), old(db)).Some?
      ensures LeavesOpen(old(savepoint).Some?, ok, faults, savepoint.Some?)
    {
      ghost var start := View();
      events := [Acquire(i)];
      assert events[1..] == [];
      SetPhase(i, Beginning);
      ok, events := Attempt(i, faults, origin, start, events);
      RunExtends(start, events, Finish(i));
      events := events + [Finish(i)];
      SetPhase(i, Done(ok));
      if tail == Some(i) {
        tail := None;
      }
    }
  }
}
