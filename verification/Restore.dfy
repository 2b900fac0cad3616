/**
 Scheduled restore: stage, rename and commit over the application data directory.

 The directory is a map from places to trees. It keeps a log of every state it has been in, so
 a crash at any file-system step is the choice of one logged state. A copy or a recursive removal
 that stops half-way leaves an arbitrary tree behind. The verification of the requested backup is
 the one of module Backup.
 */
module Restore {
  import opened Wrappers
  import opened FileTree
  import opened Collections
  import Backup

  datatype Place =
    | Target(name: string)
    | Stage(token: nat, name: string)
    | Rollback(token: nat, name: string)
    | Marker
    | MarkerDraft
    | Sidecar(suffix: string)
    | BackupAt(id: string)

  type Fs = map<Place, Node>

  const SUFFIXES := ["-wal", "-shm"]

  function Get(fs: Fs, place: Place): Option<Node> {
    if place in fs then Some(fs[place]) else None
  }

  /** How one file-system operation goes wrong, and what an unfinished one leaves behind. */
  datatype Fault = Fault(fails: bool, partial: Option<Node>)

  function Leave(fs: Fs, place: Place, partial: Option<Node>): Fs {
    if partial.Some? then fs[place := partial.value] else fs - {place}
  }

  // ---------- What the directory looks like on the way ----------

  /** What a target is replaced with: the backup's tree, or an empty directory. */
  function Restored(tree: Node, name: string): Node
    requires tree.Dir?
  {
    if name in tree.entries then tree.entries[name] else Dir(map[])
  }

  /**
   The directory once the targets `done` are swapped, seen from the original `e`; the target
   `moved`, if any, has been moved aside without a replacement yet.
   */
  function Expected(e: Fs, tree: Node, token: nat, done: seq<string>, moved: Option<string>, place: Place): Option<Node>
    requires tree.Dir?
  {
    match place
    case Target(name) =>
      if moved == Some(name) then None
      else if name in done then Some(Restored(tree, name))
      else Get(e, place)
    case Rollback(t, name) =>
      if t == token && (moved == Some(name) || name in done) then Get(e, Target(name)) else Get(e, place)
    case _ => Get(e, place)
  }

  /** As expected everywhere but at the loose places. */
  ghost predicate Looks(
      e: Fs, tree: Node, token: nat, done: seq<string>, moved: Option<string>, loose: set<Place>, h: Fs)
    requires tree.Dir?
  {
    forall place :: place !in loose ==> Get(h, place) == Expected(e, tree, token, done, moved, place)
  }

  /** The request and the backups, which are all that a rerun needs, are untouched. */
  ghost predicate Protected(e: Fs, h: Fs) {
    && Get(h, Marker) == Get(e, Marker)
    && forall id :: Get(h, BackupAt(id)) == Get(e, BackupAt(id))
  }

  /** The original content of every target is still at its place or at its rollback path. */
  ghost predicate Kept(e: Fs, token: nat, h: Fs) {
    forall name :: Target(name) in e ==>
      Get(h, Target(name)) == Get(e, Target(name)) || Get(h, Rollback(token, name)) == Get(e, Target(name))
  }

  /** Every target has its replacement. */
  ghost predicate Replaced(tree: Node, names: seq<string>, h: Fs)
    requires tree.Dir?
  {
    forall name :: name in names ==> Get(h, Target(name)) == Some(Restored(tree, name))
  }

  /** Every target has its replacement in the states of the log from one position up to another. */
  ghost predicate AllReplaced(tree: Node, names: seq<string>, log: seq<Fs>, from: nat, to: nat)
    requires tree.Dir?
  {
    to <= |log| && forall k :: from <= k < to ==> Replaced(tree, names, log[k])
  }

  ghost predicate Fresh(e: Fs, token: nat) {
    forall name :: Stage(token, name) !in e && Rollback(token, name) !in e
  }

  /** Exactly the targets, the database side files and the request differ from the original. */
  ghost predicate Finished(e: Fs, tree: Node, names: seq<string>, h: Fs)
    requires tree.Dir?
  {
    forall place :: Get(h, place) ==
      match place
      case Marker => None
      case Sidecar(suffix) => if suffix == "-wal" || suffix == "-shm" then None else Get(e, place)
      case Target(name) => if name in names then Some(Restored(tree, name)) else Get(e, place)
      case _ => Get(e, place)
  }

  /** Places that may be loose without endangering the request, the backups or an original target. */
  ghost predicate Harmless(token: nat, done: seq<string>, place: Place) {
    match place
    case Target(name) => name in done
    case Stage(t, _) => t == token
    case Sidecar(_) => true
    case _ => false
  }

  lemma LooksIsSafe(
      e: Fs, tree: Node, token: nat, done: seq<string>, moved: Option<string>, loose: set<Place>, h: Fs)
    requires tree.Dir? && Looks(e, tree, token, done, moved, loose, h)
    requires forall place :: place in loose ==> Harmless(token, done, place)
    ensures Protected(e, h) && Kept(e, token, h)
  {
  }

  lemma MovedAside(e: Fs, tree: Node, token: nat, done: seq<string>, name: string, h: Fs)
    requires tree.Dir? && Fresh(e, token) && name !in done && Target(name) in e
    requires Looks(e, tree, token, done, None, {Stage(token, name)}, h)
    ensures Target(name) in h
    ensures Looks(e, tree, token, done, Some(name), {Stage(token, name)},
                  (h - {Target(name)})[Rollback(token, name) := h[Target(name)]])
  {
    assert Get(h, Target(name)) == Get(e, Target(name));
    var after := (h - {Target(name)})[Rollback(token, name) := h[Target(name)]];
    forall place | place != Stage(token, name)
      ensures Get(after, place) == Expected(e, tree, token, done, Some(name), place)
    {
      assert Get(h, place) == Expected(e, tree, token, done, None, place);
    }
  }

  lemma MovedIn(e: Fs, tree: Node, token: nat, done: seq<string>, name: string, h: Fs)
    requires tree.Dir? && Fresh(e, token) && name !in done
    requires Looks(e, tree, token, done, if Target(name) in e then Some(name) else None, {Stage(token, name)}, h)
    requires Get(h, Stage(token, name)) == Some(Restored(tree, name))
    ensures Looks(e, tree, token, done + [name], None, {},
                  (h - {Stage(token, name)})[Target(name) := Restored(tree, name)])
  {
    var after := (h - {Stage(token, name)})[Target(name) := Restored(tree, name)];
    forall place ensures Get(after, place) == Expected(e, tree, token, done + [name], None, place) {
      if place != Stage(token, name) {
        assert Get(h, place) ==
          Expected(e, tree, token, done, if Target(name) in e then Some(name) else None, place);
      }
    }
  }

  /** Moving the old target back from its rollback path, if there was one, undoes its swap. */
  ghost predicate BackInPlace(
      e: Fs, tree: Node, token: nat, done: seq<string>, name: string, moved: Option<string>, loose: set<Place>, h: Fs)
    requires tree.Dir?
  {
    && (Target(name) in e ==> Rollback(token, name) in h)
    && Looks(e, tree, token, done, moved, loose,
             if Target(name) in e && Rollback(token, name) in h
             then (h - {Rollback(token, name)})[Target(name) := h[Rollback(token, name)]] else h)
  }

  lemma Unswapped(
      e: Fs, tree: Node, token: nat, done: seq<string>, name: string, moved: Option<string>, loose: set<Place>, h: Fs)
    requires tree.Dir? && Fresh(e, token) && name !in done && moved != Some(name)
    requires forall place :: place in loose ==> place.Stage? || place.Sidecar?
    requires Looks(e, tree, token, done + [name], moved, loose + {Target(name)}, h)
    requires Get(h, Target(name)) == None
    ensures BackInPlace(e, tree, token, done, name, moved, loose, h)
  {
    assert Get(h, Rollback(token, name)) == Get(e, Target(name));
    var after :=
      if Target(name) in e then (h - {Rollback(token, name)})[Target(name) := h[Rollback(token, name)]] else h;
    forall place | place !in loose ensures Get(after, place) == Expected(e, tree, token, done, moved, place) {
      if place != Target(name) {
        assert Get(h, place) == Expected(e, tree, token, done + [name], moved, place);
      }
    }
  }

  /** The log has grown by states that keep the request and the backups. */
  ghost predicate GrownProtected(e: Fs, before: seq<Fs>, after: seq<Fs>) {
    && |before| <= |after| && after[..|before|] == before
    && forall k :: |before| <= k < |after| ==> Protected(e, after[k])
  }

  lemma GrownProtectedJoins(e: Fs, first: seq<Fs>, second: seq<Fs>, third: seq<Fs>)
    requires GrownProtected(e, first, second) && GrownProtected(e, second, third)
    ensures GrownProtected(e, first, third)
  {
  }

  /** The log has grown by safe states only. */
  ghost predicate Grown(e: Fs, token: nat, before: seq<Fs>, after: seq<Fs>) {
    && |before| <= |after| && after[..|before|] == before
    && forall k :: |before| <= k < |after| ==> Protected(e, after[k]) && Kept(e, token, after[k])
  }

  lemma GrownJoins(e: Fs, token: nat, first: seq<Fs>, second: seq<Fs>, third: seq<Fs>)
    requires Grown(e, token, first, second) && Grown(e, token, second, third)
    ensures Grown(e, token, first, third)
  {
  }

  datatype Swap = Swap(name: string, hadTarget: bool)

  datatype Failure =
    | MissingDatabase
    | StageFailed(name: string)
    | MoveOldFailed(name: string)
    | MoveNewFailed(name: string)
    | SidecarFailed
    | CleanupFailed
    | UndoFailed
    | InvalidRequest
    | Rejected

  /** Where the swap loop stops: the failure, and how many operations have been started by then. */
  datatype Stop = Stop(failure: Failure, operations: nat)

  /** The operations of one turn: staging, moving an existing target aside, moving the replacement in. */
  function SwapOperations(e: Fs, name: string): nat {
    if Target(name) in e then 3 else 2
  }

  /** Which failure, if any, ends a turn that starts with the given operation. */
  function SwapStop(e: Fs, tree: Node, name: string, faults: nat -> Fault, start: nat): Option<Stop>
    requires tree.Dir?
  {
    var last := start + SwapOperations(e, name);
    if name == Backup.DATABASE_NAME && name !in tree.entries then Some(Stop(MissingDatabase, start))
    else if faults(start).fails then Some(Stop(StageFailed(name), start + 1))
    else if Target(name) in e && faults(start + 1).fails then Some(Stop(MoveOldFailed(name), start + 2))
    else if faults(last - 1).fails then Some(Stop(MoveNewFailed(name), last))
    else None
  }

  /** Which failure, if any, ends the loop over the targets. */
  function LoopStop(e: Fs, tree: Node, names: seq<string>, faults: nat -> Fault, start: nat): Option<Stop>
    requires tree.Dir?
    decreases |names|
  {
    if names == [] then None else
      var stop := SwapStop(e, tree, names[0], faults, start);
      if stop.Some? then stop else LoopStop(e, tree, names[1..], faults, start + SwapOperations(e, names[0]))
  }

  /** The operations of a loop that does not stop. */
  function LoopOperations(e: Fs, names: seq<string>): nat {
    if names == [] then 0 else SwapOperations(e, names[0]) + LoopOperations(e, names[1..])
  }

  /** How many of the next n operations succeed before the first one that fails. */
  function FirstFault(faults: nat -> Fault, start: nat, n: nat): (k: nat)
    ensures k <= n
    decreases n
  {
    if n == 0 || faults(start).fails then 0 else 1 + FirstFault(faults, start + 1, n - 1)
  }

  lemma {:induction false} NoFirstFault(faults: nat -> Fault, start: nat, n: nat)
    ensures (forall m :: !faults(m).fails) ==> FirstFault(faults, start, n) == n
    decreases n
  {
    if n > 0 { NoFirstFault(faults, start + 1, n - 1); }
  }

  /** How many side files are removed after a loop that does not stop. */
  function RemovedSidecars(e: Fs, names: seq<string>, faults: nat -> Fault, start: nat): (k: nat)
    ensures k <= |SUFFIXES|
  {
    FirstFault(faults, start + LoopOperations(e, names), |SUFFIXES|)
  }

  /** Which failure, if any, comes before the originals are given up. */
  function FirstStop(e: Fs, tree: Node, names: seq<string>, faults: nat -> Fault, start: nat): Option<Stop>
    requires tree.Dir?
  {
    var stop, removed := LoopStop(e, tree, names, faults, start), RemovedSidecars(e, names, faults, start);
    if stop.Some? then stop
    else if removed < |SUFFIXES| then Some(Stop(SidecarFailed, start + LoopOperations(e, names) + removed + 1))
    else None
  }

  /** The side files with these suffixes are gone, and the others as before. */
  ghost predicate SidecarsGone(e: Fs, suffixes: seq<string>, h: Fs) {
    forall suffix :: Get(h, Sidecar(suffix)) == if suffix in suffixes then None else Get(e, Sidecar(suffix))
  }

  lemma OneMoreGone(e: Fs, suffixes: seq<string>, i: nat, ok: bool, before: Fs, after: Fs)
    requires i < |suffixes| && SidecarsGone(e, suffixes[..i], before)
    requires SidecarsGone(before, if ok then [suffixes[i]] else [], after)
    ensures SidecarsGone(e, suffixes[..if ok then i + 1 else i], after)
  {
  }

  /** Without a stop in the first i turns, this is the next operation. */
  predicate ComesTo(
      e: Fs, tree: Node, names: seq<string>, faults: nat -> Fault, start: nat, i: nat, next: nat)
    requires tree.Dir? && i <= |names|
  {
    && LoopStop(e, tree, names, faults, start) == LoopStop(e, tree, names[i..], faults, next)
    && start + LoopOperations(e, names) == next + LoopOperations(e, names[i..])
  }

  lemma ComesFurther(
      e: Fs, tree: Node, names: seq<string>, faults: nat -> Fault, start: nat, i: nat, next: nat)
    requires tree.Dir? && i < |names| && ComesTo(e, tree, names, faults, start, i, next)
    ensures var stop := SwapStop(e, tree, names[i], faults, next);
            if stop.Some? then LoopStop(e, tree, names, faults, start) == stop
            else ComesTo(e, tree, names, faults, start, i + 1, next + SwapOperations(e, names[i]))
  {
    NextTurn(e, tree, names[i..], faults, next);
    assert names[i..][0] == names[i] && names[i..][1..] == names[i + 1..];
  }

  lemma NextTurn(e: Fs, tree: Node, names: seq<string>, faults: nat -> Fault, next: nat)
    requires tree.Dir? && names != []
    ensures var stop := SwapStop(e, tree, names[0], faults, next);
            LoopStop(e, tree, names, faults, next) ==
              if stop.Some? then stop else LoopStop(e, tree, names[1..], faults, next + SwapOperations(e, names[0]))
    ensures LoopOperations(e, names) == SwapOperations(e, names[0]) + LoopOperations(e, names[1..])
  {
  }

  lemma ComesToEnd(e: Fs, tree: Node, names: seq<string>, faults: nat -> Fault, start: nat, next: nat)
    requires tree.Dir? && ComesTo(e, tree, names, faults, start, |names|, next)
    ensures LoopStop(e, tree, names, faults, start).None? && next == start + LoopOperations(e, names)
  {
  }

  /** The loop stops only at an operation that fails, or without a database. */
  lemma {:induction false} NoFaultNoStop(e: Fs, tree: Node, names: seq<string>, faults: nat -> Fault, start: nat)
    requires tree.Dir?
    ensures (forall n :: start <= n < start + LoopOperations(e, names) ==> !faults(n).fails)
      && (Backup.DATABASE_NAME in names ==> Backup.DATABASE_NAME in tree.entries)
      ==> LoopStop(e, tree, names, faults, start).None?
    decreases |names|
  {
    if names != [] {
      NoFaultNoStop(e, tree, names[1..], faults, start + SwapOperations(e, names[0]));
    }
  }

  /** Some operation from this one on fails. */
  ghost predicate FaultFrom(faults: nat -> Fault, start: nat) {
    exists n: nat :: n >= start && faults(n).fails
  }

  class DataDirectory {
    var entries: Fs
    var log: seq<Fs>
    var operations: nat
    const faults: nat -> Fault

    constructor (entries: Fs, faults: nat -> Fault)
      ensures this.entries == entries && log == [entries] && this.faults == faults && operations == 0
    {
      this.entries, this.log, this.operations, this.faults := entries, [entries], 0, faults;
    }

    method Settle(next: Fs)
      modifies this`entries, this`log
      ensures entries == next && log == old(log) + [next]
    {
      entries, log := next, log + [next];
    }

    /** Recursive copy or directory creation. */
    method Write(place: Place, node: Node) returns (ok: bool)
      modifies this
      ensures |log| == |old(log)| + 2 && log[..|old(log)|] == old(log) && log[|old(log)| + 1] == entries
      ensures forall other :: other != place ==>
        Get(log[|old(log)|], other) == Get(old(entries), other) == Get(entries, other)
      ensures ok ==> Get(entries, place) == Some(node)
      ensures ok <==> !faults(old(operations)).fails
      ensures operations == old(operations) + 1
    {
      var fault := faults(operations);
      operations := operations + 1;
      Settle(Leave(entries, place, fault.partial));
      ok := !fault.fails;
      Settle(if ok then entries[place := node] else entries);
    }

    /** Recursive removal; a missing place is no error. */
    method Remove(place: Place) returns (ok: bool)
      modifies this
      ensures |log| == |old(log)| + 2 && log[..|old(log)|] == old(log) && log[|old(log)| + 1] == entries
      ensures forall other :: other != place ==>
        Get(log[|old(log)|], other) == Get(old(entries), other) == Get(entries, other)
      ensures ok ==> Get(entries, place) == None
      ensures ok <==> !faults(old(operations)).fails
      ensures operations == old(operations) + 1
    {
      var fault := faults(operations);
      operations := operations + 1;
      Settle(if place in entries then Leave(entries, place, fault.partial) else entries);
      ok := !fault.fails;
      Settle(if ok then entries - {place} else entries);
    }

    /** Removal of a single file, which is one step. */
    method Unlink(place: Place) returns (ok: bool)
      modifies this
      ensures log == old(log) + [entries]
      ensures entries == if ok then old(entries) - {place} else old(entries)
      ensures ok <==> !faults(old(operations)).fails
      ensures operations == old(operations) + 1
    {
      ok := !faults(operations).fails;
      operations := operations + 1;
      Settle(if ok then entries - {place} else entries);
    }

    method Rename(from: Place, to: Place) returns (ok: bool)
      requires from != to
      modifies this
      ensures log == old(log) + [entries]
      ensures ok ==> from in old(entries) && entries == (old(entries) - {from})[to := old(entries)[from]]
      ensures !ok ==> entries == old(entries)
      ensures ok <==> from in old(entries) && !faults(old(operations)).fails
      ensures operations == old(operations) + 1
    {
      ok := from in entries && !faults(operations).fails;
      operations := operations + 1;
      Settle(if ok then (entries - {from})[to := entries[from]] else entries);
    }

    method StageTarget(ghost e: Fs, tree: Node, token: nat, ghost done: seq<string>, name: string) returns (ok: bool)
      requires tree.Dir? && Looks(e, tree, token, done, None, {}, entries)
      modifies this
      ensures Grown(e, token, old(log), log)
      ensures ok ==> Get(entries, Stage(token, name)) == Some(Restored(tree, name))
      ensures Looks(e, tree, token, done, None, {Stage(token, name)}, entries)
      ensures operations == old(operations) + 1 && (ok <==> !faults(old(operations)).fails)
    {
      ok := Write(Stage(token, name), Restored(tree, name));
      LooksIsSafe(e, tree, token, done, None, {Stage(token, name)}, log[|old(log)|]);
      LooksIsSafe(e, tree, token, done, None, {Stage(token, name)}, entries);
    }

    method MoveAside(ghost e: Fs, ghost tree: Node, token: nat, ghost done: seq<string>, name: string)
      returns (ok: bool)
      requires tree.Dir? && Fresh(e, token) && name !in done && Target(name) in entries
      requires Looks(e, tree, token, done, None, {Stage(token, name)}, entries)
      modifies this
      ensures Grown(e, token, old(log), log)
      ensures Get(entries, Stage(token, name)) == Get(old(entries), Stage(token, name))
      ensures Looks(e, tree, token, done, if ok then Some(name) else None, {Stage(token, name)}, entries)
      ensures operations == old(operations) + 1 && (ok <==> !faults(old(operations)).fails)
    {
      assert Get(entries, Target(name)) == Get(e, Target(name));
      MovedAside(e, tree, token, done, name, entries);
      ok := Rename(Target(name), Rollback(token, name));
      LooksIsSafe(e, tree, token, done, if ok then Some(name) else None, {Stage(token, name)}, entries);
    }

    method MoveIn(ghost e: Fs, tree: Node, token: nat, ghost done: seq<string>, name: string) returns (ok: bool)
      requires tree.Dir? && Fresh(e, token) && name !in done
      requires Get(entries, Stage(token, name)) == Some(Restored(tree, name))
      requires Looks(
        e, tree, token, done, if Target(name) in e then Some(name) else None, {Stage(token, name)}, entries)
      modifies this
      ensures Grown(e, token, old(log), log)
      ensures ok ==> Looks(e, tree, token, done + [name], None, {}, entries)
      ensures !ok ==> entries == old(entries)
      ensures operations == old(operations) + 1 && (ok <==> !faults(old(operations)).fails)
    {
      MovedIn(e, tree, token, done, name, entries);
      ok := Rename(Stage(token, name), Target(name));
      if ok {
        LooksIsSafe(e, tree, token, done + [name], None, {}, entries);
      } else {
        LooksIsSafe(
          e, tree, token, done, if Target(name) in e then Some(name) else None, {Stage(token, name)}, entries);
      }
    }

    /** One turn of the swap loop: stage the replacement, move the old target aside, move the new one in. */
    method SwapOne(ghost e: Fs, tree: Node, token: nat, ghost done: seq<string>, name: string)
      returns (failure: Option<Failure>, hadTarget: bool)
      requires tree.Dir? && Fresh(e, token) && name !in done
      requires Looks(e, tree, token, done, None, {}, entries)
      modifies this
      ensures Grown(e, token, old(log), log)
      ensures failure.None? ==>
        hadTarget == (Target(name) in e) && Looks(e, tree, token, done + [name], None, {}, entries)
      ensures failure.Some? ==> Stopped(e, tree, token, done, name, failure.value, entries)
      ensures SwapStop(e, tree, name, faults, old(operations)) ==
        if failure.None? then None else Some(Stop(failure.value, operations))
      ensures failure.None? ==> operations == old(operations) + SwapOperations(e, name)
    {
      hadTarget := Target(name) in entries;
      assert Get(entries, Target(name)) == Get(e, Target(name));
      if name == Backup.DATABASE_NAME && name !in tree.entries {
        return Some(MissingDatabase), hadTarget;
      }
      var ok := StageTarget(e, tree, token, done, name);
      if !ok {
        return Some(StageFailed(name)), hadTarget;
      }
      assert Get(entries, Target(name)) == Get(e, Target(name));
      ghost var staged := log;
      if hadTarget {
        ok := MoveAside(e, tree, token, done, name);
        GrownJoins(e, token, old(log), staged, log);
        if !ok {
          return Some(MoveOldFailed(name)), hadTarget;
        }
      }
      ghost var aside := log;
      ok := MoveIn(e, tree, token, done, name);
      GrownJoins(e, token, old(log), aside, log);
      failure := if ok then None else Some(MoveNewFailed(name));
    }

    /** The swap loop, up to the first target that fails. */
    method SwapAll(ghost e: Fs, tree: Node, token: nat, names: seq<string>)
      returns (failure: Option<Failure>, swaps: seq<Swap>)
      requires tree.Dir? && Fresh(e, token) && Distinct(names)
      requires entries == e
      modifies this
      ensures Grown(e, token, old(log), log)
      ensures |swaps| <= |names|
      ensures forall k :: 0 <= k < |swaps| ==> swaps[k] == Swap(names[k], Target(names[k]) in e)
      ensures failure.None? ==> |swaps| == |names| && Looks(e, tree, token, names, None, {}, entries)
      ensures failure.Some? ==>
        |swaps| < |names| && Stopped(e, tree, token, names[..|swaps|], names[|swaps|], failure.value, entries)
      ensures LoopStop(e, tree, names, faults, old(operations)) ==
        if failure.None? then None else Some(Stop(failure.value, operations))
      ensures failure.None? ==> operations == old(operations) + LoopOperations(e, names)
    {
      swaps := [];
      assert names[0..] == names;
      for i := 0 to |names|
        invariant Grown(e, token, old(log), log)
        invariant |swaps| == i
        invariant forall k :: 0 <= k < i ==> swaps[k] == Swap(names[k], Target(names[k]) in e)
        invariant Looks(e, tree, token, names[..i], None, {}, entries)
        invariant ComesTo(e, tree, names, faults, old(operations), i, operations)
      {
        ComesFurther(e, tree, names, faults, old(operations), i, operations);
        var hadTarget;
        assert names[i] !in names[..i];
        ghost var earlier := log;
        failure, hadTarget := SwapOne(e, tree, token, names[..i], names[i]);
        GrownJoins(e, token, old(log), earlier, log);
        if failure.Some? {
          return;
        }
        assert names[..i] + [names[i]] == names[..i + 1];
        swaps := swaps + [Swap(names[i], hadTarget)];
      }
      ComesToEnd(e, tree, names, faults, old(operations), operations);
      assert names[..|names|] == names;
      failure := None;
    }

    /** Removes whatever is at a swapped target. */
    method ClearTarget(
        ghost e: Fs, ghost tree: Node, token: nat, ghost done: seq<string>, name: string, ghost moved: Option<string>,
        ghost loose: set<Place>, ghost intact: bool)
      returns (ok: bool)
      requires Protected(e, entries)
      requires tree.Dir?
      requires forall place :: place in loose ==> (place.Stage? && place.token == token) || place.Sidecar?
      requires intact ==> Looks(e, tree, token, done + [name], moved, loose, entries)
      modifies this
      ensures Protected(e, entries) && GrownProtected(e, old(log), log)
      ensures intact ==> Grown(e, token, old(log), log)
      ensures intact && ok ==> Looks(e, tree, token, done + [name], moved, loose + {Target(name)}, entries)
      ensures ok ==> Get(entries, Target(name)) == None
      ensures forall suffix :: Get(entries, Sidecar(suffix)) == Get(old(entries), Sidecar(suffix))
      ensures operations >= old(operations) && (!ok ==> FaultFrom(faults, old(operations)))
      ensures (forall n :: !faults(n).fails) ==> ok
    {
      ghost var swapped, around := done + [name], loose + {Target(name)};
      ok := Remove(Target(name));
      if intact {
        LooksIsSafe(e, tree, token, swapped, moved, around, log[|old(log)|]);
        LooksIsSafe(e, tree, token, swapped, moved, around, entries);
      }
    }

    /** Puts one target back: the catch block's step for one swap. */
    method UndoOne(
        ghost e: Fs, ghost tree: Node, token: nat, ghost done: seq<string>, swap: Swap, ghost moved: Option<string>,
        ghost loose: set<Place>, ghost intact: bool)
      returns (ok: bool)
      requires Protected(e, entries)
      requires tree.Dir? && Fresh(e, token)
      requires swap.name !in done && moved != Some(swap.name) && swap.hadTarget == (Target(swap.name) in e)
      requires forall place :: place in loose ==> (place.Stage? && place.token == token) || place.Sidecar?
      requires intact ==> Looks(e, tree, token, done + [swap.name], moved, loose, entries)
      modifies this
      ensures Protected(e, entries) && GrownProtected(e, old(log), log)
      ensures intact ==> Grown(e, token, old(log), log)
      ensures intact && ok ==> Looks(e, tree, token, done, moved, loose, entries)
      ensures forall suffix :: Get(entries, Sidecar(suffix)) == Get(old(entries), Sidecar(suffix))
      ensures operations >= old(operations) && (!ok ==> FaultFrom(faults, old(operations)))
      ensures (forall n :: !faults(n).fails) ==> ok
    {
      ok := ClearTarget(e, tree, token, done, swap.name, moved, loose, intact);
      if ok {
        ghost var cleared := log;
        if intact { Unswapped(e, tree, token, done, swap.name, moved, loose, entries); }
        ok := MoveBack(e, tree, token, done, swap, moved, loose, intact);
        GrownProtectedJoins(e, old(log), cleared, log);
        if intact { GrownJoins(e, token, old(log), cleared, log); }
      }
    }

    /** Moves the old target back, if it was moved aside. */
    method MoveBack(
        ghost e: Fs, ghost tree: Node, token: nat, ghost done: seq<string>, swap: Swap, ghost moved: Option<string>,
        ghost loose: set<Place>, ghost intact: bool)
      returns (ok: bool)
      requires Protected(e, entries)
      requires tree.Dir? && swap.hadTarget == (Target(swap.name) in e)
      requires forall place :: place in loose ==> (place.Stage? && place.token == token) || place.Sidecar?
      requires intact ==> Looks(e, tree, token, done + [swap.name], moved, loose + {Target(swap.name)}, entries)
      requires intact ==> BackInPlace(e, tree, token, done, swap.name, moved, loose, entries)
      modifies this
      ensures Protected(e, entries) && GrownProtected(e, old(log), log)
      ensures intact ==> Grown(e, token, old(log), log)
      ensures intact && ok ==> Looks(e, tree, token, done, moved, loose, entries)
      ensures forall suffix :: Get(entries, Sidecar(suffix)) == Get(old(entries), Sidecar(suffix))
      ensures operations >= old(operations) && (!ok ==> FaultFrom(faults, old(operations)))
      ensures (forall n :: !faults(n).fails) ==> ok
    {
      var target, rollback := Target(swap.name), Rollback(token, swap.name);
      ok := true;
      if swap.hadTarget && rollback in entries {
        ok := Rename(rollback, target);
        if intact && ok {
          LooksIsSafe(e, tree, token, done, moved, loose, entries);
        } else if intact {
          LooksIsSafe(e, tree, token, done + [swap.name], moved, loose + {target}, entries);
        }
      }
    }

    /** The catch block: undoes the finished swaps, newest first. */
    method Undo(
        ghost e: Fs, ghost tree: Node, token: nat, swaps: seq<Swap>, ghost names: seq<string>,
        ghost moved: Option<string>, ghost loose: set<Place>, ghost intact: bool)
      returns (ok: bool)
      requires Protected(e, entries)
      requires tree.Dir? && Fresh(e, token) && |names| == |swaps| && Distinct(names)
      requires forall k :: 0 <= k < |swaps| ==> swaps[k] == Swap(names[k], Target(names[k]) in e)
      requires moved.Some? ==> moved.value !in names
      requires forall place :: place in loose ==> (place.Stage? && place.token == token) || place.Sidecar?
      requires intact ==> Looks(e, tree, token, names, moved, loose, entries)
      modifies this
      ensures Protected(e, entries) && GrownProtected(e, old(log), log)
      ensures intact ==> Grown(e, token, old(log), log)
      ensures intact && ok ==> Looks(e, tree, token, [], moved, loose, entries)
      ensures forall suffix :: Get(entries, Sidecar(suffix)) == Get(old(entries), Sidecar(suffix))
      ensures operations >= old(operations) && (!ok ==> FaultFrom(faults, old(operations)))
      ensures (forall n :: !faults(n).fails) ==> ok
    {
      assert names[..|names|] == names;
      for i := |swaps| downto 0
        invariant Protected(e, entries) && GrownProtected(e, old(log), log)
        invariant forall suffix :: Get(entries, Sidecar(suffix)) == Get(old(entries), Sidecar(suffix))
        invariant operations >= old(operations)
        invariant intact ==> Grown(e, token, old(log), log)
        invariant intact ==> Looks(e, tree, token, names[..i], moved, loose, entries)
      {
        assert names[..i + 1] == names[..i] + [names[i]];
        ghost var earlier := log;
        ok := UndoOne(e, tree, token, names[..i], swaps[i], moved, loose, intact);
        GrownProtectedJoins(e, old(log), earlier, log);
        if intact { GrownJoins(e, token, old(log), earlier, log); }
        if !ok {
          return;
        }
      }
      ok := true;
    }

    method RemoveSidecar(
        ghost e: Fs, ghost tree: Node, token: nat, ghost names: seq<string>, ghost loose: set<Place>, suffix: string)
      returns (ok: bool)
      requires tree.Dir? && Sidecar(suffix) in loose && (forall place :: place in loose ==> place.Sidecar?)
      requires Looks(e, tree, token, names, None, loose, entries)
      modifies this
      ensures Grown(e, token, old(log), log) && Looks(e, tree, token, names, None, loose, entries)
      ensures SidecarsGone(old(entries), if ok then [suffix] else [], entries)
      ensures operations == old(operations) + 1 && (ok <==> !faults(old(operations)).fails)
    {
      ghost var before := entries;
      ok := Unlink(Sidecar(suffix));
      assert forall place :: place != Sidecar(suffix) ==> Get(entries, place) == Get(before, place);
      LooksIsSafe(e, tree, token, names, None, loose, entries);
    }

    /** Removes the write-ahead files of the replaced database. */
    method RemoveSidecars(ghost e: Fs, ghost tree: Node, token: nat, ghost names: seq<string>, suffixes: seq<string>)
      returns (ok: bool)
      requires tree.Dir? && Looks(e, tree, token, names, None, {}, entries)
      modifies this
      ensures Grown(e, token, old(log), log)
      ensures Looks(e, tree, token, names, None, Sidecars(suffixes), entries)
      ensures var k := FirstFault(faults, old(operations), |suffixes|);
              && (ok <==> k == |suffixes|) && SidecarsGone(old(entries), suffixes[..k], entries)
              && (!ok ==> operations == old(operations) + k + 1)
    {
      for i := 0 to |suffixes|
        invariant Grown(e, token, old(log), log)
        invariant Looks(e, tree, token, names, None, Sidecars(suffixes), entries)
        invariant SidecarsGone(old(entries), suffixes[..i], entries) && operations == old(operations) + i
        invariant FirstFault(faults, old(operations), |suffixes|) == i + FirstFault(faults, operations, |suffixes| - i)
      {
        ghost var earlier, before := log, entries;
        ok := RemoveSidecar(e, tree, token, names, Sidecars(suffixes), suffixes[i]);
        GrownJoins(e, token, old(log), earlier, log);
        OneMoreGone(old(entries), suffixes, i, ok, before, entries);
        if !ok {
          return;
        }
      }
      ok := true;
    }

    /** Removes one old target, if it was moved aside. */
    method RemoveRollback(
        ghost e: Fs, ghost tree: Node, token: nat, ghost names: seq<string>, ghost i: nat, swap: Swap,
        ghost loose: set<Place>)
      returns (ok: bool)
      requires tree.Dir? && Fresh(e, token) && i < |names| && swap == Swap(names[i], Target(names[i]) in e)
      requires Protected(e, entries) && Clearing(e, tree, token, names, names[..i], loose, entries)
      requires Replaced(tree, names, entries)
      modifies this
      ensures Protected(e, entries) && GrownProtected(e, old(log), log)
      ensures Replaced(tree, names, entries) && AllReplaced(tree, names, log, |old(log)|, |log|)
      ensures !ok ==> |log| > |old(log)|
      ensures ok ==> Clearing(e, tree, token, names, names[..i + 1], loose, entries)
      ensures forall suffix :: Get(entries, Sidecar(suffix)) == Get(old(entries), Sidecar(suffix))
      ensures (forall n :: !faults(n).fails) ==> ok
    {
      ok := true;
      if swap.hadTarget {
        ok := Remove(Rollback(token, swap.name));
      }
      if ok { ClearedOneMore(e, tree, token, names, i, loose, old(entries), entries); }
    }

    /** Removes the old targets that were moved aside; from here on there is no way back. */
    method RemoveRollbacks(
        ghost e: Fs, ghost tree: Node, token: nat, ghost names: seq<string>, swaps: seq<Swap>, suffixes: seq<string>)
      returns (ok: bool)
      requires tree.Dir? && Fresh(e, token) && |names| == |swaps| && Distinct(names)
      requires forall k :: 0 <= k < |swaps| ==> swaps[k] == Swap(names[k], Target(names[k]) in e)
      requires Looks(e, tree, token, names, None, Sidecars(suffixes), entries)
      modifies this
      ensures Protected(e, entries) && GrownProtected(e, old(log), log)
      ensures Replaced(tree, names, entries) && AllReplaced(tree, names, log, |old(log)|, |log|)
      ensures !ok ==> |log| > |old(log)|
      ensures ok ==> Clearing(e, tree, token, names, names, Sidecars(suffixes), entries)
      ensures forall suffix :: Get(entries, Sidecar(suffix)) == Get(old(entries), Sidecar(suffix))
      ensures (forall n :: !faults(n).fails) ==> ok
    {
      ghost var loose := Sidecars(suffixes);
      LooksIsSafe(e, tree, token, names, None, loose, entries);
      LooksIsReplaced(e, tree, token, names, suffixes, entries);
      for i := 0 to |swaps|
        invariant Protected(e, entries) && GrownProtected(e, old(log), log)
        invariant Clearing(e, tree, token, names, names[..i], loose, entries)
        invariant Replaced(tree, names, entries) && AllReplaced(tree, names, log, |old(log)|, |log|)
        invariant forall suffix :: Get(entries, Sidecar(suffix)) == Get(old(entries), Sidecar(suffix))
      {
        ghost var earlier := log;
        ok := RemoveRollback(e, tree, token, names, i, swaps[i], loose);
        GrownProtectedJoins(e, old(log), earlier, log);
        ReplacedJoins(e, tree, names, old(log), earlier, log);
        if !ok {
          return;
        }
      }
      assert names[..|names|] == names;
      ok := true;
    }

    /**
     The commit of a restore whose targets are all swapped: side files, rollback paths, and the
     request last. `cleanup` is the log position at which the originals start to disappear.
     */
    method Commit(ghost e: Fs, ghost tree: Node, token: nat, ghost names: seq<string>, swaps: seq<Swap>)
      returns (failure: Option<Failure>, ghost cleanup: nat)
      requires tree.Dir? && Fresh(e, token) && |names| == |swaps| && Distinct(names)
      requires forall k :: 0 <= k < |swaps| ==> swaps[k] == Swap(names[k], Target(names[k]) in e)
      requires Looks(e, tree, token, names, None, {}, entries)
      modifies this
      ensures |old(log)| <= cleanup <= |log| && Grown(e, token, old(log), log[..cleanup])
      ensures failure.None? ==> Finished(e, tree, names, entries) && GrownUntil(e, old(log), log, entries)
      ensures failure.Some? ==>
        && Protected(e, entries) && GrownProtected(e, old(log), log)
        && (failure == Some(SidecarFailed) || failure == Some(CleanupFailed))
      ensures failure == Some(SidecarFailed) ==>
        cleanup == |log| && Looks(e, tree, token, names, None, Sidecars(SUFFIXES), entries)
      ensures var k := FirstFault(faults, old(operations), |SUFFIXES|);
              && (failure == Some(SidecarFailed) <==> k < |SUFFIXES|)
              && (failure == Some(SidecarFailed) ==>
                    operations == old(operations) + k + 1 && SidecarsGone(old(entries), SUFFIXES[..k], entries))
      ensures AllReplaced(tree, names, log, cleanup, |log|) && (failure == Some(CleanupFailed) ==> cleanup < |log|)
      ensures (forall n :: !faults(n).fails) ==> failure.None?
    {
      LooksIsSafe(e, tree, token, names, None, {}, entries);
      NoFirstFault(faults, operations, |SUFFIXES|);
      var ok := RemoveSidecars(e, tree, token, names, SUFFIXES);
      cleanup := |log|;
      assert log[..cleanup] == log;
      LooksIsSafe(e, tree, token, names, None, Sidecars(SUFFIXES), entries);
      if !ok {
        return Some(SidecarFailed), cleanup;
      }
      ghost var swept := log;
      ok := RemoveRollbacks(e, tree, token, names, swaps, SUFFIXES);
      assert log[..cleanup] == swept;
      GrownProtectedJoins(e, old(log), swept, log);
      if !ok {
        return Some(CleanupFailed), cleanup;
      }
      ghost var cleared, before := entries, log;
      ok := Unlink(Marker);
      assert log[..cleanup] == swept;
      assert forall name :: Get(entries, Target(name)) == Get(cleared, Target(name));
      if !ok {
        assert GrownProtected(e, before, log);
        GrownProtectedJoins(e, old(log), before, log);
        return Some(CleanupFailed), cleanup;
      }
      ClearedIsFinished(e, tree, token, names, cleared);
      failure := None;
    }

    /** `scheduleRestore`: a request is written, through a draft, exactly when the backup verifies. */
    method ScheduleRestore(
        codec: Backup.Codec, digest: string -> string, fingerprint: Option<string>, id: string, text: string)
      returns (ok: bool)
      modifies this
      ensures ok ==> Get(entries, Marker) == Some(File(text)) && Get(entries, MarkerDraft) == None
      ensures ok ==> forall place :: place != Marker && place != MarkerDraft ==>
        Get(entries, place) == Get(old(entries), place)
      ensures ok ==> Requested(codec, digest, fingerprint, _ => Some(id), entries, id)
      ensures !ok ==> forall place :: place != MarkerDraft ==> Get(entries, place) == Get(old(entries), place)
      ensures (forall n :: !faults(n).fails) ==>
        (ok <==> Requested(codec, digest, fingerprint, _ => Some(id), old(entries)[Marker := File(text)], id))
    {
      var verification := Backup.VerifyBackup(codec, digest, fingerprint, id, Get(entries, BackupAt(id)));
      assert Get(entries, BackupAt(id)) == Get(entries[Marker := File(text)], BackupAt(id));
      if verification.Err? || !verification.value.valid {
        return false;
      }
      ok := Write(MarkerDraft, File(text));
      if ok {
        assert Get(entries, MarkerDraft) == Some(File(text));
        ghost var drafted := entries;
        ok := Rename(MarkerDraft, Marker);
        assert forall place :: place != Marker && place != MarkerDraft ==> Get(entries, place) == Get(drafted, place);
      }
    }

    /** The commit after a swap loop that was started with an earlier log. */
    method CommitSwapped(
        ghost e: Fs, ghost tree: Node, token: nat, ghost names: seq<string>, swaps: seq<Swap>, ghost started: seq<Fs>)
      returns (failure: Option<Failure>, ghost cleanup: nat)
      requires tree.Dir? && Fresh(e, token) && |names| == |swaps| && Distinct(names)
      requires forall k :: 0 <= k < |swaps| ==> swaps[k] == Swap(names[k], Target(names[k]) in e)
      requires Looks(e, tree, token, names, None, {}, entries) && Grown(e, token, started, log)
      modifies this
      ensures |started| <= cleanup <= |log| && Grown(e, token, started, log[..cleanup])
      ensures failure.None? ==> Finished(e, tree, names, entries) && GrownUntil(e, started, log, entries)
      ensures failure.Some? ==>
        && Protected(e, entries) && GrownProtected(e, started, log)
        && (failure == Some(SidecarFailed) || failure == Some(CleanupFailed))
      ensures failure == Some(SidecarFailed) ==>
        cleanup == |log| && Looks(e, tree, token, names, None, Sidecars(SUFFIXES), entries)
      ensures var k := FirstFault(faults, old(operations), |SUFFIXES|);
              && (failure == Some(SidecarFailed) <==> k < |SUFFIXES|)
              && (failure == Some(SidecarFailed) ==>
                    operations == old(operations) + k + 1 && SidecarsGone(e, SUFFIXES[..k], entries))
      ensures AllReplaced(tree, names, log, cleanup, |log|) && (failure == Some(CleanupFailed) ==> cleanup < |log|)
      ensures (forall n :: !faults(n).fails) ==> failure.None?
    {
      assert forall suffix :: Get(entries, Sidecar(suffix)) == Get(e, Sidecar(suffix));
      ghost var swapped := log;
      GrownIsProtected(e, token, started, swapped);
      failure, cleanup := Commit(e, tree, token, names, swaps);
      GrownJoins(e, token, started, swapped, log[..cleanup]);
      if failure.None? {
        GrownUntilJoins(e, started, swapped, log, entries);
      } else {
        GrownProtectedJoins(e, started, swapped, log);
      }
    }

    /** The swap loop and the commit; `loose` are the places in disorder after a failure. */
    method SwapAndCommit(ghost e: Fs, tree: Node, token: nat, names: seq<string>)
      returns (failure: Option<Failure>, swaps: seq<Swap>, ghost cleanup: nat, ghost loose: set<Place>)
      requires tree.Dir? && Fresh(e, token) && Distinct(names) && entries == e
      modifies this
      ensures |old(log)| <= cleanup <= |log| && Grown(e, token, old(log), log[..cleanup])
      ensures failure.None? ==> Finished(e, tree, names, entries) && GrownUntil(e, old(log), log, entries)
      ensures failure.Some? ==> Protected(e, entries) && GrownProtected(e, old(log), log)
      ensures failure.Some? ==> Failed(e, tree, token, names, swaps, failure.value, loose, entries)
      ensures failure.Some? && !failure.value.CleanupFailed? ==> cleanup == |log|
      ensures var stop := FirstStop(e, tree, names, faults, old(operations));
              if stop.Some? then failure == Some(stop.value.failure) && operations == stop.value.operations
              else failure.None? || failure.value.CleanupFailed?
      ensures failure == Some(SidecarFailed) ==>
        SidecarsGone(e, SUFFIXES[..RemovedSidecars(e, names, faults, old(operations))], entries)
      ensures AllReplaced(tree, names, log, cleanup, |log|) && (failure == Some(CleanupFailed) ==> cleanup < |log|)
      ensures (forall n :: !faults(n).fails) && (Backup.DATABASE_NAME in names ==> Backup.DATABASE_NAME in tree.entries)
        ==> failure.None?
    {
      LooksIsSafe(e, tree, token, [], None, {}, entries);
      NoFaultNoStop(e, tree, names, faults, operations);
      failure, swaps := SwapAll(e, tree, token, names);
      cleanup, loose := |log|, {};
      GrownIsProtected(e, token, old(log), log);
      if failure.None? {
        assert names[..|swaps|] == names;
        failure, cleanup := CommitSwapped(e, tree, token, names, swaps, old(log));
        loose := Sidecars(SUFFIXES);
      } else {
        loose := {Stage(token, names[|swaps|])};
        StoppedIsFailed(e, tree, token, names, swaps, failure.value, entries);
        assert log[..cleanup] == log;
      }
    }

    /**
     Swap, commit, and the catch block, for a request that has been verified. Every original is kept
     before the log position `cleanup`, and every replacement is in place from there to `caught`, which
     is the end of the log, or the position at which the catch block takes over.
     */
    method Perform(ghost e: Fs, tree: Node, token: nat, names: seq<string>)
      returns (failure: Option<Failure>, ghost cleanup: nat, ghost caught: nat)
      requires tree.Dir? && Fresh(e, token) && Distinct(names) && entries == e
      modifies this
      ensures |old(log)| <= cleanup <= |log| && Grown(e, token, old(log), log[..cleanup])
      ensures failure.None? ==> Finished(e, tree, names, entries) && GrownUntil(e, old(log), log, entries)
      ensures failure.Some? ==> Protected(e, entries) && GrownProtected(e, old(log), log)
      ensures failure.Some? ==> Undone(e, token, failure.value, entries)
      ensures failure.Some? ==> !failure.value.InvalidRequest? && !failure.value.Rejected?
      ensures failure.Some? && !failure.value.CleanupFailed? && !failure.value.UndoFailed? ==> cleanup == |log|
      ensures cleanup <= caught && AllReplaced(tree, names, log, cleanup, caught)
      ensures failure.None? ==> caught == |log|
      ensures failure == Some(CleanupFailed) ==> cleanup < caught
      ensures FailsAsPlanned(FirstStop(e, tree, names, faults, old(operations)), faults, failure)
      ensures failure == Some(SidecarFailed) ==>
        SidecarsGone(e, SUFFIXES[..RemovedSidecars(e, names, faults, old(operations))], entries)
      ensures (forall n :: !faults(n).fails) && (Backup.DATABASE_NAME in names ==> Backup.DATABASE_NAME in tree.entries)
        ==> failure.None?
    {
      var swaps;
      ghost var loose;
      failure, swaps, cleanup, loose := SwapAndCommit(e, tree, token, names);
      caught := |log|;
      if failure.None? {
        return;
      }
      ghost var failed, intact, moved := log, !failure.value.CleanupFailed?, InTransit(e, failure.value);
      var ok := Undo(e, tree, token, swaps, names[..|swaps|], moved, loose, intact);
      GrownProtectedJoins(e, old(log), failed, log);
      if intact {
        assert failed[..cleanup] == failed;
        GrownJoins(e, token, old(log), failed, log);
        cleanup, caught := |log|, |log|;
        assert log[..cleanup] == log;
        if ok { LooksIsUndone(e, tree, token, failure.value, loose, entries); }
      } else {
        assert log[..cleanup] == failed[..cleanup];
        assert forall k :: 0 <= k < |failed| ==> log[k] == log[..|failed|][k];
      }
      if !ok {
        failure := Some(UndoFailed);
      }
    }

    /**
     `applyScheduledRestore`. Without a request nothing happens; a malformed request or an invalid
     backup changes nothing; success leaves exactly the restored directory; and every failure keeps
     the request and the backups, with the targets put back as `Undone` says. In every state on the way
     all originals are kept (before `cleanup`) or all replacements are in place (from there to `caught`).
     */
    method ApplyScheduledRestore(
        codec: Backup.Codec, digest: string -> string, fingerprint: Option<string>,
        readMarker: string -> Option<string>, token: nat)
      returns (result: Result<Option<string>, Failure>, ghost cleanup: nat, ghost caught: nat)
      requires Fresh(entries, token)
      modifies this
      ensures result == Ok(None) <==> Marker !in old(entries)
      ensures result == Ok(None) || result == Err(InvalidRequest) || result == Err(Rejected) ==>
        entries == old(entries) && log == old(log)
      ensures result == Err(InvalidRequest) || result == Err(Rejected) <==>
        Marker in old(entries) && !(exists id :: Requested(codec, digest, fingerprint, readMarker, old(entries), id))
      ensures result.Ok? && result.value.Some? ==>
        && Requested(codec, digest, fingerprint, readMarker, old(entries), result.value.value)
        && Finished(old(entries), old(entries)[BackupAt(result.value.value)], Targets(), entries)
        && GrownUntil(old(entries), old(log), log, entries)
      ensures result.Err? ==>
        && Protected(old(entries), entries) && GrownProtected(old(entries), old(log), log)
        && Undone(old(entries), token, result.error, entries)
      ensures |old(log)| <= cleanup <= |log| && Grown(old(entries), token, old(log), log[..cleanup])
      ensures result.Err? && !result.error.CleanupFailed? && !result.error.UndoFailed? ==> cleanup == |log|
      ensures cleanup <= caught <= |log| && (result.Ok? ==> caught == |log|)
      ensures result == Err(CleanupFailed) ==> cleanup < caught
      ensures forall id :: Requested(codec, digest, fingerprint, readMarker, old(entries), id) ==>
        FailsAsPlanned(FirstStop(old(entries), old(entries)[BackupAt(id)], Targets(), faults, old(operations)), faults,
                       if result.Ok? then None else Some(result.error))
      ensures result == Err(SidecarFailed) ==>
        SidecarsGone(
          old(entries), ["-wal", "-shm"][..RemovedSidecars(old(entries), Targets(), faults, old(operations))], entries)
      ensures forall id :: Requested(codec, digest, fingerprint, readMarker, old(entries), id) ==>
        AllReplaced(old(entries)[BackupAt(id)], Targets(), log, cleanup, caught)
      ensures (forall n :: !faults(n).fails) ==>
        forall id :: Restorable(codec, digest, fingerprint, readMarker, old(entries), id) ==> result == Ok(Some(id))
    {
      cleanup, caught := |log|, |log|;
      assert log[..cleanup] == log;
      if Marker !in entries {
        return Ok(None), cleanup, caught;
      }
      var request := if entries[Marker].File? then readMarker(entries[Marker].content) else None;
      if request.None? {
        return Err(InvalidRequest), cleanup, caught;
      }
      var id := request.value;
      var verification := Backup.VerifyBackup(codec, digest, fingerprint, id, Get(entries, BackupAt(id)));
      assert forall other :: Requested(codec, digest, fingerprint, readMarker, entries, other) ==> other == id;
      if verification.Err? || !verification.value.valid {
        assert !Requested(codec, digest, fingerprint, readMarker, entries, id);
        return Err(Rejected), cleanup, caught;
      }
      assert Requested(codec, digest, fingerprint, readMarker, entries, id);
      TargetsAreDistinct();
      var failure;
      failure, cleanup, caught := Perform(entries, entries[BackupAt(id)], token, Targets());
      result := if failure.None? then Ok(Some(id)) else Err(failure.value);
    }
  }

  /** The first stop is what is reported, unless undoing fails as well; otherwise only the cleanup can fail. */
  ghost predicate FailsAsPlanned(stop: Option<Stop>, faults: nat -> Fault, failure: Option<Failure>) {
    if stop.Some? then
      failure == Some(stop.value.failure) || (failure == Some(UndoFailed) && FaultFrom(faults, stop.value.operations))
    else failure.None? || failure.value.CleanupFailed? || failure.value.UndoFailed?
  }

  /** The replaced targets, the database first. */
  function Targets(): (names: seq<string>)
    ensures names == ["fantetic-terminal.db", "uploads", "custom-html-themes", "session-recordings"]
  {
    [Backup.DATABASE_NAME] + Backup.CONTENT_NAMES
  }

  lemma TargetsAreDistinct()
    ensures Distinct(Targets())
  {
  }

  /** The directory holds a well-formed request for a backup that verifies. */
  ghost predicate Requested(
      codec: Backup.Codec, digest: string -> string, fingerprint: Option<string>,
      readMarker: string -> Option<string>, e: Fs, id: string)
  {
    && Marker in e && e[Marker].File? && readMarker(e[Marker].content) == Some(id)
    && var m := Backup.ReadManifest(codec, id, Get(e, BackupAt(id)));
       m.Some? && fingerprint == Some(m.value.keyFingerprint)
       && Backup.FilesMatch(digest, m.value.files, e[BackupAt(id)])
  }

  /** As `Requested`, for a backup that holds the database snapshot, as every created one does. */
  ghost predicate Restorable(
      codec: Backup.Codec, digest: string -> string, fingerprint: Option<string>,
      readMarker: string -> Option<string>, e: Fs, id: string)
  {
    && Requested(codec, digest, fingerprint, readMarker, e, id)
    && Backup.DATABASE_NAME in e[BackupAt(id)].entries
  }

  /** Nothing but the request and the backups decides what is restored. */
  lemma ProtectedStaysRestorable(
      codec: Backup.Codec, digest: string -> string, fingerprint: Option<string>,
      readMarker: string -> Option<string>, e: Fs, h: Fs, id: string)
    requires Restorable(codec, digest, fingerprint, readMarker, e, id) && Protected(e, h)
    ensures Restorable(codec, digest, fingerprint, readMarker, h, id) && h[BackupAt(id)] == e[BackupAt(id)]
  {
  }

  /** The targets hold the backup, the database side files are gone, and there is no request. */
  ghost predicate IsRestored(tree: Node, h: Fs)
    requires tree.Dir?
  {
    && (forall name :: name in Targets() ==> Get(h, Target(name)) == Some(Restored(tree, name)))
    && Sidecar("-wal") !in h && Sidecar("-shm") !in h
    && Marker !in h
  }

  lemma FinishedIsRestored(e: Fs, tree: Node, h: Fs)
    requires tree.Dir? && Finished(e, tree, Targets(), h)
    ensures IsRestored(tree, h)
  {
    assert Get(h, Sidecar("-wal")) == None && Get(h, Sidecar("-shm")) == None && Get(h, Marker) == None;
  }

  /** One start of the application: which operations fail, and the logged state a crash stops it in, if any. */
  datatype Crash = Crash(faults: nat -> Fault, after: Option<nat>)

  /** The restore of `tree` is done, or still requested. */
  ghost predicate DoneOrPending(
      codec: Backup.Codec, digest: string -> string, fingerprint: Option<string>,
      readMarker: string -> Option<string>, id: string, tree: Node, h: Fs)
    requires tree.Dir?
  {
    IsRestored(tree, h) || (Restorable(codec, digest, fingerprint, readMarker, h, id) && h[BackupAt(id)] == tree)
  }

  /**
   What a start may leave, however it fails and wherever it stops: a directory without a request as it
   was; otherwise the finished restore, or at least the request and the backups.
   */
  ghost predicate MayLeave(
      codec: Backup.Codec, digest: string -> string, fingerprint: Option<string>,
      readMarker: string -> Option<string>, id: string, e: Fs, h: Fs)
  {
    if Marker !in e then h == e
    else Restorable(codec, digest, fingerprint, readMarker, e, id) ==>
      Finished(e, e[BackupAt(id)], Targets(), h) || Protected(e, h)
  }

  /** What an undisturbed start leaves. */
  ghost predicate Leaves(
      codec: Backup.Codec, digest: string -> string, fingerprint: Option<string>,
      readMarker: string -> Option<string>, id: string, e: Fs, h: Fs)
  {
    if Marker !in e then h == e
    else Restorable(codec, digest, fingerprint, readMarker, e, id) ==> Finished(e, e[BackupAt(id)], Targets(), h)
  }

  lemma LeftIsRecoverable(
      codec: Backup.Codec, digest: string -> string, fingerprint: Option<string>,
      readMarker: string -> Option<string>, id: string, tree: Node, e: Fs, h: Fs)
    requires tree.Dir? && DoneOrPending(codec, digest, fingerprint, readMarker, id, tree, e)
    requires MayLeave(codec, digest, fingerprint, readMarker, id, e, h)
    ensures DoneOrPending(codec, digest, fingerprint, readMarker, id, tree, h)
    ensures Leaves(codec, digest, fingerprint, readMarker, id, e, h) ==> IsRestored(tree, h)
  {
    if Marker in e {
      if Finished(e, e[BackupAt(id)], Targets(), h) {
        FinishedIsRestored(e, tree, h);
      } else {
        ProtectedStaysRestorable(codec, digest, fingerprint, readMarker, e, h, id);
      }
    }
  }

  /** Each state is one that a start may leave of the state before. */
  ghost predicate AreRestarts(
      codec: Backup.Codec, digest: string -> string, fingerprint: Option<string>,
      readMarker: string -> Option<string>, id: string, states: seq<Fs>)
  {
    forall k :: 0 < k < |states| ==> IsRestart(codec, digest, fingerprint, readMarker, id, states, k)
  }

  ghost predicate IsRestart(
      codec: Backup.Codec, digest: string -> string, fingerprint: Option<string>,
      readMarker: string -> Option<string>, id: string, states: seq<Fs>, k: int)
    requires 0 < k < |states|
  {
    MayLeave(codec, digest, fingerprint, readMarker, id, states[k - 1], states[k])
  }

  /**
   Start after start, each leaving whatever it may leave when it crashes or fails, and then an
   undisturbed one: the backup requested at first is restored.
   */
  lemma {:induction false} CrashesDoNotMatter(
      codec: Backup.Codec, digest: string -> string, fingerprint: Option<string>,
      readMarker: string -> Option<string>, id: string, states: seq<Fs>, final: Fs)
    requires states != [] && Restorable(codec, digest, fingerprint, readMarker, states[0], id)
    requires AreRestarts(codec, digest, fingerprint, readMarker, id, states)
    requires Leaves(codec, digest, fingerprint, readMarker, id, states[|states| - 1], final)
    ensures IsRestored(states[0][BackupAt(id)], final)
  {
    var last := |states| - 1;
    StillRecoverable(codec, digest, fingerprint, readMarker, id, states, last);
    LeftIsRecoverable(codec, digest, fingerprint, readMarker, id, states[0][BackupAt(id)], states[last], final);
  }

  lemma RestartsGrow(
      codec: Backup.Codec, digest: string -> string, fingerprint: Option<string>,
      readMarker: string -> Option<string>, id: string, states: seq<Fs>, h: Fs)
    requires states != [] && AreRestarts(codec, digest, fingerprint, readMarker, id, states)
    requires MayLeave(codec, digest, fingerprint, readMarker, id, states[|states| - 1], h)
    ensures AreRestarts(codec, digest, fingerprint, readMarker, id, states + [h])
  {
    forall k | 0 < k < |states + [h]| ensures IsRestart(codec, digest, fingerprint, readMarker, id, states + [h], k) {
      if k < |states| { assert IsRestart(codec, digest, fingerprint, readMarker, id, states, k); }
    }
  }

  lemma {:induction false} StillRecoverable(
      codec: Backup.Codec, digest: string -> string, fingerprint: Option<string>,
      readMarker: string -> Option<string>, id: string, states: seq<Fs>, k: nat)
    requires k < |states| && Restorable(codec, digest, fingerprint, readMarker, states[0], id)
    requires AreRestarts(codec, digest, fingerprint, readMarker, id, states)
    ensures DoneOrPending(codec, digest, fingerprint, readMarker, id, states[0][BackupAt(id)], states[k])
    decreases k
  {
    if k > 0 {
      StillRecoverable(codec, digest, fingerprint, readMarker, id, states, k - 1);
      assert IsRestart(codec, digest, fingerprint, readMarker, id, states, k);
      LeftIsRecoverable(codec, digest, fingerprint, readMarker, id, states[0][BackupAt(id)], states[k - 1], states[k]);
    }
  }

  /** Every state that a start logs, and the one it ends in, is one it may leave. */
  lemma LoggedStateMayBeLeft(
      codec: Backup.Codec, digest: string -> string, fingerprint: Option<string>,
      readMarker: string -> Option<string>, id: string, e: Fs, log: seq<Fs>, last: Fs, finished: bool, k: nat)
    requires Restorable(codec, digest, fingerprint, readMarker, e, id) && Marker in e
    requires if finished then Finished(e, e[BackupAt(id)], Targets(), last) && GrownUntil(e, [e], log, last)
             else Protected(e, last) && GrownProtected(e, [e], log)
    requires k <= |log|
    ensures MayLeave(codec, digest, fingerprint, readMarker, id, e, if k == |log| then last else log[k])
  {
    if !(finished && k >= |log| - 1) {
      var safe := if finished then log[..|log| - 1] else log;
      assert k == 0 ==> safe[..1][0] == e;
      assert k < |log| ==> log[k] == safe[k];
    }
  }

  ghost predicate Undisturbed(crash: Crash) {
    crash.after.None? && forall n :: !crash.faults(n).fails
  }

  /** One start of the application, ending in whatever state the crash finds the file system in. */
  method StartAndCrash(
      codec: Backup.Codec, digest: string -> string, fingerprint: Option<string>,
      readMarker: string -> Option<string>, token: nat, e: Fs, ghost id: string, crash: Crash)
    returns (after: Fs)
    requires Fresh(e, token) && (Marker in e ==> Restorable(codec, digest, fingerprint, readMarker, e, id))
    ensures MayLeave(codec, digest, fingerprint, readMarker, id, e, after)
    ensures Undisturbed(crash) ==>
      Leaves(codec, digest, fingerprint, readMarker, id, e, after)
  {
    var directory := new DataDirectory(e, crash.faults);
    var result, _, _ := directory.ApplyScheduledRestore(codec, digest, fingerprint, readMarker, token);
    var log, last := directory.log, directory.entries;
    var k := if crash.after.None? then |log| else crash.after.value % |log|;
    after := if k == |log| then last else log[k];
    if Marker in e {
      LoggedStateMayBeLeft(codec, digest, fingerprint, readMarker, id, e, log, last, result.Ok?, k);
    }
  }

  /**
   Starts the restore again after any number of crashes and failures, each leaving whatever state the
   file system was in; `clock` supplies the tokens. An undisturbed start then ends restored.
   */
  method RestoreDespiteCrashes(
      codec: Backup.Codec, digest: string -> string, fingerprint: Option<string>,
      readMarker: string -> Option<string>, clock: Fs -> nat, e: Fs, id: string, crashes: seq<Crash>)
    returns (final: Fs, ghost states: seq<Fs>)
    requires forall h :: Fresh(h, clock(h))
    requires Restorable(codec, digest, fingerprint, readMarker, e, id)
    ensures |states| == |crashes| + 1 && states[0] == e
    ensures AreRestarts(codec, digest, fingerprint, readMarker, id, states)
    ensures forall k :: 0 <= k < |crashes| && Undisturbed(crashes[k]) ==>
      Leaves(codec, digest, fingerprint, readMarker, id, states[k], states[k + 1])
    ensures Leaves(codec, digest, fingerprint, readMarker, id, states[|crashes|], final)
    ensures IsRestored(e[BackupAt(id)], final)
  {
    ghost var tree := e[BackupAt(id)];
    final, states := e, [e];
    for i := 0 to |crashes|
      invariant |states| == i + 1 && states[0] == e && states[i] == final
      invariant AreRestarts(codec, digest, fingerprint, readMarker, id, states)
      invariant forall k :: 0 <= k < i && Undisturbed(crashes[k]) ==>
        Leaves(codec, digest, fingerprint, readMarker, id, states[k], states[k + 1])
      invariant DoneOrPending(codec, digest, fingerprint, readMarker, id, tree, final)
    {
      ghost var before := final;
      final := StartAndCrash(codec, digest, fingerprint, readMarker, clock(final), final, id, crashes[i]);
      LeftIsRecoverable(codec, digest, fingerprint, readMarker, id, tree, before, final);
      RestartsGrow(codec, digest, fingerprint, readMarker, id, states, final);
      states := states + [final];
    }
    var undisturbed := Crash(_ => Fault(false, None), None);
    final := StartAndCrash(codec, digest, fingerprint, readMarker, clock(final), final, id, undisturbed);
    CrashesDoNotMatter(codec, digest, fingerprint, readMarker, id, states, final);
  }

  /** Whatever `createBackup` completed can be restored once it is requested; every snapshot has its database. */
  lemma CreatedBackupIsRestorable(
      codec: Backup.Codec, digest: string -> string, fingerprint: Option<string>,
      readMarker: string -> Option<string>, e: Fs, id: string, m: Backup.Manifest, snapshot: Node)
    requires Get(e, BackupAt(id)).Some? && Get(e, Marker).Some? && e[Marker].File?
    requires readMarker(e[Marker].content) == Some(id)
    requires Backup.IsBackupOf(codec, digest, fingerprint, id, e[BackupAt(id)], m, snapshot)
    requires Lookup(snapshot, [Backup.DATABASE_NAME]).Some?
    ensures Restorable(codec, digest, fingerprint, readMarker, e, id)
  {
    Backup.DatabaseIsNoManifest();
    var root, path := e[BackupAt(id)], [Backup.DATABASE_NAME];
    assert Lookup(root, path) == Lookup(snapshot, path);
    assert Get(e, BackupAt(id)) == Some(root);
  }

  /** What is put at a target is the snapshot the backup was created from, file by file. */
  lemma RestoredIsTheSnapshot(snapshot: Node, tree: Node, name: string, path: Path)
    requires tree.Dir? && Backup.SameListedFiles(snapshot, tree)
    requires ([name] + path)[|path|] != MANIFEST_NAME
    ensures Lookup(Restored(tree, name), path) == Lookup(snapshot, [name] + path)
  {
  }

  /** Exactly the third operation fails. */
  function ThirdFails(): nat -> Fault { n => Fault(n == 2, None) }

  lemma ThirdMovesIn(e: Fs, tree: Node)
    requires tree.Dir? && Backup.DATABASE_NAME in tree.entries && Target(Backup.DATABASE_NAME) in e
    ensures FirstStop(e, tree, Targets(), ThirdFails(), 0) == Some(Stop(MoveNewFailed(Backup.DATABASE_NAME), 3))
    ensures !FaultFrom(ThirdFails(), 3)
  {
    assert Targets()[0] == Backup.DATABASE_NAME;
  }

  /**
   A restore over any directory with a database file, in which just moving the first replacement in
   fails: the old file is not put back, but left aside.
   */
  method FailToMoveIn(
      codec: Backup.Codec, digest: string -> string, fingerprint: Option<string>,
      readMarker: string -> Option<string>, token: nat, e: Fs, ghost id: string)
    returns (result: Result<Option<string>, Failure>, after: Fs)
    requires Fresh(e, token) && Restorable(codec, digest, fingerprint, readMarker, e, id)
    requires Target(Backup.DATABASE_NAME) in e
    ensures result == Err(MoveNewFailed(Backup.DATABASE_NAME))
    ensures Get(after, Target(Backup.DATABASE_NAME)) != Get(e, Target(Backup.DATABASE_NAME))
    ensures Get(after, Rollback(token, Backup.DATABASE_NAME)) == Get(e, Target(Backup.DATABASE_NAME))
  {
    var directory := new DataDirectory(e, ThirdFails());
    ghost var cleanup, caught;
    result, cleanup, caught := directory.ApplyScheduledRestore(codec, digest, fingerprint, readMarker, token);
    after := directory.entries;
    ThirdMovesIn(e, e[BackupAt(id)]);
    assert Requested(codec, digest, fingerprint, readMarker, e, id);
  }

  function DirectoryOf(database: Node, request: string, id: string, root: Node): (e: Fs)
    ensures Fresh(e, 0) && Get(e, Target(Backup.DATABASE_NAME)) == Some(database)
    ensures Get(e, Marker) == Some(File(request)) && Get(e, BackupAt(id)) == Some(root)
  {
    map[Target(Backup.DATABASE_NAME) := database, Marker := File(request), BackupAt(id) := root]
  }

  /** Of all operations, just the removal of the second side file fails. */
  function SecondSidecarFails(e: Fs): nat -> Fault {
    var failing := LoopOperations(e, Targets()) + 1;
    n => Fault(n == failing, None)
  }

  lemma SecondSidecarStops(e: Fs, tree: Node)
    requires tree.Dir? && Backup.DATABASE_NAME in tree.entries
    ensures RemovedSidecars(e, Targets(), SecondSidecarFails(e), 0) == 1
    ensures FirstStop(e, tree, Targets(), SecondSidecarFails(e), 0) ==
      Some(Stop(SidecarFailed, LoopOperations(e, Targets()) + 2))
    ensures !FaultFrom(SecondSidecarFails(e), LoopOperations(e, Targets()) + 2)
  {
    var begin, faults := LoopOperations(e, Targets()), SecondSidecarFails(e);
    NoFaultNoStop(e, tree, Targets(), faults, 0);
    assert FirstFault(faults, begin + 1, 1) == 0;
  }

  /**
   In that case the whole directory is put back, the old database included, but for its write-ahead
   file: what had been committed to that file only is lost.
   */
  method LoseWriteAheadFile(
      codec: Backup.Codec, digest: string -> string, fingerprint: Option<string>,
      readMarker: string -> Option<string>, token: nat, e: Fs, ghost id: string)
    returns (result: Result<Option<string>, Failure>, after: Fs)
    requires Fresh(e, token) && Restorable(codec, digest, fingerprint, readMarker, e, id)
    ensures result == Err(SidecarFailed)
    ensures forall place: Place :: !place.Sidecar? ==> Get(after, place) == Get(e, place)
    ensures Get(after, Sidecar("-wal")) == None && Get(after, Sidecar("-shm")) == Get(e, Sidecar("-shm"))
  {
    var directory := new DataDirectory(e, SecondSidecarFails(e));
    ghost var cleanup, caught;
    result, cleanup, caught := directory.ApplyScheduledRestore(codec, digest, fingerprint, readMarker, token);
    after := directory.entries;
    SecondSidecarStops(e, e[BackupAt(id)]);
    assert Requested(codec, digest, fingerprint, readMarker, e, id);
    assert ["-wal", "-shm"][..1] == ["-wal"];
    assert |"-wal"| == 4 && "-wal"[1] != "-shm"[1];
  }

  /** An undisturbed backup of a database without further data. */
  method BackUpDatabase(codec: Backup.Codec, digest: string -> string, key: string, id: string, database: string)
    returns (root: Node, m: Backup.Manifest)
    requires Backup.RoundTrips(codec) && Backup.IsBackupId(id)
    ensures Backup.IsBackupOf(codec, digest, Some(key), id, root, m,
                              Backup.Snapshot(database, map[], Backup.CONTENT_NAMES))
  {
    var store := new Backup.BackupStore();
    var created := store.CreateBackup(codec, digest, Some(key), id, "", 1, database, map[], {});
    root, m := store.entries[id], created.value;
  }

  /** Such a directory: an old database file, and a requested backup of any database. */
  method LoseTarget(
      codec: Backup.Codec, digest: string -> string, key: string, id: string, database: string, original: Node,
      text: string)
    returns (result: Result<Option<string>, Failure>, after: Fs)
    requires Backup.RoundTrips(codec) && Backup.IsBackupId(id)
    ensures result == Err(MoveNewFailed(Backup.DATABASE_NAME))
    ensures Get(after, Target(Backup.DATABASE_NAME)) != Some(original)
    ensures Get(after, Rollback(0, Backup.DATABASE_NAME)) == Some(original)
  {
    var root, m := BackUpDatabase(codec, digest, key, id, database);
    var e := DirectoryOf(original, text, id, root);
    Backup.DatabaseIsListed(database, map[]);
    var snapshot := Backup.Snapshot(database, map[], Backup.CONTENT_NAMES);
    CreatedBackupIsRestorable(codec, digest, Some(key), _ => Some(id), e, id, m, snapshot);
    result, after := FailToMoveIn(codec, digest, Some(key), _ => Some(id), 0, e, id);
  }

  /**
   The places that may differ after the catch block. Failures while staging or while moving an old target
   aside leave just the staging place behind; a failure while moving the replacement in also loses the
   target from its place, if it existed; a failure at a side file may have removed side files.
   */
  predicate MayDiffer(e: Fs, token: nat, failure: Failure, place: Place) {
    match failure
    case SidecarFailed => place == Sidecar("-wal") || place == Sidecar("-shm")
    case MoveNewFailed(name) =>
      || (place.Stage? && place.token == token)
      || (Target(name) in e && (place == Target(name) || place == Rollback(token, name)))
    case CleanupFailed => true
    case UndoFailed => true
    case _ => place.Stage? && place.token == token
  }

  /**
   What the catch block restores: the whole directory except for those places. A target that is lost is
   at its rollback path.
   */
  ghost predicate Undone(e: Fs, token: nat, failure: Failure, h: Fs) {
    && (forall place :: !MayDiffer(e, token, failure, place) ==> Get(h, place) == Get(e, place))
    && (failure.MoveNewFailed? && Target(failure.name) in e ==>
          && Get(h, Target(failure.name)) == None
          && Get(h, Rollback(token, failure.name)) == Get(e, Target(failure.name)))
  }

  lemma ReplacedJoins(e: Fs, tree: Node, names: seq<string>, first: seq<Fs>, second: seq<Fs>, third: seq<Fs>)
    requires tree.Dir? && |first| <= |second| && GrownProtected(e, second, third)
    requires AllReplaced(tree, names, second, |first|, |second|) && AllReplaced(tree, names, third, |second|, |third|)
    ensures AllReplaced(tree, names, third, |first|, |third|)
  {
    assert forall k :: 0 <= k < |second| ==> third[k] == third[..|second|][k];
  }

  lemma LooksIsReplaced(e: Fs, tree: Node, token: nat, names: seq<string>, suffixes: seq<string>, h: Fs)
    requires tree.Dir? && Looks(e, tree, token, names, None, Sidecars(suffixes), h)
    ensures Replaced(tree, names, h)
  {
  }

  lemma GrownIsProtected(e: Fs, token: nat, before: seq<Fs>, after: seq<Fs>)
    requires Grown(e, token, before, after)
    ensures GrownProtected(e, before, after)
  {
  }

  lemma GrownUntilJoins(e: Fs, first: seq<Fs>, second: seq<Fs>, third: seq<Fs>, last: Fs)
    requires GrownProtected(e, first, second) && GrownUntil(e, second, third, last)
    ensures GrownUntil(e, first, third, last)
  {
  }

  /** As `GrownProtected`, except for the last state, which is `last`. */
  ghost predicate GrownUntil(e: Fs, before: seq<Fs>, after: seq<Fs>, last: Fs) {
    |before| < |after| && GrownProtected(e, before, after[..|after| - 1]) && after[|after| - 1] == last
  }

  lemma ClearedIsFinished(e: Fs, tree: Node, token: nat, names: seq<string>, cleared: Fs)
    requires tree.Dir? && Fresh(e, token)
    requires Clearing(e, tree, token, names, names, Sidecars(SUFFIXES), cleared)
    requires forall suffix :: suffix in SUFFIXES ==> Get(cleared, Sidecar(suffix)) == None
    ensures Finished(e, tree, names, cleared - {Marker})
  {
  }

  ghost function Sidecars(suffixes: seq<string>): set<Place> {
    set suffix | suffix in suffixes :: Sidecar(suffix)
  }

  /** All targets swapped, and the rollback paths of the targets `cleared` gone. */
  ghost predicate Clearing(
      e: Fs, tree: Node, token: nat, names: seq<string>, cleared: seq<string>, loose: set<Place>, h: Fs)
    requires tree.Dir?
  {
    forall place :: place !in loose ==>
      Get(h, place) == if place.Rollback? && place.token == token && place.name in cleared then None
                       else Expected(e, tree, token, names, None, place)
  }

  lemma ClearedOneMore(
      e: Fs, tree: Node, token: nat, names: seq<string>, i: nat, loose: set<Place>, before: Fs, after: Fs)
    requires tree.Dir? && i < |names| && Fresh(e, token)
    requires Clearing(e, tree, token, names, names[..i], loose, before)
    requires forall place :: place != Rollback(token, names[i]) ==> Get(after, place) == Get(before, place)
    requires Get(after, Rollback(token, names[i])) == None
      || (Target(names[i]) !in e && Get(after, Rollback(token, names[i])) == Get(before, Rollback(token, names[i])))
    ensures Clearing(e, tree, token, names, names[..i + 1], loose, after)
  {
  }

  /** Where a failed swap leaves the directory: the targets `done` swapped, the next one in the middle. */
  ghost predicate Stopped(
      e: Fs, tree: Node, token: nat, done: seq<string>, name: string, failure: Failure, h: Fs)
    requires tree.Dir?
  {
    && (failure == MissingDatabase || failure == StageFailed(name)
        || failure == MoveOldFailed(name) || failure == MoveNewFailed(name))
    && (failure.MissingDatabase? ==> name == Backup.DATABASE_NAME && name !in tree.entries)
    && Looks(e, tree, token, done, InTransit(e, failure), {Stage(token, name)}, h)
  }

  /** The target that a failure leaves neither at its place nor replaced. */
  function InTransit(e: Fs, failure: Failure): Option<string> {
    if failure.MoveNewFailed? && Target(failure.name) in e then Some(failure.name) else None
  }

  /** What the catch block is entered with: the finished swaps, and what else is in disorder. */
  ghost predicate Failed(
      e: Fs, tree: Node, token: nat, names: seq<string>, swaps: seq<Swap>, failure: Failure, loose: set<Place>, h: Fs)
    requires tree.Dir?
  {
    && |swaps| <= |names|
    && (forall k :: 0 <= k < |swaps| ==> swaps[k] == Swap(names[k], Target(names[k]) in e))
    && (InTransit(e, failure).Some? ==> InTransit(e, failure).value !in names[..|swaps|])
    && (forall place :: place in loose ==> (place.Stage? && place.token == token) || place.Sidecar?)
    && (forall place :: place in loose ==> MayDiffer(e, token, failure, place))
    && !failure.InvalidRequest? && !failure.Rejected? && !failure.UndoFailed?
    && (!failure.CleanupFailed? ==> Looks(e, tree, token, names[..|swaps|], InTransit(e, failure), loose, h))
  }

  lemma StoppedIsFailed(
      e: Fs, tree: Node, token: nat, names: seq<string>, swaps: seq<Swap>, failure: Failure, h: Fs)
    requires tree.Dir? && |swaps| < |names| && Distinct(names)
    requires forall k :: 0 <= k < |swaps| ==> swaps[k] == Swap(names[k], Target(names[k]) in e)
    requires Stopped(e, tree, token, names[..|swaps|], names[|swaps|], failure, h)
    ensures Failed(e, tree, token, names, swaps, failure, {Stage(token, names[|swaps|])}, h) && Protected(e, h)
    ensures !failure.CleanupFailed? && !failure.SidecarFailed?
  {
    LooksIsSafe(e, tree, token, names[..|swaps|], InTransit(e, failure), {Stage(token, names[|swaps|])}, h);
  }

  lemma LooksIsUndone(e: Fs, tree: Node, token: nat, failure: Failure, loose: set<Place>, h: Fs)
    requires tree.Dir? && Looks(e, tree, token, [], InTransit(e, failure), loose, h)
    requires forall place :: place in loose ==> (place.Stage? || place.Sidecar?) && MayDiffer(e, token, failure, place)
    ensures Undone(e, token, failure, h)
  {
  }
}
