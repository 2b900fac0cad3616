/** The runtime dependency closure over a package lock file. */
module LockClosure {
  import opened Wrappers
  import opened Text
  import opened Collections

  const BACKEND_LOCK_KEY := "packages/backend"

  /** A lock entry: the names it depends on, required and optional. */
  datatype Entry = Entry(dependencies: seq<string>, optionalDependencies: seq<string>)

  type Packages = map<string, Entry>

  // ---------- Resolution ----------

  /** The lock key of a dependency below the first `index` parts of a path. */
  function Candidate(parts: seq<string>, name: string, index: nat): string
    requires index <= |parts|
  {
    Join(parts[..index] + ["node_modules"] + Split(name, '/'), '/')
  }

  /** The search of the ancestors from the deepest one that is not below `index`. */
  function ResolveBelow(parts: seq<string>, name: string, packages: Packages, index: nat): Option<string>
    requires index <= |parts|
  {
    if Candidate(parts, name, index) in packages then Some(Candidate(parts, name, index))
    else if index == 0 then None
    else ResolveBelow(parts, name, packages, index - 1)
  }

  function Resolve(from: string, name: string, packages: Packages): Option<string> {
    ResolveBelow(Split(from, '/'), name, packages, |Split(from, '/')|)
  }

  /** The key is that of the longest ancestor prefix that has one. */
  ghost predicate IsLongestMatch(parts: seq<string>, name: string, packages: Packages, bound: nat, key: Option<string>)
    requires bound <= |parts|
  {
    if key.None? then forall i :: 0 <= i <= bound ==> Candidate(parts, name, i) !in packages
    else exists i :: 0 <= i <= bound && key.value == Candidate(parts, name, i) && key.value in packages
           && forall j :: i < j <= bound ==> Candidate(parts, name, j) !in packages
  }

  lemma {:induction false} ResolvePicksLongest(parts: seq<string>, name: string, packages: Packages, bound: nat)
    requires bound <= |parts|
    ensures IsLongestMatch(parts, name, packages, bound, ResolveBelow(parts, name, packages, bound))
  {
    if Candidate(parts, name, bound) !in packages && bound > 0 {
      ResolvePicksLongest(parts, name, packages, bound - 1);
    }
  }

  lemma SplitOfTwo(a: string, b: string)
    requires '/' !in a && '/' !in b
    ensures Split(a + ['/'] + b, '/') == [a, b]
  {
    SplitAfterJoin([a, b], '/');
    assert [a, b][1..] == [b];
  }

  /** The special case for the backend entry takes the same parts as the general one. */
  lemma BackendParts()
    ensures Split(BACKEND_LOCK_KEY, '/') == ["packages", "backend"]
  {
    SplitOfTwo("packages", "backend");
    assert "packages" + ['/'] + "backend" == "packages/backend";
  }

  /** The loop over the ancestors, deepest first. */
  method SearchAncestors(parts: seq<string>, name: string, packages: Packages) returns (key: Option<string>)
    ensures key == ResolveBelow(parts, name, packages, |parts|)
  {
    for index := |parts| + 1 downto 0
      invariant index > 0 ==>
        ResolveBelow(parts, name, packages, |parts|) == ResolveBelow(parts, name, packages, index - 1)
      invariant index == 0 ==> ResolveBelow(parts, name, packages, |parts|) == None
    {
      var candidateKey := Candidate(parts, name, index);
      if candidateKey in packages {
        return Some(candidateKey);
      }
    }
    return None;
  }

  method ResolveDependencyLockKey(from: string, name: string, packages: Packages) returns (key: Option<string>)
    ensures forall k :: key == Some(k) <==> ResolvesTo(from, name, packages, k)
  {
    BackendParts();
    var searchParts := if from == BACKEND_LOCK_KEY then ["packages", "backend"] else Split(from, '/');
    key := SearchAncestors(searchParts, name, packages);
    ResolvesToNearest(from, name, packages);
  }

  // ---------- The same by the text of the keys ----------

  /** Nothing, or the path of an ancestor, itself included, with a slash behind it. */
  ghost predicate IsAncestor(from: string, prefix: string) {
    prefix == "" || exists n: nat :: n <= |from| && (n == |from| || from[n] == '/') && prefix == from[..n] + "/"
  }

  /** The key of the dependency below the nearest ancestor that has an entry for it. */
  ghost predicate ResolvesTo(from: string, name: string, packages: Packages, key: string) {
    && key in packages
    && exists prefix :: IsAncestor(from, prefix) && key == prefix + ("node_modules/" + name)
         && forall longer :: IsAncestor(from, longer) && |longer| > |prefix| ==>
              longer + ("node_modules/" + name) !in packages
  }

  /** The text before the name, for the first parts of a path. */
  function Prefix(parts: seq<string>, index: nat): string
    requires index <= |parts|
  {
    if index == 0 then "" else Join(parts[..index], '/') + "/"
  }

  lemma CandidateText(parts: seq<string>, name: string, index: nat)
    requires index <= |parts|
    ensures Candidate(parts, name, index) == Prefix(parts, index) + ("node_modules/" + name)
  {
    TextBelow(parts, "node_modules", name, index);
    assert "node_modules" + "/" == "node_modules/";
  }

  lemma TextBelow(parts: seq<string>, folder: string, name: string, index: nat)
    requires index <= |parts|
    ensures Join(parts[..index] + [folder] + Split(name, '/'), '/') == Prefix(parts, index) + (folder + "/" + name)
  {
    var below := [folder] + Split(name, '/');
    JoinAfterSplit(name, '/');
    JoinConcat([folder], Split(name, '/'), '/');
    assert parts[..index] + [folder] + Split(name, '/') == parts[..index] + below;
    JoinBelow(parts[..index], below);
  }

  lemma JoinBelow(a: seq<string>, b: seq<string>)
    requires b != []
    ensures Join(a + b, '/') == (if a == [] then "" else Join(a, '/') + "/") + Join(b, '/')
  {
    if a == [] { assert a + b == b; } else { JoinConcat(a, b, '/'); }
  }

  lemma {:induction false} PrefixGrows(parts: seq<string>, i: nat, j: nat)
    requires i < j <= |parts|
    ensures |Prefix(parts, i)| < |Prefix(parts, j)|
    decreases j
  {
    if i > 0 {
      JoinConcat(parts[..i], parts[i..j], '/');
      assert parts[..j] == parts[..i] + parts[i..j];
    }
  }

  lemma SplitConcat(a: string, b: string)
    ensures Split(a + "/" + b, '/') == Split(a, '/') + Split(b, '/')
  {
    JoinConcat(Split(a, '/'), Split(b, '/'), '/');
    JoinAfterSplit(a, '/');
    JoinAfterSplit(b, '/');
    SplitAfterJoin(Split(a, '/') + Split(b, '/'), '/');
  }

  lemma AncestorHasParts(from: string, prefix: string) returns (i: nat)
    requires IsAncestor(from, prefix)
    ensures i <= |Split(from, '/')| && prefix == Prefix(Split(from, '/'), i)
  {
    var parts := Split(from, '/');
    if prefix == "" {
      i := 0;
    } else {
      var n: nat :| n <= |from| && (n == |from| || from[n] == '/') && prefix == from[..n] + "/";
      i := |Split(from[..n], '/')|;
      JoinAfterSplit(from[..n], '/');
      if n == |from| {
        assert from[..n] == from && parts[..i] == parts;
      } else {
        assert from == from[..n] + "/" + from[n + 1..];
        SplitConcat(from[..n], from[n + 1..]);
        assert parts[..i] == Split(from[..n], '/');
      }
    }
  }

  lemma PartsAreAncestor(from: string, i: nat)
    requires i <= |Split(from, '/')|
    ensures IsAncestor(from, Prefix(Split(from, '/'), i))
  {
    var parts := Split(from, '/');
    JoinAfterSplit(from, '/');
    if i == |parts| {
      assert parts[..i] == parts && from[..|from|] == from;
    } else if i > 0 {
      var text := Join(parts[..i], '/');
      JoinConcat(parts[..i], parts[i..], '/');
      assert parts == parts[..i] + parts[i..];
      assert from[..|text|] == text && from[|text|] == '/';
    }
  }

  /** The search of the ancestors finds exactly the key below the nearest one that has an entry. */
  lemma ResolvesToNearest(from: string, name: string, packages: Packages)
    ensures forall key :: Resolve(from, name, packages) == Some(key) <==> ResolvesTo(from, name, packages, key)
  {
    var parts, found := Split(from, '/'), Resolve(from, name, packages);
    ResolvePicksLongest(parts, name, packages, |parts|);
    if found.Some? {
      FoundIsNearest(from, name, packages);
    }
    forall key | ResolvesTo(from, name, packages, key) ensures found == Some(key) {
      var prefix :| IsAncestor(from, prefix) && key == prefix + ("node_modules/" + name)
        && forall longer :: IsAncestor(from, longer) && |longer| > |prefix| ==>
             longer + ("node_modules/" + name) !in packages;
      var i := AncestorHasParts(from, prefix);
      CandidateText(parts, name, i);
      NothingLonger(from, name, packages, i);
    }
  }

  lemma FoundIsNearest(from: string, name: string, packages: Packages)
    requires Resolve(from, name, packages).Some?
    ensures ResolvesTo(from, name, packages, Resolve(from, name, packages).value)
  {
    var parts, key := Split(from, '/'), Resolve(from, name, packages).value;
    ResolvePicksLongest(parts, name, packages, |parts|);
    var i :| 0 <= i <= |parts| && key == Candidate(parts, name, i) && key in packages
      && forall j :: i < j <= |parts| ==> Candidate(parts, name, j) !in packages;
    var prefix := Prefix(parts, i);
    PartsAreAncestor(from, i);
    CandidateText(parts, name, i);
    forall longer | IsAncestor(from, longer) && |longer| > |prefix|
      ensures longer + ("node_modules/" + name) !in packages
    {
      var j := AncestorHasParts(from, longer);
      if j < i { PrefixGrows(parts, j, i); }
      CandidateText(parts, name, j);
    }
  }

  /** The converse: with no entry below a longer ancestor, the search ends at this one. */
  lemma NothingLonger(from: string, name: string, packages: Packages, i: nat)
    requires i <= |Split(from, '/')| && Candidate(Split(from, '/'), name, i) in packages
    requires forall longer :: IsAncestor(from, longer) && |longer| > |Prefix(Split(from, '/'), i)| ==>
      longer + ("node_modules/" + name) !in packages
    ensures Resolve(from, name, packages) == Some(Candidate(Split(from, '/'), name, i))
  {
    var parts := Split(from, '/');
    forall j | i < j <= |parts| ensures Candidate(parts, name, j) !in packages {
      PartsAreAncestor(from, j);
      PrefixGrows(parts, i, j);
      CandidateText(parts, name, j);
    }
    SearchEndsAt(parts, name, packages, i, |parts|);
  }

  lemma {:induction false} SearchEndsAt(parts: seq<string>, name: string, packages: Packages, i: nat, bound: nat)
    requires i <= bound <= |parts| && Candidate(parts, name, i) in packages
    requires forall j :: i < j <= bound ==> Candidate(parts, name, j) !in packages
    ensures ResolveBelow(parts, name, packages, bound) == Some(Candidate(parts, name, i))
    decreases bound
  {
    if i < bound { SearchEndsAt(parts, name, packages, i, bound - 1); }
  }

  // ---------- Reachability ----------

  predicate Lists(entry: Entry, name: string) {
    name in entry.dependencies || name in entry.optionalDependencies
  }

  /** The names of one entry, each once. */
  function RuntimeDependencyNames(entry: Entry): (names: set<string>)
    ensures forall name :: name in names <==> Lists(entry, name)
  {
    (set name | name in entry.dependencies) + (set name | name in entry.optionalDependencies)
  }

  /** One lock entry depends on another, by a required or an optional dependency. */
  ghost predicate DependsOn(packages: Packages, from: string, key: string) {
    && from in packages
    && exists name :: Lists(packages[from], name) && ResolvesTo(from, name, packages, key)
  }

  /** A chain of dependencies from the backend entry. */
  ghost predicate Chain(packages: Packages, path: seq<string>) {
    && path != []
    && DependsOn(packages, "packages/backend", path[0])
    && forall i :: 0 <= i < |path| - 1 ==> DependsOn(packages, path[i], path[i + 1])
  }

  ghost predicate Reachable(packages: Packages, key: string) {
    exists path :: Chain(packages, path) && path[|path| - 1] == key
  }

  // ---------- The worklist ----------

  /** Every entry the key depends on has been visited or is waiting in the queue. */
  ghost predicate Covered(packages: Packages, from: string, visited: set<string>, queue: seq<Option<string>>) {
    forall key :: DependsOn(packages, from, key) ==> key in visited || Some(key) in queue
  }

  /** The resolved dependencies of one entry, in some order; unresolved ones are None. */
  method ResolveAll(from: string, packages: Packages) returns (keys: seq<Option<string>>)
    requires from in packages
    ensures forall key :: Some(key) in keys <==> DependsOn(packages, from, key)
  {
    keys := [];
    var names := RuntimeDependencyNames(packages[from]);
    var left := names;
    while left != {}
      invariant left <= names
      invariant forall key :: Some(key) in keys <==>
        exists name :: name in names - left && ResolvesTo(from, name, packages, key)
      decreases |left|
    {
      var name :| name in left;
      var key := ResolveDependencyLockKey(from, name, packages);
      keys := keys + [key];
      left := left - {name};
    }
  }

  datatype Error = MissingBackendEntry

  lemma ReachableStep(packages: Packages, from: string, key: string)
    requires Reachable(packages, from) && DependsOn(packages, from, key)
    ensures Reachable(packages, key)
  {
    var path :| Chain(packages, path) && path[|path| - 1] == from;
    ChainGrows(packages, path, key);
  }

  lemma ChainGrows(packages: Packages, path: seq<string>, key: string)
    requires Chain(packages, path) && DependsOn(packages, path[|path| - 1], key)
    ensures Chain(packages, path + [key]) && (path + [key])[|path + [key]| - 1] == key
  {
  }

  lemma {:induction false} ClosedContainsChain(packages: Packages, visited: set<string>, path: seq<string>, n: nat)
    requires Chain(packages, path) && n < |path|
    requires Covered(packages, BACKEND_LOCK_KEY, visited, [])
    requires forall from :: from in visited ==> Covered(packages, from, visited, [])
    ensures path[n] in visited
  {
    if n > 0 {
      ClosedContainsChain(packages, visited, path, n - 1);
      assert DependsOn(packages, path[n - 1], path[n - 1 + 1]);
    }
  }

  /** What the worklist loop keeps. */
  ghost predicate Exploring(packages: Packages, visited: set<string>, queue: seq<Option<string>>) {
    && (forall key :: key in visited ==> Reachable(packages, key))
    && (forall key :: Some(key) in queue ==> Reachable(packages, key))
    && Covered(packages, BACKEND_LOCK_KEY, visited, queue)
    && AllCovered(packages, visited, queue)
  }

  ghost predicate AllCovered(packages: Packages, visited: set<string>, queue: seq<Option<string>>) {
    forall from :: from in visited ==> Covered(packages, from, visited, queue)
  }

  lemma StartExploring(packages: Packages, queue: seq<Option<string>>)
    requires forall key :: Some(key) in queue <==> DependsOn(packages, BACKEND_LOCK_KEY, key)
    ensures Exploring(packages, {}, queue)
  {
    forall key | Some(key) in queue ensures Reachable(packages, key) {
      assert Chain(packages, [key]) && [key][0] == key;
    }
  }

  lemma SkippingKeeps(packages: Packages, visited: set<string>, queue: seq<Option<string>>)
    requires Exploring(packages, visited, queue) && queue != []
    requires queue[0].None? || queue[0].value in visited
    ensures Exploring(packages, visited, queue[1..])
  {
  }

  lemma CoverMoves(
      packages: Packages, from: string, visited: set<string>, queue: seq<Option<string>>, next: seq<Option<string>>)
    requires Covered(packages, from, visited, queue) && queue != [] && queue[0].Some?
    ensures Covered(packages, from, visited + {queue[0].value}, queue[1..] + next)
  {
  }

  lemma CoverVisited(
      packages: Packages, from: string, visited: set<string>, rest: seq<Option<string>>, next: seq<Option<string>>)
    requires forall key :: Some(key) in next <==> DependsOn(packages, from, key)
    ensures Covered(packages, from, visited, rest + next)
  {
  }

  lemma QueueIsReachable(packages: Packages, queue: seq<Option<string>>, next: seq<Option<string>>)
    requires queue != [] && queue[0].Some? && forall key :: Some(key) in queue ==> Reachable(packages, key)
    requires forall key :: Some(key) in next <==> DependsOn(packages, queue[0].value, key)
    ensures Reachable(packages, queue[0].value)
    ensures forall key :: Some(key) in queue[1..] + next ==> Reachable(packages, key)
  {
    assert queue[0] in queue;
    forall key | Some(key) in queue[1..] + next ensures Reachable(packages, key) {
      if Some(key) in next {
        ReachableStep(packages, queue[0].value, key);
      } else {
        assert Some(key) in queue[1..];
        assert Some(key) in queue;
      }
    }
  }

  lemma VisitedIsCovered(
      packages: Packages, visited: set<string>, queue: seq<Option<string>>, next: seq<Option<string>>)
    requires AllCovered(packages, visited, queue) && queue != [] && queue[0].Some?
    requires forall key :: Some(key) in next <==> DependsOn(packages, queue[0].value, key)
    ensures AllCovered(packages, visited + {queue[0].value}, queue[1..] + next)
  {
    var rest, later := queue[1..], visited + {queue[0].value};
    forall from | from in later ensures Covered(packages, from, later, rest + next) {
      if from in visited {
        CoverMoves(packages, from, visited, queue, next);
      } else {
        CoverVisited(packages, from, later, rest, next);
      }
    }
  }

  lemma VisitingKeeps(packages: Packages, visited: set<string>, queue: seq<Option<string>>, next: seq<Option<string>>)
    requires Exploring(packages, visited, queue) && queue != [] && queue[0].Some?
    requires forall key :: Some(key) in next <==> DependsOn(packages, queue[0].value, key)
    ensures Exploring(packages, visited + {queue[0].value}, queue[1..] + next)
  {
    QueueIsReachable(packages, queue, next);
    CoverMoves(packages, BACKEND_LOCK_KEY, visited, queue, next);
    VisitedIsCovered(packages, visited, queue, next);
  }

  /** With nothing left to visit, the visited keys are exactly the reachable ones. */
  lemma ExploredIsReachable(packages: Packages, visited: set<string>)
    requires Exploring(packages, visited, [])
    ensures forall key :: key in visited <==> Reachable(packages, key)
  {
    forall key | Reachable(packages, key) ensures key in visited {
      var path :| Chain(packages, path) && path[|path| - 1] == key;
      ClosedContainsChain(packages, visited, path, |path| - 1);
    }
  }

  /**
   Returns, sorted and without duplicates, exactly the keys reachable from the backend entry, on
   cyclic lock files too. The entry of a queued key is always present, so looking it up never throws.
   */
  method CollectRuntimeDependencyLockKeys(packages: Packages) returns (result: Result<seq<string>, Error>)
    ensures result.Err? <==> "packages/backend" !in packages
    ensures result.Ok? ==> Ascending(result.value)
    ensures result.Ok? ==> forall key :: key in result.value <==> Reachable(packages, key)
  {
    if BACKEND_LOCK_KEY !in packages {
      return Err(MissingBackendEntry);
    }
    var visited: set<string> := {};
    var queue := ResolveAll(BACKEND_LOCK_KEY, packages);
    StartExploring(packages, queue);
    while queue != []
      invariant visited <= packages.Keys && Exploring(packages, visited, queue)
      decreases |packages.Keys - visited|, |queue|
    {
      var lockKey := queue[0];
      if lockKey.None? || lockKey.value in visited {
        SkippingKeeps(packages, visited, queue);
        queue := queue[1..];
      } else {
        assert lockKey in queue;
        ReachableIsPresent(packages, lockKey.value);
        if lockKey.value !in packages {
          assert false;
        }
        var next := ResolveAll(lockKey.value, packages);
        VisitingKeeps(packages, visited, queue, next);
        SmallerSet(packages.Keys - (visited + {lockKey.value}), packages.Keys - visited);
        visited := visited + {lockKey.value};
        queue := queue[1..] + next;
      }
    }
    ExploredIsReachable(packages, visited);
    var sorted := SortSet(visited);
    return Ok(sorted);
  }

  lemma ReachableIsPresent(packages: Packages, key: string)
    requires Reachable(packages, key)
    ensures key in packages
  {
    var path :| Chain(packages, path) && path[|path| - 1] == key;
    var from := if |path| == 1 then BACKEND_LOCK_KEY else path[|path| - 2];
    assert DependsOn(packages, from, path[|path| - 1]);
  }
}
