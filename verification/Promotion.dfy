/**
 Promoting a validated release set: the tags of a registry, changed through an adapter of which any
 call may fail. A failing tag creation may or may not have taken effect. Nobody else writes.
 */
module Promotion {
  import opened Wrappers
  import opened ReleaseManifest
  import opened Text

  datatype Descriptor = Descriptor(digest: string, platforms: set<string>)

  type Tags = map<string, Descriptor>

  const REQUIRED_PLATFORMS := {"linux/amd64", "linux/arm64"}

  function Get(tags: Tags, reference: string): Option<Descriptor> {
    if reference in tags then Some(tags[reference]) else None
  }

  /** The reference resolves to this digest for every required platform. */
  predicate Sound(d: Option<Descriptor>, digest: string) {
    d.Some? && d.value.digest == digest && {"linux/amd64", "linux/arm64"} <= d.value.platforms
  }

  // ---------- What a promotion amounts to ----------

  /** Every candidate is sound, and so is every version tag that already exists. */
  predicate Promotable(tags: Tags, images: seq<Image>) {
    forall i :: 0 <= i < |images| ==>
      && Sound(Get(tags, images[i].candidateReference), images[i].digest)
      && (images[i].versionReference in tags ==> Sound(Get(tags, images[i].versionReference), images[i].digest))
  }

  /** What a version tag is once promoted: what it already was, or else the candidate. */
  function Promoted(tags: Tags, image: Image): Option<Descriptor> {
    if image.versionReference in tags then Get(tags, image.versionReference) else Get(tags, image.candidateReference)
  }

  /** The first `done` version tags are promoted; later ones may be, and `latest` only once all are. */
  ghost predicate Between(before: Tags, images: seq<Image>, main: nat, latest: string, done: nat, h: Tags)
    requires main < |images|
  {
    && (forall i :: 0 <= i < |images| ==>
          var v := images[i].versionReference;
          Get(h, v) == Promoted(before, images[i]) || (i >= done && v !in h && v !in before))
    && (Get(h, latest) == Get(before, latest)
        || (AllPromoted(before, images, h) && Get(h, latest) == Promoted(before, images[main])))
    && (forall r :: r != latest && !IsVersionOf(images, r) ==> Get(h, r) == Get(before, r))
  }

  ghost predicate AllPromoted(before: Tags, images: seq<Image>, h: Tags) {
    forall i :: 0 <= i < |images| ==> Get(h, images[i].versionReference) == Promoted(before, images[i])
  }

  ghost predicate IsVersionOf(images: seq<Image>, reference: string) {
    exists i :: 0 <= i < |images| && images[i].versionReference == reference
  }

  /** The registry of a promotion that ran to its end. */
  ghost predicate Complete(before: Tags, images: seq<Image>, main: nat, latest: string, h: Tags)
    requires main < |images|
  {
    && AllPromoted(before, images, h)
    && Get(h, latest) == Promoted(before, images[main])
    && (forall r :: r != latest && !IsVersionOf(images, r) ==> Get(h, r) == Get(before, r))
  }

  // ---------- Main results about every state on the way ----------

  /** No existing tag other than `latest` ever changes. */
  lemma ExistingTagsStay(before: Tags, images: seq<Image>, main: nat, latest: string, done: nat, h: Tags, r: string)
    requires main < |images| && Between(before, images, main, latest, done, h)
    requires r in before && r != latest
    ensures Get(h, r) == Get(before, r)
  {
  }

  /** A new tag other than `latest` is a version tag that holds its manifest digest. */
  lemma NewTagsHoldManifestDigests(
      before: Tags, images: seq<Image>, main: nat, latest: string, done: nat, h: Tags, r: string)
    requires main < |images| && Between(before, images, main, latest, done, h) && Promotable(before, images)
    requires r in h && r !in before && r != latest
    ensures exists i :: 0 <= i < |images| && images[i].versionReference == r && Sound(Get(h, r), images[i].digest)
  {
    assert IsVersionOf(images, r) || Get(h, r) == Get(before, r);
    var i :| 0 <= i < |images| && images[i].versionReference == r;
    assert Sound(Get(h, r), images[i].digest);
  }

  /** `latest` has moved only when every version tag holds its manifest digest. */
  lemma LatestMovesLast(before: Tags, images: seq<Image>, main: nat, latest: string, done: nat, h: Tags)
    requires main < |images| && Between(before, images, main, latest, done, h) && Promotable(before, images)
    requires Get(h, latest) != Get(before, latest)
    ensures forall i :: 0 <= i < |images| ==> Sound(Get(h, images[i].versionReference), images[i].digest)
    ensures Get(h, latest) == Get(h, images[main].versionReference)
  {
  }

  /** From any state on the way, a rerun is possible and ends in the registry of an uninterrupted run. */
  lemma RerunEndsTheSame(
      before: Tags, images: seq<Image>, main: nat, latest: string, done: nat, h: Tags, final: Tags)
    requires main < |images| && DistinctReferences(images, latest)
    requires Promotable(before, images) && Between(before, images, main, latest, done, h)
    ensures Promotable(h, images)
    ensures Complete(h, images, main, latest, final) <==> Complete(before, images, main, latest, final)
  {
  }

  lemma CompleteIsUnique(before: Tags, images: seq<Image>, main: nat, latest: string, a: Tags, b: Tags)
    requires main < |images| && Complete(before, images, main, latest, a) && Complete(before, images, main, latest, b)
    ensures a == b
  {
    forall r ensures Get(a, r) == Get(b, r) {
      if IsVersionOf(images, r) {
        var i :| 0 <= i < |images| && images[i].versionReference == r;
      }
    }
    assert forall r :: r in a <==> Get(a, r).Some?;
    assert forall r :: r in b <==> Get(b, r).Some?;
    assert forall r :: r in a ==> a[r] == Get(a, r).value;
    assert forall r :: r in b ==> b[r] == Get(b, r).value;
  }

  /**
   Attempt after attempt, each going on from where the one before it was stopped, and then one that runs
   to its end: the registry is that of an uninterrupted first attempt.
   */
  lemma {:induction false} AbortsDoNotMatter(
      images: seq<Image>, main: nat, latest: string, states: seq<Tags>, final: Tags)
    requires main < |images| && DistinctReferences(images, latest)
    requires states != [] && Promotable(states[0], images)
    requires forall k :: 0 < k < |states| ==> Between(states[k - 1], images, main, latest, 0, states[k])
    requires Complete(states[|states| - 1], images, main, latest, final)
    ensures Complete(states[0], images, main, latest, final)
    decreases |states|
  {
    if |states| > 1 {
      RerunEndsTheSame(states[0], images, main, latest, 0, states[1], final);
      var later := states[1..];
      assert forall k :: 0 < k < |later| ==> later[k - 1] == states[k] && later[k] == states[k + 1];
      AbortsDoNotMatter(images, main, latest, later, final);
    }
  }

  // ---------- The registry and the adapter ----------

  /** What goes wrong with one adapter call, and whether a failing tag creation took effect. */
  datatype Fault = Fault(fails: bool, applied: bool)

  datatype DescriptorFault = Unavailable | DigestChanged | MissingPlatform

  datatype Failure =
    | WrongNamespace
    | NotACandidate
    | InvalidManifest(error: ReleaseManifest.Error)
    | AdapterFailed
    | InvalidDescriptor(fault: DescriptorFault)
    | ImmutableTag(reference: string)

  function ValidateDescriptor(d: Option<Descriptor>, digest: string): (fault: Option<DescriptorFault>)
    ensures fault.None? <==> Sound(d, digest)
  {
    if d.None? then Some(Unavailable)
    else if d.value.digest != digest then Some(DigestChanged)
    else if !(REQUIRED_PLATFORMS <= d.value.platforms) then Some(MissingPlatform)
    else None
  }

  /** Every state of the history from a position on lies between the start and the end of the promotion. */
  ghost predicate Historic(
      before: Tags, images: seq<Image>, main: nat, latest: string, history: seq<Tags>, from: nat)
    requires main < |images|
  {
    forall k :: from <= k < |history| ==> Between(before, images, main, latest, 0, history[k])
  }

  /** The history has grown, by states of the promotion only. */
  ghost predicate Grew(
      before: Tags, images: seq<Image>, main: nat, latest: string, first: seq<Tags>, second: seq<Tags>)
    requires main < |images|
  {
    && |first| <= |second| && second[..|first|] == first
    && Historic(before, images, main, latest, second, |first|)
  }

  lemma GrewJoins(
      before: Tags, images: seq<Image>, main: nat, latest: string,
      first: seq<Tags>, second: seq<Tags>, third: seq<Tags>)
    requires main < |images|
    requires Grew(before, images, main, latest, first, second) && Grew(before, images, main, latest, second, third)
    ensures Grew(before, images, main, latest, first, third)
  {
  }

  lemma TagCreated(before: Tags, images: seq<Image>, main: nat, latest: string, done: nat, h: Tags)
    requires main < |images| && done < |images| && DistinctReferences(images, latest) && Promotable(before, images)
    requires Between(before, images, main, latest, done, h) && Get(h, latest) == Get(before, latest)
    requires images[done].versionReference !in before
    ensures images[done].candidateReference in h
    ensures var after := h[images[done].versionReference := h[images[done].candidateReference]];
            Between(before, images, main, latest, done + 1, after) && Get(after, latest) == Get(before, latest)
  {
    assert !IsVersionOf(images, images[done].candidateReference);
    assert Get(h, images[done].candidateReference) == Get(before, images[done].candidateReference);
    var after := h[images[done].versionReference := h[images[done].candidateReference]];
    forall r | r != latest && !IsVersionOf(images, r) ensures Get(after, r) == Get(before, r) {
      assert Get(h, r) == Get(before, r);
    }
  }

  lemma AlreadyThere(before: Tags, images: seq<Image>, main: nat, latest: string, done: nat, h: Tags)
    requires main < |images| && done < |images| && Between(before, images, main, latest, done, h)
    requires images[done].versionReference in before
    ensures Between(before, images, main, latest, done + 1, h)
  {
  }

  lemma LatestCreated(before: Tags, images: seq<Image>, main: nat, latest: string, h: Tags)
    requires main < |images| && DistinctReferences(images, latest) && Promotable(before, images)
    requires Between(before, images, main, latest, |images|, h)
    ensures images[main].versionReference in h
    ensures Complete(before, images, main, latest, h[latest := h[images[main].versionReference]])
  {
  }

  /** How many version tags do not exist yet. */
  function Missing(existing: seq<Option<Descriptor>>): nat {
    if existing == [] then 0
    else Missing(existing[..|existing| - 1]) + if existing[|existing| - 1].None? then 1 else 0
  }

  /** The calls of a whole promotion: three inspections of each image, the missing tags, `latest` and its check. */
  function Calls(tags: Tags, images: seq<Image>): nat {
    3 * |images| + Missing(VersionTags(tags, images)) + 2
  }

  function VersionTags(tags: Tags, images: seq<Image>): seq<Option<Descriptor>> {
    seq(|images|, i requires 0 <= i < |images| => Get(tags, images[i].versionReference))
  }

  class Registry {
    var tags: Tags
    var history: seq<Tags>
    var calls: nat
    const faults: nat -> Fault

    constructor (tags: Tags, faults: nat -> Fault)
      ensures this.tags == tags && history == [tags] && calls == 0 && this.faults == faults
    {
      this.tags, this.history, this.calls, this.faults := tags, [tags], 0, faults;
    }

    /** The calls from one position up to another do not fail. */
    ghost predicate NoFault(from: nat, to: nat)
    {
      forall n :: from <= n < to ==> !faults(n).fails
    }

    /** It succeeds exactly if what it promotes can be promoted and none of its calls fails. */
    ghost predicate Answered(from: nat, possible: bool, failure: Option<Failure>)
      reads this
    {
      from <= calls && (failure.None? <==> possible && NoFault(from, calls))
    }

    /** None when the call throws; otherwise the descriptor, if the reference exists. */
    method Inspect(reference: string) returns (answer: Option<Option<Descriptor>>)
      modifies this`calls
      ensures answer == if faults(old(calls)).fails then None else Some(Get(tags, reference))
      ensures calls == old(calls) + 1
    {
      var fault := faults(calls);
      calls := calls + 1;
      answer := if fault.fails then None else Some(Get(tags, reference));
    }

    method CreateTag(source: string, target: string) returns (ok: bool)
      modifies this
      ensures history == old(history) + [tags]
      ensures ok <==> source in old(tags) && !faults(old(calls)).fails
      ensures tags == old(tags) || (source in old(tags) && tags == old(tags)[target := old(tags)[source]])
      ensures ok ==> tags == old(tags)[target := old(tags)[source]]
      ensures calls == old(calls) + 1
    {
      var fault := faults(calls);
      calls := calls + 1;
      ok := source in tags && !fault.fails;
      if source in tags && (ok || fault.applied) {
        tags := tags[target := tags[source]];
      }
      history := history + [tags];
    }

    /** Inspects every candidate and every version tag before anything is written. */
    method Preflight(images: seq<Image>) returns (existing: seq<Option<Descriptor>>, failure: Option<Failure>)
      modifies this`calls
      ensures failure.None? ==> Promotable(tags, images) && |existing| == |images|
      ensures failure.None? ==> forall i :: 0 <= i < |images| ==> existing[i] == Get(tags, images[i].versionReference)
      ensures failure.None? ==> calls == old(calls) + 2 * |images|
      ensures Answered(old(calls), Promotable(tags, images), failure)
    {
      existing := [];
      for i := 0 to |images|
        invariant forall k :: 0 <= k < i ==> Sound(Get(tags, images[k].candidateReference), images[k].digest)
        invariant calls == old(calls) + i && NoFault(old(calls), calls)
      {
        var answer := Inspect(images[i].candidateReference);
        if answer.None? { return existing, Some(AdapterFailed); }
        var fault := ValidateDescriptor(answer.value, images[i].digest);
        if fault.Some? { return existing, Some(InvalidDescriptor(fault.value)); }
      }
      for i := 0 to |images|
        invariant |existing| == i
        invariant calls == old(calls) + |images| + i && NoFault(old(calls), calls)
        invariant forall k :: 0 <= k < i ==> existing[k] == Get(tags, images[k].versionReference)
      {
        var answer := Inspect(images[i].versionReference);
        if answer.None? { return existing, Some(AdapterFailed); }
        existing := existing + [answer.value];
      }
      for i := 0 to |images|
        invariant forall k :: 0 <= k < i && existing[k].Some? ==> Sound(existing[k], images[k].digest)
      {
        if existing[i].Some? && existing[i].value.digest != images[i].digest {
          return existing, Some(ImmutableTag(images[i].versionReference));
        }
        if existing[i].Some? {
          var fault := ValidateDescriptor(existing[i], images[i].digest);
          if fault.Some? { return existing, Some(InvalidDescriptor(fault.value)); }
        }
      }
      failure := None;
    }

    /** Creates one missing version tag and checks it. */
    method PromoteVersion(
        ghost before: Tags, images: seq<Image>, ghost main: nat, ghost latest: string, i: nat,
        existing: Option<Descriptor>)
      returns (failure: Option<Failure>)
      requires main < |images| && i < |images| && DistinctReferences(images, latest) && Promotable(before, images)
      requires existing == Get(before, images[i].versionReference)
      requires Between(before, images, main, latest, i, tags) && Get(tags, latest) == Get(before, latest)
      modifies this
      ensures Grew(before, images, main, latest, old(history), history)
      ensures Between(before, images, main, latest, i, tags) && Get(tags, latest) == Get(before, latest)
      ensures failure.None? ==> Between(before, images, main, latest, i + 1, tags)
      ensures failure.None? ==> calls == old(calls) + if existing.None? then 2 else 1
      ensures Answered(old(calls), true, failure)
    {
      var image := images[i];
      if existing.None? {
        TagCreated(before, images, main, latest, i, tags);
        var ok := CreateTag(image.candidateReference, image.versionReference);
        if !ok { return Some(AdapterFailed); }
      } else {
        AlreadyThere(before, images, main, latest, i, tags);
      }
      var answer := Inspect(image.versionReference);
      if answer.None? { return Some(AdapterFailed); }
      var fault := ValidateDescriptor(answer.value, image.digest);
      failure := if fault.Some? then Some(InvalidDescriptor(fault.value)) else None;
    }

    /** The version tags in the order of the images, up to the first one that fails. */
    method PromoteVersions(
        ghost before: Tags, images: seq<Image>, ghost main: nat, ghost latest: string,
        existing: seq<Option<Descriptor>>)
      returns (failure: Option<Failure>)
      requires main < |images| && DistinctReferences(images, latest) && Promotable(before, images)
      requires |existing| == |images|
      requires forall i :: 0 <= i < |images| ==> existing[i] == Get(before, images[i].versionReference)
      requires tags == before
      modifies this
      ensures Grew(before, images, main, latest, old(history), history)
      ensures Between(before, images, main, latest, 0, tags)
      ensures failure.None? ==> Between(before, images, main, latest, |images|, tags)
      ensures failure.None? ==> calls == old(calls) + |images| + Missing(existing)
      ensures Answered(old(calls), true, failure)
    {
      for i := 0 to |images|
        invariant Grew(before, images, main, latest, old(history), history)
        invariant Between(before, images, main, latest, i, tags) && Get(tags, latest) == Get(before, latest)
        invariant calls == old(calls) + i + Missing(existing[..i]) && NoFault(old(calls), calls)
      {
        assert existing[..i + 1][..i] == existing[..i];
        ghost var earlier := history;
        failure := PromoteVersion(before, images, main, latest, i, existing[i]);
        GrewJoins(before, images, main, latest, old(history), earlier, history);
        if failure.Some? { return; }
      }
      assert existing[..|existing|] == existing;
      failure := None;
    }

    /** Moves `latest` to the version tag of the main image and checks it. */
    method PromoteLatest(ghost before: Tags, images: seq<Image>, main: nat, latest: string)
      returns (failure: Option<Failure>)
      requires main < |images| && DistinctReferences(images, latest) && Promotable(before, images)
      requires Between(before, images, main, latest, |images|, tags)
      modifies this
      ensures Grew(before, images, main, latest, old(history), history)
      ensures Between(before, images, main, latest, 0, tags)
      ensures failure.None? ==> Complete(before, images, main, latest, tags) && calls == old(calls) + 2
      ensures Answered(old(calls), true, failure)
    {
      LatestCreated(before, images, main, latest, tags);
      var ok := CreateTag(images[main].versionReference, latest);
      if !ok { return Some(AdapterFailed); }
      var answer := Inspect(latest);
      if answer.None? { return Some(AdapterFailed); }
      var fault := ValidateDescriptor(answer.value, images[main].digest);
      failure := if fault.Some? then Some(InvalidDescriptor(fault.value)) else None;
    }

    /** Promotes a validated list of images; nothing is written unless all of it can be promoted. */
    method PromoteImages(images: seq<Image>, mainName: string, ghost main: nat, latest: string)
      returns (failure: Option<Failure>)
      requires main < |images| && DistinctReferences(images, latest) && IsNamed(images, mainName, main)
      modifies this
      ensures Grew(old(tags), images, main, latest, old(history), history)
      ensures Between(old(tags), images, main, latest, 0, tags)
      ensures failure.None? ==> Promotable(old(tags), images) && Complete(old(tags), images, main, latest, tags)
      ensures !Promotable(old(tags), images) ==> tags == old(tags) && history == old(history)
      ensures failure.None? ==> calls == old(calls) + Calls(old(tags), images)
      ensures Answered(old(calls), Promotable(old(tags), images), failure)
    {
      var existing;
      existing, failure := Preflight(images);
      if failure.Some? { return; }
      assert existing == VersionTags(tags, images);
      failure := PromoteVersions(tags, images, main, latest, existing);
      if failure.Some? { return; }
      assert images[main].name == mainName;
      var found := FindImage(images, mainName);
      ghost var earlier := history;
      failure := PromoteLatest(old(tags), images, found.value, latest);
      GrewJoins(old(tags), images, main, latest, old(history), earlier, history);
    }

    /**
     Promotes a candidate manifest. `definitions` are the images every release has, the one at `main`
     being the image that `latest` stands for.
     */
    method PromoteManifest(m: Manifest, definitions: seq<Definition>, main: nat)
      returns (result: Result<Manifest, Failure>)
      requires WellDefined(definitions) && IsBare(m.namespace) && IsVersion(m.version) && main < |definitions|
      modifies this
      ensures !CompleteSet(m, definitions) ==> result.Err? && tags == old(tags) && history == old(history)
      ensures CompleteSet(m, definitions) ==> HasNames(m, definitions)
      ensures CompleteSet(m, definitions) ==> Settles(old(tags), old(history), m, definitions, main, result.Ok?)
      ensures result.Ok? ==> result.value == m.(status := COMPLETE, imageList := Ordered(m, definitions))
      ensures result.Ok? ==> calls == old(calls) + Calls(old(tags), Ordered(m, definitions))
      ensures result.Ok? <==>
        CompleteSet(m, definitions) && Promotable(old(tags), Ordered(m, definitions)) && NoFault(old(calls), calls)
    {
      var validation := ValidateReleaseManifestImageList(m, definitions);
      if validation.Err? { return Err(InvalidManifest(validation.error)); }
      var images := validation.value;
      ReleaseReferencesDiffer(m, definitions, main);
      var latest := LatestReference(m, definitions, main);
      var failure := PromoteImages(images, definitions[main].name, main, latest);
      result := if failure.Some? then Err(failure.value) else Ok(m.(status := COMPLETE, imageList := images));
    }

    /** What a promotion of a manifest with a complete set of images has done, succeeding or not. */
    ghost predicate Settles(
        before: Tags, earlier: seq<Tags>, m: Manifest, definitions: seq<Definition>, main: nat, ok: bool)
      requires main < |definitions| && HasNames(m, definitions)
      reads this
    {
      var images, latest := Ordered(m, definitions), LatestReference(m, definitions, main);
      && Grew(before, images, main, latest, earlier, history)
      && Between(before, images, main, latest, 0, tags)
      && (ok ==> Promotable(before, images) && Complete(before, images, main, latest, tags))
      && (!Promotable(before, images) ==> tags == before && history == earlier)
    }

    /** Promotes a release manifest with the official images. */
    method PromoteDockerReleaseSet(m: Manifest) returns (result: Result<Manifest, Failure>)
      modifies this
      ensures !IsCandidate(m) || !CompleteSet(m, DEFINITIONS) ==>
        result.Err? && tags == old(tags) && history == old(history)
      ensures !IsCandidate(m) ==>
        result == Err(if m.namespace == OFFICIAL_NAMESPACE then NotACandidate else WrongNamespace)
      ensures CompleteSet(m, DEFINITIONS) ==> HasNames(m, DEFINITIONS)
      ensures IsCandidate(m) && CompleteSet(m, DEFINITIONS) ==>
        Settles(old(tags), old(history), m, DEFINITIONS, MAIN, result.Ok?)
      ensures result.Ok? ==> result.value == m.(status := "complete", imageList := Ordered(m, DEFINITIONS))
      ensures result.Ok? ==> IsReleased(m, tags)
      ensures result.Ok? ==> calls == old(calls) + Calls(old(tags), Ordered(m, DEFINITIONS))
      ensures result.Ok? <==>
        && IsCandidate(m) && CompleteSet(m, DEFINITIONS) && Promotable(old(tags), Ordered(m, DEFINITIONS))
        && NoFault(old(calls), calls)
    {
      OfficialDefinitionsAreWellDefined();
      if CompleteSet(m, DEFINITIONS) { OrderedMatch(m, DEFINITIONS); }
      if !IsCandidate(m) {
        return Err(if m.namespace == OFFICIAL_NAMESPACE then NotACandidate else WrongNamespace);
      }
      result := PromoteManifest(m, DEFINITIONS, MAIN);
      if result.Ok? { PromotedIsReleased(m, old(tags), tags); }
    }
  }

  const COMPLETE := "complete"

  /** The position of the all-in-one image among the definitions. */
  const MAIN: nat := 3

  predicate IsCandidate(m: Manifest) {
    && m.schemaVersion == SCHEMA_VERSION && m.status == CANDIDATE && m.namespace == OFFICIAL_NAMESPACE
    && IsVersion(m.version) && IsBuildIdentity(m.buildIdentity) && IsRevision(m.sourceRevision)
  }

  /** Format 1, a candidate, in the official namespace, with a version, a build and a revision of the right shape. */
  lemma CandidateIsExact(m: Manifest)
    ensures IsCandidate(m) <==>
      && m.schemaVersion == 1 && m.status == "candidate" && m.namespace == "spfantop"
      && (exists a, b, c :: IsDotted(m.version, a, b, c)) && (exists a, b :: IsDashed(m.buildIdentity, a, b))
      && 7 <= |m.sourceRevision| <= 64 && OnlyOf(m.sourceRevision, HEX + {'A', 'B', 'C', 'D', 'E', 'F'})
  {
    VersionPattern(m.version);
    BuildIdentityPattern(m.buildIdentity);
    RevisionPattern(m.sourceRevision);
  }

  function LatestReference(m: Manifest, definitions: seq<Definition>, main: nat): string
    requires main < |definitions|
  {
    VersionReference(m.namespace, definitions[main].repository, LATEST)
  }

  /** The image at `main` is the only one of that name. */
  predicate IsNamed(images: seq<Image>, name: string, main: nat) {
    forall i :: 0 <= i < |images| ==> (images[i].name == name <==> i == main)
  }

  /** The position of the first image of that name. */
  method FindImage(images: seq<Image>, name: string) returns (found: Option<nat>)
    ensures found.None? ==> forall i :: 0 <= i < |images| ==> images[i].name != name
    ensures found.Some? ==> found.value < |images| && images[found.value].name == name
    ensures found.Some? ==> forall i :: 0 <= i < found.value ==> images[i].name != name
  {
    for i := 0 to |images|
      invariant forall k :: 0 <= k < i ==> images[k].name != name
    {
      if images[i].name == name { return Some(i); }
    }
    found := None;
  }

  /** The references of a complete set are all different, and different from `latest`. */
  lemma ReleaseReferencesDiffer(m: Manifest, definitions: seq<Definition>, main: nat)
    requires WellDefined(definitions) && IsBare(m.namespace) && IsVersion(m.version) && main < |definitions|
    requires CompleteSet(m, definitions)
    ensures HasNames(m, definitions)
    ensures DistinctReferences(Ordered(m, definitions), LatestReference(m, definitions, main))
    ensures IsNamed(Ordered(m, definitions), definitions[main].name, main)
  {
    OrderedMatch(m, definitions);
    LatestIsNoVersion(m.version);
    ReferencesDiffer(m.namespace, m.version, definitions, Ordered(m, definitions), definitions[main].repository);
  }

  // ---------- Aborted promotions, run again ----------

  /** An attempt with its faults, and the position of the state in which it is aborted, if it is. */
  datatype Attempt = Attempt(faults: nat -> Fault, abortedAt: Option<nat>)

  ghost predicate Undisturbed(attempt: Attempt) {
    attempt.abortedAt.None? && forall n :: !attempt.faults(n).fails
  }

  lemma StaysPromotable(m: Manifest, before: Tags, h: Tags)
    requires IsCandidate(m) && CompleteSet(m, DEFINITIONS)
    requires HasNames(m, DEFINITIONS) && Promotable(before, Ordered(m, DEFINITIONS)) && OnTheWay(m, before, h)
    ensures Promotable(h, Ordered(m, DEFINITIONS))
  {
    OfficialDefinitionsAreWellDefined();
    ReleaseReferencesDiffer(m, DEFINITIONS, MAIN);
    RerunEndsTheSame(before, Ordered(m, DEFINITIONS), MAIN, LatestReference(m, DEFINITIONS, MAIN), 0, h, h);
  }

  lemma StartIsOnTheWay(m: Manifest, tags: Tags)
    requires HasNames(m, DEFINITIONS) && Promotable(tags, Ordered(m, DEFINITIONS))
    ensures OnTheWay(m, tags, tags)
  {
  }

  /** What a promotion of this release leaves, for a registry from which it can be promoted. */
  lemma SettledIsOnTheWay(m: Manifest, tags: Tags, registry: Registry, ok: bool)
    requires HasNames(m, DEFINITIONS) && Promotable(tags, Ordered(m, DEFINITIONS))
    requires registry.Settles(tags, [tags], m, DEFINITIONS, MAIN, ok)
    ensures registry.history != [] && forall k :: 0 <= k < |registry.history| ==> OnTheWay(m, tags, registry.history[k])
    ensures OnTheWay(m, tags, registry.tags) && (ok ==> IsPromoted(m, tags, registry.tags))
  {
    StartIsOnTheWay(m, tags);
    assert registry.history[..1] == [tags];
  }

  /** Runs one attempt; the registry is left in the state in which the attempt was aborted or ended. */
  method Try(m: Manifest, tags: Tags, attempt: Attempt) returns (after: Tags)
    requires IsCandidate(m) && CompleteSet(m, DEFINITIONS)
    requires HasNames(m, DEFINITIONS) && Promotable(tags, Ordered(m, DEFINITIONS))
    ensures Leads(m, attempt, tags, after) && Promotable(after, Ordered(m, DEFINITIONS))
  {
    var registry := new Registry(tags, attempt.faults);
    var result := registry.PromoteDockerReleaseSet(m);
    SettledIsOnTheWay(m, tags, registry, result.Ok?);
    var history := registry.history;
    after := if attempt.abortedAt.Some? then history[attempt.abortedAt.value % |history|] else registry.tags;
    StaysPromotable(m, tags, after);
  }

  ghost predicate OnTheWay(m: Manifest, before: Tags, h: Tags)
    requires HasNames(m, DEFINITIONS)
  {
    Between(before, Ordered(m, DEFINITIONS), MAIN, LatestReference(m, DEFINITIONS, MAIN), 0, h)
  }

  ghost predicate IsPromoted(m: Manifest, before: Tags, h: Tags)
    requires HasNames(m, DEFINITIONS)
  {
    Complete(before, Ordered(m, DEFINITIONS), MAIN, LatestReference(m, DEFINITIONS, MAIN), h)
  }

  lemma ReleaseAbortsDoNotMatter(m: Manifest, attempts: seq<Attempt>, states: seq<Tags>, final: Tags)
    requires IsCandidate(m) && CompleteSet(m, DEFINITIONS) && HasNames(m, DEFINITIONS)
    requires AreAttempts(m, attempts, states) && Promotable(states[0], Ordered(m, DEFINITIONS))
    requires IsPromoted(m, states[|states| - 1], final)
    ensures IsPromoted(m, states[0], final)
  {
    OfficialDefinitionsAreWellDefined();
    ReleaseReferencesDiffer(m, DEFINITIONS, MAIN);
    forall k | 0 < k < |states| ensures OnTheWay(m, states[k - 1], states[k]) {
      assert Leads(m, attempts[k - 1], states[k - 1], states[k - 1 + 1]);
    }
    AbortsDoNotMatter(Ordered(m, DEFINITIONS), MAIN, LatestReference(m, DEFINITIONS, MAIN), states, final);
  }

  // ---------- The official release, by its names ----------

  /** The manifest has an image of this name and repository, and its version tag resolves to it for both platforms. */
  ghost predicate IsPublished(m: Manifest, h: Tags, name: string, repository: string) {
    exists image :: image in m.imageList && IsPublishedAs(m, h, name, repository, image)
  }

  ghost predicate IsPublishedAs(m: Manifest, h: Tags, name: string, repository: string, image: Image) {
    && image.name == name && image.repository == repository
    && image.candidateReference == "spfantop/" + repository + "@" + image.digest
    && var tag := "spfantop/" + repository + ":" + m.version;
       tag in h && h[tag].digest == image.digest && {"linux/amd64", "linux/arm64"} <= h[tag].platforms
  }

  /** All four images are published, and `latest` is the version of the all-in-one image. */
  ghost predicate IsReleased(m: Manifest, h: Tags) {
    && IsPublished(m, h, "frontend", "fantetic-terminal-frontend")
    && IsPublished(m, h, "backend", "fantetic-terminal-backend")
    && IsPublished(m, h, "remote-gateway", "fantetic-terminal-remote-gateway")
    && IsPublished(m, h, "all-in-one", "fantetic-terminal")
    && Get(h, "spfantop/fantetic-terminal:latest") == Get(h, "spfantop/fantetic-terminal:" + m.version)
  }

  lemma OfficialReferences(repository: string, tag: string, digest: string)
    ensures VersionReference(OFFICIAL_NAMESPACE, repository, tag) == "spfantop/" + repository + ":" + tag
    ensures CandidateReference(OFFICIAL_NAMESPACE, repository, digest) == "spfantop/" + repository + "@" + digest
  {
    assert OFFICIAL_NAMESPACE + ['/'] == "spfantop/";
  }

  lemma PublishedOne(m: Manifest, before: Tags, h: Tags, i: nat)
    requires IsCandidate(m) && CompleteSet(m, DEFINITIONS) && HasNames(m, DEFINITIONS) && i < |DEFINITIONS|
    requires Promotable(before, Ordered(m, DEFINITIONS)) && AllPromoted(before, Ordered(m, DEFINITIONS), h)
    ensures IsPublished(m, h, DEFINITIONS[i].name, DEFINITIONS[i].repository)
  {
    var definition, image := DEFINITIONS[i], Ordered(m, DEFINITIONS)[i];
    OfficialDefinitionsAreWellDefined();
    OrderedMatch(m, DEFINITIONS);
    OfficialReferences(definition.repository, m.version, image.digest);
    assert IsPublishedAs(m, h, definition.name, definition.repository, image);
  }

  lemma AllInOneReference(tag: string)
    ensures VersionReference(OFFICIAL_NAMESPACE, ALL_IN_ONE_REPOSITORY, tag) == "spfantop/fantetic-terminal:" + tag
  {
    OfficialReferences(ALL_IN_ONE_REPOSITORY, tag, "");
    assert "spfantop/" + ALL_IN_ONE_REPOSITORY + ":" == "spfantop/fantetic-terminal:";
  }

  lemma LatestText()
    ensures "spfantop/fantetic-terminal:" + LATEST == "spfantop/fantetic-terminal:latest"
  {
  }

  lemma LatestOfRelease(m: Manifest, before: Tags, h: Tags)
    requires IsCandidate(m) && CompleteSet(m, DEFINITIONS) && HasNames(m, DEFINITIONS) && IsPromoted(m, before, h)
    ensures Get(h, "spfantop/fantetic-terminal:latest") == Get(h, "spfantop/fantetic-terminal:" + m.version)
  {
    OfficialDefinitionsAreWellDefined();
    OrderedMatch(m, DEFINITIONS);
    assert Ordered(m, DEFINITIONS)[MAIN].versionReference
      == VersionReference(OFFICIAL_NAMESPACE, ALL_IN_ONE_REPOSITORY, m.version);
    AllInOneReference(m.version);
    AllInOneReference(LATEST);
    LatestText();
  }

  /** A completed promotion is a release of the four official images. */
  lemma PromotedIsReleased(m: Manifest, before: Tags, h: Tags)
    requires IsCandidate(m) && CompleteSet(m, DEFINITIONS) && HasNames(m, DEFINITIONS)
    requires Promotable(before, Ordered(m, DEFINITIONS)) && IsPromoted(m, before, h)
    ensures IsReleased(m, h)
  {
    PublishedOne(m, before, h, 0);
    PublishedOne(m, before, h, 1);
    PublishedOne(m, before, h, 2);
    PublishedOne(m, before, h, 3);
    LatestOfRelease(m, before, h);
  }

  /**
   Any number of failed and aborted attempts, each going on from where the one before it was stopped,
   and an undisturbed one, which ends in the registry that an undisturbed first attempt would have reached.
   */
  method PromoteDespiteAborts(m: Manifest, tags: Tags, attempts: seq<Attempt>)
    returns (final: Tags, ghost states: seq<Tags>)
    requires IsCandidate(m) && CompleteSet(m, DEFINITIONS)
    requires HasNames(m, DEFINITIONS) && Promotable(tags, Ordered(m, DEFINITIONS))
    ensures AreAttempts(m, attempts, states) && states[0] == tags
    ensures IsPromoted(m, states[|attempts|], final) && IsPromoted(m, tags, final) && IsReleased(m, final)
  {
    final, states := tags, [tags];
    for i := 0 to |attempts|
      invariant AreAttempts(m, attempts[..i], states) && states[0] == tags && states[i] == final
      invariant Promotable(final, Ordered(m, DEFINITIONS))
    {
      final := Try(m, final, attempts[i]);
      OneMoreAttempt(m, attempts, i, states, final);
      states := states + [final];
    }
    assert attempts[..|attempts|] == attempts;
    final := Try(m, final, Attempt(_ => Fault(false, false), None));
    ReleaseAbortsDoNotMatter(m, attempts, states, final);
    PromotedIsReleased(m, tags, final);
  }

  /** Each state is on the way of its attempt from the one before, and complete if nothing disturbed that attempt. */
  ghost predicate AreAttempts(m: Manifest, attempts: seq<Attempt>, states: seq<Tags>)
    requires HasNames(m, DEFINITIONS)
  {
    && |states| == |attempts| + 1
    && forall k :: 0 <= k < |attempts| ==> Leads(m, attempts[k], states[k], states[k + 1])
  }

  ghost predicate Leads(m: Manifest, attempt: Attempt, before: Tags, after: Tags)
    requires HasNames(m, DEFINITIONS)
  {
    OnTheWay(m, before, after) && (Undisturbed(attempt) ==> IsPromoted(m, before, after))
  }

  lemma OneMoreAttempt(m: Manifest, attempts: seq<Attempt>, i: nat, states: seq<Tags>, after: Tags)
    requires HasNames(m, DEFINITIONS) && i < |attempts| && AreAttempts(m, attempts[..i], states)
    requires Leads(m, attempts[i], states[i], after)
    ensures AreAttempts(m, attempts[..i + 1], states + [after])
  {
    forall k | 0 <= k < i + 1
      ensures Leads(m, attempts[..i + 1][k], (states + [after])[k], (states + [after])[k + 1])
    {
      if k < i { assert Leads(m, attempts[..i][k], states[k], states[k + 1]); }
    }
  }
}
