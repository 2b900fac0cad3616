/** The release manifest: references, its assembly from candidate records, and its validation. */
module ReleaseManifest {
  import opened Wrappers
  import opened Text
  import opened Collections

  const OFFICIAL_NAMESPACE := "spfantop"
  const SCHEMA_VERSION := 1

  datatype Definition = Definition(name: string, repository: string)

  const FRONTEND_REPOSITORY := "fantetic-terminal-frontend"
  const BACKEND_REPOSITORY := "fantetic-terminal-backend"
  const REMOTE_GATEWAY_REPOSITORY := "fantetic-terminal-remote-gateway"
  const ALL_IN_ONE_REPOSITORY := "fantetic-terminal"
  const FRONTEND := Definition("frontend", FRONTEND_REPOSITORY)
  const BACKEND := Definition("backend", BACKEND_REPOSITORY)
  const REMOTE_GATEWAY := Definition("remote-gateway", REMOTE_GATEWAY_REPOSITORY)
  const ALL_IN_ONE := Definition("all-in-one", ALL_IN_ONE_REPOSITORY)
  const DEFINITIONS := [FRONTEND, BACKEND, REMOTE_GATEWAY, ALL_IN_ONE]

  datatype Image = Image(
    name: string, repository: string, candidateReference: string, versionReference: string, digest: string)

  datatype Manifest = Manifest(
    schemaVersion: int, status: string, namespace: string, version: string, buildIdentity: string,
    sourceRevision: string, imageList: seq<Image>)

  // ---------- References ----------

  function VersionReference(namespace: string, repository: string, tag: string): string {
    namespace + ['/'] + repository + [':'] + tag
  }

  function CandidateReference(namespace: string, repository: string, digest: string): string {
    namespace + ['/'] + repository + ['@'] + digest
  }

  /** Free of the separators of references. */
  predicate IsBare(s: string) { forall i :: 0 <= i < |s| ==> s[i] != ':' && s[i] != '@' }

  lemma FirstSeparator(a: string, c: char, x: string, b: string, d: char, y: string)
    requires IsBare(a) && IsBare(b) && c in {':', '@'} && d in {':', '@'}
    ensures a + [c] + x == b + [d] + y ==> a == b && c == d && x == y
  {
    var s, t := a + [c] + x, b + [d] + y;
    assert s[|a|] == c && t[|b|] == d;
    if |a| < |b| {
      assert t[|a|] == b[|a|];
    } else if |b| < |a| {
      assert s[|b|] == a[|b|];
    } else {
      assert s[..|a|] == a && t[..|a|] == b;
      assert s[|a| + 1..] == x && t[|a| + 1..] == y;
    }
  }

  lemma PathsDiffer(namespace: string, r: string, q: string)
    requires r != q
    ensures namespace + ['/'] + r != namespace + ['/'] + q
  {
    assert (namespace + ['/'] + r)[|namespace| + 1..] == r;
    assert (namespace + ['/'] + q)[|namespace| + 1..] == q;
  }

  // ---------- Patterns ----------

  predicate AllDigits(s: string) { s != [] && forall i :: 0 <= i < |s| ==> IsDigit(s[i]) }

  /** /^\d+\.\d+\.\d+$/ */
  predicate IsVersion(s: string) {
    var pieces := Split(s, '.');
    |pieces| == 3 && AllDigits(pieces[0]) && AllDigits(pieces[1]) && AllDigits(pieces[2])
  }

  /** /^\d+-\d+$/ */
  predicate IsBuildIdentity(s: string) {
    var pieces := Split(s, '-');
    |pieces| == 2 && AllDigits(pieces[0]) && AllDigits(pieces[1])
  }

  /** /^[a-f0-9]{7,64}$/i */
  predicate IsRevision(s: string) {
    7 <= |s| <= 64 && forall i :: 0 <= i < |s| ==> IsLowerHex(s[i]) || 'A' <= s[i] <= 'F'
  }

  const DIGEST_PREFIX := "sha256:"

  /** /^sha256:[a-f0-9]{64}$/ */
  predicate IsDigest(s: string) {
    && |s| == |DIGEST_PREFIX| + 64 && s[..|DIGEST_PREFIX|] == DIGEST_PREFIX
    && forall i :: |DIGEST_PREFIX| <= i < |s| ==> IsLowerHex(s[i])
  }

  // ---------- The patterns as concatenations ----------

  lemma DigitsOnly(s: string)
    ensures AllDigits(s) <==> |s| >= 1 && OnlyOf(s, DIGITS)
  {
    forall i | 0 <= i < |s| ensures IsDigit(s[i]) <==> s[i] in DIGITS { HexDigits(s[i]); }
  }

  ghost predicate IsDotted(s: string, a: string, b: string, c: string) {
    && s == a + "." + b + "." + c && |a| >= 1 && |b| >= 1 && |c| >= 1
    && OnlyOf(a, DIGITS) && OnlyOf(b, DIGITS) && OnlyOf(c, DIGITS)
  }

  lemma JoinOfThree(a: string, b: string, c: string)
    ensures Join([a, b, c], '.') == a + "." + b + "." + c
  {
    JoinConcat([a], [b, c], '.');
    JoinConcat([b], [c], '.');
    assert [a] + [b, c] == [a, b, c] && [b] + [c] == [b, c];
  }

  /** Three numbers, separated by dots. */
  lemma VersionPattern(s: string)
    ensures IsVersion(s) <==> exists a, b, c :: IsDotted(s, a, b, c)
  {
    var pieces := Split(s, '.');
    JoinAfterSplit(s, '.');
    if |pieces| == 3 {
      assert pieces == [pieces[0], pieces[1], pieces[2]];
      JoinOfThree(pieces[0], pieces[1], pieces[2]);
      DigitsOnly(pieces[0]);
      DigitsOnly(pieces[1]);
      DigitsOnly(pieces[2]);
      if IsVersion(s) { assert IsDotted(s, pieces[0], pieces[1], pieces[2]); }
    }
    if a, b, c :| IsDotted(s, a, b, c) {
      DigitsOnly(a);
      DigitsOnly(b);
      DigitsOnly(c);
      JoinOfThree(a, b, c);
      SplitAfterJoin([a, b, c], '.');
    }
  }

  ghost predicate IsDashed(s: string, a: string, b: string) {
    s == a + "-" + b && |a| >= 1 && |b| >= 1 && OnlyOf(a, DIGITS) && OnlyOf(b, DIGITS)
  }

  /** Two numbers, separated by a dash. */
  lemma BuildIdentityPattern(s: string)
    ensures IsBuildIdentity(s) <==> exists a, b :: IsDashed(s, a, b)
  {
    var pieces := Split(s, '-');
    JoinAfterSplit(s, '-');
    if |pieces| == 2 {
      assert Join(pieces, '-') == pieces[0] + "-" + pieces[1] by { assert pieces[1..] == [pieces[1]]; }
      DigitsOnly(pieces[0]);
      DigitsOnly(pieces[1]);
      if IsBuildIdentity(s) { assert IsDashed(s, pieces[0], pieces[1]); }
    }
    if a, b :| IsDashed(s, a, b) {
      DigitsOnly(a);
      DigitsOnly(b);
      assert Join([a, b], '-') == s by { assert [a, b][1..] == [b]; }
      SplitAfterJoin([a, b], '-');
    }
  }

  /** The scheme, and sixty-four lower-case hexadecimal digits. */
  lemma DigestPattern(s: string)
    ensures IsDigest(s) <==> exists hex :: s == "sha256:" + hex && |hex| == 64 && OnlyOf(hex, HEX)
  {
    forall i | 0 <= i < |s| ensures IsLowerHex(s[i]) <==> s[i] in HEX { HexDigits(s[i]); }
    if IsDigest(s) {
      assert s == "sha256:" + s[7..] && |s[7..]| == 64 && OnlyOf(s[7..], HEX);
    }
    if hex :| s == "sha256:" + hex && |hex| == 64 && OnlyOf(hex, HEX) {
      assert forall i :: 7 <= i < |s| ==> s[i] == hex[i - 7];
    }
  }

  /** Seven to sixty-four hexadecimal digits of either case. */
  lemma RevisionPattern(s: string)
    ensures IsRevision(s) <==> 7 <= |s| <= 64 && OnlyOf(s, HEX + {'A', 'B', 'C', 'D', 'E', 'F'})
  {
    forall i | 0 <= i < |s|
      ensures IsLowerHex(s[i]) || 'A' <= s[i] <= 'F' <==> s[i] in HEX + {'A', 'B', 'C', 'D', 'E', 'F'}
    {
      HexDigits(s[i]);
    }
  }

  // ---------- Validation ----------

  /** The image is the candidate of the definition under this namespace and version. */
  predicate Matches(namespace: string, version: string, definition: Definition, image: Image) {
    && image.name == definition.name
    && image.repository == definition.repository
    && image.versionReference == VersionReference(namespace, definition.repository, version)
    && image.candidateReference == CandidateReference(namespace, definition.repository, image.digest)
    && IsDigest(Trim(image.digest))
  }

  /** The references in full, and a digest of the right shape. */
  lemma MatchIsExact(namespace: string, version: string, definition: Definition, image: Image)
    ensures var path := namespace + "/" + definition.repository;
      Matches(namespace, version, definition, image) <==>
        && image.name == definition.name && image.repository == definition.repository
        && image.versionReference == path + ":" + version && image.candidateReference == path + "@" + image.digest
        && exists hex :: Trim(image.digest) == "sha256:" + hex && |hex| == 64 && OnlyOf(hex, HEX)
  {
    DigestPattern(Trim(image.digest));
  }

  predicate DistinctNames(definitions: seq<Definition>) {
    forall i, j :: 0 <= i < j < |definitions| ==> definitions[i].name != definitions[j].name
  }

  predicate WellDefined(definitions: seq<Definition>) {
    && DistinctNames(definitions)
    && (forall i, j :: 0 <= i < j < |definitions| ==> definitions[i].repository != definitions[j].repository)
    && (forall i :: 0 <= i < |definitions| ==> IsBare(definitions[i].repository))
  }

  function Names(images: seq<Image>): set<string> {
    set image | image in images :: image.name
  }

  /** `new Map(images.map(image => [image.name, image]))`: the last image of each name. */
  function ByName(images: seq<Image>): (r: map<string, Image>)
    ensures r.Keys == Names(images)
    ensures forall name :: name in r ==> r[name] in images && r[name].name == name
  {
    if images == [] then map[] else
      var last := images[|images| - 1];
      assert images == images[..|images| - 1] + [last];
      ByName(images[..|images| - 1])[last.name := last]
  }

  datatype Error = InvalidImageSet | InvalidCandidate(name: string) | NotPrepared

  /** A list with exactly one image for every definition. */
  ghost predicate CompleteSet(m: Manifest, definitions: seq<Definition>) {
    && |m.imageList| == |definitions|
    && forall i :: 0 <= i < |definitions| ==> HasMatch(m, definitions[i])
  }

  ghost predicate HasMatch(m: Manifest, definition: Definition) {
    exists image :: image in m.imageList && Matches(m.namespace, m.version, definition, image)
  }

  predicate HasNames(m: Manifest, definitions: seq<Definition>) {
    forall i :: 0 <= i < |definitions| ==> definitions[i].name in ByName(m.imageList)
  }

  /** The images of a manifest in the order of the definitions. */
  function Ordered(m: Manifest, definitions: seq<Definition>): seq<Image>
    requires HasNames(m, definitions)
  {
    seq(|definitions|, i requires 0 <= i < |definitions| => ByName(m.imageList)[definitions[i].name])
  }

  /** The image that the manifest lists last under the name of the definition matches it. */
  predicate Accepted(m: Manifest, definition: Definition) {
    var imageByName := ByName(m.imageList);
    definition.name in imageByName && Matches(m.namespace, m.version, definition, imageByName[definition.name])
  }

  lemma AcceptedIsMatched(m: Manifest, definition: Definition)
    ensures Accepted(m, definition) ==> HasMatch(m, definition)
    ensures |Names(m.imageList)| == |m.imageList| && HasMatch(m, definition) ==> Accepted(m, definition)
  {
    if |Names(m.imageList)| == |m.imageList| && HasMatch(m, definition) {
      var image :| image in m.imageList && Matches(m.namespace, m.version, definition, image);
      OnlyOneOfAName(m.imageList, image);
    }
  }

  predicate AllAccepted(m: Manifest, definitions: seq<Definition>) {
    forall i :: 0 <= i < |definitions| ==> Accepted(m, definitions[i])
  }

  lemma CompleteWhenAllAccepted(m: Manifest, definitions: seq<Definition>)
    requires WellDefined(definitions)
    ensures CompleteSet(m, definitions) <==>
      |m.imageList| == |definitions| && |ByName(m.imageList)| == |definitions| && AllAccepted(m, definitions)
  {
    SizeOfKeys(ByName(m.imageList));
    if CompleteSet(m, definitions) { CompleteSetHasAllNames(m, definitions); }
    forall i | 0 <= i < |definitions|
      ensures Accepted(m, definitions[i]) ==> HasMatch(m, definitions[i])
      ensures |Names(m.imageList)| == |m.imageList| && HasMatch(m, definitions[i]) ==> Accepted(m, definitions[i])
    {
      AcceptedIsMatched(m, definitions[i]);
    }
  }

  /** Accepts a manifest exactly when it has one matching image per definition, and returns them in that order. */
  method ValidateReleaseManifestImageList(m: Manifest, definitions: seq<Definition>)
    returns (result: Result<seq<Image>, Error>)
    requires WellDefined(definitions)
    ensures result.Ok? <==> CompleteSet(m, definitions)
    ensures result.Ok? ==> HasNames(m, definitions) && result.value == Ordered(m, definitions)
  {
    CompleteWhenAllAccepted(m, definitions);
    if |m.imageList| != |definitions| || |ByName(m.imageList)| != |definitions| {
      return Err(InvalidImageSet);
    }
    result := MapDefinitions(m, definitions);
  }

  method MapDefinitions(m: Manifest, definitions: seq<Definition>) returns (result: Result<seq<Image>, Error>)
    ensures result.Ok? <==> AllAccepted(m, definitions)
    ensures result.Ok? ==> HasNames(m, definitions) && result.value == Ordered(m, definitions)
  {
    var images := [];
    for i := 0 to |definitions|
      invariant AllAccepted(m, definitions[..i])
      invariant HasNames(m, definitions[..i]) && images == Ordered(m, definitions[..i])
    {
      if !Accepted(m, definitions[i]) {
        RefusedIsNotAccepted(m, definitions, i);
        return Err(InvalidCandidate(definitions[i].name));
      }
      AcceptedIsNamed(m, definitions[i]);
      AcceptedOneMore(m, definitions, i);
      OrderedOneMore(m, definitions, i);
      images := images + [ByName(m.imageList)[definitions[i].name]];
    }
    assert definitions[..|definitions|] == definitions;
    return Ok(images);
  }

  lemma RefusedIsNotAccepted(m: Manifest, definitions: seq<Definition>, i: nat)
    requires i < |definitions| && !Accepted(m, definitions[i])
    ensures !AllAccepted(m, definitions)
  {
  }

  lemma AcceptedIsNamed(m: Manifest, definition: Definition)
    requires Accepted(m, definition)
    ensures definition.name in ByName(m.imageList)
  {
  }

  lemma AcceptedOneMore(m: Manifest, definitions: seq<Definition>, i: nat)
    requires i < |definitions| && AllAccepted(m, definitions[..i]) && Accepted(m, definitions[i])
    ensures AllAccepted(m, definitions[..i + 1])
  {
  }

  lemma OrderedOneMore(m: Manifest, definitions: seq<Definition>, i: nat)
    requires i < |definitions| && HasNames(m, definitions[..i]) && definitions[i].name in ByName(m.imageList)
    ensures HasNames(m, definitions[..i + 1])
    ensures Ordered(m, definitions[..i + 1]) ==
            Ordered(m, definitions[..i]) + [ByName(m.imageList)[definitions[i].name]]
  {
  }

  lemma SizeOfKeys<K, V>(m: map<K, V>)
    ensures |m| == |m.Keys|
  {
  }

  /** The images of an accepted manifest are listed in it and match their definitions. */
  lemma OrderedMatch(m: Manifest, definitions: seq<Definition>)
    requires WellDefined(definitions) && CompleteSet(m, definitions)
    ensures HasNames(m, definitions)
    ensures forall i :: 0 <= i < |definitions| ==>
      && Ordered(m, definitions)[i] in m.imageList
      && Matches(m.namespace, m.version, definitions[i], Ordered(m, definitions)[i])
  {
    CompleteSetHasAllNames(m, definitions);
    forall i | 0 <= i < |definitions| ensures Accepted(m, definitions[i]) {
      AcceptedIsMatched(m, definitions[i]);
    }
  }

  function NameList(images: seq<Image>): (r: seq<string>)
    ensures |r| == |images| && forall i :: 0 <= i < |r| ==> r[i] == images[i].name
  {
    seq(|images|, i requires 0 <= i < |images| => images[i].name)
  }

  lemma NamesOfList(images: seq<Image>)
    ensures Names(images) == set x | x in NameList(images)
  {
  }

  lemma NamesAreDistinct(images: seq<Image>)
    requires |Names(images)| == |images|
    ensures forall i, j :: 0 <= i < j < |images| ==> images[i].name != images[j].name
  {
    var names := NameList(images);
    NamesOfList(images);
    ElementsAtMost(names);
    forall i, j | 0 <= i < j < |images| ensures images[i].name != images[j].name {
      assert names[i] != names[j];
    }
  }

  /** When there are as many names as images, a name determines its image. */
  lemma OnlyOneOfAName(images: seq<Image>, image: Image)
    requires image in images && |Names(images)| == |images|
    ensures image.name in ByName(images) && ByName(images)[image.name] == image
  {
    NamesAreDistinct(images);
    assert image.name in Names(images);
    var other := ByName(images)[image.name];
    var i :| 0 <= i < |images| && images[i] == image;
    var j :| 0 <= j < |images| && images[j] == other;
  }

  lemma CompleteSetHasAllNames(m: Manifest, definitions: seq<Definition>)
    requires WellDefined(definitions) && CompleteSet(m, definitions)
    ensures |Names(m.imageList)| == |definitions|
  {
    var wanted := seq(|definitions|, i requires 0 <= i < |definitions| => definitions[i].name);
    DistinctCount(wanted);
    forall x | x in wanted ensures x in Names(m.imageList) {
      var i :| 0 <= i < |wanted| && wanted[i] == x;
      assert HasMatch(m, definitions[i]);
    }
    SmallerSubset((set x | x in wanted), Names(m.imageList));
    NamesOfList(m.imageList);
    ElementsAtMost(NameList(m.imageList));
  }

  // ---------- Assembly ----------

  datatype PreparedImage = PreparedImage(name: string, repository: string, versionReference: string)

  datatype PreparedSet = PreparedSet(
    schemaVersion: int, status: string, namespace: string, version: string, buildIdentity: string,
    sourceRevision: string, imageList: seq<PreparedImage>)

  /** What the build of one candidate reports. */
  datatype Record = Record(name: string, repository: string, digest: string)

  const PREPARED := "prepared"
  const CANDIDATE := "candidate"

  predicate IsPrepared(p: PreparedSet) {
    && p.schemaVersion == SCHEMA_VERSION && p.status == PREPARED && p.namespace == OFFICIAL_NAMESPACE
    && IsVersion(p.version) && IsBuildIdentity(p.buildIdentity) && IsRevision(p.sourceRevision)
  }

  /** As for a candidate, in the status before. */
  lemma PreparedIsExact(p: PreparedSet)
    ensures IsPrepared(p) <==>
      && p.schemaVersion == 1 && p.status == "prepared" && p.namespace == "spfantop"
      && (exists a, b, c :: IsDotted(p.version, a, b, c)) && (exists a, b :: IsDashed(p.buildIdentity, a, b))
      && 7 <= |p.sourceRevision| <= 64 && OnlyOf(p.sourceRevision, HEX + {'A', 'B', 'C', 'D', 'E', 'F'})
  {
    VersionPattern(p.version);
    BuildIdentityPattern(p.buildIdentity);
    RevisionPattern(p.sourceRevision);
  }

  /** The images of a prepared set, one per definition. */
  function PreparedImages(namespace: string, version: string, definitions: seq<Definition>): seq<PreparedImage> {
    seq(|definitions|, i requires 0 <= i < |definitions| =>
      PreparedImage(definitions[i].name, definitions[i].repository,
                    VersionReference(namespace, definitions[i].repository, version)))
  }

  predicate DistinctRecords(records: seq<Record>) {
    forall i, j :: 0 <= i < j < |records| ==> records[i].name != records[j].name
  }

  /** The record of a candidate that belongs to the image and reports a well-formed digest. */
  predicate Reports(record: Record, image: PreparedImage) {
    record.name == image.name && record.repository == image.repository && IsDigest(Trim(record.digest))
  }

  lemma ReportIsExact(record: Record, image: PreparedImage)
    ensures Reports(record, image) <==>
      && record.name == image.name && record.repository == image.repository
      && exists hex :: Trim(record.digest) == "sha256:" + hex && |hex| == 64 && OnlyOf(hex, HEX)
  {
    DigestPattern(Trim(record.digest));
  }

  ghost predicate Reported(records: seq<Record>, image: PreparedImage) {
    exists k :: 0 <= k < |records| && Reports(records[k], image)
  }

  function Candidate(namespace: string, image: PreparedImage, digest: string): Image {
    Image(image.name, image.repository, CandidateReference(namespace, image.repository, digest),
          image.versionReference, digest)
  }

  /** The record of each of the first n names is the one reported under it. */
  ghost predicate Indexes(index: map<string, Record>, records: seq<Record>, n: nat)
    requires n <= |records|
  {
    && (forall k :: 0 <= k < n ==> records[k].name in index && index[records[k].name] == records[k])
    && (forall name :: name in index ==> index[name].name == name && index[name] in records[..n])
  }

  lemma IndexOneMore(index: map<string, Record>, records: seq<Record>, n: nat)
    requires n < |records| && Indexes(index, records, n) && records[n].name !in index
    ensures Indexes(index[records[n].name := records[n]], records, n + 1)
  {
  }

  method IndexRecords(records: seq<Record>) returns (index: Option<map<string, Record>>)
    ensures index.Some? <==> DistinctRecords(records)
    ensures index.Some? ==> Indexes(index.value, records, |records|)
  {
    var recordByName: map<string, Record> := map[];
    for i := 0 to |records|
      invariant Indexes(recordByName, records, i)
      invariant forall j, k :: 0 <= j < k < i ==> records[j].name != records[k].name
    {
      if records[i].name in recordByName {
        var other := recordByName[records[i].name];
        var k :| 0 <= k < i && records[..i][k] == other;
        assert records[k].name == records[i].name;
        return None;
      }
      IndexOneMore(recordByName, records, i);
      recordByName := recordByName[records[i].name := records[i]];
    }
    index := Some(recordByName);
  }

  lemma IndexFindsReports(index: map<string, Record>, records: seq<Record>, image: PreparedImage)
    requires Indexes(index, records, |records|)
    ensures Reported(records, image) <==> image.name in index && Reports(index[image.name], image)
    ensures image.name in index ==> index[image.name] in records
  {
  }

  method AssembleImage(namespace: string, prepared: PreparedImage, records: seq<Record>, index: map<string, Record>)
    returns (image: Option<Image>)
    requires Indexes(index, records, |records|)
    ensures image.Some? <==> Reported(records, prepared)
    ensures image.Some? ==> AssembledFrom(namespace, prepared, records, image.value)
  {
    IndexFindsReports(index, records, prepared);
    if prepared.name !in index || !Reports(index[prepared.name], prepared) {
      return None;
    }
    image := Some(Candidate(namespace, prepared, Trim(index[prepared.name].digest)));
  }

  /** Assembles the images in order; `failed` is the first one without a well-formed record. */
  method AssembleImages(
      namespace: string, prepared: seq<PreparedImage>, records: seq<Record>, index: map<string, Record>)
    returns (images: seq<Image>, failed: Option<nat>)
    requires Indexes(index, records, |records|)
    ensures failed.None? ==> AllAssembled(namespace, prepared, records, images)
    ensures failed.Some? ==> failed.value < |prepared| && !Reported(records, prepared[failed.value])
  {
    images := [];
    for i := 0 to |prepared|
      invariant AllAssembled(namespace, prepared[..i], records, images)
    {
      var image := AssembleImage(namespace, prepared[i], records, index);
      if image.None? {
        return images, Some(i);
      }
      AssembledOneMore(namespace, prepared, i, records, images, image.value);
      images := images + [image.value];
    }
    assert prepared[..|prepared|] == prepared;
    failed := None;
  }

  lemma AssembledOneMore(
      namespace: string, prepared: seq<PreparedImage>, i: nat, records: seq<Record>, images: seq<Image>, image: Image)
    requires i < |prepared| && AllAssembled(namespace, prepared[..i], records, images)
    requires AssembledFrom(namespace, prepared[i], records, image)
    ensures AllAssembled(namespace, prepared[..i + 1], records, images + [image])
  {
  }

  lemma AssembledIsReported(namespace: string, prepared: PreparedImage, records: seq<Record>, image: Image)
    requires AssembledFrom(namespace, prepared, records, image)
    ensures Reported(records, prepared)
  {
  }

  ghost predicate AllAssembled(
      namespace: string, prepared: seq<PreparedImage>, records: seq<Record>, images: seq<Image>)
  {
    && |images| == |prepared|
    && forall k :: 0 <= k < |prepared| ==> AssembledFrom(namespace, prepared[k], records, images[k])
  }

  ghost predicate AllReported(records: seq<Record>, prepared: seq<PreparedImage>) {
    forall k :: 0 <= k < |prepared| ==> Reported(records, prepared[k])
  }

  /** Assembles a manifest exactly when every image of a prepared set has its one well-formed record. */
  method CreateDockerReleaseManifest(p: PreparedSet, records: seq<Record>) returns (result: Result<Manifest, Error>)
    ensures result.Ok? <==>
      IsPrepared(p) && |records| == |p.imageList| && DistinctRecords(records) && AllReported(records, p.imageList)
    ensures result.Ok? ==> Assembled(p, records, result.value)
  {
    if !IsPrepared(p) {
      return Err(NotPrepared);
    }
    if |records| != |p.imageList| {
      return Err(InvalidImageSet);
    }
    var index := IndexRecords(records);
    if index.None? {
      return Err(InvalidImageSet);
    }
    var imageList, failed := AssembleImages(p.namespace, p.imageList, records, index.value);
    if failed.Some? {
      return Err(InvalidCandidate(p.imageList[failed.value].name));
    }
    forall k | 0 <= k < |p.imageList| ensures Reported(records, p.imageList[k]) {
      AssembledIsReported(p.namespace, p.imageList[k], records, imageList[k]);
    }
    return Ok(Manifest(
      p.schemaVersion, CANDIDATE, p.namespace, p.version, p.buildIdentity, p.sourceRevision, imageList));
  }

  ghost predicate AssembledFrom(namespace: string, prepared: PreparedImage, records: seq<Record>, image: Image) {
    exists k :: 0 <= k < |records| && Reports(records[k], prepared)
      && image == Candidate(namespace, prepared, Trim(records[k].digest))
  }

  ghost predicate Assembled(p: PreparedSet, records: seq<Record>, m: Manifest) {
    && m == Manifest(p.schemaVersion, CANDIDATE, p.namespace, p.version, p.buildIdentity, p.sourceRevision, m.imageList)
    && AllAssembled(p.namespace, p.imageList, records, m.imageList)
  }

  lemma DigestHasNoMargin(s: string)
    requires IsDigest(s)
    ensures Trim(s) == s
  {
  }

  /** What is assembled from a set prepared for the definitions passes the validation of the promotion. */
  lemma AssembledManifestValidates(p: PreparedSet, records: seq<Record>, m: Manifest, definitions: seq<Definition>)
    requires p.imageList == PreparedImages(p.namespace, p.version, definitions)
    requires Assembled(p, records, m)
    ensures CompleteSet(m, definitions)
  {
    forall i | 0 <= i < |definitions| ensures HasMatch(m, definitions[i]) {
      assert AssembledFrom(p.namespace, p.imageList[i], records, m.imageList[i]);
      DigestHasNoMargin(m.imageList[i].digest);
      assert Matches(m.namespace, m.version, definitions[i], m.imageList[i]);
    }
  }

  // ---------- The references of a validated manifest are all different ----------

  ghost predicate DistinctReferences(images: seq<Image>, latest: string) {
    && (forall i, j :: 0 <= i < j < |images| ==> images[i].versionReference != images[j].versionReference)
    && (forall i, j :: 0 <= i < |images| && 0 <= j < |images| ==>
          images[i].versionReference != images[j].candidateReference)
    && (forall i :: 0 <= i < |images| ==>
          images[i].versionReference != latest && images[i].candidateReference != latest)
  }

  const LATEST := "latest"

  lemma LatestIsNoVersion(version: string)
    requires IsVersion(version)
    ensures version != LATEST
  {
  }

  lemma BarePath(namespace: string, r: string)
    requires IsBare(namespace) && IsBare(r)
    ensures IsBare(namespace + ['/'] + r)
  {
  }

  lemma TagIsNoDigest(namespace: string, r: string, tag: string, q: string, digest: string)
    requires IsBare(namespace) && IsBare(r) && IsBare(q)
    ensures VersionReference(namespace, r, tag) != CandidateReference(namespace, q, digest)
  {
    BarePath(namespace, r);
    BarePath(namespace, q);
    FirstSeparator(namespace + ['/'] + r, ':', tag, namespace + ['/'] + q, '@', digest);
  }

  lemma TagsDiffer(namespace: string, r: string, tag: string, q: string, other: string)
    requires IsBare(namespace) && IsBare(r) && IsBare(q) && (r != q || tag != other)
    ensures VersionReference(namespace, r, tag) != VersionReference(namespace, q, other)
  {
    BarePath(namespace, r);
    BarePath(namespace, q);
    if r != q { PathsDiffer(namespace, r, q); }
    FirstSeparator(namespace + ['/'] + r, ':', tag, namespace + ['/'] + q, ':', other);
  }

  lemma ReferencesDiffer(
      namespace: string, version: string, definitions: seq<Definition>, images: seq<Image>, repository: string)
    requires WellDefined(definitions) && IsBare(namespace) && IsBare(repository) && version != LATEST
    requires |images| == |definitions|
    requires forall i :: 0 <= i < |images| ==> Matches(namespace, version, definitions[i], images[i])
    ensures DistinctReferences(images, VersionReference(namespace, repository, LATEST))
  {
    forall i | 0 <= i < |images|
      ensures images[i].versionReference != VersionReference(namespace, repository, LATEST)
      ensures images[i].candidateReference != VersionReference(namespace, repository, LATEST)
    {
      TagsDiffer(namespace, definitions[i].repository, version, repository, LATEST);
      TagIsNoDigest(namespace, repository, LATEST, definitions[i].repository, images[i].digest);
    }
    forall i, j | 0 <= i < |images| && 0 <= j < |images|
      ensures i < j ==> images[i].versionReference != images[j].versionReference
      ensures images[i].versionReference != images[j].candidateReference
    {
      TagIsNoDigest(namespace, definitions[i].repository, version, definitions[j].repository, images[j].digest);
      if i < j {
        TagsDiffer(namespace, definitions[i].repository, version, definitions[j].repository, version);
      }
    }
  }

  lemma OfficialLengths()
    ensures |FRONTEND.name| == 8 && |BACKEND.name| == 7 && |REMOTE_GATEWAY.name| == 14 && |ALL_IN_ONE.name| == 10
    ensures |FRONTEND.repository| == 26 && |BACKEND.repository| == 25
    ensures |REMOTE_GATEWAY.repository| == 32 && |ALL_IN_ONE.repository| == 17
  {
  }

  lemma FrontendIsBare()
    ensures IsBare(FRONTEND_REPOSITORY)
  {
  }

  lemma BackendIsBare()
    ensures IsBare(BACKEND_REPOSITORY)
  {
  }

  lemma RemoteGatewayIsBare()
    ensures IsBare(REMOTE_GATEWAY_REPOSITORY)
  {
  }

  lemma AllInOneIsBare()
    ensures IsBare(ALL_IN_ONE_REPOSITORY)
  {
  }

  lemma NamespaceIsBare()
    ensures IsBare(OFFICIAL_NAMESPACE)
  {
  }

  lemma OfficialDefinitionsAreWellDefined()
    ensures WellDefined(DEFINITIONS) && IsBare(OFFICIAL_NAMESPACE)
  {
    OfficialLengths();
    FrontendIsBare();
    BackendIsBare();
    RemoteGatewayIsBare();
    AllInOneIsBare();
    NamespaceIsBare();
  }
}
