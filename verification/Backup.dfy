/**
 Backup creation and verification.

 The SHA-256 digest of a file and the JSON text of a manifest are function parameters.
 */
module Backup {
  import opened Wrappers
  import opened FileTree
  import opened Text

  const FORMAT_VERSION := 1
  const DATABASE_NAME := "fantetic-terminal.db"
  const CONTENT_NAMES := ["uploads", "custom-html-themes", "session-recordings"]

  datatype FileRecord = FileRecord(path: Path, size: nat, digest: string)

  datatype Manifest = Manifest(
    formatVersion: int,
    id: string,
    createdAt: string,
    schemaVersion: int,
    keyFingerprint: string,
    files: seq<FileRecord>)

  /** What the manifest file holds: its text, and back; text that is no manifest decodes to None. */
  datatype Codec = Codec(encode: Manifest -> string, decode: string -> Option<Manifest>)

  ghost predicate RoundTrips(codec: Codec) {
    forall m :: codec.decode(codec.encode(m)) == Some(m)
  }

  ghost predicate CollisionFree(digest: string -> string) {
    forall a, b :: digest(a) == digest(b) ==> a == b
  }

  // ---------- Backup identifiers ----------

  predicate AllIn(s: string, allowed: char -> bool) {
    forall i :: 0 <= i < |s| ==> allowed(s[i])
  }

  /** Eight digits, `T`, six digits, `-`, eight hexadecimal digits. */
  predicate IsBackupId(id: string) {
    && |id| == 24 && id[8] == 'T' && id[15] == '-'
    && AllIn(id[..8], IsDigit) && AllIn(id[9..15], IsDigit) && AllIn(id[16..], IsLowerHex)
  }

  /** The same as a concatenation, in the order of the pattern. */
  ghost predicate HasPattern(id: string, date: string, time: string, suffix: string) {
    && id == date + "T" + time + "-" + suffix && |date| == 8 && |time| == 6 && |suffix| == 8
    && (forall i :: 0 <= i < |date| ==> date[i] in DIGITS) && (forall i :: 0 <= i < |time| ==> time[i] in DIGITS)
    && forall i :: 0 <= i < |suffix| ==> suffix[i] in HEX
  }

  lemma BackupIdPattern(id: string)
    ensures IsBackupId(id) <==> exists date, time, suffix :: HasPattern(id, date, time, suffix)
  {
    if IsBackupId(id) {
      assert id == id[..8] + "T" + id[9..15] + "-" + id[16..];
      assert HasPattern(id, id[..8], id[9..15], id[16..]);
    }
    if date, time, suffix :| HasPattern(id, date, time, suffix) {
      assert id[..8] == date && id[9..15] == time && id[16..] == suffix;
    }
  }

  // ---------- Verification ----------

  datatype BackupError =
    | InvalidBackup
    | FingerprintMismatch
    | UnexpectedFile(path: Path)
    | MissingFile(path: Path)
    | IntegrityFailure(path: Path)

  /** Verification itself rejects when no encryption key is configured. */
  datatype Refusal = NoEncryptionKey | InvalidId | NameTaken | Threw(step: Step)

  datatype Verification = Verification(valid: bool, errors: seq<BackupError>, manifest: Option<Manifest>)

  /** The manifest of a backup directory, if there is one that names this backup. */
  function ReadManifest(codec: Codec, id: string, root: Option<Node>): Option<Manifest> {
    if !IsBackupId(id) || root.None? || root.value.File? || MANIFEST_NAME !in root.value.entries then None
    else if root.value.entries[MANIFEST_NAME].Dir? then None
    else
      var decoded := codec.decode(root.value.entries[MANIFEST_NAME].content);
      if decoded.None? || decoded.value.formatVersion != FORMAT_VERSION || decoded.value.id != id then None
      else decoded
  }

  /** A manifest is read exactly from a file `manifest.json` that decodes, in format 1 and under the right name. */
  lemma ReadableManifest(codec: Codec, id: string, root: Option<Node>, m: Manifest)
    ensures ReadManifest(codec, id, root) == Some(m) <==>
      && IsBackupId(id) && m.formatVersion == 1 && m.id == id
      && root.Some? && root.value.Dir? && "manifest.json" in root.value.entries
      && root.value.entries["manifest.json"].File?
      && codec.decode(root.value.entries["manifest.json"].content) == Some(m)
  {
  }

  lemma ReadNamesTheBackup(codec: Codec, id: string, root: Option<Node>)
    ensures var m := ReadManifest(codec, id, root); m.Some? ==> m.value.id == id && m.value.formatVersion == 1
  {
  }

  predicate Describes(digest: string -> string, record: FileRecord, content: string) {
    record.size == |content| && record.digest == digest(content)
  }

  /** The declared (path, size, digest) entries are exactly those of the listed files. */
  ghost predicate FilesMatch(digest: string -> string, records: seq<FileRecord>, root: Node) {
    && (forall k :: 0 <= k < |records| ==>
          && Listed(root, records[k].path)
          && var content := Lookup(root, records[k].path).value;
             records[k].size == |content| && records[k].digest == digest(content))
    && (forall path :: Listed(root, path) ==> Declared(records, path))
  }

  ghost predicate Declared(records: seq<FileRecord>, path: Path) {
    exists k :: 0 <= k < |records| && records[k].path == path
  }

  ghost predicate IsFault(digest: string -> string, m: Manifest, fingerprint: string, root: Node, e: BackupError) {
    match e
    case InvalidBackup => false
    case FingerprintMismatch => m.keyFingerprint != fingerprint
    case UnexpectedFile(path) => Listed(root, path) && !Declared(m.files, path)
    case MissingFile(path) => Declared(m.files, path) && !Listed(root, path)
    case IntegrityFailure(path) =>
      && Listed(root, path)
      && exists k :: 0 <= k < |m.files| && m.files[k].path == path
                     && !Describes(digest, m.files[k], Lookup(root, path).value)
  }

  /**
   Accepts a readable backup exactly when the key fingerprint and the described files agree,
   and otherwise reports every disagreement and nothing else.
   */
  method VerifyBackup(
      codec: Codec, digest: string -> string, fingerprint: Option<string>, id: string, root: Option<Node>)
    returns (result: Result<Verification, Refusal>)
    ensures var m := ReadManifest(codec, id, root);
            if m.None? then result == Ok(Verification(false, [InvalidBackup], None))
            else if fingerprint.None? then result == Err(NoEncryptionKey)
            else
              && result.Ok? && result.value.manifest == m && m.value.id == id && m.value.formatVersion == 1
              && (result.value.valid <==> result.value.errors == [])
              && (result.value.valid <==>
                    m.value.keyFingerprint == fingerprint.value && FilesMatch(digest, m.value.files, root.value))
              && (forall e :: e in result.value.errors <==> IsFault(digest, m.value, fingerprint.value, root.value, e))
  {
    var read := ReadManifest(codec, id, root);
    if read.None? {
      return Ok(Verification(false, [InvalidBackup], None));
    }
    if fingerprint.None? {
      return Err(NoEncryptionKey);
    }
    var manifest, directory := read.value, root.value;
    ReadNamesTheBackup(codec, id, root);
    var errors: seq<BackupError> := if manifest.keyFingerprint != fingerprint.value then [FingerprintMismatch] else [];
    var actualFiles := ListFiles(directory);
    var declaredFiles := set record | record in manifest.files :: record.path;
    for i := 0 to |actualFiles|
      invariant forall e :: e in errors <==>
        (e.FingerprintMismatch? && IsFault(digest, manifest, fingerprint.value, directory, e))
        || (e.UnexpectedFile? && e.path in actualFiles[..i] && e.path !in declaredFiles)
    {
      if actualFiles[i] !in declaredFiles {
        errors := errors + [UnexpectedFile(actualFiles[i])];
      }
    }
    assert forall path :: path in declaredFiles <==> Declared(manifest.files, path);
    assert actualFiles[..|actualFiles|] == actualFiles;
    ghost var early := errors;
    assert forall e :: e in early <==>
      (e.FingerprintMismatch? || e.UnexpectedFile?) && IsFault(digest, manifest, fingerprint.value, directory, e);
    for i := 0 to |manifest.files|
      invariant forall e :: e in errors <==> e in early || LateFault(digest, manifest.files[..i], directory, e)
    {
      var file := manifest.files[i];
      ghost var before := errors;
      if file.path !in actualFiles {
        errors := errors + [MissingFile(file.path)];
      } else if !Describes(digest, file, Lookup(directory, file.path).value) {
        errors := errors + [IntegrityFailure(file.path)];
      }
      LateFaultStep(digest, manifest.files, i, directory);
      assert forall e :: e in errors <==> e in before || LateFaultFrom(digest, file, directory, e);
    }
    assert manifest.files[..|manifest.files|] == manifest.files;
    AllFaults(digest, manifest, fingerprint.value, directory);
    NoFaultsMeansMatch(digest, manifest, fingerprint.value, directory);
    assert errors == [] <==> forall e :: e !in errors by { if errors != [] { assert errors[0] in errors; } }
    return Ok(Verification(errors == [], errors, Some(manifest)));
  }

  /** The faults found by going through the declared files. */
  ghost predicate LateFaultFrom(digest: string -> string, record: FileRecord, root: Node, e: BackupError) {
    if Listed(root, record.path) then
      e == IntegrityFailure(record.path) && !Describes(digest, record, Lookup(root, record.path).value)
    else e == MissingFile(record.path)
  }

  ghost predicate LateFault(digest: string -> string, records: seq<FileRecord>, root: Node, e: BackupError) {
    exists k :: 0 <= k < |records| && LateFaultFrom(digest, records[k], root, e)
  }

  lemma LateFaultStep(digest: string -> string, records: seq<FileRecord>, i: nat, root: Node)
    requires i < |records|
    ensures forall e ::
      (LateFault(digest, records[..i + 1], root, e) <==>
        LateFault(digest, records[..i], root, e) || LateFaultFrom(digest, records[i], root, e))
  {
  }

  lemma AllFaults(digest: string -> string, m: Manifest, fingerprint: string, root: Node)
    ensures forall e: BackupError :: e.MissingFile? || e.IntegrityFailure? ==>
      (IsFault(digest, m, fingerprint, root, e) <==> LateFault(digest, m.files, root, e))
  {
  }

  lemma NoFaultsMeansMatch(digest: string -> string, m: Manifest, fingerprint: string, root: Node)
    ensures (forall e :: !IsFault(digest, m, fingerprint, root, e))
      <==> m.keyFingerprint == fingerprint && FilesMatch(digest, m.files, root)
  {
    if forall e :: !IsFault(digest, m, fingerprint, root, e) {
      assert !IsFault(digest, m, fingerprint, root, FingerprintMismatch);
      forall k | 0 <= k < |m.files|
        ensures Listed(root, m.files[k].path)
          && Describes(digest, m.files[k], Lookup(root, m.files[k].path).value)
      {
        var path := m.files[k].path;
        assert Declared(m.files, path);
        assert !IsFault(digest, m, fingerprint, root, MissingFile(path));
        assert !IsFault(digest, m, fingerprint, root, IntegrityFailure(path));
      }
      forall path | Listed(root, path) ensures Declared(m.files, path) {
        assert !IsFault(digest, m, fingerprint, root, UnexpectedFile(path));
      }
    }
  }

  // ---------- What a valid backup is worth ----------

  /** The two trees agree on every file that is not named like a manifest. */
  ghost predicate SameListedFiles(a: Node, b: Node) {
    forall path: Path :: path != [] && path[|path| - 1] != MANIFEST_NAME ==> Lookup(a, path) == Lookup(b, path)
  }

  /**
   With a collision-free digest, a directory matches records taken from a snapshot if and only if
   it agrees with the snapshot on every file not named `manifest.json`, at any depth.
   */
  lemma MatchingMeansSameContents(digest: string -> string, records: seq<FileRecord>, snapshot: Node, root: Node)
    requires CollisionFree(digest)
    requires FilesMatch(digest, records, snapshot)
    ensures FilesMatch(digest, records, root) <==> SameListedFiles(snapshot, root)
  {
    if FilesMatch(digest, records, root) {
      forall path: Path | path != [] && path[|path| - 1] != MANIFEST_NAME
        ensures Lookup(snapshot, path) == Lookup(root, path)
      {
        assert Listed(root, path) <==> Listed(snapshot, path);
        if Listed(root, path) {
          assert Declared(records, path);
        }
      }
    }
    if SameListedFiles(snapshot, root) {
      assert forall path :: Listed(root, path) <==> Listed(snapshot, path);
    }
  }

  lemma SameFilesMatch(digest: string -> string, records: seq<FileRecord>, a: Node, b: Node)
    requires SameListedFiles(a, b)
    ensures FilesMatch(digest, records, a) <==> FilesMatch(digest, records, b)
  {
    assert forall path :: Listed(a, path) <==> Listed(b, path);
  }

  // ---------- Creation ----------

  /** A step of `createBackup` that may throw. */
  datatype Step = SnapshotStep | CopyStep(name: string) | SchemaVersionStep | WriteStep | RenameStep

  /** The application data that goes into a backup, as a tree. */
  function Snapshot(database: string, appData: map<string, Node>, names: seq<string>): Node {
    Dir(map[DATABASE_NAME := File(database)] + map name | name in names && name in appData :: appData[name])
  }

  lemma SnapshotOneMore(database: string, appData: map<string, Node>, names: seq<string>, i: nat)
    requires i < |names|
    ensures var before := Snapshot(database, appData, names[..i]).entries;
            Snapshot(database, appData, names[..i + 1]).entries
              == if names[i] in appData then before[names[i] := appData[names[i]]] else before
  {
  }

  /** The database is part of every snapshot, whatever else there is. */
  lemma DatabaseIsListed(database: string, appData: map<string, Node>)
    ensures var snapshot := Snapshot(database, appData, CONTENT_NAMES);
            Listed(snapshot, [DATABASE_NAME]) && Lookup(snapshot, [DATABASE_NAME]) == Some(database)
  {
  }

  function WithManifest(tree: Node, text: string): Node
    requires tree.Dir?
  {
    Dir(tree.entries[MANIFEST_NAME := File(text)])
  }

  lemma ManifestIsNotListed(tree: Node, text: string)
    requires tree.Dir? && (MANIFEST_NAME in tree.entries ==> tree.entries[MANIFEST_NAME].File?)
    ensures SameListedFiles(tree, WithManifest(tree, text))
  {
    var root := WithManifest(tree, text);
    forall path: Path | path != [] && path[|path| - 1] != MANIFEST_NAME
      ensures Lookup(tree, path) == Lookup(root, path)
    {
      if path[0] == MANIFEST_NAME {
        assert path[1..] != [];
        assert Lookup(root, path) == Lookup(File(text), path[1..]);
      }
    }
  }

  /** The `backups` directory: completed backups by identifier, and unfinished ones under temporary names. */
  class BackupStore {
    var entries: map<string, Node>

    constructor ()
      ensures entries == map[]
    {
      entries := map[];
    }

    /** Describes every listed file of a finished copy. */
    method DescribeFiles(digest: string -> string, tree: Node) returns (records: seq<FileRecord>)
      requires tree.Dir?
      ensures FilesMatch(digest, records, tree)
    {
      var paths := ListFiles(tree);
      records := [];
      for i := 0 to |paths|
        invariant |records| == i
        invariant forall k :: 0 <= k < i ==>
          records[k].path == paths[k] && Listed(tree, paths[k])
          && Describes(digest, records[k], Lookup(tree, paths[k]).value)
      {
        assert paths[i] in paths;
        var content := Lookup(tree, paths[i]).value;
        records := records + [FileRecord(paths[i], |content|, digest(content))];
      }
      forall path | Listed(tree, path) ensures Declared(records, path) {
        var k :| 0 <= k < |paths| && paths[k] == path;
        assert records[k].path == path;
      }
    }

    method WriteTemporary(temporary: string, tree: Node)
      modifies this
      ensures entries - {temporary} == old(entries) - {temporary}
      ensures temporary in entries && entries[temporary] == tree
    {
      entries := entries[temporary := tree];
    }

    /** Copies the application data below the temporary name, up to the first copy that throws. */
    method CopyData(
        temporary: string, database: string, names: seq<string>, appData: map<string, Node>, failing: set<Step>)
      returns (tree: Node, thrown: Option<Step>)
      requires temporary !in entries
      modifies this
      ensures entries - {temporary} == old(entries)
      ensures thrown.None? <==> DataSteps(names, appData) !! failing
      ensures thrown.None? ==> tree == Snapshot(database, appData, names)
      ensures thrown.None? ==> temporary in entries && entries[temporary] == tree
      ensures thrown.Some? ==> thrown.value in failing
    {
      entries := entries[temporary := Dir(map[])];
      if SnapshotStep in failing {
        return Dir(map[]), Some(SnapshotStep);
      }
      tree := Snapshot(database, appData, []);
      WriteTemporary(temporary, tree);
      for i := 0 to |names|
        invariant entries - {temporary} == old(entries)
        invariant tree == Snapshot(database, appData, names[..i])
        invariant temporary in entries && entries[temporary] == tree
        invariant forall step :: step in failing ==> step !in DataSteps(names[..i], appData)
      {
        DataStepsOneMore(names, i, appData);
        var name := names[i];
        if name in appData {
          if CopyStep(name) in failing {
            assert CopyStep(name) in DataSteps(names, appData);
            return tree, Some(CopyStep(name));
          }
          tree := Dir(tree.entries[name := appData[name]]);
        }
        SnapshotOneMore(database, appData, names, i);
        WriteTemporary(temporary, tree);
      }
      assert names[..|names|] == names;
      thrown := None;
    }

    /** Writes the manifest of a finished copy beside it and renames the directory into place. */
    method Publish(
        codec: Codec, digest: string -> string, fingerprint: Option<string>, id: string, createdAt: string,
        schemaVersion: int, tree: Node, failing: set<Step>, temporary: string)
      returns (result: Result<Manifest, Refusal>)
      requires RoundTrips(codec) && IsBackupId(id) && temporary != id
      requires tree.Dir? && MANIFEST_NAME !in tree.entries
      requires temporary in entries && entries[temporary] == tree
      modifies this
      ensures result.Err? ==> entries - {temporary} == old(entries) - {temporary}
      ensures result.Ok? ==> id in entries && entries == (old(entries) - {temporary})[id := entries[id]]
      ensures result.Ok? ==> IsBackupOf(codec, digest, fingerprint, id, entries[id], result.value, tree)
      ensures result.Ok? ==> entries[id] == WithManifest(tree, codec.encode(result.value))
      ensures result.Ok? ==> result.value.createdAt == createdAt && result.value.schemaVersion == schemaVersion
      ensures result.Ok? <==> PublicationSucceeds(fingerprint, id, failing, old(entries))
      ensures result.Err? ==> RightlyRefused(result.error, fingerprint, id, failing, old(entries))
    {
      var refusal :=
        if SchemaVersionStep in failing then Some(Threw(SchemaVersionStep))
        else if fingerprint.None? then Some(NoEncryptionKey)
        else if WriteStep in failing then Some(Threw(WriteStep))
        else None;
      if refusal.Some? {
        return Err(refusal.value);
      }
      var files := DescribeFiles(digest, tree);
      var manifest := Manifest(FORMAT_VERSION, id, createdAt, schemaVersion, fingerprint.value, files);
      var complete := WithManifest(tree, codec.encode(manifest));
      CompleteBackupVerifies(codec, digest, id, tree, manifest);
      entries := entries[temporary := complete];
      if RenameStep in failing || (id in entries && entries[id] != Dir(map[])) {
        return Err(if RenameStep in failing then Threw(RenameStep) else NameTaken);
      }
      entries := (entries - {temporary})[id := entries[temporary]];
      return Ok(manifest);
    }

    /**
     A backup that is renamed into place verifies and holds the snapshot; when any step throws,
     the directory is as it was.
     */
    method CreateBackup(
        codec: Codec, digest: string -> string, fingerprint: Option<string>, id: string, createdAt: string,
        schemaVersion: int, database: string, appData: map<string, Node>, failing: set<Step>)
      returns (result: Result<Manifest, Refusal>)
      requires RoundTrips(codec)
      requires ".tmp-" + id !in entries
      modifies this
      ensures result.Err? ==> entries == old(entries)
      ensures result.Ok? ==>
        && id in entries && entries == old(entries)[id := entries[id]]
        && IsBackupOf(codec, digest, fingerprint, id, entries[id], result.value,
                      Snapshot(database, appData, CONTENT_NAMES))
        && entries[id] == WithManifest(Snapshot(database, appData, CONTENT_NAMES), codec.encode(result.value))
      ensures result.Ok? ==> result.value.createdAt == createdAt && result.value.schemaVersion == schemaVersion
      ensures result.Ok? <==>
        && IsBackupId(id) && DataSteps(CONTENT_NAMES, appData) !! failing
        && PublicationSucceeds(fingerprint, id, failing, old(entries))
      ensures result.Err? ==>
        if result.error == InvalidId then !IsBackupId(id)
        else RightlyRefused(result.error, fingerprint, id, failing, old(entries))
    {
      if !IsBackupId(id) {
        return Err(InvalidId);
      }
      var temporary := ".tmp-" + id;
      assert temporary != id by { assert |temporary| > |id|; }
      ManifestNameIsReserved();
      var tree, thrown := CopyData(temporary, database, CONTENT_NAMES, appData, failing);
      if thrown.Some? {
        result := Err(Threw(thrown.value));
      } else {
        result := Publish(codec, digest, fingerprint, id, createdAt, schemaVersion, tree, failing, temporary);
      }
      if result.Err? {
        entries := entries - {temporary};
      }
    }
  }

  /** The steps of a creation that read the live data. */
  function DataSteps(names: seq<string>, appData: map<string, Node>): set<Step> {
    {SnapshotStep} + set name | name in names && name in appData :: CopyStep(name)
  }

  lemma DataStepsOneMore(names: seq<string>, i: nat, appData: map<string, Node>)
    requires i < |names|
    ensures DataSteps(names[..i + 1], appData)
      == DataSteps(names[..i], appData) + if names[i] in appData then {CopyStep(names[i])} else {}
  {
    assert names[..i + 1] == names[..i] + [names[i]];
  }

  /** Readable under its identifier, matching its manifest, and holding the snapshot. */
  ghost predicate IsBackupOf(
      codec: Codec, digest: string -> string, fingerprint: Option<string>, id: string, root: Node, m: Manifest,
      snapshot: Node)
  {
    && ReadManifest(codec, id, Some(root)) == Some(m)
    && fingerprint == Some(m.keyFingerprint)
    && FilesMatch(digest, m.files, root)
    && SameListedFiles(snapshot, root)
  }

  /** No later step throws, a key is configured, and no finished backup has the same identifier. */
  predicate PublicationSucceeds(
      fingerprint: Option<string>, id: string, failing: set<Step>, existing: map<string, Node>)
  {
    && fingerprint.Some?
    && (id in existing ==> existing[id] == Dir(map[]))
    && SchemaVersionStep !in failing && WriteStep !in failing && RenameStep !in failing
  }

  /** The error names the step that threw, or what is in the way. */
  predicate RightlyRefused(
      refusal: Refusal, fingerprint: Option<string>, id: string, failing: set<Step>, existing: map<string, Node>)
  {
    match refusal
    case Threw(step) => step in failing
    case NoEncryptionKey => fingerprint.None?
    case NameTaken => id in existing && existing[id] != Dir(map[]) && RenameStep !in failing
    case InvalidId => false
  }

  lemma ManifestNameIsReserved()
    ensures MANIFEST_NAME != DATABASE_NAME && MANIFEST_NAME !in CONTENT_NAMES
  {
  }

  lemma DatabaseIsNoManifest()
    ensures DATABASE_NAME != MANIFEST_NAME
  {
    assert |DATABASE_NAME| == 20 && |MANIFEST_NAME| == 13;
  }

  lemma CompleteBackupVerifies(codec: Codec, digest: string -> string, id: string, tree: Node, m: Manifest)
    requires RoundTrips(codec) && IsBackupId(id)
    requires m.formatVersion == FORMAT_VERSION && m.id == id
    requires tree.Dir? && MANIFEST_NAME !in tree.entries && FilesMatch(digest, m.files, tree)
    ensures IsBackupOf(codec, digest, Some(m.keyFingerprint), id, WithManifest(tree, codec.encode(m)), m, tree)
  {
    var root := WithManifest(tree, codec.encode(m));
    ManifestIsNotListed(tree, codec.encode(m));
    assert forall path :: Listed(root, path) <==> Listed(tree, path);
  }

  // ---------- Files named like a manifest ----------

  /** The tree with the file `manifest.json` in one of its directories written anew. */
  function Nested(root: Node, name: string, content: string): Node
    requires root.Dir? && name in root.entries && root.entries[name].Dir?
  {
    Dir(root.entries[name := WithManifest(root.entries[name], content)])
  }

  lemma NestedIsNotListed(root: Node, name: string, content: string)
    requires root.Dir? && name in root.entries && root.entries[name].Dir? && name != MANIFEST_NAME
    requires MANIFEST_NAME in root.entries[name].entries ==> root.entries[name].entries[MANIFEST_NAME].File?
    ensures SameListedFiles(root, Nested(root, name, content))
  {
    var nested := Nested(root, name, content);
    ManifestIsNotListed(root.entries[name], content);
    forall path: Path | path != [] && path[|path| - 1] != MANIFEST_NAME
      ensures Lookup(root, path) == Lookup(nested, path)
    {
      if path[0] == name && |path| > 1 {
        assert path[1..][|path[1..]| - 1] == path[|path| - 1];
      }
    }
  }

  lemma LookupBelow(root: Node, name: string, file: string, content: string)
    requires root.Dir? && name in root.entries && root.entries[name].Dir?
    requires file in root.entries[name].entries && root.entries[name].entries[file] == File(content)
    ensures Lookup(root, [name, file]) == Some(content)
  {
    assert [name, file][1..] == [file] && [file][1..] == [];
    assert Lookup(root.entries[name], [file]) == Lookup(File(content), []);
  }

  /** Rewriting a nested `manifest.json` of a valid backup leaves it valid: verification does not cover that file. */
  lemma NestedManifestIsUnchecked(
      codec: Codec, digest: string -> string, fingerprint: Option<string>, id: string, root: Node, m: Manifest,
      snapshot: Node, name: string, content: string)
    requires IsBackupOf(codec, digest, fingerprint, id, root, m, snapshot)
    requires root.Dir? && name in root.entries && root.entries[name].Dir? && name != MANIFEST_NAME
    requires MANIFEST_NAME in root.entries[name].entries ==> root.entries[name].entries[MANIFEST_NAME].File?
    ensures IsBackupOf(codec, digest, fingerprint, id, Nested(root, name, content), m, snapshot)
    ensures Lookup(Nested(root, name, content), [name, MANIFEST_NAME]) == Some(content)
  {
    var nested := Nested(root, name, content);
    NestedIsNotListed(root, name, content);
    SameFilesMatch(digest, m.files, root, nested);
    LookupBelow(nested, name, MANIFEST_NAME, content);
  }

  /** A backup of an upload that happens to be called `manifest.json`. */
  method BackUpUpload(
      codec: Codec, digest: string -> string, key: string, id: string, database: string, content: string)
    returns (root: Node, m: Manifest, snapshot: Node)
    requires RoundTrips(codec) && IsBackupId(id)
    ensures IsBackupOf(codec, digest, Some(key), id, root, m, snapshot)
    ensures root.Dir? && CONTENT_NAMES[0] in root.entries && CONTENT_NAMES[0] != MANIFEST_NAME
    ensures root.entries[CONTENT_NAMES[0]] == Dir(map[MANIFEST_NAME := File(content)])
  {
    var store := new BackupStore();
    var appData := map[CONTENT_NAMES[0] := Dir(map[MANIFEST_NAME := File(content)])];
    var created := store.CreateBackup(codec, digest, Some(key), id, "", 1, database, appData, {});
    ManifestNameIsReserved();
    root, m, snapshot := store.entries[id], created.value, Snapshot(database, appData, CONTENT_NAMES);
  }

  /** That backup verifies although the upload is altered afterwards. */
  method AlterUnnoticed(
      codec: Codec, digest: string -> string, key: string, id: string, database: string, before: string, after: string)
    returns (root: Node, altered: Node, verification: Result<Verification, Refusal>)
    requires RoundTrips(codec) && IsBackupId(id)
    ensures Lookup(root, [CONTENT_NAMES[0], MANIFEST_NAME]) == Some(before)
    ensures Lookup(altered, [CONTENT_NAMES[0], MANIFEST_NAME]) == Some(after)
    ensures verification.Ok? && verification.value.valid && verification.value.errors == []
  {
    var m, snapshot;
    root, m, snapshot := BackUpUpload(codec, digest, key, id, database, before);
    var name := CONTENT_NAMES[0];
    LookupBelow(root, name, MANIFEST_NAME, before);
    altered := Nested(root, name, after);
    NestedManifestIsUnchecked(codec, digest, Some(key), id, root, m, snapshot, name, after);
    verification := VerifyBackup(codec, digest, Some(key), id, Some(altered));
  }
}
