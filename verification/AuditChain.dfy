/**
 The append-only audit table: its hash chain, the checker, and concurrent writers.

 The digest of the canonical JSON text of an entry is a function parameter `hash`.
 Results that need SHA-256 to be collision-free say so.
 */
module AuditChain {
  import opened Wrappers
  import opened TransactionQueue

  datatype Fields = Fields(
    timestamp: int,
    actionType: string,
    details: Option<string>,
    requestId: Option<string>,
    actorUserId: Option<int>,
    actorUsername: Option<string>,
    actorRole: Option<string>,
    sourceIp: Option<string>,
    assetId: Option<int>,
    sessionId: Option<string>,
    result: string)

  datatype Row = Row(id: int, fields: Fields, previousHash: Option<string>, entryHash: Option<string>)

  type Hash = (Option<string>, Fields) -> string

  /** Rows in order of id. */
  type Table = seq<Row>

  /** A hexadecimal digest is never the empty string. */
  ghost predicate NonEmptyHash(hash: Hash) {
    forall previous, fields :: hash(previous, fields) != ""
  }

  ghost predicate CollisionFree(hash: Hash) {
    forall p, f, p', f' :: hash(p, f) == hash(p', f') ==> p == p' && f == f'
  }

  /** Rows written before the chain existed have no entry hash; an empty one counts as missing. */
  predicate Signed(row: Row) {
    row.entryHash.Some? && row.entryHash.value != ""
  }

  /** The link a signed row at position i must carry. */
  function ExpectedPrevious(table: Table, i: nat): Option<string>
    requires i < |table|
  {
    if i > 0 && Signed(table[i - 1]) then table[i - 1].entryHash else None
  }

  predicate LinkedAt(hash: Hash, table: Table, i: nat)
    requires i < |table|
  {
    && table[i].previousHash == ExpectedPrevious(table, i)
    && table[i].entryHash == Some(hash(table[i].previousHash, table[i].fields))
  }

  /** A legacy prefix, then signed rows, each linked to the one before it. */
  ghost predicate ChainValid(hash: Hash, table: Table) {
    && (forall i, j :: 0 <= i < j < |table| && Signed(table[i]) ==> Signed(table[j]))
    && (forall i :: 0 <= i < |table| && Signed(table[i]) ==> LinkedAt(hash, table, i))
  }

  // ---------- The checker ----------

  datatype Fault = UnsignedAfterChain(id: int) | PreviousMismatch(id: int) | EntryMismatch(id: int)

  datatype Verification = Verification(checkedEntries: nat, legacyEntries: nat, error: Option<Fault>)

  ghost predicate FaultAt(hash: Hash, table: Table, i: nat, fault: Fault)
    requires i < |table|
  {
    match fault
    case UnsignedAfterChain(id) => id == table[i].id && !Signed(table[i]) && i > 0 && Signed(table[i - 1])
    case PreviousMismatch(id) =>
      id == table[i].id && Signed(table[i]) && table[i].previousHash != ExpectedPrevious(table, i)
    case EntryMismatch(id) =>
      && id == table[i].id && Signed(table[i]) && table[i].previousHash == ExpectedPrevious(table, i)
      && table[i].entryHash != Some(hash(table[i].previousHash, table[i].fields))
  }

  /** Accepts exactly the valid chains, counts both kinds of row, and names the first offending row. */
  method VerifyAuditLogChain(hash: Hash, table: Table) returns (v: Verification)
    ensures v.error.None? <==> ChainValid(hash, table)
    ensures v.error.None? ==>
      && v.legacyEntries + v.checkedEntries == |table|
      && (forall i :: 0 <= i < |table| ==> (Signed(table[i]) <==> i >= v.legacyEntries))
    ensures v.error.Some? ==> exists i ::
      && 0 <= i < |table| && FaultAt(hash, table, i, v.error.value) && ChainValid(hash, table[..i])
      && v.legacyEntries <= i && (forall k :: 0 <= k < i ==> (Signed(table[k]) <==> k >= v.legacyEntries))
      && v.checkedEntries == i - v.legacyEntries + (if v.error.value.UnsignedAfterChain? then 0 else 1)
  {
    var legacyEntries, checkedEntries := 0, 0;
    var expectedPreviousHash: Option<string> := None;
    var signedChainStarted := false;
    for i := 0 to |table|
      invariant legacyEntries + checkedEntries == i
      invariant signedChainStarted <==> checkedEntries > 0
      invariant forall k :: 0 <= k < i ==> (Signed(table[k]) <==> k >= legacyEntries)
      invariant forall k :: legacyEntries <= k < i ==> LinkedAt(hash, table, k)
      invariant expectedPreviousHash == if signedChainStarted then table[i - 1].entryHash else None
    {
      assert ChainValid(hash, table[..i]) by {
        forall k | legacyEntries <= k < i ensures LinkedAt(hash, table[..i], k) {
          assert LinkedAt(hash, table, k);
        }
      }
      var row := table[i];
      if !Signed(row) {
        if signedChainStarted {
          return Verification(checkedEntries, legacyEntries, Some(UnsignedAfterChain(row.id)));
        }
        legacyEntries := legacyEntries + 1;
      } else {
        signedChainStarted := true;
        checkedEntries := checkedEntries + 1;
        if row.previousHash != expectedPreviousHash {
          assert FaultAt(hash, table, i, PreviousMismatch(row.id));
          return Verification(checkedEntries, legacyEntries, Some(PreviousMismatch(row.id)));
        }
        var expectedEntryHash := hash(row.previousHash, row.fields);
        if row.entryHash != Some(expectedEntryHash) {
          assert FaultAt(hash, table, i, EntryMismatch(row.id));
          return Verification(checkedEntries, legacyEntries, Some(EntryMismatch(row.id)));
        }
        expectedPreviousHash := row.entryHash;
      }
    }
    return Verification(checkedEntries, legacyEntries, None);
  }

  // ---------- One writer ----------

  /** The entry hash of the newest row that has one, an empty string included. */
  function LatestHash(table: Table): Option<string> {
    if table == [] then None
    else if table[|table| - 1].entryHash.Some? then table[|table| - 1].entryHash
    else LatestHash(table[..|table| - 1])
  }

  function NextId(table: Table): int {
    if table == [] then 1 else table[|table| - 1].id + 1
  }

  function SignedRow(hash: Hash, id: int, previous: Option<string>, fields: Fields): Row {
    Row(id, fields, previous, Some(hash(previous, fields)))
  }

  /** One undisturbed `addLog`. */
  function AddLog(hash: Hash, table: Table, fields: Fields): Table {
    table + [SignedRow(hash, NextId(table), LatestHash(table), fields)]
  }

  /** The latest hash is a genuine link: a signed row exists, or no row carries an empty hash. */
  ghost predicate Appendable(table: Table) {
    (exists i :: 0 <= i < |table| && Signed(table[i])) || forall i :: 0 <= i < |table| ==> table[i].entryHash.None?
  }

  lemma {:induction false} LatestHashOfLegacy(table: Table)
    requires forall i :: 0 <= i < |table| ==> table[i].entryHash.None?
    ensures LatestHash(table) == None
  {
    if table != [] { LatestHashOfLegacy(table[..|table| - 1]); }
  }

  lemma {:induction false} LatestHashOfEmptyStrings(table: Table)
    requires forall i :: 0 <= i < |table| ==> !Signed(table[i])
    requires exists i :: 0 <= i < |table| && table[i].entryHash.Some?
    ensures LatestHash(table) == Some("")
  {
    if table[|table| - 1].entryHash.None? {
      var i :| 0 <= i < |table| && table[i].entryHash.Some?;
      assert table[..|table| - 1][i].entryHash.Some?;
      LatestHashOfEmptyStrings(table[..|table| - 1]);
    }
  }

  /** A signed row extends a valid chain exactly when its link and its hash are right. */
  lemma SignedRowExtends(hash: Hash, table: Table, row: Row)
    requires Signed(row) && ChainValid(hash, table)
    ensures ChainValid(hash, table + [row]) <==> LinkedAt(hash, table + [row], |table|)
  {
  }

  /** Appending keeps a valid chain valid if and only if the latest hash it reads is a genuine link. */
  lemma AddLogKeepsChain(hash: Hash, table: Table, fields: Fields)
    requires NonEmptyHash(hash) && ChainValid(hash, table)
    ensures ChainValid(hash, AddLog(hash, table, fields)) <==> Appendable(table)
    ensures Appendable(AddLog(hash, table, fields))
  {
    var n := |table|;
    var row := SignedRow(hash, NextId(table), LatestHash(table), fields);
    SignedRowExtends(hash, table, row);
    assert Signed(AddLog(hash, table, fields)[n]);
    if i :| 0 <= i < n && Signed(table[i]) {
      assert Signed(table[n - 1]);
    } else if Appendable(table) {
      LatestHashOfLegacy(table);
    } else {
      LatestHashOfEmptyStrings(table);
    }
  }

  /** Rows are numbered from 1 without gaps, and the new row has the given fields and the latest hash. */
  lemma AddLogNumbersRows(hash: Hash, table: Table, fields: Fields)
    requires forall i :: 0 <= i < |table| ==> table[i].id == i + 1
    ensures var after := AddLog(hash, table, fields);
            && |after| == |table| + 1 && after[..|table|] == table
            && (forall i :: 0 <= i < |after| ==> after[i].id == i + 1)
            && after[|table|].fields == fields && after[|table|].previousHash == LatestHash(table)
  {
  }

  /** A table the checker accepts whose chain the next `addLog` breaks: its only hash is an empty string. */
  lemma EmptyLegacyHashBreaksNextAppend(hash: Hash, fields: Fields)
    requires NonEmptyHash(hash)
    ensures var table := [Row(1, fields, None, Some(""))];
            ChainValid(hash, table) && !ChainValid(hash, AddLog(hash, table, fields))
  {
    var table := [Row(1, fields, None, Some(""))];
    assert !Appendable(table) by { assert table[0].entryHash.Some?; }
    AddLogKeepsChain(hash, table, fields);
  }

  /** Two writers that read the same latest hash fork the chain: serialisation is what the result below rests on. */
  lemma SameLatestHashForks(hash: Hash, table: Table, first: Fields, second: Fields)
    requires NonEmptyHash(hash) && ChainValid(hash, table) && Appendable(table)
    ensures var one := SignedRow(hash, NextId(table), LatestHash(table), first);
            var two := SignedRow(hash, NextId(table) + 1, LatestHash(table), second);
            ChainValid(hash, table + [one, two]) <==> LatestHash(table) == one.entryHash
  {
    var one := SignedRow(hash, NextId(table), LatestHash(table), first);
    var two := SignedRow(hash, NextId(table) + 1, LatestHash(table), second);
    AddLogKeepsChain(hash, table, first);
    SignedRowExtends(hash, table + [one], two);
    assert table + [one] + [two] == table + [one, two];
  }

  // ---------- Concurrent writers, among other transactions of the connection ----------

  /** What the connection holds: the audit table, and everything else. */
  datatype Contents<R> = Contents(audit: Table, rest: R)

  /** The local variables of a callback: those of `addLog`, the entry and the latest hash once read, or others. */
  datatype Local<X> = Append(fields: Fields, latest: Option<string>) | Other(variables: X)

  /** The two statements of the `addLog` callback. */
  function AddLogStatements<X, R>(hash: Hash): seq<Statement<Local<X>, Contents<R>>> {
    [ (local: Local<X>, db: Contents<R>) =>
        if local.Append? then Some((local.(latest := LatestHash(db.audit)), db)) else None,
      (local: Local<X>, db: Contents<R>) =>
        if local.Append? then
          Some((local, db.(audit := db.audit + [SignedRow(hash, NextId(db.audit), local.latest, local.fields)])))
        else None ]
  }

  ghost predicate IsAddLog<X(!new), R(!new)>(hash: Hash, c: Caller<Local<X>, Contents<R>>) {
    c.statements == AddLogStatements(hash) && c.initial.Append?
  }

  /** No statement of the callback changes the audit table. */
  ghost predicate LeavesAuditAlone<X(!new), R(!new)>(statements: seq<Statement<Local<X>, Contents<R>>>) {
    forall k :: 0 <= k < |statements| ==> KeepsAudit(statements[k])
  }

  ghost predicate KeepsAudit<X(!new), R(!new)>(statement: Statement<Local<X>, Contents<R>>) {
    forall local, db :: statement(local, db).Some? ==> statement(local, db).value.1.audit == db.audit
  }

  lemma AddLogCallback<X, R>(hash: Hash, local: Local<X>, db: Contents<R>)
    requires local.Append?
    ensures var ran := Execute(AddLogStatements(hash), local, db);
            ran.Some? && ran.value.1 == db.(audit := AddLog(hash, db.audit, local.fields))
  {
  }

  lemma {:induction false} OtherCallback<X(!new), R(!new)>(
      statements: seq<Statement<Local<X>, Contents<R>>>, local: Local<X>, db: Contents<R>)
    requires LeavesAuditAlone(statements)
    ensures var ran := Execute(statements, local, db); ran.Some? ==> ran.value.1.audit == db.audit
  {
    if statements != [] {
      var front := statements[..|statements| - 1];
      assert forall k :: 0 <= k < |front| ==> front[k] == statements[k];
      OtherCallback(front, local, db);
    }
  }

  /** Every caller is an `addLog`, or leaves the audit table alone. */
  ghost predicate AuditIsAppendOnly<X(!new), R(!new)>(hash: Hash, callers: seq<Caller<Local<X>, Contents<R>>>) {
    forall i :: 0 <= i < |callers| ==> IsAddLog(hash, callers[i]) || LeavesAuditAlone(callers[i].statements)
  }

  /** The entries of the `addLog` calls that reported success, in call order. */
  ghost function Written<X(!new), R(!new)>(hash: Hash, callers: seq<Caller<Local<X>, Contents<R>>>): seq<Fields> {
    if callers == [] then [] else
      var last := callers[|callers| - 1];
      Written(hash, callers[..|callers| - 1])
        + if Succeeded(last) && IsAddLog(hash, last) then [last.initial.fields] else []
  }

  /** `after` is `before` and one signed row for each entry, in order. */
  ghost predicate Appended(hash: Hash, before: Table, after: Table, entries: seq<Fields>) {
    && |after| == |before| + |entries|
    && after[..|before|] == before
    && forall i :: |before| <= i < |after| ==> Signed(after[i]) && after[i].fields == entries[i - |before|]
  }

  lemma AppendedOneMore(hash: Hash, table: Table, before: Table, entries: seq<Fields>, fields: Fields)
    requires NonEmptyHash(hash) && Appended(hash, table, before, entries)
    ensures Appended(hash, table, AddLog(hash, before, fields), entries + [fields])
  {
  }

  /** What a run of successful appends leaves: a valid table that can be appended to again. */
  ghost predicate Extends(hash: Hash, table: Table, after: Table, entries: seq<Fields>) {
    ChainValid(hash, after) && Appendable(after) && Appended(hash, table, after, entries)
  }

  lemma ExtendsOneMore(hash: Hash, table: Table, before: Table, entries: seq<Fields>, fields: Fields)
    requires NonEmptyHash(hash) && Extends(hash, table, before, entries)
    ensures Extends(hash, table, AddLog(hash, before, fields), entries + [fields])
  {
    AddLogKeepsChain(hash, before, fields);
    AppendedOneMore(hash, table, before, entries, fields);
  }

  lemma {:induction false} ReplayAppends<X(!new), R(!new)>(
      hash: Hash, before: Contents<R>, callers: seq<Caller<Local<X>, Contents<R>>>)
    requires NonEmptyHash(hash) && ChainValid(hash, before.audit) && Appendable(before.audit)
    requires AuditIsAppendOnly(hash, callers)
    ensures Extends(hash, before.audit, Replay(before, callers).audit, Written(hash, callers))
  {
    if callers != [] {
      var earlier, last := callers[..|callers| - 1], callers[|callers| - 1];
      ReplayAppends(hash, before, earlier);
      if Succeeded(last) {
        CallbackExtends(hash, before.audit, Replay(before, earlier), last, Written(hash, earlier));
      }
    }
  }

  /** One whole callback appends its entry, or nothing. */
  lemma CallbackExtends<X(!new), R(!new)>(
      hash: Hash, table: Table, sofar: Contents<R>, c: Caller<Local<X>, Contents<R>>, entries: seq<Fields>)
    requires NonEmptyHash(hash) && Extends(hash, table, sofar.audit, entries)
    requires IsAddLog(hash, c) || LeavesAuditAlone(c.statements)
    ensures var ran := Execute(c.statements, c.initial, sofar);
            Extends(hash, table, if ran.Some? then ran.value.1.audit else sofar.audit,
                    entries + if IsAddLog(hash, c) then [c.initial.fields] else [])
  {
    if IsAddLog(hash, c) {
      AddLogCallback(hash, c.initial, sofar);
      ExtendsOneMore(hash, table, sofar.audit, entries, c.initial.fields);
    } else {
      OtherCallback(c.statements, c.initial, sofar);
      assert entries + [] == entries;
    }
  }

  /**
   Every interleaving of any number of `addLog` calls with each other and with transactions that leave
   the audit table alone, some of them failing at any statement, keeps the committed table valid and
   appends exactly one signed row per successful `addLog`, in call order.
   */
  lemma ConcurrentAddLogs<X(!new), R(!new)>(
      hash: Hash, before: Contents<R>, events: seq<Event<Local<X>, Contents<R>>>)
    requires NonEmptyHash(hash) && ChainValid(hash, before.audit) && Appendable(before.audit)
    requires IsRun(Init(before), events)
    requires AuditIsAppendOnly(hash, After(Init(before), events).callers)
    ensures var s := After(Init(before), events);
            && ChainValid(hash, s.Committed().audit) && Appendable(s.Committed().audit)
            && Appended(hash, before.audit, s.Committed().audit, Written(hash, s.callers))
  {
    var s := After(Init(before), events);
    CommittedIsSerial(before, events);
    ReplayAppends(hash, before, s.callers);
  }

  // ---------- What the newest hash commits to ----------

  function SignedRows(table: Table): seq<Row> {
    if table == [] then [] else
      SignedRows(table[..|table| - 1]) + if Signed(table[|table| - 1]) then [table[|table| - 1]] else []
  }

  /** The entry hash of the newest signed row. */
  function Head(table: Table): Option<string> {
    var rows := SignedRows(table);
    if rows == [] then None else rows[|rows| - 1].entryHash
  }

  /** Everything about the rows except their ids. */
  ghost predicate SameEntries(a: seq<Row>, b: seq<Row>) {
    && |a| == |b|
    && forall i :: 0 <= i < |a| ==> a[i].(id := 0) == b[i].(id := 0)
  }

  /** The signed rows of a valid table on their own: a chain from an unlinked first row. */
  ghost predicate IsChain(hash: Hash, rows: seq<Row>) {
    forall i :: 0 <= i < |rows| ==> IsSignedAt(hash, rows, i)
  }

  lemma {:induction false} SignedRowsAreAChain(hash: Hash, table: Table)
    requires ChainValid(hash, table)
    ensures IsChain(hash, SignedRows(table))
    ensures table != [] && Signed(table[|table| - 1]) ==>
      SignedRows(table) != [] && SignedRows(table)[|SignedRows(table)| - 1] == table[|table| - 1]
    ensures table != [] && !Signed(table[|table| - 1]) ==> SignedRows(table) == []
  {
    if table != [] {
      var m := |table| - 1;
      var shorter := table[..m];
      forall i | 0 <= i < m && Signed(shorter[i]) ensures LinkedAt(hash, shorter, i) {
        assert LinkedAt(hash, table, i);
      }
      SignedRowsAreAChain(hash, shorter);
      if Signed(table[m]) {
        assert LinkedAt(hash, table, m);
        ChainOneMore(hash, SignedRows(shorter), table[m]);
      }
    }
  }

  lemma ChainOneMore(hash: Hash, rows: seq<Row>, row: Row)
    requires IsChain(hash, rows) && Signed(row) && row.entryHash == Some(hash(row.previousHash, row.fields))
    requires row.previousHash == if rows == [] then None else rows[|rows| - 1].entryHash
    ensures IsChain(hash, rows + [row])
  {
    var longer := rows + [row];
    assert rows != [] ==> IsSignedAt(hash, rows, |rows| - 1);
    forall i | 0 <= i < |longer| ensures IsSignedAt(hash, longer, i) {
      if i < |rows| { assert IsSignedAt(hash, rows, i); }
    }
  }

  lemma ChainPrefix(hash: Hash, rows: seq<Row>, n: nat)
    requires IsChain(hash, rows) && n <= |rows|
    ensures IsChain(hash, rows[..n])
  {
    forall i | 0 <= i < n ensures IsSignedAt(hash, rows[..n], i) {
      assert IsSignedAt(hash, rows, i);
      if i > 0 { assert IsSignedAt(hash, rows, i - 1); }
    }
  }

  /** Equal newest hashes: the rows are equal, and so are the newest hashes of what comes before them. */
  lemma SameHeadSameRow(hash: Hash, a: seq<Row>, b: seq<Row>)
    requires CollisionFree(hash)
    requires |a| > 0 && |b| > 0 && IsSignedAt(hash, a, |a| - 1) && IsSignedAt(hash, b, |b| - 1)
    requires |a| > 1 ==> Signed(a[|a| - 2])
    requires |b| > 1 ==> Signed(b[|b| - 2])
    requires a[|a| - 1].entryHash == b[|b| - 1].entryHash
    ensures a[|a| - 1].(id := 0) == b[|b| - 1].(id := 0)
    ensures |a| > 1 <==> |b| > 1
    ensures |a| > 1 ==> a[|a| - 2].entryHash == b[|b| - 2].entryHash
  {
  }

  predicate IsSignedAt(hash: Hash, table: Table, i: nat)
    requires i < |table|
  {
    Signed(table[i]) && LinkedAt(hash, table, i)
  }

  lemma {:induction false} SameHeadSameChain(hash: Hash, a: seq<Row>, b: seq<Row>)
    requires CollisionFree(hash)
    requires IsChain(hash, a) && IsChain(hash, b)
    requires |a| > 0 && |b| > 0 && a[|a| - 1].entryHash == b[|b| - 1].entryHash
    ensures SameEntries(a, b)
    decreases |a|
  {
    var m, n := |a| - 1, |b| - 1;
    var shortA, shortB := a[..m], b[..n];
    assert IsSignedAt(hash, a, m) && IsSignedAt(hash, b, n);
    assert m > 0 ==> IsSignedAt(hash, a, m - 1);
    assert n > 0 ==> IsSignedAt(hash, b, n - 1);
    SameHeadSameRow(hash, a, b);
    if m > 0 {
      ChainPrefix(hash, a, m);
      ChainPrefix(hash, b, n);
      SameHeadSameChain(hash, shortA, shortB);
    }
    SameEntriesOneMore(shortA, shortB, a, b);
  }

  lemma SameEntriesOneMore(shortA: seq<Row>, shortB: seq<Row>, a: seq<Row>, b: seq<Row>)
    requires SameEntries(shortA, shortB)
    requires |a| > 0 && |b| > 0 && shortA == a[..|a| - 1] && shortB == b[..|b| - 1]
    requires a[|a| - 1].(id := 0) == b[|b| - 1].(id := 0)
    ensures SameEntries(a, b)
  {
  }

  /**
   Two tables that verify and share a newest signed hash have the same signed rows in every hashed
   field; so altering, inserting, reordering or dropping a signed row under an unchanged head is reported.
   */
  lemma HeadCommitsToSignedRows(hash: Hash, a: Table, b: Table)
    requires CollisionFree(hash)
    requires ChainValid(hash, a) && ChainValid(hash, b)
    requires Head(a) == Head(b)
    ensures SameEntries(SignedRows(a), SignedRows(b))
  {
    SignedRowsAreAChain(hash, a);
    SignedRowsAreAChain(hash, b);
    if SignedRows(a) != [] && SignedRows(b) != [] {
      SameHeadSameChain(hash, SignedRows(a), SignedRows(b));
    }
  }
}
