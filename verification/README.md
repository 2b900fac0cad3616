# Fantetic Terminal: verified models

A Dafny model of the stateful protocols of Fantetic Terminal, with proofs of what they keep. Every
module models one component; code that changes state step by step is a class or a method proved
against a specification function, and what the component is for is proved about that function, over
all inputs, all runs or all reachable states.

| module | component |
|---|---|
| `TransactionQueue` | the promise-chain lock of `withTransaction`, as a state machine over every interleaving, and the code of one call |
| `AuditChain` | the audit hash chain: its checker, its appends under the lock, and what a head commits to |
| `FileTree`, `Backup` | directory trees, backup creation and verification |
| `Restore` | the staged restore: undo, crash recovery, and the round trip to the snapshot |
| `AccessTables`, `UserDeletion`, `AccessControl`, `AccessDatabase` | the access-control tables, the deletion transaction, the guarded application calls and runs of them |
| `AdministratorRaces` | updates and deletions of users as they interleave between guard and write |
| `StaleUpdates` | what updates of users that interleave do to each other, and to administrators |
| `GroupRaces` | membership changes of a group as they interleave between guard and transaction |
| `ConnectionAccess` | the connection permission resolver, its single, batch and list forms |
| `LockClosure` | the runtime dependency closure of the lock file |
| `LogLines` | the chunked line splitter of the supervisor |
| `EnvDocument` | the `.env` rewriter |
| `GatewaySecret` | the reader of the gateway secret in that file |
| `LocaleRuntime`, `LocaleSwitch`, `LocaleSetting` | the latest-request-wins locale switcher and the queue of saved changes |
| `ReleaseManifest`, `Promotion` | the release manifest and its promotion to registry tags |
| `ReplayGuard` | the nonce replay guard |
| `WorkerPool` | the bounded worker pool |
| `Wrappers`, `Collections`, `Text` | shared values, sequence and set facts, and the string operations of the JavaScript runtime |

Hashes, JSON encodings, clocks, tokens, generated identifiers and the failures of the database, the
file system, the registry and the message loader are parameters, and the results hold for all of
them. Assumptions about a parameter (a digest without collisions, an encoding that decodes) stand in
the `requires` of the lemmas that need them and nowhere else.

## What the code does not do

Where a property one would expect is false of the code, the exact condition is proved.

- The checker takes an audit row with an empty `entry_hash` for a legacy row, while the next append
  takes that empty string for the latest hash. An append keeps a valid chain valid if and only if a
  signed row exists or no row carries an empty hash (`AddLogKeepsChain`).
- A transaction stays open with nobody inside if and only if a ROLLBACK was refused while it was open
  (`JammedMeansRefusedRollback`, reachable by `JamIsReachable`). Turns are still passed on, but then every
  call fails and the contents never change (`RefusedRollbackJams`); otherwise a new call can still
  succeed (`NewCallCanSucceed`).
- On an upgraded database the actor of an audit row is a foreign key that a deletion would have to null,
  which the append-only trigger aborts. A deletion past its guards is refused if and only if an audit row
  names the user through that key (`GuardedDeletionSucceeds`, with `AuditedUserCannotBeDeleted`); fresh
  databases do not declare it.
- The guards that keep the last active super administrator are read outside any transaction, so two who
  disable each other both get through (`TwoAdministratorsRemoveEachOther`). Calls under way can remove
  them all if and only if they have no refuge (`LosableExactlyWithoutRefuge`, where deletions are
  refused as the transaction is: for an audit row, or for a missing receiver).
- An update of a user writes back the role or status it has read. Over a run the users are those of whole
  updates one after another if and only if no write is stale, that is, no column it was not asked to change
  differs from what was read (`AtomicExactlyWhenNoneStale`, with `StatusChangeTakesBackDemotion`).
- Its guards have seen the target earlier still, so a plain administrator can change an administrator. An
  update made for anybody but a super administrator does so if and only if the target was promoted after its guards and the write changes
  the row, or the promotion was read and has been taken back since (`PlainUpdateTouches`,
  `SuperAdminsAloneExactly`, with `PlainAdministratorDisablesAnother`).
- The guards of membership changes are read before their transaction as well. A write that changes a leading
  role is by somebody who may not do it if and only if the subject owned the group at the guards and does
  not any more, or was and is no more than a group administrator while the target did not lead the group
  at the guards and now does (`IntrudesExactlyWhenOvertaken`, with `DemotedOwnerAppoints` and
  `AdministratorRemovesNewOwner`); an owner remains nevertheless (`OwnerRemains`).
- Backup verification skips files named `manifest.json` at every depth, so a user file of that name
  may change unnoticed (`NestedManifestIsUnchecked`, `AlterUnnoticed`).
- When moving a replacement into place fails, the old target stays at its rollback path: the catch
  block puts everything back except that target, if it existed (`Restore.Undone`, `LoseTarget`).
- When removing a side file fails, the old database is put back without the side files removed before, so
  what had been committed to its write-ahead file only is lost (`LoseWriteAheadFile`).
- The connection list shows every connection to an auditor as viewable, while the single check also
  honours ownership and grants: the two agree if and only if the auditor may not connect
  (`ListedPermission`, `OwningAuditorIsShownLess`).
- A persisted gateway secret is read back if and only if it has at least 32 characters, no surrounding
  white space and none of CR, LF, U+2028 and U+2029, and no earlier line sets its key right after one of
  these (`PersistedSecretIsRead`, `ShadowExactly`; or sets it to the same value): the search takes each of
  them for a line break, the rewriter does not.

## Model

| member | source | states |
|---|---|---|
| TransactionQueue.TurnsAreExclusiveAndFifo | packages/backend/src/database/connection.ts:101-128 | In every reachable state at most one call holds the turn, and nobody has got past waiting before every earlier call is over |
| TransactionQueue.TailEntryMeansUnfinished | packages/backend/src/database/connection.ts:101-127 | The tail-map entry exists exactly while some call is unfinished |
| TransactionQueue.CommittedIsSerial | packages/backend/src/database/connection.ts:107-128 | However calls interleave and fail, the committed contents are those of running the successful callbacks whole, one after another in call order |
| TransactionQueue.StepKeeps | packages/backend/src/database/connection.ts:101-128 | Every event (call, BEGIN, statement, COMMIT, ROLLBACK or their failures, finally) keeps order, tail entry and serial contents |
| TransactionQueue.RunKeeps | packages/backend/src/database/connection.ts:101-128 | The same over every run |
| TransactionQueue.NeverStuck | packages/backend/src/database/connection.ts:104-128 | While a call is unfinished some step other than a new call is possible, whatever failed before |
| TransactionQueue.CallersTakeBoundedSteps | packages/backend/src/database/connection.ts:107-128 | Without new calls only a bounded number of steps is left, so every call passes its turn on |
| TransactionQueue.RefusedRollbackJams | packages/backend/src/database/connection.ts:115-124 | With a transaction open and nobody inside, no later call succeeds and the contents never change |
| TransactionQueue.JammingStep | packages/backend/src/database/connection.ts:109-124 | The one step that leaves the transaction open with nobody inside is a refused ROLLBACK of an open transaction |
| TransactionQueue.JammedMeansRefusedRollback | packages/backend/src/database/connection.ts:107-128 | After every run the transaction is open with nobody inside if and only if some ROLLBACK was refused while it was open |
| TransactionQueue.JamIsReachable | packages/backend/src/database/connection.ts:112-122 | From any idle connection a call whose COMMIT and ROLLBACK are refused leads there |
| TransactionQueue.NewCallCanSucceed | packages/backend/src/database/connection.ts:107-128 | Otherwise the calls under way can end without committing anything and any new callback that does not throw can be committed |
| TransactionQueue.Connection.Enter | packages/backend/src/database/connection.ts:101-105 | The synchronous part is the machine's call event |
| TransactionQueue.Connection.RunStatements | packages/backend/src/database/connection.ts:110-111 | The callback runs its statements in order up to the first that throws, and commits nothing; it throws exactly when a statement is refused or throws |
| TransactionQueue.Connection.Attempt | packages/backend/src/database/connection.ts:108-124 | A call succeeds exactly when no transaction is open before, BEGIN and COMMIT are not refused and no statement is refused or throws; it then publishes exactly its whole callback, a failed one nothing; its transaction stays open only after a refused ROLLBACK |
| TransactionQueue.Connection.RunTurn | packages/backend/src/database/connection.ts:107-128 | A turn is a run of the machine, ends with the call done and its tail entry gone, and succeeds and publishes under exactly these conditions |
| AuditChain.VerifyAuditLogChain | packages/backend/src/audit/audit.repository.ts:76-117 | Accepts exactly the valid chains and otherwise names the first offending row with its fault; up to there it counts the legacy rows and the signed rows exactly |
| AuditChain.AddLogKeepsChain | packages/backend/src/audit/audit.repository.ts:143-148 | Appending keeps a valid chain valid if and only if the latest hash it reads is a genuine link; afterwards it always is |
| AuditChain.AddLogNumbersRows | packages/backend/src/audit/audit.repository.ts:143-148 | The new row comes last, has the next number, the given fields and the latest hash, and the earlier rows stay |
| AuditChain.EmptyLegacyHashBreaksNextAppend | packages/backend/src/audit/audit.repository.ts:89-98 | A table the checker accepts whose chain the next append breaks |
| AuditChain.SameLatestHashForks | packages/backend/src/audit/audit.repository.ts:176-200 | Two rows written after reading the same latest hash form a valid chain only if the hash repeats itself |
| AuditChain.AddLogCallback | packages/backend/src/audit/audit.repository.ts:176-201 | The callback's two statements amount to one undisturbed append to the audit table and leave the rest of the database alone |
| AuditChain.ReplayAppends | packages/backend/src/audit/audit.repository.ts:176-201 | Replaying any such callers appends one signed row per successful `addLog` and stays valid |
| AuditChain.ConcurrentAddLogs | packages/backend/src/audit/audit.repository.ts:159-201 | Every interleaving of any number of calls, with each other and with transactions that leave the audit table alone, some failing, keeps the committed table valid and appends exactly one signed row per successful call, in call order |
| AuditChain.SignedRowsAreAChain | packages/backend/src/audit/audit.repository.ts:88-115 | The signed rows of a valid table form a chain from an unlinked first row |
| AuditChain.HeadCommitsToSignedRows | packages/backend/src/audit/audit.repository.ts:27-43 | With a collision-free hash, two valid tables with the same head have the same signed rows in every hashed field |
| FileTree.ListFiles | packages/backend/src/backup/backup.service.ts:74-85 | Lists every file not named `manifest.json`, at any depth, exactly once, in the order of the paths as strings |
| Backup.VerifyBackup | packages/backend/src/backup/backup.service.ts:123-144 | Valid exactly when the fingerprint matches and the described files are the listed ones; the errors are exactly the disagreements |
| Backup.ReadableManifest | packages/backend/src/backup/backup.service.ts:114-121 | A manifest is read exactly from a file `manifest.json` that decodes to one of format 1 which names this backup |
| Backup.BackupIdPattern | packages/backend/src/backup/backup.service.ts:27 | An identifier is eight digits, `T`, six digits, `-` and eight lower-case hexadecimal digits |
| Backup.MatchingMeansSameContents | packages/backend/src/backup/backup.service.ts:130-142 | With a collision-free digest a directory matches records of a snapshot if and only if it holds the same listed files |
| Backup.NestedManifestIsUnchecked | packages/backend/src/backup/backup.service.ts:80-81 | Rewriting a nested file named `manifest.json` of a valid backup leaves it valid |
| Backup.AlterUnnoticed | packages/backend/src/backup/backup.service.ts:123-181 | A created backup of an upload of that name still verifies, without errors, after the upload has been altered |
| Backup.BackupStore.DescribeFiles | packages/backend/src/backup/backup.service.ts:158-165 | The records are exactly those of the listed files |
| Backup.BackupStore.CopyData | packages/backend/src/backup/backup.service.ts:151-157 | The copy is the snapshot exactly when no step throws, and only the temporary name is touched |
| Backup.BackupStore.Publish | packages/backend/src/backup/backup.service.ts:166-176 | What is renamed into place matches its manifest and holds the copied tree; an error names the step that threw or what is in the way |
| Backup.BackupStore.CreateBackup | packages/backend/src/backup/backup.service.ts:146-181 | Succeeds exactly when no step throws; then the only new entry verifies and holds the snapshot, otherwise nothing has changed and the error names a step that threw or what is in the way |
| Backup.CompleteBackupVerifies | packages/backend/src/backup/backup.service.ts:166-175 | A tree with the manifest of its own files beside it verifies |
| Restore.LooksIsSafe | packages/backend/src/backup/backup.service.ts:269-283 | At every stage of the swaps the request, the backups and every original target (at its place or its rollback path) are kept |
| Restore.DataDirectory.SwapOne | packages/backend/src/backup/backup.service.ts:270-281 | One turn of the loop swaps exactly one target, and a failure stops in a known state; every state on the way is safe |
| Restore.DataDirectory.SwapAll | packages/backend/src/backup/backup.service.ts:270-282 | The loop swaps the targets in order up to the first failure, which is exactly the one that the first failing operation calls for |
| Restore.DataDirectory.UndoOne | packages/backend/src/backup/backup.service.ts:288-291 | Undoing one swap leaves the directory as before that swap |
| Restore.DataDirectory.Undo | packages/backend/src/backup/backup.service.ts:288-291 | Undoing all finished swaps leaves no target swapped |
| Restore.DataDirectory.Commit | packages/backend/src/backup/backup.service.ts:283-285 | Side files, rollback paths and, last, the request go; the originals are kept until the cleanup starts, and from then on every replacement is in place |
| Restore.DataDirectory.Perform | packages/backend/src/backup/backup.service.ts:269-293 | Success is the finished restore; failure keeps request and backups and puts the whole directory back except as `Undone` says; in every state all originals are kept or all replacements in place, up to the catch block after a failed cleanup |
| Restore.DataDirectory.ApplyScheduledRestore | packages/backend/src/backup/backup.service.ts:250-294 | Nothing without a request, nothing for an invalid request or backup; success leaves the four targets as in the backup, neither `-wal` nor `-shm` file, no request, and everything else as before, and every state on the way has all originals kept or all replacements in place; every failure keeps request and backups; a failure while staging or moving an old target aside leaves the whole directory as it was but for staging places; which failure it is follows from the first failing operation |
| Restore.DataDirectory.ScheduleRestore | packages/backend/src/backup/backup.service.ts:227-233 | A request is written only for a backup that verifies, whatever fails, and exactly then if nothing fails |
| Restore.LoggedStateMayBeLeft | packages/backend/src/backup/backup.service.ts:264-286 | Every state between two file-system steps is the finished restore or still has the request and the backups |
| Restore.LeftIsRecoverable | packages/backend/src/backup/backup.service.ts:250-286 | Whatever a start may leave, the restore is done or still pending with its backup intact |
| Restore.CrashesDoNotMatter | packages/backend/src/backup/backup.service.ts:250-286 | Along any sequence of states, each one that a failed or crashed start may leave of the one before, an undisturbed start at the end restores the backup requested at first |
| Restore.StartAndCrash | packages/backend/src/backup/backup.service.ts:250-294 | A start that crashes or fails anywhere leaves such a state; an undisturbed one leaves the finished restore |
| Restore.RestoreDespiteCrashes | packages/backend/src/backup/backup.service.ts:250-294 | Starts with any failures and crashes run through such a sequence, in which an undisturbed start restores, and a last undisturbed one ends with the database and the three content directories equal to the backup, neither `-wal` nor `-shm` file and no request |
| Restore.CreatedBackupIsRestorable | packages/backend/src/backup/backup.service.ts:261-277 | Whatever backup creation completed can be restored once requested |
| Restore.RestoredIsTheSnapshot | packages/backend/src/backup/backup.service.ts:275-276 | What is put at a target is the snapshot the backup was made from, file by file |
| Restore.FailToMoveIn | packages/backend/src/backup/backup.service.ts:279-291 | Over any directory with a database file, a restore in which just moving the first replacement in fails loses the file from its place and leaves it aside |
| Restore.LoseTarget | packages/backend/src/backup/backup.service.ts:279-291 | Such a directory, with a backup of any database |
| Restore.LoseWriteAheadFile | packages/backend/src/backup/backup.service.ts:283-291 | Over any restorable directory, a failure at the second side file puts everything back, the old database included, but without its `-wal` file |
| UserDeletion.TagOwnerUpdateCannotConflict | packages/backend/src/access-control/user-administration.repository.ts:97-106 | Dropping the duplicates first keeps the owner update clear of the unique index |
| UserDeletion.StatementsHandOver | packages/backend/src/access-control/user-administration.repository.ts:81-109 | On valid tables no statement before the deletion of the user row is refused |
| UserDeletion.DeletionTransfers | packages/backend/src/access-control/user-administration.repository.ts:79-110 | On valid tables the transaction is refused exactly when the actor column is declared as a foreign key and an audit row names the user; otherwise it hands memberships, resources, tags and tag links over as `Deleted` describes |
| UserDeletion.DeletionWithoutReceiver | packages/backend/src/access-control/user-administration.repository.ts:81-109 | When the receiver is gone by then, the transaction is refused exactly when the user owns a group, a resource or a tag, or an audit row names it |
| UserDeletion.HoldingsAfterDeletion | packages/backend/src/access-control/user-administration.repository.ts:82-106 | Afterwards a user owns something shared exactly if it did before, or is the receiver of someone who did |
| UserDeletion.DeletionKeepsLabels | packages/backend/src/access-control/user-administration.repository.ts:88-106 | Every connection keeps exactly its (owner, tag name) labels, those of the user becoming the receiver's |
| UserDeletion.DeletionKeepsTagNames | packages/backend/src/access-control/user-administration.repository.ts:88-106 | The set of tag names on every connection is unchanged |
| UserDeletion.NothingLeftBehind | packages/backend/src/access-control/user-administration.repository.ts:104-107 | No resource, tag or private row stays with the user, and nothing of the user's becomes ownerless |
| UserDeletion.DeletionKeepsValid | packages/backend/src/access-control/access-control.schema.ts:126-135 | Every foreign key and unique index of the modelled tables, user names included, holds afterwards |
| AccessControl.UpdateUserKeeps | packages/backend/src/access-control/user-administration.application.ts:65-88 | Changing a user keeps owners, an active super administrator and all constraints |
| AccessControl.DeletionKeepsSound | packages/backend/src/access-control/user-administration.application.ts:106-125 | So does deleting one |
| AccessControl.GuardedDeletionSucceeds | packages/backend/src/access-control/user-administration.application.ts:111-124 | With the guards passed, a deletion is refused exactly when the actor column is declared as a foreign key and an audit row names the user |
| AccessControl.AuditedUserCannotBeDeleted | packages/backend/src/database/migrations.ts:636-641 | An upgraded database on which the super administrator passes every guard and still cannot delete a user with an audit row |
| AccessControl.AuditRowBlocksDeletion | packages/backend/src/database/migrations.ts:850-854 | On an upgraded database one audit row of the user turns any deletion that would succeed into a refused one |
| AccessControl.OwnerLeavesOnlyWithAnother | packages/backend/src/access-control/access-control.repository.ts:64-103 | An owner can be removed or demoted exactly when the group has another owner |
| AccessControl.NewGroupKeeps | packages/backend/src/access-control/access-control.repository.ts:18-31 | A new group starts with its creator as owner |
| AccessControl.DeleteGroupKeeps | packages/backend/src/access-control/access-control.repository.ts:49-52 | Deleting a group keeps the invariants |
| AccessControl.OnlyGroupGone | packages/backend/src/access-control/access-control.application.ts:96-105 | System administrators and owners of an existing group, and nobody else, can delete it; that takes exactly its memberships and grants with it, and all other groups, memberships and grants and all other tables stay |
| AccessControl.CreateUserKeeps | packages/backend/src/access-control/user-administration.application.ts:46-63 | Creating a user keeps the invariants |
| AccessControl.AddUserIsExact | packages/backend/src/access-control/user-administration.application.ts:50-62 | Administrators create users and auditors, only super administrators create administrators; the name must not be empty or taken, the password must have 12 characters; then exactly an active user of that name and role is added |
| AccessControl.InitialAdministratorKeeps | packages/backend/src/auth/initial-admin-bootstrap.ts:21-38 | The first user is an active super administrator; afterwards the bootstrap changes nothing |
| AccessControl.CallKeeps | packages/backend/src/access-control/access-control.application.ts:61-200 | Every application call keeps the invariants |
| AccessControl.RunsKeepSound | packages/backend/src/access-control/access-control.repository.ts:64-103 | Over every run, audit rows included, every group has an owner, an active super administrator exists once any user does, and all constraints of the modelled tables hold |
| AccessControl.RunsFromEmptyAreSound | packages/backend/src/auth/initial-admin-bootstrap.ts:21-38 | In particular from an empty database |
| AccessControl.OnlySuperAdminsChangeAdministrators | packages/backend/src/access-control/user-administration.application.ts:51-80 | Whoever is not a super administrator can neither make, change nor remove an administrator, by any call |
| AccessControl.OnlyOwnersChangeLeadingRoles | packages/backend/src/access-control/access-control.application.ts:149-200 | Whoever is neither a system administrator nor an owner of a group leaves its owners and group administrators as they are, by any call |
| AccessDatabase.Database.DeleteUserRows | packages/backend/src/access-control/user-administration.repository.ts:79-110 | On valid tables refused exactly when the actor column is a foreign key and an audit row names the user, and then rolled back; otherwise everything is handed over and every constraint holds |
| AccessDatabase.Database.TransferOwned | packages/backend/src/access-control/user-administration.repository.ts:104-106 | The loop over the owned tables reassigns each of them |
| AccessDatabase.Database.DeleteUser | packages/backend/src/access-control/user-administration.application.ts:106-125 | Keeps owners, an active super administrator and all constraints; success hands everything over; past the guards only an audit row that refers to the user by foreign key refuses it; the last-administrator error means that the target is the only one |
| AccessDatabase.Database.UpdateUser | packages/backend/src/access-control/user-administration.application.ts:65-88 | Keeps the same; no one but a super administrator changes an administrator by it; the last-administrator error means that the target is the only one |
| AccessDatabase.Database.CreateGroup | packages/backend/src/access-control/access-control.repository.ts:18-31 | Keeps the same; on success the group has its creator as only owner, and all other groups have their members |
| AccessDatabase.Database.SaveMembership | packages/backend/src/access-control/access-control.repository.ts:64-83 | Keeps the same; refused as the last owner exactly when the user is the only owner and would lose that role; success changes just that role |
| AccessDatabase.Database.DeleteMembership | packages/backend/src/access-control/access-control.repository.ts:85-103 | Keeps the same; refused as the last owner exactly when the user is the only owner; success removes just that role |
| AdministratorRaces.AdministratorRemains | packages/backend/src/access-control/user-administration.application.ts:74-87 | However updates and deletions interleave, an active super administrator remains if no counting guard passes while another call is about to remove another one |
| AdministratorRaces.LosableExactlyWithoutRefuge | packages/backend/src/access-control/user-administration.application.ts:81-124 | The calls under way can leave no active super administrator if and only if there is no refuge: a refuge is one whom nothing can still remove, or a ring of them, one owning something, whom only deletions threaten that hand over inside the ring or to users who are gone |
| AdministratorRaces.SafeIsRefuge | packages/backend/src/access-control/user-administration.application.ts:81-87 | An administrator whom no call under way can still remove is a refuge by itself |
| AdministratorRaces.DeletionIsWrite | packages/backend/src/access-control/user-administration.repository.ts:79-110 | On valid tables the write of a deletion in these runs is refused exactly when the deletion transaction is, audit rows and missing receivers included, and has its result |
| AdministratorRaces.CountKeepsShelter | packages/backend/src/access-control/user-administration.application.ts:120-124 | A counting guard that passes keeps a shelter if and only if an administrator is safe other than its target, or the target is and an audit row spares it from that deletion |
| AdministratorRaces.SafeStays | packages/backend/src/access-control/user-administration.repository.ts:55-68 | No other step endangers a safe administrator, the write of a row read before and the calls of others included |
| AdministratorRaces.TwoAdministratorsRemoveEachOther | packages/backend/src/access-control/user-administration.application.ts:81-87 | Two active super administrators who disable each other at the same time both get through, and none is left |
| AdministratorRaces.UpdateIsItsSteps | packages/backend/src/access-control/user-administration.application.ts:65-88 | Undisturbed, the steps of an update are possible exactly when the update as a single step succeeds, and have its result |
| AdministratorRaces.DeletionIsItsSteps | packages/backend/src/access-control/user-administration.application.ts:106-125 | The same for a deletion |
| AdministratorRaces.InsertionIsStep | packages/backend/src/access-control/user-administration.repository.ts:42-53 | Creating a user is a step of these runs |
| AdministratorRaces.AuditIsStep | packages/backend/src/audit/audit.repository.ts:143-148 | So is an audit row that refers to a user by a foreign key |
| AdministratorRaces.RegroupingIsStep | packages/backend/src/access-control/access-control.repository.ts:64-103 | And so is whatever changes neither users nor audit rows |
| StaleUpdates.StepKeepsRemembered | packages/backend/src/access-control/user-administration.application.ts:74-80 | Whatever happens, an update for a plain administrator has seen no administrator and makes none, and what is about to be written has the columns asked for |
| StaleUpdates.TakesEffectUnlessStale | packages/backend/src/access-control/user-administration.repository.ts:60-66 | A write has the effect asked for, and no other, if and only if no other column has changed since it was read |
| StaleUpdates.AtomicExactlyWhenNoneStale | packages/backend/src/access-control/user-administration.repository.ts:55-68 | Over every run the users are at all times those of whole updates and deletions one after another if and only if no write is stale |
| StaleUpdates.PlainUpdateTouches | packages/backend/src/access-control/user-administration.application.ts:74-87 | An update for anybody but a super administrator makes, changes or unmakes an administrator if and only if the target was promoted since the guards and the write changes it, or it was read as promoted and has been demoted since; if it sets the role, if and only if the target was promoted |
| StaleUpdates.SuperAdminsAloneExactly | packages/backend/src/access-control/user-administration.application.ts:74-87 | Over every run administrators are changed only for super administrators if and only if that happens to no other update |
| StaleUpdates.PlainAdministratorDisablesAnother | packages/backend/src/access-control/user-administration.application.ts:65-88 | A run in which a plain administrator disables a user promoted after its guards |
| StaleUpdates.StatusChangeTakesBackDemotion | packages/backend/src/access-control/user-administration.repository.ts:60-66 | A run in which a change of status takes back a demotion written since the row was read |
| GroupRaces.OwnerRemains | packages/backend/src/access-control/access-control.repository.ts:64-103 | However membership changes and deletions of users interleave, a group keeps an owner |
| GroupRaces.IntrudesExactlyWhenOvertaken | packages/backend/src/access-control/access-control.application.ts:149-200 | A write that changes a leading role is by somebody who may not do it if and only if the subject has lost its ownership since the guards, or it was and is no more than a group administrator and the target, which did not lead the group at the guards, now does |
| GroupRaces.OwnersAloneTouchLeaders | packages/backend/src/access-control/access-control.application.ts:149-200 | Over every run leading roles are changed only by owners and system administrators if and only if no write that changes one is overtaken in one of these two ways |
| GroupRaces.DemotedOwnerAppoints | packages/backend/src/access-control/access-control.application.ts:154-182 | An owner demoted between guard and transaction still appoints another owner |
| GroupRaces.AdministratorRemovesNewOwner | packages/backend/src/access-control/access-control.application.ts:185-199 | A group administrator whose guard saw a mere viewer removes the owner that viewer has become |
| GroupRaces.SaveIsWrite | packages/backend/src/access-control/access-control.repository.ts:64-83 | The saving transaction is the write of these runs on the members of its group |
| GroupRaces.DeleteIsWrite | packages/backend/src/access-control/access-control.repository.ts:85-103 | So is the deleting one |
| GroupRaces.SaveMemberIsItsSteps | packages/backend/src/access-control/access-control.application.ts:149-183 | Undisturbed, the steps of a saving call are possible exactly when the call as a single step succeeds, and have its result |
| GroupRaces.DeleteMemberIsItsSteps | packages/backend/src/access-control/access-control.application.ts:185-200 | The same for a deleting call |
| GroupRaces.DeletionIsHandover | packages/backend/src/access-control/user-administration.repository.ts:82-107 | The deletion transaction of a user does to the members of every group what the handover of these runs does |
| ConnectionAccess.SqlAgreesWithPolicy | packages/backend/src/access-control/access-policy.ts:31-38 | The SQL CASE and the runtime rule agree on a grant exactly when it is one the schema allows |
| ConnectionAccess.ResolveConnectionPermission | packages/backend/src/access-control/access-policy.ts:45-64 | Returns the highest permission that the role or any one grant gives |
| ConnectionAccess.ResolutionIsUnique | packages/backend/src/access-control/access-policy.ts:55-63 | That permission depends only on the grants up to order |
| ConnectionAccess.ReadConnectionAccess | packages/backend/src/access-control/access-control.repository.ts:105-129 | Reads the owner and exactly the subject's grants of one connection |
| ConnectionAccess.ReadConnectionAccessList | packages/backend/src/access-control/access-control.repository.ts:131-159 | Reads, from the left-join rows, exactly the same for every listed connection that exists |
| ConnectionAccess.ReadsAgree | packages/backend/src/access-control/access-control.repository.ts:105-159 | Any two reads of a connection give the same owner and the same grants up to order |
| ConnectionAccess.ResolutionDecides | packages/backend/src/access-control/access-policy.ts:55-69 | The resolved permission covers a requirement exactly when the tables grant it |
| ConnectionAccess.RequireConnectionPermission | packages/backend/src/access-control/access-control.application.ts:130-147 | Throws exactly the error that the tables call for, if any |
| ConnectionAccess.SqlMaximumResolves | packages/backend/src/connections/connection.repository.ts:148-158 | The maximum of the SQL CASE over the rows is what the resolver makes of the same grants |
| ConnectionAccess.ListedPermission | packages/backend/src/connections/connection.repository.ts:127-171 | A connection is listed exactly when it may be viewed, with exactly what the single check allows; for an auditor if and only if it may not connect |
| ConnectionAccess.OwningAuditorIsShownLess | packages/backend/src/connections/connection.repository.ts:130-139 | An auditor's own connection is listed with less than the single check allows |
| ConnectionAccess.FirstRefusedOfUnique | packages/backend/src/access-control/access-control.application.ts:232-233 | Dropping repetitions does not change which connection is refused first |
| ConnectionAccess.CheckAll | packages/backend/src/access-control/access-control.application.ts:242-255 | The access loop passes exactly when the single check passes for every id, and otherwise throws the error of the first refused one |
| ConnectionAccess.GrantStore.WriteGrants | packages/backend/src/access-control/access-control.repository.ts:173-187 | Every pair is granted, or nothing changes; all constraints are kept |
| ConnectionAccess.GrantStore.SaveConnectionGrants | packages/backend/src/access-control/access-control.application.ts:227-259 | Each refusal exactly when its condition holds; past the size checks it passes exactly when the single check passes for every listed connection; then exactly the listed pairs are granted; all constraints are kept |
| LockClosure.ResolvePicksLongest | electron-app/build-tools/prepare-runtime.js:49-62 | The key found is that of the longest ancestor prefix that has one |
| LockClosure.ResolveDependencyLockKey | electron-app/build-tools/prepare-runtime.js:43-63 | For every starting entry, the key found is `node_modules/` and the name below the nearest ancestor path that has such an entry; none is found only if no ancestor has one |
| LockClosure.ResolvesToNearest | electron-app/build-tools/prepare-runtime.js:49-62 | The search over path parts finds exactly that key, stated on the text of the paths |
| LockClosure.BackendParts | electron-app/build-tools/prepare-runtime.js:45-47 | The special case for the backend entry takes the same path parts |
| LockClosure.ResolveAll | electron-app/build-tools/prepare-runtime.js:84-103 | Queues exactly the keys an entry depends on, by a required or an optional dependency |
| LockClosure.ExploredIsReachable | electron-app/build-tools/prepare-runtime.js:87-104 | With an empty queue the visited keys are exactly the reachable ones |
| LockClosure.ReachableIsPresent | electron-app/build-tools/prepare-runtime.js:94-97 | Every reachable key has an entry, so the missing-entry error cannot occur |
| LockClosure.CollectRuntimeDependencyLockKeys | electron-app/build-tools/prepare-runtime.js:75-107 | Terminates on every lock file, fails only without the entry `packages/backend`, and returns sorted, without duplicates, exactly the keys reachable from it by required and optional dependencies |
| Text.AscendingIsCanonical | electron-app/build-tools/prepare-runtime.js:106 | A sorted list without duplicates is determined by its elements |
| Text.LessIsFirstDifference | electron-app/build-tools/prepare-runtime.js:106 | In the order of sorting a proper prefix comes first, and otherwise the first character that differs decides |
| LogLines.SplitFindsTheLines | packages/single-image/supervisor.js:106 | Splitting on CRLF or LF finds the lines a text was assembled from |
| LogLines.EveryTextHasLines | packages/single-image/supervisor.js:106 | The lines of every text, with suitable line ends, make up that text |
| LogLines.LinesContinue | packages/single-image/supervisor.js:104-107 | What arrives later only continues the last, unfinished line, even when a CR and its LF are apart |
| LogLines.LineForwarder.Data | packages/single-image/supervisor.js:104-109 | A chunk passes on the completed lines and keeps the rest |
| LogLines.Forward | packages/single-image/supervisor.js:99-112 | For every way of cutting a stream into chunks, the lines passed on are those of the whole text |
| EnvDocument.RewriteLines | packages/backend/src/config/runtime-secrets.ts:64-77 | The pass with its shrinking map of pending values computes the specified lines and leaves exactly the values no line carried |
| EnvDocument.UpdateEnvDocument | packages/backend/src/config/runtime-secrets.ts:63-81 | The whole function computes the specified document |
| EnvDocument.ExactlyOneLinePerKey | packages/backend/src/config/runtime-secrets.ts:67-79 | Every key ends up on exactly one line, with its value |
| EnvDocument.OtherLinesStay | packages/backend/src/config/runtime-secrets.ts:67-78 | All other lines stay in order, apart from trailing blank ones |
| EnvDocument.UpdateIsIdempotent | packages/backend/src/config/runtime-secrets.ts:63-81 | Updating again with the same values changes nothing |
| EnvDocument.IdentifierPattern | packages/backend/src/config/runtime-secrets.ts:68 | A key is a letter or underscore and then letters, digits and underscores |
| EnvDocument.KeyPattern | packages/backend/src/config/runtime-secrets.ts:68 | A line has a key exactly if it is that key, the first equals sign and some value |
| GatewaySecret.MatchOverLines | packages/single-image/supervisor.js:163 | In a document of any lines the multi-line search finds the first value that follows the prefix after any line terminator |
| GatewaySecret.ShadowExactly | packages/single-image/supervisor.js:163 | A key has a shadow if and only if, inside a line before its own, a terminator is followed at once by the key, `=` and one more character that is no terminator |
| GatewaySecret.WrittenValueIsFound | packages/single-image/supervisor.js:163 | In an updated document it finds the shadow of the key, if there is one, and otherwise the value just written, up to its first terminator |
| GatewaySecret.PersistedSecretIsRead | packages/single-image/supervisor.js:160-170 | For every document and every accepted values, a persisted secret is read back if and only if it has at least 32 characters, no surrounding white space and no line terminator and its key has no shadow, or the shadow has the same value |
| GatewaySecret.PlainDocumentIsRead | packages/single-image/supervisor.js:160-170 | There is no shadow when neither the document nor a value holds a stray terminator |
| GatewaySecret.ReadGatewaySecret | packages/single-image/supervisor.js:160-166 | Of a document updated with a gateway secret it returns that secret exactly under this condition; whatever it returns is long enough and trimmed |
| LocaleRuntime.StepKeeps | packages/frontend/src/locale-runtime.ts:118-166 | Every request, load completion or failure and continuation keeps the invariant: a load is remembered exactly while it is not rejected, adoption goes to later requests, applied ids increase |
| LocaleRuntime.AppliedIdsIncrease | packages/frontend/src/locale-runtime.ts:145-151 | Over every run the applied request ids strictly increase and the last of them is the active locale's |
| LocaleRuntime.ActivatedWithItsMessages | packages/frontend/src/locale-runtime.ts:139-151 | A locale becomes active only for the latest request, after its own and the default locale's messages are applied |
| LocaleRuntime.OneLiveLoadPerLocale | packages/frontend/src/locale-runtime.ts:118-132 | A locale is loaded again only after its earlier loads were rejected |
| LocaleRuntime.AdoptionsEnd | packages/frontend/src/locale-runtime.ts:145-148 | The adoptions from a request form a finite chain of strictly later requests that ends at one which adopted nothing |
| LocaleRuntime.AdoptionsAreUnique | packages/frontend/src/locale-runtime.ts:145-148 | Every such chain from a request ends at the same one |
| LocaleRuntime.LastRequestWins | packages/frontend/src/locale-runtime.ts:134-166 | At quiescence the last request is applied exactly when its loads succeeded, its locale is then active, and every request has settled as one that was applied or failed |
| LocaleRuntime.NeverStuck | packages/frontend/src/locale-runtime.ts:139-148 | While anything is unfinished a step other than a new request is possible |
| LocaleRuntime.QuiescentMeansNoStep | packages/frontend/src/locale-runtime.ts:139-159 | Quiescence is exactly that nothing but a new request can happen |
| LocaleRuntime.RequestsComeToRest | packages/frontend/src/locale-runtime.ts:134-160 | Without new requests only a bounded number of steps is left |
| LocaleRuntime.RunExtends | packages/frontend/src/locale-runtime.ts:134-160 | Settled requests, applied messages and the applied history are never revised |
| LocaleRuntime.StoredIsLatest | packages/frontend/src/locale-runtime.ts:150-158 | At the end of every run the stored locale is that of the latest applied request that was to be stored and whose storing did not fail |
| LocaleSwitch.Runtime.StartLoad | packages/frontend/src/locale-runtime.ts:118-132 | Reuses the remembered load of a locale or starts and remembers a new one |
| LocaleSwitch.Runtime.OnLoaded | packages/frontend/src/locale-runtime.ts:122-125 | Arriving messages are applied; a failure to load or apply them applies nothing |
| LocaleSwitch.Runtime.OnSettled | packages/frontend/src/locale-runtime.ts:126-129 | A failed load is forgotten, an arrived one settles |
| LocaleSwitch.Runtime.Apply | packages/frontend/src/locale-runtime.ts:162-166 | A request takes the next id and waits for the default locale's load and its own |
| LocaleSwitch.Runtime.SetLocale | packages/frontend/src/locale-runtime.ts:179-184 | A locale that is not available is refused and changes nothing |
| LocaleSwitch.Runtime.Continue | packages/frontend/src/locale-runtime.ts:144-159 | The continuation adopts the latest promise, fails, or applies and stores the locale, as the machine's step says |
| LocaleSetting.ChangesRunInOrder | packages/frontend/src/locale-runtime.ts:57-63 | Changes run one at a time in the order requested |
| LocaleSetting.StepKeeps | packages/frontend/src/locale-runtime.ts:59-82 | Every step keeps the order and the active locale that of the latest change in effect |
| LocaleSetting.LatestSavedChangeDecides | packages/frontend/src/locale-runtime.ts:65-83 | Once all have settled, the active locale is that of the latest change that was saved or could not be taken back, else the initial one |
| LocaleSetting.Coordinator.Enqueue | packages/frontend/src/locale-runtime.ts:59-66 | A change joins the end of the queue |
| LocaleSetting.Coordinator.RunChange | packages/frontend/src/locale-runtime.ts:66-82 | One change is a run of the machine and leaves its locale active exactly when it was saved or could not be taken back |
| ReleaseManifest.ValidateReleaseManifestImageList | build-tools/docker-release-set.js:140-164 | Accepts exactly the manifests with one matching image per definition and returns them in the order of the definitions |
| ReleaseManifest.MatchIsExact | build-tools/docker-release-set.js:149-161 | An image matches if name, repository, both references in full and the digest are as the definition demands |
| ReleaseManifest.VersionPattern | build-tools/docker-release-set.js:35 | A version is three numbers separated by dots |
| ReleaseManifest.BuildIdentityPattern | build-tools/docker-release-set.js:84 | A build identity is two numbers separated by a dash |
| ReleaseManifest.DigestPattern | build-tools/docker-release-set.js:34 | A digest is `sha256:` and sixty-four lower-case hexadecimal digits |
| ReleaseManifest.RevisionPattern | build-tools/docker-release-set.js:85 | A revision is seven to sixty-four hexadecimal digits of either case |
| ReleaseManifest.CompleteWhenAllAccepted | build-tools/docker-release-set.js:141-161 | The size checks and the per-name checks together mean exactly that |
| ReleaseManifest.CreateDockerReleaseManifest | build-tools/docker-release-set.js:77-124 | Succeeds exactly for a prepared set with one well-formed record per image, and assembles the manifest from those records |
| ReleaseManifest.PreparedIsExact | build-tools/docker-release-set.js:78-86 | A prepared set has format 1, that status, the official namespace, and a version, a build and a revision of the right pattern |
| ReleaseManifest.ReportIsExact | build-tools/docker-release-set.js:101-111 | A record reports an image if name, repository and the trimmed digest are as they should be |
| ReleaseManifest.AssembledManifestValidates | build-tools/docker-release-set.js:102-123 | What is assembled passes the validation of the promotion |
| ReleaseManifest.ReferencesDiffer | build-tools/docker-release-set.js:143-151 | The version, candidate and `latest` references of a validated set are all different |
| ReleaseManifest.OfficialDefinitionsAreWellDefined | build-tools/docker-release-set.js:10-33 | The official definitions have different names and repositories, free of separators |
| Promotion.Registry.Preflight | build-tools/docker-release-set.js:181-196 | Passes exactly if every candidate and every existing version tag is sound and no call fails, and then tells which version tags exist |
| Promotion.Registry.PromoteVersion | build-tools/docker-release-set.js:198-202 | Creates one missing version tag and checks it; every state on the way is one of the promotion |
| Promotion.Registry.PromoteVersions | build-tools/docker-release-set.js:198-202 | The loop promotes the version tags in order up to the first failure |
| Promotion.Registry.PromoteLatest | build-tools/docker-release-set.js:204-215 | Moves `latest` to the promoted version tag of the main image |
| Promotion.Registry.PromoteDockerReleaseSet | build-tools/docker-release-set.js:166-226 | Nothing is written for a manifest that is no valid candidate or cannot be promoted; every state on the way is one of the promotion; it succeeds exactly for a valid, promotable candidate with no failing call, after the stated number of calls; then the version tags of the four images and `spfantop/fantetic-terminal:latest` are as released |
| Promotion.CandidateIsExact | build-tools/docker-release-set.js:167-174 | A candidate has format 1, that status, the official namespace, and a version, a build and a revision of the right pattern |
| Promotion.PromotedIsReleased | build-tools/docker-release-set.js:200-215 | A completed promotion publishes each of the four named images with its manifest digest for both platforms, and `latest` is the version of the all-in-one image |
| Promotion.ExistingTagsStay | build-tools/docker-release-set.js:188-199 | In every state on the way no existing tag other than `latest` has changed |
| Promotion.NewTagsHoldManifestDigests | build-tools/docker-release-set.js:198-202 | In every state on the way a new tag other than `latest` is a version tag with its manifest digest and platforms |
| Promotion.LatestMovesLast | build-tools/docker-release-set.js:204-211 | `latest` has moved only if every version tag holds its manifest digest |
| Promotion.RerunEndsTheSame | build-tools/docker-release-set.js:181-215 | From every state on the way a rerun is possible, and completes to the registry of an uninterrupted run |
| Promotion.CompleteIsUnique | build-tools/docker-release-set.js:198-215 | That registry is unique |
| Promotion.AbortsDoNotMatter | build-tools/docker-release-set.js:181-215 | Along any sequence of registry states, each on the way of a promotion from the one before, a promotion that completes at the end gives the registry of an uninterrupted first one |
| Promotion.PromoteDespiteAborts | build-tools/docker-release-set.js:166-226 | Failed and aborted attempts run through such a sequence, in which an undisturbed one completes, and a last undisturbed one then ends in that registry, released |
| ReplayGuard.GatewayTokenReplayGuard.Consume | packages/remote-gateway/src/security.ts:36-49 | Purges by a loop, then throws the specified rejection or records the nonce |
| ReplayGuard.NoReplay | packages/remote-gateway/src/security.ts:36-49 | With a clock that never goes back, a nonce accepted twice had expired before; no claims are accepted twice |
| ReplayGuard.ReplayIsExact | packages/remote-gateway/src/security.ts:38-46 | Timely claims are refused as a replay exactly when the nonce was accepted and has not expired |
| ReplayGuard.RejectionsAreExact | packages/remote-gateway/src/security.ts:41-45 | Exactly which claims have an invalid expiration (none, or more than a minute ahead), are expired, or have a nonce that is not 12 to 128 characters of the alphabet |
| ReplayGuard.CapacityHolds | packages/remote-gateway/src/security.ts:47-48 | The table never exceeds its capacity |
| WorkerPool.ReadMaximumConcurrency | build-tools/workspace-test-suite.js:106-109 | The limit is the parsed number if that is positive, and 4 otherwise |
| WorkerPool.Pool.constructor | build-tools/workspace-test-suite.js:112-122 | Starts as many workers as the limit and the groups allow, each on its own group |
| WorkerPool.Pool.Complete | build-tools/workspace-test-suite.js:115-119 | A completion stores that group's result and takes the next group, if any |
| WorkerPool.Pool.IdleMeansDone | build-tools/workspace-test-suite.js:122-123 | Once no worker holds a group every result is in place and every group was started once |
| WorkerPool.RunWithConcurrency | build-tools/workspace-test-suite.js:111-124 | For every completion order each group is started exactly once, result i is of group i, and after k completions exactly min(limit, remaining) groups are in flight |

## Left out

- HTTP controllers, routes, middleware, Electron windows, Vue and i18n setup, the service worker, captcha and passkeys: plumbing over libraries.
- SQLite itself: tables are maps and sets with the declared keys, cascades and unique indexes; BEGIN, COMMIT and ROLLBACK are snapshot, publish and restore. Statements issued on the shared connection outside `withTransaction` are not part of the lock model.
- A transaction callback is a sequence of statements with its own variables; what it awaits besides statements has no counterpart.
- The tail map is modelled for one connection; different connections do not share entries.
- The promise of a `then` callback and the microtask in which it settles are one step, except in the locale runtime, where the delivery of messages and the settling of a load are two.
- Application calls of `AccessControl` are single steps, and the subject is the stored user; interleavings between guard and write are modelled in `AdministratorRaces` and `StaleUpdates` for the users and in `GroupRaces` for one group; the system role of the subject is there the one stored when the call begins. Only the web runtime is modelled; the desktop subject is left out.
- The audit rows of `AccessTables` are their actors only; in `AuditChain` a row refused by the foreign key of the actor is one of the statement failures. The append-only triggers on other statements, the retention check of `addLog` and the audit search plan have no counterpart.
- The `user_id` of session recordings, which a deletion nulls.
- Real hashing, JSON text and encryption: a hash is a function of the hashed values, an encoding a pair of functions.
- The file system: paths are sequences of names, so symbolic links, path normalisation and the `assertInside` checks on well-formed names have no counterpart; the token of a restore is fresh; that the records of a manifest are in the order of the listing is not stated, and paths are ordered with `/` as separator.
- A copy or a recursive removal is two observable steps, one partial and one final state of that place; the crash states inside it are arbitrary trees at that place.
- Backup listing, pruning, archiving and the retention policy.
- A failure during the cleanup of a restore is covered by recovery only; what the catch block then does to the targets is not stated.
- Renaming a group, listing, single grants and their deletion, password resets: they add no harder property.
- Batch identifiers are integers; the check for fractional numbers has no counterpart.
- Names of lock entries are strings; keys inherited from the object prototype are not modelled.
- Strings are sequences of Unicode code points: the order and length of characters outside the basic plane differ from the JavaScript runtime.
- Console output, timestamps and the trimming of forwarded lines.
- Reading and writing the `.env` file, and the generation and validity of secrets.
- Initial locale resolution and `normalizeLocale`; a message loader that throws synchronously, and a failing `applyLocale`.
- The locale setting is changed through its coordinator only, so an activation ends with the locale it asked for.
- The version checks of `prepareDockerReleaseSet`, the Docker command line, and the platform list repeated in a completed manifest.
- Tags of a registry have no other writer, and a failing tag creation either takes full effect or none.
- Tasks of the worker pool do not throw; `readMaximumConcurrency` takes the parsed number.
- The verification of gateway tokens other than their single use.
- `packages/backend/src/config/single-node-lease.ts`, IP and CIDR parsing, CORS, retry timing, drain, schedulers and process lifecycle.
