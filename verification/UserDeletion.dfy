/**
 Deleting a user: the statements of one transaction, and what they amount to.

 A statement that violates a foreign key or a unique index ends the transaction.
 */
module UserDeletion {
  import opened Wrappers
  import opened AccessTables

  type Members = map<(int, int), GroupRole>
  type Tags = map<int, TagRow>
  type Links = set<(int, int)>
  type Owners = map<(Kind, int), Option<int>>

  // ---------- The statements ----------

  predicate Owns(members: Members, group: int, user: int) {
    (group, user) in members && members[(group, user)] == Owner
  }

  /** INSERT INTO user_group_members ... SELECT ... ON CONFLICT DO UPDATE SET role = 'owner'. */
  function TransferGroups(t: Tables, user: int, receiver: int): Option<Tables> {
    if receiver !in t.users && exists m :: m in t.members && m.1 == user && t.members[m] == Owner then None
    else Some(t.(members := t.members
      + map m | m in t.members && m.1 == user && t.members[m] == Owner :: (m.0, receiver) := Owner))
  }

  predicate SameNamedTag(tags: Tags, receiver: int, tag: int, other: int) {
    tag in tags && other in tags && tags[other].owner == Some(receiver) && tags[other].name == tags[tag].name
  }

  predicate OwnedTag(tags: Tags, user: int, tag: int) {
    tag in tags && tags[tag].owner == Some(user)
  }

  /** INSERT OR IGNORE INTO connection_tags, for tags of the user whose name the receiver also has. */
  function CopyTagLinks(t: Tables, user: int, receiver: int): Tables {
    t.(connectionTags := t.connectionTags + set link, other |
      link in t.connectionTags && other in t.tags
      && OwnedTag(t.tags, user, link.1) && SameNamedTag(t.tags, receiver, link.1, other)
      :: (link.0, other))
  }

  predicate Duplicate(tags: Tags, user: int, receiver: int, tag: int) {
    OwnedTag(tags, user, tag) && exists other :: other in tags && SameNamedTag(tags, receiver, tag, other)
  }

  function KeptTags(tags: Tags, user: int, receiver: int): Tags {
    map tag | tag in tags && !Duplicate(tags, user, receiver, tag) :: tags[tag]
  }

  /** DELETE FROM tags ... WHERE EXISTS ..., with the cascade to connection_tags. */
  function DropDuplicateTags(t: Tables, user: int, receiver: int): Tables {
    var kept := KeptTags(t.tags, user, receiver);
    t.(tags := kept, connectionTags := set link | link in t.connectionTags && link.1 in kept)
  }

  function Reown(owner: Option<int>, user: int, receiver: Option<int>): Option<int> {
    if owner == Some(user) then receiver else owner
  }

  function ReownTags(tags: Tags, user: int, receiver: Option<int>): Tags {
    map tag | tag in tags :: tags[tag].(owner := Reown(tags[tag].owner, user, receiver))
  }

  function ReownKinds(owners: Owners, kinds: seq<Kind>, user: int, receiver: Option<int>): Owners {
    map key | key in owners :: if key.0 in kinds then Reown(owners[key], user, receiver) else owners[key]
  }

  /** UPDATE connections, proxies, ssh_keys or connection_folders SET owner_user_id. */
  function TransferResources(t: Tables, kind: Kind, user: int, receiver: int): Option<Tables> {
    if receiver !in t.users && exists key :: key in t.owners && key.0 == kind && t.owners[key] == Some(user) then None
    else Some(t.(owners := ReownKinds(t.owners, [kind], user, Some(receiver))))
  }

  /** UPDATE tags SET owner_user_id, refused by the unique index when two names would meet. */
  function TransferTags(t: Tables, user: int, receiver: int): Option<Tables> {
    var tags := ReownTags(t.tags, user, Some(receiver));
    if !UniqueTagNames(tags) || (receiver !in t.users && exists tag :: tag in t.tags && OwnedTag(t.tags, user, tag))
    then None
    else Some(t.(tags := tags))
  }

  /**
   An audit row names the user through a foreign key. The deletion would have to null that reference,
   and the append-only trigger aborts the update.
   */
  predicate NamedInAudit(t: Tables, user: int): (named: bool)
    ensures !t.auditForeignKey ==> !named
    ensures t.auditForeignKey && !named ==> forall row :: row in t.auditActors ==> t.auditActors[row] != Some(user)
  {
    t.auditForeignKey && exists row :: row in t.auditActors && t.auditActors[row] == Some(user)
  }

  /** DELETE FROM users, with its cascades and its nulled references. */
  function DropUser(t: Tables, user: int): Option<Tables> {
    var tags := ReownTags(t.tags, user, None);
    if user !in t.users || !UniqueTagNames(tags) || NamedInAudit(t, user) then None
    else Some(t.(
      users := t.users - {user},
      groups := map g | g in t.groups :: t.groups[g].(createdBy := Reown(t.groups[g].createdBy, user, None)),
      members := map m | m in t.members && m.1 != user :: t.members[m],
      tags := tags,
      owners := ReownKinds(t.owners, KINDS, user, None),
      privateRows := map row | row in t.privateRows && t.privateRows[row] != user :: t.privateRows[row]))
  }

  const KINDS := [Connections, Proxies, SshKeys, Folders]

  function TransferAll(t: Tables, kinds: seq<Kind>, user: int, receiver: int): Option<Tables>
    decreases |kinds|
  {
    if kinds == [] then Some(t) else
      var first := TransferResources(t, kinds[0], user, receiver);
      if first.None? then None else TransferAll(first.value, kinds[1..], user, receiver)
  }

  /** The tables after the whole transaction; None when a statement is refused. */
  function DeleteUserRows(t: Tables, user: int, receiver: int): Option<Tables> {
    var grouped := TransferGroups(t, user, receiver);
    if grouped.None? then None else
      var merged := DropDuplicateTags(CopyTagLinks(grouped.value, user, receiver), user, receiver);
      var owned := TransferAll(merged, KINDS, user, receiver);
      if owned.None? then None else
        var tagged := TransferTags(owned.value, user, receiver);
        if tagged.None? then None else DropUser(tagged.value, user)
  }

  // ---------- What the deletion amounts to ----------

  /** The user leaves every group; the receiver becomes an owner of those the user owned. */
  ghost predicate MembersTransferred(members: Members, user: int, receiver: int, after: Members) {
    && (forall g, u :: (g, u) in after <==>
          u != user && ((g, u) in members || (u == receiver && Owns(members, g, user))))
    && (forall g, u :: (g, u) in after && u == receiver && Owns(members, g, user) ==> after[(g, u)] == Owner)
    && (forall g, u :: (g, u) in after && !(u == receiver && Owns(members, g, user)) ==>
          after[(g, u)] == members[(g, u)])
  }

  /** Tags the receiver already has by name are dropped, the user's others change hands. */
  ghost predicate TagsTransferred(tags: Tags, user: int, receiver: int, after: Tags) {
    && (forall tag :: tag in after <==> tag in tags && !Duplicate(tags, user, receiver, tag))
    && (forall tag :: tag in after ==> after[tag] == tags[tag].(owner := Reown(tags[tag].owner, user, Some(receiver))))
  }

  ghost predicate OwnersTransferred(owners: Owners, user: int, receiver: int, after: Owners) {
    && after.Keys == owners.Keys
    && forall key :: key in owners ==> after[key] == Reown(owners[key], user, Some(receiver))
  }

  /** Nothing of the user is left, and everything shared belongs to the receiver. */
  ghost predicate Transferred(t: Tables, user: int, receiver: int, after: Tables) {
    && after.users == t.users - {user}
    && after.groups.Keys == t.groups.Keys
    && (forall g :: g in t.groups ==>
          after.groups[g] == t.groups[g].(createdBy := Reown(t.groups[g].createdBy, user, None)))
    && MembersTransferred(t.members, user, receiver, after.members)
    && TagsTransferred(t.tags, user, receiver, after.tags)
    && OwnersTransferred(t.owners, user, receiver, after.owners)
    && after.grants == t.grants
    && after.auditActors == t.auditActors && after.auditForeignKey == t.auditForeignKey && !NamedInAudit(t, user)
    && (forall row :: row in after.privateRows <==> row in t.privateRows && t.privateRows[row] != user)
    && (forall row :: row in after.privateRows ==> after.privateRows[row] == t.privateRows[row])
  }

  /** A link after the deletion: an old one or a merged one, on a tag that is left. */
  ghost predicate MergedLink(tags: Tags, links: Links, user: int, receiver: int, connection: int, tag: int) {
    || (connection, tag) in links
    || exists source :: (connection, source) in links && OwnedTag(tags, user, source)
                        && SameNamedTag(tags, receiver, source, tag)
  }

  ghost predicate LinksMerged(tags: Tags, links: Links, user: int, receiver: int, afterTags: Tags, after: Links) {
    forall c, tag :: (c, tag) in after <==> tag in afterTags && MergedLink(tags, links, user, receiver, c, tag)
  }

  // ---------- The statements amount to that ----------

  lemma {:induction false} TransferAllReowns(t: Tables, kinds: seq<Kind>, user: int, receiver: int)
    requires receiver in t.users && user != receiver
    ensures TransferAll(t, kinds, user, receiver)
      == Some(t.(owners := ReownKinds(t.owners, kinds, user, Some(receiver))))
    decreases |kinds|
  {
    if kinds == [] {
      assert t.owners == ReownKinds(t.owners, kinds, user, Some(receiver));
    } else {
      var first := TransferResources(t, kinds[0], user, receiver).value;
      TransferAllReowns(first, kinds[1..], user, receiver);
      assert ReownKinds(first.owners, kinds[1..], user, Some(receiver))
        == ReownKinds(t.owners, kinds, user, Some(receiver));
    }
  }

  lemma KindsAreAll(kind: Kind)
    ensures kind in KINDS
  {
  }

  /** Removing the duplicates first is what keeps the owner update clear of the unique index. */
  lemma TagOwnerUpdateCannotConflict(tags: Tags, user: int, receiver: int)
    requires UniqueTagNames(tags) && user != receiver && receiver > 0
    ensures UniqueTagNames(ReownTags(KeptTags(tags, user, receiver), user, Some(receiver)))
  {
  }

  /** The tables just before the user row goes. */
  function Handover(t: Tables, user: int, receiver: int): Tables {
    var merged := DropDuplicateTags(CopyTagLinks(t, user, receiver), user, receiver);
    merged.(
      members := t.members
        + map m | m in t.members && m.1 == user && t.members[m] == Owner :: (m.0, receiver) := Owner,
      owners := ReownKinds(t.owners, KINDS, user, Some(receiver)),
      tags := ReownTags(merged.tags, user, Some(receiver)))
  }

  lemma StatementsHandOver(t: Tables, user: int, receiver: int)
    requires Valid(t) && user != receiver && user in t.users && receiver in t.users
    ensures DeleteUserRows(t, user, receiver) == DropUser(Handover(t, user, receiver), user)
  {
    var grouped := TransferGroups(t, user, receiver).value;
    TransferAllReowns(DropDuplicateTags(CopyTagLinks(grouped, user, receiver), user, receiver), KINDS, user, receiver);
    TagOwnerUpdateCannotConflict(t.tags, user, receiver);
  }

  lemma HandoverMembers(members: Members, user: int, receiver: int)
    requires user != receiver
    ensures var handed := members
              + map m | m in members && m.1 == user && members[m] == Owner :: (m.0, receiver) := Owner;
            MembersTransferred(members, user, receiver, map m | m in handed && m.1 != user :: handed[m])
  {
  }

  lemma HandoverLinks(tags: Tags, links: Links, user: int, receiver: int)
    ensures var copied := links + set link, other |
              link in links && other in tags
              && OwnedTag(tags, user, link.1) && SameNamedTag(tags, receiver, link.1, other)
              :: (link.0, other);
            var kept := KeptTags(tags, user, receiver);
            LinksMerged(tags, links, user, receiver, kept, set link | link in copied && link.1 in kept)
  {
  }

  lemma HandoverOwners(owners: Owners, user: int, receiver: int)
    requires user != receiver
    ensures OwnersTransferred(owners, user, receiver,
                              ReownKinds(ReownKinds(owners, KINDS, user, Some(receiver)), KINDS, user, None))
  {
    forall key | key in owners ensures key.0 in KINDS {
      KindsAreAll(key.0);
    }
  }

  lemma HandoverTags(tags: Tags, user: int, receiver: int)
    requires user != receiver
    ensures var handed := ReownTags(KeptTags(tags, user, receiver), user, Some(receiver));
            ReownTags(handed, user, None) == handed && TagsTransferred(tags, user, receiver, handed)
  {
  }

  /** What the deletion amounts to, tag links included. */
  ghost predicate Deleted(t: Tables, user: int, receiver: int, after: Tables) {
    && Transferred(t, user, receiver, after)
    && LinksMerged(t.tags, t.connectionTags, user, receiver, after.tags, after.connectionTags)
  }

  lemma DropsUnlessNamedInAudit(t: Tables, user: int, receiver: int)
    requires UniqueTagNames(t.tags) && user != receiver && receiver > 0 && user in t.users
    ensures DropUser(Handover(t, user, receiver), user).Some? <==> !NamedInAudit(t, user)
  {
    TagOwnerUpdateCannotConflict(t.tags, user, receiver);
    HandoverTags(t.tags, user, receiver);
  }

  lemma DroppingAfterHandover(t: Tables, user: int, receiver: int)
    requires UniqueTagNames(t.tags) && user != receiver && receiver > 0 && user in t.users
    ensures var after := DropUser(Handover(t, user, receiver), user);
            after.Some? ==> Deleted(t, user, receiver, after.value)
  {
    if DropUser(Handover(t, user, receiver), user).Some? {
      RowsAfterHandover(t, user, receiver);
      HandoverTags(t.tags, user, receiver);
      HandoverLinks(t.tags, t.connectionTags, user, receiver);
    }
  }

  lemma RowsAfterHandover(t: Tables, user: int, receiver: int)
    requires user != receiver && DropUser(Handover(t, user, receiver), user).Some?
    ensures Transferred(t, user, receiver, DropUser(Handover(t, user, receiver), user).value)
  {
    HandoverMembers(t.members, user, receiver);
    HandoverOwners(t.owners, user, receiver);
    HandoverTags(t.tags, user, receiver);
  }

  /**
   On valid tables, deleting a user with a receiver is refused exactly when an audit row names the user
   and that column is declared as a foreign key; otherwise everything is handed over.
   */
  lemma DeletionTransfers(t: Tables, user: int, receiver: int)
    requires Valid(t) && user != receiver && user in t.users && receiver in t.users
    ensures var after := DeleteUserRows(t, user, receiver);
            && (after.None? <==>
                  t.auditForeignKey && exists row :: row in t.auditActors && t.auditActors[row] == Some(user))
            && (after.Some? ==> Deleted(t, user, receiver, after.value))
  {
    StatementsHandOver(t, user, receiver);
    DropsUnlessNamedInAudit(t, user, receiver);
    DroppingAfterHandover(t, user, receiver);
  }

  // ---------- Who owns something shared ----------

  /** The user owns a group, a resource or a tag. */
  ghost predicate HasHoldings(t: Tables, user: int) {
    || (exists g :: Owns(t.members, g, user))
    || (exists key :: key in t.owners && t.owners[key] == Some(user))
    || (exists tag :: OwnedTag(t.tags, user, tag))
  }

  /** A deletion makes the receiver the owner of something exactly if it was one, or the user was. */
  lemma HoldingsAfterDeletion(t: Tables, user: int, receiver: int, after: Tables, u: int)
    requires user != receiver && Deleted(t, user, receiver, after)
    ensures HasHoldings(after, u) <==>
      u != user && (HasHoldings(t, u) || (u == receiver && HasHoldings(t, user)))
  {
    GroupsAfterDeletion(t, user, receiver, after, u);
    ResourcesAfterDeletion(t, user, receiver, after, u);
    TagsAfterDeletion(t, user, receiver, after, u);
  }

  lemma GroupsAfterDeletion(t: Tables, user: int, receiver: int, after: Tables, u: int)
    requires user != receiver && MembersTransferred(t.members, user, receiver, after.members)
    ensures (exists g :: Owns(after.members, g, u)) <==>
      u != user && ((exists g :: Owns(t.members, g, u)) || (u == receiver && exists g :: Owns(t.members, g, user)))
  {
    if g :| Owns(after.members, g, u) { assert Owns(t.members, g, u) || Owns(t.members, g, user); }
    if u != user {
      if g :| Owns(t.members, g, u) { assert Owns(after.members, g, u); }
      if u == receiver {
        if g :| Owns(t.members, g, user) { assert Owns(after.members, g, u); }
      }
    }
  }

  lemma ResourcesAfterDeletion(t: Tables, user: int, receiver: int, after: Tables, u: int)
    requires user != receiver && OwnersTransferred(t.owners, user, receiver, after.owners)
    ensures (exists key :: key in after.owners && after.owners[key] == Some(u)) <==>
      u != user && ((exists key :: key in t.owners && t.owners[key] == Some(u))
                    || (u == receiver && exists key :: key in t.owners && t.owners[key] == Some(user)))
  {
    if key :| key in after.owners && after.owners[key] == Some(u) { assert key in t.owners; }
    if u != user {
      if key :| key in t.owners && t.owners[key] == Some(u) { assert key in after.owners; }
      if u == receiver {
        if key :| key in t.owners && t.owners[key] == Some(user) { assert key in after.owners; }
      }
    }
  }

  lemma TagsAfterDeletion(t: Tables, user: int, receiver: int, after: Tables, u: int)
    requires user != receiver && TagsTransferred(t.tags, user, receiver, after.tags)
    ensures (exists tag :: OwnedTag(after.tags, u, tag)) <==>
      u != user && ((exists tag :: OwnedTag(t.tags, u, tag))
                    || (u == receiver && exists tag :: OwnedTag(t.tags, user, tag)))
  {
    if tag :| OwnedTag(after.tags, u, tag) { assert OwnedTag(t.tags, u, tag) || OwnedTag(t.tags, user, tag); }
    if u != user {
      if tag :| OwnedTag(t.tags, u, tag) { assert OwnedTag(after.tags, u, tag); }
      if u == receiver {
        if tag :| OwnedTag(t.tags, user, tag) {
          if Duplicate(t.tags, user, receiver, tag) {
            var other :| other in t.tags && SameNamedTag(t.tags, receiver, tag, other);
            assert OwnedTag(after.tags, u, other);
          } else {
            assert OwnedTag(after.tags, u, tag);
          }
        }
      }
    }
  }

  // ---------- A receiver that is gone ----------

  lemma NothingToReown(owners: Owners, kinds: seq<Kind>, user: int, receiver: Option<int>)
    requires forall key :: key in owners ==> owners[key] != Some(user)
    ensures ReownKinds(owners, kinds, user, receiver) == owners
  {
  }

  lemma NoTagsToReown(tags: Tags, user: int, receiver: Option<int>)
    requires forall tag :: !OwnedTag(tags, user, tag)
    ensures ReownTags(tags, user, receiver) == tags
  {
    forall tag | tag in tags ensures ReownTags(tags, user, receiver)[tag] == tags[tag] {
      assert !OwnedTag(tags, user, tag);
    }
  }

  lemma {:induction false} TransferAllWithoutReceiver(t: Tables, kinds: seq<Kind>, user: int, receiver: int)
    requires receiver !in t.users
    ensures TransferAll(t, kinds, user, receiver) ==
      if exists key :: key in t.owners && key.0 in kinds && t.owners[key] == Some(user) then None else Some(t)
    decreases |kinds|
  {
    if kinds != [] {
      var first := TransferResources(t, kinds[0], user, receiver);
      if first.Some? {
        assert first.value.owners == t.owners;
        TransferAllWithoutReceiver(t, kinds[1..], user, receiver);
        assert forall kind :: kind in kinds <==> kind == kinds[0] || kind in kinds[1..];
      } else {
        var key :| key in t.owners && key.0 == kinds[0] && t.owners[key] == Some(user);
        assert key.0 in kinds;
      }
    }
  }

  lemma {:induction false} TransfersKeepUsers(t: Tables, kinds: seq<Kind>, user: int, receiver: int)
    ensures var after := TransferAll(t, kinds, user, receiver); after.Some? ==> after.value.users == t.users
    decreases |kinds|
  {
    if kinds != [] {
      var first := TransferResources(t, kinds[0], user, receiver);
      if first.Some? { TransfersKeepUsers(first.value, kinds[1..], user, receiver); }
    }
  }

  /** The transaction throws when the user is gone. */
  lemma UnknownUserIsRefused(t: Tables, user: int, receiver: int)
    requires user !in t.users
    ensures DeleteUserRows(t, user, receiver).None?
  {
    var grouped := TransferGroups(t, user, receiver);
    if grouped.Some? {
      var merged := DropDuplicateTags(CopyTagLinks(grouped.value, user, receiver), user, receiver);
      TransfersKeepUsers(merged, KINDS, user, receiver);
    }
  }

  /** The statements before the last one do nothing without a receiver, or one of them is refused. */
  lemma StatementsWithoutReceiver(t: Tables, user: int, receiver: int)
    requires Valid(t) && receiver !in t.users
    ensures DeleteUserRows(t, user, receiver) == if HasHoldings(t, user) then None else DropUser(t, user)
  {
    if exists g :: Owns(t.members, g, user) {
      var g :| Owns(t.members, g, user);
      assert (g, user) in t.members && (g, user).1 == user;
      assert TransferGroups(t, user, receiver).None?;
    } else {
      GroupsWithoutReceiver(t, user, receiver);
      TagsWithoutReceiver(t, user, receiver);
      TransferAllWithoutReceiver(t, KINDS, user, receiver);
      if key :| key in t.owners && t.owners[key] == Some(user) { KindsAreAll(key.0); }
    }
  }

  lemma GroupsWithoutReceiver(t: Tables, user: int, receiver: int)
    requires forall g :: !Owns(t.members, g, user)
    ensures TransferGroups(t, user, receiver) == Some(t)
  {
    forall m | m in t.members && m.1 == user ensures t.members[m] != Owner {
      assert m == (m.0, user) && !Owns(t.members, m.0, user);
    }
    assert TransferGroups(t, user, receiver).value.members == t.members;
  }

  lemma TagsWithoutReceiver(t: Tables, user: int, receiver: int)
    requires Valid(t) && receiver !in t.users
    ensures DropDuplicateTags(CopyTagLinks(t, user, receiver), user, receiver) == t
    ensures TransferTags(t, user, receiver) == if exists tag :: OwnedTag(t.tags, user, tag) then None else Some(t)
  {
    forall tag, other ensures !SameNamedTag(t.tags, receiver, tag, other) {
      if other in t.tags { assert KnownUser(t.users, t.tags[other].owner); }
    }
    assert KeptTags(t.tags, user, receiver) == t.tags;
    assert CopyTagLinks(t, user, receiver).connectionTags == t.connectionTags;
    if !exists tag :: OwnedTag(t.tags, user, tag) {
      NoTagsToReown(t.tags, user, Some(receiver));
    }
  }

  /**
   A deletion whose receiver is gone is refused exactly when the user owns something shared or is named
   in the audit log; otherwise the user disappears and nobody else's holdings change.
   */
  lemma DeletionWithoutReceiver(t: Tables, user: int, receiver: int)
    requires Valid(t) && user in t.users && receiver !in t.users
    ensures var after := DeleteUserRows(t, user, receiver);
            && (after.Some? <==> !HasHoldings(t, user) && !NamedInAudit(t, user))
            && (after.Some? ==> OnlyUserGone(t, user, after.value))
  {
    StatementsWithoutReceiver(t, user, receiver);
    if !HasHoldings(t, user) { DroppingWithoutHoldings(t, user); }
  }

  /** Whether or not the receiver is still there, a deletion that is not refused hands over the groups. */
  lemma MembersAfterDeletion(t: Tables, user: int, receiver: int)
    requires Valid(t) && user != receiver
    ensures var after := DeleteUserRows(t, user, receiver);
            after.Some? ==> MembersTransferred(t.members, user, receiver, after.value.members)
  {
    if user !in t.users {
      UnknownUserIsRefused(t, user, receiver);
    } else if receiver in t.users {
      DeletionTransfers(t, user, receiver);
    } else {
      MembersWithoutReceiver(t, user, receiver);
    }
  }

  lemma MembersWithoutReceiver(t: Tables, user: int, receiver: int)
    requires Valid(t) && user in t.users && receiver !in t.users
    ensures var after := DeleteUserRows(t, user, receiver);
            after.Some? ==> MembersTransferred(t.members, user, receiver, after.value.members)
  {
    DeletionWithoutReceiver(t, user, receiver);
    if !HasHoldings(t, user) {
      forall after | OnlyUserGone(t, user, after) ensures MembersTransferred(t.members, user, receiver, after.members) {
        assert forall g :: !Owns(t.members, g, user);
      }
    }
  }

  /** The user has disappeared, and every other one owns something exactly if it did before. */
  ghost predicate OnlyUserGone(t: Tables, user: int, after: Tables) {
    && after.users == t.users - {user}
    && after.auditActors == t.auditActors && after.auditForeignKey == t.auditForeignKey
    && (forall m :: m in after.members <==> m in t.members && m.1 != user)
    && (forall m :: m in after.members ==> after.members[m] == t.members[m])
    && forall u :: u != user ==> (HasHoldings(after, u) <==> HasHoldings(t, u))
  }

  lemma DroppingWithoutHoldings(t: Tables, user: int)
    requires Valid(t) && user in t.users && !HasHoldings(t, user)
    ensures var after := DropUser(t, user);
            (after.Some? <==> !NamedInAudit(t, user)) && (after.Some? ==> OnlyUserGone(t, user, after.value))
  {
    NoTagsToReown(t.tags, user, None);
    NothingToReown(t.owners, KINDS, user, None);
    if DropUser(t, user).Some? {
      var after := DropUser(t, user).value;
      forall u | u != user ensures HasHoldings(after, u) <==> HasHoldings(t, u) {
        assert forall g :: Owns(after.members, g, u) <==> Owns(t.members, g, u);
      }
    }
  }

  // ---------- Labels ----------

  /** A tag of this owner and name is attached to the connection. */
  ghost predicate Labelled(t: Tables, connection: int, owner: Option<int>, name: string) {
    exists tag :: tag in t.tags && t.tags[tag] == TagRow(name, owner) && (connection, tag) in t.connectionTags
  }

  ghost predicate HasTagName(t: Tables, connection: int, name: string) {
    exists tag :: tag in t.tags && t.tags[tag].name == name && (connection, tag) in t.connectionTags
  }

  lemma LabelHasOrigin(t: Tables, user: int, receiver: int, after: Tables, connection: int, tag: int)
    returns (source: int)
    requires user != receiver && Deleted(t, user, receiver, after)
    requires (connection, tag) in after.connectionTags
    ensures (connection, source) in t.connectionTags && tag in after.tags
    ensures source in t.tags ==>
      after.tags[tag] == TagRow(t.tags[source].name, Reown(t.tags[source].owner, user, Some(receiver)))
    ensures tag != source ==> source in t.tags
  {
    assert MergedLink(t.tags, t.connectionTags, user, receiver, connection, tag);
    if (connection, tag) in t.connectionTags {
      source := tag;
    } else {
      source :| (connection, source) in t.connectionTags && OwnedTag(t.tags, user, source)
        && SameNamedTag(t.tags, receiver, source, tag);
    }
  }

  /** Every connection keeps exactly its labels, those of the user becoming the receiver's. */
  lemma DeletionKeepsLabels(
      t: Tables, user: int, receiver: int, after: Tables, connection: int, owner: Option<int>, name: string)
    requires user != receiver && Deleted(t, user, receiver, after)
    ensures Labelled(after, connection, owner, name) <==>
      (&& owner != Some(user)
       && (Labelled(t, connection, owner, name)
           || (owner == Some(receiver) && Labelled(t, connection, Some(user), name))))
  {
  }

  /** The set of tag names on every connection is unchanged. */
  lemma DeletionKeepsTagNames(t: Tables, user: int, receiver: int, after: Tables, connection: int, name: string)
    requires user != receiver && Deleted(t, user, receiver, after)
    ensures HasTagName(after, connection, name) <==> HasTagName(t, connection, name)
  {
  }

  /** No resource, tag or private row is left with the user, and none of the user's becomes ownerless. */
  lemma NothingLeftBehind(t: Tables, user: int, receiver: int, after: Tables)
    requires user != receiver && Deleted(t, user, receiver, after)
    ensures forall key :: key in after.owners ==>
      after.owners[key] != Some(user) && (after.owners[key] == None <==> t.owners[key] == None)
    ensures forall tag :: tag in after.tags ==>
      after.tags[tag].owner != Some(user) && (after.tags[tag].owner == None <==> t.tags[tag].owner == None)
    ensures forall row :: row in after.privateRows ==> after.privateRows[row] != user
  {
  }

  lemma MemberHasOrigin(members: Members, user: int, receiver: int, after: Members, group: int, u: int)
    requires MembersTransferred(members, user, receiver, after) && (group, u) in after
    ensures u != user && ((group, u) in members || (u == receiver && (group, user) in members))
  {
  }

  lemma TransferredTagsStayUnique(tags: Tags, user: int, receiver: int, after: Tags)
    requires UniqueTagNames(tags) && user != receiver && receiver > 0
    requires TagsTransferred(tags, user, receiver, after)
    ensures UniqueTagNames(after)
  {
  }

  /** The deletion keeps every foreign key and unique index; in particular nothing refers to the deleted user. */
  lemma DeletionKeepsValid(t: Tables, user: int, receiver: int, after: Tables)
    requires Valid(t) && user != receiver && user in t.users && receiver in t.users
    requires Deleted(t, user, receiver, after)
    ensures Valid(after)
  {
    TransferredTagsStayUnique(t.tags, user, receiver, after.tags);
    DeletionKeepsOwners(t, user, receiver, after);
    DeletionKeepsMembers(t, user, receiver, after);
    DeletionKeepsLinks(t, user, receiver, after);
  }

  lemma DeletionKeepsOwners(t: Tables, user: int, receiver: int, after: Tables)
    requires Valid(t) && user != receiver && user in t.users && receiver in t.users
    requires Deleted(t, user, receiver, after)
    ensures (forall u :: u in after.users ==> u > 0) && UniqueUsernames(after.users) && AuditActorsKnown(after)
    ensures forall key :: key in after.owners ==> KnownUser(after.users, after.owners[key])
    ensures forall tag :: tag in after.tags ==> KnownUser(after.users, after.tags[tag].owner)
    ensures forall g :: g in after.groups ==> KnownUser(after.users, after.groups[g].createdBy)
  {
  }

  lemma DeletionKeepsMembers(t: Tables, user: int, receiver: int, after: Tables)
    requires Valid(t) && user != receiver && user in t.users && receiver in t.users
    requires Deleted(t, user, receiver, after)
    ensures forall m :: m in after.members ==> m.0 in after.groups && m.1 in after.users
  {
    forall m | m in after.members ensures m.0 in after.groups && m.1 in after.users {
      MemberHasOrigin(t.members, user, receiver, after.members, m.0, m.1);
      assert m == (m.0, m.1) && (m.0, user).0 == m.0;
    }
  }

  lemma DeletionKeepsLinks(t: Tables, user: int, receiver: int, after: Tables)
    requires Valid(t) && user != receiver && user in t.users && receiver in t.users
    requires Deleted(t, user, receiver, after)
    ensures forall link :: link in after.connectionTags ==>
      (Connections, link.0) in after.owners && link.1 in after.tags
  {
    forall link | link in after.connectionTags ensures (Connections, link.0) in after.owners && link.1 in after.tags {
      var source := LabelHasOrigin(t, user, receiver, after, link.0, link.1);
      assert (link.0, source) in t.connectionTags && (link.0, source).0 == link.0;
    }
  }
}
