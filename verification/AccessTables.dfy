/** The access-control tables as relations, with the constraints the schema declares. */
module AccessTables {
  import opened Wrappers

  datatype SystemRole = SuperAdmin | Admin | User | Auditor
  datatype GroupRole = Owner | GroupAdmin | Operator | Viewer
  datatype Permission = NoAccess | View | Connect | Manage

  datatype UserRow = UserRow(username: string, role: SystemRole, active: bool)
  datatype GroupRow = GroupRow(name: string, createdBy: Option<int>)
  datatype TagRow = TagRow(name: string, owner: Option<int>)

  /** The owned resource tables other than tags. */
  datatype Kind = Connections | Proxies | SshKeys | Folders

  datatype Tables = Tables(
    users: map<int, UserRow>,
    groups: map<int, GroupRow>,
    members: map<(int, int), GroupRole>,        // (group, user)
    tags: map<int, TagRow>,
    connectionTags: set<(int, int)>,            // (connection, tag)
    owners: map<(Kind, int), Option<int>>,      // owner_user_id of each resource
    grants: map<(int, int), Permission>,        // (connection, group)
    privateRows: map<int, int>,                 // rows that are deleted with their owner
    auditActors: map<int, Option<int>>,         // actor_user_id of each audit row
    auditForeignKey: bool)                      // whether that column refers to the users

  predicate KnownUser(users: map<int, UserRow>, user: Option<int>) {
    user.None? || user.value in users
  }

  /** The unique index over the owner, a missing one counting as 0, and the name. */
  predicate UniqueTagNames(tags: map<int, TagRow>) {
    forall a, b :: a in tags && b in tags && a != b ==>
      tags[a].name != tags[b].name || Coalesced(tags[a].owner) != Coalesced(tags[b].owner)
  }

  function Coalesced(owner: Option<int>): int {
    if owner.None? then 0 else owner.value
  }

  predicate UniqueUsernames(users: map<int, UserRow>) {
    forall u, v :: u in users && v in users && u != v ==> users[u].username != users[v].username
  }

  /** An upgraded database declares the actor column as a foreign key, a fresh one does not. */
  predicate AuditActorsKnown(t: Tables) {
    t.auditForeignKey ==> forall row :: row in t.auditActors ==> KnownUser(t.users, t.auditActors[row])
  }

  /** Foreign keys, unique indexes, and positive generated identifiers. */
  predicate Valid(t: Tables) {
    && (forall u :: u in t.users ==> u > 0)
    && UniqueUsernames(t.users)
    && AuditActorsKnown(t)
    && (forall g :: g in t.groups ==> KnownUser(t.users, t.groups[g].createdBy))
    && (forall g, h :: g in t.groups && h in t.groups && g != h ==> t.groups[g].name != t.groups[h].name)
    && (forall m :: m in t.members ==> m.0 in t.groups && m.1 in t.users)
    && (forall tag :: tag in t.tags ==> KnownUser(t.users, t.tags[tag].owner))
    && UniqueTagNames(t.tags)
    && (forall link :: link in t.connectionTags ==> (Connections, link.0) in t.owners && link.1 in t.tags)
    && (forall key :: key in t.owners ==> KnownUser(t.users, t.owners[key]))
    && (forall grant :: grant in t.grants ==>
          (Connections, grant.0) in t.owners && grant.1 in t.groups && t.grants[grant] != NoAccess)
    && (forall row :: row in t.privateRows ==> t.privateRows[row] in t.users)
  }
}
