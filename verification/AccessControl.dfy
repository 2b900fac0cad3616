/**
 User and group administration: the guards of the application layer, the transactions below
 them, and what every run of them keeps. Each call is one atomic step.
 */
module AccessControl {
  import opened Wrappers
  import opened AccessTables
  import opened Text
  import opened Collections
  import UserDeletion

  /** The signed-in user a call is made for. */
  datatype Subject = Subject(userId: int, role: SystemRole)

  datatype Error =
    | SystemAdministratorRequired
    | SuperAdministratorRequired
    | UsernameRequired
    | PasswordTooShort
    | CannotDisableYourself
    | CannotDeleteYourself
    | ReceiverMustDiffer
    | ReceiverMustBeActive
    | UserNotFound
    | LastSuperAdministrator
    | GroupNameRequired
    | CannotManageMembers
    | GroupOwnerRequired
    | LastOwner
    | MembershipNotFound
    | GroupNotFound
    | ConstraintViolated

  type Outcome = Result<Tables, Error>

  predicate IsSystemAdministrator(s: Subject) { s.role == SuperAdmin || s.role == Admin }

  predicate Privileged(role: SystemRole) { role == SuperAdmin || role == Admin }

  /** The authentication middleware reads the subject from the user table on every request. */
  predicate Authentic(t: Tables, s: Subject) {
    s.userId in t.users && t.users[s.userId].active && t.users[s.userId].role == s.role
  }

  // ---------- Users ----------

  function ActiveSuperAdmins(t: Tables): set<int> {
    set u | u in t.users && t.users[u].role == SuperAdmin && t.users[u].active
  }

  function InsertUser(t: Tables, id: int, username: string, role: SystemRole): Outcome {
    if exists u :: u in t.users && t.users[u].username == username then Err(ConstraintViolated)
    else Ok(t.(users := t.users[id := UserRow(username, role, true)]))
  }

  function CreateInitialAdministrator(t: Tables, id: int, username: string): Outcome {
    if t.users != map[] then Ok(t) else InsertUser(t, id, username, SuperAdmin)
  }

  function CreateUser(t: Tables, s: Subject, id: int, username: string, password: string, role: SystemRole): Outcome {
    AddUser(t, s, id, Trim(username), password, role)
  }

  /** The same with the name already trimmed. */
  function AddUser(t: Tables, s: Subject, id: int, name: string, password: string, role: SystemRole): Outcome {
    if !IsSystemAdministrator(s) then Err(SystemAdministratorRequired)
    else if Privileged(role) && s.role != SuperAdmin then Err(SuperAdministratorRequired)
    else if name == "" then Err(UsernameRequired)
    else if |password| < 12 then Err(PasswordTooShort)
    else InsertUser(t, id, name, role)
  }

  function UpdatedRow(row: UserRow, role: Option<SystemRole>, active: Option<bool>): UserRow {
    row.(role := if role.Some? then role.value else row.role,
         active := if active.Some? then active.value else row.active)
  }

  function UpdateUser(t: Tables, s: Subject, userId: int, role: Option<SystemRole>, active: Option<bool>): Outcome {
    if !IsSystemAdministrator(s) then Err(SystemAdministratorRequired)
    else if s.userId == userId && active == Some(false) then Err(CannotDisableYourself)
    else if userId !in t.users then Err(UserNotFound)
    else
      var target := t.users[userId];
      if s.role != SuperAdmin && (Privileged(target.role) || (role.Some? && Privileged(role.value)))
      then Err(SuperAdministratorRequired)
      else if target.role == SuperAdmin && target.active
        && (active == Some(false) || (role.Some? && role.value != SuperAdmin))
        && |ActiveSuperAdmins(t)| <= 1
      then Err(LastSuperAdministrator)
      else Ok(t.(users := t.users[userId := UpdatedRow(target, role, active)]))
  }

  /** The guards of the application's `deleteUser`. */
  function DeletionRefusal(t: Tables, s: Subject, userId: int, receiver: int): Option<Error> {
    if s.role != SuperAdmin then Some(SuperAdministratorRequired)
    else if s.userId == userId then Some(CannotDeleteYourself)
    else if userId == receiver then Some(ReceiverMustDiffer)
    else if userId !in t.users || receiver !in t.users then Some(UserNotFound)
    else if !t.users[receiver].active then Some(ReceiverMustBeActive)
    else if t.users[userId].role == SuperAdmin && t.users[userId].active && |ActiveSuperAdmins(t)| <= 1
    then Some(LastSuperAdministrator)
    else None
  }

  function DeleteUser(t: Tables, s: Subject, userId: int, receiver: int): Outcome {
    var refusal := DeletionRefusal(t, s, userId, receiver);
    if refusal.Some? then Err(refusal.value) else
      var after := UserDeletion.DeleteUserRows(t, userId, receiver);
      if after.None? then Err(ConstraintViolated) else Ok(after.value)
  }

  // ---------- Groups ----------

  function Owners(t: Tables, group: int): set<int> {
    set m | m in t.members && m.0 == group && t.members[m] == Owner :: m.1
  }

  function RoleIn(t: Tables, group: int, user: int): Option<GroupRole> {
    if (group, user) in t.members then Some(t.members[(group, user)]) else None
  }

  function CreateGroup(t: Tables, s: Subject, id: int, name: string): Outcome {
    if !IsSystemAdministrator(s) then Err(SystemAdministratorRequired)
    else if Trim(name) == "" then Err(GroupNameRequired)
    else InsertGroup(t, id, Trim(name), s.userId)
  }

  /** The transaction of the repository's `createGroup`. */
  function InsertGroup(t: Tables, id: int, name: string, creator: int): Outcome {
    if creator !in t.users || exists g :: g in t.groups && t.groups[g].name == name then Err(ConstraintViolated)
    else Ok(t.(groups := t.groups[id := GroupRow(name, Some(creator))], members := t.members[(id, creator) := Owner]))
  }

  predicate ManagesMembers(t: Tables, s: Subject, group: int) {
    IsSystemAdministrator(s) || OwnerOrAdmin(RoleIn(t, group, s.userId))
  }

  predicate ManagesOwners(t: Tables, s: Subject, group: int) {
    IsSystemAdministrator(s) || RoleIn(t, group, s.userId) == Some(Owner)
  }

  predicate OwnerOrAdmin(role: Option<GroupRole>) { role == Some(Owner) || role == Some(GroupAdmin) }

  /** The transaction of `saveMembership`. */
  function SaveMembership(t: Tables, group: int, user: int, role: GroupRole): Outcome {
    if RoleIn(t, group, user) == Some(Owner) && role != Owner && |Owners(t, group)| <= 1 then Err(LastOwner)
    else if group !in t.groups || user !in t.users then Err(ConstraintViolated)
    else Ok(t.(members := t.members[(group, user) := role]))
  }

  /** The transaction of `deleteMembership`. */
  function DeleteMembership(t: Tables, group: int, user: int): Outcome {
    if RoleIn(t, group, user).None? then Err(MembershipNotFound)
    else if RoleIn(t, group, user) == Some(Owner) && |Owners(t, group)| <= 1 then Err(LastOwner)
    else Ok(t.(members := t.members - {(group, user)}))
  }

  function SaveMember(t: Tables, s: Subject, group: int, user: int, role: GroupRole): Outcome {
    if !ManagesMembers(t, s, group) then Err(CannotManageMembers)
    else if (OwnerOrAdmin(Some(role)) || OwnerOrAdmin(RoleIn(t, group, user))) && !ManagesOwners(t, s, group)
    then Err(GroupOwnerRequired)
    else SaveMembership(t, group, user, role)
  }

  function DeleteMember(t: Tables, s: Subject, group: int, user: int): Outcome {
    if RoleIn(t, group, user).None? then Err(MembershipNotFound)
    else if !ManagesMembers(t, s, group) then Err(CannotManageMembers)
    else if OwnerOrAdmin(RoleIn(t, group, user)) && !ManagesOwners(t, s, group) then Err(GroupOwnerRequired)
    else DeleteMembership(t, group, user)
  }

  /** DELETE FROM user_groups, with its cascades. */
  function DeleteGroup(t: Tables, s: Subject, group: int): Outcome {
    if !ManagesOwners(t, s, group) then Err(GroupOwnerRequired)
    else if group !in t.groups then Err(GroupNotFound)
    else Ok(t.(groups := t.groups - {group},
               members := map m | m in t.members && m.0 != group :: t.members[m],
               grants := map g | g in t.grants && g.1 != group :: t.grants[g]))
  }

  /** INSERT INTO audit_logs, as far as its actor goes. */
  function AppendAudit(t: Tables, row: int, actor: Option<int>): Outcome {
    if t.auditForeignKey && !KnownUser(t.users, actor) then Err(ConstraintViolated)
    else Ok(t.(auditActors := t.auditActors[row := actor]))
  }

  // ---------- Runs ----------

  datatype Operation =
    | InitialAdministrator(id: int, username: string)
    | NewUser(subject: Subject, id: int, username: string, password: string, role: SystemRole)
    | ChangeUser(subject: Subject, userId: int, newRole: Option<SystemRole>, active: Option<bool>)
    | RemoveUser(subject: Subject, userId: int, receiver: int)
    | NewGroup(subject: Subject, id: int, name: string)
    | ChangeMember(subject: Subject, group: int, userId: int, memberRole: GroupRole)
    | RemoveMember(subject: Subject, group: int, userId: int)
    | RemoveGroup(subject: Subject, group: int)
    | WriteAudit(row: int, actor: Option<int>)

  /** The calls made for a subject; the bootstrap and the audit log have none. */
  predicate HasSubject(op: Operation) { !op.InitialAdministrator? && !op.WriteAudit? }

  /** The subject is signed in, and the engine generates identifiers that are not in use. */
  predicate Admitted(t: Tables, op: Operation) {
    && (HasSubject(op) ==> Authentic(t, op.subject))
    && (op.InitialAdministrator? || op.NewUser? ==> op.id > 0 && op.id !in t.users)
    && (op.NewGroup? ==> op.id > 0 && op.id !in t.groups)
    && (op.WriteAudit? ==> op.row !in t.auditActors)
  }

  function Perform(t: Tables, op: Operation): Outcome {
    match op
    case InitialAdministrator(id, username) => CreateInitialAdministrator(t, id, username)
    case NewUser(s, id, username, password, role) => CreateUser(t, s, id, username, password, role)
    case ChangeUser(s, userId, role, active) => UpdateUser(t, s, userId, role, active)
    case RemoveUser(s, userId, receiver) => DeleteUser(t, s, userId, receiver)
    case NewGroup(s, id, name) => CreateGroup(t, s, id, name)
    case ChangeMember(s, group, user, role) => SaveMember(t, s, group, user, role)
    case RemoveMember(s, group, user) => DeleteMember(t, s, group, user)
    case RemoveGroup(s, group) => DeleteGroup(t, s, group)
    case WriteAudit(row, actor) => AppendAudit(t, row, actor)
  }

  /** A call that throws changes nothing. */
  function Next(t: Tables, op: Operation): Tables {
    var outcome := Perform(t, op);
    if outcome.Ok? then outcome.value else t
  }

  ghost predicate IsRun(t: Tables, ops: seq<Operation>)
    decreases |ops|
  {
    ops == [] || (Admitted(t, ops[0]) && IsRun(Next(t, ops[0]), ops[1..]))
  }

  ghost function After(t: Tables, ops: seq<Operation>): Tables
    decreases |ops|
  {
    if ops == [] then t else After(Next(t, ops[0]), ops[1..])
  }

  ghost predicate EveryGroupOwned(t: Tables) {
    forall g :: g in t.groups ==> exists u :: UserDeletion.Owns(t.members, g, u)
  }

  ghost predicate Administered(t: Tables) {
    t.users == map[] || exists u :: u in ActiveSuperAdmins(t)
  }

  ghost predicate Sound(t: Tables) {
    Valid(t) && EveryGroupOwned(t) && Administered(t)
  }

  // ---------- What one call keeps ----------

  lemma AnotherOne<T>(s: set<T>, x: T) returns (y: T)
    requires |s| > 1
    ensures y in s && y != x
  {
    assert s - {x} != {} by {
      if s - {x} == {} { SmallerSubset(s, {x}); }
    }
    y :| y in s - {x};
  }

  lemma OwnersAreOwners(t: Tables, group: int)
    ensures forall u :: u in Owners(t, group) <==> UserDeletion.Owns(t.members, group, u)
  {
  }

  lemma InsertedUserIsValid(t: Tables, id: int, row: UserRow)
    requires Valid(t) && id > 0 && forall u :: u in t.users && u != id ==> t.users[u].username != row.username
    ensures Valid(t.(users := t.users[id := row]))
  {
  }

  lemma ChangedMembersAreValid(t: Tables, members: map<(int, int), GroupRole>)
    requires Valid(t)
    requires forall m :: m in members ==> m.0 in t.groups && m.1 in t.users
    ensures Valid(t.(members := members))
  {
  }

  /** A new user keeps the invariants, if the first one is a super administrator. */
  lemma InsertUserKeeps(t: Tables, id: int, username: string, role: SystemRole)
    requires Sound(t) && id > 0 && id !in t.users && (t.users == map[] ==> role == SuperAdmin)
    requires InsertUser(t, id, username, role).Ok?
    ensures Sound(InsertUser(t, id, username, role).value)
  {
    var after := InsertUser(t, id, username, role).value;
    InsertedUserIsValid(t, id, UserRow(username, role, true));
    if t.users == map[] {
      assert id in ActiveSuperAdmins(after);
    } else {
      var u :| u in ActiveSuperAdmins(t);
      assert u in ActiveSuperAdmins(after);
    }
  }

  /** Changing a user never removes the last active super administrator. */
  lemma UpdateUserKeeps(
      t: Tables, s: Subject, userId: int, role: Option<SystemRole>, active: Option<bool>)
    requires Sound(t) && UpdateUser(t, s, userId, role, active).Ok?
    ensures Sound(UpdateUser(t, s, userId, role, active).value)
  {
    var after := UpdateUser(t, s, userId, role, active).value;
    InsertedUserIsValid(t, userId, UpdatedRow(t.users[userId], role, active));
    var u :| u in ActiveSuperAdmins(t);
    if u == userId && u !in ActiveSuperAdmins(after) {
      u := AnotherOne(ActiveSuperAdmins(t), u);
    }
    assert u in ActiveSuperAdmins(after);
  }

  lemma DeletionKeepsOwners(t: Tables, user: int, receiver: int, after: Tables)
    requires EveryGroupOwned(t) && user != receiver && UserDeletion.Deleted(t, user, receiver, after)
    ensures EveryGroupOwned(after)
  {
    forall g | g in after.groups ensures exists u :: UserDeletion.Owns(after.members, g, u) {
      var u :| UserDeletion.Owns(t.members, g, u);
      assert UserDeletion.Owns(after.members, g, if u == user then receiver else u);
    }
  }

  /** Deleting a user hands its groups over and never removes the last active super administrator. */
  lemma DeletionKeepsSound(t: Tables, user: int, receiver: int, after: Tables)
    requires Sound(t) && user != receiver && user in t.users && receiver in t.users
    requires UserDeletion.Deleted(t, user, receiver, after)
    requires user in ActiveSuperAdmins(t) ==> |ActiveSuperAdmins(t)| > 1
    ensures Sound(after)
  {
    UserDeletion.DeletionKeepsValid(t, user, receiver, after);
    DeletionKeepsOwners(t, user, receiver, after);
    var u :| u in ActiveSuperAdmins(t);
    if u == user {
      u := AnotherOne(ActiveSuperAdmins(t), u);
    }
    assert u in ActiveSuperAdmins(after);
  }

  /** A new group starts with its creator as owner. */
  lemma NewGroupKeeps(t: Tables, id: int, name: string, owner: int)
    requires Sound(t) && id > 0 && id !in t.groups && owner in t.users
    requires forall g :: g in t.groups ==> t.groups[g].name != name
    ensures Sound(t.(groups := t.groups[id := GroupRow(name, Some(owner))], members := t.members[(id, owner) := Owner]))
  {
    var members := t.members[(id, owner) := Owner];
    NewGroupIsValid(t, id, name, owner);
    forall g | g in t.groups || g == id ensures exists u :: UserDeletion.Owns(members, g, u) {
      if g == id {
        assert UserDeletion.Owns(members, g, owner);
      } else {
        var u :| UserDeletion.Owns(t.members, g, u);
        assert UserDeletion.Owns(members, g, u);
      }
    }
    var after := t.(groups := t.groups[id := GroupRow(name, Some(owner))], members := members);
    assert ActiveSuperAdmins(after) == ActiveSuperAdmins(t);
  }

  lemma NewGroupIsValid(t: Tables, id: int, name: string, owner: int)
    requires Valid(t) && id > 0 && owner in t.users
    requires forall g :: g in t.groups ==> t.groups[g].name != name
    ensures Valid(t.(groups := t.groups[id := GroupRow(name, Some(owner))], members := t.members[(id, owner) := Owner]))
  {
  }

  /** Whoever loses the ownership of a group, someone else keeps it. */
  lemma ChangedMembersKeep(t: Tables, group: int, user: int, members: map<(int, int), GroupRole>)
    requires Sound(t)
    requires forall m :: m in members ==> m.0 in t.groups && m.1 in t.users
    requires forall g, u :: (g, u) != (group, user) ==>
      (UserDeletion.Owns(members, g, u) <==> UserDeletion.Owns(t.members, g, u))
    requires UserDeletion.Owns(t.members, group, user) && !UserDeletion.Owns(members, group, user)
      ==> |Owners(t, group)| > 1
    ensures Sound(t.(members := members))
  {
    ChangedMembersAreValid(t, members);
    forall g | g in t.groups ensures exists u :: UserDeletion.Owns(members, g, u) {
      var u :| UserDeletion.Owns(t.members, g, u);
      if g == group && u == user && !UserDeletion.Owns(members, g, u) {
        OwnersAreOwners(t, g);
        u := AnotherOne(Owners(t, g), u);
      }
      assert UserDeletion.Owns(members, g, u);
    }
    assert ActiveSuperAdmins(t.(members := members)) == ActiveSuperAdmins(t);
  }

  lemma MembershipsKeep(t: Tables, group: int, user: int, role: GroupRole)
    requires Sound(t)
    ensures SaveMembership(t, group, user, role).Ok? ==> Sound(SaveMembership(t, group, user, role).value)
    ensures DeleteMembership(t, group, user).Ok? ==> Sound(DeleteMembership(t, group, user).value)
  {
    if SaveMembership(t, group, user, role).Ok? {
      ChangedMembersKeep(t, group, user, t.members[(group, user) := role]);
    }
    if DeleteMembership(t, group, user).Ok? {
      ChangedMembersKeep(t, group, user, t.members - {(group, user)});
    }
  }

  /** Just the group, its memberships and its grants are gone. */
  ghost predicate GroupGone(t: Tables, group: int, after: Tables) {
    && (forall g :: g in after.groups <==> g in t.groups && g != group)
    && (forall g :: g in after.groups ==> after.groups[g] == t.groups[g])
    && (forall m :: m in after.members <==> m in t.members && m.0 != group)
    && (forall m :: m in after.members ==> after.members[m] == t.members[m])
    && (forall grant :: grant in after.grants <==> grant in t.grants && grant.1 != group)
    && (forall grant :: grant in after.grants ==> after.grants[grant] == t.grants[grant])
    && after == t.(groups := after.groups, members := after.members, grants := after.grants)
  }

  lemma OnlyGroupGone(t: Tables, s: Subject, group: int)
    ensures var outcome := DeleteGroup(t, s, group);
            && (outcome.Ok? <==> group in t.groups && ManagesOwners(t, s, group))
            && (outcome.Ok? ==> GroupGone(t, group, outcome.value))
  {
  }

  lemma DeleteGroupKeeps(t: Tables, s: Subject, group: int)
    requires Sound(t) && DeleteGroup(t, s, group).Ok?
    ensures Sound(DeleteGroup(t, s, group).value)
  {
    var after := DeleteGroup(t, s, group).value;
    assert forall u :: KnownUser(t.users, u) ==> KnownUser(after.users, u);
    forall g | g in after.groups ensures exists u :: UserDeletion.Owns(after.members, g, u) {
      var u :| UserDeletion.Owns(t.members, g, u);
      assert (g, u).0 != group && UserDeletion.Owns(after.members, g, u);
    }
    assert ActiveSuperAdmins(after) == ActiveSuperAdmins(t);
  }

  lemma DeleteUserKeeps(t: Tables, s: Subject, userId: int, receiver: int)
    requires Sound(t) && DeleteUser(t, s, userId, receiver).Ok?
    ensures Sound(DeleteUser(t, s, userId, receiver).value)
  {
    GuardedDeletionSucceeds(t, s, userId, receiver);
    DeletionKeepsSound(t, userId, receiver, DeleteUser(t, s, userId, receiver).value);
  }

  /** Who can create a user of which role, with what name and password, and what that adds. */
  lemma AddUserIsExact(t: Tables, s: Subject, id: int, name: string, password: string, role: SystemRole)
    ensures var outcome := AddUser(t, s, id, name, password, role);
            && (outcome.Ok? <==>
                  && (s.role == SuperAdmin || (s.role == Admin && (role == User || role == Auditor)))
                  && name != "" && |password| >= 12 && forall u :: u in t.users ==> t.users[u].username != name)
            && (outcome.Ok? ==> outcome.value == t.(users := t.users[id := UserRow(name, role, true)]))
  {
  }

  lemma AddedUserKeeps(t: Tables, s: Subject, id: int, name: string, password: string, role: SystemRole)
    requires Sound(t) && id > 0 && id !in t.users && Authentic(t, s) && AddUser(t, s, id, name, password, role).Ok?
    ensures Sound(AddUser(t, s, id, name, password, role).value)
  {
    InsertUserKeeps(t, id, name, role);
  }

  lemma CreateUserKeeps(t: Tables, s: Subject, id: int, username: string, password: string, role: SystemRole)
    requires Sound(t) && id > 0 && id !in t.users && Authentic(t, s)
    requires CreateUser(t, s, id, username, password, role).Ok?
    ensures Sound(CreateUser(t, s, id, username, password, role).value)
  {
    AddedUserKeeps(t, s, id, Trim(username), password, role);
  }

  lemma InsertGroupKeeps(t: Tables, id: int, name: string, creator: int)
    requires Sound(t) && id > 0 && id !in t.groups && InsertGroup(t, id, name, creator).Ok?
    ensures Sound(InsertGroup(t, id, name, creator).value)
  {
    NewGroupKeeps(t, id, name, creator);
  }

  lemma InitialAdministratorKeeps(t: Tables, id: int, username: string)
    requires Sound(t) && id > 0 && id !in t.users
    ensures var outcome := CreateInitialAdministrator(t, id, username);
            && outcome.Ok? && Sound(outcome.value)
            && (t.users != map[] ==> outcome.value == t)
            && (t.users == map[] ==> outcome.value.users == map[id := UserRow(username, SuperAdmin, true)])
  {
    if t.users == map[] { InsertUserKeeps(t, id, username, SuperAdmin); }
  }

  lemma AuditedIsValid(t: Tables, row: int, actor: Option<int>)
    requires Valid(t) && AppendAudit(t, row, actor).Ok?
    ensures Valid(AppendAudit(t, row, actor).value)
  {
  }

  lemma AuditKeeps(t: Tables, row: int, actor: Option<int>)
    requires Sound(t) && AppendAudit(t, row, actor).Ok?
    ensures Sound(AppendAudit(t, row, actor).value)
  {
    AuditedIsValid(t, row, actor);
    assert ActiveSuperAdmins(AppendAudit(t, row, actor).value) == ActiveSuperAdmins(t);
  }

  /** The calls that change users. */
  predicate ChangesUsers(op: Operation) {
    op.InitialAdministrator? || op.NewUser? || op.ChangeUser? || op.RemoveUser?
  }

  lemma UserCallKeeps(t: Tables, op: Operation)
    requires Sound(t) && Admitted(t, op) && ChangesUsers(op) && Perform(t, op).Ok?
    ensures Sound(Perform(t, op).value)
  {
    match op
    case InitialAdministrator(id, username) => InitialAdministratorKeeps(t, id, username);
    case NewUser(s, id, username, password, role) => CreateUserKeeps(t, s, id, username, password, role);
    case ChangeUser(s, userId, role, active) => UpdateUserKeeps(t, s, userId, role, active);
    case RemoveUser(s, userId, receiver) => DeleteUserKeeps(t, s, userId, receiver);
  }

  lemma GroupCallKeeps(t: Tables, op: Operation)
    requires Sound(t) && Admitted(t, op) && !ChangesUsers(op) && Perform(t, op).Ok?
    ensures Sound(Perform(t, op).value)
  {
    match op
    case NewGroup(s, id, name) => InsertGroupKeeps(t, id, Trim(name), s.userId);
    case ChangeMember(_, group, user, role) => MembershipsKeep(t, group, user, role);
    case RemoveMember(_, group, user) => MembershipsKeep(t, group, user, Viewer);
    case RemoveGroup(s, group) => DeleteGroupKeeps(t, s, group);
    case WriteAudit(row, actor) => AuditKeeps(t, row, actor);
  }

  lemma CallKeeps(t: Tables, op: Operation)
    requires Sound(t) && Admitted(t, op)
    ensures Sound(Next(t, op))
  {
    if Perform(t, op).Ok? {
      if ChangesUsers(op) { UserCallKeeps(t, op); } else { GroupCallKeeps(t, op); }
    }
  }

  // ---------- Main results ----------

  /**
   Over every run, every group has an owner, an active super administrator exists once any user does,
   and all foreign keys and unique indexes hold.
   */
  lemma {:induction false} RunsKeepSound(t: Tables, ops: seq<Operation>)
    requires Sound(t) && IsRun(t, ops)
    ensures Sound(After(t, ops))
    decreases |ops|
  {
    if ops != [] {
      CallKeeps(t, ops[0]);
      RunsKeepSound(Next(t, ops[0]), ops[1..]);
    }
  }

  /** A database without rows; upgraded ones declare the foreign key of the audit log. */
  function NoRows(auditForeignKey: bool): Tables {
    Tables(map[], map[], map[], map[], {}, map[], map[], map[], map[], auditForeignKey)
  }

  /** In particular every run from an empty database. */
  lemma RunsFromEmptyAreSound(auditForeignKey: bool, ops: seq<Operation>)
    requires IsRun(NoRows(auditForeignKey), ops)
    ensures Sound(After(NoRows(auditForeignKey), ops))
  {
    RunsKeepSound(NoRows(auditForeignKey), ops);
  }

  /** An owner can be removed from a group, or lose that role, exactly when the group has another owner. */
  lemma OwnerLeavesOnlyWithAnother(t: Tables, group: int, user: int, role: GroupRole)
    requires Valid(t) && UserDeletion.Owns(t.members, group, user) && role != Owner
    ensures DeleteMembership(t, group, user).Ok? <==>
      exists other :: other != user && UserDeletion.Owns(t.members, group, other)
    ensures SaveMembership(t, group, user, role).Ok? <==> DeleteMembership(t, group, user).Ok?
  {
    OwnersAreOwners(t, group);
    if |Owners(t, group)| > 1 {
      var other := AnotherOne(Owners(t, group), user);
    }
    if other :| other != user && UserDeletion.Owns(t.members, group, other) {
      SmallerSubset({user, other}, Owners(t, group));
    }
    assert (group, user).0 in t.groups && (group, user).1 in t.users;
  }

  /** With the guards of the application passed, a deletion is refused exactly when an audit row names the user. */
  lemma GuardedDeletionSucceeds(t: Tables, s: Subject, userId: int, receiver: int)
    requires Valid(t) && DeletionRefusal(t, s, userId, receiver).None?
    ensures var after := UserDeletion.DeleteUserRows(t, userId, receiver);
            && (after.None? <==>
                  t.auditForeignKey && exists row :: row in t.auditActors && t.auditActors[row] == Some(userId))
            && DeleteUser(t, s, userId, receiver) == (if after.Some? then Ok(after.value) else Err(ConstraintViolated))
            && (after.Some? ==> UserDeletion.Deleted(t, userId, receiver, after.value))
  {
    UserDeletion.DeletionTransfers(t, userId, receiver);
  }

  /** An upgraded database of two users, one of whom has written an audit row. */
  lemma OneAuditedUser(name: string, other: string) returns (t: Tables)
    requires name != other
    ensures Sound(t) && t.users.Keys == {1, 2} && t.auditActors.Keys == {7}
    ensures DeletionRefusal(t, Subject(1, SuperAdmin), 2, 1).None? && UserDeletion.NamedInAudit(t, 2)
  {
    t := NoRows(true).(
      users := map[1 := UserRow(name, SuperAdmin, true), 2 := UserRow(other, User, true)],
      auditActors := map[7 := Some(2)]);
    assert 1 in ActiveSuperAdmins(t);
    assert t.auditActors[7] == Some(2);
  }

  /** There the super administrator passes every guard and still cannot delete that user. */
  lemma AuditedUserCannotBeDeleted(name: string, other: string) returns (t: Tables)
    requires name != other
    ensures Sound(t) && DeletionRefusal(t, Subject(1, SuperAdmin), 2, 1).None?
    ensures DeleteUser(t, Subject(1, SuperAdmin), 2, 1) == Err(ConstraintViolated)
  {
    t := OneAuditedUser(name, other);
    GuardedDeletionSucceeds(t, Subject(1, SuperAdmin), 2, 1);
  }

  /** On an upgraded database a deletion that would go through no longer does once the user has an audit row. */
  lemma AuditRowBlocksDeletion(t: Tables, s: Subject, userId: int, receiver: int, row: int)
    requires Valid(t) && t.auditForeignKey && row !in t.auditActors && DeleteUser(t, s, userId, receiver).Ok?
    ensures AppendAudit(t, row, Some(userId)).Ok?
    ensures DeleteUser(AppendAudit(t, row, Some(userId)).value, s, userId, receiver) == Err(ConstraintViolated)
  {
    var after := AppendAudit(t, row, Some(userId)).value;
    AuditedIsValid(t, row, Some(userId));
    assert after.auditActors[row] == Some(userId) && UserDeletion.NamedInAudit(after, userId);
    GuardsIgnoreAudit(t, s, userId, receiver, row, Some(userId));
    GuardedDeletionSucceeds(after, s, userId, receiver);
  }

  lemma GuardsIgnoreAudit(t: Tables, s: Subject, userId: int, receiver: int, row: int, actor: Option<int>)
    ensures DeletionRefusal(t.(auditActors := t.auditActors[row := actor]), s, userId, receiver)
         == DeletionRefusal(t, s, userId, receiver)
  {
    assert ActiveSuperAdmins(t.(auditActors := t.auditActors[row := actor])) == ActiveSuperAdmins(t);
  }

  // ---------- Who may change what ----------

  /** The row of a system administrator; None for everyone else. */
  function AdministratorIn(users: map<int, UserRow>, user: int): Option<UserRow> {
    if user in users && Privileged(users[user].role) then Some(users[user]) else None
  }

  function AdministratorRow(t: Tables, user: int): Option<UserRow> { AdministratorIn(t.users, user) }

  /** Whoever is not a super administrator can neither make, change nor remove an administrator. */
  lemma OnlySuperAdminsChangeAdministrators(t: Tables, op: Operation, user: int)
    requires Admitted(t, op) && HasSubject(op) && op.subject.role != SuperAdmin
    ensures AdministratorRow(Next(t, op), user) == AdministratorRow(t, user)
  {
    match op
    case NewUser(s, id, username, password, role) =>
      CreateUserKeepsAdministrators(t, s, id, username, password, role, user);
    case RemoveUser(s, userId, receiver) => assert DeletionRefusal(t, s, userId, receiver).Some?;
    case ChangeUser(s, userId, role, active) => UpdateUserKeepsAdministrators(t, s, userId, role, active, user);
    case _ => GroupCallsKeepUsers(t, op);
  }

  lemma GroupCallsKeepUsers(t: Tables, op: Operation)
    requires !ChangesUsers(op)
    ensures Next(t, op).users == t.users
  {
    match op
    case NewGroup(s, id, name) => CreateGroupKeepsUsers(t, s, id, name);
    case ChangeMember(s, group, user, role) => MembershipsKeepUsers(t, s, group, user, role);
    case RemoveMember(s, group, user) => MembershipsKeepUsers(t, s, group, user, Viewer);
    case _ =>
  }

  lemma CreateGroupKeepsUsers(t: Tables, s: Subject, id: int, name: string)
    ensures var outcome := CreateGroup(t, s, id, name); outcome.Ok? ==> outcome.value.users == t.users
  {
  }

  lemma MembershipsKeepUsers(t: Tables, s: Subject, group: int, user: int, role: GroupRole)
    ensures var outcome := SaveMember(t, s, group, user, role); outcome.Ok? ==> outcome.value.users == t.users
    ensures var outcome := DeleteMember(t, s, group, user); outcome.Ok? ==> outcome.value.users == t.users
  {
  }

  lemma UpdateUserKeepsAdministrators(
      t: Tables, s: Subject, userId: int, role: Option<SystemRole>, active: Option<bool>, user: int)
    requires s.role != SuperAdmin
    ensures var after := UpdateUser(t, s, userId, role, active);
      after.Ok? ==> AdministratorRow(after.value, user) == AdministratorRow(t, user)
  {
  }

  lemma CreateUserKeepsAdministrators(
      t: Tables, s: Subject, id: int, username: string, password: string, role: SystemRole, user: int)
    requires s.role != SuperAdmin && id !in t.users
    ensures var after := CreateUser(t, s, id, username, password, role);
      after.Ok? ==> AdministratorRow(after.value, user) == AdministratorRow(t, user)
  {
    AddUserKeepsAdministrators(t, s, id, Trim(username), password, role, user);
  }

  lemma AddUserKeepsAdministrators(
      t: Tables, s: Subject, id: int, name: string, password: string, role: SystemRole, user: int)
    requires s.role != SuperAdmin && id !in t.users
    ensures var after := AddUser(t, s, id, name, password, role);
      after.Ok? ==> AdministratorRow(after.value, user) == AdministratorRow(t, user)
  {
    AddUserIsExact(t, s, id, name, password, role);
    NewUserIsNoAdministrator(t, id, UserRow(name, role, true), user);
  }

  lemma NewUserIsNoAdministrator(t: Tables, id: int, row: UserRow, user: int)
    requires id !in t.users
    ensures !Privileged(row.role) ==>
      AdministratorRow(t.(users := t.users[id := row]), user) == AdministratorRow(t, user)
  {
  }

  /** The role of an owner or group administrator; None for everyone else. */
  function LeadingRole(t: Tables, group: int, user: int): Option<GroupRole> {
    if OwnerOrAdmin(RoleIn(t, group, user)) then RoleIn(t, group, user) else None
  }

  /** Whoever is neither a system administrator nor an owner of the group leaves its owners and administrators alone. */
  lemma OnlyOwnersChangeLeadingRoles(t: Tables, op: Operation, group: int, user: int)
    requires Admitted(t, op) && HasSubject(op) && group in t.groups && !ManagesOwners(t, op.subject, group)
    ensures group in Next(t, op).groups
    ensures LeadingRole(Next(t, op), group, user) == LeadingRole(t, group, user)
  {
  }
}
