/**
 The calls on users and groups as code over mutable tables: each one is the step of AccessControl that
 the runs consist of, and its contract says what that step means for its caller.
 */
module AccessDatabase {
  import opened Wrappers
  import opened AccessTables
  import opened Text
  import opened Collections
  import opened AccessControl
  import UserDeletion

  /** The connection's tables, changed statement by statement inside transactions. */
  class Database {
    var tables: Tables

    constructor (tables: Tables)
      ensures this.tables == tables
    {
      this.tables := tables;
    }

    /**
     The transaction of the repository's `deleteUser`. On valid tables it is refused exactly when an audit
     row names the user through a foreign key, and a refused statement restores the tables; otherwise
     everything of the user has gone to the receiver and every constraint holds.
     */
    method DeleteUserRows(user: int, receiver: int) returns (ok: bool)
      modifies this
      ensures !ok ==> tables == old(tables)
      ensures Valid(old(tables)) && user != receiver && {user, receiver} <= old(tables).users.Keys ==>
        && (!ok <==>
              && old(tables).auditForeignKey
              && exists row :: row in old(tables).auditActors && old(tables).auditActors[row] == Some(user))
        && (ok ==> UserDeletion.Deleted(old(tables), user, receiver, tables) && Valid(tables))
      ensures ok <==> UserDeletion.DeleteUserRows(old(tables), user, receiver).Some?
      ensures tables == if ok then UserDeletion.DeleteUserRows(old(tables), user, receiver).value else old(tables)
    {
      var before := tables;
      var grouped := UserDeletion.TransferGroups(tables, user, receiver);
      if grouped.None? {
        return false;
      }
      tables := grouped.value;
      tables := UserDeletion.CopyTagLinks(tables, user, receiver);
      tables := UserDeletion.DropDuplicateTags(tables, user, receiver);
      ok := TransferOwned(user, receiver);
      if ok {
        var dropped := UserDeletion.DropUser(tables, user);
        ok := dropped.Some?;
        tables := if ok then dropped.value else tables;
      }
      if !ok {
        tables := before;
      }
      DeletionMeans(before, user, receiver);
    }

    /** The loop of owner updates over the resource tables, tags last. */
    method TransferOwned(user: int, receiver: int) returns (ok: bool)
      modifies this
      ensures var owned := UserDeletion.TransferAll(old(tables), UserDeletion.KINDS, user, receiver);
              var tagged := if owned.None? then None else UserDeletion.TransferTags(owned.value, user, receiver);
              (ok <==> tagged.Some?) && (ok ==> tables == tagged.value)
    {
      var kinds := UserDeletion.KINDS;
      assert kinds[0..] == kinds;
      for i := 0 to |kinds|
        invariant UserDeletion.TransferAll(tables, kinds[i..], user, receiver)
          == UserDeletion.TransferAll(old(tables), kinds, user, receiver)
      {
        assert kinds[i..][1..] == kinds[i + 1..];
        var moved := UserDeletion.TransferResources(tables, kinds[i], user, receiver);
        if moved.None? {
          return false;
        }
        tables := moved.value;
      }
      var tagged := UserDeletion.TransferTags(tables, user, receiver);
      ok := tagged.Some?;
      tables := if ok then tagged.value else tables;
    }

    /** The application's `deleteUser`: guards first, then the transaction. */
    method DeleteUser(s: Subject, userId: int, receiver: int) returns (thrown: Option<Error>)
      modifies this
      ensures Settles(AccessControl.DeleteUser(old(tables), s, userId, receiver), old(tables), thrown, tables)
      ensures Sound(old(tables)) ==> Sound(tables)
      ensures Valid(old(tables)) && thrown.None? ==> UserDeletion.Deleted(old(tables), userId, receiver, tables)
      ensures Valid(old(tables)) ==>
        (thrown == Some(ConstraintViolated) <==>
           && DeletionRefusal(old(tables), s, userId, receiver).None?
           && old(tables).auditForeignKey
           && exists row :: row in old(tables).auditActors && old(tables).auditActors[row] == Some(userId))
      ensures thrown == Some(LastSuperAdministrator) ==> ActiveSuperAdmins(old(tables)) == {userId}
    {
      DeleteUserMeans(tables, s, userId, receiver);
      if s.role != SuperAdmin { return Some(SuperAdministratorRequired); }
      if s.userId == userId { return Some(CannotDeleteYourself); }
      if userId == receiver { return Some(ReceiverMustDiffer); }
      if userId !in tables.users || receiver !in tables.users { return Some(UserNotFound); }
      if !tables.users[receiver].active { return Some(ReceiverMustBeActive); }
      var target := tables.users[userId];
      if target.role == SuperAdmin && target.active && |ActiveSuperAdmins(tables)| <= 1 {
        OnlyElement(ActiveSuperAdmins(tables), userId);
        return Some(LastSuperAdministrator);
      }
      var ok := DeleteUserRows(userId, receiver);
      thrown := if ok then None else Some(ConstraintViolated);
    }

    /** The application's `updateUser` and the statement below it. */
    method UpdateUser(s: Subject, userId: int, role: Option<SystemRole>, active: Option<bool>)
      returns (thrown: Option<Error>)
      modifies this
      ensures Settles(AccessControl.UpdateUser(old(tables), s, userId, role, active), old(tables), thrown, tables)
      ensures Sound(old(tables)) ==> Sound(tables)
      ensures s.role != SuperAdmin ==>
        forall u :: AdministratorRow(tables, u) == AdministratorRow(old(tables), u)
      ensures thrown == Some(LastSuperAdministrator) ==> ActiveSuperAdmins(old(tables)) == {userId}
    {
      UpdateUserMeans(tables, s, userId, role, active);
      if !IsSystemAdministrator(s) { return Some(SystemAdministratorRequired); }
      if s.userId == userId && active == Some(false) { return Some(CannotDisableYourself); }
      if userId !in tables.users { return Some(UserNotFound); }
      var target := tables.users[userId];
      var elevating := role.Some? && Privileged(role.value);
      if s.role != SuperAdmin && (Privileged(target.role) || elevating) { return Some(SuperAdministratorRequired); }
      var removing := target.role == SuperAdmin && target.active
                      && (active == Some(false) || (role.Some? && role.value != SuperAdmin));
      if removing && |ActiveSuperAdmins(tables)| <= 1 {
        OnlyElement(ActiveSuperAdmins(tables), userId);
        return Some(LastSuperAdministrator);
      }
      tables := tables.(users := tables.users[userId := UpdatedRow(target, role, active)]);
      thrown := None;
    }

    /** Creates a group and its first owner in one transaction. */
    method CreateGroup(s: Subject, id: int, name: string) returns (thrown: Option<Error>)
      requires id > 0 && id !in tables.groups
      modifies this
      ensures Settles(AccessControl.CreateGroup(old(tables), s, id, name), old(tables), thrown, tables)
      ensures Sound(old(tables)) ==> Sound(tables)
      ensures Valid(old(tables)) && thrown.None? ==> IsNewGroup(old(tables), id, Trim(name), s.userId, tables)
    {
      if !IsSystemAdministrator(s) { return Some(SystemAdministratorRequired); }
      var trimmed := Trim(name);
      if trimmed == "" { return Some(GroupNameRequired); }
      if s.userId !in tables.users || exists g :: g in tables.groups && tables.groups[g].name == trimmed {
        return Some(ConstraintViolated);
      }
      NewGroupMeans(tables, id, trimmed, s.userId);
      tables := tables.(groups := tables.groups[id := GroupRow(trimmed, Some(s.userId))]);
      tables := tables.(members := tables.members[(id, s.userId) := Owner]);
      thrown := None;
    }

    /** Reads the current role, counts owners when one would be demoted, and writes the membership. */
    method SaveMembership(group: int, user: int, role: GroupRole) returns (thrown: Option<Error>)
      modifies this
      ensures Settles(AccessControl.SaveMembership(old(tables), group, user, role), old(tables), thrown, tables)
      ensures Sound(old(tables)) ==> Sound(tables)
      ensures thrown == Some(LastOwner) <==> role != Owner && Owners(old(tables), group) == {user}
      ensures thrown.None? ==>
        forall g, u :: RoleIn(tables, g, u) == if (g, u) == (group, user) then Some(role) else RoleIn(old(tables), g, u)
    {
      MembershipMeans(tables, group, user, role);
      var current := RoleIn(tables, group, user);
      if current == Some(Owner) && role != Owner {
        var owners := |Owners(tables, group)|;
        if owners <= 1 { return Some(LastOwner); }
      }
      if group !in tables.groups || user !in tables.users { return Some(ConstraintViolated); }
      tables := tables.(members := tables.members[(group, user) := role]);
      thrown := None;
    }

    /** Reads the current role, counts owners when one would go, and deletes the membership. */
    method DeleteMembership(group: int, user: int) returns (thrown: Option<Error>)
      modifies this
      ensures Settles(AccessControl.DeleteMembership(old(tables), group, user), old(tables), thrown, tables)
      ensures Sound(old(tables)) ==> Sound(tables)
      ensures thrown == Some(LastOwner) <==> Owners(old(tables), group) == {user}
      ensures thrown.None? ==>
        forall g, u :: RoleIn(tables, g, u) == if (g, u) == (group, user) then None else RoleIn(old(tables), g, u)
    {
      MembershipMeans(tables, group, user, Viewer);
      var current := RoleIn(tables, group, user);
      if current.None? { return Some(MembershipNotFound); }
      if current == Some(Owner) {
        var owners := |Owners(tables, group)|;
        if owners <= 1 { return Some(LastOwner); }
      }
      tables := tables.(members := tables.members - {(group, user)});
      thrown := None;
    }
  }

  lemma OnlyElement<T>(s: set<T>, x: T)
    requires x in s
    ensures |s| <= 1 <==> s == {x}
  {
    if |s| <= 1 && s != {x} {
      var y :| y in s && y != x;
      SmallerSubset({x, y}, s);
    }
  }

  lemma DeletionMeans(t: Tables, user: int, receiver: int)
    ensures Valid(t) && user != receiver && {user, receiver} <= t.users.Keys ==>
      var after := UserDeletion.DeleteUserRows(t, user, receiver);
      && (after.None? <==>
            t.auditForeignKey && exists row :: row in t.auditActors && t.auditActors[row] == Some(user))
      && (after.Some? ==> UserDeletion.Deleted(t, user, receiver, after.value) && Valid(after.value))
  {
    if Valid(t) && user != receiver && {user, receiver} <= t.users.Keys {
      assert user in t.users && receiver in t.users;
      UserDeletion.DeletionTransfers(t, user, receiver);
      var after := UserDeletion.DeleteUserRows(t, user, receiver);
      if after.Some? { UserDeletion.DeletionKeepsValid(t, user, receiver, after.value); }
    }
  }

  lemma DeleteUserMeans(t: Tables, s: Subject, userId: int, receiver: int)
    ensures var outcome := AccessControl.DeleteUser(t, s, userId, receiver);
            && (Sound(t) && outcome.Ok? ==> Sound(outcome.value))
            && (Valid(t) && outcome.Ok? ==> UserDeletion.Deleted(t, userId, receiver, outcome.value))
            && (Valid(t) ==>
                  (outcome == Err(ConstraintViolated) <==>
                     && DeletionRefusal(t, s, userId, receiver).None?
                     && t.auditForeignKey
                     && exists row :: row in t.auditActors && t.auditActors[row] == Some(userId)))
  {
    if Sound(t) && AccessControl.DeleteUser(t, s, userId, receiver).Ok? { DeleteUserKeeps(t, s, userId, receiver); }
    if Valid(t) && DeletionRefusal(t, s, userId, receiver).None? { GuardedDeletionSucceeds(t, s, userId, receiver); }
  }

  lemma UpdateUserMeans(t: Tables, s: Subject, userId: int, role: Option<SystemRole>, active: Option<bool>)
    ensures var outcome := AccessControl.UpdateUser(t, s, userId, role, active);
            outcome.Ok? ==>
              && (Sound(t) ==> Sound(outcome.value))
              && (s.role != SuperAdmin ==>
                    forall u :: AdministratorRow(outcome.value, u) == AdministratorRow(t, u))
  {
    if Sound(t) && AccessControl.UpdateUser(t, s, userId, role, active).Ok? {
      UpdateUserKeeps(t, s, userId, role, active);
    }
  }

  lemma NewGroupMeans(t: Tables, id: int, name: string, creator: int)
    requires id > 0 && id !in t.groups && creator in t.users
    requires forall g :: g in t.groups ==> t.groups[g].name != name
    ensures var after := t.(
              groups := t.groups[id := GroupRow(name, Some(creator))], members := t.members[(id, creator) := Owner]);
            (Sound(t) ==> Sound(after)) && (Valid(t) ==> IsNewGroup(t, id, name, creator, after))
  {
    if Sound(t) { NewGroupKeeps(t, id, name, creator); }
    if Valid(t) { GroupIsNew(t, id, name, creator); }
  }

  /** The group has its creator as only owner, and the members of all other groups are as before. */
  ghost predicate IsNewGroup(before: Tables, id: int, name: string, creator: int, after: Tables) {
    && id in after.groups && after.groups[id].name == name && Owners(after, id) == {creator}
    && forall g, u :: g != id ==> RoleIn(after, g, u) == RoleIn(before, g, u)
  }

  lemma GroupIsNew(t: Tables, id: int, name: string, creator: int)
    requires Valid(t) && id !in t.groups
    ensures IsNewGroup(t, id, name, creator,
              t.(groups := t.groups[id := GroupRow(name, Some(creator))], members := t.members[(id, creator) := Owner]))
  {
    var members := t.members[(id, creator) := Owner];
    assert (id, creator) in members;
  }

  lemma MembershipMeans(t: Tables, group: int, user: int, role: GroupRole)
    ensures var saved := AccessControl.SaveMembership(t, group, user, role);
            && (Sound(t) && saved.Ok? ==> Sound(saved.value))
            && (saved == Err(LastOwner) <==> role != Owner && Owners(t, group) == {user})
    ensures var deleted := AccessControl.DeleteMembership(t, group, user);
            && (Sound(t) && deleted.Ok? ==> Sound(deleted.value))
            && (deleted == Err(LastOwner) <==> Owners(t, group) == {user})
  {
    if Sound(t) { MembershipsKeep(t, group, user, role); }
    OwnersAreOwners(t, group);
    if user in Owners(t, group) { OnlyElement(Owners(t, group), user); }
    assert Owners(t, group) == {user} ==> user in Owners(t, group);
  }

  /** The call threw and changed nothing, or it left the tables of its outcome. */
  ghost predicate Settles(outcome: Outcome, before: Tables, thrown: Option<Error>, after: Tables) {
    match outcome
    case Ok(tables) => thrown.None? && after == tables
    case Err(e) => thrown == Some(e) && after == before
  }
}
