/** Who may do what with a connection: the policy, the single check, and the batch check. */
module ConnectionAccess {
  import opened Wrappers
  import opened AccessTables
  import opened Collections
  import AccessControl

  type Subject = AccessControl.Subject

  datatype Grant = Grant(groupRole: GroupRole, permission: Permission)

  // ---------- The policy ----------

  function Level(p: Permission): nat {
    match p
    case NoAccess => 0
    case View => 1
    case Connect => 2
    case Manage => 3
  }

  function RoleLimit(role: GroupRole): Permission {
    match role
    case Viewer => View
    case Operator => Connect
    case GroupAdmin => Manage
    case Owner => Manage
  }

  function Min(a: nat, b: nat): nat { if a < b then a else b }

  function GrantLevel(g: Grant): nat {
    Min(Level(g.permission), Level(RoleLimit(g.groupRole)))
  }

  function PermissionAtLevel(level: nat): Permission {
    if level == 1 then View else if level == 2 then Connect else if level == 3 then Manage else NoAccess
  }

  /** The CASE expression used by the list projection. */
  function SqlLevel(g: Grant): nat {
    if g.groupRole == Viewer then 1
    else if g.groupRole == Operator && (g.permission == Connect || g.permission == Manage) then 2
    else if (g.groupRole == GroupAdmin || g.groupRole == Owner) && g.permission == Manage then 3
    else if g.permission == Connect then 2
    else 1
  }

  /** The SQL projection and the runtime rule agree on every grant the schema allows. */
  lemma SqlAgreesWithPolicy(g: Grant)
    ensures SqlLevel(g) == GrantLevel(g) <==> g.permission != NoAccess
  {
  }

  predicate HasFullAccess(s: Subject, owner: Option<int>) {
    s.role == SuperAdmin || s.role == Admin || owner == Some(s.userId)
  }

  function BaseLevel(s: Subject): nat { if s.role == Auditor then Level(View) else Level(NoAccess) }

  /** The permission is the highest that the role of the subject or any one grant gives. */
  ghost predicate IsResolution(s: Subject, owner: Option<int>, grants: multiset<Grant>, p: Permission) {
    if HasFullAccess(s, owner) then p == Manage
    else
      && BaseLevel(s) <= Level(p)
      && (forall g :: g in grants ==> GrantLevel(g) <= Level(p))
      && (BaseLevel(s) == Level(p) || exists g :: g in grants && GrantLevel(g) == Level(p))
  }

  lemma ResolutionIsUnique(s: Subject, owner: Option<int>, grants: multiset<Grant>, p: Permission, q: Permission)
    requires IsResolution(s, owner, grants, p) && IsResolution(s, owner, grants, q)
    ensures p == q
  {
  }

  method ResolveConnectionPermission(s: Subject, owner: Option<int>, grants: seq<Grant>) returns (p: Permission)
    ensures IsResolution(s, owner, multiset(grants), p)
  {
    if HasFullAccess(s, owner) {
      return Manage;
    }
    var effectiveLevel := BaseLevel(s);
    for i := 0 to |grants|
      invariant BaseLevel(s) <= effectiveLevel <= 3
      invariant forall k :: 0 <= k < i ==> GrantLevel(grants[k]) <= effectiveLevel
      invariant effectiveLevel == BaseLevel(s) || exists k :: 0 <= k < i && GrantLevel(grants[k]) == effectiveLevel
    {
      var grantLevel := GrantLevel(grants[i]);
      effectiveLevel := if grantLevel > effectiveLevel then grantLevel else effectiveLevel;
    }
    p := PermissionAtLevel(effectiveLevel);
    assert forall g :: g in multiset(grants) ==> g in grants;
    assert forall k :: 0 <= k < |grants| ==> grants[k] in multiset(grants);
  }

  predicate HasConnectionPermission(actual: Permission, required: Permission) {
    Level(actual) >= Level(required)
  }

  // ---------- What the tables say ----------

  /** The decision in terms of the tables alone. */
  ghost predicate Allowed(t: Tables, s: Subject, connection: int, required: Permission)
    requires (Connections, connection) in t.owners
  {
    || HasFullAccess(s, t.owners[(Connections, connection)])
    || Level(required) <= BaseLevel(s)
    || exists group :: GrantReaches(t, s, connection, group, required)
  }

  /** The subject is in the group, and the group's grant, capped by the subject's role in it, suffices. */
  predicate GrantReaches(t: Tables, s: Subject, connection: int, group: int, required: Permission) {
    && (connection, group) in t.grants && (group, s.userId) in t.members
    && Level(required) <= GrantLevel(Grant(t.members[(group, s.userId)], t.grants[(connection, group)]))
  }

  datatype AccessError = ConnectionNotFound | AccessDenied

  ghost function Check(t: Tables, s: Subject, connection: int, required: Permission): Option<AccessError> {
    if (Connections, connection) !in t.owners then Some(ConnectionNotFound)
    else if Allowed(t, s, connection, required) then None
    else Some(AccessDenied)
  }

  // ---------- The single check ----------

  /** A row of the join of grants and memberships; the group identifies it. */
  datatype GrantRow = GrantRow(group: int, role: GroupRole, permission: Permission)

  function GrantRows(t: Tables, user: int, connection: int): set<GrantRow> {
    set key | key in t.grants && key.0 == connection && (key.1, user) in t.members
      :: GrantRow(key.1, t.members[(key.1, user)], t.grants[key])
  }

  function GrantsOf(rows: seq<GrantRow>): seq<Grant> {
    seq(|rows|, i requires 0 <= i < |rows| => Grant(rows[i].role, rows[i].permission))
  }

  /** The engine's answer to a query: its rows in an arbitrary order. */
  method Fetch<T(==)>(answer: set<T>) returns (rows: seq<T>)
    ensures Distinct(rows) && forall row :: row in rows <==> row in answer
  {
    rows := [];
    var left := answer;
    while left != {}
      invariant left <= answer && Distinct(rows)
      invariant forall row :: row in rows <==> row in answer - left
      decreases |left|
    {
      var row :| row in left;
      DistinctConcat(rows, [row]);
      rows := rows + [row];
      left := left - {row};
    }
  }

  datatype Access = Access(owner: Option<int>, grants: seq<Grant>)

  /** The grants of an access record are those of the tables, in some order. */
  ghost predicate Describes(t: Tables, user: int, connection: int, access: Access) {
    && (Connections, connection) in t.owners && access.owner == t.owners[(Connections, connection)]
    && exists rows: seq<GrantRow> :: Enumerates(rows, GrantRows(t, user, connection)) && access.grants == GrantsOf(rows)
  }

  ghost predicate Enumerates<T(!new)>(rows: seq<T>, answer: set<T>) {
    Distinct(rows) && forall row :: row in rows <==> row in answer
  }

  method ReadConnectionAccess(t: Tables, user: int, connection: int) returns (access: Option<Access>)
    ensures access.Some? <==> (Connections, connection) in t.owners
    ensures access.Some? ==> Describes(t, user, connection, access.value)
  {
    if (Connections, connection) !in t.owners {
      return None;
    }
    var rows := Fetch(GrantRows(t, user, connection));
    access := Some(Access(t.owners[(Connections, connection)], GrantsOf(rows)));
  }

  lemma ResolutionDecides(t: Tables, s: Subject, connection: int, access: Access, p: Permission, required: Permission)
    requires Describes(t, s.userId, connection, access)
    requires IsResolution(s, access.owner, multiset(access.grants), p)
    ensures HasConnectionPermission(p, required) <==> Allowed(t, s, connection, required)
  {
    var rows: seq<GrantRow> :| Enumerates(rows, GrantRows(t, s.userId, connection)) && access.grants == GrantsOf(rows);
    if HasConnectionPermission(p, required) && !HasFullAccess(s, access.owner) && Level(required) > BaseLevel(s) {
      ReachingGrant(t, s, connection, rows, p, required);
    }
    if group :| GrantReaches(t, s, connection, group, required) {
      ReachedLevel(t, s, connection, rows, group, required);
    }
  }

  /** A resolution above the base level comes from a grant of one of the rows. */
  lemma ReachingGrant(
      t: Tables, s: Subject, connection: int, rows: seq<GrantRow>, p: Permission, required: Permission)
    requires Enumerates(rows, GrantRows(t, s.userId, connection))
    requires exists g :: g in multiset(GrantsOf(rows)) && GrantLevel(g) == Level(p)
    requires Level(required) <= Level(p)
    ensures exists group :: GrantReaches(t, s, connection, group, required)
  {
    var g :| g in multiset(GrantsOf(rows)) && GrantLevel(g) == Level(p);
    var k :| 0 <= k < |rows| && GrantsOf(rows)[k] == g;
    assert rows[k] in GrantRows(t, s.userId, connection);
    assert GrantReaches(t, s, connection, rows[k].group, required);
  }

  /** A grant that reaches the level is among those of the rows. */
  lemma ReachedLevel(t: Tables, s: Subject, connection: int, rows: seq<GrantRow>, group: int, required: Permission)
    requires Enumerates(rows, GrantRows(t, s.userId, connection)) && GrantReaches(t, s, connection, group, required)
    ensures exists g :: g in multiset(GrantsOf(rows)) && Level(required) <= GrantLevel(g)
  {
    var row := GrantRow(group, t.members[(group, s.userId)], t.grants[(connection, group)]);
    assert (connection, group).0 == connection && row in GrantRows(t, s.userId, connection);
    var k :| 0 <= k < |rows| && rows[k] == row;
    assert GrantsOf(rows)[k] in multiset(GrantsOf(rows));
  }

  method RequireConnectionPermission(t: Tables, s: Subject, connection: int, required: Permission)
    returns (thrown: Option<AccessError>)
    ensures thrown == Check(t, s, connection, required)
  {
    var access := ReadConnectionAccess(t, s.userId, connection);
    if access.None? {
      return Some(ConnectionNotFound);
    }
    var permission := ResolveConnectionPermission(s, access.value.owner, access.value.grants);
    ResolutionDecides(t, s, connection, access.value, permission, required);
    thrown := if HasConnectionPermission(permission, required) then None else Some(AccessDenied);
  }

  // ---------- The batch check ----------

  /** A row of the left join of connections, grants and memberships. */
  datatype AccessRow = AccessRow(
    connection: int, owner: Option<int>, group: Option<int>, role: Option<GroupRole>, permission: Option<Permission>)

  function LeftJoin(t: Tables, user: int, ids: set<int>): set<AccessRow> {
    (set c | c in ids && (Connections, c) in t.owners && !(exists key :: key in t.grants && key.0 == c)
       :: AccessRow(c, t.owners[(Connections, c)], None, None, None))
    + (set key | key in t.grants && key.0 in ids && (Connections, key.0) in t.owners
         :: AccessRow(key.0, t.owners[(Connections, key.0)], Some(key.1),
                      AccessControl.RoleIn(t, key.1, user), Some(t.grants[key])))
  }

  /** The rows of one connection that carry a grant, in order. */
  function GrantRowsIn(rows: seq<AccessRow>, connection: int): seq<GrantRow> {
    if rows == [] then [] else
      var row := rows[|rows| - 1];
      GrantRowsIn(rows[..|rows| - 1], connection)
      + if row.connection == connection && row.group.Some? && row.role.Some? && row.permission.Some?
        then [GrantRow(row.group.value, row.role.value, row.permission.value)] else []
  }

  /** What the loop over the rows collects for one connection. */
  ghost predicate Collects(rows: seq<AccessRow>, result: map<int, Access>) {
    && (forall c :: c in result <==> exists k :: 0 <= k < |rows| && rows[k].connection == c)
    && (forall c :: c in result ==> result[c].grants == GrantsOf(GrantRowsIn(rows, c)))
    && (forall c :: c in result ==> HasOwner(rows, c, result[c].owner))
  }

  ghost predicate HasOwner(rows: seq<AccessRow>, connection: int, owner: Option<int>) {
    exists k :: 0 <= k < |rows| && rows[k].connection == connection && rows[k].owner == owner
  }

  /** The join row that carries a given grant row. */
  function Carrier(t: Tables, connection: int, row: GrantRow): AccessRow
    requires (Connections, connection) in t.owners
  {
    AccessRow(connection, t.owners[(Connections, connection)], Some(row.group), Some(row.role), Some(row.permission))
  }

  lemma {:induction false} GrantRowsInElements(t: Tables, user: int, ids: set<int>, rows: seq<AccessRow>, c: int)
    requires (Connections, c) in t.owners
    requires Distinct(rows) && forall row :: row in rows ==> row in LeftJoin(t, user, ids)
    ensures forall x :: x in GrantRowsIn(rows, c) <==> Carrier(t, c, x) in rows
    ensures Distinct(GrantRowsIn(rows, c))
  {
    if rows != [] {
      var m := |rows| - 1;
      var row := rows[m];
      assert forall k :: 0 <= k < m ==> rows[..m][k] == rows[k];
      GrantRowsInElements(t, user, ids, rows[..m], c);
      assert row in LeftJoin(t, user, ids);
      if row.connection == c && row.group.Some? && row.role.Some? && row.permission.Some? {
        var x := GrantRow(row.group.value, row.role.value, row.permission.value);
        assert Carrier(t, c, x) == row;
        assert row !in rows[..m];
        DistinctConcat(GrantRowsIn(rows[..m], c), [x]);
      }
      assert forall x :: Carrier(t, c, x) in rows <==> Carrier(t, c, x) in rows[..m] || Carrier(t, c, x) == row;
    }
  }

  lemma CarriersAreGrantRows(t: Tables, user: int, ids: set<int>, c: int, x: GrantRow)
    requires (Connections, c) in t.owners && c in ids
    ensures Carrier(t, c, x) in LeftJoin(t, user, ids) <==> x in GrantRows(t, user, c)
  {
  }

  /** What the loop collected for a connection is what the single read returns, up to order. */
  lemma CollectedDescribes(
      t: Tables, user: int, ids: set<int>, rows: seq<AccessRow>, result: map<int, Access>, c: int)
    requires Enumerates(rows, LeftJoin(t, user, ids)) && Collects(rows, result) && c in result
    ensures c in ids && Describes(t, user, c, result[c])
  {
    var k :| 0 <= k < |rows| && rows[k].connection == c && rows[k].owner == result[c].owner;
    assert rows[k] in LeftJoin(t, user, ids);
    GrantRowsInElements(t, user, ids, rows, c);
    forall x ensures x in GrantRowsIn(rows, c) <==> x in GrantRows(t, user, c) {
      CarriersAreGrantRows(t, user, ids, c, x);
    }
    assert Enumerates(GrantRowsIn(rows, c), GrantRows(t, user, c));
  }

  lemma EveryConnectionHasARow(t: Tables, user: int, ids: set<int>, rows: seq<AccessRow>, c: int)
    requires Enumerates(rows, LeftJoin(t, user, ids)) && c in ids && (Connections, c) in t.owners
    ensures exists k :: 0 <= k < |rows| && rows[k].connection == c
  {
    var row := AccessRow(c, t.owners[(Connections, c)], None, None, None);
    if key :| key in t.grants && key.0 == c {
      row := AccessRow(
        c, t.owners[(Connections, c)], Some(key.1), AccessControl.RoleIn(t, key.1, user), Some(t.grants[key]));
    }
    assert row in LeftJoin(t, user, ids);
    assert row in rows;
  }

  lemma {:induction false} NoRowsNoGrants(rows: seq<AccessRow>, c: int)
    requires forall k :: 0 <= k < |rows| ==> rows[k].connection != c
    ensures GrantRowsIn(rows, c) == []
  {
    if rows != [] { NoRowsNoGrants(rows[..|rows| - 1], c); }
  }

  /** The access record after one more row. */
  function Collected(result: map<int, Access>, row: AccessRow): Access {
    var access := if row.connection in result then result[row.connection] else Access(row.owner, []);
    if row.role.Some? && row.permission.Some?
    then access.(grants := access.grants + [Grant(row.role.value, row.permission.value)])
    else access
  }

  lemma CollectsOneMore(rows: seq<AccessRow>, i: nat, result: map<int, Access>)
    requires i < |rows| && Collects(rows[..i], result)
    requires rows[i].role.Some? ==> rows[i].group.Some?
    ensures Collects(rows[..i + 1], result[rows[i].connection := Collected(result, rows[i])])
  {
    var row, before, after := rows[i], rows[..i], rows[..i + 1];
    var next := result[row.connection := Collected(result, row)];
    assert after == before + [row];
    if row.connection !in result { NoRowsNoGrants(before, row.connection); }
    forall c | c in next ensures next[c].grants == GrantsOf(GrantRowsIn(after, c)) {
      assert after[..i] == before;
      if c != row.connection { assert GrantRowsIn(after, c) == GrantRowsIn(before, c); }
    }
    forall c | c in next ensures HasOwner(after, c, next[c].owner) {
      OwnersOneMore(before, row, c, next[c].owner);
      if c in result { assert HasOwner(before, c, result[c].owner); }
    }
    forall c ensures c in next <==> exists k :: 0 <= k < |after| && after[k].connection == c {
      KeysOneMore(before, row, c);
    }
  }

  lemma OwnersOneMore(before: seq<AccessRow>, row: AccessRow, connection: int, owner: Option<int>)
    ensures HasOwner(before + [row], connection, owner) <==>
      HasOwner(before, connection, owner) || (row.connection == connection && row.owner == owner)
  {
    var after := before + [row];
    if k :| 0 <= k < |before| && before[k].connection == connection && before[k].owner == owner {
      assert after[k] == before[k];
    }
    assert after[|before|] == row;
  }

  lemma KeysOneMore(before: seq<AccessRow>, row: AccessRow, connection: int)
    ensures (exists k :: 0 <= k < |before + [row]| && (before + [row])[k].connection == connection) <==>
      (exists k :: 0 <= k < |before| && before[k].connection == connection) || row.connection == connection
  {
    var after := before + [row];
    if k :| 0 <= k < |before| && before[k].connection == connection {
      assert after[k] == before[k];
    }
    assert after[|before|] == row;
  }

  method ReadConnectionAccessList(t: Tables, user: int, ids: seq<int>) returns (result: map<int, Access>)
    ensures forall c :: c in result <==> c in ids && (Connections, c) in t.owners
    ensures forall c :: c in result ==> Describes(t, user, c, result[c])
  {
    result := map[];
    if ids == [] {
      return;
    }
    var wanted := set c | c in ids;
    var rows := Fetch(LeftJoin(t, user, wanted));
    for i := 0 to |rows|
      invariant Collects(rows[..i], result)
    {
      var row := rows[i];
      assert rows[i] in LeftJoin(t, user, wanted);
      var access := if row.connection in result then result[row.connection] else Access(row.owner, []);
      if row.role.Some? && row.permission.Some? {
        access := access.(grants := access.grants + [Grant(row.role.value, row.permission.value)]);
      }
      CollectsOneMore(rows, i, result);
      result := result[row.connection := access];
    }
    assert rows[..|rows|] == rows;
    forall c | c in result ensures c in wanted && Describes(t, user, c, result[c]) {
      CollectedDescribes(t, user, wanted, rows, result, c);
    }
    forall c | c in ids && (Connections, c) in t.owners ensures c in result {
      EveryConnectionHasARow(t, user, wanted, rows, c);
    }
  }

  // ---------- The list projection ----------

  /** MAX of the CASE expression over the rows, 0 when there are none. */
  function SqlMaximum(grants: seq<Grant>): nat {
    if grants == [] then 0 else
      var last, rest := SqlLevel(grants[|grants| - 1]), SqlMaximum(grants[..|grants| - 1]);
      if last > rest then last else rest
  }

  function ListedAtLevel(level: nat): Permission {
    if level == 3 then Manage else if level == 2 then Connect else View
  }

  lemma {:induction false} SqlMaximumIsAttained(grants: seq<Grant>)
    requires forall i :: 0 <= i < |grants| ==> grants[i].permission != NoAccess
    ensures forall i :: 0 <= i < |grants| ==> 1 <= GrantLevel(grants[i]) <= SqlMaximum(grants)
    ensures if grants == [] then SqlMaximum(grants) == 0
            else exists i :: 0 <= i < |grants| && GrantLevel(grants[i]) == SqlMaximum(grants)
  {
    if grants != [] {
      var front, last := grants[..|grants| - 1], grants[|grants| - 1];
      SqlMaximumIsAttained(front);
      SqlAgreesWithPolicy(last);
      assert forall i :: 0 <= i < |front| ==> front[i] == grants[i];
    }
  }

  /** The maximum of the SQL expression is what the resolver makes of the same grants. */
  lemma SqlMaximumResolves(s: Subject, owner: Option<int>, grants: seq<Grant>)
    requires s.role == User && owner != Some(s.userId) && grants != []
    requires forall i :: 0 <= i < |grants| ==> grants[i].permission != NoAccess
    ensures IsResolution(s, owner, multiset(grants), ListedAtLevel(SqlMaximum(grants)))
  {
    SqlMaximumIsAttained(grants);
    var i :| 0 <= i < |grants| && GrantLevel(grants[i]) == SqlMaximum(grants);
    assert grants[i] in multiset(grants);
    forall g | g in multiset(grants) ensures GrantLevel(g) <= SqlMaximum(grants) {
      var k :| 0 <= k < |grants| && grants[k] == g;
    }
  }

  /** The permission a connection is listed with; None when it is not listed. */
  method ListedPermission(t: Tables, s: Subject, connection: int) returns (listed: Option<Permission>)
    requires Valid(t)
    ensures listed.Some? <==> Check(t, s, connection, View).None?
    ensures listed.Some? && s.role != Auditor ==> Shows(t, s, connection, listed.value)
    ensures listed.Some? && s.role == Auditor ==>
      (Shows(t, s, connection, listed.value) <==> !Allowed(t, s, connection, Connect))
  {
    if (Connections, connection) !in t.owners {
      return None;
    }
    if s.role == SuperAdmin || s.role == Admin {
      return Some(Manage);
    }
    if s.role == Auditor {
      AuditorsAreShownView(t, s, connection);
      return Some(View);
    }
    var owner := t.owners[(Connections, connection)];
    if owner == Some(s.userId) {
      return Some(Manage);
    }
    var rows := Fetch(GrantRows(t, s.userId, connection));
    ListedRowsDecide(t, s, connection, rows);
    listed := if rows == [] then None else Some(ListedAtLevel(SqlMaximum(GrantsOf(rows))));
  }

  /** The listed permission covers exactly what the single check allows. */
  ghost predicate Shows(t: Tables, s: Subject, connection: int, listed: Permission)
    requires (Connections, connection) in t.owners
  {
    forall required: Permission :: HasConnectionPermission(listed, required) <==> Allowed(t, s, connection, required)
  }

  /** Allowing a permission allows the lower ones. */
  lemma AllowedIsMonotone(t: Tables, s: Subject, connection: int, higher: Permission, lower: Permission)
    requires (Connections, connection) in t.owners
    requires Allowed(t, s, connection, higher) && Level(lower) <= Level(higher)
    ensures Allowed(t, s, connection, lower)
  {
    if group :| GrantReaches(t, s, connection, group, higher) {
      assert GrantReaches(t, s, connection, group, lower);
    }
  }

  /** Every connection is listed to an auditor as viewable, whatever it owns or was granted. */
  lemma AuditorsAreShownView(t: Tables, s: Subject, connection: int)
    requires (Connections, connection) in t.owners && s.role == Auditor
    ensures Allowed(t, s, connection, View)
    ensures Shows(t, s, connection, View) <==> !Allowed(t, s, connection, Connect)
  {
    if Allowed(t, s, connection, Manage) { AllowedIsMonotone(t, s, connection, Manage, Connect); }
    assert !HasConnectionPermission(View, Connect) && !HasConnectionPermission(View, Manage);
    assert Allowed(t, s, connection, NoAccess) && Allowed(t, s, connection, View);
  }

  lemma ListedRowsDecide(t: Tables, s: Subject, connection: int, rows: seq<GrantRow>)
    requires Valid(t) && (Connections, connection) in t.owners && s.role == User
    requires t.owners[(Connections, connection)] != Some(s.userId)
    requires Enumerates(rows, GrantRows(t, s.userId, connection))
    ensures rows == [] <==> !Allowed(t, s, connection, View)
    ensures rows != [] ==> Shows(t, s, connection, ListedAtLevel(SqlMaximum(GrantsOf(rows))))
  {
    var grants, owner := GrantsOf(rows), t.owners[(Connections, connection)];
    var access := Access(owner, grants);
    forall i | 0 <= i < |grants| ensures grants[i].permission != NoAccess {
      assert rows[i] in GrantRows(t, s.userId, connection);
    }
    assert Describes(t, s.userId, connection, access);
    var p := if rows == [] then NoAccess else ListedAtLevel(SqlMaximum(grants));
    if rows != [] { SqlMaximumResolves(s, owner, grants); }
    forall required: Permission ensures HasConnectionPermission(p, required) <==> Allowed(t, s, connection, required) {
      ResolutionDecides(t, s, connection, access, p, required);
    }
  }

  /** An auditor who owns a connection may manage it, and yet sees it listed as viewable only. */
  lemma OwningAuditorIsShownLess(t: Tables, s: Subject, connection: int)
    requires (Connections, connection) in t.owners && s.role == Auditor
    requires t.owners[(Connections, connection)] == Some(s.userId)
    ensures !Shows(t, s, connection, View)
  {
    AuditorsAreShownView(t, s, connection);
  }

  // ---------- The two reads agree ----------

  lemma WithoutRow(rows: seq<GrantRow>, k: nat)
    requires Distinct(rows) && k < |rows|
    ensures var rest := rows[..k] + rows[k + 1..];
            && Distinct(rest) && (forall row :: row in rest <==> row in rows && row != rows[k])
            && multiset(GrantsOf(rows)) == multiset(GrantsOf(rest)) + multiset{GrantsOf(rows)[k]}
  {
    var rest, grants := rows[..k] + rows[k + 1..], GrantsOf(rows);
    assert rows == rows[..k] + [rows[k]] + rows[k + 1..];
    assert GrantsOf(rest) == grants[..k] + grants[k + 1..];
    assert grants == grants[..k] + [grants[k]] + grants[k + 1..];
  }

  lemma {:induction false} EnumerationsAgree(a: seq<GrantRow>, b: seq<GrantRow>)
    requires Distinct(a) && Distinct(b) && forall row :: row in a <==> row in b
    ensures multiset(GrantsOf(a)) == multiset(GrantsOf(b))
    decreases |a|
  {
    if a == [] {
      NonEmptyHasElement(b);
    } else {
      var m := |a| - 1;
      assert a[m] in b;
      var k :| 0 <= k < |b| && b[k] == a[m];
      WithoutRow(a, m);
      WithoutRow(b, k);
      EnumerationsAgree(a[..m] + a[m + 1..], b[..k] + b[k + 1..]);
      assert GrantsOf(a)[m] == GrantsOf(b)[k];
    }
  }

  /** Any two reads of the same connection give the same owner and the same grants up to order. */
  lemma ReadsAgree(t: Tables, user: int, connection: int, a: Access, b: Access)
    requires Describes(t, user, connection, a) && Describes(t, user, connection, b)
    ensures a.owner == b.owner && multiset(a.grants) == multiset(b.grants)
  {
    var p: seq<GrantRow> :| Enumerates(p, GrantRows(t, user, connection)) && a.grants == GrantsOf(p);
    var q: seq<GrantRow> :| Enumerates(q, GrantRows(t, user, connection)) && b.grants == GrantsOf(q);
    EnumerationsAgree(p, q);
  }

  // ---------- Batch grants ----------

  datatype BatchError = NothingSelected | InvalidIdentifier | TooMany | Refused(error: AccessError) | ConstraintViolated

  /** The first occurrence of each element, in order. */
  function FirstOccurrences(ids: seq<int>): (r: seq<int>)
    ensures Distinct(r) && forall id :: id in r <==> id in ids
  {
    if ids == [] then [] else
      var front, last := ids[..|ids| - 1], ids[|ids| - 1];
      assert ids == front + [last];
      if last in front then FirstOccurrences(front) else FirstOccurrences(front) + [last]
  }

  /** `[...new Set(ids)]`. */
  method Unique(ids: seq<int>) returns (result: seq<int>)
    ensures result == FirstOccurrences(ids)
  {
    result := [];
    for i := 0 to |ids|
      invariant result == FirstOccurrences(ids[..i])
    {
      assert ids[..i + 1][..i] == ids[..i] && ids[..i + 1][i] == ids[i];
      if ids[i] !in result {
        result := result + [ids[i]];
      }
    }
    assert ids[..|ids|] == ids;
  }

  lemma CountOfUnique(ids: seq<int>)
    ensures |FirstOccurrences(ids)| == |set id | id in ids|
  {
    DistinctCount(FirstOccurrences(ids));
    assert (set id | id in FirstOccurrences(ids)) == set id | id in ids;
  }

  ghost predicate FirstRefused(t: Tables, s: Subject, ids: seq<int>, k: nat)
    requires k < |ids|
  {
    Check(t, s, ids[k], Manage).Some? && forall j :: 0 <= j < k ==> Check(t, s, ids[j], Manage).None?
  }

  /** The access loop of the batch: the error of the first listed connection that the single check refuses. */
  method CheckAll(t: Tables, s: Subject, ids: seq<int>) returns (thrown: Option<AccessError>)
    ensures thrown.None? <==> forall c :: c in ids ==> Check(t, s, c, Manage).None?
    ensures thrown.Some? ==>
      exists k :: 0 <= k < |ids| && FirstRefused(t, s, ids, k) && Check(t, s, ids[k], Manage) == thrown
  {
    var accessMap := ReadConnectionAccessList(t, s.userId, ids);
    for i := 0 to |ids|
      invariant forall j :: 0 <= j < i ==> Check(t, s, ids[j], Manage).None?
    {
      if ids[i] !in accessMap {
        assert FirstRefused(t, s, ids, i);
        return Some(ConnectionNotFound);
      }
      var access := accessMap[ids[i]];
      var permission := ResolveConnectionPermission(s, access.owner, access.grants);
      ResolutionDecides(t, s, ids[i], access, permission, Manage);
      if !HasConnectionPermission(permission, Manage) {
        assert FirstRefused(t, s, ids, i);
        return Some(AccessDenied);
      }
    }
    thrown := None;
  }

  /** Dropping repetitions does not change which connection is refused first. */
  lemma {:induction false} FirstRefusedOfUnique(t: Tables, s: Subject, ids: seq<int>, k: nat) returns (j: nat)
    requires k < |FirstOccurrences(ids)| && FirstRefused(t, s, FirstOccurrences(ids), k)
    ensures j < |ids| && FirstRefused(t, s, ids, j) && ids[j] == FirstOccurrences(ids)[k]
  {
    var front, last := ids[..|ids| - 1], ids[|ids| - 1];
    var before := FirstOccurrences(front);
    assert forall i :: 0 <= i < |before| ==> FirstOccurrences(ids)[i] == before[i];
    if k < |before| {
      j := FirstRefusedOfUnique(t, s, front, k);
    } else {
      j := |front|;
      forall i | 0 <= i < j ensures Check(t, s, ids[i], Manage).None? {
        assert front[i] in before;
        var m :| 0 <= m < |before| && before[m] == front[i];
        assert FirstOccurrences(ids)[m] == before[m];
      }
    }
  }

  lemma SameElements(a: seq<int>, b: seq<int>)
    requires forall id: int :: id in a <==> id in b
    ensures |a| == 0 <==> |b| == 0
    ensures AllPositive(a) <==> AllPositive(b)
  {
    if |a| > 0 {
      var id := a[0];
      assert id in a;
      assert id in b;
    }
    if |b| > 0 {
      var id := b[0];
      assert id in b;
      assert id in a;
    }
  }

  predicate AllPositive(ids: seq<int>): (positive: bool)
    ensures positive <==> forall id :: id in ids ==> 1 <= id
  {
    forall id :: id in ids ==> id > 0
  }

  /** The foreign keys and the CHECK of the grant table accept the row. */
  predicate MayGrant(t: Tables, connection: int, group: int, permission: Permission) {
    (Connections, connection) in t.owners && group in t.groups && permission != NoAccess
  }

  lemma GrantedIsValid(
      t: Tables, ids: seq<int>, groups: seq<int>, permission: Permission, grants: map<(int, int), Permission>)
    requires Valid(t) && Granted(t.grants, ids, groups, permission, grants)
    requires forall c, g :: c in ids && g in groups ==> MayGrant(t, c, g, permission)
    ensures Valid(t.(grants := grants))
  {
    forall grant | grant in grants
      ensures (Connections, grant.0) in t.owners && grant.1 in t.groups && grants[grant] != NoAccess
    {
      var c, g := grant.0, grant.1;
      assert grant == (c, g) && (c, g) in grants;
      if c in ids && g in groups {
        assert MayGrant(t, c, g, permission);
      } else {
        assert (c, g) in t.grants && (c, g).0 == c;
      }
    }
  }

  class GrantStore {
    var tables: Tables

    constructor (tables: Tables)
      ensures this.tables == tables
    {
      this.tables := tables;
    }

    /** The repository's transaction: every pair is inserted or overwritten, or none is. */
    method WriteGrants(ids: seq<int>, groups: seq<int>, permission: Permission) returns (ok: bool)
      modifies this
      ensures ok <==> forall c, g :: c in ids && g in groups ==> MayGrant(old(tables), c, g, permission)
      ensures tables == old(tables).(grants := tables.grants)
      ensures !ok ==> tables == old(tables)
      ensures ok ==> Granted(old(tables).grants, ids, groups, permission, tables.grants)
      ensures Valid(old(tables)) ==> Valid(tables)
    {
      var before := tables;
      for i := 0 to |ids|
        invariant tables == before.(grants := tables.grants)
        invariant forall c, g :: c in ids[..i] && g in groups ==> MayGrant(before, c, g, permission)
        invariant Granted(before.grants, ids[..i], groups, permission, tables.grants)
      {
        ghost var earlier := tables.grants;
        for j := 0 to |groups|
          invariant tables == before.(grants := tables.grants)
          invariant forall g :: g in groups[..j] ==> MayGrant(before, ids[i], g, permission)
          invariant Granted(earlier, [ids[i]], groups[..j], permission, tables.grants)
        {
          if !MayGrant(tables, ids[i], groups[j], permission) {
            assert ids[i] in ids && groups[j] in groups && !MayGrant(before, ids[i], groups[j], permission);
            tables := before;
            return false;
          }
          assert groups[..j + 1] == groups[..j] + [groups[j]];
          tables := tables.(grants := tables.grants[(ids[i], groups[j]) := permission]);
        }
        assert groups[..|groups|] == groups;
        assert ids[..i + 1] == ids[..i] + [ids[i]];
      }
      assert ids[..|ids|] == ids;
      if Valid(before) { GrantedIsValid(before, ids, groups, permission, tables.grants); }
      ok := true;
    }

    /**
     The batch call: it passes its access loop exactly when the single check passes for every listed
     connection, and then grants exactly the listed pairs.
     */
    method SaveConnectionGrants(s: Subject, connectionIds: seq<int>, groupIds: seq<int>, permission: Permission)
      returns (thrown: Option<BatchError>)
      modifies this
      ensures thrown.Some? ==> tables == old(tables)
      ensures thrown == Some(NothingSelected) <==> connectionIds == [] || groupIds == []
      ensures thrown == Some(InvalidIdentifier) <==>
        connectionIds != [] && groupIds != [] && !(AllPositive(connectionIds) && AllPositive(groupIds))
      ensures thrown == Some(TooMany) <==>
        Selected(connectionIds, groupIds) && Pairs(connectionIds, groupIds) > 5000
      ensures Selected(connectionIds, groupIds) && Pairs(connectionIds, groupIds) <= 5000 ==>
        (thrown.None? || thrown == Some(ConstraintViolated) <==>
           forall c :: c in connectionIds ==> Check(old(tables), s, c, Manage).None?)
      ensures thrown.Some? && thrown.value.Refused? ==>
        IsFirstRefusal(old(tables), s, connectionIds, thrown.value.error)
      ensures thrown == Some(ConstraintViolated) ==>
        permission == NoAccess || exists g :: g in groupIds && g !in old(tables).groups
      ensures thrown.None? ==> permission != NoAccess && forall g :: g in groupIds ==> g in old(tables).groups
      ensures Valid(old(tables)) ==> Valid(tables)
      ensures thrown.None? ==>
        && tables == old(tables).(grants := tables.grants)
        && Granted(old(tables).grants, connectionIds, groupIds, permission, tables.grants)
    {
      var ids := Unique(connectionIds);
      var groups := Unique(groupIds);
      SameElements(connectionIds, ids);
      SameElements(groupIds, groups);
      CountOfUnique(connectionIds);
      CountOfUnique(groupIds);
      if |ids| == 0 || |groups| == 0 {
        return Some(NothingSelected);
      }
      if !AllPositive(ids) || !AllPositive(groups) {
        return Some(InvalidIdentifier);
      }
      if |ids| * |groups| > MAXIMUM_PAIRS {
        return Some(TooMany);
      }
      thrown := CheckAndWrite(s, connectionIds, ids, groups, permission);
    }

    /** The access loop and the transaction, for a selection that is in order. */
    method CheckAndWrite(
        s: Subject, ghost connectionIds: seq<int>, ids: seq<int>, groups: seq<int>, permission: Permission)
      returns (thrown: Option<BatchError>)
      requires ids == FirstOccurrences(connectionIds) && ids != [] && groups != []
      modifies this
      ensures thrown.Some? ==> tables == old(tables)
      ensures thrown.None? || thrown == Some(ConstraintViolated) || thrown.value.Refused?
      ensures thrown.None? || thrown == Some(ConstraintViolated) <==>
        forall c :: c in ids ==> Check(old(tables), s, c, Manage).None?
      ensures thrown.Some? && thrown.value.Refused? ==>
        IsFirstRefusal(old(tables), s, connectionIds, thrown.value.error)
      ensures thrown == Some(ConstraintViolated) ==>
        permission == NoAccess || exists g :: g in groups && g !in old(tables).groups
      ensures Valid(old(tables)) ==> Valid(tables)
      ensures thrown.None? ==>
        && permission != NoAccess && (forall g :: g in groups ==> g in old(tables).groups)
        && tables == old(tables).(grants := tables.grants)
        && Granted(old(tables).grants, ids, groups, permission, tables.grants)
    {
      var refused := CheckAll(tables, s, ids);
      if refused.Some? {
        ghost var k :| 0 <= k < |ids| && FirstRefused(tables, s, ids, k) && Check(tables, s, ids[k], Manage) == refused;
        ghost var j := FirstRefusedOfUnique(tables, s, connectionIds, k);
        return Some(Refused(refused.value));
      }
      var ok := WriteGrants(ids, groups, permission);
      assert ids[0] in ids && groups[0] in groups;
      assert ok ==> MayGrant(old(tables), ids[0], groups[0], permission);
      assert ok ==> forall g :: g in groups ==> MayGrant(old(tables), ids[0], g, permission);
      thrown := if ok then None else Some(ConstraintViolated);
    }
  }

  const MAXIMUM_PAIRS := 5000

  /** Something is listed on both sides, by positive identifiers only. */
  predicate Selected(connectionIds: seq<int>, groupIds: seq<int>) {
    connectionIds != [] && groupIds != [] && AllPositive(connectionIds) && AllPositive(groupIds)
  }

  /** The number of different pairs. */
  ghost function Pairs(connectionIds: seq<int>, groupIds: seq<int>): nat {
    |set c | c in connectionIds| * |set g | g in groupIds|
  }

  /** The single check refuses a listed connection with this error, and none listed before it. */
  ghost predicate IsFirstRefusal(t: Tables, s: Subject, ids: seq<int>, error: AccessError) {
    exists k :: 0 <= k < |ids| && FirstRefused(t, s, ids, k) && Check(t, s, ids[k], Manage) == Some(error)
  }

  /** Exactly the listed pairs have the permission, and all other grants are as before. */
  ghost predicate Granted(
      before: map<(int, int), Permission>, ids: seq<int>, groups: seq<int>, permission: Permission,
      after: map<(int, int), Permission>)
  {
    && (forall c, g :: (c, g) in after <==> (c, g) in before || (c in ids && g in groups))
    && (forall c, g :: (c, g) in after ==>
          after[(c, g)] == if c in ids && g in groups then permission else before[(c, g)])
  }
}
