/**
 The role-based queries and updates of gateway/app/database/authorization_repository.py
 over arbitrary table contents: a table is the sequence of its rows, with repetitions, and
 no key or uniqueness constraint is taken for granted.
 */
module Authorization {
  import opened Common

  type Id = nat

  datatype RoleRow = RoleRow(id: Id, name: string)
  datatype PermissionRow = PermissionRow(id: Id, code: string)
  datatype RolePermissionRow = RolePermissionRow(roleId: Id, permissionId: Id)
  datatype UserRoleRow = UserRoleRow(userId: Id, roleId: Id)

  datatype Tables = Tables(
    users: seq<Id>,
    roles: seq<RoleRow>,
    permissions: seq<PermissionRow>,
    rolePermissions: seq<RolePermissionRow>,
    userRoles: seq<UserRoleRow>)

  datatype RepositoryError = InvalidName | RoleNotFound | UserNotFound | BackendUnavailable

  /** Whether the database answers; a failed commit may or may not have taken effect. */
  datatype Backend = Up | Down | CommitFailed(applied: bool)

  // ---- The three-table join of `get_permission_codes_for_user` ------------------------------

  datatype Granted = Granted(userRole: UserRoleRow, rolePermission: RolePermissionRow)
  datatype Joined = Joined(granted: Granted, permission: PermissionRow)

  function JoinRow(ur: UserRoleRow, rps: seq<RolePermissionRow>): seq<Granted> {
    if rps == [] then []
    else (if rps[0].roleId == ur.roleId then [Granted(ur, rps[0])] else []) + JoinRow(ur, rps[1..])
  }

  function JoinGrants(urs: seq<UserRoleRow>, rps: seq<RolePermissionRow>): seq<Granted> {
    if urs == [] then [] else JoinRow(urs[0], rps) + JoinGrants(urs[1..], rps)
  }

  function JoinGrant(g: Granted, ps: seq<PermissionRow>): seq<Joined> {
    if ps == [] then []
    else (if ps[0].id == g.rolePermission.permissionId then [Joined(g, ps[0])] else []) + JoinGrant(g, ps[1..])
  }

  function JoinPermissions(gs: seq<Granted>, ps: seq<PermissionRow>): seq<Joined> {
    if gs == [] then [] else JoinGrant(gs[0], ps) + JoinPermissions(gs[1..], ps)
  }

  /** WHERE and the selected column: one code for each joined row of the user. */
  function Codes(rows: seq<Joined>, user: Id): seq<string> {
    if rows == [] then []
    else
      (if rows[0].granted.userRole.userId == user then [rows[0].permission.code] else []) + Codes(rows[1..], user)
  }

  /** DISTINCT. */
  function Distinct(codes: seq<string>): seq<string> {
    if codes == [] then []
    else if codes[0] in codes[1..] then Distinct(codes[1..])
    else [codes[0]] + Distinct(codes[1..])
  }

  function PermissionCodes(t: Tables, user: Id): seq<string> {
    Distinct(Codes(JoinPermissions(JoinGrants(t.userRoles, t.rolePermissions), t.permissions), user))
  }

  // ---- The EXISTS query of `has_permission` ---------------------------------------------------

  /** The search stops at the first permission row that fits. */
  predicate AnyPermission(ps: seq<PermissionRow>, id: Id, code: string) {
    ps != [] && ((ps[0].id == id && ps[0].code == code) || AnyPermission(ps[1..], id, code))
  }

  predicate AnyGrant(rps: seq<RolePermissionRow>, ps: seq<PermissionRow>, role: Id, code: string) {
    && rps != []
    && ((rps[0].roleId == role && AnyPermission(ps, rps[0].permissionId, code)) || AnyGrant(rps[1..], ps, role, code))
  }

  predicate AnyUserRole(urs: seq<UserRoleRow>, rps: seq<RolePermissionRow>, ps: seq<PermissionRow>,
                        user: Id, code: string)
  {
    && urs != []
    && ((urs[0].userId == user && AnyGrant(rps, ps, urs[0].roleId, code))
        || AnyUserRole(urs[1..], rps, ps, user, code))
  }

  predicate PermissionExists(t: Tables, user: Id, code: string) {
    AnyUserRole(t.userRoles, t.rolePermissions, t.permissions, user, code)
  }

  // ---- Both queries answer one question -----------------------------------------------------------

  /** A row links the role to a permission with this code. */
  ghost predicate RoleGrants(rps: seq<RolePermissionRow>, ps: seq<PermissionRow>, role: Id, code: string) {
    exists permission: Id ::
      RolePermissionRow(role, permission) in rps && PermissionRow(permission, code) in ps
  }

  lemma {:induction false} PermissionFound(ps: seq<PermissionRow>, id: Id, code: string)
    ensures AnyPermission(ps, id, code) <==> PermissionRow(id, code) in ps
  {
    if ps != [] {
      PermissionFound(ps[1..], id, code);
      assert ps == [ps[0]] + ps[1..];
    }
  }

  lemma {:induction false} GrantFound(rps: seq<RolePermissionRow>, ps: seq<PermissionRow>, role: Id, code: string)
    ensures AnyGrant(rps, ps, role, code) <==> RoleGrants(rps, ps, role, code)
  {
    if rps != [] {
      var first, rest := rps[0], rps[1..];
      GrantFound(rest, ps, role, code);
      PermissionFound(ps, first.permissionId, code);
      assert forall rp :: rp in rps <==> rp == first || rp in rest;
      if first.roleId == role && AnyPermission(ps, first.permissionId, code) {
        assert RolePermissionRow(role, first.permissionId) in rps;
      }
    }
  }

  lemma {:induction false} UserRoleFound(urs: seq<UserRoleRow>, rps: seq<RolePermissionRow>, ps: seq<PermissionRow>,
                                         user: Id, code: string)
    ensures AnyUserRole(urs, rps, ps, user, code) <==>
            exists role: Id :: UserRoleRow(user, role) in urs && RoleGrants(rps, ps, role, code)
  {
    if urs != [] {
      UserRoleFound(urs[1..], rps, ps, user, code);
      GrantFound(rps, ps, urs[0].roleId, code);
      assert forall ur :: ur in urs <==> ur == urs[0] || ur in urs[1..];
      if urs[0].userId == user && RoleGrants(rps, ps, urs[0].roleId, code) {
        assert UserRoleRow(user, urs[0].roleId) in urs;
      }
    }
  }

  lemma {:induction false} InJoinRow(ur: UserRoleRow, rps: seq<RolePermissionRow>, g: Granted)
    ensures g in JoinRow(ur, rps) <==>
            g.userRole == ur && g.rolePermission in rps && g.rolePermission.roleId == ur.roleId
  {
    if rps != [] {
      InJoinRow(ur, rps[1..], g);
      assert forall rp :: rp in rps <==> rp == rps[0] || rp in rps[1..];
    }
  }

  lemma {:induction false} InJoinGrants(urs: seq<UserRoleRow>, rps: seq<RolePermissionRow>, g: Granted)
    ensures g in JoinGrants(urs, rps) <==>
            g.userRole in urs && g.rolePermission in rps && g.rolePermission.roleId == g.userRole.roleId
  {
    if urs != [] {
      InJoinGrants(urs[1..], rps, g);
      InJoinRow(urs[0], rps, g);
      assert forall ur :: ur in urs <==> ur == urs[0] || ur in urs[1..];
    }
  }

  lemma {:induction false} InJoinGrant(g: Granted, ps: seq<PermissionRow>, j: Joined)
    ensures j in JoinGrant(g, ps) <==>
            j.granted == g && j.permission in ps && j.permission.id == g.rolePermission.permissionId
  {
    if ps != [] {
      InJoinGrant(g, ps[1..], j);
      assert forall p :: p in ps <==> p == ps[0] || p in ps[1..];
    }
  }

  lemma {:induction false} InJoinPermissions(gs: seq<Granted>, ps: seq<PermissionRow>, j: Joined)
    ensures j in JoinPermissions(gs, ps) <==>
            j.granted in gs && j.permission in ps && j.permission.id == j.granted.rolePermission.permissionId
  {
    if gs != [] {
      InJoinPermissions(gs[1..], ps, j);
      InJoinGrant(gs[0], ps, j);
      assert forall g :: g in gs <==> g == gs[0] || g in gs[1..];
    }
  }

  lemma {:induction false} InCodes(rows: seq<Joined>, user: Id, code: string)
    ensures code in Codes(rows, user) <==>
            exists j :: j in rows && j.granted.userRole.userId == user && j.permission.code == code
  {
    if rows != [] {
      InCodes(rows[1..], user, code);
      assert forall j :: j in rows <==> j == rows[0] || j in rows[1..];
    }
  }

  /** DISTINCT keeps every code, and each one once. */
  lemma {:induction false} DistinctKeepsEachOnce(codes: seq<string>)
    ensures forall code :: code in Distinct(codes) <==> code in codes
    ensures forall i, j :: 0 <= i < j < |Distinct(codes)| ==> Distinct(codes)[i] != Distinct(codes)[j]
  {
    if codes != [] {
      DistinctKeepsEachOnce(codes[1..]);
      assert codes == [codes[0]] + codes[1..];
    }
  }

  lemma InPermissionCodes(t: Tables, user: Id, code: string)
    ensures code in PermissionCodes(t, user) <==>
            exists role: Id ::
              UserRoleRow(user, role) in t.userRoles && RoleGrants(t.rolePermissions, t.permissions, role, code)
  {
    var grants := JoinGrants(t.userRoles, t.rolePermissions);
    var rows := JoinPermissions(grants, t.permissions);
    DistinctKeepsEachOnce(Codes(rows, user));
    InCodes(rows, user, code);
    if j :| j in rows && j.granted.userRole.userId == user && j.permission.code == code {
      InJoinPermissions(grants, t.permissions, j);
      InJoinGrants(t.userRoles, t.rolePermissions, j.granted);
      assert UserRoleRow(user, j.granted.userRole.roleId) in t.userRoles;
      assert RolePermissionRow(j.granted.userRole.roleId, j.permission.id) in t.rolePermissions;
      assert PermissionRow(j.permission.id, code) in t.permissions;
    }
    if role :| UserRoleRow(user, role) in t.userRoles && RoleGrants(t.rolePermissions, t.permissions, role, code) {
      var id :| RolePermissionRow(role, id) in t.rolePermissions && PermissionRow(id, code) in t.permissions;
      var g := Granted(UserRoleRow(user, role), RolePermissionRow(role, id));
      InJoinGrants(t.userRoles, t.rolePermissions, g);
      InJoinPermissions(grants, t.permissions, Joined(g, PermissionRow(id, code)));
    }
  }

  /** For all tables the search holds exactly for the codes that the joins list, each of them
      once, and exactly when one of the user's roles grants the code. */
  lemma QueriesAgree(t: Tables, user: Id, code: string)
    ensures PermissionExists(t, user, code) <==> code in PermissionCodes(t, user)
    ensures PermissionExists(t, user, code) <==>
            exists role: Id ::
              UserRoleRow(user, role) in t.userRoles && RoleGrants(t.rolePermissions, t.permissions, role, code)
    ensures forall i, j :: 0 <= i < j < |PermissionCodes(t, user)| ==>
                             PermissionCodes(t, user)[i] != PermissionCodes(t, user)[j]
  {
    InPermissionCodes(t, user, code);
    UserRoleFound(t.userRoles, t.rolePermissions, t.permissions, user, code);
    DistinctKeepsEachOnce(Codes(JoinPermissions(JoinGrants(t.userRoles, t.rolePermissions), t.permissions), user));
  }

  // ---- Updates ------------------------------------------------------------------------------------

  /** INSERT with ON CONFLICT DO NOTHING. */
  function Assign(t: Tables, user: Id, role: Id): Tables {
    if UserRoleRow(user, role) in t.userRoles then t
    else t.(userRoles := t.userRoles + [UserRoleRow(user, role)])
  }

  function Without(rows: seq<UserRoleRow>, row: UserRoleRow): seq<UserRoleRow> {
    if rows == [] then []
    else (if rows[0] == row then [] else [rows[0]]) + Without(rows[1..], row)
  }

  /** DELETE removes every row with this pair. */
  function Unassign(t: Tables, user: Id, role: Id): Tables {
    t.(userRoles := Without(t.userRoles, UserRoleRow(user, role)))
  }

  lemma {:induction false} InWithout(rows: seq<UserRoleRow>, row: UserRoleRow, other: UserRoleRow)
    ensures other in Without(rows, row) <==> other in rows && other != row
  {
    if rows != [] {
      InWithout(rows[1..], row, other);
      assert rows == [rows[0]] + rows[1..];
    }
  }

  /** A removal keeps every other row as often as it was there. */
  lemma {:induction false} WithoutKeepsOthers(rows: seq<UserRoleRow>, row: UserRoleRow)
    ensures forall other :: multiset(Without(rows, row))[other] == if other == row then 0 else multiset(rows)[other]
  {
    if rows != [] {
      WithoutKeepsOthers(rows[1..], row);
      assert rows == [rows[0]] + rows[1..];
    }
  }

  lemma {:induction false} WithoutAbsent(rows: seq<UserRoleRow>, row: UserRoleRow)
    requires row !in rows
    ensures Without(rows, row) == rows
    ensures Without(rows + [row], row) == rows
  {
    if rows == [] {
      assert Without([row], row) == [];
    } else {
      WithoutAbsent(rows[1..], row);
      assert rows == [rows[0]] + rows[1..];
      assert (rows + [row])[1..] == rows[1..] + [row];
    }
  }

  /** After a removal the user keeps a code if and only if another assigned role grants it,
      and every other user keeps exactly the same codes. */
  lemma RemovalIsExact(t: Tables, user: Id, role: Id, code: string, other: Id)
    ensures code in PermissionCodes(Unassign(t, user, role), user) <==>
            exists r ::
              r != role && UserRoleRow(user, r) in t.userRoles && RoleGrants(t.rolePermissions, t.permissions, r, code)
    ensures other != user ==>
              (code in PermissionCodes(Unassign(t, user, role), other) <==> code in PermissionCodes(t, other))
  {
    forall row {
      InWithout(t.userRoles, UserRoleRow(user, role), row);
    }
    InPermissionCodes(Unassign(t, user, role), user, code);
    InPermissionCodes(Unassign(t, user, role), other, code);
    InPermissionCodes(t, other, code);
  }

  /** Removing a role right after assigning it restores all tables if and only if the
      assignment was new. */
  lemma AssignThenRemoveRestores(t: Tables, user: Id, role: Id)
    ensures Unassign(Assign(t, user, role), user, role) == t <==> UserRoleRow(user, role) !in t.userRoles
  {
    var row := UserRoleRow(user, role);
    if row in t.userRoles {
      InWithout(t.userRoles, row, row);
    } else {
      WithoutAbsent(t.userRoles, row);
    }
  }

  // ---- Updates by role name -------------------------------------------------------------------------

  function RoleIds(roles: seq<RoleRow>, name: string): seq<Id> {
    if roles == [] then []
    else (if roles[0].name == name then [roles[0].id] else []) + RoleIds(roles[1..], name)
  }

  function UserIds(users: seq<Id>, user: Id): seq<Id> {
    if users == [] then [] else (if users[0] == user then [users[0]] else []) + UserIds(users[1..], user)
  }

  /** Exactly one of the rows has the name, and its id is `id`. */
  ghost predicate OnlyRole(roles: seq<RoleRow>, name: string, id: Id) {
    exists i ::
      && 0 <= i < |roles| && roles[i] == RoleRow(id, name)
      && forall j :: 0 <= j < |roles| && j != i ==> roles[j].name != name
  }

  ghost predicate NoRole(roles: seq<RoleRow>, name: string) {
    forall i :: 0 <= i < |roles| ==> roles[i].name != name
  }

  lemma {:induction false} RolesByName(roles: seq<RoleRow>, name: string)
    ensures RoleIds(roles, name) == [] <==> NoRole(roles, name)
  {
    if roles != [] {
      var rest := roles[1..];
      RolesByName(rest, name);
      assert forall i :: 0 <= i < |rest| ==> rest[i] == roles[i + 1];
      assert forall i :: 1 <= i < |roles| ==> roles[i] == rest[i - 1];
    }
  }

  lemma {:induction false} OneRoleByName(roles: seq<RoleRow>, name: string, id: Id)
    ensures RoleIds(roles, name) == [id] <==> OnlyRole(roles, name, id)
  {
    if roles != [] {
      var rest := roles[1..];
      assert forall i :: 0 <= i < |rest| ==> rest[i] == roles[i + 1];
      assert forall i :: 1 <= i < |roles| ==> roles[i] == rest[i - 1];
      RolesByName(rest, name);
      OneRoleByName(rest, name, id);
      if roles[0].name == name {
        FirstRoleIsOnly(roles, name, id);
        var ids := RoleIds(rest, name);
        assert RoleIds(roles, name) == [roles[0].id] + ids;
        assert ids == [] ==> RoleIds(roles, name) == [roles[0].id];
        assert RoleIds(roles, name)[0] == roles[0].id && [id][0] == id;
      } else {
        LaterRoleIsOnly(roles, name, id);
      }
    }
  }

  lemma FirstRoleIsOnly(roles: seq<RoleRow>, name: string, id: Id)
    requires roles != [] && roles[0].name == name
    ensures OnlyRole(roles, name, id) <==> roles[0].id == id && NoRole(roles[1..], name)
  {
    var rest := roles[1..];
    assert forall i :: 1 <= i < |roles| ==> roles[i] == rest[i - 1];
    if roles[0].id == id && NoRole(rest, name) {
      assert roles[0] == RoleRow(id, name);
    }
    if OnlyRole(roles, name, id) {
      assert forall i :: 0 <= i < |rest| ==> rest[i] == roles[i + 1];
    }
  }

  lemma LaterRoleIsOnly(roles: seq<RoleRow>, name: string, id: Id)
    requires roles != [] && roles[0].name != name
    ensures OnlyRole(roles, name, id) <==> OnlyRole(roles[1..], name, id)
  {
    var rest := roles[1..];
    assert forall i :: 1 <= i < |roles| ==> roles[i] == rest[i - 1];
    if i :| && 0 <= i < |roles| && roles[i] == RoleRow(id, name)
            && forall j :: 0 <= j < |roles| && j != i ==> roles[j].name != name
    {
      assert rest[i - 1] == RoleRow(id, name);
      assert forall j :: 0 <= j < |rest| && j != i - 1 ==> rest[j] == roles[j + 1];
    }
    if i :| && 0 <= i < |rest| && rest[i] == RoleRow(id, name)
            && forall j :: 0 <= j < |rest| && j != i ==> rest[j].name != name
    {
      assert roles[i + 1] == RoleRow(id, name);
    }
  }

  lemma {:induction false} UserRows(users: seq<Id>, user: Id)
    ensures |UserIds(users, user)| == multiset(users)[user]
  {
    if users != [] {
      UserRows(users[1..], user);
      assert users == [users[0]] + users[1..];
    }
  }

  /** `scalar_one_or_none`: more than one row makes it raise, which counts as a backend failure. */
  function OneRow(rows: seq<Id>, missing: RepositoryError): Result<Id, RepositoryError> {
    if rows == [] then Err(missing) else if |rows| == 1 then Ok(rows[0]) else Err(BackendUnavailable)
  }

  /** The role is looked up before the user. */
  function Resolve(t: Tables, user: Id, name: string): Result<Id, RepositoryError> {
    var role := OneRow(RoleIds(t.roles, name), RoleNotFound);
    var found := OneRow(UserIds(t.users, user), UserNotFound);
    if role.Err? || found.Ok? then role else Err(found.error)
  }

  /** The lookup finds the id of the one row that has the name, if the user has one row too. */
  lemma ResolveInWords(t: Tables, user: Id, name: string)
    ensures forall id: Id ::
              Resolve(t, user, name) == Ok(id) <==> OnlyRole(t.roles, name, id) && multiset(t.users)[user] == 1
    ensures Resolve(t, user, name) == Err(RoleNotFound) <==> NoRole(t.roles, name)
    ensures Resolve(t, user, name) == Err(UserNotFound) <==>
            user !in t.users && exists id: Id :: OnlyRole(t.roles, name, id)
    ensures Resolve(t, user, name) != Err(InvalidName)
  {
    RolesByName(t.roles, name);
    UserRows(t.users, user);
    forall id: Id {
      OneRoleByName(t.roles, name, id);
    }
    var ids := RoleIds(t.roles, name);
    assert forall id: Id :: ids == [id] <==> |ids| == 1 && ids[0] == id;
    if |ids| == 1 {
      assert OnlyRole(t.roles, name, ids[0]);
    }
  }

  /** The tables afterwards, and whether a row was added. */
  function AssignNamed(t: Tables, user: Id, name: string): Result<(Tables, bool), RepositoryError> {
    match Resolve(t, user, name)
    case Err(e) => Err(e)
    case Ok(role) => Ok((Assign(t, user, role), UserRoleRow(user, role) !in t.userRoles))
  }

  /** The tables afterwards, and whether a row was deleted. */
  function RemoveNamed(t: Tables, user: Id, name: string): Result<(Tables, bool), RepositoryError> {
    match Resolve(t, user, name)
    case Err(e) => Err(e)
    case Ok(role) => Ok((Unassign(t, user, role), UserRoleRow(user, role) in t.userRoles))
  }

  /** Removing a role by the name under which it was just assigned finds it, always deletes
      something, and restores all tables if and only if the assignment answered True. A second
      removal answers False and changes nothing. */
  lemma AssignThenRemoveByName(t: Tables, user: Id, name: string)
    requires AssignNamed(t, user, name).Ok?
    ensures
      var (after, isNew) := AssignNamed(t, user, name).value;
      var removed := RemoveNamed(after, user, name);
      && removed.Ok? && removed.value.1
      && (removed.value.0 == t <==> isNew)
      && (exists role: Id ::
            && OnlyRole(t.roles, name, role)
            && UserRoleRow(user, role) in after.userRoles
            && UserRoleRow(user, role) !in removed.value.0.userRoles)
      && RemoveNamed(removed.value.0, user, name) == Ok((removed.value.0, false))
      && AssignNamed(after, user, name) == Ok((after, false))
  {
    var role := Resolve(t, user, name).value;
    var row := UserRoleRow(user, role);
    var after := Assign(t, user, role);
    ResolveInWords(t, user, name);
    AssignThenRemoveRestores(t, user, role);
    InWithout(after.userRoles, row, row);
    WithoutAbsent(Unassign(after, user, role).userRoles, row);
  }

  // ---- Runs of role updates --------------------------------------------------------------

  datatype Update = Assigned(user: Id, role: Id) | Removed(user: Id, role: Id)

  function Updated(t: Tables, updates: seq<Update>): Tables {
    if updates == [] then t
    else
      var before := Updated(t, updates[..|updates| - 1]);
      match updates[|updates| - 1]
      case Assigned(user, role) => Assign(before, user, role)
      case Removed(user, role) => Unassign(before, user, role)
  }

  /** The user has the role: what the latest update of this pair said, or else the table. */
  predicate HasRole(t: Tables, updates: seq<Update>, user: Id, role: Id) {
    if updates == [] then UserRoleRow(user, role) in t.userRoles
    else
      var last := updates[|updates| - 1];
      if last == Assigned(user, role) then true
      else if last == Removed(user, role) then false
      else HasRole(t, updates[..|updates| - 1], user, role)
  }

  lemma {:induction false} LatestUpdateDecides(t: Tables, updates: seq<Update>, user: Id, role: Id)
    ensures UserRoleRow(user, role) in Updated(t, updates).userRoles <==> HasRole(t, updates, user, role)
    ensures Updated(t, updates) == t.(userRoles := Updated(t, updates).userRoles)
  {
    if updates != [] {
      var init, last := updates[..|updates| - 1], updates[|updates| - 1];
      LatestUpdateDecides(t, init, user, role);
      if last.Removed? {
        InWithout(Updated(t, init).userRoles, UserRoleRow(last.user, last.role), UserRoleRow(user, role));
      }
    }
  }

  /** After any run of updates a user has a permission if and only if it is granted by a role
      whose latest update for this user assigned it, or that was never updated and there before. */
  lemma PermissionsAfterUpdates(t: Tables, updates: seq<Update>, user: Id, code: string)
    ensures code in PermissionCodes(Updated(t, updates), user) <==>
            exists role: Id ::
              HasRole(t, updates, user, role) && RoleGrants(t.rolePermissions, t.permissions, role, code)
  {
    var t' := Updated(t, updates);
    InPermissionCodes(t', user, code);
    forall role
      ensures UserRoleRow(user, role) in t'.userRoles <==> HasRole(t, updates, user, role)
    {
      LatestUpdateDecides(t, updates, user, role);
    }
    LatestUpdateDecides(t, updates, user, 0);
  }

  class AuthorizationRepository {
    var tables: Tables

    /** `normalize_role_name` and `normalize_permission_code`; None is a policy error. */
    const normalizeRole: string -> Option<string>
    const normalizePermission: string -> Option<string>

    constructor (tables: Tables, normalizeRole: string -> Option<string>, normalizePermission: string -> Option<string>)
      ensures this.tables == tables
    {
      this.tables, this.normalizeRole, this.normalizePermission := tables, normalizeRole, normalizePermission;
    }

    /** The set that the listed codes make is the set of what `HasPermission` affirms. */
    method GetPermissionCodes(user: Id, backend: Backend) returns (result: Result<set<string>, RepositoryError>)
      ensures result.Ok? <==> backend.Up?
      ensures result.Ok? ==> forall code :: code in result.value <==> PermissionExists(tables, user, code)
      ensures result.Err? ==> result.error == BackendUnavailable
    {
      if !backend.Up? {
        return Err(BackendUnavailable);
      }
      forall code {
        QueriesAgree(tables, user, code);
      }
      return Ok(set code | code in PermissionCodes(tables, user));
    }

    /** True exactly when the join of the other query contains the normalized code. */
    method HasPermission(user: Id, permissionCode: string, backend: Backend)
      returns (result: Result<bool, RepositoryError>)
      ensures normalizePermission(permissionCode).None? ==> result == Err(InvalidName)
      ensures normalizePermission(permissionCode).Some? ==>
                if backend.Up? then
                  result == Ok(normalizePermission(permissionCode).value in PermissionCodes(tables, user))
                else result == Err(BackendUnavailable)
    {
      var code := normalizePermission(permissionCode);
      if code.None? {
        return Err(InvalidName);
      }
      if !backend.Up? {
        return Err(BackendUnavailable);
      }
      QueriesAgree(tables, user, code.value);
      return Ok(PermissionExists(tables, user, code.value));
    }

    /** `_get_role_id`, then `_require_user`. */
    method LookUp(user: Id, roleName: string, backend: Backend) returns (result: Result<Id, RepositoryError>)
      ensures forall id: Id ::
                result == Ok(id) <==>
                && normalizeRole(roleName).Some? && !backend.Down?
                && OnlyRole(tables.roles, normalizeRole(roleName).value, id)
                && multiset(tables.users)[user] == 1
      ensures result == Err(InvalidName) <==> normalizeRole(roleName).None?
      ensures result == Err(RoleNotFound) <==>
                && normalizeRole(roleName).Some? && !backend.Down?
                && NoRole(tables.roles, normalizeRole(roleName).value)
      ensures result == Err(UserNotFound) <==>
                && normalizeRole(roleName).Some? && !backend.Down?
                && (exists id: Id :: OnlyRole(tables.roles, normalizeRole(roleName).value, id))
                && user !in tables.users
      ensures normalizeRole(roleName).Some? ==>
                result == if backend.Down? then Err(BackendUnavailable)
                          else Resolve(tables, user, normalizeRole(roleName).value)
    {
      var name := normalizeRole(roleName);
      if name.None? {
        return Err(InvalidName);
      }
      if backend.Down? {
        return Err(BackendUnavailable);
      }
      ResolveInWords(tables, user, name.value);
      var role := OneRow(RoleIds(tables.roles, name.value), RoleNotFound);
      if role.Err? {
        return role;
      }
      var found := OneRow(UserIds(tables.users, user), UserNotFound);
      if found.Err? {
        return Err(found.error);
      }
      return role;
    }

    /** True exactly when the assignment is new. */
    method AssignRole(user: Id, roleName: string, backend: Backend)
      returns (result: Result<bool, RepositoryError>)
      modifies this
      ensures normalizeRole(roleName).None? ==> result == Err(InvalidName)
      ensures normalizeRole(roleName).Some? ==>
                var named := AssignNamed(old(tables), user, normalizeRole(roleName).value);
                if backend.Down? then result == Err(BackendUnavailable)
                else if named.Err? then result == Err(named.error)
                else if backend.Up? then result == Ok(named.value.1) && tables == named.value.0
                else
                  && result == Err(BackendUnavailable)
                  && tables == if backend.applied then named.value.0 else old(tables)
      ensures result.Ok? ==>
                exists role: Id ::
                  && OnlyRole(old(tables).roles, normalizeRole(roleName).value, role)
                  && user in old(tables).users
                  && result.value == (UserRoleRow(user, role) !in old(tables).userRoles)
                  && tables == old(tables).(userRoles := tables.userRoles)
                  && tables.userRoles
                     == old(tables).userRoles + if result.value then [UserRoleRow(user, role)] else []
      ensures result.Err? && !(backend.CommitFailed? && backend.applied) ==> tables == old(tables)
      ensures result.Err? && result.error != BackendUnavailable ==> tables == old(tables)
    {
      var role := LookUp(user, roleName, backend);
      if role.Err? {
        return Err(role.error);
      }
      var isNew := UserRoleRow(user, role.value) !in tables.userRoles;
      if backend.Up? || backend.applied {
        tables := Assign(tables, user, role.value);
      }
      if !backend.Up? {
        return Err(BackendUnavailable);
      }
      return Ok(isNew);
    }

    /** True exactly when there was an assignment to delete. */
    method RemoveRole(user: Id, roleName: string, backend: Backend)
      returns (result: Result<bool, RepositoryError>)
      modifies this
      ensures normalizeRole(roleName).None? ==> result == Err(InvalidName)
      ensures normalizeRole(roleName).Some? ==>
                var named := RemoveNamed(old(tables), user, normalizeRole(roleName).value);
                if backend.Down? then result == Err(BackendUnavailable)
                else if named.Err? then result == Err(named.error)
                else if backend.Up? then result == Ok(named.value.1) && tables == named.value.0
                else
                  && result == Err(BackendUnavailable)
                  && tables == if backend.applied then named.value.0 else old(tables)
      ensures result.Ok? ==>
                exists role: Id ::
                  && OnlyRole(old(tables).roles, normalizeRole(roleName).value, role)
                  && user in old(tables).users
                  && result.value == (UserRoleRow(user, role) in old(tables).userRoles)
                  && tables == old(tables).(userRoles := tables.userRoles)
                  && (forall row ::
                        multiset(tables.userRoles)[row]
                        == if row == UserRoleRow(user, role) then 0 else multiset(old(tables).userRoles)[row])
      ensures result.Err? && !(backend.CommitFailed? && backend.applied) ==> tables == old(tables)
      ensures result.Err? && result.error != BackendUnavailable ==> tables == old(tables)
    {
      var role := LookUp(user, roleName, backend);
      if role.Err? {
        return Err(role.error);
      }
      WithoutKeepsOthers(tables.userRoles, UserRoleRow(user, role.value));
      var existed := UserRoleRow(user, role.value) in tables.userRoles;
      if backend.Up? || backend.applied {
        tables := Unassign(tables, user, role.value);
      }
      if !backend.Up? {
        return Err(BackendUnavailable);
      }
      return Ok(existed);
    }
  }
}
