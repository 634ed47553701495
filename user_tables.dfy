/** The user table, the role table and the user-role junction as values, with
    the pure functions that say what each bulk update and each guarded
    role operation of the users service does to them. */
module UserTables {
  import opened Outcomes

  datatype User = User(
    id: int,
    email: string,
    password: string,
    phoneNumber: string,
    isActivated: bool,
    activationLink: string)

  /** The fields a new user is created from. */
  datatype CreateUserDto = CreateUserDto(email: string, password: string, activationLink: string)

  /** A partial user: the row to update is `id`; `None` fields are left as they are. */
  datatype UserPatch = UserPatch(
    id: int,
    email: Option<string>,
    password: Option<string>,
    phoneNumber: Option<string>,
    isActivated: Option<bool>,
    activationLink: Option<string>)

  /** A request to add or remove the role named `value` for user `userId`. */
  datatype AddRoleDto = AddRoleDto(value: string, userId: int)

  /** The two operations the role request can carry. */
  datatype RoleOp = Add | Remove

  /** Users by primary key. */
  type UserTable = map<int, User>

  /** Role ids by role value; the role table is keyed by its unique value. */
  type RoleTable = map<string, int>

  /** For each user id, the set of role ids linked to it. */
  type Junction = map<int, set<int>>

  /** The role every user receives at creation and that add/remove refuse. */
  const ProtectedRole: string := "USER"

  /** Every row is stored under its own id. */
  ghost predicate Keyed(users: UserTable)
  {
    forall id :: id in users ==> users[id].id == id
  }

  /** The ids of all roles in the role table. */
  function RoleIds(roles: RoleTable): set<int>
  {
    roles.Values
  }

  /** Role ids are the role table's primary key: no two values share one. */
  ghost predicate DistinctRoleIds(roles: RoleTable)
  {
    forall a, b :: a in roles && b in roles && a != b ==> roles[a] != roles[b]
  }

  /** Every user in the junction holds the role with id `pid`. */
  ghost predicate AllHold(j: Junction, pid: int)
  {
    forall uid :: uid in j ==> pid in j[uid]
  }

  /** The roles linked to `uid`; none if it has no junction entry. */
  function RolesOf(j: Junction, uid: int): set<int>
  {
    if uid in j then j[uid] else {}
  }

  // ---------------------------------------------------------------- bulk updates

  /** Ids of the users whose activation link is `link`. */
  function WithLink(users: UserTable, link: string): set<int>
  {
    set id | id in users && users[id].activationLink == link
  }

  /** Ids of the users whose email is `email`. */
  function WithEmail(users: UserTable, email: string): set<int>
  {
    set id | id in users && users[id].email == email
  }

  /** Ids of the rows whose `id` column is `id`: the rows `where: {id}` matches. */
  function WithId(users: UserTable, id: int): set<int>
  {
    set k | k in users && users[k].id == id
  }

  /** `update({isActivated: true}, {where: {activationLink: link}})`. */
  function Activate(users: UserTable, link: string): (r: UserTable)
    ensures r.Keys == users.Keys
    ensures forall id :: id in users ==>
      r[id].isActivated == (users[id].isActivated || users[id].activationLink == link)
    ensures forall id :: id in users ==> r[id].(isActivated := users[id].isActivated) == users[id]
  {
    map id | id in users ::
      if users[id].activationLink == link then users[id].(isActivated := true) else users[id]
  }

  /** `update({activationLink: link}, {where: {email: email}})`. */
  function SetActivationLink(users: UserTable, email: string, link: string): (r: UserTable)
    ensures r.Keys == users.Keys
    ensures forall id :: id in WithEmail(users, email) ==> r[id].activationLink == link
    ensures forall id :: id in users && id !in WithEmail(users, email) ==> r[id] == users[id]
    ensures forall id :: id in users ==> r[id].(activationLink := users[id].activationLink) == users[id]
  {
    map id | id in users ::
      if users[id].email == email then users[id].(activationLink := link) else users[id]
  }

  /** One row after a partial update: present fields overwrite, absent ones stay. */
  function ApplyPatch(u: User, p: UserPatch): User
  {
    User(
      u.id,
      match p.email case Some(e) => e case None => u.email,
      match p.password case Some(w) => w case None => u.password,
      match p.phoneNumber case Some(n) => n case None => u.phoneNumber,
      match p.isActivated case Some(a) => a case None => u.isActivated,
      match p.activationLink case Some(l) => l case None => u.activationLink)
  }

  /** `update(patch, {where: {id: patch.id}})`: only the row with that id changes. */
  function UpdateById(users: UserTable, p: UserPatch): (r: UserTable)
    ensures r.Keys == users.Keys
    ensures forall id :: id in users && id != p.id ==> r[id] == users[id]
    ensures p.id in users ==> r[p.id] == ApplyPatch(users[p.id], p)
  {
    if p.id in users then users[p.id := ApplyPatch(users[p.id], p)] else users
  }

  // ---------------------------------------------------------------- role requests

  /** The guards of a role request, in the order the service applies them:
      the protected value first, then the role, then the user. On success,
      the id of the role to link or unlink. */
  function CheckRoleRequest(users: UserTable, roles: RoleTable, dto: AddRoleDto): (r: Result<int>)
    ensures r == Err(RoleDisabled) <==> dto.value == ProtectedRole
    ensures r == Err(RoleNotFound) <==> dto.value != ProtectedRole && dto.value !in roles
    ensures r == Err(UserNotFound) <==>
      dto.value != ProtectedRole && dto.value in roles && dto.userId !in users
    ensures r.Ok? <==> dto.value != ProtectedRole && dto.value in roles && dto.userId in users
    ensures r.Ok? ==> r.value == roles[dto.value] && r.value in RoleIds(roles)
    ensures r.Err? ==> r.error != ReviewNotFound
  {
    if dto.value == ProtectedRole then Err(RoleDisabled)
    else if dto.value !in roles then Err(RoleNotFound)
    else if dto.userId !in users then Err(UserNotFound)
    else Ok(roles[dto.value])
  }

  /** `$add('roles', rid)` or `$remove('roles', rid)` on the junction of `uid`. */
  function ApplyRoleOp(j: Junction, uid: int, rid: int, op: RoleOp): (r: Junction)
    ensures r.Keys == j.Keys + {uid}
    ensures forall other :: other in j && other != uid ==> r[other] == j[other]
    ensures op == Add ==> rid in r[uid] && r[uid] - {rid} == RolesOf(j, uid) - {rid}
    ensures op == Remove ==> rid !in r[uid] && r[uid] + {rid} == RolesOf(j, uid) + {rid}
  {
    match op
    case Add => j[uid := RolesOf(j, uid) + {rid}]
    case Remove => j[uid := RolesOf(j, uid) - {rid}]
  }

  // ---------------------------------------------------------------- properties

  /** Activating twice with the same link is the same as activating once. */
  lemma ActivateIdempotent(users: UserTable, link: string)
    ensures Activate(Activate(users, link), link) == Activate(users, link)
  {
    var once := Activate(users, link);
    var twice := Activate(once, link);
    forall id | id in users ensures twice[id] == once[id] {
      assert once[id].activationLink == users[id].activationLink;
    }
  }

  /** Activation touches exactly the users with that link. */
  lemma ActivateChangesOnlyMatching(users: UserTable, link: string, id: int)
    requires id in users && !users[id].isActivated
    ensures Activate(users, link)[id] != users[id] <==> id in WithLink(users, link)
  {
  }

  /** Setting a user's activation link and then activating with that link
      activates every user with that email. */
  lemma LinkThenActivate(users: UserTable, email: string, link: string)
    ensures forall id :: id in users && users[id].email == email ==>
      Activate(SetActivationLink(users, email, link), link)[id].isActivated
  {
  }

  /** In a table keyed by id, `where: {id}` matches the row stored under
      `id` and nothing else, so an update by id affects at most one row, and
      one exactly when the id exists. */
  lemma WithIdIsPrimaryKeyMatch(users: UserTable, id: int)
    requires Keyed(users)
    ensures WithId(users, id) == (if id in users then {id} else {})
    ensures |WithId(users, id)| <= 1
    ensures |WithId(users, id)| == 1 <==> id in users
  {
    forall k | k in WithId(users, id) ensures k == id {
      assert users[k].id == k;
    }
    if id in users {
      assert id in WithId(users, id);
    }
  }

  /** A partial update applied twice is the same as applied once. */
  lemma UpdateByIdIdempotent(users: UserTable, p: UserPatch)
    ensures UpdateById(UpdateById(users, p), p) == UpdateById(users, p)
  {
    if p.id in users {
      var u := users[p.id];
      assert ApplyPatch(ApplyPatch(u, p), p) == ApplyPatch(u, p);
    }
  }

  /** Adding a role the user already holds leaves the junction as it was. */
  lemma AddPresentRoleIsNoOp(j: Junction, uid: int, rid: int)
    requires uid in j && rid in j[uid]
    ensures ApplyRoleOp(j, uid, rid, Add) == j
  {
    assert j[uid] + {rid} == j[uid];
  }

  /** Adding the same role twice is the same as adding it once. */
  lemma AddIdempotent(j: Junction, uid: int, rid: int)
    ensures ApplyRoleOp(ApplyRoleOp(j, uid, rid, Add), uid, rid, Add) == ApplyRoleOp(j, uid, rid, Add)
  {
    var once := ApplyRoleOp(j, uid, rid, Add);
    AddPresentRoleIsNoOp(once, uid, rid);
  }

  /** Adding a role the user did not hold and then removing it restores the junction. */
  lemma AddThenRemoveRestores(j: Junction, uid: int, rid: int)
    requires uid in j && rid !in j[uid]
    ensures ApplyRoleOp(ApplyRoleOp(j, uid, rid, Add), uid, rid, Remove) == j
  {
    assert (j[uid] + {rid}) - {rid} == j[uid];
  }

  /** Removing a role the user held and then adding it back restores the junction. */
  lemma RemoveThenAddRestores(j: Junction, uid: int, rid: int)
    requires uid in j && rid in j[uid]
    ensures ApplyRoleOp(ApplyRoleOp(j, uid, rid, Remove), uid, rid, Add) == j
  {
    assert (j[uid] - {rid}) + {rid} == j[uid];
  }

  /** With distinct role ids, a request that passes the guards never names
      the id of the protected role. */
  lemma CheckedRoleIsNotProtected(users: UserTable, roles: RoleTable, dto: AddRoleDto)
    requires DistinctRoleIds(roles) && ProtectedRole in roles
    requires CheckRoleRequest(users, roles, dto).Ok?
    ensures CheckRoleRequest(users, roles, dto).value != roles[ProtectedRole]
  {
    assert dto.value != ProtectedRole && dto.value in roles;
  }

  /** A role operation on an existing user and any role other than `pid`
      keeps `pid` on every user. */
  lemma RoleOpKeepsProtected(j: Junction, uid: int, rid: int, op: RoleOp, pid: int)
    requires AllHold(j, pid) && uid in j && rid != pid
    ensures AllHold(ApplyRoleOp(j, uid, rid, op), pid)
  {
    assert pid in ApplyRoleOp(j, uid, rid, op)[uid];
  }

  /** The status a rejected role request carries: BAD_REQUEST exactly when
      it named the protected role, NOT_FOUND for every other rejection. */
  lemma RoleRequestStatus(users: UserTable, roles: RoleTable, dto: AddRoleDto)
    requires CheckRoleRequest(users, roles, dto).Err?
    ensures StatusOf(CheckRoleRequest(users, roles, dto).error) == BadRequest <==> dto.value == ProtectedRole
    ensures StatusOf(CheckRoleRequest(users, roles, dto).error) == NotFound <==> dto.value != ProtectedRole
  {
  }

  /** Role operations keep every link pointing at an existing role. */
  lemma RoleOpKeepsRolesKnown(j: Junction, uid: int, rid: int, op: RoleOp, known: set<int>)
    requires forall u :: u in j ==> j[u] <= known
    requires rid in known
    ensures forall u :: u in ApplyRoleOp(j, uid, rid, op) ==> ApplyRoleOp(j, uid, rid, op)[u] <= known
  {
  }
}
