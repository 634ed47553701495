/** The users service: a user table, a read-only role table and the junction
    linking users to roles, changed in place by its methods. */
module Users {
  import opened Outcomes
  import opened UserTables

  class UsersService {
    var users: UserTable
    /** The junction: role ids linked to each user. */
    var userRoles: Junction
    /** The role table, owned by the roles service and only read here. */
    const roles: RoleTable
    /** The next primary key the user table hands out. */
    var nextId: int

    /** The role table has distinct ids and holds the "USER" role; rows are
        keyed by their ids; every user has a junction entry and nothing else
        does; every link names an existing role; every user holds "USER";
        every id in use is below the next one to hand out. */
    ghost predicate Valid()
      reads this
    {
      && DistinctRoleIds(roles)
      && ProtectedRole in roles
      && Keyed(users)
      && userRoles.Keys == users.Keys
      && (forall uid :: uid in userRoles ==> userRoles[uid] <= RoleIds(roles))
      && AllHold(userRoles, roles[ProtectedRole])
      && (forall id :: id in users ==> id < nextId)
    }

    /** The roles service's table: its ids are a primary key, and the "USER"
        role every new user receives is in it. */
    constructor (roleTable: RoleTable)
      requires DistinctRoleIds(roleTable) && ProtectedRole in roleTable
      ensures Valid()
      ensures roles == roleTable && users == map[] && userRoles == map[]
    {
      roles := roleTable;
      users := map[];
      userRoles := map[];
      nextId := 1;
    }

    /** Inserts a user built from `dto` and links it to exactly the "USER" role. */
    method CreateUser(dto: CreateUserDto) returns (u: User)
      requires Valid()
      modifies this
      ensures Valid()
      ensures u.id !in old(users) && u.id == old(nextId)
      ensures u == User(u.id, dto.email, dto.password, "", false, dto.activationLink)
      ensures users == old(users)[u.id := u]
      ensures userRoles == old(userRoles)[u.id := {roles[ProtectedRole]}]
    {
      var role := roles[ProtectedRole];
      u := User(nextId, dto.email, dto.password, "", false, dto.activationLink);
      users := users[u.id := u];
      userRoles := userRoles[u.id := {role}];
      nextId := nextId + 1;
    }

    /** Marks as activated every user whose activation link is `link`;
        returns how many rows matched. */
    method ActivateUser(link: string) returns (affected: nat)
      requires Valid()
      modifies this`users
      ensures Valid()
      ensures users == Activate(old(users), link)
      ensures affected == |WithLink(old(users), link)|
    {
      affected := |WithLink(users, link)|;
      users := Activate(users, link);
    }

    /** Sets the activation link of every user with the given email. */
    method UpdateActivationLink(email: string, link: string) returns (affected: nat)
      requires Valid()
      modifies this`users
      ensures Valid()
      ensures users == SetActivationLink(old(users), email, link)
      ensures affected == |WithEmail(old(users), email)|
    {
      affected := |WithEmail(users, email)|;
      users := SetActivationLink(users, email, link);
    }

    /** The user with primary key `id`, or a not-found outcome (returned, not thrown). */
    function GetUserById(id: int): (r: Result<User>)
      requires Valid()
      reads this
      ensures r.Ok? <==> id in users
      ensures r.Ok? ==> r.value == users[id] && r.value.id == id
      ensures r.Err? ==> r.error == UserNotFound && StatusOf(r.error) == NotFound
    {
      if id in users then Ok(users[id]) else Err(UserNotFound)
    }

    /** Some user whose activation link is `link`, or a not-found outcome. */
    method GetUserByLink(link: string) returns (r: Result<User>)
      requires Valid()
      ensures r.Ok? ==> r.value.id in users && users[r.value.id] == r.value
      ensures r.Ok? ==> r.value.activationLink == link
      ensures r.Err? <==> WithLink(users, link) == {}
      ensures r.Err? ==> r.error == UserNotFound
    {
      if exists id :: id in users && users[id].activationLink == link {
        var id :| id in users && users[id].activationLink == link;
        assert id in WithLink(users, link);
        r := Ok(users[id]);
      } else {
        assert forall id :: id in users ==> users[id].activationLink != link;
        r := Err(UserNotFound);
      }
    }

    /** Some user with the given email, or none (a missing user is returned as null). */
    method GetUserByEmail(email: string) returns (r: Option<User>)
      requires Valid()
      ensures r.Some? ==> r.value.id in users && users[r.value.id] == r.value
      ensures r.Some? ==> r.value.email == email
      ensures r.None? <==> forall id :: id in users ==> users[id].email != email
    {
      if exists id :: id in users && users[id].email == email {
        var id :| id in users && users[id].email == email;
        r := Some(users[id]);
      } else {
        r := None;
      }
    }

    /** Deletes the user with primary key `id` (and its role links); returns
        what `GetUserById` returned before the delete. */
    method DeleteUser(id: int) returns (r: Result<User>)
      requires Valid()
      modifies this`users, this`userRoles
      ensures Valid()
      ensures r == old(GetUserById(id))
      ensures users == old(users) - {id}
      ensures userRoles == old(userRoles) - {id}
    {
      r := GetUserById(id);
      users := users - {id};
      userRoles := userRoles - {id};
    }

    /** Partial update of the user `patch.id`; returns how many rows matched. */
    method UpdateUser(patch: UserPatch) returns (affected: nat)
      requires Valid()
      modifies this`users
      ensures Valid()
      ensures users == UpdateById(old(users), patch)
      ensures affected == |WithId(old(users), patch.id)|
      ensures affected <= 1 && (affected == 1 <==> patch.id in old(users))
    {
      WithIdIsPrimaryKeyMatch(users, patch.id);
      affected := |WithId(users, patch.id)|;
      users := UpdateById(users, patch);
    }

    /** Sets the phone number of user `id`; returns how many rows matched. */
    method UpdateUserPhone(id: int, phoneNumber: string) returns (affected: nat)
      requires Valid()
      modifies this`users
      ensures Valid()
      ensures users.Keys == old(users).Keys
      ensures id in users ==> users[id] == old(users)[id].(phoneNumber := phoneNumber)
      ensures forall other :: other in users && other != id ==> users[other] == old(users)[other]
      ensures affected == |WithId(old(users), id)|
      ensures affected <= 1 && (affected == 1 <==> id in old(users))
    {
      affected := UpdateUser(UserPatch(id, None, None, Some(phoneNumber), None, None));
    }

    /** The shared body of `AddRole` and `RemoveRole`: the three guards in
        order, and only when all pass, the change to the junction. */
    method AddOrRemoveRole(dto: AddRoleDto, op: RoleOp) returns (r: Result<AddRoleDto>)
      requires Valid()
      modifies this`userRoles
      ensures Valid()
      ensures match CheckRoleRequest(old(users), roles, dto)
        case Err(f) => r == Err(f) && userRoles == old(userRoles)
        case Ok(rid) => r == Ok(dto) && userRoles == ApplyRoleOp(old(userRoles), dto.userId, rid, op)
    {
      var check := CheckRoleRequest(users, roles, dto);
      match check
      case Err(f) =>
        r := Err(f);
      case Ok(rid) =>
        RoleOpKeepsRolesKnown(userRoles, dto.userId, rid, op, RoleIds(roles));
        CheckedRoleIsNotProtected(users, roles, dto);
        RoleOpKeepsProtected(userRoles, dto.userId, rid, op, roles[ProtectedRole]);
        userRoles := ApplyRoleOp(userRoles, dto.userId, rid, op);
        r := Ok(dto);
    }

    /** Links the role named `dto.value` to user `dto.userId`. */
    method AddRole(dto: AddRoleDto) returns (r: Result<AddRoleDto>)
      requires Valid()
      modifies this`userRoles
      ensures Valid()
      ensures dto.value == ProtectedRole ==> r == Err(RoleDisabled) && userRoles == old(userRoles)
      ensures dto.value != ProtectedRole && dto.value !in roles ==>
        r == Err(RoleNotFound) && userRoles == old(userRoles)
      ensures dto.value != ProtectedRole && dto.value in roles && dto.userId !in users ==>
        r == Err(UserNotFound) && userRoles == old(userRoles)
      ensures r.Ok? <==> dto.value != ProtectedRole && dto.value in roles && dto.userId in users
      ensures r.Ok? ==> r == Ok(dto) && roles[dto.value] in userRoles[dto.userId]
      ensures r.Ok? ==> userRoles[dto.userId] == old(userRoles)[dto.userId] + {roles[dto.value]}
      ensures forall uid :: uid in old(userRoles) && uid != dto.userId ==> userRoles[uid] == old(userRoles)[uid]
      ensures userRoles.Keys == old(userRoles).Keys
    {
      r := AddOrRemoveRole(dto, Add);
    }

    /** Unlinks the role named `dto.value` from user `dto.userId`. */
    method RemoveRole(dto: AddRoleDto) returns (r: Result<AddRoleDto>)
      requires Valid()
      modifies this`userRoles
      ensures Valid()
      ensures dto.value == ProtectedRole ==> r == Err(RoleDisabled) && userRoles == old(userRoles)
      ensures dto.value != ProtectedRole && dto.value !in roles ==>
        r == Err(RoleNotFound) && userRoles == old(userRoles)
      ensures dto.value != ProtectedRole && dto.value in roles && dto.userId !in users ==>
        r == Err(UserNotFound) && userRoles == old(userRoles)
      ensures r.Ok? <==> dto.value != ProtectedRole && dto.value in roles && dto.userId in users
      ensures r.Ok? ==> r == Ok(dto) && roles[dto.value] !in userRoles[dto.userId]
      ensures r.Ok? ==> userRoles[dto.userId] == old(userRoles)[dto.userId] - {roles[dto.value]}
      ensures forall uid :: uid in old(userRoles) && uid != dto.userId ==> userRoles[uid] == old(userRoles)[uid]
      ensures userRoles.Keys == old(userRoles).Keys
    {
      r := AddOrRemoveRole(dto, Remove);
    }
  }

  /** A client scenario: a new user holds only "USER"; adding and then removing
      another role restores that; "USER" itself can be neither added nor removed. */
  method RoleRoundTrip(roleTable: RoleTable, dto: CreateUserDto, other: string)
    requires DistinctRoleIds(roleTable) && ProtectedRole in roleTable
    requires other in roleTable && other != ProtectedRole
  {
    var s := new UsersService(roleTable);
    var u := s.CreateUser(dto);
    assert s.userRoles[u.id] == {roleTable[ProtectedRole]};
    var a := s.AddRole(AddRoleDto(other, u.id));
    assert a.Ok? && s.userRoles[u.id] == {roleTable[ProtectedRole], roleTable[other]};
    var b := s.RemoveRole(AddRoleDto(other, u.id));
    assert b.Ok? && s.userRoles[u.id] == {roleTable[ProtectedRole]};
    var c := s.RemoveRole(AddRoleDto(ProtectedRole, u.id));
    assert c == Err(RoleDisabled) && s.userRoles[u.id] == {roleTable[ProtectedRole]};
  }
}
