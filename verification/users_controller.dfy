/** The authorization checks of the user-profile routes (users.controller.ts). The
    user store behind them is not part of this model: a route that passes its checks
    is represented by the service call it would make. */
module UsersController {
  import opened Wrappers
  import opened Entities

  /** The body of a profile update; every field is optional. */
  datatype UpdateUserDto = UpdateUserDto(
    email: Option<string>,
    password: Option<string>,
    role: Option<Role>,
    name: Option<string>)

  /** Why a profile route refuses a caller; both are answered as "forbidden". */
  datatype Denial = NotOwnProfile | RoleChangeDenied

  /** The user-service call a route makes once its checks pass. */
  datatype ServiceCall = FindById(id: Uuid) | UpdateUser(id: Uuid, dto: UpdateUserDto)

  /** The admin-or-self check. */
  predicate MaySeeProfile(caller: Caller, id: Uuid) {
    caller.role == Admin || caller.userId == id
  }

  /** `findOne`: admins may view any profile, anyone else only their own. */
  function FindOne(caller: Caller, id: Uuid): (r: Result<ServiceCall, Denial>)
    ensures r.Err? <==> caller.role != Admin && caller.userId != id
    ensures r.Err? ==> r.error == NotOwnProfile
    ensures r.Ok? ==> r.value == FindById(id)
  {
    if caller.role != Admin && caller.userId != id then Err(NotOwnProfile) else Ok(FindById(id))
  }

  /** `update`: first the admin-or-self check, then the rule that only admins may send
      a role; the service is called only when both pass. */
  function Update(caller: Caller, id: Uuid, dto: UpdateUserDto): (r: Result<ServiceCall, Denial>)
    ensures r == Err(NotOwnProfile) <==> !MaySeeProfile(caller, id)
    ensures r == Err(RoleChangeDenied) <==> MaySeeProfile(caller, id) && caller.role != Admin && dto.role.Some?
    ensures r.Ok? <==> caller.role == Admin || (caller.userId == id && dto.role.None?)
    ensures r.Ok? ==> r.value == UpdateUser(id, dto)
  {
    if caller.role != Admin && caller.userId != id then Err(NotOwnProfile)
    else if caller.role != Admin && dto.role.Some? then Err(RoleChangeDenied)
    else Ok(UpdateUser(id, dto))
  }

  /** Admins pass both routes for every profile and every body. */
  lemma AdminsAreNeverDenied(caller: Caller, id: Uuid, dto: UpdateUserDto)
    requires caller.role == Admin
    ensures FindOne(caller, id).Ok? && Update(caller, id, dto).Ok?
  {
  }

  /** A viewer may update exactly their own profile, and only without a role; looking at
      another's profile is refused for the same reason whatever the body holds, so the
      self check is decided before the role check. */
  lemma ViewerUpdateRule(caller: Caller, id: Uuid, dto: UpdateUserDto)
    requires caller.role == Viewer
    ensures Update(caller, id, dto).Ok? <==> caller.userId == id && dto.role.None?
    ensures caller.userId != id ==> Update(caller, id, dto) == Err(NotOwnProfile)
    ensures Update(caller, id, dto).Err? ==> FindOne(caller, id).Err? || dto.role.Some?
  {
  }
}
