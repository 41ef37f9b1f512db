/** The dashboard application layer (dashboard.use-case.ts): the paginated list,
    creation with timestamps, duplication with the default prefix, and the rule that
    an update refreshes `updatedAt` only when it carries a name, description or tiles. */
module DashboardUseCase {
  import opened Wrappers
  import opened Entities
  import Repository
  import Pagination
  import TileValidation
  import DashboardService

  /** The body of a create request. The controller fills `ownerUuid` in before the use
      case runs; any `uuid` in the body is ignored and so not modelled. */
  datatype DashboardDto = DashboardDto(name: string, description: string, ownerUuid: Option<Uuid>, tiles: seq<Tile>)

  /** The body of an update request (`Partial<DashboardDto>`). The body reaches the use
      case unvalidated, so it may also carry the entity's timestamps, which the spread
      copies like any other field. */
  datatype DashboardUpdateDto = DashboardUpdateDto(
    uuid: Option<Uuid>,
    name: Option<string>,
    description: Option<string>,
    ownerUuid: Option<Uuid>,
    tiles: Option<seq<Tile>>,
    createdAt: Option<Timestamp>,
    updatedAt: Option<Timestamp>)

  /** `getListItemsPaginated`: the list items of the whole store, then one page of them. */
  function ListItemsPaginated(dashboards: seq<Dashboard>, page: int, limit: int, currentUserUuid: Uuid, isAdmin: bool)
    : (r: Pagination.Page<DashboardService.DashboardListItem>)
    requires page != 0 && limit != 0
    ensures r.total == |dashboards|
    ensures limit >= 1 ==> |r.items| <= limit
    ensures r.links.prev.Some? <==> page > 1
    ensures r.links.next.Some? <==> page < Pagination.LastPage(|dashboards|, limit)
    ensures page >= 1 && limit >= 1 ==>
      var start := (page - 1) * limit;
      |r.items| == (if start >= |dashboards| then 0 else Pagination.Min(limit, |dashboards| - start))
    ensures r.links.last.page >= 1
    ensures r.links.first.status.None? && r.links.last.status.None?
    ensures r.links.prev.Some? ==> r.links.prev.value.status.None?
    ensures r.links.next.Some? ==> r.links.next.value.status.None?
  {
    Pagination.Paginate(DashboardService.ListItems(dashboards, currentUserUuid, isAdmin), page, limit, None)
  }

  /** Item `i` of page `page` describes dashboard `(page - 1) * limit + i` of the store,
      and flags it as the caller's exactly when the caller may modify it. */
  lemma ListPageItem(dashboards: seq<Dashboard>, page: int, limit: int, currentUserUuid: Uuid, isAdmin: bool, i: int)
    requires page >= 1 && limit >= 1 && 0 <= i < limit
    requires (page - 1) * limit + i < |dashboards|
    ensures i < |ListItemsPaginated(dashboards, page, limit, currentUserUuid, isAdmin).items|
    ensures
      var item := ListItemsPaginated(dashboards, page, limit, currentUserUuid, isAdmin).items[i];
      var d := dashboards[(page - 1) * limit + i];
      && item.uuid == d.uuid
      && item.name == d.name
      && item.description == d.description
      && item.ownerUuid == d.ownerUuid
      && item.tileCount == |d.tiles|
      && item.updatedAt == d.updatedAt
      && (item.isOwner <==> DashboardService.CanModify(d, currentUserUuid, isAdmin))
    ensures ListItemsPaginated(dashboards, page, limit, currentUserUuid, isAdmin).items[i]
      == DashboardService.ListItems(dashboards, currentUserUuid, isAdmin)[(page - 1) * limit + i]
  {
    var all := DashboardService.ListItems(dashboards, currentUserUuid, isAdmin);
    var r := Pagination.Paginate(all, page, limit, None);
    assert r.items[i] == all[(page - 1) * limit + i];
  }

  /** `create`: a new dashboard under the fresh uuid `newUuid`, created and updated at
      `now`, saved only when its tiles are valid. */
  function Create(dashboards: seq<Dashboard>, dto: DashboardDto, newUuid: Uuid, now: Timestamp)
    : (r: Result<(seq<Dashboard>, Dashboard), Error>)
    requires dto.ownerUuid.Some?
    ensures r.Ok? <==> TileValidation.LayoutValid(dto.tiles)
    ensures r.Err? ==> TileValidation.ValidateTiles(dto.tiles).Fail? && r.error == Invalid(TileValidation.ValidateTiles(dto.tiles).error)
    ensures r.Ok? ==>
      var (after, d) := r.value;
      && d.uuid == newUuid
      && d.name == dto.name && d.description == dto.description
      && d.ownerUuid == dto.ownerUuid.value && d.tiles == dto.tiles
      && d.createdAt == now && d.updatedAt == now
      && after == dashboards + [d]
  {
    var d := Dashboard(newUuid, dto.name, dto.description, dto.ownerUuid.value, dto.tiles, now, now);
    match DashboardService.Create(dashboards, d)
    case Err(e) => Err(e)
    case Ok(after) => Ok((after, d))
  }

  /** `duplicate`, with the service's default name prefix. */
  function Duplicate(dashboards: seq<Dashboard>, uuid: Uuid, newOwnerUuid: Uuid, newUuid: Uuid,
                     created: Timestamp, updated: Timestamp)
    : (r: Result<(seq<Dashboard>, Dashboard), Error>)
    ensures r.Err? <==> DashboardService.FindDashboard(dashboards, uuid).None?
    ensures r.Err? ==> r.error == NotFound
    ensures r.Ok? ==>
      && r.value.1.name == "Copy of " + DashboardService.FindDashboard(dashboards, uuid).value.name
      && r.value.1.ownerUuid == newOwnerUuid
      && r.value.1.createdAt == created && r.value.1.updatedAt == updated
  {
    DashboardService.Duplicate(dashboards, uuid, newOwnerUuid, DashboardService.DefaultCopyPrefix, newUuid, created, updated)
  }

  /** Whether an update refreshes `updatedAt`: it carries a non-empty name or
      description, or any tile list (an empty list is still truthy). */
  predicate Touches(dto: DashboardUpdateDto) {
    Truthy(dto.name) || Truthy(dto.description) || dto.tiles.Some?
  }

  /** The patch `update` hands on: the body as given, with `updatedAt` set to `now`
      when it touches a name, description or tiles. */
  function PatchFor(dto: DashboardUpdateDto, now: Timestamp): (p: DashboardPatch)
    ensures p.updatedAt.Some? <==> Touches(dto) || dto.updatedAt.Some?
    ensures Touches(dto) ==> p.updatedAt == Some(now)
    ensures !Touches(dto) ==> p.updatedAt == dto.updatedAt
    ensures p.uuid == dto.uuid && p.name == dto.name && p.description == dto.description
    ensures p.ownerUuid == dto.ownerUuid && p.tiles == dto.tiles && p.createdAt == dto.createdAt
  {
    DashboardPatch(dto.uuid, dto.name, dto.description, dto.ownerUuid, dto.tiles, dto.createdAt,
                   if Touches(dto) then Some(now) else dto.updatedAt)
  }

  /** `update`. */
  function Update(dashboards: seq<Dashboard>, uuid: Uuid, dto: DashboardUpdateDto, now: Timestamp)
    : (r: Result<seq<Dashboard>, Error>)
    ensures r.Ok? <==> dto.tiles.None? || TileValidation.LayoutValid(dto.tiles.value)
    ensures r.Ok? ==> |r.value| == |dashboards|
    ensures r.Ok? ==> forall i :: 0 <= i < |dashboards| && dashboards[i].uuid != uuid ==> r.value[i] == dashboards[i]
    ensures r.Err? ==>
      && dto.tiles.Some? && TileValidation.ValidateTiles(dto.tiles.value).Fail?
      && r.error == Invalid(TileValidation.ValidateTiles(dto.tiles.value).error)
    ensures r.Ok? ==> forall i :: 0 <= i < |dashboards| && Repository.IndexOf(dashboards, DashboardService.DashboardKey, uuid) != Some(i) ==>
      r.value[i] == dashboards[i]
    ensures r.Ok? && DashboardService.FindDashboard(dashboards, uuid).Some? ==>
      var i := Repository.IndexOf(dashboards, DashboardService.DashboardKey, uuid).value;
      && r.value[i] == ApplyDashboardPatch(dashboards[i], PatchFor(dto, now))
      && r.value[i].updatedAt == (if Touches(dto) then now else dto.updatedAt.GetOr(dashboards[i].updatedAt))
      && r.value[i].createdAt == dto.createdAt.GetOr(dashboards[i].createdAt)
      && r.value[i].name == dto.name.GetOr(dashboards[i].name)
      && r.value[i].tiles == dto.tiles.GetOr(dashboards[i].tiles)
    ensures r.Ok? && DashboardService.FindDashboard(dashboards, uuid).None? ==> r.value == dashboards
  {
    DashboardService.Update(dashboards, uuid, PatchFor(dto, now))
  }

  /** `delete`. */
  function Delete(dashboards: seq<Dashboard>, uuid: Uuid): (r: seq<Dashboard>)
    ensures |r| <= |dashboards|
    ensures DashboardService.FindDashboard(dashboards, uuid).Some? ==> |r| < |dashboards|
    ensures DashboardService.FindDashboard(r, uuid).None?
    ensures forall i :: 0 <= i < |dashboards| && dashboards[i].uuid != uuid ==> dashboards[i] in r
    ensures forall i :: 0 <= i < |r| ==> r[i] in dashboards && r[i].uuid != uuid
    ensures DashboardService.FindDashboard(dashboards, uuid).None? ==> r == dashboards
  {
    DashboardService.Delete(dashboards, uuid)
  }
}
