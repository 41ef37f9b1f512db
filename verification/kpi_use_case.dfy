/** The KPI application layer (kpi.use-case.ts): the paginated list with its optional
    status filter, creation with timestamps, and the rule that an update refreshes
    `updatedAt` only when it carries a name, description, targets or thresholds. */
module KpiUseCase {
  import opened Wrappers
  import opened Entities
  import Seqs
  import Repository
  import Pagination
  import KpiService

  /** The body of a create request; any `uuid` in it is ignored and so not modelled. */
  datatype KpiDto = KpiDto(
    name: string,
    description: string,
    metricUuid: Uuid,
    targets: seq<Target>,
    status: KpiStatus,
    thresholds: Option<Thresholds>)

  /** The body of an update request (`Partial<KpiDto>`). It reaches the use case
      unvalidated, so it may also carry the entity's timestamps, and `thresholds` may be
      `null` (`Some(None)`). */
  datatype KpiUpdateDto = KpiUpdateDto(
    uuid: Option<Uuid>,
    name: Option<string>,
    description: Option<string>,
    metricUuid: Option<Uuid>,
    targets: Option<seq<Target>>,
    status: Option<KpiStatus>,
    thresholds: Option<Option<Thresholds>>,
    createdAt: Option<Timestamp>,
    updatedAt: Option<Timestamp>)

  /** The status filter: with a truthy `status`, the items whose status has that name. */
  function FilterByStatus(items: seq<KpiService.KpiListItem>, status: Option<string>): (r: seq<KpiService.KpiListItem>)
    ensures !Truthy(status) ==> r == items
    ensures Truthy(status) ==> forall i :: 0 <= i < |r| ==> r[i] in items && StatusName(r[i].status) == status.value
    ensures Truthy(status) ==> forall i :: 0 <= i < |items| && StatusName(items[i].status) == status.value ==> items[i] in r
  {
    if Truthy(status) then Seqs.Filter(items, (k: KpiService.KpiListItem) => StatusName(k.status) == status.value)
    else items
  }

  /** The filter keeps relative order: it distributes over concatenation. */
  lemma FilterByStatusKeepsOrder(a: seq<KpiService.KpiListItem>, b: seq<KpiService.KpiListItem>, status: Option<string>)
    ensures FilterByStatus(a + b, status) == FilterByStatus(a, status) + FilterByStatus(b, status)
  {
    if Truthy(status) {
      Seqs.FilterConcat(a, b, (k: KpiService.KpiListItem) => StatusName(k.status) == status.value);
    }
  }

  /** `getListItemsPaginated`: list items (KPI i evaluated at `clock(i)`), filtered, then paged.
      `total` counts the filtered items, and every link repeats a truthy status. */
  function ListItemsPaginated(kpis: seq<Kpi>, clock: nat -> Timestamp, page: int, limit: int, status: Option<string>)
    : (r: Pagination.Page<KpiService.KpiListItem>)
    requires page != 0 && limit != 0
    ensures r.total == |FilterByStatus(KpiService.ListItems(kpis, clock), status)|
    ensures !Truthy(status) ==> r.total == |kpis|
    ensures r.total <= |kpis|
    ensures Truthy(status) ==> forall i :: 0 <= i < |r.items| ==> StatusName(r.items[i].status) == status.value
    ensures limit >= 1 ==> |r.items| <= limit
    ensures page >= 1 && limit >= 1 ==>
      var start := (page - 1) * limit;
      |r.items| == (if start >= r.total then 0 else Pagination.Min(limit, r.total - start))
    ensures r.links.first.status.Some? <==> Truthy(status)
    ensures r.links.last.status.Some? <==> Truthy(status)
    ensures r.links.prev.Some? ==> (r.links.prev.value.status.Some? <==> Truthy(status))
    ensures r.links.next.Some? ==> (r.links.next.value.status.Some? <==> Truthy(status))
    ensures r.links.prev.Some? <==> page > 1
    ensures r.links.next.Some? <==> page < Pagination.LastPage(r.total, limit)
    ensures r.links.last.page >= 1
  {
    var all := FilterByStatus(KpiService.ListItems(kpis, clock), status);
    var r := Pagination.Paginate(all, page, limit, status);
    assert Truthy(status) ==> forall i :: 0 <= i < |r.items| ==> r.items[i] in all by {
      if Truthy(status) {
        forall i | 0 <= i < |r.items|
          ensures r.items[i] in all
        {
          SliceDrawsFromAll(all, page, limit, status, i);
        }
      }
    }
    r
  }

  /** Item `i` of page `page` is item `(page - 1) * limit + i` of the filtered list:
      the page is the same slice window the dashboard list uses. */
  lemma PageItem(kpis: seq<Kpi>, clock: nat -> Timestamp, page: int, limit: int, status: Option<string>, i: int)
    requires page >= 1 && limit >= 1 && 0 <= i < limit
    requires (page - 1) * limit + i < |FilterByStatus(KpiService.ListItems(kpis, clock), status)|
    ensures i < |ListItemsPaginated(kpis, clock, page, limit, status).items|
    ensures ListItemsPaginated(kpis, clock, page, limit, status).items[i] ==
      FilterByStatus(KpiService.ListItems(kpis, clock), status)[(page - 1) * limit + i]
  {
    var all := FilterByStatus(KpiService.ListItems(kpis, clock), status);
    var r := Pagination.Paginate(all, page, limit, status);
    assert r.items[i] == all[(page - 1) * limit + i];
  }

  /** Every item of a page is an item of the paged list. */
  lemma SliceDrawsFromAll<T>(all: seq<T>, page: int, limit: int, status: Option<string>, i: int)
    requires page != 0 && limit != 0
    requires 0 <= i < |Pagination.Paginate(all, page, limit, status).items|
    ensures Pagination.Paginate(all, page, limit, status).items[i] in all
  {
    var start := Pagination.PageStart(page, limit);
    var s := Seqs.JsSlice(all, start, start + limit);
    var a, b := Seqs.SliceIndex(start, |all|), Seqs.SliceIndex(start + limit, |all|);
    assert s[i] == all[a + i];
  }

  /** `create`: a new KPI under the fresh uuid `newUuid`, created and updated at `now`,
      saved only when its targets are valid. */
  function Create(kpis: seq<Kpi>, dto: KpiDto, newUuid: Uuid, now: Timestamp): (r: Result<seq<Kpi>, Error>)
    ensures r.Ok? <==> |dto.targets| > 0 && KpiService.StrictlyIncreasing(KpiService.DatedTargets(dto.targets))
    ensures r.Err? ==> r.error == Invalid(KpiService.ValidateTargets(dto.targets).error)
    ensures r.Ok? ==>
      && |r.value| == |kpis| + 1 && r.value[..|kpis|] == kpis
      && var k := r.value[|kpis|];
      && k.uuid == newUuid && k.createdAt == now && k.updatedAt == now
      && k.name == dto.name && k.description == dto.description && k.metricUuid == dto.metricUuid
      && k.targets == dto.targets && k.status == dto.status && k.thresholds == dto.thresholds
  {
    var kpi := Kpi(newUuid, dto.name, dto.description, dto.metricUuid, dto.targets, dto.status, dto.thresholds, now, now);
    KpiService.Create(kpis, kpi)
  }

  /** Whether an update refreshes `updatedAt`: a non-empty name or description, any
      targets, or a thresholds object (`null` is falsy). */
  predicate Touches(dto: KpiUpdateDto) {
    Truthy(dto.name) || Truthy(dto.description) || dto.targets.Some? || (dto.thresholds.Some? && dto.thresholds.value.Some?)
  }

  /** The patch `update` hands on: the body as given, with `updatedAt` set to `now`
      when it touches a name, description, targets or thresholds. */
  function PatchFor(dto: KpiUpdateDto, now: Timestamp): (p: KpiPatch)
    ensures p.updatedAt.Some? <==> Touches(dto) || dto.updatedAt.Some?
    ensures Touches(dto) ==> p.updatedAt == Some(now)
    ensures !Touches(dto) ==> p.updatedAt == dto.updatedAt
    ensures p.uuid == dto.uuid && p.name == dto.name && p.description == dto.description
    ensures p.metricUuid == dto.metricUuid && p.targets == dto.targets
    ensures p.status == dto.status && p.thresholds == dto.thresholds && p.createdAt == dto.createdAt
  {
    KpiPatch(dto.uuid, dto.name, dto.description, dto.metricUuid, dto.targets, dto.status, dto.thresholds,
             dto.createdAt, if Touches(dto) then Some(now) else dto.updatedAt)
  }

  /** `update`. The KPI routes check neither existence nor ownership: an unknown uuid
      leaves the store as it was. */
  function Update(kpis: seq<Kpi>, uuid: Uuid, dto: KpiUpdateDto, now: Timestamp): (r: Result<seq<Kpi>, Error>)
    ensures r.Ok? <==> dto.targets.None? || KpiService.ValidateTargets(dto.targets.value).Pass?
    ensures r.Ok? ==> |r.value| == |kpis|
    ensures r.Ok? ==> forall i :: 0 <= i < |kpis| && kpis[i].uuid != uuid ==> r.value[i] == kpis[i]
    ensures r.Err? ==>
      && dto.targets.Some? && KpiService.ValidateTargets(dto.targets.value).Fail?
      && r.error == Invalid(KpiService.ValidateTargets(dto.targets.value).error)
    ensures r.Ok? ==> forall i :: 0 <= i < |kpis| && Repository.IndexOf(kpis, KpiService.KpiKey, uuid) != Some(i) ==>
      r.value[i] == kpis[i]
    ensures r.Ok? && KpiService.FindKpi(kpis, uuid).Some? ==>
      var i := Repository.IndexOf(kpis, KpiService.KpiKey, uuid).value;
      && r.value[i] == ApplyKpiPatch(kpis[i], PatchFor(dto, now))
      && r.value[i].updatedAt == (if Touches(dto) then now else dto.updatedAt.GetOr(kpis[i].updatedAt))
      && r.value[i].createdAt == dto.createdAt.GetOr(kpis[i].createdAt)
      && r.value[i].targets == dto.targets.GetOr(kpis[i].targets)
    ensures r.Ok? && KpiService.FindKpi(kpis, uuid).None? ==> r.value == kpis
  {
    KpiService.Update(kpis, uuid, PatchFor(dto, now))
  }

  /** `delete`: archives the KPI. */
  function Delete(kpis: seq<Kpi>, uuid: Uuid): (r: seq<Kpi>)
    ensures |r| == |kpis|
    ensures forall i :: 0 <= i < |kpis| ==> r[i] == kpis[i] || (kpis[i].uuid == uuid && r[i] == kpis[i].(status := Archived))
    ensures KpiService.FindKpi(kpis, uuid).None? ==> r == kpis
    ensures KpiService.FindKpi(kpis, uuid).Some? ==>
      KpiService.FindKpi(r, uuid) == Some(KpiService.FindKpi(kpis, uuid).value.(status := Archived))
    ensures forall i :: 0 <= i < |kpis| && Repository.IndexOf(kpis, KpiService.KpiKey, uuid) != Some(i) ==> r[i] == kpis[i]
    ensures Repository.IndexOf(kpis, KpiService.KpiKey, uuid).Some? ==>
      var i := Repository.IndexOf(kpis, KpiService.KpiKey, uuid).value;
      r[i] == kpis[i].(status := Archived)
  {
    KpiService.Delete(kpis, uuid)
  }
}
