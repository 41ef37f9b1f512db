/** The dashboard routes (dashboards.controller.ts): the paginated list with the
    caller's ownership flags, lookup, the aggregated dashboard data with its optional
    date window, and create, duplicate, update and delete with their guards. */
module DashboardsController {
  import opened Wrappers
  import opened Entities
  import Seqs
  import Repository
  import Pagination
  import TileValidation
  import DashboardService
  import KpiService
  import DashboardUseCase

  /** The optional date window of the data route. A bound is present when its query
      parameter is a non-empty string; it is given here already as a timestamp. */
  datatype DateWindow = DateWindow(startDate: Option<Timestamp>, endDate: Option<Timestamp>)

  /** The metric part of the data route's answer. */
  datatype MetricData = MetricData(
    uuid: Uuid,
    name: string,
    description: string,
    unit: string,
    valueType: string,
    values: seq<MetricValue>)

  /** The KPI part of the data route's answer. */
  datatype KpiData = KpiData(
    uuid: Uuid,
    name: string,
    description: string,
    metricUuid: Uuid,
    targets: seq<Target>,
    thresholds: Option<Thresholds>,
    status: KpiStatus)

  datatype DashboardSummary = DashboardSummary(uuid: Uuid, name: string, description: string, tiles: seq<Tile>)

  /** The data route's answer; `filters` echoes the window that was applied. */
  datatype DashboardData = DashboardData(
    dashboard: DashboardSummary,
    metrics: map<Uuid, MetricData>,
    kpis: map<Uuid, KpiData>,
    filters: DateWindow)

  // ----- Listing and lookup -----

  /** `getAll`: the page of list items, with the admin flag taken from the caller's role. */
  function GetAll(dashboards: seq<Dashboard>, page: int, limit: int, caller: Caller)
    : (r: Pagination.Page<DashboardService.DashboardListItem>)
    requires page != 0 && limit != 0
    ensures r.total == |dashboards|
    ensures limit >= 1 ==> |r.items| <= limit
    ensures page >= 1 && limit >= 1 ==>
      var start := (page - 1) * limit;
      |r.items| == (if start >= |dashboards| then 0 else Pagination.Min(limit, |dashboards| - start))
    ensures r.links.prev.Some? <==> page > 1
    ensures r.links.next.Some? <==> page < Pagination.LastPage(|dashboards|, limit)
    ensures r.links.last.page >= 1
    ensures r.links.first.status.None? && r.links.last.status.None?
    ensures r.links.prev.Some? ==> r.links.prev.value.status.None?
    ensures r.links.next.Some? ==> r.links.next.value.status.None?
  {
    DashboardUseCase.ListItemsPaginated(dashboards, page, limit, caller.userId, caller.role == Admin)
  }

  /** For positive page and limit, item `i` of the caller's page describes dashboard
      `(page - 1) * limit + i` field by field, and is marked as theirs exactly when they
      are an admin or own that dashboard. */
  lemma GetAllFlagsOwnership(dashboards: seq<Dashboard>, page: int, limit: int, caller: Caller, i: int)
    requires page >= 1 && limit >= 1 && 0 <= i < limit
    requires (page - 1) * limit + i < |dashboards|
    ensures i < |GetAll(dashboards, page, limit, caller).items|
    ensures
      var item := GetAll(dashboards, page, limit, caller).items[i];
      var d := dashboards[(page - 1) * limit + i];
      && item.uuid == d.uuid
      && item.name == d.name
      && item.description == d.description
      && item.ownerUuid == d.ownerUuid
      && item.tileCount == |d.tiles|
      && item.updatedAt == d.updatedAt
    ensures GetAll(dashboards, page, limit, caller).items[i].isOwner <==>
      caller.role == Admin || dashboards[(page - 1) * limit + i].ownerUuid == caller.userId
  {
    DashboardUseCase.ListPageItem(dashboards, page, limit, caller.userId, caller.role == Admin, i);
  }

  /** `getById`: the stored dashboard, or not found. */
  function GetById(dashboards: seq<Dashboard>, id: Uuid): (r: Result<Dashboard, Error>)
    ensures r.Err? <==> forall i :: 0 <= i < |dashboards| ==> dashboards[i].uuid != id
    ensures r.Err? ==> r.error == NotFound
    ensures r.Ok? ==> r.value in dashboards && r.value.uuid == id
    ensures r.Ok? ==>
      var first := Repository.IndexOf(dashboards, DashboardService.DashboardKey, id);
      first.Some? && r.value == dashboards[first.value]
  {
    match DashboardService.FindDashboard(dashboards, id)
    case None => Err(NotFound)
    case Some(d) => Ok(d)
  }

  // ----- The data route -----

  /** Whether a value's timestamp lies within the window (both bounds inclusive). */
  predicate InWindow(ts: Timestamp, w: DateWindow) {
    (w.startDate.None? || ts >= w.startDate.value) && (w.endDate.None? || ts <= w.endDate.value)
  }

  /** The values of a metric inside the window; with no bound, all of them. */
  function FilterValues(values: seq<MetricValue>, w: DateWindow): (r: seq<MetricValue>)
    ensures forall i :: 0 <= i < |r| ==> r[i] in values && InWindow(r[i].timestamp, w)
    ensures forall i :: 0 <= i < |values| && InWindow(values[i].timestamp, w) ==> values[i] in r
    ensures w.startDate.None? && w.endDate.None? ==> r == values
  {
    if w.startDate.Some? || w.endDate.Some? then Seqs.Filter(values, (v: MetricValue) => InWindow(v.timestamp, w))
    else values
  }

  /** The window filter keeps the values' order: it distributes over concatenation. */
  lemma FilterValuesKeepsOrder(a: seq<MetricValue>, b: seq<MetricValue>, w: DateWindow)
    ensures FilterValues(a + b, w) == FilterValues(a, w) + FilterValues(b, w)
  {
    if w.startDate.Some? || w.endDate.Some? {
      Seqs.FilterConcat(a, b, (v: MetricValue) => InWindow(v.timestamp, w));
    }
  }

  /** Widening the window never loses a value. */
  lemma {:induction false} FilterValuesMonotone(values: seq<MetricValue>, narrow: DateWindow, wide: DateWindow, v: MetricValue)
    requires forall ts :: InWindow(ts, narrow) ==> InWindow(ts, wide)
    requires v in FilterValues(values, narrow)
    ensures v in FilterValues(values, wide)
  {
    var k :| 0 <= k < |values| && values[k] == v;
  }

  function MetricDataOf(m: Metric, w: DateWindow): MetricData {
    MetricData(m.uuid, m.name, m.description, m.unit, m.valueType, FilterValues(m.values, w))
  }

  function KpiDataOf(k: Kpi): KpiData {
    KpiData(k.uuid, k.name, k.description, k.metricUuid, k.targets, k.thresholds, k.status)
  }

  /** The metrics loop: every referenced uuid the metric store knows gets an entry. */
  function CollectMetrics(uuids: seq<Uuid>, metrics: map<Uuid, Metric>, w: DateWindow, acc: map<Uuid, MetricData>)
    : (r: map<Uuid, MetricData>)
    ensures forall u :: u in r <==> u in acc || (u in uuids && u in metrics)
    ensures forall u :: u in r ==>
      r[u] == if u in uuids && u in metrics then MetricDataOf(metrics[u], w) else acc[u]
    decreases |uuids|
  {
    if |uuids| == 0 then acc
    else
      var u := uuids[0];
      CollectMetrics(uuids[1..], metrics, w, if u in metrics then acc[u := MetricDataOf(metrics[u], w)] else acc)
  }

  /** The KPI loop: every referenced uuid the KPI store knows gets an entry. */
  function CollectKpis(uuids: seq<Uuid>, kpis: seq<Kpi>, acc: map<Uuid, KpiData>): (r: map<Uuid, KpiData>)
    ensures forall u :: u in r <==> u in acc || (u in uuids && KpiService.FindKpi(kpis, u).Some?)
    ensures forall u :: u in r ==>
      r[u] == if u in uuids && KpiService.FindKpi(kpis, u).Some? then KpiDataOf(KpiService.FindKpi(kpis, u).value) else acc[u]
    decreases |uuids|
  {
    if |uuids| == 0 then acc
    else
      var u := uuids[0];
      CollectKpis(uuids[1..], kpis, match KpiService.FindKpi(kpis, u) case None => acc case Some(k) => acc[u := KpiDataOf(k)])
  }

  /** The `metrics` part of the data route: an entry for each metric a tile references
      and the store holds, its values cut to the window. */
  function MetricsOf(d: Dashboard, metrics: map<Uuid, Metric>, w: DateWindow): (r: map<Uuid, MetricData>)
    ensures forall u :: u in r <==> u in metrics && exists i :: 0 <= i < |d.tiles| && u in d.tiles[i].metricUuids
    ensures forall u :: u in r ==>
      r[u] == MetricDataOf(metrics[u], w)
  {
    var uuids := DashboardService.ExtractMetricUuids(d);
    var r := CollectMetrics(uuids, metrics, w, map[]);
    assert forall u :: u in r <==> u in uuids && u in metrics;
    assert forall u :: u in r ==> r[u] == MetricDataOf(metrics[u], w);
    r
  }

  /** An entry of the `metrics` part copies its metric's descriptive fields and holds
      exactly the metric's values inside the window. */
  lemma MetricEntryIsWindowed(d: Dashboard, metrics: map<Uuid, Metric>, w: DateWindow, u: Uuid)
    requires u in metrics
    requires exists i :: 0 <= i < |d.tiles| && u in d.tiles[i].metricUuids
    ensures u in MetricsOf(d, metrics, w)
    ensures
      var e := MetricsOf(d, metrics, w)[u];
      var m := metrics[u];
      && e.uuid == m.uuid && e.name == m.name && e.description == m.description
      && e.unit == m.unit && e.valueType == m.valueType
      && (forall i :: 0 <= i < |e.values| ==> e.values[i] in m.values && InWindow(e.values[i].timestamp, w))
      && (forall i :: 0 <= i < |m.values| && InWindow(m.values[i].timestamp, w) ==> m.values[i] in e.values)
  {
  }

  /** The `kpis` part of the data route: an entry for each KPI a tile references and
      the store holds. */
  function KpisOf(d: Dashboard, kpis: seq<Kpi>): (r: map<Uuid, KpiData>)
    ensures forall u :: u in r <==>
      && KpiService.FindKpi(kpis, u).Some?
      && exists i :: 0 <= i < |d.tiles| && d.tiles[i].kpiUuids.Some? && u in d.tiles[i].kpiUuids.value
    ensures forall u :: u in r ==> r[u] == KpiDataOf(KpiService.FindKpi(kpis, u).value)
    ensures forall u :: u in r ==>
      && r[u].uuid == u
      && r[u].targets == KpiService.FindKpi(kpis, u).value.targets
      && r[u].status == KpiService.FindKpi(kpis, u).value.status
  {
    var uuids := DashboardService.ExtractKpiUuids(d);
    var r := CollectKpis(uuids, kpis, map[]);
    assert forall u :: u in r <==> u in uuids && KpiService.FindKpi(kpis, u).Some?;
    assert forall u :: u in r ==> r[u] == KpiDataOf(KpiService.FindKpi(kpis, u).value);
    r
  }

  /** `getDashboardData`: the dashboard, the data of every metric and KPI its tiles
      reference that the stores know (metric values cut to the window), and the window. */
  function GetDashboardData(dashboards: seq<Dashboard>, metrics: map<Uuid, Metric>, kpis: seq<Kpi>, id: Uuid, w: DateWindow)
    : (r: Result<DashboardData, Error>)
    ensures r.Err? <==> DashboardService.FindDashboard(dashboards, id).None?
    ensures r.Err? ==> r.error == NotFound
    ensures r.Ok? ==>
      var d := DashboardService.FindDashboard(dashboards, id).value;
      && r.value.dashboard == DashboardSummary(d.uuid, d.name, d.description, d.tiles)
      && r.value.filters == w
      && r.value.metrics == MetricsOf(d, metrics, w)
      && r.value.kpis == KpisOf(d, kpis)
  {
    match DashboardService.FindDashboard(dashboards, id)
    case None => Err(NotFound)
    case Some(d) =>
      Ok(DashboardData(DashboardSummary(d.uuid, d.name, d.description, d.tiles), MetricsOf(d, metrics, w), KpisOf(d, kpis), w))
  }

  // ----- Writes -----

  /** `create`: the caller becomes the owner whatever the body says. */
  function CreateDashboard(dashboards: seq<Dashboard>, dto: DashboardUseCase.DashboardDto, caller: Caller,
                           newUuid: Uuid, now: Timestamp): (r: Result<(seq<Dashboard>, Dashboard), Error>)
    ensures r.Ok? <==> TileValidation.LayoutValid(dto.tiles)
    ensures r.Err? ==> r.error.Invalid?
    ensures r.Ok? ==> r.value.1.ownerUuid == caller.userId && r.value.0 == dashboards + [r.value.1]
  {
    DashboardUseCase.Create(dashboards, dto.(ownerUuid := Some(caller.userId)), newUuid, now)
  }

  /** `duplicate`: any caller may copy any dashboard and owns the copy. */
  function DuplicateDashboard(dashboards: seq<Dashboard>, id: Uuid, caller: Caller, newUuid: Uuid,
                              created: Timestamp, updated: Timestamp)
    : (r: Result<(seq<Dashboard>, Dashboard), Error>)
    ensures r.Err? <==> DashboardService.FindDashboard(dashboards, id).None?
    ensures r.Err? ==> r.error == NotFound
    ensures r.Ok? ==> r.value.1.ownerUuid == caller.userId
  {
    DashboardUseCase.Duplicate(dashboards, id, caller.userId, newUuid, created, updated)
  }

  /** The guard shared by update and delete: not found first, then forbidden unless the
      caller is an admin or the owner. */
  function Guard(dashboards: seq<Dashboard>, id: Uuid, caller: Caller): (r: Outcome<Error>)
    ensures r.Pass? <==>
      && DashboardService.FindDashboard(dashboards, id).Some?
      && DashboardService.CanModify(DashboardService.FindDashboard(dashboards, id).value, caller.userId, caller.role == Admin)
    ensures r == Fail(NotFound) <==> forall i :: 0 <= i < |dashboards| ==> dashboards[i].uuid != id
    ensures r.Fail? ==> r.error == NotFound || r.error == Forbidden
  {
    match DashboardService.FindDashboard(dashboards, id)
    case None => Fail(NotFound)
    case Some(d) => if caller.role != Admin && d.ownerUuid != caller.userId then Fail(Forbidden) else Pass
  }

  /** `update`: guarded, then the use case's update. */
  function UpdateDashboard(dashboards: seq<Dashboard>, id: Uuid, dto: DashboardUseCase.DashboardUpdateDto,
                           caller: Caller, now: Timestamp): (r: Result<seq<Dashboard>, Error>)
    ensures Guard(dashboards, id, caller).Fail? ==> r == Err(Guard(dashboards, id, caller).error)
    ensures r.Ok? <==>
      && Guard(dashboards, id, caller).Pass?
      && (dto.tiles.None? || TileValidation.LayoutValid(dto.tiles.value))
    ensures Guard(dashboards, id, caller).Pass? && r.Err? ==>
      r.error == Invalid(TileValidation.ValidateTiles(dto.tiles.value).error)
    ensures r.Ok? ==> |r.value| == |dashboards|
    ensures r.Ok? ==> forall i :: 0 <= i < |dashboards| && dashboards[i].uuid != id ==> r.value[i] == dashboards[i]
    ensures r.Ok? ==>
      var first := Repository.IndexOf(dashboards, DashboardService.DashboardKey, id);
      && first.Some?
      && r.value[first.value] == ApplyDashboardPatch(dashboards[first.value], DashboardUseCase.PatchFor(dto, now))
      && forall i :: 0 <= i < |dashboards| && i != first.value ==> r.value[i] == dashboards[i]
  {
    match Guard(dashboards, id, caller)
    case Fail(e) => Err(e)
    case Pass => DashboardUseCase.Update(dashboards, id, dto, now)
  }

  /** `delete`: guarded, then every row with that uuid is removed. */
  function DeleteDashboard(dashboards: seq<Dashboard>, id: Uuid, caller: Caller): (r: Result<seq<Dashboard>, Error>)
    ensures Guard(dashboards, id, caller).Fail? ==> r == Err(Guard(dashboards, id, caller).error)
    ensures r.Ok? <==> Guard(dashboards, id, caller).Pass?
    ensures r.Ok? ==> |r.value| < |dashboards|
    ensures r.Ok? ==> DashboardService.FindDashboard(r.value, id).None?
    ensures r.Ok? ==> forall i :: 0 <= i < |dashboards| && dashboards[i].uuid != id ==> dashboards[i] in r.value
    ensures r.Ok? ==> forall i :: 0 <= i < |r.value| ==> r.value[i] in dashboards && r.value[i].uuid != id
  {
    match Guard(dashboards, id, caller)
    case Fail(e) => Err(e)
    case Pass => Ok(DashboardUseCase.Delete(dashboards, id))
  }

  /** A delete that passes the guard keeps the surviving dashboards in store order and
      multiplicity: around any one row, what remains before it, that row unless it
      carries the id, and what remains after it. */
  lemma DeleteDashboardSplits(before: seq<Dashboard>, d: Dashboard, after: seq<Dashboard>, id: Uuid, caller: Caller)
    requires Guard(before + [d] + after, id, caller).Pass?
    ensures DeleteDashboard(before + [d] + after, id, caller).Ok?
    ensures DeleteDashboard(before + [d] + after, id, caller).value
      == DashboardService.Delete(before, id) + (if d.uuid != id then [d] else []) + DashboardService.Delete(after, id)
  {
    DashboardService.DeleteSplits(before, d, after, id);
  }

  /** A viewer who does not own a dashboard can neither update nor delete it, whatever
      the request carries. */
  lemma ViewerCannotTouchOthers(dashboards: seq<Dashboard>, id: Uuid, dto: DashboardUseCase.DashboardUpdateDto,
                                caller: Caller, now: Timestamp)
    requires caller.role == Viewer
    requires DashboardService.FindDashboard(dashboards, id).Some?
    requires DashboardService.FindDashboard(dashboards, id).value.ownerUuid != caller.userId
    ensures UpdateDashboard(dashboards, id, dto, caller, now) == Err(Forbidden)
    ensures DeleteDashboard(dashboards, id, caller) == Err(Forbidden)
  {
  }
}
