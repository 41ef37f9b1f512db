/** The domain entities of the back end (dashboard.entity.ts, tile-type.enum.ts,
    kpi.entity.ts, metric.entity.ts), their partial updates, the request caller and
    the errors the core reports. Timestamps, which the source keeps as ISO-8601
    strings, are milliseconds since the epoch here. */
module Entities {
  import opened Wrappers

  type Uuid = string

  /** Milliseconds since the epoch. */
  type Timestamp = int

  /** JavaScript truthiness of an optional string: present and non-empty. */
  predicate Truthy(s: Option<string>) {
    s.Some? && s.value != ""
  }

  // ----- Dashboards -----

  datatype TileType = SingleMetric | MultiMetric | KpiTracker | MetricWithKpi | Chart

  /** A tile on the dashboard grid. `config` is passed through and never inspected. */
  datatype Tile = Tile(
    id: string,
    x: int,
    y: int,
    w: int,
    h: int,
    kind: TileType,
    metricUuids: seq<Uuid>,
    kpiUuids: Option<seq<Uuid>>,
    config: Option<map<string, string>>)

  datatype Dashboard = Dashboard(
    uuid: Uuid,
    name: string,
    description: string,
    ownerUuid: Uuid,
    tiles: seq<Tile>,
    createdAt: Timestamp,
    updatedAt: Timestamp)

  /** A `Partial<Dashboard>`: the fields of an update body plus the `updatedAt` the
      use case may add. A present field replaces the stored one (object spread). The
      update body is not validated, so it may carry the timestamps as well. */
  datatype DashboardPatch = DashboardPatch(
    uuid: Option<Uuid>,
    name: Option<string>,
    description: Option<string>,
    ownerUuid: Option<Uuid>,
    tiles: Option<seq<Tile>>,
    createdAt: Option<Timestamp>,
    updatedAt: Option<Timestamp>)

  /** A patch that carries nothing. */
  const EmptyDashboardPatch := DashboardPatch(None, None, None, None, None, None, None)

  /** `{ ...d, ...p }`: every field the patch carries replaces the stored one, and the
      others are kept. */
  function ApplyDashboardPatch(d: Dashboard, p: DashboardPatch): (r: Dashboard)
    ensures p.uuid.None? ==> r.uuid == d.uuid
    ensures p.name.None? ==> r.name == d.name
    ensures p.description.None? ==> r.description == d.description
    ensures p.ownerUuid.None? ==> r.ownerUuid == d.ownerUuid
    ensures p.tiles.None? ==> r.tiles == d.tiles
    ensures p.createdAt.None? ==> r.createdAt == d.createdAt
    ensures p.updatedAt.None? ==> r.updatedAt == d.updatedAt
    ensures p.uuid.Some? ==> r.uuid == p.uuid.value
    ensures p.name.Some? ==> r.name == p.name.value
    ensures p.description.Some? ==> r.description == p.description.value
    ensures p.ownerUuid.Some? ==> r.ownerUuid == p.ownerUuid.value
    ensures p.tiles.Some? ==> r.tiles == p.tiles.value
    ensures p.createdAt.Some? ==> r.createdAt == p.createdAt.value
    ensures p.updatedAt.Some? ==> r.updatedAt == p.updatedAt.value
    ensures p == EmptyDashboardPatch ==> r == d
  {
    Dashboard(
      p.uuid.GetOr(d.uuid),
      p.name.GetOr(d.name),
      p.description.GetOr(d.description),
      p.ownerUuid.GetOr(d.ownerUuid),
      p.tiles.GetOr(d.tiles),
      p.createdAt.GetOr(d.createdAt),
      p.updatedAt.GetOr(d.updatedAt))
  }

  // ----- KPIs -----

  /** A target; `date` present makes it a time-driven milestone. `caption` is the
      source's human-readable `label`. */
  datatype Target = Target(value: real, date: Option<Timestamp>, caption: Option<string>)

  /** A threshold bound as the stored JSON can hold it: absent, `null` (which the
      optional-number validation of the create body lets through), or a number. */
  datatype Bound = Absent | Null | Limit(value: real)

  /** Alert thresholds; both are lower bounds (a value below them is worse). */
  datatype Thresholds = Thresholds(warning: Bound, critical: Bound)

  datatype KpiStatus = OnTrack | Warning | Critical | Archived

  /** The string form of a status, as compared by the list filter. */
  function StatusName(s: KpiStatus): string {
    match s
    case OnTrack => "on-track"
    case Warning => "warning"
    case Critical => "critical"
    case Archived => "archived"
  }

  /** A KPI. `thresholds` is `None` when the stored field is absent or `null`: the core
      treats both alike, as falsy. */
  datatype Kpi = Kpi(
    uuid: Uuid,
    name: string,
    description: string,
    metricUuid: Uuid,
    targets: seq<Target>,
    status: KpiStatus,
    thresholds: Option<Thresholds>,
    createdAt: Timestamp,
    updatedAt: Timestamp)

  /** A `Partial<Kpi>`: the fields of an update body plus `updatedAt`; like the
      dashboard patch, it may carry either timestamp. `thresholds` is absent (`None`),
      `null` (`Some(None)`, which clears the stored thresholds) or an object. */
  datatype KpiPatch = KpiPatch(
    uuid: Option<Uuid>,
    name: Option<string>,
    description: Option<string>,
    metricUuid: Option<Uuid>,
    targets: Option<seq<Target>>,
    status: Option<KpiStatus>,
    thresholds: Option<Option<Thresholds>>,
    createdAt: Option<Timestamp>,
    updatedAt: Option<Timestamp>)

  /** A patch that carries nothing. */
  const EmptyKpiPatch := KpiPatch(None, None, None, None, None, None, None, None, None)

  /** `{ ...k, ...p }` for KPIs. */
  function ApplyKpiPatch(k: Kpi, p: KpiPatch): (r: Kpi)
    ensures p.uuid.None? ==> r.uuid == k.uuid
    ensures p.name.None? ==> r.name == k.name
    ensures p.description.None? ==> r.description == k.description
    ensures p.metricUuid.None? ==> r.metricUuid == k.metricUuid
    ensures p.targets.None? ==> r.targets == k.targets
    ensures p.status.None? ==> r.status == k.status
    ensures p.thresholds.None? ==> r.thresholds == k.thresholds
    ensures p.createdAt.None? ==> r.createdAt == k.createdAt
    ensures p.updatedAt.None? ==> r.updatedAt == k.updatedAt
    ensures p.uuid.Some? ==> r.uuid == p.uuid.value
    ensures p.name.Some? ==> r.name == p.name.value
    ensures p.description.Some? ==> r.description == p.description.value
    ensures p.metricUuid.Some? ==> r.metricUuid == p.metricUuid.value
    ensures p.targets.Some? ==> r.targets == p.targets.value
    ensures p.status.Some? ==> r.status == p.status.value
    ensures p.thresholds.Some? ==> r.thresholds == p.thresholds.value
    ensures p.createdAt.Some? ==> r.createdAt == p.createdAt.value
    ensures p.updatedAt.Some? ==> r.updatedAt == p.updatedAt.value
    ensures p == EmptyKpiPatch ==> r == k
  {
    Kpi(
      p.uuid.GetOr(k.uuid),
      p.name.GetOr(k.name),
      p.description.GetOr(k.description),
      p.metricUuid.GetOr(k.metricUuid),
      p.targets.GetOr(k.targets),
      p.status.GetOr(k.status),
      p.thresholds.GetOr(k.thresholds),
      p.createdAt.GetOr(k.createdAt),
      p.updatedAt.GetOr(k.updatedAt))
  }

  // ----- Metrics -----

  datatype Aggregation = Sum | Latest | Average | Median | Min | Max

  datatype MetricValue = MetricValue(value: real, timestamp: Timestamp)

  /** A metric. `valueType` is kept as its string form: the core never inspects it. */
  datatype Metric = Metric(
    uuid: Uuid,
    name: string,
    description: string,
    valueType: string,
    unit: string,
    values: seq<MetricValue>,
    aggregation: Aggregation,
    tags: seq<string>)

  // ----- Callers and errors -----

  datatype Role = Admin | Viewer

  /** The authenticated identity the boundary layer supplies with each request. */
  datatype Caller = Caller(userId: Uuid, role: Role)

  /** Why a tile list or a target list is refused. */
  datatype ValidationError =
    | EmptyDashboard
    | DuplicateTileId(id: string)
    | InvalidTileGeometry(id: string)
    | TileMissingMetric(id: string)
    | TileOverlap(first: string, second: string)
    | EmptyTargets
    | TargetsOutOfOrder

  datatype Error = NotFound | Forbidden | Invalid(reason: ValidationError)
}
