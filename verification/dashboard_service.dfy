/** The dashboard domain service (dashboard.service.ts) apart from tile validation:
    reference extraction, list items, duplication, the ownership predicate and the
    validation gate in front of the repository. */
module DashboardService {
  import opened Wrappers
  import opened Entities
  import Seqs
  import Repository
  import TileValidation

  function DashboardKey(d: Dashboard): string {
    d.uuid
  }

  /** `repository.findById`. */
  function FindDashboard(dashboards: seq<Dashboard>, uuid: Uuid): Option<Dashboard> {
    Repository.FindById(dashboards, DashboardKey, uuid)
  }

  // ----- Reference extraction -----

  /** Which list of a tile is being collected. */
  datatype RefKind = MetricRefs | KpiRefs

  /** A tile's references of one kind; a tile without `kpiUuids` has no KPI references. */
  function TileRefs(t: Tile, kind: RefKind): seq<Uuid> {
    match kind
    case MetricRefs => t.metricUuids
    case KpiRefs => if t.kpiUuids.Some? then t.kpiUuids.value else []
  }

  /** Every reference of the tiles in tile order, then list order, repeats included. */
  function AllRefs(tiles: seq<Tile>, kind: RefKind): seq<Uuid> {
    if |tiles| == 0 then [] else TileRefs(tiles[0], kind) + AllRefs(tiles[1..], kind)
  }

  lemma {:induction false} AllRefsMembership(tiles: seq<Tile>, kind: RefKind, u: Uuid)
    ensures u in AllRefs(tiles, kind) <==> exists i :: 0 <= i < |tiles| && u in TileRefs(tiles[i], kind)
  {
    if |tiles| > 0 {
      AllRefsMembership(tiles[1..], kind, u);
      if exists i :: 0 <= i < |tiles| && u in TileRefs(tiles[i], kind) {
        var i :| 0 <= i < |tiles| && u in TileRefs(tiles[i], kind);
        if i > 0 {
          assert tiles[1..][i - 1] == tiles[i];
        }
      }
    }
  }

  /** The `forEach` loops of `extractMetricUuids`/`extractKpiUuids`, adding every reference
      of each tile to the insertion-ordered set `acc`. */
  function CollectRefs(tiles: seq<Tile>, kind: RefKind, acc: seq<Uuid>): seq<Uuid> {
    if |tiles| == 0 then acc
    else CollectRefs(tiles[1..], kind, Seqs.InsertAll(acc, TileRefs(tiles[0], kind)))
  }

  lemma {:induction false} CollectRefsIsFirsts(tiles: seq<Tile>, kind: RefKind, seen: seq<Uuid>)
    ensures CollectRefs(tiles, kind, Seqs.Firsts(seen)) == Seqs.Firsts(seen + AllRefs(tiles, kind))
  {
    if |tiles| == 0 {
      assert seen + AllRefs(tiles, kind) == seen;
    } else {
      var here := TileRefs(tiles[0], kind);
      Seqs.InsertAllFirsts(seen, here);
      CollectRefsIsFirsts(tiles[1..], kind, seen + here);
      ConcatAssoc(seen, here, AllRefs(tiles[1..], kind));
    }
  }

  lemma ConcatAssoc(a: seq<Uuid>, b: seq<Uuid>, c: seq<Uuid>)
    ensures (a + b) + c == a + (b + c)
  {
  }

  /** The extraction both operations share: each referenced uuid once, in first-seen order. */
  function ExtractRefs(d: Dashboard, kind: RefKind): (r: seq<Uuid>)
    ensures r == Seqs.Firsts(AllRefs(d.tiles, kind))
    ensures Seqs.NoDup(r)
    ensures forall u :: u in r <==> exists i :: 0 <= i < |d.tiles| && u in TileRefs(d.tiles[i], kind)
  {
    CollectRefsIsFirsts(d.tiles, kind, []);
    assert [] + AllRefs(d.tiles, kind) == AllRefs(d.tiles, kind);
    var r := CollectRefs(d.tiles, kind, []);
    forall u
      ensures u in r <==> exists i :: 0 <= i < |d.tiles| && u in TileRefs(d.tiles[i], kind)
    {
      Seqs.FirstsMembership(AllRefs(d.tiles, kind), u);
      AllRefsMembership(d.tiles, kind, u);
    }
    r
  }

  /** `extractMetricUuids`. */
  function ExtractMetricUuids(d: Dashboard): (r: seq<Uuid>)
    ensures r == Seqs.Firsts(AllRefs(d.tiles, MetricRefs))
    ensures Seqs.NoDup(r)
    ensures forall u :: u in r <==> exists i :: 0 <= i < |d.tiles| && u in d.tiles[i].metricUuids
  {
    ExtractRefs(d, MetricRefs)
  }

  /** `extractKpiUuids`; tiles without `kpiUuids` contribute nothing. */
  function ExtractKpiUuids(d: Dashboard): (r: seq<Uuid>)
    ensures r == Seqs.Firsts(AllRefs(d.tiles, KpiRefs))
    ensures Seqs.NoDup(r)
    ensures forall u :: u in r <==>
      exists i :: 0 <= i < |d.tiles| && d.tiles[i].kpiUuids.Some? && u in d.tiles[i].kpiUuids.value
  {
    ExtractRefs(d, KpiRefs)
  }

  // ----- Ownership and list items -----

  /** `canModify`: admins may modify any dashboard, everybody else only their own. */
  predicate CanModify(d: Dashboard, userUuid: Uuid, isAdmin: bool) {
    isAdmin || d.ownerUuid == userUuid
  }

  /** A row of the dashboard list. The hypermedia links are left out. */
  datatype DashboardListItem = DashboardListItem(
    uuid: Uuid,
    name: string,
    description: string,
    ownerUuid: Uuid,
    tileCount: nat,
    updatedAt: Timestamp,
    isOwner: bool)

  /** `getListItems`: one row per stored dashboard, in store order. */
  function ListItems(dashboards: seq<Dashboard>, currentUserUuid: Uuid, isAdmin: bool): (r: seq<DashboardListItem>)
    ensures |r| == |dashboards|
    ensures forall i :: 0 <= i < |r| ==>
      && r[i].uuid == dashboards[i].uuid
      && r[i].name == dashboards[i].name
      && r[i].description == dashboards[i].description
      && r[i].ownerUuid == dashboards[i].ownerUuid
      && r[i].tileCount == |dashboards[i].tiles|
      && r[i].updatedAt == dashboards[i].updatedAt
      && (r[i].isOwner <==> CanModify(dashboards[i], currentUserUuid, isAdmin))
  {
    if |dashboards| == 0 then []
    else
      var d := dashboards[0];
      [DashboardListItem(d.uuid, d.name, d.description, d.ownerUuid, |d.tiles|, d.updatedAt,
                         isAdmin || d.ownerUuid == currentUserUuid)]
      + ListItems(dashboards[1..], currentUserUuid, isAdmin)
  }

  // ----- Duplication -----

  const DefaultCopyPrefix := "Copy of"

  /** `duplicate`: a copy of the stored dashboard `uuid` under the uuid `newUuid`, owned
      by `newOwnerUuid`, and saved. The fresh uuid and the clock are parameters: the
      source reads the clock twice, once for `createdAt` (`created`) and once for
      `updatedAt` (`updated`). Tiles are immutable values, so the copy shares nothing
      mutable. */
  function Duplicate(dashboards: seq<Dashboard>, uuid: Uuid, newOwnerUuid: Uuid, namePrefix: string,
                     newUuid: Uuid, created: Timestamp, updated: Timestamp): (r: Result<(seq<Dashboard>, Dashboard), Error>)
    ensures r.Err? <==> FindDashboard(dashboards, uuid).None?
    ensures r.Err? ==> r.error == NotFound
    ensures r.Ok? ==>
      var (after, copy) := r.value;
      var original := FindDashboard(dashboards, uuid).value;
      && copy.uuid == newUuid
      && copy.name == namePrefix + " " + original.name
      && copy.description == original.description
      && copy.ownerUuid == newOwnerUuid
      && copy.tiles == original.tiles
      && copy.createdAt == created && copy.updatedAt == updated
      && after == dashboards + [copy]
      && FindDashboard(after, uuid) == Some(original)
  {
    match FindDashboard(dashboards, uuid)
    case None => Err(NotFound)
    case Some(original) =>
      var copy := Dashboard(newUuid, namePrefix + " " + original.name, original.description,
                            newOwnerUuid, original.tiles, created, updated);
      Repository.SaveKeepsLookups(dashboards, DashboardKey, copy, uuid);
      Ok((Repository.Save(dashboards, copy), copy))
  }

  // ----- Writes -----

  /** `create`: the dashboard is saved only when its tiles pass validation. */
  function Create(dashboards: seq<Dashboard>, d: Dashboard): (r: Result<seq<Dashboard>, Error>)
    ensures r.Ok? <==> TileValidation.LayoutValid(d.tiles)
    ensures r.Ok? ==> r.value == dashboards + [d]
    ensures r.Err? ==> r.error.Invalid?
    ensures r.Err? ==> TileValidation.ValidateTiles(d.tiles).Fail? && r.error == Invalid(TileValidation.ValidateTiles(d.tiles).error)
    ensures |d.tiles| == 0 ==> r == Err(Invalid(EmptyDashboard))
  {
    match TileValidation.ValidateTiles(d.tiles)
    case Fail(e) => Err(Invalid(e))
    case Pass => Ok(Repository.Save(dashboards, d))
  }

  /** `update`: tiles are validated only when the patch carries them; then the patch is
      merged into the stored dashboard (a no-op when `uuid` is not stored). */
  function Update(dashboards: seq<Dashboard>, uuid: Uuid, patch: DashboardPatch): (r: Result<seq<Dashboard>, Error>)
    ensures r.Ok? <==> patch.tiles.None? || TileValidation.LayoutValid(patch.tiles.value)
    ensures r.Err? ==> r.error.Invalid?
    ensures r.Err? ==>
      && patch.tiles.Some? && TileValidation.ValidateTiles(patch.tiles.value).Fail?
      && r.error == Invalid(TileValidation.ValidateTiles(patch.tiles.value).error)
    ensures r.Ok? ==> |r.value| == |dashboards|
    ensures r.Ok? ==> forall i :: 0 <= i < |dashboards| && dashboards[i].uuid != uuid ==> r.value[i] == dashboards[i]
    ensures r.Ok? ==> forall i :: 0 <= i < |dashboards| && Repository.IndexOf(dashboards, DashboardKey, uuid) != Some(i) ==>
      r.value[i] == dashboards[i]
    ensures r.Ok? && FindDashboard(dashboards, uuid).Some? ==>
      var i := Repository.IndexOf(dashboards, DashboardKey, uuid).value;
      r.value[i] == ApplyDashboardPatch(dashboards[i], patch)
    ensures r.Ok? && FindDashboard(dashboards, uuid).None? ==> r.value == dashboards
  {
    var validation := if patch.tiles.Some? then TileValidation.ValidateTiles(patch.tiles.value) else Pass;
    match validation
    case Fail(e) => Err(Invalid(e))
    case Pass => Ok(Repository.Update(dashboards, DashboardKey, uuid, (d: Dashboard) => ApplyDashboardPatch(d, patch)))
  }

  /** `delete`. */
  function Delete(dashboards: seq<Dashboard>, uuid: Uuid): (r: seq<Dashboard>)
    ensures |r| <= |dashboards|
    ensures FindDashboard(dashboards, uuid).Some? ==> |r| < |dashboards|
    ensures FindDashboard(r, uuid).None?
    ensures forall i :: 0 <= i < |dashboards| && dashboards[i].uuid != uuid ==> dashboards[i] in r
    ensures forall i :: 0 <= i < |r| ==> r[i] in dashboards && r[i].uuid != uuid
    ensures FindDashboard(dashboards, uuid).None? ==> r == dashboards
  {
    Repository.Delete(dashboards, DashboardKey, uuid)
  }

  /** Deleting keeps the surviving dashboards in their order and multiplicity: around
      any one row, the result is what is deleted before it, that row unless it carries
      the uuid, and what is deleted after it. */
  lemma DeleteSplits(before: seq<Dashboard>, d: Dashboard, after: seq<Dashboard>, uuid: Uuid)
    ensures Delete(before + [d] + after, uuid)
      == Delete(before, uuid) + (if d.uuid != uuid then [d] else []) + Delete(after, uuid)
  {
    Repository.DeleteSplits(before, d, after, DashboardKey, uuid);
  }
}
