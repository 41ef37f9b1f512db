/** The tile-layout rules of dashboard.service.ts (`validateTiles`, `checkTileOverlaps`):
    a non-empty list, per-tile checks run in list order, then an all-pairs overlap scan
    over half-open grid rectangles. */
module TileValidation {
  import opened Wrappers
  import opened Entities

  /** The strict half-open rectangle test of `checkTileOverlaps`. */
  predicate Overlaps(a: Tile, b: Tile) {
    && a.x < b.x + b.w
    && a.x + a.w > b.x
    && a.y < b.y + b.h
    && a.y + a.h > b.y
  }

  /** Grid cell (px, py) lies in the rectangle [x, x+w) × [y, y+h) of `t`. */
  predicate Covers(t: Tile, px: int, py: int) {
    t.x <= px < t.x + t.w && t.y <= py < t.y + t.h
  }

  predicate GeometryValid(t: Tile) {
    t.x >= 0 && t.y >= 0 && t.w > 0 && t.h > 0
  }

  lemma OverlapsSymmetric(a: Tile, b: Tile)
    ensures Overlaps(a, b) <==> Overlaps(b, a)
  {
  }

  /** Tiles that only share an edge do not overlap. */
  lemma EdgeSharingTilesDoNotOverlap(a: Tile, b: Tile)
    requires a.x + a.w == b.x || b.x + b.w == a.x || a.y + a.h == b.y || b.y + b.h == a.y
    ensures !Overlaps(a, b)
  {
  }

  /** For tiles of positive size the test means exactly that some grid cell lies in both. */
  lemma OverlapsIffSharedCell(a: Tile, b: Tile)
    requires a.w > 0 && a.h > 0 && b.w > 0 && b.h > 0
    ensures Overlaps(a, b) <==> exists px, py :: Covers(a, px, py) && Covers(b, px, py)
  {
    if Overlaps(a, b) {
      var px := if a.x < b.x then b.x else a.x;
      var py := if a.y < b.y then b.y else a.y;
      assert Covers(a, px, py) && Covers(b, px, py);
    }
  }

  // ----- The per-tile loop -----

  /** The first check that tile k fails, in the order the loop of `validateTiles` runs
      them: an id already used by an earlier tile, then bad geometry, then no metric. */
  function TileFault(tiles: seq<Tile>, k: nat): Option<ValidationError>
    requires k < |tiles|
  {
    var t := tiles[k];
    if exists j :: 0 <= j < k && tiles[j].id == t.id then Some(DuplicateTileId(t.id))
    else if !GeometryValid(t) then Some(InvalidTileGeometry(t.id))
    else if |t.metricUuids| == 0 then Some(TileMissingMetric(t.id))
    else None
  }

  /** The ids of the tiles before position k. */
  function IdsBefore(tiles: seq<Tile>, k: nat): set<string>
    requires k <= |tiles|
  {
    set j | 0 <= j < k :: tiles[j].id
  }

  /** The loop of `validateTiles` from position k on, with `seen` the id set it has
      built so far: the position of the first tile that fails a check. */
  function FirstFaultFrom(tiles: seq<Tile>, k: nat, seen: set<string>): (r: Option<nat>)
    requires k <= |tiles|
    requires seen == IdsBefore(tiles, k)
    ensures r.None? <==> forall m :: k <= m < |tiles| ==> TileFault(tiles, m).None?
    ensures r.Some? ==> k <= r.value < |tiles| && TileFault(tiles, r.value).Some?
    ensures r.Some? ==> forall m :: k <= m < r.value ==> TileFault(tiles, m).None?
    decreases |tiles| - k
  {
    if k == |tiles| then None
    else
      var t := tiles[k];
      assert t.id in seen <==> exists j :: 0 <= j < k && tiles[j].id == t.id;
      if t.id in seen || !GeometryValid(t) || |t.metricUuids| == 0 then
        assert TileFault(tiles, k).Some?;
        Some(k)
      else
        assert seen + {t.id} == IdsBefore(tiles, k + 1);
        FirstFaultFrom(tiles, k + 1, seen + {t.id})
  }

  // ----- The pair scan -----

  /** Pair (p, q) comes before pair (i, j) in the order of the nested loops. */
  predicate PairBefore(p: int, q: int, i: int, j: int) {
    p < i || (p == i && q < j)
  }

  /** The nested loops of `checkTileOverlaps` from pair (i, j) on: the first overlapping pair. */
  function FirstOverlapFrom(tiles: seq<Tile>, i: nat, j: nat): (r: Option<(nat, nat)>)
    requires i < j
    ensures r.None? <==>
      forall p, q :: 0 <= p < q < |tiles| && !PairBefore(p, q, i, j) ==> !Overlaps(tiles[p], tiles[q])
    ensures r.Some? ==>
      && r.value.0 < r.value.1 < |tiles|
      && !PairBefore(r.value.0, r.value.1, i, j)
      && Overlaps(tiles[r.value.0], tiles[r.value.1])
    ensures r.Some? ==>
      forall p, q :: 0 <= p < q < |tiles| && !PairBefore(p, q, i, j) && PairBefore(p, q, r.value.0, r.value.1)
        ==> !Overlaps(tiles[p], tiles[q])
    decreases |tiles| - i, |tiles| - j
  {
    if i >= |tiles| then None
    else if j >= |tiles| then
      assert forall p, q :: 0 <= p < q < |tiles| ==> (PairBefore(p, q, i, j) <==> PairBefore(p, q, i + 1, i + 2));
      FirstOverlapFrom(tiles, i + 1, i + 2)
    else if Overlaps(tiles[i], tiles[j]) then Some((i, j))
    else
      assert forall p, q :: 0 <= p < q < |tiles| ==>
        (PairBefore(p, q, i, j + 1) <==> PairBefore(p, q, i, j) || (p == i && q == j));
      FirstOverlapFrom(tiles, i, j + 1)
  }

  /** No two distinct tiles overlap. */
  predicate NoOverlaps(tiles: seq<Tile>) {
    forall p, q :: 0 <= p < q < |tiles| ==> !Overlaps(tiles[p], tiles[q])
  }

  /** `checkTileOverlaps`: the first overlapping pair in loop order, if any. */
  function FirstOverlap(tiles: seq<Tile>): (r: Option<(nat, nat)>)
    ensures r.None? <==> NoOverlaps(tiles)
    ensures r.Some? ==> r.value.0 < r.value.1 < |tiles| && Overlaps(tiles[r.value.0], tiles[r.value.1])
    ensures r.Some? ==>
      forall p, q :: 0 <= p < q < |tiles| && PairBefore(p, q, r.value.0, r.value.1) ==> !Overlaps(tiles[p], tiles[q])
  {
    FirstOverlapFrom(tiles, 0, 1)
  }

  // ----- The whole check -----

  predicate DistinctIds(tiles: seq<Tile>) {
    forall i, j :: 0 <= i < j < |tiles| ==> tiles[i].id != tiles[j].id
  }

  /** What an accepted tile list satisfies. */
  predicate LayoutValid(tiles: seq<Tile>) {
    && |tiles| > 0
    && DistinctIds(tiles)
    && (forall i :: 0 <= i < |tiles| ==> GeometryValid(tiles[i]))
    && (forall i :: 0 <= i < |tiles| ==> |tiles[i].metricUuids| > 0)
    && NoOverlaps(tiles)
  }

  /** No tile fails a per-tile check exactly when ids are distinct and every tile has
      valid geometry and a metric. */
  lemma NoFaultIffWellFormed(tiles: seq<Tile>)
    ensures (forall m :: 0 <= m < |tiles| ==> TileFault(tiles, m).None?) <==>
      && DistinctIds(tiles)
      && (forall i :: 0 <= i < |tiles| ==> GeometryValid(tiles[i]))
      && (forall i :: 0 <= i < |tiles| ==> |tiles[i].metricUuids| > 0)
  {
    if forall m :: 0 <= m < |tiles| ==> TileFault(tiles, m).None? {
      forall i, j | 0 <= i < j < |tiles|
        ensures tiles[i].id != tiles[j].id
      {
        assert TileFault(tiles, j).None?;
      }
      forall i | 0 <= i < |tiles|
        ensures GeometryValid(tiles[i]) && |tiles[i].metricUuids| > 0
      {
        assert TileFault(tiles, i).None?;
      }
    }
    if && DistinctIds(tiles)
       && (forall i :: 0 <= i < |tiles| ==> GeometryValid(tiles[i]))
       && (forall i :: 0 <= i < |tiles| ==> |tiles[i].metricUuids| > 0)
    {
      forall m | 0 <= m < |tiles|
        ensures TileFault(tiles, m).None?
      {
        assert !exists j :: 0 <= j < m && tiles[j].id == tiles[m].id;
      }
    }
  }

  /** `validateTiles`. */
  function ValidateTiles(tiles: seq<Tile>): (r: Outcome<ValidationError>)
    ensures r.Pass? <==> LayoutValid(tiles)
    ensures r == Fail(EmptyDashboard) <==> |tiles| == 0
  {
    NoFaultIffWellFormed(tiles);
    if |tiles| == 0 then Fail(EmptyDashboard)
    else
      match FirstFaultFrom(tiles, 0, {})
      case Some(k) => Fail(TileFault(tiles, k).value)
      case None =>
        match FirstOverlap(tiles)
        case Some((i, j)) => Fail(TileOverlap(tiles[i].id, tiles[j].id))
        case None => Pass
  }

  /** The first tile that fails a per-tile check determines the error, whatever follows it. */
  lemma ValidateTilesReportsFirstFault(tiles: seq<Tile>, k: nat)
    requires k < |tiles| && TileFault(tiles, k).Some?
    requires forall m :: 0 <= m < k ==> TileFault(tiles, m).None?
    ensures ValidateTiles(tiles) == Fail(TileFault(tiles, k).value)
  {
    var r := FirstFaultFrom(tiles, 0, {});
    assert r.Some?;
    assert r.value == k;
  }

  /** When every tile passes its own checks, the first overlapping pair in loop order
      is the one reported. */
  lemma ValidateTilesReportsFirstOverlap(tiles: seq<Tile>, i: nat, j: nat)
    requires forall m :: 0 <= m < |tiles| ==> TileFault(tiles, m).None?
    requires i < j < |tiles| && Overlaps(tiles[i], tiles[j])
    requires forall p, q :: 0 <= p < q < |tiles| && PairBefore(p, q, i, j) ==> !Overlaps(tiles[p], tiles[q])
    ensures ValidateTiles(tiles) == Fail(TileOverlap(tiles[i].id, tiles[j].id))
  {
    var r := FirstOverlap(tiles);
    assert r.Some?;
    var (p, q) := r.value;
    if PairBefore(p, q, i, j) {
      assert false;
    } else if PairBefore(i, j, p, q) {
      assert false;
    }
    assert (p, q) == (i, j);
  }
}
