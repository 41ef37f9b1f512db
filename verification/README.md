# Pratikoul back end: dashboards, KPIs and their guards, in Dafny

This project models the rule-bearing core of the Pratikoul NestJS back end. Pratikoul
stores dashboards of grid tiles, KPIs with dated or static targets, and metrics with
time-stamped values. It then serves them through paginated, ownership-guarded routes.
The model covers these parts:

- **Tile validation** (`TileValidation`). A layout must be non-empty. Each tile is checked
  in array order for a duplicate id, then bad geometry (x, y ≥ 0 and w, h > 0), then an
  empty metric list. Only after every tile passes does the all-pairs scan look for
  overlapping half-open rectangles. The model proves:
  - what an accepted layout satisfies;
  - which tile or pair a rejection names;
  - that the overlap test is symmetric, ignores shared edges, and equals "the two tiles
    share a grid cell".
- **The dashboard service** (`DashboardService`):
  - reference extraction: the de-duplicated union of tile references, in first-seen
    order, shown equal to the `Set`-insertion loop;
  - the ownership predicate and the list projection;
  - duplication;
  - create/update gating on tile validation.
- **The KPI service** (`KpiService`):
  - current-target resolution: a stable sort by date, then the next target on or after
    the date, else the latest one, else the first static one;
  - the two-threshold status classifier;
  - target validation;
  - the soft delete, which archives instead of removing.
- **Pagination** (`Pagination`). This is shared by the two list routes. It covers
  JavaScript `slice` semantics, `lastPage = max(1, ceil(total / limit))`, and the
  first/prev/next/last links, with an optional status parameter.
- **The use cases** (`DashboardUseCase`, `KpiUseCase`):
  - creation timestamps;
  - the status filter of the KPI list;
  - the rule that an update refreshes `updatedAt` only when it carries certain fields.
- **The dashboard routes** (`DashboardsController`):
  - the aggregated data route, with its inclusive, optional date window, which silently
    skips references the stores do not hold;
  - the NotFound-before-Forbidden guard of update and delete;
  - the owner assignment of create.
- **The user-profile routes** (`UsersController`): the admin-or-self check, and the rule
  that only an admin may send a role.

The file-backed repositories are modelled as pure operations on the stored JSON array
(`Repository`):
- lookup returns the first row with the uuid;
- save appends;
- update merges into the first match and silently does nothing for an unknown uuid;
- delete removes every match.

Metrics are looked up by uuid in a `map`. Dashboards and KPIs stay sequences, because
the services' list order, first-match lookup and all-match delete depend on the array.
The clock and uuid generation are parameters (`now`, `newUuid`, and one reading per clock call where the source reads it several times). The authenticated caller
is a parameter `Caller(userId, role)`.

Timestamps are integers (epoch milliseconds). A date the source would test for
truthiness is an `Option`, so an absent date and an empty string are both `None`.
Metric values and thresholds are `real`; tile coordinates are `int`.

## Model

| member | source | states |
|---|---|---|
| Repository.IndexOf | apps/back-end/src/dashboards/infrastructure/repositories/file-dashboard.repository.ts:52-53 | `findIndex`: absent exactly when no row has the uuid; otherwise the smallest index of a row that has it |
| Repository.FindById | apps/back-end/src/dashboards/infrastructure/repositories/file-dashboard.repository.ts:39-42 | absent exactly when no row has the uuid; otherwise the row at the first index with that uuid, as `find` returns it |
| Repository.Save | apps/back-end/src/dashboards/infrastructure/repositories/file-dashboard.repository.ts:44-48 | `push`: one row longer, every stored row still at its place, the new row last |
| Repository.SaveKeepsLookups | apps/back-end/src/dashboards/infrastructure/repositories/file-dashboard.repository.ts:44-48 | appending a row never changes what an existing uuid finds, and makes a new uuid find the appended row |
| Repository.Update | apps/back-end/src/dashboards/infrastructure/repositories/file-dashboard.repository.ts:50-56 | same length; only the first row with the uuid changes, to its merge with the patch; an unknown uuid changes nothing |
| Repository.UpdateKeepsIndex | apps/back-end/src/kpi/infrastructure/repositories/file-kpi.repository.ts:55-61 | a merge that keeps uuids leaves every lookup index of the store as it was |
| Repository.Delete | apps/back-end/src/dashboards/infrastructure/repositories/file-dashboard.repository.ts:58-62 | `filter`: afterwards no row has the uuid; every row with another uuid is kept and only such rows appear; the store shrinks exactly when the uuid was present and is unchanged when it was not |
| Repository.DeleteSplits | apps/back-end/src/dashboards/infrastructure/repositories/file-dashboard.repository.ts:58-62 | the filter works row by row: around any row the result is the filtered prefix, that row kept exactly when its uuid differs, then the filtered suffix, so kept rows appear once each and in store order |
| Entities.ApplyDashboardPatch | apps/back-end/src/dashboards/infrastructure/repositories/file-dashboard.repository.ts:54 | object spread: every field the patch carries, the timestamps included, replaces the stored one; omitted fields keep their value; an empty patch is the identity |
| Entities.ApplyKpiPatch | apps/back-end/src/kpi/infrastructure/repositories/file-kpi.repository.ts:59 | object spread on a KPI: carried fields, the timestamps included, replace the stored ones, and `null` thresholds clear them; omitted fields are kept; an empty patch is the identity |
| TileValidation.Overlaps | apps/back-end/src/dashboards/domain/services/dashboard.service.ts:153-157 | the strict half-open rectangle test on both axes (a predicate; its properties are the lemmas below) |
| TileValidation.OverlapsSymmetric | apps/back-end/src/dashboards/domain/services/dashboard.service.ts:153-157 | the overlap test does not depend on the order of the two tiles |
| TileValidation.EdgeSharingTilesDoNotOverlap | apps/back-end/src/dashboards/domain/services/dashboard.service.ts:153-157 | tiles that only touch along an edge do not overlap |
| TileValidation.OverlapsIffSharedCell | apps/back-end/src/dashboards/domain/services/dashboard.service.ts:153-157 | for tiles of positive size, the strict test holds exactly when some grid cell lies in both rectangles |
| TileValidation.TileFault | apps/back-end/src/dashboards/domain/services/dashboard.service.ts:121-135 | the checks on one tile in source order: an id seen earlier, then negative position or non-positive size, then no metric (a function; FirstFaultFrom and NoFaultIffWellFormed state its meaning) |
| TileValidation.FirstFaultFrom | apps/back-end/src/dashboards/domain/services/dashboard.service.ts:119-136 | the per-tile loop with its set of seen ids: finds the first tile, in array order, failing a check, and none when all pass |
| TileValidation.FirstOverlapFrom | apps/back-end/src/dashboards/domain/services/dashboard.service.ts:146-166 | the nested `i < j` loop: reports the first overlapping pair in loop order, and none exactly when no later pair overlaps |
| TileValidation.FirstOverlap | apps/back-end/src/dashboards/domain/services/dashboard.service.ts:146-166 | none exactly when no pair `i < j` overlaps; a reported pair overlaps and every pair scanned before it does not |
| TileValidation.NoFaultIffWellFormed | apps/back-end/src/dashboards/domain/services/dashboard.service.ts:120-136 | no tile fails a check exactly when ids are pairwise distinct and every tile has valid geometry and a metric |
| TileValidation.ValidateTiles | apps/back-end/src/dashboards/domain/services/dashboard.service.ts:114-141 | accepted exactly when the layout is non-empty, ids are distinct, every tile is well formed and no two tiles overlap; "empty" exactly for the empty list |
| TileValidation.ValidateTilesReportsFirstFault | apps/back-end/src/dashboards/domain/services/dashboard.service.ts:120-136 | the error reported is that of the first tile that fails, in array order |
| TileValidation.ValidateTilesReportsFirstOverlap | apps/back-end/src/dashboards/domain/services/dashboard.service.ts:138-140 | with every tile passing, the error names the first overlapping pair in `(i, j)` scan order |
| DashboardService.AllRefsMembership | apps/back-end/src/dashboards/domain/services/dashboard.service.ts:92-94 | a uuid is among the flattened references exactly when some tile lists it |
| DashboardService.CollectRefs | apps/back-end/src/dashboards/domain/services/dashboard.service.ts:101-108 | the `forEach` over tiles feeding each tile's uuids into the insertion-ordered set (a function; CollectRefsIsFirsts states its meaning) |
| DashboardService.CollectRefsIsFirsts | apps/back-end/src/dashboards/domain/services/dashboard.service.ts:91-95 | the `Set.add` loop over tiles and references yields the first occurrences of the flattened references, in order |
| DashboardService.ExtractMetricUuids | apps/back-end/src/dashboards/domain/services/dashboard.service.ts:90-96 | each referenced metric uuid exactly once, in first-seen order, and nothing else |
| DashboardService.ExtractKpiUuids | apps/back-end/src/dashboards/domain/services/dashboard.service.ts:101-109 | the same for KPI uuids; tiles without a KPI list contribute nothing |
| DashboardService.CanModify | apps/back-end/src/dashboards/domain/services/dashboard.service.ts:58-60 | the modify permission: the caller is an admin or the owner (a predicate; the list items, the guard and the controller lemmas are stated through it) |
| DashboardService.ListItems | apps/back-end/src/dashboards/domain/services/dashboard.service.ts:13-29 | one item per dashboard, in store order, with `tileCount` the number of tiles and `isOwner` exactly the modify permission |
| DashboardService.Duplicate | apps/back-end/src/dashboards/domain/services/dashboard.service.ts:34-53 | not found exactly for an unknown uuid; otherwise the copy is named prefix + " " + name, keeps description and tiles, belongs to the new owner, carries the two clock readings as `createdAt` and `updatedAt`, is appended, and the original is still found unchanged |
| DashboardService.Create | apps/back-end/src/dashboards/domain/services/dashboard.service.ts:70-74 | saved (appended) exactly when the tiles are valid; otherwise nothing is saved and the error is the one tile validation reports |
| DashboardService.Update | apps/back-end/src/dashboards/domain/services/dashboard.service.ts:76-81 | refused exactly when tiles are supplied and invalid, with the error tile validation reports; every row but the first with the uuid is unchanged; that row takes the supplied fields and keeps the rest |
| DashboardService.Delete | apps/back-end/src/dashboards/domain/services/dashboard.service.ts:83-85 | afterwards the uuid is not found; every dashboard with another uuid is kept and only such dashboards appear; the store shrinks when the uuid was present and is unchanged otherwise; order and multiplicity are stated by `DashboardService.DeleteSplits` |
| DashboardService.DeleteSplits | apps/back-end/src/dashboards/domain/services/dashboard.service.ts:83-85 | around any one row, deleting a uuid leaves what survives before it, the row itself unless it carries the uuid, and what survives after it, so the kept dashboards stay in store order with their multiplicity |
| KpiService.DatedTargets | apps/back-end/src/kpi/domain/services/kpi.service.ts:62 | the dated targets: empty exactly when no target has a date, each one stemming from a dated target, and every dated target present |
| KpiService.DatedTargetsConcat | apps/back-end/src/kpi/domain/services/kpi.service.ts:62 | the filter distributes over concatenation, so dated targets keep their original relative order |
| KpiService.InsertByDate | apps/back-end/src/kpi/domain/services/kpi.service.ts:65-67 | one insertion step of the stable sort: one element longer; InsertByDatePermutes and InsertPreservesSorted give its permutation and order facts |
| KpiService.SortByDate | apps/back-end/src/kpi/domain/services/kpi.service.ts:65-67 | the stable sort by date, as insertion before the first element dated on or after; it keeps the length, and the two lemmas below give permutation and order |
| KpiService.SortByDatePermutes | apps/back-end/src/kpi/domain/services/kpi.service.ts:65-67 | the sort is a permutation of the dated targets |
| KpiService.SortByDateSorted | apps/back-end/src/kpi/domain/services/kpi.service.ts:65-67 | the sort orders by date |
| KpiService.FirstOnOrAfter | apps/back-end/src/kpi/domain/services/kpi.service.ts:70-72 | `find` for the first milestone dated on or after the current date (a function; SortedFindIsNext states what it picks after the sort) |
| KpiService.SortedFindIsNext | apps/back-end/src/kpi/domain/services/kpi.service.ts:65-72 | `find` after the stable sort is absent exactly when every date is before `now`; otherwise it is the earliest date on or after `now`, ties going to the earliest in input order |
| KpiService.SortedLastIsLatest | apps/back-end/src/kpi/domain/services/kpi.service.ts:77 | the last element after sorting carries the latest date, ties going to the latest in input order |
| KpiService.CurrentTarget | apps/back-end/src/kpi/domain/services/kpi.service.ts:58-82 | undefined exactly for no targets; with no dated target, the first target's value |
| KpiService.CurrentTargetPicksNext | apps/back-end/src/kpi/domain/services/kpi.service.ts:69-74 | the value of the next dated target on or after the date, if there is one |
| KpiService.CurrentTargetPicksLatest | apps/back-end/src/kpi/domain/services/kpi.service.ts:76-77 | with every dated target in the past, the value of the latest one |
| KpiService.CurrentTargetIsDated | apps/back-end/src/kpi/domain/services/kpi.service.ts:62-78 | once any target is dated, the result is the value of some dated target, never of an undated one |
| KpiService.SortKeepsIncreasing | apps/back-end/src/kpi/domain/services/kpi.service.ts:65-67 | targets already in strictly increasing date order are left where they are by the sort |
| KpiService.EvaluateStatus | apps/back-end/src/kpi/domain/services/kpi.service.ts:87-108 | on track without thresholds; critical exactly when the critical bound is set (a number, or `null` compared as 0) and the value is below it; warning exactly when not critical and the warning bound is breached; never archived |
| KpiService.NullBoundIsZero | apps/back-end/src/kpi/domain/services/kpi.service.ts:93-105 | a `null` bound counts as set and classifies exactly like a bound of 0, so a negative value is critical under a `null` critical bound |
| KpiService.StatusMonotone | apps/back-end/src/kpi/domain/services/kpi.service.ts:93-107 | a higher metric value never gives a more severe status |
| KpiService.ChronologicalFrom | apps/back-end/src/kpi/domain/services/kpi.service.ts:120-129 | the adjacent-pairs loop of the order check, from position i on (its meaning is the lemma below) |
| KpiService.ChronologicalFromIff | apps/back-end/src/kpi/domain/services/kpi.service.ts:120-129 | the adjacent-pairs loop accepts exactly the sequences whose dates strictly increase |
| KpiService.ValidateTargets | apps/back-end/src/kpi/domain/services/kpi.service.ts:113-130 | accepted exactly when there is a target and the dated ones, in input order, strictly increase; empty gives its own error; any other refusal is "out of order" |
| KpiService.Create | apps/back-end/src/kpi/domain/services/kpi.service.ts:37-41 | appended exactly when its targets are valid, otherwise the validation error |
| KpiService.Update | apps/back-end/src/kpi/domain/services/kpi.service.ts:43-48 | refused exactly when targets are supplied and invalid, with the error target validation reports; every row but the first with the uuid is unchanged; that row takes the supplied fields |
| KpiService.Delete | apps/back-end/src/kpi/domain/services/kpi.service.ts:50-53 | soft delete: the length is kept; the first row with the uuid is archived and every other row, later ones with the same uuid included, is unchanged; an unknown uuid changes nothing |
| KpiService.ListItems | apps/back-end/src/kpi/domain/services/kpi.service.ts:13-27 | one item per KPI in store order, with its fields and its current target resolved at the clock reading taken for that KPI |
| Pagination.CeilDiv | apps/back-end/src/dashboards/application/use-cases/dashboard.use-case.ts:43 | `Math.ceil(total / limit)` on integers: for a positive limit, the least page count whose pages hold `total` items |
| Pagination.LastPage | apps/back-end/src/dashboards/application/use-cases/dashboard.use-case.ts:43 | at least 1, and exactly 1 for a negative limit; for a positive limit, the pages up to it hold every item and the page before it does not |
| Pagination.StatusParam | apps/back-end/src/kpi/application/use-cases/kpi.use-case.ts:50 | the status appears in a link exactly when it is truthy |
| Pagination.Window | apps/back-end/src/dashboards/application/use-cases/dashboard.use-case.ts:38-40 | at most `limit` items, exactly the elements from `start` on, cut at the end of the list |
| Pagination.Paginate | apps/back-end/src/dashboards/application/use-cases/dashboard.use-case.ts:37-60 | items are `all[(page-1)*limit ..]`, at most `limit` of them, empty past the end; total is the list length; first is page 1, last is `lastPage`; prev exactly when `page > 1`, next exactly when `page < lastPage` |
| Pagination.NextIffMoreItems | apps/back-end/src/dashboards/application/use-cases/dashboard.use-case.ts:43-58 | the next link is offered exactly when items remain after this page |
| Pagination.EveryItemOnItsPage | apps/back-end/src/dashboards/application/use-cases/dashboard.use-case.ts:37-43 | each item appears on page `i / limit + 1`, and that page is within `1 .. lastPage` |
| DashboardUseCase.ListItemsPaginated | apps/back-end/src/dashboards/application/use-cases/dashboard.use-case.ts:30-61 | total is the store size; for positive page and limit the page holds `min(limit, total - start)` items, none when the start is past the end; first, last, prev and next links never carry a status |
| DashboardUseCase.ListPageItem | apps/back-end/src/dashboards/application/use-cases/dashboard.use-case.ts:36-40 | whenever `(page-1)*limit + i` is a stored position and `i < limit`, the page has an item `i`; it is the store-wide list item of that dashboard: its uuid, name, description, owner, tile count and `updatedAt`, flagged as owned exactly when the dashboard may be modified |
| DashboardUseCase.Create | apps/back-end/src/dashboards/application/use-cases/dashboard.use-case.ts:67-80 | the new dashboard takes name, description, owner and tiles from the body, has `createdAt == updatedAt == now`, and is saved exactly when its tiles are valid, otherwise failing with the tile validation error |
| DashboardUseCase.Duplicate | apps/back-end/src/dashboards/application/use-cases/dashboard.use-case.ts:82-84 | not found exactly for an unknown uuid; the copy is named "Copy of " + the original's name, belongs to the new owner and carries the two clock readings |
| DashboardUseCase.Touches | apps/back-end/src/dashboards/application/use-cases/dashboard.use-case.ts:88 | the truthiness condition for refreshing `updatedAt`: a non-empty name or description, or any tile list |
| DashboardUseCase.PatchFor | apps/back-end/src/dashboards/application/use-cases/dashboard.use-case.ts:86-90 | the body passes through unchanged, timestamps included; `updatedAt` is `now` when name or description is non-empty or tiles are supplied, and otherwise whatever the body carried |
| DashboardUseCase.Update | apps/back-end/src/dashboards/application/use-cases/dashboard.use-case.ts:86-92 | refused with the tile validation error exactly when supplied tiles are invalid; the first row with the uuid becomes the stored row merged with the patch the body yields, so supplied fields pass through; its `updatedAt` becomes `now` under that rule, otherwise the body's if any, otherwise kept; `createdAt` is kept unless the body carries one; every other row is unchanged |
| DashboardUseCase.Delete | apps/back-end/src/dashboards/application/use-cases/dashboard.use-case.ts:94-96 | the uuid is gone; every dashboard with another uuid is kept and only such dashboards appear; the store shrinks exactly when the uuid was present and is unchanged otherwise |
| KpiUseCase.FilterByStatus | apps/back-end/src/kpi/application/use-cases/kpi.use-case.ts:35-38 | with a truthy status, exactly the items with that status; otherwise every item |
| KpiUseCase.FilterByStatusKeepsOrder | apps/back-end/src/kpi/application/use-cases/kpi.use-case.ts:36-38 | the filter distributes over concatenation, so relative order is kept |
| KpiUseCase.ListItemsPaginated | apps/back-end/src/kpi/application/use-cases/kpi.use-case.ts:28-67 | total counts the filtered items; every item has the requested status; for positive page and limit the page holds `min(limit, total - start)` items; every link repeats the status exactly when it is truthy; prev/next as for every paginated list |
| KpiUseCase.PageItem | apps/back-end/src/kpi/application/use-cases/kpi.use-case.ts:40-43 | item `i` of a page is item `(page-1)*limit + i` of the status-filtered list whenever that position exists: the same slice window as the dashboard list |
| KpiUseCase.Create | apps/back-end/src/kpi/application/use-cases/kpi.use-case.ts:90-104 | the new KPI copies the body's fields, including targets and thresholds, has `createdAt == updatedAt == now`, and is appended exactly when its targets are valid, otherwise failing with the target validation error |
| KpiUseCase.Touches | apps/back-end/src/kpi/application/use-cases/kpi.use-case.ts:108 | the condition for refreshing `updatedAt`: a non-empty name or description, any targets, or a thresholds object; `null` thresholds do not count |
| KpiUseCase.PatchFor | apps/back-end/src/kpi/application/use-cases/kpi.use-case.ts:106-110 | the body passes through, timestamps included; `updatedAt` is `now` when name or description is non-empty or targets or thresholds are supplied, and otherwise whatever the body carried |
| KpiUseCase.Update | apps/back-end/src/kpi/application/use-cases/kpi.use-case.ts:106-112 | refused with the target validation error exactly when supplied targets are invalid; the first KPI with the uuid becomes the stored KPI merged with the patch the body yields, so name, description, metric uuid, status and thresholds pass through; `updatedAt` becomes `now` under that rule, otherwise the body's if any; `createdAt` is kept unless the body carries one; every other row is unchanged |
| KpiUseCase.Delete | apps/back-end/src/kpi/application/use-cases/kpi.use-case.ts:114-116 | the length is kept; the first KPI with the uuid is archived and found archived afterwards; every other row is unchanged; an unknown uuid changes nothing |
| DashboardsController.GetAll | apps/back-end/src/dashboards/dashboards.controller.ts:23-38 | the list page of the whole store with the admin flag taken from the caller's role: the total, at most `limit` items and exactly `min(limit, total - start)` of them for a positive page, a previous link iff the page is past the first, a next link iff it is before the last, the last page at least 1, and no status on any link |
| DashboardsController.GetAllFlagsOwnership | apps/back-end/src/dashboards/dashboards.controller.ts:36-37 | whenever `(page-1)*limit + i` is a stored position and `i < limit`, the page has an item `i` carrying that dashboard's uuid, name, description, owner, tile count and `updatedAt`, marked as the caller's exactly when the caller is an admin or owns that dashboard |
| DashboardsController.GetById | apps/back-end/src/dashboards/dashboards.controller.ts:40-47 | not found exactly when no dashboard has the id; otherwise the dashboard at the first index with that id |
| DashboardsController.InWindow | apps/back-end/src/dashboards/dashboards.controller.ts:76-80 | the per-value window test: at or after a given start and at or before a given end, an absent bound imposing nothing |
| DashboardsController.FilterValues | apps/back-end/src/dashboards/dashboards.controller.ts:72-82 | keeps exactly the values inside the window, both bounds inclusive and each optional; with no bound, every value unchanged |
| DashboardsController.FilterValuesKeepsOrder | apps/back-end/src/dashboards/dashboards.controller.ts:74-81 | the filter distributes over concatenation, so values keep their order |
| DashboardsController.FilterValuesMonotone | apps/back-end/src/dashboards/dashboards.controller.ts:76-79 | widening the window never drops a value |
| DashboardsController.MetricDataOf | apps/back-end/src/dashboards/dashboards.controller.ts:84-91 | the metric entry literal: uuid, name, description, unit and value type copied, values cut to the window (a function; MetricEntryIsWindowed states its meaning) |
| DashboardsController.KpiDataOf | apps/back-end/src/dashboards/dashboards.controller.ts:100-108 | the KPI entry literal: uuid, name, description, metric uuid, targets, thresholds and status copied (a function; KpisOf states that entries are these) |
| DashboardsController.CollectMetrics | apps/back-end/src/dashboards/dashboards.controller.ts:69-93 | the metrics loop: an entry exactly for each listed uuid the store holds, with that metric's filtered data |
| DashboardsController.CollectKpis | apps/back-end/src/dashboards/dashboards.controller.ts:95-110 | the KPI loop: an entry exactly for each listed uuid the store finds, with that KPI's data |
| DashboardsController.MetricsOf | apps/back-end/src/dashboards/dashboards.controller.ts:66-93 | keys are exactly the uuids some tile references that the metric store holds; each entry is built from that stored metric |
| DashboardsController.MetricEntryIsWindowed | apps/back-end/src/dashboards/dashboards.controller.ts:84-91 | a stored metric that some tile references always gets an entry; it copies uuid, name, description, unit and value type, and holds exactly the metric's values inside the window |
| DashboardsController.KpisOf | apps/back-end/src/dashboards/dashboards.controller.ts:67-110 | keys are exactly the KPI uuids some tile references that the KPI store finds; each entry copies that KPI's uuid, name, description, metric uuid, targets, thresholds and status |
| DashboardsController.GetDashboardData | apps/back-end/src/dashboards/dashboards.controller.ts:53-128 | not found exactly for an unknown id; otherwise the summary copies uuid, name, description and tiles, the metric and KPI parts are those of the found dashboard, and the window is echoed |
| DashboardsController.CreateDashboard | apps/back-end/src/dashboards/dashboards.controller.ts:130-137 | the caller owns the new dashboard whatever the body says; saved exactly when the tiles are valid |
| DashboardsController.DuplicateDashboard | apps/back-end/src/dashboards/dashboards.controller.ts:139-144 | any caller may copy any existing dashboard and owns the copy; an unknown id is not found |
| DashboardsController.Guard | apps/back-end/src/dashboards/dashboards.controller.ts:147-156 | passes exactly when the dashboard exists and the caller is an admin or its owner; not found exactly when it does not exist, so that check comes first |
| DashboardsController.UpdateDashboard | apps/back-end/src/dashboards/dashboards.controller.ts:146-161 | a failed guard is answered with its error and leaves the store alone; after the guard, failure only with the tile validation error; on success the first row with the id is merged with the patch the body yields and every other row is unchanged |
| DashboardsController.DeleteDashboard | apps/back-end/src/dashboards/dashboards.controller.ts:163-178 | a failed guard is answered with its error; on success the uuid is gone, every dashboard with another uuid is kept and only such dashboards appear, and the store is smaller |
| DashboardsController.DeleteDashboardSplits | apps/back-end/src/dashboards/dashboards.controller.ts:163-178 | a delete that passes the guard succeeds, and around any one row it leaves what survives before it, the row unless it carries the id, and what survives after it: store order and multiplicity are kept |
| DashboardsController.ViewerCannotTouchOthers | apps/back-end/src/dashboards/dashboards.controller.ts:146-178 | a viewer who does not own an existing dashboard is refused with Forbidden by both update and delete, whatever the body holds |
| UsersController.FindOne | apps/back-end/src/users/users.controller.ts:21-28 | forbidden exactly when the caller is not an admin and asks for another user; otherwise the lookup goes ahead |
| UsersController.Update | apps/back-end/src/users/users.controller.ts:42-55 | "not own profile" exactly when a non-admin targets another user; "role change" exactly when a non-admin targets themselves with a role; the service is called exactly when an admin asks, or a user updates themselves without a role |
| UsersController.ViewerUpdateRule | apps/back-end/src/users/users.controller.ts:44-52 | a viewer's update passes exactly for their own profile without a role, and another's profile is refused for that reason whatever the body holds |
| UsersController.AdminsAreNeverDenied | apps/back-end/src/users/users.controller.ts:24-52 | an admin passes both routes for every profile and body |
| Seqs.InsertAll | apps/back-end/src/dashboards/domain/services/dashboard.service.ts:91-95 | the `Set.add` loop: an element already present keeps its place, a new one is appended (a function; InsertAllFirsts states its meaning) |
| Seqs.InsertAllFirsts | apps/back-end/src/dashboards/domain/services/dashboard.service.ts:91-95 | inserting elements one by one into a set-ordered sequence gives the first occurrences of the concatenation |
| Seqs.Filter | apps/back-end/src/dashboards/infrastructure/repositories/file-dashboard.repository.ts:60 | `Array.filter`: no longer than its input; exactly the passing elements appear; shorter unless every element passes |
| Seqs.FilterConcat | apps/back-end/src/kpi/application/use-cases/kpi.use-case.ts:37 | `Array.filter` distributes over concatenation |
| Seqs.FilterAround | apps/back-end/src/dashboards/infrastructure/repositories/file-dashboard.repository.ts:60 | around any element the filter is the filtered prefix, that element exactly when it passes, then the filtered suffix |
| Seqs.JsSlice | apps/back-end/src/dashboards/application/use-cases/dashboard.use-case.ts:40 | `Array.slice` for non-negative bounds: the elements from `start` up to `end` cut to the length, in order, and nothing when `end` is not past `start` |

## Left out

- File I/O of the repositories, and the JSON (de)serialisation, including the deep clone
  of tiles in `duplicate`. Stores are values that operations take and return.
- The user store, password hashing, JWT issuing and checking, and the `Roles` guard are
  foreign calls. User routes are modelled only up to the user-service call they make.
- Uuid generation and the clock are parameters. Each clock reading of the source is its
  own parameter: `duplicate` takes two, and the KPI list takes one per KPI as a function
  of the KPI's position.
- An update body is not validated, so any field it carries is spread into the stored
  row. The model carries the entity's own fields, timestamps included; fields that the
  entities do not have are not modelled.
- `null` values: threshold bounds may be `null` (compared as 0), and a KPI update body
  may set `thresholds` to `null`, which clears them. A body that sets any other field to
  `null` is not modelled. A stored KPI's `thresholds` is `None` whether the field is
  absent or `null`, because the core treats both as falsy; only the echoed JSON differs.
- ISO-8601 parsing is left out. Dates are integers. A date string that is absent or
  empty is `None`. An unparsable date, which JavaScript turns into `NaN` so that every
  comparison with it is false, is not modelled.
- Floating-point numbers are left out. Metric values and thresholds are exact reals, and
  tile coordinates are integers, so the `NaN` and rounding behaviour of JavaScript
  numbers is not modelled.
- The controllers' `Number(x) || d` parsing of page and limit is left out. It never
  yields 0, so page and limit are any non-zero integers. Fractional page numbers are not
  modelled.
- Hypermedia links are page numbers with an optional status, not URL strings. The
  per-item `_links` of list items are dropped.
- The `getById` routes of the KPI controller, `getByMetricUuid`, the metric module and the
  user create/delete/list routes are left out. They pass calls through without rules.
- The string forms of `KpiStatus`, `UserRole` and `MetricValueType` are left out. The
  files that define them are not part of this model. `KpiStatus` uses its usual names
  (`on-track`, `warning`, `critical`, `archived`), and the status filter compares against
  those names.
- The HTTP status of a validation failure is left out. It is a plain `Error` in the
  source, so it surfaces as a server error, and it is modelled as `Invalid(reason)`.
- DashboardService.Update: a supplied `uuid` in the body renames the row, as the object
  spread does. Its contract is therefore stated per row index, and it does not promise
  that the row is found again under the old uuid.
- DashboardsController.GetDashboardData: the echoed window is the pair of parsed bounds.
  It is not the raw query strings.
- KpiService.EvaluateStatus: the source returns a string literal. The model returns the
  matching `KpiStatus` value, which is never `Archived`.
- Metric stores are a `map`, so they hold at most one metric per uuid. A JSON file with
  two metrics sharing a uuid, where the source would return the first, is not modelled.
