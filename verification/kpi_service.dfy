/** The KPI domain service (kpi.service.ts): resolution of the current target, status
    evaluation against thresholds, target validation, soft deletion and the validation
    gate in front of the repository. */
module KpiService {
  import opened Wrappers
  import opened Entities
  import Seqs
  import Repository

  function KpiKey(k: Kpi): string {
    k.uuid
  }

  /** `repository.findById`. */
  function FindKpi(kpis: seq<Kpi>, uuid: Uuid): Option<Kpi> {
    Repository.FindById(kpis, KpiKey, uuid)
  }

  // ----- Dated targets -----

  /** A target that carries a date, with that date. */
  datatype Milestone = Milestone(value: real, date: Timestamp)

  /** `targets.filter((t) => t.date)`, in original relative order. */
  function DatedTargets(targets: seq<Target>): (r: seq<Milestone>)
    ensures |r| <= |targets|
    ensures |r| == 0 <==> forall i :: 0 <= i < |targets| ==> targets[i].date.None?
    ensures forall m :: m in r ==>
      exists i :: 0 <= i < |targets| && targets[i].date == Some(m.date) && targets[i].value == m.value
    ensures forall i :: 0 <= i < |targets| && targets[i].date.Some? ==>
      Milestone(targets[i].value, targets[i].date.value) in r
  {
    if |targets| == 0 then []
    else
      var t, rest := targets[0], DatedTargets(targets[1..]);
      var r := (if t.date.Some? then [Milestone(t.value, t.date.value)] else []) + rest;
      forall m | m in rest
        ensures exists i :: 0 <= i < |targets| && targets[i].date == Some(m.date) && targets[i].value == m.value
      {
        var i :| 0 <= i < |targets[1..]| && targets[1..][i].date == Some(m.date) && targets[1..][i].value == m.value;
        assert targets[i + 1] == targets[1..][i];
      }
      assert forall i :: 1 <= i < |targets| ==> targets[i] == targets[1..][i - 1];
      r
  }

  /** Dated targets keep their relative order: the filter distributes over concatenation. */
  lemma {:induction false} DatedTargetsConcat(a: seq<Target>, b: seq<Target>)
    ensures DatedTargets(a + b) == DatedTargets(a) + DatedTargets(b)
  {
    if |a| == 0 {
      assert a + b == b;
    } else {
      assert (a + b)[1..] == a[1..] + b;
      DatedTargetsConcat(a[1..], b);
    }
  }

  predicate SortedByDate(s: seq<Milestone>) {
    forall i, j :: 0 <= i < j < |s| ==> s[i].date <= s[j].date
  }

  /** Inserts `m` just before the first element dated on or after it. */
  function InsertByDate(m: Milestone, s: seq<Milestone>): (r: seq<Milestone>)
    ensures |r| == |s| + 1
  {
    if |s| == 0 || m.date <= s[0].date then [m] + s
    else [s[0]] + InsertByDate(m, s[1..])
  }

  /** Insertion adds exactly `m`. */
  lemma {:induction false} InsertByDatePermutes(m: Milestone, s: seq<Milestone>)
    ensures multiset(InsertByDate(m, s)) == multiset(s) + multiset{m}
  {
    if |s| > 0 && m.date > s[0].date {
      InsertByDatePermutes(m, s[1..]);
      assert s == [s[0]] + s[1..];
    }
  }

  /** A lower bound on every date survives insertion of a milestone that respects it. */
  lemma {:induction false} InsertKeepsLowerBound(m: Milestone, s: seq<Milestone>, b: Timestamp)
    requires b <= m.date
    requires forall j :: 0 <= j < |s| ==> b <= s[j].date
    ensures forall j :: 0 <= j < |InsertByDate(m, s)| ==> b <= InsertByDate(m, s)[j].date
  {
    if |s| > 0 && m.date > s[0].date {
      InsertKeepsLowerBound(m, s[1..], b);
      var r := InsertByDate(m, s[1..]);
      assert InsertByDate(m, s) == [s[0]] + r;
    }
  }

  /** A milestone no later than every element of a sorted sequence can head it. */
  lemma ConsSorted(x: Milestone, s: seq<Milestone>)
    requires SortedByDate(s)
    requires forall j :: 0 <= j < |s| ==> x.date <= s[j].date
    ensures SortedByDate([x] + s)
  {
    var r := [x] + s;
    forall i, j | 0 <= i < j < |r|
      ensures r[i].date <= r[j].date
    {
      assert r[j] == s[j - 1];
      if i > 0 {
        assert r[i] == s[i - 1];
      }
    }
  }

  lemma {:induction false} InsertPreservesSorted(m: Milestone, s: seq<Milestone>)
    requires SortedByDate(s)
    ensures SortedByDate(InsertByDate(m, s))
  {
    if |s| > 0 && m.date > s[0].date {
      var tail := s[1..];
      assert SortedByDate(tail) by {
        forall i, j | 0 <= i < j < |tail|
          ensures tail[i].date <= tail[j].date
        {
          assert tail[i] == s[i + 1] && tail[j] == s[j + 1];
        }
      }
      InsertPreservesSorted(m, tail);
      assert forall j :: 0 <= j < |tail| ==> s[0].date <= tail[j].date by {
        forall j | 0 <= j < |tail|
          ensures s[0].date <= tail[j].date
        {
          assert tail[j] == s[j + 1];
        }
      }
      InsertKeepsLowerBound(m, tail, s[0].date);
      ConsSorted(s[0], InsertByDate(m, tail));
    } else if |s| > 0 {
      ConsSorted(m, s);
    }
  }

  /** `[...dated].sort((a, b) => a.date - b.date)`. The engine's sort is stable, so its
      result is the unique stable order, which this insertion sort also produces: an
      element is inserted ahead of every later element with an equal date. */
  function SortByDate(s: seq<Milestone>): (r: seq<Milestone>)
    ensures |r| == |s|
  {
    if |s| == 0 then [] else InsertByDate(s[0], SortByDate(s[1..]))
  }

  /** The sort is a permutation of its input. */
  lemma {:induction false} SortByDatePermutes(s: seq<Milestone>)
    ensures multiset(SortByDate(s)) == multiset(s)
  {
    if |s| > 0 {
      SortByDatePermutes(s[1..]);
      InsertByDatePermutes(s[0], SortByDate(s[1..]));
      assert s == [s[0]] + s[1..];
    }
  }

  /** The sort orders by date. */
  lemma {:induction false} SortByDateSorted(s: seq<Milestone>)
    ensures SortedByDate(SortByDate(s))
  {
    if |s| > 0 {
      SortByDateSorted(s[1..]);
      InsertPreservesSorted(s[0], SortByDate(s[1..]));
    }
  }

  /** `sorted.find((t) => t.date >= now)`. */
  function FirstOnOrAfter(s: seq<Milestone>, now: Timestamp): Option<Milestone> {
    if |s| == 0 then None
    else if s[0].date >= now then Some(s[0])
    else FirstOnOrAfter(s[1..], now)
  }

  /** Position k holds the next milestone: dated on or after `now`, no other such
      milestone is dated earlier, and among equal dates it comes first. */
  predicate IsNext(ms: seq<Milestone>, now: Timestamp, k: int) {
    && 0 <= k < |ms|
    && ms[k].date >= now
    && forall j :: 0 <= j < |ms| && ms[j].date >= now ==>
         ms[k].date < ms[j].date || (ms[k].date == ms[j].date && k <= j)
  }

  /** Position k holds the latest milestone, the last one among equal latest dates. */
  predicate IsLatest(ms: seq<Milestone>, k: int) {
    && 0 <= k < |ms|
    && forall j :: 0 <= j < |ms| ==> ms[j].date < ms[k].date || (ms[j].date == ms[k].date && j <= k)
  }

  lemma {:induction false} FirstAfterInsert(m: Milestone, s: seq<Milestone>, now: Timestamp)
    ensures FirstOnOrAfter(InsertByDate(m, s), now) ==
      (var f := FirstOnOrAfter(s, now);
       if m.date >= now && (f.None? || m.date <= f.value.date) then Some(m) else f)
  {
    if |s| > 0 && m.date > s[0].date {
      FirstAfterInsert(m, s[1..], now);
    } else if |s| > 0 && s[0].date < now {
      assert FirstOnOrAfter(s, now) == FirstOnOrAfter(s[1..], now);
      FirstFindsQualifying(s[1..], now);
    }
  }

  /** What `find` returns is dated on or after `now` and drawn from the sequence. */
  lemma {:induction false} FirstFindsQualifying(s: seq<Milestone>, now: Timestamp)
    ensures FirstOnOrAfter(s, now).Some? ==> FirstOnOrAfter(s, now).value.date >= now
    ensures FirstOnOrAfter(s, now).Some? ==> FirstOnOrAfter(s, now).value in s
    ensures FirstOnOrAfter(s, now).None? <==> forall j :: 0 <= j < |s| ==> s[j].date < now
  {
    if |s| > 0 {
      FirstFindsQualifying(s[1..], now);
      assert forall j :: 1 <= j < |s| ==> s[j] == s[1..][j - 1];
    }
  }

  /** A head dated on or after `now` and no later than any qualifying milestone behind
      it is the next milestone. */
  lemma NextIsHead(x: Milestone, rest: seq<Milestone>, now: Timestamp)
    requires x.date >= now
    requires forall j :: 0 <= j < |rest| && rest[j].date >= now ==> x.date <= rest[j].date
    ensures IsNext([x] + rest, now, 0)
  {
    var ms := [x] + rest;
    forall j | 0 <= j < |ms| && ms[j].date >= now
      ensures x.date < ms[j].date || (x.date == ms[j].date && 0 <= j)
    {
      if j > 0 {
        assert ms[j] == rest[j - 1];
      }
    }
  }

  /** The next milestone behind a head that does not beat it stays the next one. */
  lemma NextBehindHead(x: Milestone, rest: seq<Milestone>, now: Timestamp, k: nat)
    requires IsNext(rest, now, k)
    requires !(x.date >= now && x.date <= rest[k].date)
    ensures IsNext([x] + rest, now, k + 1)
  {
    var ms := [x] + rest;
    forall j | 0 <= j < |ms| && ms[j].date >= now
      ensures ms[k + 1].date < ms[j].date || (ms[k + 1].date == ms[j].date && k + 1 <= j)
    {
      if j > 0 {
        assert ms[j] == rest[j - 1];
      }
    }
  }

  /** After sorting, `find` comes back empty exactly when every milestone is in the past. */
  lemma SortedFindNone(ms: seq<Milestone>, now: Timestamp)
    ensures FirstOnOrAfter(SortByDate(ms), now).None? <==> forall j :: 0 <= j < |ms| ==> ms[j].date < now
  {
    var sorted := SortByDate(ms);
    FirstFindsQualifying(sorted, now);
    SortByDatePermutes(ms);
    if forall j :: 0 <= j < |ms| ==> ms[j].date < now {
      forall i | 0 <= i < |sorted|
        ensures sorted[i].date < now
      {
        assert sorted[i] in multiset(ms);
      }
    } else {
      var j :| 0 <= j < |ms| && ms[j].date >= now;
      assert ms[j] in multiset(sorted);
    }
  }

  /** When `find` succeeds after sorting, it returns the next milestone. */
  lemma {:induction false} SortedFindSome(ms: seq<Milestone>, now: Timestamp)
    requires FirstOnOrAfter(SortByDate(ms), now).Some?
    ensures exists k :: IsNext(ms, now, k) && ms[k] == FirstOnOrAfter(SortByDate(ms), now).value
  {
    var x, rest := ms[0], ms[1..];
    assert ms == [x] + rest;
    var sortedRest := SortByDate(rest);
    assert SortByDate(ms) == InsertByDate(x, sortedRest);
    FirstAfterInsert(x, sortedRest, now);
    var f := FirstOnOrAfter(sortedRest, now);
    if f.Some? {
      SortedFindSome(rest, now);
      var k :| IsNext(rest, now, k) && rest[k] == f.value;
      if x.date >= now && x.date <= f.value.date {
        NextIsHead(x, rest, now);
      } else {
        NextBehindHead(x, rest, now, k);
      }
    } else {
      SortedFindNone(rest, now);
      NextIsHead(x, rest, now);
    }
  }

  /** Sorting and then taking the first milestone on or after `now` picks the next
      milestone, and finds none exactly when every milestone is in the past. */
  lemma SortedFindIsNext(ms: seq<Milestone>, now: Timestamp)
    ensures FirstOnOrAfter(SortByDate(ms), now).None? <==> forall j :: 0 <= j < |ms| ==> ms[j].date < now
    ensures FirstOnOrAfter(SortByDate(ms), now).Some? ==>
      exists k :: IsNext(ms, now, k) && ms[k] == FirstOnOrAfter(SortByDate(ms), now).value
  {
    SortedFindNone(ms, now);
    if FirstOnOrAfter(SortByDate(ms), now).Some? {
      SortedFindSome(ms, now);
    }
  }

  function Last(s: seq<Milestone>): Milestone
    requires |s| > 0
  {
    s[|s| - 1]
  }

  lemma {:induction false} LastAfterInsert(m: Milestone, s: seq<Milestone>)
    requires |s| > 0 && SortedByDate(s)
    ensures Last(InsertByDate(m, s)) == if m.date <= Last(s).date then Last(s) else m
  {
    if m.date > s[0].date && |s| > 1 {
      LastAfterInsert(m, s[1..]);
    }
  }

  /** A head dated after everything behind it is the latest milestone. */
  lemma LatestIsHead(x: Milestone, rest: seq<Milestone>)
    requires forall j :: 0 <= j < |rest| ==> rest[j].date < x.date
    ensures IsLatest([x] + rest, 0)
  {
    var ms := [x] + rest;
    forall j | 0 <= j < |ms|
      ensures ms[j].date < x.date || (ms[j].date == x.date && j <= 0)
    {
      if j > 0 {
        assert ms[j] == rest[j - 1];
      }
    }
  }

  /** The latest milestone behind a head dated no later than it stays the latest one. */
  lemma LatestBehindHead(x: Milestone, rest: seq<Milestone>, k: nat)
    requires IsLatest(rest, k) && x.date <= rest[k].date
    ensures IsLatest([x] + rest, k + 1)
  {
    var ms := [x] + rest;
    forall j | 0 <= j < |ms|
      ensures ms[j].date < ms[k + 1].date || (ms[j].date == ms[k + 1].date && j <= k + 1)
    {
      if j > 0 {
        assert ms[j] == rest[j - 1];
      }
    }
  }

  /** The last milestone of the sorted order is the latest one. */
  lemma {:induction false} SortedLastIsLatest(ms: seq<Milestone>)
    requires |ms| > 0
    ensures exists k :: IsLatest(ms, k) && ms[k] == Last(SortByDate(ms))
  {
    var x, rest := ms[0], ms[1..];
    assert ms == [x] + rest;
    if |rest| == 0 {
      assert IsLatest(ms, 0);
    } else {
      SortedLastIsLatest(rest);
      var k :| IsLatest(rest, k) && rest[k] == Last(SortByDate(rest));
      assert SortByDate(ms) == InsertByDate(x, SortByDate(rest));
      SortByDateSorted(rest);
      LastAfterInsert(x, SortByDate(rest));
      if x.date <= rest[k].date {
        LatestBehindHead(x, rest, k);
      } else {
        LatestIsHead(x, rest);
      }
    }
  }

  // ----- Current target -----

  /** `calculateCurrentTarget`. */
  function CurrentTarget(targets: seq<Target>, now: Timestamp): (r: Option<real>)
    ensures r.None? <==> |targets| == 0
    ensures |targets| > 0 && (forall i :: 0 <= i < |targets| ==> targets[i].date.None?) ==>
      r == Some(targets[0].value)
  {
    if |targets| == 0 then None
    else
      var dated := DatedTargets(targets);
      if |dated| > 0 then
        var sorted := SortByDate(dated);
        match FirstOnOrAfter(sorted, now)
        case Some(m) => Some(m.value)
        case None => Some(sorted[|sorted| - 1].value)
      else Some(targets[0].value)
  }

  /** With a dated target on or after `now`, the earliest such one is chosen; among equal
      dates the one listed first. */
  lemma CurrentTargetPicksNext(targets: seq<Target>, now: Timestamp, k: nat)
    requires IsNext(DatedTargets(targets), now, k)
    ensures CurrentTarget(targets, now) == Some(DatedTargets(targets)[k].value)
  {
    var ms := DatedTargets(targets);
    SortedFindIsNext(ms, now);
    var k' :| IsNext(ms, now, k') && ms[k'] == FirstOnOrAfter(SortByDate(ms), now).value;
    assert k' == k;
  }

  /** When every dated target lies before `now`, the latest one is chosen; among equal
      latest dates the one listed last. */
  lemma CurrentTargetPicksLatest(targets: seq<Target>, now: Timestamp, k: nat)
    requires forall j :: 0 <= j < |DatedTargets(targets)| ==> DatedTargets(targets)[j].date < now
    requires IsLatest(DatedTargets(targets), k)
    ensures CurrentTarget(targets, now) == Some(DatedTargets(targets)[k].value)
  {
    var ms := DatedTargets(targets);
    SortedFindIsNext(ms, now);
    SortedLastIsLatest(ms);
    var k' :| IsLatest(ms, k') && ms[k'] == Last(SortByDate(ms));
    assert k' == k;
  }

  /** Once any target is dated, the result is the value of a dated target: undated
      targets never decide it. */
  lemma CurrentTargetIsDated(targets: seq<Target>, now: Timestamp)
    requires exists i :: 0 <= i < |targets| && targets[i].date.Some?
    ensures CurrentTarget(targets, now).Some?
    ensures exists i :: 0 <= i < |targets| && targets[i].date.Some? && targets[i].value == CurrentTarget(targets, now).value
  {
    var ms := DatedTargets(targets);
    var sorted := SortByDate(ms);
    FirstFindsQualifying(sorted, now);
    SortByDatePermutes(ms);
    var chosen := if FirstOnOrAfter(sorted, now).Some? then FirstOnOrAfter(sorted, now).value else Last(sorted);
    assert chosen in sorted;
    assert chosen in multiset(ms);
    assert chosen in ms;
  }

  /** Targets that passed validation are already in date order, so the sort keeps them. */
  lemma {:induction false} SortKeepsIncreasing(ms: seq<Milestone>)
    requires StrictlyIncreasing(ms)
    ensures SortByDate(ms) == ms
  {
    if |ms| > 0 {
      SortKeepsIncreasing(ms[1..]);
      assert ms == [ms[0]] + ms[1..];
    }
  }

  // ----- Status -----

  /** How bad a status is; the evaluation never yields `Archived`. */
  function Severity(s: KpiStatus): nat {
    match s
    case OnTrack => 0
    case Warning => 1
    case Critical => 2
    case Archived => 3
  }

  /** `v < b` for a bound that is not `undefined`. JavaScript's `<` converts `null` to 0. */
  predicate Below(v: real, b: Bound)
    requires !b.Absent?
  {
    match b
    case Null => v < 0.0
    case Limit(x) => v < x
  }

  /** Whether a bound is set (`!== undefined`) and the value lies below it. */
  predicate Breaches(v: real, b: Bound) {
    !b.Absent? && Below(v, b)
  }

  /** `evaluateStatus`: thresholds are lower bounds and critical is checked first. */
  function EvaluateStatus(kpi: Kpi, currentMetricValue: real): (r: KpiStatus)
    ensures r != Archived
    ensures kpi.thresholds.None? ==> r == OnTrack
    ensures r == Critical <==>
      kpi.thresholds.Some? && Breaches(currentMetricValue, kpi.thresholds.value.critical)
    ensures r == Warning <==>
      && kpi.thresholds.Some?
      && !Breaches(currentMetricValue, kpi.thresholds.value.critical)
      && Breaches(currentMetricValue, kpi.thresholds.value.warning)
  {
    if kpi.thresholds.None? then OnTrack
    else
      var th := kpi.thresholds.value;
      if th.critical != Absent && Below(currentMetricValue, th.critical) then Critical
      else if th.warning != Absent && Below(currentMetricValue, th.warning) then Warning
      else OnTrack
  }

  /** A `null` bound is not ignored: it is compared as 0, so it classifies exactly like
      a bound of 0, and a negative value breaches it. */
  lemma NullBoundIsZero(kpi: Kpi, v: real)
    requires kpi.thresholds.Some?
    ensures
      var th := kpi.thresholds.value;
      var zeroed := Thresholds(if th.warning.Null? then Limit(0.0) else th.warning,
                               if th.critical.Null? then Limit(0.0) else th.critical);
      EvaluateStatus(kpi, v) == EvaluateStatus(kpi.(thresholds := Some(zeroed)), v)
    ensures kpi.thresholds.value.critical.Null? ==> (EvaluateStatus(kpi, v) == Critical <==> v < 0.0)
  {
  }

  /** A lower value is never judged better than a higher one. */
  lemma StatusMonotone(kpi: Kpi, lower: real, higher: real)
    requires lower <= higher
    ensures Severity(EvaluateStatus(kpi, higher)) <= Severity(EvaluateStatus(kpi, lower))
  {
  }

  // ----- Target validation -----

  /** Every dated target is dated strictly later than every earlier one. */
  predicate StrictlyIncreasing(ms: seq<Milestone>) {
    forall a, b :: 0 <= a < b < |ms| ==> ms[a].date < ms[b].date
  }

  /** The loop of `validateTargets` from position i: each date after its predecessor. */
  function ChronologicalFrom(ms: seq<Milestone>, i: nat): bool
    requires 1 <= i
    decreases |ms| - i
  {
    if i >= |ms| then true
    else ms[i - 1].date < ms[i].date && ChronologicalFrom(ms, i + 1)
  }

  lemma {:induction false} ChronologicalFromIff(ms: seq<Milestone>, i: nat)
    requires 1 <= i
    ensures ChronologicalFrom(ms, i) <==> forall a, b :: i - 1 <= a < b < |ms| ==> ms[a].date < ms[b].date
    decreases |ms| - i
  {
    if i < |ms| {
      ChronologicalFromIff(ms, i + 1);
    }
  }

  /** `validateTargets`: a non-empty list whose dated targets are strictly increasing in
      date; undated targets may sit anywhere. */
  function ValidateTargets(targets: seq<Target>): (r: Outcome<ValidationError>)
    ensures r.Pass? <==> |targets| > 0 && StrictlyIncreasing(DatedTargets(targets))
    ensures r == Fail(EmptyTargets) <==> |targets| == 0
    ensures r.Fail? && |targets| > 0 ==> r.error == TargetsOutOfOrder
  {
    if |targets| == 0 then Fail(EmptyTargets)
    else
      var dated := DatedTargets(targets);
      ChronologicalFromIff(dated, 1);
      if |dated| > 1 && !ChronologicalFrom(dated, 1) then Fail(TargetsOutOfOrder)
      else Pass
  }

  // ----- Writes -----

  /** `create`: the KPI is saved only when its targets pass validation. */
  function Create(kpis: seq<Kpi>, kpi: Kpi): (r: Result<seq<Kpi>, Error>)
    ensures r.Ok? <==> ValidateTargets(kpi.targets).Pass?
    ensures r.Ok? ==> r.value == kpis + [kpi]
    ensures r.Err? ==> r.error == Invalid(ValidateTargets(kpi.targets).error)
  {
    match ValidateTargets(kpi.targets)
    case Fail(e) => Err(Invalid(e))
    case Pass => Ok(Repository.Save(kpis, kpi))
  }

  /** `update`: targets are validated only when the patch carries them; then the patch
      is merged into the stored KPI (a no-op when `uuid` is not stored). */
  function Update(kpis: seq<Kpi>, uuid: Uuid, patch: KpiPatch): (r: Result<seq<Kpi>, Error>)
    ensures r.Ok? <==> patch.targets.None? || ValidateTargets(patch.targets.value).Pass?
    ensures r.Err? ==> r.error.Invalid?
    ensures r.Err? ==>
      && patch.targets.Some? && ValidateTargets(patch.targets.value).Fail?
      && r.error == Invalid(ValidateTargets(patch.targets.value).error)
    ensures r.Ok? ==> |r.value| == |kpis|
    ensures r.Ok? ==> forall i :: 0 <= i < |kpis| && kpis[i].uuid != uuid ==> r.value[i] == kpis[i]
    ensures r.Ok? ==> forall i :: 0 <= i < |kpis| && Repository.IndexOf(kpis, KpiKey, uuid) != Some(i) ==> r.value[i] == kpis[i]
    ensures r.Ok? && FindKpi(kpis, uuid).Some? ==>
      var i := Repository.IndexOf(kpis, KpiKey, uuid).value;
      r.value[i] == ApplyKpiPatch(kpis[i], patch)
    ensures r.Ok? && FindKpi(kpis, uuid).None? ==> r.value == kpis
  {
    var validation := if patch.targets.Some? then ValidateTargets(patch.targets.value) else Pass;
    match validation
    case Fail(e) => Err(Invalid(e))
    case Pass => Ok(Repository.Update(kpis, KpiKey, uuid, (k: Kpi) => ApplyKpiPatch(k, patch)))
  }

  /** `delete`: a soft delete that archives the stored KPI and changes nothing else. */
  function Delete(kpis: seq<Kpi>, uuid: Uuid): (r: seq<Kpi>)
    ensures |r| == |kpis|
    ensures forall i :: 0 <= i < |kpis| ==> r[i] == kpis[i] || (kpis[i].uuid == uuid && r[i] == kpis[i].(status := Archived))
    ensures FindKpi(kpis, uuid).Some? ==> FindKpi(r, uuid) == Some(FindKpi(kpis, uuid).value.(status := Archived))
    ensures FindKpi(kpis, uuid).None? ==> r == kpis
    ensures forall i :: 0 <= i < |kpis| && Repository.IndexOf(kpis, KpiKey, uuid) != Some(i) ==> r[i] == kpis[i]
    ensures Repository.IndexOf(kpis, KpiKey, uuid).Some? ==>
      var i := Repository.IndexOf(kpis, KpiKey, uuid).value;
      r[i] == kpis[i].(status := Archived)
  {
    var archive := EmptyKpiPatch.(status := Some(Archived));
    var merge := (k: Kpi) => ApplyKpiPatch(k, archive);
    Repository.UpdateKeepsIndex(kpis, KpiKey, uuid, merge);
    Repository.Update(kpis, KpiKey, uuid, merge)
  }

  // ----- List items -----

  /** A row of the KPI list. The hypermedia links are left out. */
  datatype KpiListItem = KpiListItem(
    uuid: Uuid,
    name: string,
    description: string,
    metricUuid: Uuid,
    status: KpiStatus,
    currentTarget: Option<real>)

  /** `getListItems`. The source reads the clock afresh for every KPI; `clock(i)` is the
      reading taken for the KPI at position i. */
  function ListItems(kpis: seq<Kpi>, clock: nat -> Timestamp): (r: seq<KpiListItem>)
    ensures |r| == |kpis|
    ensures forall i :: 0 <= i < |r| ==>
      && r[i].uuid == kpis[i].uuid
      && r[i].name == kpis[i].name
      && r[i].description == kpis[i].description
      && r[i].metricUuid == kpis[i].metricUuid
      && r[i].status == kpis[i].status
      && r[i].currentTarget == CurrentTarget(kpis[i].targets, clock(i))
  {
    seq(|kpis|, i requires 0 <= i < |kpis| =>
      KpiListItem(kpis[i].uuid, kpis[i].name, kpis[i].description, kpis[i].metricUuid, kpis[i].status,
                  CurrentTarget(kpis[i].targets, clock(i))))
  }
}
