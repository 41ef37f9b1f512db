/** The pagination both list use cases share (dashboard.use-case.ts and kpi.use-case.ts
    `getListItemsPaginated`): a `slice` window, the last page number, and the
    first/prev/next/last links, modelled as the page numbers they point to. */
module Pagination {
  import opened Wrappers
  import opened Entities
  import Seqs

  /** A page link: its page and limit, and the `status` parameter when one is carried. */
  datatype Link = Link(page: int, limit: int, status: Option<string>)

  datatype Links = Links(first: Link, prev: Option<Link>, next: Option<Link>, last: Link)

  datatype Page<T> = Page(items: seq<T>, total: nat, page: int, limit: int, links: Links)

  function Min(a: int, b: int): int {
    if a < b then a else b
  }

  /** `Math.ceil(total / limit)` for a non-zero integer limit. */
  function CeilDiv(total: nat, limit: int): (r: int)
    requires limit != 0
    ensures limit > 0 ==> (r - 1) * limit < total <= r * limit
    ensures limit < 0 ==> r <= 0
  {
    if limit > 0 then
      var q := (total + limit - 1) / limit;
      assert total + limit - 1 == q * limit + (total + limit - 1) % limit;
      assert (q - 1) * limit == q * limit - limit;
      q
    else -(total / -limit)
  }

  /** `Math.max(1, Math.ceil(total / limit))`. */
  function LastPage(total: nat, limit: int): (r: int)
    requires limit != 0
    ensures r >= 1
    ensures limit < 0 ==> r == 1
    ensures limit > 0 ==> total <= r * limit && (r == 1 || (r - 1) * limit < total)
  {
    var c := CeilDiv(total, limit);
    if c < 1 then 1 else c
  }

  /** The `&status=` parameter links carry: the status when it is truthy. */
  function StatusParam(status: Option<string>): (r: Option<string>)
    ensures r.Some? <==> Truthy(status)
    ensures r.Some? ==> r == status
  {
    if Truthy(status) then status else None
  }

  /** Where page `page` starts: `(page - 1) * limit`. */
  function PageStart(page: int, limit: int): (start: int)
    ensures page >= 1 && limit >= 1 ==> 0 <= start && start + limit == page * limit
  {
    if page >= 1 && limit >= 1 then
      assert (page - 1) * limit >= 0 by {
        MulNonNegative(page - 1, limit);
      }
      (page - 1) * limit
    else (page - 1) * limit
  }

  lemma MulNonNegative(a: int, b: int)
    requires a >= 0 && b >= 0
    ensures a * b >= 0
  {
  }

  /** `all.slice(start, start + limit)`: the items of one page. */
  function Window<T>(all: seq<T>, start: int, limit: int): (r: seq<T>)
    ensures limit >= 1 ==> |r| <= limit
    ensures start >= 0 && limit >= 1 ==>
      && |r| == (if start >= |all| then 0 else Min(limit, |all| - start))
      && forall i :: 0 <= i < |r| ==> r[i] == all[start + i]
  {
    Seqs.JsSlice(all, start, start + limit)
  }

  /** A page of `all`. The controllers turn `page` and `limit` into numbers with
      `Number(x) || default`, which never yields 0. */
  function Paginate<T>(all: seq<T>, page: int, limit: int, status: Option<string>): (r: Page<T>)
    requires page != 0 && limit != 0
    ensures r.total == |all| && r.page == page && r.limit == limit
    ensures page >= 1 && limit >= 1 ==>
      var start := (page - 1) * limit;
      && |r.items| == (if start >= |all| then 0 else Min(limit, |all| - start))
      && forall i :: 0 <= i < |r.items| ==> r.items[i] == all[start + i]
    ensures limit >= 1 ==> |r.items| <= limit
    ensures r.links.first == Link(1, limit, StatusParam(status))
    ensures r.links.last == Link(LastPage(|all|, limit), limit, StatusParam(status))
    ensures r.links.prev.Some? <==> page > 1
    ensures r.links.prev.Some? ==> r.links.prev.value == Link(page - 1, limit, StatusParam(status))
    ensures r.links.next.Some? <==> page < LastPage(|all|, limit)
    ensures r.links.next.Some? ==> r.links.next.value == Link(page + 1, limit, StatusParam(status))
  {
    var items := Window(all, PageStart(page, limit), limit);
    var lastPage := LastPage(|all|, limit);
    var link := (p: int) => Link(p, limit, StatusParam(status));
    Page(items, |all|, page, limit,
         Links(link(1),
               if page > 1 then Some(link(page - 1)) else None,
               if page < lastPage then Some(link(page + 1)) else None,
               link(lastPage)))
  }

  /** Multiplying by a non-negative factor keeps order. */
  lemma MulMonotone(a: int, b: int, c: int)
    requires a <= b && c >= 0
    ensures a * c <= b * c
  {
    assert b * c - a * c == (b - a) * c;
    MulNonNegative(b - a, c);
  }

  /** For a positive page and limit, the page lies before the last page exactly when
      items remain beyond it. */
  lemma BeforeLastIff(page: int, limit: int, total: nat)
    requires page >= 1 && limit >= 1
    ensures page < LastPage(total, limit) <==> page * limit < total
  {
    var last := LastPage(total, limit);
    if page < last {
      assert last != 1 && (last - 1) * limit < total;
      MulMonotone(page, last - 1, limit);
    }
    if page >= last {
      assert total <= last * limit;
      MulMonotone(last, page, limit);
    }
  }

  /** For positive page and limit, a next link is offered exactly when items remain
      beyond the current page. */
  lemma NextIffMoreItems<T>(all: seq<T>, page: int, limit: int, status: Option<string>)
    requires page >= 1 && limit >= 1
    ensures Paginate(all, page, limit, status).links.next.Some? <==> page * limit < |all|
  {
    assert Paginate(all, page, limit, status).links.next.Some? <==> page < LastPage(|all|, limit);
    BeforeLastIff(page, limit, |all|);
  }

  /** Euclidean division of a position by a positive limit. */
  lemma DivModParts(i: nat, limit: int)
    requires limit >= 1
    ensures i / limit >= 0 && 0 <= i % limit < limit
    ensures (i / limit) * limit + i % limit == i
  {
  }

  /** Every item appears on the page its position puts it on, and that page is no
      later than the last page. */
  lemma EveryItemOnItsPage<T>(all: seq<T>, limit: int, status: Option<string>, i: nat)
    requires limit >= 1 && i < |all|
    ensures 1 <= i / limit + 1 <= LastPage(|all|, limit)
    ensures var p := Paginate(all, i / limit + 1, limit, status);
      i % limit < |p.items| && p.items[i % limit] == all[i]
  {
    var q, m := i / limit, i % limit;
    DivModParts(i, limit);
    var start := q * limit;
    assert start + m == i;
    if q >= 1 {
      BeforeLastIff(q, limit, |all|);
    }
    ItemOnPage(all, limit, status, q, m);
  }

  /** Item `m` of page `q + 1` is element `q * limit + m`, whenever that element exists. */
  lemma ItemOnPage<T>(all: seq<T>, limit: int, status: Option<string>, q: nat, m: nat)
    requires limit >= 1 && m < limit && q * limit + m < |all|
    ensures var p := Paginate(all, q + 1, limit, status);
      m < |p.items| && p.items[m] == all[q * limit + m]
  {
    var start := q * limit;
    assert (q + 1 - 1) * limit == start;
    var p := Paginate(all, q + 1, limit, status);
    assert |p.items| == Min(limit, |all| - start);
  }
}
