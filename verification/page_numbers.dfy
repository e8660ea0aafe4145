/**
 Pagination state of the package `Paginator` class: the three inputs
 (total item count, items per page, current page) and the fields derived
 from them by `_process_page_numbers`, together with the boolean queries
 and the edge pager `get_pager`.

 Python objects are mutable; here a state is an immutable record and each
 setter returns the re-derived state.
 */
module PageNumbers {
  import opened Wrappers

  /** `first_page` is fixed at 1 by the constructor and never changes. */
  const FirstPage: int := 1

  datatype Paginator = Paginator(
    totalItems: int,
    itemLimit: int,
    currPage: int,
    lastPage: int,
    prevPage: int,
    nextPage: int,
    itemOffset: int)

  /** `q` is the integer ceiling of `n / d` (for `d > 0`). */
  predicate IsCeiling(q: int, n: int, d: int) {
    q * d >= n && (q - 1) * d < n
  }

  /** The invariant every state built by the constructor or a setter keeps. */
  predicate Valid(p: Paginator) {
    && p.totalItems >= 0
    && p.itemLimit > 0
    && p.lastPage >= 0
    && IsCeiling(p.lastPage, p.totalItems, p.itemLimit)
    && 1 <= p.currPage
    && (p.currPage == 1 || p.currPage <= p.lastPage)
    && p.prevPage == p.currPage - 1
    && p.nextPage == p.currPage + 1
    && p.itemOffset == p.prevPage * p.itemLimit
  }

  lemma MulMonotone(x: int, y: int, d: int)
    requires x <= y && d > 0
    ensures x * d <= y * d
  {
    assert y * d - x * d == (y - x) * d;
  }

  /** The ceiling of a quotient is unique. */
  lemma CeilingUnique(q1: int, q2: int, n: int, d: int)
    requires d > 0
    requires IsCeiling(q1, n, d) && IsCeiling(q2, n, d)
    ensures q1 == q2
  {
    if q1 < q2 {
      MulMonotone(q1, q2 - 1, d);
    } else if q2 < q1 {
      MulMonotone(q2, q1 - 1, d);
    }
  }

  /** Exact integer ceiling division; replaces `math.ceil(float(n) / float(d))`. */
  function CeilDiv(n: int, d: int): (q: int)
    requires n >= 0 && d > 0
    ensures q >= 0
    ensures IsCeiling(q, n, d)
  {
    var q := (n + d - 1) / d;
    assert d * q + (n + d - 1) % d == n + d - 1;
    q
  }

  /**
   The derivation step `_process_page_numbers`: the last page is the
   ceiling of items over limit, an out-of-range current page falls back to
   1, and prev/next/offset follow the current page.
   */
  function Normalize(totalItems: int, itemLimit: int, currPage: int := 1): (p: Paginator)
    requires totalItems >= 0 && itemLimit > 0
    ensures Valid(p)
    ensures p.totalItems == totalItems && p.itemLimit == itemLimit
    ensures 1 <= currPage <= p.lastPage ==> p.currPage == currPage
    ensures currPage < 1 || currPage > p.lastPage ==> p.currPage == 1
  {
    var last := CeilDiv(totalItems, itemLimit);
    var curr := if currPage < 1 || currPage > last then 1 else currPage;
    Paginator(totalItems, itemLimit, curr, last, curr - 1, curr + 1, (curr - 1) * itemLimit)
  }

  /** A valid state's last page is determined by its inputs alone. */
  lemma LastPageDetermined(p: Paginator, q: Paginator)
    requires Valid(p) && Valid(q)
    requires p.totalItems == q.totalItems && p.itemLimit == q.itemLimit
    ensures p.lastPage == q.lastPage
  {
    CeilingUnique(p.lastPage, q.lastPage, p.totalItems, p.itemLimit);
  }

  /** Re-running the derivation on a valid state changes nothing. */
  lemma {:induction false} NormalizeIdempotent(p: Paginator)
    requires Valid(p)
    ensures Normalize(p.totalItems, p.itemLimit, p.currPage) == p
  {
    LastPageDetermined(Normalize(p.totalItems, p.itemLimit, p.currPage), p);
  }

  /** The offset of the current page's first item lies inside the collection. */
  lemma ItemOffsetInRange(p: Paginator)
    requires Valid(p)
    ensures 0 <= p.itemOffset
    ensures p.totalItems > 0 ==> p.itemOffset < p.totalItems
  {
    MulMonotone(0, p.currPage - 1, p.itemLimit);
    if p.currPage > 1 {
      MulMonotone(p.currPage - 1, p.lastPage - 1, p.itemLimit);
    }
  }

  /** The `curr_page` setter. */
  function SetCurrPage(p: Paginator, currPage: int): (r: Paginator)
    requires Valid(p)
    ensures Valid(r)
    ensures r.totalItems == p.totalItems && r.itemLimit == p.itemLimit
    ensures r.lastPage == p.lastPage
    ensures 1 <= currPage <= p.lastPage ==> r.currPage == currPage
    ensures currPage < 1 || currPage > p.lastPage ==> r.currPage == 1
  {
    var r := Normalize(p.totalItems, p.itemLimit, currPage);
    LastPageDetermined(r, p);
    r
  }

  /** The `item_limit` setter; the current page survives when it still exists. */
  function SetItemLimit(p: Paginator, itemLimit: int): (r: Paginator)
    requires Valid(p) && itemLimit > 0
    ensures Valid(r)
    ensures r.totalItems == p.totalItems && r.itemLimit == itemLimit
    ensures p.currPage <= r.lastPage ==> r.currPage == p.currPage
    ensures p.currPage > r.lastPage ==> r.currPage == 1
  {
    Normalize(p.totalItems, itemLimit, p.currPage)
  }

  /** Moving to another page and back restores the state exactly. */
  lemma {:induction false} SetCurrPageRestore(p: Paginator, currPage: int)
    requires Valid(p)
    ensures SetCurrPage(SetCurrPage(p, currPage), p.currPage) == p
  {
    NormalizeIdempotent(p);
  }

  /**
   Changing the page size and changing it back restores the state, provided
   the current page survived the temporary size.
   */
  lemma {:induction false} SetItemLimitRestore(p: Paginator, itemLimit: int)
    requires Valid(p) && itemLimit > 0
    requires SetItemLimit(p, itemLimit).currPage == p.currPage
    ensures SetItemLimit(SetItemLimit(p, itemLimit), p.itemLimit) == p
  {
    NormalizeIdempotent(p);
  }

  /**
   The page-count thresholds in terms of items: more than one page exactly
   when the items do not fit on one page, a page before the current one
   exactly when the current page does not start at item 0, and a page after
   it exactly when items remain after the current page.
   */
  lemma QueriesMeaning(p: Paginator)
    requires Valid(p)
    ensures p.lastPage > 1 <==> p.totalItems > p.itemLimit
    ensures p.currPage > 1 <==> p.itemOffset > 0
    ensures p.currPage < p.lastPage <==> p.currPage * p.itemLimit < p.totalItems
  {
    var n, d := p.totalItems, p.itemLimit;
    if p.lastPage > 1 {
      MulMonotone(1, p.lastPage - 1, d);
    } else {
      MulMonotone(p.lastPage, 1, d);
    }
    if p.currPage > 1 {
      MulMonotone(1, p.currPage - 1, d);
    }
    if p.currPage < p.lastPage {
      MulMonotone(p.currPage, p.lastPage - 1, d);
    } else {
      MulMonotone(p.lastPage, p.currPage, d);
    }
  }

  /** `has_pages`: several pages exactly when the items overflow one page. */
  predicate HasPages(p: Paginator)
    requires Valid(p)
    ensures HasPages(p) <==> p.totalItems > p.itemLimit
  {
    QueriesMeaning(p);
    p.lastPage > FirstPage
  }

  /** `has_prev`: a previous page exactly when the current page does not start at item 0. */
  predicate HasPrev(p: Paginator)
    requires Valid(p)
    ensures HasPrev(p) <==> p.itemOffset > 0
  {
    QueriesMeaning(p);
    p.currPage > FirstPage
  }

  /** `has_next`: a next page exactly when items remain after the current page. */
  predicate HasNext(p: Paginator)
    requires Valid(p)
    ensures HasNext(p) <==> p.currPage * p.itemLimit < p.totalItems
  {
    QueriesMeaning(p);
    p.currPage < p.lastPage
  }

  /**
   `get_pager`: an empty dict without several pages; otherwise the keys
   first/prev/curr/next/last, with prev and next mapped to None at the edges.
   */
  function GetPager(p: Paginator): (r: map<string, Option<int>>)
    requires Valid(p)
    ensures r == map[] <==> !HasPages(p)
    ensures HasPages(p) ==> r.Keys == {"first", "prev", "curr", "next", "last"}
    ensures HasPages(p) ==>
      r["first"] == Some(1) && r["curr"] == Some(p.currPage) && r["last"] == Some(p.lastPage)
    ensures HasPages(p) ==>
      (r["prev"] == None <==> p.currPage == 1) &&
      (p.currPage != 1 ==> r["prev"] == Some(p.currPage - 1))
    ensures HasPages(p) ==>
      (r["next"] == None <==> p.currPage == p.lastPage) &&
      (p.currPage != p.lastPage ==> r["next"] == Some(p.currPage + 1))
  {
    if HasPages(p) then
      var pager := map[
        "first" := Some(FirstPage),
        "prev" := (if HasPrev(p) then Some(p.prevPage) else None),
        "curr" := Some(p.currPage),
        "next" := (if HasNext(p) then Some(p.nextPage) else None),
        "last" := Some(p.lastPage)];
      assert "first" in pager;
      pager
    else
      map[]
  }
}
