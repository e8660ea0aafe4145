/**
 The compact page list of `get_pages`: a `prev` entry, a run of page
 numbers in which some stretches are collapsed into an ellipsis, and a
 `next` entry.
 */
module PageList {
  import opened Wrappers
  import opened PageNumbers

  /** The source's `(tag, value)` tuples: 'prev', 'next', 'page', 'curr', 'ellip'. */
  datatype Entry =
    | Prev(target: Option<int>)
    | Next(target: Option<int>)
    | Page(number: int)
    | Curr(number: int)
    | Ellip

  /** An entry that shows a page number. */
  predicate Numbered(e: Entry) {
    e.Page? || e.Curr?
  }

  /**
   `_append_range_pages(start, stop)`: one entry per page of the half-open
   range, tagged `curr` for the current page and `page` otherwise.
   */
  function RangeEntries(start: int, stop: int, curr: int): (r: seq<Entry>)
    decreases stop - start
    ensures |r| == if start < stop then stop - start else 0
    ensures forall i :: 0 <= i < |r| ==> Numbered(r[i]) && r[i].number == start + i
    ensures forall i :: 0 <= i < |r| ==> (r[i].Curr? <==> start + i == curr)
  {
    if start >= stop then []
    else [if start == curr then Curr(start) else Page(start)] + RangeEntries(start + 1, stop, curr)
  }

  /** `int(adjacents) if adjacents else 1`: zero asks for the default of one. */
  function EffectiveAdjacents(adjacents: int): (a: int)
    requires adjacents >= 0
    ensures a >= 1
    ensures adjacents >= 1 ==> a == adjacents
    ensures adjacents == 0 ==> a == 1
  {
    if adjacents == 0 then 1 else adjacents
  }

  /**
   What every layout guarantees about the entries between `prev` and
   `next`: only pages and ellipses, the current page as the only `curr`, no
   page above the last, page 1 first and the last page last.
   */
  predicate SectionShape(r: seq<Entry>, last: int, curr: int) {
    && |r| >= 2
    && (forall i :: 0 <= i < |r| ==> Numbered(r[i]) || r[i].Ellip?)
    && (forall i :: 0 <= i < |r| && r[i].Curr? ==> r[i].number == curr)
    && (forall i :: 0 <= i < |r| && Numbered(r[i]) ==> r[i].number <= last)
    && Numbered(r[0]) && r[0].number == 1
    && Numbered(r[|r| - 1]) && r[|r| - 1].number == last
  }

  /** Nothing to hide: every page from 1 to the last. */
  function NoHide(last: int, curr: int): (r: seq<Entry>)
    requires 1 <= curr <= last && last > 1
    ensures SectionShape(r, last, curr) && |r| == last
  {
    RangeEntries(1, last + 1, curr)
  }

  /** Close to the beginning: pages 1 to 3+2a, an ellipsis and the last two pages. */
  function NearStart(last: int, curr: int, a: int): (r: seq<Entry>)
    requires a >= 1 && 1 <= curr < 1 + 2 * a && last >= 7 + 2 * a
    ensures SectionShape(r, last, curr) && |r| == 2 * a + 6
  {
    RangeEntries(1, 4 + 2 * a, curr) + [Ellip, Page(last - 1), Page(last)]
  }

  /**
   In the middle: pages 1 and 2, an ellipsis, the current page with `a`
   pages on each side, an ellipsis and the last two pages.
   */
  function Middle(last: int, curr: int, a: int): (r: seq<Entry>)
    requires a >= 1 && last >= 7 + 2 * a && 2 * a < curr < last - 2 * a
    ensures SectionShape(r, last, curr) && |r| == 2 * a + 7
  {
    [Page(1), Page(2), Ellip]
    + RangeEntries(curr - a, curr + a + 1, curr)
    + [Ellip, Page(last - 1), Page(last)]
  }

  /**
   Close to the end: pages 1 and 2, an ellipsis, and the pages from
   last-(1+3a) to the last. The start can be below 1.
   */
  function NearEnd(last: int, curr: int, a: int): (r: seq<Entry>)
    requires a >= 1 && last >= 7 + 2 * a && last - 2 * a <= curr <= last
    ensures SectionShape(r, last, curr) && |r| == 3 * a + 5
  {
    [Page(1), Page(2), Ellip] + RangeEntries(last - (1 + a * 3), last + 1, curr)
  }

  /**
   The entries between `prev` and `next`, for last page `last`, current
   page `curr` and effective adjacents `a`. The second guard is implied by
   the failure of the first and so always holds when it is reached; it is
   kept as the source writes it.
   */
  function PageSection(last: int, curr: int, a: int): (r: seq<Entry>)
    requires 1 <= curr <= last && last > 1 && a >= 1
    ensures SectionShape(r, last, curr)
  {
    var adjCount := a * 2;
    if last < 7 + adjCount then
      NoHide(last, curr)
    else if last >= 5 + adjCount then
      if curr < 1 + adjCount then
        NearStart(last, curr, a)
      else if last - adjCount > curr && curr > adjCount then
        Middle(last, curr, a)
      else
        NearEnd(last, curr, a)
    else
      assert false; []
  }

  /** The `prev` entry: the previous page, or None on the first page. */
  function PrevEntry(p: Paginator): Entry
    requires Valid(p)
  {
    Prev(if HasPrev(p) then Some(p.prevPage) else None)
  }

  /** The `next` entry: the next page, or None on the last page. */
  function NextEntry(p: Paginator): Entry
    requires Valid(p)
  {
    Next(if HasNext(p) then Some(p.nextPage) else None)
  }

  /** `get_pages(adjacents)`. */
  function GetPages(p: Paginator, adjacents: int := 1): (r: seq<Entry>)
    requires Valid(p) && adjacents >= 0
    ensures r == [] <==> !HasPages(p)
    ensures HasPages(p) ==>
      |r| >= 4 &&
      r[0] == Prev(if p.currPage == 1 then None else Some(p.currPage - 1)) &&
      r[|r| - 1] == Next(if p.currPage == p.lastPage then None else Some(p.currPage + 1))
    ensures forall i :: 0 < i < |r| - 1 ==> Numbered(r[i]) || r[i].Ellip?
    ensures forall i :: 0 <= i < |r| && r[i].Curr? ==> r[i].number == p.currPage
    ensures forall i :: 0 <= i < |r| && Numbered(r[i]) ==> r[i].number <= p.lastPage
    ensures HasPages(p) ==> Numbered(r[1]) && r[1].number == 1
    ensures HasPages(p) ==> Numbered(r[|r| - 2]) && r[|r| - 2].number == p.lastPage
  {
    if HasPages(p) then
      [PrevEntry(p)] + PageSection(p.lastPage, p.currPage, EffectiveAdjacents(adjacents)) + [NextEntry(p)]
    else
      []
  }
}
