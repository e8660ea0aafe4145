/**
 The older single-module `Paginator` (py_paginator.py). Its constructor
 derives the same fields as the package version, its page list is a copy
 of the package algorithm written with inline comparisons, and its edge
 pager has a different shape: `first`/`prev` and `next`/`last` are blanked
 in pairs, and two extra keys repeat the current and last page.
 */
module LegacyPaginator {
  import opened Wrappers
  import opened PageNumbers
  import opened PageList

  /**
   The legacy constructor: ceiling page count, out-of-range current page
   reset to 1, and prev/next/offset derived from the current page.
   */
  function New(totalItems: int, itemLimit: int, currPage: int): (p: Paginator)
    requires totalItems >= 0 && itemLimit > 0
    ensures Valid(p)
    ensures p.totalItems == totalItems && p.itemLimit == itemLimit
    ensures p.lastPage * itemLimit >= totalItems > (p.lastPage - 1) * itemLimit
    ensures 1 <= currPage <= p.lastPage ==> p.currPage == currPage
    ensures currPage < 1 || currPage > p.lastPage ==> p.currPage == 1
    ensures p.prevPage == p.currPage - 1 && p.nextPage == p.currPage + 1
    ensures p.itemOffset == (p.currPage - 1) * itemLimit
  {
    Normalize(totalItems, itemLimit, currPage)
  }

  /** The legacy `has_pages`, compared against the literal 1: several pages exactly when the items overflow one page. */
  predicate HasPagesLegacy(p: Paginator)
    requires Valid(p)
    ensures HasPagesLegacy(p) <==> p.totalItems > p.itemLimit
  {
    QueriesMeaning(p);
    p.lastPage > 1
  }

  /**
   The legacy `get_pager`: empty without several pages; otherwise
   `first`/`prev` are None together on the first page and `next`/`last`
   are None together on the last page.
   */
  function GetPager(p: Paginator): (r: map<string, Option<int>>)
    requires Valid(p)
    ensures r == map[] <==> !HasPages(p)
    ensures HasPages(p) ==>
      r.Keys == {"curr_page", "last_page", "first", "prev", "curr", "next", "last"}
    ensures HasPages(p) ==>
      r["curr_page"] == r["curr"] == Some(p.currPage) && r["last_page"] == Some(p.lastPage)
    ensures HasPages(p) ==>
      (r["first"] == None <==> p.currPage == 1) && (r["prev"] == None <==> p.currPage == 1) &&
      (p.currPage != 1 ==> r["first"] == Some(1) && r["prev"] == Some(p.currPage - 1))
    ensures HasPages(p) ==>
      (r["next"] == None <==> p.currPage == p.lastPage) &&
      (r["last"] == None <==> p.currPage == p.lastPage) &&
      (p.currPage != p.lastPage ==> r["next"] == Some(p.currPage + 1) && r["last"] == Some(p.lastPage))
  {
    if HasPagesLegacy(p) then
      var pager := map[
        "curr_page" := Some(p.currPage),
        "last_page" := Some(p.lastPage),
        "first" := (if p.currPage > 1 then Some(FirstPage) else None),
        "prev" := (if p.currPage > 1 then Some(p.prevPage) else None),
        "curr" := Some(p.currPage),
        "next" := (if p.currPage < p.lastPage then Some(p.nextPage) else None),
        "last" := (if p.currPage < p.lastPage then Some(p.lastPage) else None)];
      assert "curr" in pager;
      pager
    else
      map[]
  }

  /**
   The layout branch of the legacy `get_pages`. It is a textual copy of the
   package one and chooses the same entries in every case.
   */
  function Layout(last: int, curr: int, a: int): (r: seq<Entry>)
    requires 1 <= curr <= last && last > 1 && a >= 1
    ensures r == PageSection(last, curr, a)
  {
    var adjCount := a * 2;
    var secondLast := last - 1;
    if last < 7 + adjCount then
      RangeEntries(1, last + 1, curr)
    else if last >= 5 + adjCount then
      if curr < 1 + adjCount then
        var r := RangeEntries(1, 4 + adjCount, curr) + [Ellip, Page(secondLast), Page(last)];
        assert r == NearStart(last, curr, a);
        r
      else if last - adjCount > curr && curr > adjCount then
        var r := [Page(1), Page(2), Ellip]
          + RangeEntries(curr - a, curr + a + 1, curr)
          + [Ellip, Page(secondLast), Page(last)];
        assert r == Middle(last, curr, a);
        r
      else
        var r := [Page(1), Page(2), Ellip]
          + RangeEntries(last - (1 + a * 3), last + 1, curr);
        assert r == NearEnd(last, curr, a);
        r
    else
      []
  }

  /** The legacy `get_pages`, with the edge tests written as inline comparisons. */
  function GetPages(p: Paginator, adjacents: int): (r: seq<Entry>)
    requires Valid(p) && adjacents >= 0
    ensures r == [] <==> !HasPagesLegacy(p)
    ensures HasPagesLegacy(p) ==>
      |r| >= 4 &&
      r[0] == Prev(if p.currPage == 1 then None else Some(p.currPage - 1)) &&
      r[|r| - 1] == Next(if p.currPage == p.lastPage then None else Some(p.currPage + 1)) &&
      r[1..|r| - 1] == PageSection(p.lastPage, p.currPage, EffectiveAdjacents(adjacents))
  {
    var a := if adjacents == 0 then 1 else adjacents;
    if HasPagesLegacy(p) then
      var prev := if p.currPage > FirstPage then Prev(Some(p.prevPage)) else Prev(None);
      var next := if p.currPage < p.lastPage then Next(Some(p.nextPage)) else Next(None);
      [prev] + Layout(p.lastPage, p.currPage, a) + [next]
    else
      []
  }

  /** Both copies of `get_pages` produce the same list. */
  lemma GetPagesAgree(p: Paginator, adjacents: int)
    requires Valid(p) && adjacents >= 0
    ensures GetPages(p, adjacents) == PageList.GetPages(p, adjacents)
  {
  }

  /**
   The two pagers agree on prev, curr and next; the legacy one blanks
   `first` on the first page and `last` on the last page, where the package
   one always keeps them.
   */
  lemma PagersAgree(p: Paginator)
    requires Valid(p) && HasPages(p)
    ensures
      var legacy := GetPager(p);
      var pkg := PageNumbers.GetPager(p);
      && legacy["prev"] == pkg["prev"]
      && legacy["curr"] == pkg["curr"]
      && legacy["next"] == pkg["next"]
      && legacy["first"] == (if p.currPage == 1 then None else pkg["first"])
      && legacy["last"] == (if p.currPage == p.lastPage then None else pkg["last"])
  {
  }
}
