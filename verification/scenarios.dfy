/**
 Concrete page lists and pagers: the golden outputs of the repository's
 tests, the empty collection, and the quirks of the layout arithmetic.
 */
module Scenarios {
  import opened Wrappers
  import opened PageNumbers
  import opened PageList
  import opened PageListFacts
  import LegacyPaginator

  /** 490 items, 20 per page, page 1: 25 pages, near-start layout. */
  lemma StartPage()
    ensures
      var p := SetCurrPage(Normalize(490, 20, 1), 1);
      && p.lastPage == 25 && p.nextPage == 2 && !HasPrev(p) && HasNext(p)
      && GetPager(p) == map["first" := Some(1), "prev" := None, "curr" := Some(1),
                            "next" := Some(2), "last" := Some(25)]
      && GetPages(p, 1) == [Prev(None), Curr(1), Page(2), Page(3), Page(4), Page(5),
                            Ellip, Page(24), Page(25), Next(Some(2))]
  {
    assert SetCurrPage(Normalize(490, 20, 1), 1) == Paginator(490, 20, 1, 25, 0, 2, 0);
  }

  /** 490 items, 20 per page, page 10: middle layout. */
  lemma MiddlePage()
    ensures
      var p := SetCurrPage(Normalize(490, 20, 1), 10);
      && p.currPage == 10 && p.nextPage == 11 && HasPrev(p)
      && GetPager(p) == map["first" := Some(1), "prev" := Some(9), "curr" := Some(10),
                            "next" := Some(11), "last" := Some(25)]
      && GetPages(p, 1) == [Prev(Some(9)), Page(1), Page(2), Ellip, Page(9), Curr(10),
                            Page(11), Ellip, Page(24), Page(25), Next(Some(11))]
  {
    assert SetCurrPage(Normalize(490, 20, 1), 10) == Paginator(490, 20, 10, 25, 9, 11, 180);
  }

  /**
   50 items, 10 per page, with the default current page and adjacents:
   five pages, nothing hidden.
   */
  lemma FewPages()
    ensures
      var p := Normalize(50, 10);
      && p.lastPage == 5 && p == Normalize(50, 10, 1)
      && GetPages(p) == GetPages(p, 1)
      && GetPages(p) == [Prev(None), Curr(1), Page(2), Page(3), Page(4), Page(5), Next(Some(2))]
  {
  }

  /** No items: no pages at all, the current page still reads 1, nothing to list. */
  lemma NoItems(itemLimit: int, currPage: int, adjacents: int)
    requires itemLimit > 0 && adjacents >= 0
    ensures
      var p := Normalize(0, itemLimit, currPage);
      && p.lastPage == 0 && p.currPage == 1 && p.itemOffset == 0
      && !HasPages(p) && !HasPrev(p) && !HasNext(p)
      && GetPager(p) == map[] && GetPages(p, adjacents) == []
  {
  }

  /** One adjacent, 25 pages, page 3: the middle layout lists page 2 twice. */
  lemma DuplicatePageTwo()
    ensures
      GetPages(Normalize(25, 1, 3), 1)
      == [Prev(Some(2)), Page(1), Page(2), Ellip, Page(2), Curr(3), Page(4),
          Ellip, Page(24), Page(25), Next(Some(4))]
  {
  }

  /**
   Ten adjacents, 27 pages, page 27: the near-end range starts at
   27 - 31 = -4, so pages -4 to 0 are listed and pages 1 and 2 come twice.
   */
  lemma NearEndBelowOne()
    ensures
      var r := GetPages(Normalize(27, 1, 27), 10);
      && |r| == 37
      && r[1] == Page(1) && r[2] == Page(2) && r[3] == Ellip
      && r[4] == Page(-4) && r[8] == Page(0) && r[9] == Page(1) && r[10] == Page(2)
      && r[35] == Curr(27) && r[36] == Next(None)
  {
  }

  /** Four adjacents, 15 pages, page 8: the near-start layout, which stops at page 11. */
  lemma NearStartWideAdjacents()
    ensures
      GetPages(Normalize(15, 1, 8), 4)
      == [Prev(Some(7)), Page(1), Page(2), Page(3), Page(4), Page(5), Page(6), Page(7),
          Curr(8), Page(9), Page(10), Page(11), Ellip, Page(14), Page(15), Next(Some(9))]
  {
  }

  /** In the list above, page 12, four after the current page, is not listed. */
  lemma NearStartHidesAdjacent()
    ensures !Listed(GetPages(Normalize(15, 1, 8), 4), 12)
  {
    NearStartWideAdjacents();
    var r := GetPages(Normalize(15, 1, 8), 4);
    forall i | 0 <= i < |r| && Numbered(r[i])
      ensures r[i].number != 12
    {
    }
  }

  /** The legacy pager for 490 items, 20 per page, page 1: first and prev are blanked together. */
  lemma LegacyStartPage()
    ensures
      var p := LegacyPaginator.New(490, 20, 1);
      LegacyPaginator.GetPager(p)
      == map["curr_page" := Some(1), "last_page" := Some(25), "first" := None, "prev" := None,
             "curr" := Some(1), "next" := Some(2), "last" := Some(25)]
  {
  }
}
