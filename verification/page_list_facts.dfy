/**
 Properties of the compact page list that relate several calls or need a
 case analysis over the four layouts.
 */
module PageListFacts {
  import opened PageNumbers
  import opened PageList

  /** Number of `curr` entries in a list. */
  function CurrCount(s: seq<Entry>): nat {
    if s == [] then 0 else (if s[0].Curr? then 1 else 0) + CurrCount(s[1..])
  }

  lemma {:induction false} CurrCountAppend(s: seq<Entry>, t: seq<Entry>)
    ensures CurrCount(s + t) == CurrCount(s) + CurrCount(t)
  {
    if s == [] {
      assert s + t == t;
    } else {
      assert (s + t)[1..] == s[1..] + t;
      CurrCountAppend(s[1..], t);
    }
  }

  lemma {:induction false} CurrCountNone(s: seq<Entry>)
    requires forall i :: 0 <= i < |s| ==> !s[i].Curr?
    ensures CurrCount(s) == 0
  {
    if s != [] {
      CurrCountNone(s[1..]);
    }
  }

  /** A range holds one `curr` entry exactly when the current page lies in it. */
  lemma {:induction false} CurrCountRange(start: int, stop: int, curr: int)
    decreases stop - start
    ensures CurrCount(RangeEntries(start, stop, curr)) == if start <= curr < stop then 1 else 0
  {
    if start < stop {
      var r := RangeEntries(start, stop, curr);
      assert r[1..] == RangeEntries(start + 1, stop, curr);
      CurrCountRange(start + 1, stop, curr);
    }
  }

  /** The entries of the hide layouts that precede or follow the shown range. */
  lemma FixedPartsHaveNoCurr(last: int)
    ensures CurrCount([Page(1), Page(2), Ellip]) == 0
    ensures CurrCount([Ellip, Page(last - 1), Page(last)]) == 0
  {
    CurrCountNone([Page(1), Page(2), Ellip]);
    CurrCountNone([Ellip, Page(last - 1), Page(last)]);
  }

  lemma NearStartSingleCurrent(last: int, curr: int, a: int)
    requires a >= 1 && 1 <= curr < 1 + 2 * a && last >= 7 + 2 * a
    ensures CurrCount(NearStart(last, curr, a)) == 1
  {
    var mid := RangeEntries(1, 4 + 2 * a, curr);
    var tail := [Ellip, Page(last - 1), Page(last)];
    FixedPartsHaveNoCurr(last);
    CurrCountRange(1, 4 + 2 * a, curr);
    CurrCountAppend(mid, tail);
  }

  lemma MiddleSingleCurrent(last: int, curr: int, a: int)
    requires a >= 1 && last >= 7 + 2 * a && 2 * a < curr < last - 2 * a
    ensures CurrCount(Middle(last, curr, a)) == 1
  {
    var head := [Page(1), Page(2), Ellip];
    var mid := RangeEntries(curr - a, curr + a + 1, curr);
    var tail := [Ellip, Page(last - 1), Page(last)];
    FixedPartsHaveNoCurr(last);
    CurrCountRange(curr - a, curr + a + 1, curr);
    CurrCountAppend(head, mid);
    CurrCountAppend(head + mid, tail);
  }

  lemma NearEndSingleCurrent(last: int, curr: int, a: int)
    requires a >= 1 && last >= 7 + 2 * a && last - 2 * a <= curr <= last
    ensures CurrCount(NearEnd(last, curr, a)) == 1
  {
    var head := [Page(1), Page(2), Ellip];
    var mid := RangeEntries(last - (1 + a * 3), last + 1, curr);
    FixedPartsHaveNoCurr(last);
    CurrCountRange(last - (1 + a * 3), last + 1, curr);
    CurrCountAppend(head, mid);
  }

  /** Every layout shows the current page exactly once. */
  lemma SectionSingleCurrent(last: int, curr: int, a: int)
    requires 1 <= curr <= last && last > 1 && a >= 1
    ensures CurrCount(PageSection(last, curr, a)) == 1
  {
    var adjCount := a * 2;
    if last < 7 + adjCount {
      assert PageSection(last, curr, a) == RangeEntries(1, last + 1, curr);
      CurrCountRange(1, last + 1, curr);
    } else if curr < 1 + adjCount {
      NearStartSingleCurrent(last, curr, a);
    } else if last - adjCount > curr && curr > adjCount {
      MiddleSingleCurrent(last, curr, a);
    } else {
      NearEndSingleCurrent(last, curr, a);
    }
  }

  /** In every layout the current page is shown, and shown once. */
  lemma SingleCurrent(p: Paginator, adjacents: int)
    requires Valid(p) && adjacents >= 0 && HasPages(p)
    ensures CurrCount(GetPages(p, adjacents)) == 1
  {
    var section := PageSection(p.lastPage, p.currPage, EffectiveAdjacents(adjacents));
    SectionSingleCurrent(p.lastPage, p.currPage, EffectiveAdjacents(adjacents));
    CurrCountNone([PrevEntry(p)]);
    CurrCountNone([NextEntry(p)]);
    CurrCountAppend([PrevEntry(p)], section);
    CurrCountAppend([PrevEntry(p)] + section, [NextEntry(p)]);
  }

  /**
   The length of the list in each layout, `a` being the effective
   adjacents: every page plus the two edges when there is nothing to hide,
   otherwise a fixed length per layout.
   */
  lemma LayoutLengths(p: Paginator, adjacents: int)
    requires Valid(p) && adjacents >= 0 && HasPages(p)
    ensures
      var a := EffectiveAdjacents(adjacents);
      var n := |GetPages(p, adjacents)|;
      && (p.lastPage < 7 + 2 * a ==> n == p.lastPage + 2)
      && (p.lastPage >= 7 + 2 * a && p.currPage < 1 + 2 * a ==> n == 2 * a + 8)
      && (p.lastPage >= 7 + 2 * a && 2 * a < p.currPage < p.lastPage - 2 * a ==> n == 2 * a + 9)
      && (p.lastPage >= 7 + 2 * a && 1 + 2 * a <= p.currPage && p.lastPage - 2 * a <= p.currPage
          ==> n == 3 * a + 7)
  {
  }

  /** With nothing to hide, every page from 1 to the last is listed, in order. */
  lemma NoHideListsEveryPage(p: Paginator, adjacents: int)
    requires Valid(p) && adjacents >= 0 && HasPages(p)
    requires p.lastPage < 7 + 2 * EffectiveAdjacents(adjacents)
    ensures
      var r := GetPages(p, adjacents);
      forall k :: 1 <= k <= p.lastPage ==>
        Numbered(r[k]) && r[k].number == k && (r[k].Curr? <==> k == p.currPage)
  {
  }

  /** Some entry of `s` shows page `k`. */
  predicate Listed(s: seq<Entry>, k: int) {
    exists i :: 0 <= i < |s| && Numbered(s[i]) && s[i].number == k
  }

  lemma {:induction false} ListedConcat(s: seq<Entry>, t: seq<Entry>, k: int)
    ensures Listed(s + t, k) <==> Listed(s, k) || Listed(t, k)
  {
    if Listed(s + t, k) {
      var i :| 0 <= i < |s + t| && Numbered((s + t)[i]) && (s + t)[i].number == k;
      if i < |s| {
        assert s[i] == (s + t)[i];
      } else {
        assert t[i - |s|] == (s + t)[i];
      }
    }
    if Listed(s, k) {
      var i :| 0 <= i < |s| && Numbered(s[i]) && s[i].number == k;
      assert (s + t)[i] == s[i];
    } else if Listed(t, k) {
      var i :| 0 <= i < |t| && Numbered(t[i]) && t[i].number == k;
      assert (s + t)[|s| + i] == t[i];
    }
  }

  /** A range lists exactly the pages from `start` up to, not including, `stop`. */
  lemma RangeListed(start: int, stop: int, curr: int, k: int)
    ensures Listed(RangeEntries(start, stop, curr), k) <==> start <= k < stop
  {
    var r := RangeEntries(start, stop, curr);
    if start <= k < stop {
      assert Numbered(r[k - start]) && r[k - start].number == k;
    }
  }

  /** The fixed opening of the middle and near-end layouts lists pages 1 and 2. */
  lemma HeadListed(k: int)
    ensures Listed([Page(1), Page(2), Ellip], k) <==> k == 1 || k == 2
  {
    var s := [Page(1), Page(2), Ellip];
    if k == 1 {
      assert Numbered(s[0]) && s[0].number == k;
    } else if k == 2 {
      assert Numbered(s[1]) && s[1].number == k;
    }
  }

  /** The fixed closing of the near-start and middle layouts lists the last two pages. */
  lemma TailListed(last: int, k: int)
    ensures Listed([Ellip, Page(last - 1), Page(last)], k) <==> k == last - 1 || k == last
  {
    var s := [Ellip, Page(last - 1), Page(last)];
    if k == last - 1 {
      assert Numbered(s[1]) && s[1].number == k;
    } else if k == last {
      assert Numbered(s[2]) && s[2].number == k;
    }
  }

  /** Close to the beginning only later pages are hidden: 1 to 3+2a and the last two are shown. */
  lemma NearStartShows(last: int, curr: int, a: int, k: int)
    requires a >= 1 && 1 <= curr < 1 + 2 * a && last >= 7 + 2 * a
    ensures Listed(NearStart(last, curr, a), k) <==> 1 <= k <= 3 + 2 * a || k == last - 1 || k == last
  {
    RangeListed(1, 4 + 2 * a, curr, k);
    TailListed(last, k);
    ListedConcat(RangeEntries(1, 4 + 2 * a, curr), [Ellip, Page(last - 1), Page(last)], k);
  }

  /**
   In the middle some front and some back pages are hidden: pages 1 and 2,
   the window of `a` pages around the current one, and the last two are shown.
   */
  lemma MiddleShows(last: int, curr: int, a: int, k: int)
    requires a >= 1 && last >= 7 + 2 * a && 2 * a < curr < last - 2 * a
    ensures Listed(Middle(last, curr, a), k) <==>
      k == 1 || k == 2 || curr - a <= k <= curr + a || k == last - 1 || k == last
  {
    var head := [Page(1), Page(2), Ellip];
    var mid := RangeEntries(curr - a, curr + a + 1, curr);
    var tail := [Ellip, Page(last - 1), Page(last)];
    HeadListed(k);
    RangeListed(curr - a, curr + a + 1, curr, k);
    TailListed(last, k);
    ListedConcat(head, mid, k);
    ListedConcat(head + mid, tail, k);
  }

  /** Close to the end only early pages are hidden: 1, 2 and last-1-3a to the last are shown. */
  lemma NearEndShows(last: int, curr: int, a: int, k: int)
    requires a >= 1 && last >= 7 + 2 * a && last - 2 * a <= curr <= last
    ensures Listed(NearEnd(last, curr, a), k) <==> k == 1 || k == 2 || last - 1 - 3 * a <= k <= last
  {
    var head := [Page(1), Page(2), Ellip];
    HeadListed(k);
    RangeListed(last - (1 + a * 3), last + 1, curr, k);
    ListedConcat(head, RangeEntries(last - (1 + a * 3), last + 1, curr), k);
  }

  /**
   Each layout lists every existing page within `a` of the current one,
   except that the near-start layout stops at page 3+2a.
   */
  lemma SectionListsAdjacent(last: int, curr: int, a: int, k: int)
    requires 1 <= curr <= last && last > 1 && a >= 1
    requires 1 <= k <= last && curr - a <= k <= curr + a
    requires !(last >= 7 + 2 * a && curr < 1 + 2 * a) || k <= 3 + 2 * a || k >= last - 1
    ensures Listed(PageSection(last, curr, a), k)
  {
    var adjCount := a * 2;
    if last < 7 + adjCount {
      RangeListed(1, last + 1, curr, k);
    } else if curr < 1 + adjCount {
      NearStartShows(last, curr, a, k);
    } else if last - adjCount > curr && curr > adjCount {
      MiddleShows(last, curr, a, k);
    } else {
      NearEndShows(last, curr, a, k);
    }
  }

  /**
   Every existing page within `adjacents` of the current page is listed,
   except, in the near-start layout, pages above 3+2a (other than the last
   two). For up to three adjacents that exception never applies.
   */
  lemma AdjacentsVisible(p: Paginator, adjacents: int)
    requires Valid(p) && adjacents >= 0 && HasPages(p)
    ensures
      var a := EffectiveAdjacents(adjacents);
      forall k :: 1 <= k <= p.lastPage && p.currPage - a <= k <= p.currPage + a &&
        (!(p.lastPage >= 7 + 2 * a && p.currPage < 1 + 2 * a) || k <= 3 + 2 * a || k >= p.lastPage - 1)
        ==> Listed(GetPages(p, adjacents), k)
    ensures
      var a := EffectiveAdjacents(adjacents);
      a <= 3 ==>
        forall k :: 1 <= k <= p.lastPage && p.currPage - a <= k <= p.currPage + a ==>
          Listed(GetPages(p, adjacents), k)
  {
    var a := EffectiveAdjacents(adjacents);
    var section := PageSection(p.lastPage, p.currPage, a);
    forall k | 1 <= k <= p.lastPage && p.currPage - a <= k <= p.currPage + a &&
        (!(p.lastPage >= 7 + 2 * a && p.currPage < 1 + 2 * a) || k <= 3 + 2 * a || k >= p.lastPage - 1)
      ensures Listed(GetPages(p, adjacents), k)
    {
      SectionListsAdjacent(p.lastPage, p.currPage, a, k);
      ListedConcat([PrevEntry(p)], section, k);
      ListedConcat([PrevEntry(p)] + section, [NextEntry(p)], k);
    }
  }

  /** `adjacents = 0` is indistinguishable from the default of 1. */
  lemma ZeroAdjacentsAsOne(p: Paginator)
    requires Valid(p)
    ensures GetPages(p, 0) == GetPages(p, 1)
  {
  }

  /** The edge entries of the page list carry what the pager maps prev and next to. */
  lemma PagerMatchesPageList(p: Paginator, adjacents: int)
    requires Valid(p) && adjacents >= 0 && HasPages(p)
    ensures
      var r := GetPages(p, adjacents);
      var pager := GetPager(p);
      r[0].target == pager["prev"] && r[|r| - 1].target == pager["next"]
  {
  }
}
