# py-paginator in Dafny

A model of the `Paginator` class of py-paginator, which turns a total item
count, a page size and a current page into the numbers a pagination widget
shows. The model covers both copies of the class: the package version
(`py_paginator/paginator.py`) and the older single-module version
(`py_paginator.py`).

- `wrappers.dfy` — `Option`, the model of Python's `None`.
- `page_numbers.dfy` (module `PageNumbers`) — the pagination state as an
  immutable record. `Normalize` is `_process_page_numbers`: the last page
  is the ceiling of items over limit, an out-of-range current page falls
  back to 1, and prev/next/offset follow the current page. The two setters
  return the re-derived state. `Valid` is the invariant every derived state
  keeps. The module also holds the boolean queries and the edge pager
  `get_pager`, a dict modelled as `map<string, Option<int>>`: a key whose
  Python value is `None` stays present with value `None`.
- `page_list.dfy` (module `PageList`) — `get_pages`. An `Entry` is one of
  `Prev`, `Next`, `Page`, `Curr` or `Ellip`, standing for the source's
  `('prev', …)`, `('next', …)`, `('page', n)`, `('curr', n)` and
  `('ellip', '...')` tuples. `RangeEntries` is `_append_range_pages`.
  `PageSection` is the layout choice, with the source's threshold
  arithmetic kept exactly, including its second guard. That guard always
  holds when it is reached.
- `page_list_facts.dfy` (module `PageListFacts`) — the properties of the
  page list that need a case analysis over the four layouts: no-hide,
  near-start, middle and near-end.
- `legacy_paginator.dfy` (module `LegacyPaginator`) — the older class. Its
  constructor performs the same derivation. Its `get_pages` is a copy of
  the package algorithm, and it is proved equal to it. Its `get_pager`
  blanks `first`/`prev` and `next`/`last` in pairs and adds
  `curr_page`/`last_page` keys.
- `scenarios.dfy` (module `Scenarios`) — concrete lists: the golden outputs
  of `test_paginator.py`, the empty collection, and the layout quirks.

Quirks kept as the code has them. The model does not claim that page
numbers always increase or are always at least 1:
- With one adjacent, 25 pages and page 3, the middle layout lists page 2
  twice (`Scenarios.DuplicatePageTwo`).
- With large `adjacents`, the near-end range starts below 1. It then lists
  pages ≤ 0 and repeats pages 1 and 2 (`Scenarios.NearEndBelowOne`).
- The near-start layout always shows pages 1 to 3+2a. For `adjacents` of 4
  or more, some pages within `adjacents` of the current page are therefore
  hidden (`Scenarios.NearStartHidesAdjacent`). Every other page within
  `adjacents` of the current one is listed, and for up to three adjacents
  no page is hidden at all (`PageListFacts.AdjacentsVisible`). Each layout
  lists exactly the pages `PageListFacts.NearStartShows`,
  `PageListFacts.MiddleShows` and `PageListFacts.NearEndShows` name.
- `get_pages` defaults to one adjacent page and the constructor to current
  page 1; the Dafny functions carry the same default arguments
  (`Scenarios.FewPages`).
- `adjacents = 0` means the default of 1 (`PageListFacts.ZeroAdjacentsAsOne`).

Edge cases of the code itself:
- With no items the last page is 0 and the current page stays 1, outside
  `[1, last_page]`; `Valid` therefore allows `currPage == 1` with
  `lastPage == 0`.
- A page size of 0 makes the division fail, so the model requires a
  positive page size.

## Model

| member | source | states |
|---|---|---|
| PageNumbers.CeilDiv | py_paginator/paginator.py:144 | the page count is the least non-negative q with q·limit ≥ total, i.e. the exact ceiling of total/limit |
| PageNumbers.Normalize | py_paginator/paginator.py:143-150 | the derived state is valid; the inputs are kept; the last page is the ceiling; the current page is kept when in [1, last] and reset to 1 otherwise |
| PageNumbers.NormalizeIdempotent | py_paginator/paginator.py:143-149 | re-running the derivation on a derived state changes nothing |
| PageNumbers.ItemOffsetInRange | py_paginator/paginator.py:147-149 | the item offset is non-negative and, when there are items, points at an existing item |
| PageNumbers.SetCurrPage | py_paginator/paginator.py:33-36 | setting the page keeps items, limit and last page; a page in [1, last] is kept unchanged, any other becomes 1 |
| PageNumbers.SetItemLimit | py_paginator/paginator.py:45-48 | setting the page size keeps the items and re-derives the state; the current page survives exactly when it still exists |
| PageNumbers.SetCurrPageRestore | py_paginator/paginator.py:33-36 | moving to any page and then back to the previous one restores the whole state |
| PageNumbers.SetItemLimitRestore | py_paginator/paginator.py:45-48 | changing the page size and changing it back restores the state whenever the current page survived the change, including the empty collection |
| PageNumbers.QueriesMeaning | py_paginator/paginator.py:57-72 | last page above 1 iff the items overflow one page; current page above 1 iff its offset is positive; current page below the last iff items remain after it |
| PageNumbers.HasPages | py_paginator/paginator.py:57-60 | has_pages holds exactly when the items overflow one page |
| PageNumbers.HasPrev | py_paginator/paginator.py:63-66 | has_prev holds exactly when the current page does not start at item 0 |
| PageNumbers.HasNext | py_paginator/paginator.py:69-72 | has_next holds exactly when items remain after the current page |
| PageNumbers.GetPager | py_paginator/paginator.py:75-87 | empty iff there are not several pages; otherwise first=1, curr, last, and prev/next are None exactly at the first/last page and the neighbouring page otherwise |
| PageList.RangeEntries | py_paginator/paginator.py:153-158 | one entry per page of [start, stop), in order, and it is `curr` exactly for the current page |
| PageList.EffectiveAdjacents | py_paginator/paginator.py:97 | 0 becomes 1 and any positive value is kept |
| PageList.NoHide | py_paginator/paginator.py:109-110 | with nothing to hide, one entry per page, page 1 first and the last page last, only the current page marked `curr` |
| PageList.NearStart | py_paginator/paginator.py:113-117 | the near-start layout has 2a+6 entries, only pages and ellipses, page 1 first, the last page last, none above it |
| PageList.Middle | py_paginator/paginator.py:119-126 | the middle layout has 2a+7 entries, only pages and ellipses, page 1 first, the last page last, none above it |
| PageList.NearEnd | py_paginator/paginator.py:128-132 | the near-end layout has 3a+5 entries, only pages and ellipses, page 1 first, the last page last, none above it, although its range may start below 1 |
| PageList.PageSection | py_paginator/paginator.py:109-132 | every layout contains only page and ellipsis entries, starts with page 1, ends with the last page, never lists a page above the last, and marks only the current page as `curr` |
| PageList.GetPages | py_paginator/paginator.py:90-140 | empty iff there are not several pages; otherwise a `prev` entry first and a `next` entry last, each None exactly at the first/last page; in between only pages and ellipses, none above the last page |
| PageListFacts.CurrCountRange | py_paginator/paginator.py:153-158 | a range holds one `curr` entry when the current page lies in it and none otherwise |
| PageListFacts.NearStartSingleCurrent | py_paginator/paginator.py:113-117 | the near-start layout shows the current page exactly once |
| PageListFacts.MiddleSingleCurrent | py_paginator/paginator.py:119-126 | the middle layout shows the current page exactly once, even when it repeats page 2 |
| PageListFacts.NearEndSingleCurrent | py_paginator/paginator.py:128-132 | the near-end layout shows the current page exactly once, even when it repeats pages 1 and 2 |
| PageListFacts.SectionSingleCurrent | py_paginator/paginator.py:109-132 | every layout shows the current page exactly once |
| PageListFacts.SingleCurrent | py_paginator/paginator.py:100-138 | the full list holds exactly one `curr` entry |
| PageListFacts.LayoutLengths | py_paginator/paginator.py:109-132 | the list length is last+2 when nothing is hidden, 2a+8 near the start, 2a+9 in the middle and 3a+7 near the end |
| PageListFacts.NoHideListsEveryPage | py_paginator/paginator.py:109-110 | with nothing to hide, entry k shows page k for every page k, and is `curr` exactly for the current page |
| PageListFacts.RangeListed | py_paginator/paginator.py:153-158 | a range lists page k iff start ≤ k < stop |
| PageListFacts.HeadListed | py_paginator/paginator.py:120-122 | the opening "1, 2, …" lists exactly pages 1 and 2 |
| PageListFacts.TailListed | py_paginator/paginator.py:115-117 | the closing "…, last-1, last" lists exactly the last two pages |
| PageListFacts.NearStartShows | py_paginator/paginator.py:113-117 | near the start, page k is listed iff 1 ≤ k ≤ 3+2a or k is one of the last two pages |
| PageListFacts.MiddleShows | py_paginator/paginator.py:119-126 | in the middle, page k is listed iff it is page 1 or 2, within `a` of the current page, or one of the last two pages |
| PageListFacts.NearEndShows | py_paginator/paginator.py:128-132 | near the end, page k is listed iff it is page 1 or 2 or last-1-3a ≤ k ≤ last |
| PageListFacts.SectionListsAdjacent | py_paginator/paginator.py:109-132 | each layout lists every existing page within `a` of the current page, except pages above 3+2a (other than the last two) in the near-start layout |
| PageListFacts.AdjacentsVisible | py_paginator/paginator.py:95-138 | every existing page within `adjacents` of the current page is listed, with the same near-start exception; for up to three adjacents with no exception |
| PageListFacts.ZeroAdjacentsAsOne | py_paginator/paginator.py:97 | adjacents 0 yields the same list as adjacents 1 |
| PageListFacts.PagerMatchesPageList | py_paginator/paginator.py:83-85 | the prev/next values of the pager are the targets of the list's first and last entries |
| LegacyPaginator.New | py_paginator.py:26-37 | the legacy constructor yields a valid state with the ceiling page count, the clamped current page and prev/next/offset from it |
| LegacyPaginator.HasPagesLegacy | py_paginator.py:40-43 | has_pages iff the items overflow one page |
| LegacyPaginator.GetPager | py_paginator.py:46-68 | empty iff there are not several pages; otherwise curr_page and curr are the current page, last_page the last; first/prev are None together iff on page 1, next/last None together iff on the last page |
| LegacyPaginator.Layout | py_paginator.py:90-113 | the legacy layout branch chooses the same entries as the package layout in every case |
| LegacyPaginator.GetPages | py_paginator.py:71-121 | empty iff the legacy has_pages fails; otherwise a prev entry (None on page 1), the package layout, and a next entry (None on the last page) |
| LegacyPaginator.GetPagesAgree | py_paginator.py:71-129 | the legacy get_pages yields the same list as the package one for every state and adjacents |
| LegacyPaginator.PagersAgree | py_paginator.py:51-68 | the two pagers agree on prev, curr and next; the legacy one blanks first on page 1 and last on the last page |
| Scenarios.StartPage | test_paginator.py:21-48 | 490 items at 20 per page, page 1: 25 pages, the expected pager and the near-start list |
| Scenarios.MiddlePage | test_paginator.py:51-77 | 490 items at 20 per page, page 10: the page is kept, the expected pager and the middle list |
| Scenarios.FewPages | py_paginator/paginator.py:88-110 | 50 items at 10 per page with the default current page and adjacents: five pages, all listed |
| Scenarios.NoItems | py_paginator/paginator.py:143-149 | no items: last page 0, current page 1, offset 0, no queries true, empty pager and list |
| Scenarios.DuplicatePageTwo | py_paginator/paginator.py:119-123 | one adjacent, 25 pages, page 3: page 2 is listed twice |
| Scenarios.NearEndBelowOne | py_paginator/paginator.py:128-132 | ten adjacents, 27 pages, page 27: the list shows pages -4 to 0 and repeats pages 1 and 2 |
| Scenarios.NearStartWideAdjacents | py_paginator/paginator.py:113-117 | four adjacents, 15 pages, page 8: the near-start list stops at page 11 |
| Scenarios.NearStartHidesAdjacent | py_paginator/paginator.py:113-117 | four adjacents, 15 pages, page 8: page 12 is not listed |
| Scenarios.LegacyStartPage | py_paginator.py:51-67 | legacy pager for 490 items at 20 per page, page 1 |

## Left out

- Integer coercion with `int()` and the TypeError/ValueError it raises on non-numeric input: every input is an `int`. The setters skip the coercion, which makes no difference once inputs are typed.
- Floating-point division in `math.ceil(float(total) / float(limit))`: replaced by exact integer ceiling division. Rounding for very large counts is not modelled.
- A page size of 0 or less, a negative item count and negative `adjacents`: these are preconditions. The code raises ZeroDivisionError for a page size of 0 and does not handle the other cases meaningfully.
- The mutable `page_list` field: `get_pages` is a pure function that returns a fresh list, and the setters return a new state.
- `total_pages` and `first_page`: `total_pages` is the record's `lastPage`, and `first_page` is the constant `FirstPage` = 1.
- Packaging metadata (`setup.py`, `py_paginator/__init__.py`, the legacy module's dunder fields): these contain no behaviour.
- PageListFacts.AdjacentsVisible: excludes, in the near-start layout, the pages above 3+2a other than the last two, because the code hides them (see `Scenarios.NearStartHidesAdjacent`); every other page within `adjacents` is covered.
