/** The list query of the case-documents page: the documents are filtered by a search term and
    a category, sorted by date or by title, and cut into pages of nine; the Previous and Next
    buttons step the page number. The React state of the page is a `PageState` record, each
    handler a function from the old state to the new one, and each render a `View`. */
module CaseDocumentsPage {
  import opened Seqs
  import opened Strings
  import opened StableSort

  datatype Category = Legal | Medical | Financial | Technical

  /** `date` is an abstract timestamp: the value `new Date(doc.date).getTime()` gives. */
  datatype Document = Document(id: nat, title: string, description: string, date: int, category: Category)

  /** The two options of the sort select: `'date'` and `'title'`. */
  datatype SortKey = ByDate | ByTitle

  /** The options of the category select: `'All'` or one category. */
  datatype CategoryFilter = All | Only(category: Category)

  /** What the page takes from the host: the lower-case mapping of one character
      (`toLowerCase`) and the collation of two strings (`localeCompare`). */
  datatype Locale = Locale(lower: char -> char, localeCompare: (string, string) -> int)

  /** `compare(a, b) <= 0` is total and transitive, as a consistent comparator must be. */
  ghost predicate ConsistentCollation(compare: (string, string) -> int) {
    && (forall a, b :: compare(a, b) <= 0 || compare(b, a) <= 0)
    && (forall a, b, c :: compare(a, b) <= 0 && compare(b, c) <= 0 ==> compare(a, c) <= 0)
  }

  const ItemsPerPage: nat := 9

  // ---------------------------------------------------------------------------------------
  // Filtering

  /** The lower-cased title includes the lower-cased search term, and the category filter is
      `All` or names the document's category. An empty search term matches every title, and a
      term longer than the title matches none. */
  predicate Matches(locale: Locale, searchTerm: string, filterCategory: CategoryFilter, doc: Document)
    ensures Matches(locale, searchTerm, filterCategory, doc) ==> filterCategory == All || filterCategory == Only(doc.category)
    ensures searchTerm == "" ==>
      (Matches(locale, searchTerm, filterCategory, doc) <==> filterCategory == All || filterCategory == Only(doc.category))
    ensures |searchTerm| > |doc.title| ==> !Matches(locale, searchTerm, filterCategory, doc)
  {
    IncludesEmpty(LowerCase(locale.lower, doc.title));
    && Includes(LowerCase(locale.lower, doc.title), LowerCase(locale.lower, searchTerm))
    && (filterCategory.All? || filterCategory.category == doc.category)
  }

  function MatchesQuery(locale: Locale, searchTerm: string, filterCategory: CategoryFilter): Document -> bool {
    (doc: Document) => Matches(locale, searchTerm, filterCategory, doc)
  }

  /** `filteredDocuments`. */
  function FilterDocuments(locale: Locale, docs: seq<Document>, searchTerm: string, filterCategory: CategoryFilter): (r: seq<Document>)
    ensures |r| <= |docs|
    ensures forall i :: 0 <= i < |r| ==> Matches(locale, searchTerm, filterCategory, r[i])
  {
    Filter(MatchesQuery(locale, searchTerm, filterCategory), docs)
  }

  /** Soundness and completeness: a document is kept exactly when it matches, and then as
      many times as it occurs in the input. */
  lemma FilterDocumentsKeepsExactlyMatches(locale: Locale, docs: seq<Document>, searchTerm: string, filterCategory: CategoryFilter, doc: Document)
    ensures doc in FilterDocuments(locale, docs, searchTerm, filterCategory)
        <==> doc in docs && Matches(locale, searchTerm, filterCategory, doc)
    ensures multiset(FilterDocuments(locale, docs, searchTerm, filterCategory))[doc]
         == if Matches(locale, searchTerm, filterCategory, doc) then multiset(docs)[doc] else 0
  {
    FilterCount(MatchesQuery(locale, searchTerm, filterCategory), docs, doc);
  }

  /** Kept documents stay in their original relative order. */
  lemma FilterDocumentsKeepsOrder(locale: Locale, a: seq<Document>, b: seq<Document>, searchTerm: string, filterCategory: CategoryFilter)
    ensures FilterDocuments(locale, a + b, searchTerm, filterCategory)
         == FilterDocuments(locale, a, searchTerm, filterCategory) + FilterDocuments(locale, b, searchTerm, filterCategory)
  {
    FilterConcat(MatchesQuery(locale, searchTerm, filterCategory), a, b);
  }

  /** With an empty search box and `All`, every document is listed, in its order. */
  lemma EmptyQueryKeepsAll(locale: Locale, docs: seq<Document>)
    ensures FilterDocuments(locale, docs, "", All) == docs
  {
    forall i | 0 <= i < |docs| ensures MatchesQuery(locale, "", All)(docs[i]) {
      IncludesEmpty(LowerCase(locale.lower, docs[i].title));
    }
    FilterKeepsAll(MatchesQuery(locale, "", All), docs);
  }

  // ---------------------------------------------------------------------------------------
  // Sorting

  /** The comparator of the sort: the later date first, or the titles in collation order. */
  function Compare(sortBy: SortKey, locale: Locale, a: Document, b: Document): (r: int)
    ensures sortBy == ByDate ==> (r < 0 <==> a.date > b.date) && (r == 0 <==> a.date == b.date)
    ensures sortBy == ByTitle ==> r == locale.localeCompare(a.title, b.title)
  {
    if sortBy == ByDate then b.date - a.date else locale.localeCompare(a.title, b.title)
  }

  /** `a` may stay before `b`: the comparator does not put `b` first. By date, that is when
      `a` is not older than `b`; by title, when `localeCompare` does not put `b`'s title first. */
  function Precedes(sortBy: SortKey, locale: Locale): (r: (Document, Document) -> bool)
    ensures sortBy == ByDate ==> forall a, b :: r(a, b) <==> a.date >= b.date
    ensures sortBy == ByTitle ==> forall a, b :: r(a, b) <==> locale.localeCompare(a.title, b.title) <= 0
  {
    (a: Document, b: Document) => Compare(sortBy, locale, a, b) <= 0
  }

  /** `sortedDocuments`: a sorted copy of the filtered documents, a permutation of them. */
  function SortDocuments(sortBy: SortKey, locale: Locale, docs: seq<Document>): (r: seq<Document>)
    ensures |r| == |docs|
    ensures multiset(r) == multiset(docs)
  {
    Sort(Precedes(sortBy, locale), docs)
  }

  /** The date comparator is always consistent; the title comparator is when the collation is. */
  lemma PrecedesIsTotalPreorder(sortBy: SortKey, locale: Locale)
    requires sortBy == ByDate || ConsistentCollation(locale.localeCompare)
    ensures TotalPreorder(Precedes(sortBy, locale))
  {
  }

  /** By date, the newest document comes first. */
  lemma SortByDateNewestFirst(locale: Locale, docs: seq<Document>)
    ensures var r := SortDocuments(ByDate, locale, docs);
      forall i, j :: 0 <= i < j < |r| ==> r[i].date >= r[j].date
  {
    PrecedesIsTotalPreorder(ByDate, locale);
    SortSorted(Precedes(ByDate, locale), docs);
    var r := SortDocuments(ByDate, locale, docs);
    forall i, j | 0 <= i < j < |r| ensures r[i].date >= r[j].date {
      assert Precedes(ByDate, locale)(r[i], r[j]);
    }
  }

  /** By title, the titles come in collation order. */
  lemma SortByTitleAscending(locale: Locale, docs: seq<Document>)
    requires ConsistentCollation(locale.localeCompare)
    ensures var r := SortDocuments(ByTitle, locale, docs);
      forall i, j :: 0 <= i < j < |r| ==> locale.localeCompare(r[i].title, r[j].title) <= 0
  {
    PrecedesIsTotalPreorder(ByTitle, locale);
    SortSorted(Precedes(ByTitle, locale), docs);
    var r := SortDocuments(ByTitle, locale, docs);
    forall i, j | 0 <= i < j < |r| ensures locale.localeCompare(r[i].title, r[j].title) <= 0 {
      assert Precedes(ByTitle, locale)(r[i], r[j]);
    }
  }

  /** Documents the comparator cannot tell apart keep their filtered order. */
  lemma SortKeepsTiesInOrder(sortBy: SortKey, locale: Locale, docs: seq<Document>, x: Document)
    requires sortBy == ByDate || ConsistentCollation(locale.localeCompare)
    ensures var ties := EquivalentTo(Precedes(sortBy, locale), x);
      Filter(ties, SortDocuments(sortBy, locale, docs)) == Filter(ties, docs)
  {
    PrecedesIsTotalPreorder(sortBy, locale);
    EquivalenceClass(Precedes(sortBy, locale), x);
    SortStable(Precedes(sortBy, locale), docs, EquivalentTo(Precedes(sortBy, locale), x));
  }

  function DatedAt(date: int): Document -> bool {
    (doc: Document) => doc.date == date
  }

  /** By date, documents of the same date keep their filtered order. */
  lemma SameDateKeepsOrder(locale: Locale, docs: seq<Document>, date: int)
    ensures Filter(DatedAt(date), SortDocuments(ByDate, locale, docs)) == Filter(DatedAt(date), docs)
  {
    SortStable(Precedes(ByDate, locale), docs, DatedAt(date));
  }

  /** Any sorted, stable ordering of the filtered documents is `SortDocuments`': whichever
      algorithm the host's `sort` uses, the page shows this order. */
  lemma SortDocumentsIsTheStableSort(sortBy: SortKey, locale: Locale, docs: seq<Document>, r: seq<Document>)
    requires sortBy == ByDate || ConsistentCollation(locale.localeCompare)
    requires Sorted(Precedes(sortBy, locale), r)
    requires forall x :: Filter(EquivalentTo(Precedes(sortBy, locale), x), r)
                      == Filter(EquivalentTo(Precedes(sortBy, locale), x), docs)
    ensures r == SortDocuments(sortBy, locale, docs)
  {
    PrecedesIsTotalPreorder(sortBy, locale);
    SortIsUnique(Precedes(sortBy, locale), docs, r);
  }

  // ---------------------------------------------------------------------------------------
  // Pagination

  /** `currentItems`: `sorted.slice(indexOfFirstItem, indexOfLastItem)`. */
  function CurrentItems(sorted: seq<Document>, currentPage: int): (r: seq<Document>)
    ensures |r| <= ItemsPerPage
    ensures currentPage >= 1 ==>
      r == sorted[Min((currentPage - 1) * ItemsPerPage, |sorted|)..Min(currentPage * ItemsPerPage, |sorted|)]
    ensures currentPage >= 1 && (currentPage - 1) * ItemsPerPage >= |sorted| ==> r == []
    ensures currentPage == 0 ==> r == []
  {
    var indexOfLastItem := currentPage * ItemsPerPage;
    var indexOfFirstItem := indexOfLastItem - ItemsPerPage;
    Slice(sorted, indexOfFirstItem, indexOfLastItem)
  }

  /** `totalPages`: `Math.ceil(n / 9)`, the fewest pages of nine that hold `n` documents. */
  function TotalPages(n: nat): (r: nat)
    ensures n <= r * ItemsPerPage
    ensures n > 0 ==> (r - 1) * ItemsPerPage < n
    ensures r == 0 <==> n == 0
  {
    (n + ItemsPerPage - 1) / ItemsPerPage
  }

  /** Every page before the last is full, the last holds the rest (one to nine documents), and
      the pages after it are empty. */
  lemma PageSizes(sorted: seq<Document>, page: int)
    requires page >= 1
    ensures var n, last := |sorted|, TotalPages(|sorted|);
      && (page < last ==> |CurrentItems(sorted, page)| == ItemsPerPage)
      && (page == last ==> |CurrentItems(sorted, page)| == n - (last - 1) * ItemsPerPage)
      && (page == last ==> 1 <= |CurrentItems(sorted, page)| <= ItemsPerPage)
      && (page > last ==> CurrentItems(sorted, page) == [])
  {
  }

  /** Pages 1 to `k`, one after the other. */
  ghost function PagesThrough(sorted: seq<Document>, k: nat): seq<Document> {
    if k == 0 then [] else PagesThrough(sorted, k - 1) + CurrentItems(sorted, k)
  }

  /** The first `k` pages are the first `9 * k` documents (or all of them). */
  lemma {:induction false} PagesThroughIsPrefix(sorted: seq<Document>, k: nat)
    ensures PagesThrough(sorted, k) == sorted[..Min(k * ItemsPerPage, |sorted|)]
  {
    if k > 0 {
      PagesThroughIsPrefix(sorted, k - 1);
      var a, b := Min((k - 1) * ItemsPerPage, |sorted|), Min(k * ItemsPerPage, |sorted|);
      assert CurrentItems(sorted, k) == sorted[a..b];
      assert sorted[..a] + sorted[a..b] == sorted[..b];
    }
  }

  /** Pages 1 to `totalPages` put together give back the whole sorted list. */
  lemma PagesCoverSorted(sorted: seq<Document>)
    ensures PagesThrough(sorted, TotalPages(|sorted|)) == sorted
  {
    PagesThroughIsPrefix(sorted, TotalPages(|sorted|));
  }

  /** The document at position `i` is shown on page `i / 9 + 1`, at position `i % 9`. */
  lemma ItemOnItsPage(sorted: seq<Document>, i: nat)
    requires i < |sorted|
    ensures var page := i / ItemsPerPage + 1;
      && 1 <= page <= TotalPages(|sorted|)
      && i % ItemsPerPage < |CurrentItems(sorted, page)|
      && CurrentItems(sorted, page)[i % ItemsPerPage] == sorted[i]
  {
  }

  // ---------------------------------------------------------------------------------------
  // The Previous and Next buttons

  /** The Previous button is disabled on page 1: exactly where pressing it would leave the
      page as it is. */
  predicate PreviousDisabled(currentPage: int)
    ensures PreviousDisabled(currentPage) <==> PreviousPage(currentPage) == currentPage
  {
    currentPage == 1
  }

  /** The Next button is disabled on the last page: exactly where pressing it would leave the
      page as it is. */
  predicate NextDisabled(currentPage: int, totalPages: nat)
    ensures NextDisabled(currentPage, totalPages) <==> NextPage(currentPage, totalPages) == currentPage
  {
    currentPage == totalPages
  }

  /** `prev => Math.max(prev - 1, 1)`: one page back, but never before page 1. */
  function PreviousPage(prev: int): (r: int)
    ensures r >= 1
    ensures prev >= 2 ==> r == prev - 1
    ensures prev <= 1 ==> r == 1
  {
    if prev - 1 > 1 then prev - 1 else 1
  }

  /** `prev => Math.min(prev + 1, totalPages)`: one page on, but never past the last page. */
  function NextPage(prev: int, totalPages: nat): (r: int)
    ensures r <= totalPages
    ensures prev < totalPages ==> r == prev + 1
    ensures prev >= totalPages ==> r == totalPages
    ensures prev >= 0 ==> r >= 0
  {
    if prev + 1 < totalPages then prev + 1 else totalPages
  }

  /** On a page in range, both buttons keep the page in range. */
  lemma ButtonsKeepPageInRange(currentPage: int, totalPages: nat)
    requires 1 <= currentPage <= totalPages
    ensures 1 <= PreviousPage(currentPage) <= totalPages
    ensures 1 <= NextPage(currentPage, totalPages) <= totalPages
  {
  }

  // ---------------------------------------------------------------------------------------
  // The page's state, its handlers and what it renders

  /** The four `useState` values of the page. */
  datatype PageState = PageState(searchTerm: string, currentPage: int, sortBy: SortKey, filterCategory: CategoryFilter)

  /** The `useState` defaults: no search term, page 1, by date, all categories. */
  const InitialState: PageState := PageState("", 1, ByDate, All)

  /** What the user can do: type in the search box, pick a sort key or a category, or press
      one of the two buttons. */
  datatype Event = SearchTyped(term: string) | SortChosen(sortBy: SortKey) | CategoryChosen(filterCategory: CategoryFilter)
                 | PreviousPressed | NextPressed

  /** One render: the documents of the current page, and the "Page _ of _" line. */
  datatype View = View(items: seq<Document>, currentPage: int, totalPages: nat)

  /** A render reports the state's page as it is, never clamped, and `ceil(matches / 9)` pages.
      A page from 1 to the page count shows at least one document; page 0 and the pages past
      the count show none. */
  function Render(locale: Locale, docs: seq<Document>, s: PageState): (v: View)
    ensures v.currentPage == s.currentPage
    ensures v.totalPages == TotalPages(|FilterDocuments(locale, docs, s.searchTerm, s.filterCategory)|)
    ensures 1 <= |v.items| <= ItemsPerPage || v.items == []
    ensures 1 <= s.currentPage <= v.totalPages ==> v.items != []
    ensures s.currentPage == 0 || s.currentPage > v.totalPages ==> v.items == []
  {
    var filtered := FilterDocuments(locale, docs, s.searchTerm, s.filterCategory);
    var sorted := SortDocuments(s.sortBy, locale, filtered);
    View(CurrentItems(sorted, s.currentPage), s.currentPage, TotalPages(|sorted|))
  }

  /** A render shows at most nine documents, each one of the input documents that matches
      the search term and the category, out of `ceil(matches / 9)` pages. */
  lemma RenderShowsOnlyMatches(locale: Locale, docs: seq<Document>, s: PageState)
    ensures var v := Render(locale, docs, s);
      && |v.items| <= ItemsPerPage
      && v.currentPage == s.currentPage
      && v.totalPages == TotalPages(|FilterDocuments(locale, docs, s.searchTerm, s.filterCategory)|)
      && forall i :: 0 <= i < |v.items| ==>
           v.items[i] in docs && Matches(locale, s.searchTerm, s.filterCategory, v.items[i])
  {
    var filtered := FilterDocuments(locale, docs, s.searchTerm, s.filterCategory);
    var sorted := SortDocuments(s.sortBy, locale, filtered);
    var v := Render(locale, docs, s);
    forall i | 0 <= i < |v.items|
      ensures v.items[i] in docs && Matches(locale, s.searchTerm, s.filterCategory, v.items[i])
    {
      var d := v.items[i];
      assert d in sorted;
      assert d in multiset(sorted);
      assert d in filtered;
      FilterDocumentsKeepsExactlyMatches(locale, docs, s.searchTerm, s.filterCategory, d);
    }
  }

  /** The new state after one event. A disabled button does nothing; the page number is not
      reset when the search term, sort key or category changes. */
  function Step(locale: Locale, docs: seq<Document>, s: PageState, e: Event): (r: PageState)
    ensures e.SearchTyped? || e.SortChosen? || e.CategoryChosen? ==> r.currentPage == s.currentPage
    ensures e.SearchTyped? ==> r == s.(searchTerm := e.term)
    ensures e.SortChosen? ==> r == s.(sortBy := e.sortBy)
    ensures e.CategoryChosen? ==> r == s.(filterCategory := e.filterCategory)
    ensures e.PreviousPressed? ==> r == s.(currentPage := PreviousPage(s.currentPage))
    ensures e.NextPressed? ==> r == s.(currentPage := NextPage(s.currentPage, Render(locale, docs, s).totalPages))
  {
    match e
    case SearchTyped(term) => s.(searchTerm := term)
    case SortChosen(key) => s.(sortBy := key)
    case CategoryChosen(filter) => s.(filterCategory := filter)
    case PreviousPressed =>
      if PreviousDisabled(s.currentPage) then s else s.(currentPage := PreviousPage(s.currentPage))
    case NextPressed =>
      var totalPages := Render(locale, docs, s).totalPages;
      if NextDisabled(s.currentPage, totalPages) then s
      else s.(currentPage := NextPage(s.currentPage, totalPages))
  }

  /** The first render lists every document, newest first, on page 1: the first nine of them
      (or all, when there are fewer), out of `ceil(n / 9)` pages. */
  lemma InitialRender(locale: Locale, docs: seq<Document>)
    ensures var v := Render(locale, docs, InitialState);
      && v.currentPage == 1
      && v.totalPages == TotalPages(|docs|)
      && v.items == SortDocuments(ByDate, locale, docs)[..Min(ItemsPerPage, |docs|)]
  {
    EmptyQueryKeepsAll(locale, docs);
  }

  function Run(locale: Locale, docs: seq<Document>, s: PageState, events: seq<Event>): PageState
    decreases |events|
  {
    if events == [] then s else Run(locale, docs, Step(locale, docs, s, events[0]), events[1..])
  }

  /** Whatever the user does, the page number never goes below 0 (page 0 is reached only by
      pressing Next while nothing matches). */
  lemma {:induction false} PageNeverNegative(locale: Locale, docs: seq<Document>, s: PageState, events: seq<Event>)
    requires s.currentPage >= 0
    ensures Run(locale, docs, s, events).currentPage >= 0
    decreases |events|
  {
    if events != [] {
      PageNeverNegative(locale, docs, Step(locale, docs, s, events[0]), events[1..]);
    }
  }

  /** When nothing matches, Next (enabled on page 1 of 0) moves to page 0, which shows
      nothing, and Previous (enabled there) moves back to page 1. */
  lemma NextWithNoMatches(locale: Locale, docs: seq<Document>, s: PageState)
    requires FilterDocuments(locale, docs, s.searchTerm, s.filterCategory) == []
    requires s.currentPage == 1
    ensures var s' := Step(locale, docs, s, NextPressed);
      && Render(locale, docs, s).totalPages == 0
      && !NextDisabled(s.currentPage, Render(locale, docs, s).totalPages)
      && s'.currentPage == 0
      && Render(locale, docs, s').items == []
      && !PreviousDisabled(s'.currentPage)
      && Step(locale, docs, s', PreviousPressed).currentPage == 1
  {
  }

  /** No document matches a category none of them has. */
  lemma NoMatchesForAbsentCategory(locale: Locale, docs: seq<Document>, searchTerm: string, category: Category)
    requires forall i :: 0 <= i < |docs| ==> docs[i].category != category
    ensures FilterDocuments(locale, docs, searchTerm, Only(category)) == []
  {
    var filtered := FilterDocuments(locale, docs, searchTerm, Only(category));
    if filtered != [] {
      FilterDocumentsKeepsExactlyMatches(locale, docs, searchTerm, Only(category), filtered[0]);
      assert false;
    }
  }

  /** Ten to eighteen `Legal` documents: after Next the page is 2 of 2 and shows the documents
      past the first nine; picking `Medical` keeps page 2 although there are now no pages at
      all, and nothing is shown. */
  lemma StalePageAfterCategoryChange(locale: Locale, docs: seq<Document>)
    requires 9 < |docs| <= 18
    requires forall i :: 0 <= i < |docs| ==> docs[i].category == Legal
    ensures var s1 := Step(locale, docs, InitialState, NextPressed);
      var v1 := Render(locale, docs, s1);
      s1.currentPage == 2 && v1.totalPages == 2 && |v1.items| == |docs| - ItemsPerPage
    ensures var s := Run(locale, docs, InitialState, [NextPressed, CategoryChosen(Only(Medical))]);
      var v := Render(locale, docs, s);
      s.currentPage == 2 && v.totalPages == 0 && v.items == []
  {
    EmptyQueryKeepsAll(locale, docs);
    assert Render(locale, docs, InitialState).totalPages == 2;
    var s1 := Step(locale, docs, InitialState, NextPressed);
    assert s1 == InitialState.(currentPage := 2);
    PageSizes(SortDocuments(ByDate, locale, docs), 2);
    var s2 := Step(locale, docs, s1, CategoryChosen(Only(Medical)));
    assert s2 == PageState("", 2, ByDate, Only(Medical));
    NoMatchesForAbsentCategory(locale, docs, "", Medical);
    assert Run(locale, docs, s2, []) == s2;
    assert Run(locale, docs, s1, [CategoryChosen(Only(Medical))]) == s2;
  }
}
