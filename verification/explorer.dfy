/**
 * The course explorer page: a case-insensitive search over the catalogue's
 * course codes, shown as a growing prefix of 24 courses per page, with a
 * "load more" button while courses remain hidden.
 */
module Explorer {
  import opened Text
  import opened Seqs
  import opened Catalog

  const ItemsPerPage: nat := 24

  /** The page's state: the search box text and the number of pages shown (starting at 1). */
  datatype ExplorerState = ExplorerState(term: string, page: nat)

  const InitialState: ExplorerState := ExplorerState("", 1)

  /** The search test: the lower-cased code contains the lower-cased term. */
  function Matcher(term: string): Course -> bool {
    (c: Course) => Contains(ToLower(c.courseCode), ToLower(term))
  }

  /** `filteredCourses`: the whole catalogue for an empty term, else the matching courses in catalogue order. */
  function Filtered(catalog: seq<Course>, term: string): (r: seq<Course>)
    ensures term == "" ==> r == catalog
    ensures term != "" ==> forall c :: c in r <==> c in catalog && Contains(ToLower(c.courseCode), ToLower(term))
    ensures |r| <= |catalog|
  {
    if term == "" then catalog else Filter(catalog, Matcher(term))
  }

  /**
   * The filter keeps catalogue order: the matches of two catalogue parts are
   * the matches of the first followed by those of the second, and a single
   * course is kept exactly when it matches.
   */
  lemma FilteredKeepsOrder(a: seq<Course>, b: seq<Course>, c: Course, term: string)
    ensures Filtered(a + b, term) == Filtered(a, term) + Filtered(b, term)
    ensures Filtered([c], term) == if term == "" || Contains(ToLower(c.courseCode), ToLower(term)) then [c] else []
  {
    if term != "" {
      FilterAppend(a, b, Matcher(term));
      assert [c][1..] == [];
    }
  }

  /** The search does not care about the case of the term. */
  lemma FilteredCaseInsensitive(catalog: seq<Course>, term: string)
    ensures Filtered(catalog, ToLower(term)) == Filtered(catalog, term)
  {
    if term != "" {
      ToLowerIdempotent(term);
      FilterSame(catalog, Matcher(ToLower(term)), Matcher(term));
    }
  }

  /** The courses on screen: the first `page * 24` filtered courses. */
  function Displayed(catalog: seq<Course>, st: ExplorerState): (r: seq<Course>)
    ensures var f := Filtered(catalog, st.term);
      && |r| == (if st.page * ItemsPerPage <= |f| then st.page * ItemsPerPage else |f|)
      && r == f[..|r|]
  {
    Take(Filtered(catalog, st.term), st.page * ItemsPerPage)
  }

  /** `hasMore`: fewer courses are shown than match. */
  predicate HasMore(catalog: seq<Course>, st: ExplorerState) {
    |Displayed(catalog, st)| < |Filtered(catalog, st.term)|
  }

  /** More remain exactly when the shown pages do not cover every match. */
  lemma HasMoreIff(catalog: seq<Course>, st: ExplorerState)
    ensures HasMore(catalog, st) <==> st.page * ItemsPerPage < |Filtered(catalog, st.term)|
    ensures !HasMore(catalog, st) ==> Displayed(catalog, st) == Filtered(catalog, st.term)
  {
  }

  /** `handleSearchChange`: the new term, back on the first page. */
  function SearchChange(st: ExplorerState, term: string): (r: ExplorerState)
    ensures r.term == term && r.page == 1
  {
    ExplorerState(term, 1)
  }

  /** `loadMore`: one page more. */
  function LoadMore(st: ExplorerState): (r: ExplorerState)
    ensures r.term == st.term && r.page == st.page + 1
  {
    st.(page := st.page + 1)
  }

  /** After a new search at most one page shows: the first 24 matches. */
  lemma SearchShowsFirstPage(catalog: seq<Course>, st: ExplorerState, term: string)
    ensures var f := Filtered(catalog, term);
      Displayed(catalog, SearchChange(st, term)) == Take(f, ItemsPerPage)
  {
  }

  /**
   * Loading more keeps what is shown and appends the next up to 24 matches;
   * when nothing was hidden nothing changes.
   */
  lemma LoadMoreExtends(catalog: seq<Course>, st: ExplorerState)
    ensures var before := Displayed(catalog, st);
      var after := Displayed(catalog, LoadMore(st));
      var f := Filtered(catalog, st.term);
      && before == after[..|before|]
      && (HasMore(catalog, st) ==> |after| == |before| + (if |f| - |before| < ItemsPerPage then |f| - |before| else ItemsPerPage))
      && (!HasMore(catalog, st) ==> after == before)
  {
    var f := Filtered(catalog, st.term);
    assert (st.page + 1) * ItemsPerPage == st.page * ItemsPerPage + ItemsPerPage;
  }
}
