/** The state of the `AddressSearch` component (src/components/AddressSearch.tsx)
    and its event handlers. Each handler, and each effect it sets off, is one
    atomic step; the timers are the events `FireTimer` (the debounce timer of
    `startSearch` comes due) and `SearchEffect` (the search effect's timer
    comes due). */
module Session {
  import opened Records
  import opened Text
  import opened Matcher
  import opened Sorter
  import opened Paginator
  import opened JsMath
  import opened ZipInput
  import Debounce
  import opened ResultSet

  /** The values of the page-size selector. */
  predicate IsLimitOption(n: int) {
    n == 10 || n == 20 || n == 50 || n == 100 || n == 200
  }

  /** How a completed search leaves `error`: a neutral query clears it, a
      search without matches sets "not found", and a search with matches
      leaves whatever was there. */
  function ErrorAfterSearch(prev: Option<SearchError>, outcome: SearchOutcome): (r: Option<SearchError>)
    ensures r == None <==> outcome.NoSearch? || (outcome.matches != [] && prev == None)
    ensures r == Some(NoMatches) <==> outcome.Searched? && (outcome.matches == [] || prev == Some(NoMatches))
  {
    match outcome
    case NoSearch => None
    case Searched(ms) => if ms == [] then Some(NoMatches) else prev
  }

  class AddressSearch {
    const addresses: seq<AddressData>
    /** `localeCompare(…, "ja") <= 0`. */
    const collate: (string, string) -> bool
    var searchQuery: string
    var searchMode: SearchMode
    var filtered: seq<AddressData>
    var isLoading: bool
    var error: Option<SearchError>
    var sortOrder: SortOrder
    var prevSortOrder: SortOrder
    var limit: int
    var page: int
    var totalResults: nat
    var shouldSearch: bool
    var timer: Debounce.Timer
    /** The last search that found records: its mode, key and matches. */
    ghost var lastMode: SearchMode
    ghost var lastKey: string
    ghost var lastMatches: seq<AddressData>

    ghost predicate ResultsValid()
      reads this
    {
      ResultsInvariant(collate, filtered, totalResults, isLoading, sortOrder, lastMatches)
    }

    ghost predicate Valid()
      reads this
    {
      && ResultsValid()
      && lastMatches == Filter(addresses, lastMode, lastKey)
      && IsLimitOption(limit)
      && isLoading == shouldSearch
      && prevSortOrder == sortOrder
      && Debounce.Valid(timer)
    }

    /** The component's initial state over a loaded record store. */
    constructor(addresses: seq<AddressData>, collate: (string, string) -> bool)
      requires StringPreorder(collate)
      ensures Valid()
      ensures this.addresses == addresses && this.collate == collate
      ensures searchQuery == "" && searchMode == ZipCode && filtered == [] && !isLoading && error == None
      ensures sortOrder == Default && limit == 20 && page == 1 && totalResults == 0 && !shouldSearch
      ensures timer == Debounce.NoTimer
    {
      this.addresses := addresses;
      this.collate := collate;
      searchQuery := "";
      searchMode := ZipCode;
      filtered := [];
      isLoading := false;
      error := None;
      sortOrder := Default;
      prevSortOrder := Default;
      limit := 20;
      page := 1;
      totalResults := 0;
      shouldSearch := false;
      timer := Debounce.NoTimer;
      lastMode := ZipCode;
      lastKey := "";
      lastMatches := Filter(addresses, ZipCode, "");
    }

    /** Every record on show is a record of the store that matches the search
        that produced it. */
    lemma ShownRecordsMatch()
      requires Valid()
      ensures forall x :: x in filtered ==> x in addresses && Matches(x, lastMode, lastKey)
    {
      FilterSound(addresses, lastMode, lastKey);
      forall x | x in filtered ensures x in lastMatches {
        assert x in multiset(filtered);
      }
    }

    /** `startSearch`: clear the pending debounce timer, schedule a new one. */
    method StartSearch()
      requires Valid()
      modifies this
      ensures Valid()
      ensures timer == Debounce.Schedule(old(timer))
      ensures searchQuery == old(searchQuery) && searchMode == old(searchMode)
      ensures filtered == old(filtered) && isLoading == old(isLoading) && error == old(error)
      ensures sortOrder == old(sortOrder) && prevSortOrder == old(prevSortOrder)
      ensures limit == old(limit) && page == old(page) && totalResults == old(totalResults)
      ensures shouldSearch == old(shouldSearch)
      ensures lastMode == old(lastMode) && lastKey == old(lastKey) && lastMatches == old(lastMatches)
    {
      timer := Debounce.Schedule(timer);
    }

    /** The debounce timer `id` comes due. If it is still the pending one, the
        search is flagged (`isLoading`, `shouldSearch`), the first page is
        selected and the handle is cleared; a cancelled timer changes nothing. */
    method FireTimer(id: nat)
      requires Valid()
      modifies this
      ensures Valid()
      ensures timer == Debounce.Fire(old(timer), id).0
      ensures Debounce.Fire(old(timer), id).1 ==> isLoading && shouldSearch && page == 1
      ensures !Debounce.Fire(old(timer), id).1 ==>
                isLoading == old(isLoading) && shouldSearch == old(shouldSearch) && page == old(page)
      ensures searchQuery == old(searchQuery) && searchMode == old(searchMode)
      ensures filtered == old(filtered) && error == old(error)
      ensures sortOrder == old(sortOrder) && prevSortOrder == old(prevSortOrder)
      ensures limit == old(limit) && totalResults == old(totalResults)
      ensures lastMode == old(lastMode) && lastKey == old(lastKey) && lastMatches == old(lastMatches)
    {
      var (t, ran) := Debounce.Fire(timer, id);
      timer := t;
      if ran {
        isLoading := true;
        page := 1;
        shouldSearch := true;
      }
    }

    /** The search effect: it does nothing unless a search is flagged, and
        otherwise lets `executeSearch` run. */
    method SearchEffect()
      requires Valid()
      modifies this
      ensures Valid() && !shouldSearch && !isLoading
      ensures !old(shouldSearch) ==>
                && filtered == old(filtered) && error == old(error) && totalResults == old(totalResults)
                && lastMode == old(lastMode) && lastKey == old(lastKey) && lastMatches == old(lastMatches)
      ensures old(shouldSearch) ==>
                var outcome := RunQuery(addresses, old(searchQuery), old(searchMode));
                && filtered == (if outcome.NoSearch? then [] else StableSort(outcome.matches, old(sortOrder), collate))
                && totalResults == (if outcome.NoSearch? then 0 else |outcome.matches|)
                && error == ErrorAfterSearch(old(error), outcome)
      ensures old(shouldSearch) ==>
                var outcome := RunQuery(addresses, old(searchQuery), old(searchMode));
                if outcome.Searched? && outcome.matches != [] then
                  && lastMode == old(searchMode) && lastKey == QueryKey(old(searchMode), Trim(old(searchQuery)))
                  && lastMatches == outcome.matches
                else
                  lastMode == old(lastMode) && lastKey == old(lastKey) && lastMatches == old(lastMatches)
      ensures searchQuery == old(searchQuery) && searchMode == old(searchMode)
      ensures sortOrder == old(sortOrder) && limit == old(limit) && page == old(page) && timer == old(timer)
    {
      if shouldSearch {
        ExecuteSearch();
      }
    }

    /** `executeSearch`: run the current query in the current mode, store the
        matches sorted by the current order (nothing for a neutral query), and
        clear the flags. */
    method ExecuteSearch()
      requires Valid() && shouldSearch
      modifies this
      ensures Valid() && !shouldSearch && !isLoading
      ensures var outcome := RunQuery(addresses, old(searchQuery), old(searchMode));
              && filtered == (if outcome.NoSearch? then [] else StableSort(outcome.matches, old(sortOrder), collate))
              && totalResults == (if outcome.NoSearch? then 0 else |outcome.matches|)
              && error == ErrorAfterSearch(old(error), outcome)
      ensures var outcome := RunQuery(addresses, old(searchQuery), old(searchMode));
              if outcome.Searched? && outcome.matches != [] then
                && lastMode == old(searchMode) && lastKey == QueryKey(old(searchMode), Trim(old(searchQuery)))
                && lastMatches == outcome.matches
              else
                lastMode == old(lastMode) && lastKey == old(lastKey) && lastMatches == old(lastMatches)
      ensures searchQuery == old(searchQuery) && searchMode == old(searchMode)
      ensures sortOrder == old(sortOrder) && limit == old(limit) && page == old(page) && timer == old(timer)
    {
      var outcome := RunQuery(addresses, searchQuery, searchMode);
      match outcome {
        case NoSearch =>
          EmptyResultsInvariant(collate, false, sortOrder, lastMatches);
          error := None;
          filtered := [];
          totalResults := 0;
          shouldSearch := false;
          isLoading := false;
        case Searched(results) =>
          ghost var key := QueryKey(searchMode, Trim(searchQuery));
          assert results == Filter(addresses, searchMode, key);
          ProcessSearchResults(results, searchMode, key);
          shouldSearch := false;
      }
    }

    /** `processSearchResults`: with matches, record their count and store
        them sorted by the current order, leaving `error` as it was; with
        none, set "not found" and empty the results. Loading ends either way. */
    method ProcessSearchResults(results: seq<AddressData>, ghost mode: SearchMode, ghost key: string)
      requires ResultsValid()
      modifies this
      ensures ResultsValid() && !isLoading
      ensures results != [] ==>
                && filtered == StableSort(results, sortOrder, collate) && totalResults == |results|
                && error == old(error)
                && lastMatches == results && lastMode == mode && lastKey == key
      ensures results == [] ==>
                && filtered == [] && totalResults == 0 && error == Some(NoMatches)
                && lastMatches == old(lastMatches) && lastMode == old(lastMode) && lastKey == old(lastKey)
      ensures searchQuery == old(searchQuery) && searchMode == old(searchMode)
      ensures sortOrder == old(sortOrder) && prevSortOrder == old(prevSortOrder)
      ensures limit == old(limit) && page == old(page) && timer == old(timer)
      ensures shouldSearch == old(shouldSearch)
    {
      if |results| > 0 {
        totalResults := |results|;
        var sorted := SortResults(results, sortOrder, collate);
        SortedMatchesInvariant(collate, results, sortOrder);
        filtered := sorted;
        isLoading := false;
        lastMode := mode;
        lastKey := key;
        lastMatches := results;
      } else {
        EmptyResultsInvariant(collate, false, sortOrder, lastMatches);
        error := Some(NoMatches);
        filtered := [];
        totalResults := 0;
        isLoading := false;
      }
    }

    /** `handleZipCodeInput`: store the formatted postal code; start a search
        when the formatted value is non-empty, otherwise clear the results. */
    method HandleZipCodeInput(value: string)
      requires Valid()
      modifies this
      ensures Valid()
      ensures searchQuery == StoredQuery(value)
      ensures |Formatted(value)| > 0 ==>
                && timer == Debounce.Schedule(old(timer))
                && filtered == old(filtered) && totalResults == old(totalResults) && error == old(error)
      ensures |Formatted(value)| == 0 ==>
                && timer == old(timer) && filtered == [] && totalResults == 0 && error == None
      ensures searchMode == old(searchMode) && isLoading == old(isLoading) && shouldSearch == old(shouldSearch)
      ensures sortOrder == old(sortOrder) && prevSortOrder == old(prevSortOrder)
      ensures limit == old(limit) && page == old(page)
      ensures lastMode == old(lastMode) && lastKey == old(lastKey) && lastMatches == old(lastMatches)
    {
      searchQuery := StoredQuery(value);
      if |Formatted(value)| > 0 {
        StartSearch();
      } else {
        ClearResults();
      }
    }

    /** `handleQueryInput`: store the text as typed; start a search when it is
        non-empty, otherwise clear the results. */
    method HandleQueryInput(value: string)
      requires Valid()
      modifies this
      ensures Valid()
      ensures searchQuery == value
      ensures |value| > 0 ==>
                && timer == Debounce.Schedule(old(timer))
                && filtered == old(filtered) && totalResults == old(totalResults) && error == old(error)
      ensures |value| == 0 ==>
                && timer == old(timer) && filtered == [] && totalResults == 0 && error == None
      ensures searchMode == old(searchMode) && isLoading == old(isLoading) && shouldSearch == old(shouldSearch)
      ensures sortOrder == old(sortOrder) && prevSortOrder == old(prevSortOrder)
      ensures limit == old(limit) && page == old(page)
      ensures lastMode == old(lastMode) && lastKey == old(lastKey) && lastMatches == old(lastMatches)
    {
      searchQuery := value;
      if |value| > 0 {
        StartSearch();
      } else {
        ClearResults();
      }
    }

    /** The shared else-branch of both input handlers. */
    method ClearResults()
      requires Valid()
      modifies this
      ensures Valid()
      ensures filtered == [] && totalResults == 0 && error == None
      ensures searchQuery == old(searchQuery) && searchMode == old(searchMode)
      ensures isLoading == old(isLoading) && shouldSearch == old(shouldSearch)
      ensures sortOrder == old(sortOrder) && prevSortOrder == old(prevSortOrder)
      ensures limit == old(limit) && page == old(page) && timer == old(timer)
      ensures lastMode == old(lastMode) && lastKey == old(lastKey) && lastMatches == old(lastMatches)
    {
      EmptyResultsInvariant(collate, isLoading, sortOrder, lastMatches);
      filtered := [];
      totalResults := 0;
      error := None;
    }

    /** `handlePageChange`: the page number is taken as given. */
    method HandlePageChange(newPage: int)
      requires Valid()
      modifies this
      ensures Valid()
      ensures page == newPage
      ensures searchQuery == old(searchQuery) && searchMode == old(searchMode)
      ensures filtered == old(filtered) && isLoading == old(isLoading) && error == old(error)
      ensures sortOrder == old(sortOrder) && limit == old(limit) && totalResults == old(totalResults)
      ensures shouldSearch == old(shouldSearch) && timer == old(timer)
      ensures lastMode == old(lastMode) && lastKey == old(lastKey) && lastMatches == old(lastMatches)
    {
      page := newPage;
    }

    /** `handleSearchModeChange`: switch mode and empty the query; the pending
        timer, the results and the error stay. */
    method HandleSearchModeChange(mode: SearchMode)
      requires Valid()
      modifies this
      ensures Valid()
      ensures searchMode == mode && searchQuery == ""
      ensures filtered == old(filtered) && isLoading == old(isLoading) && error == old(error)
      ensures sortOrder == old(sortOrder) && limit == old(limit) && page == old(page)
      ensures totalResults == old(totalResults) && shouldSearch == old(shouldSearch) && timer == old(timer)
      ensures lastMode == old(lastMode) && lastKey == old(lastKey) && lastMatches == old(lastMatches)
    {
      searchMode := mode;
      searchQuery := "";
    }

    /** A new sort order from the selector, followed by the effect it sets
        off. */
    method HandleSortOrderChange(order: SortOrder)
      requires Valid()
      modifies this
      ensures Valid()
      ensures sortOrder == order
      ensures filtered == (if order != old(sortOrder) && old(filtered) != [] && !old(isLoading)
                           then StableSort(old(filtered), order, collate) else old(filtered))
      ensures totalResults == old(totalResults)
      ensures searchQuery == old(searchQuery) && searchMode == old(searchMode)
      ensures isLoading == old(isLoading) && error == old(error) && limit == old(limit) && page == old(page)
      ensures shouldSearch == old(shouldSearch) && timer == old(timer)
      ensures lastMode == old(lastMode) && lastKey == old(lastKey) && lastMatches == old(lastMatches)
    {
      sortOrder := order;
      SortOrderEffect();
    }

    /** The sort-order effect: when the order differs from the one last seen,
        remember it, and if results are on show and not loading, re-sort them
        rather than run the matcher again; the page stays. On entry the
        results are sorted by the order last seen. */
    method SortOrderEffect()
      requires ResultsInvariant(collate, filtered, totalResults, isLoading, prevSortOrder, lastMatches)
      modifies this
      ensures ResultsValid() && prevSortOrder == sortOrder
      ensures filtered == (if old(sortOrder) != old(prevSortOrder) && old(filtered) != [] && !isLoading
                           then StableSort(old(filtered), sortOrder, collate) else old(filtered))
      ensures totalResults == old(totalResults) && sortOrder == old(sortOrder)
      ensures searchQuery == old(searchQuery) && searchMode == old(searchMode)
      ensures isLoading == old(isLoading) && error == old(error) && limit == old(limit) && page == old(page)
      ensures shouldSearch == old(shouldSearch) && timer == old(timer)
      ensures lastMode == old(lastMode) && lastKey == old(lastKey) && lastMatches == old(lastMatches)
    {
      if sortOrder != prevSortOrder {
        var seen := prevSortOrder;
        prevSortOrder := sortOrder;
        if |filtered| > 0 && !isLoading {
          ResortInvariant(collate, filtered, totalResults, seen, sortOrder, lastMatches);
          var sorted := SortResults(filtered, sortOrder, collate);
          filtered := sorted;
        } else if filtered == [] {
          EmptyResultsInvariant(collate, isLoading, sortOrder, lastMatches);
        }
      }
    }

    /** The page-size selector: a new `limit`, and back to page 1. */
    method HandleLimitChange(newLimit: int)
      requires Valid() && IsLimitOption(newLimit)
      modifies this
      ensures Valid()
      ensures limit == newLimit && page == 1
      ensures searchQuery == old(searchQuery) && searchMode == old(searchMode)
      ensures filtered == old(filtered) && isLoading == old(isLoading) && error == old(error)
      ensures sortOrder == old(sortOrder) && totalResults == old(totalResults)
      ensures shouldSearch == old(shouldSearch) && timer == old(timer)
      ensures lastMode == old(lastMode) && lastKey == old(lastKey) && lastMatches == old(lastMatches)
    {
      limit := newLimit;
      page := 1;
    }

    /** `currentPageResults`: on a page numbered from 1, the records
        `(page - 1) * limit` up to `page * limit`, cut at the end of the list. */
    function CurrentPageResults(): (r: seq<AddressData>)
      reads this
      requires Valid()
      ensures 1 <= page ==>
                var n := |filtered|;
                var from := Min((page - 1) * limit, n);
                r == filtered[from..Max(from, Min(page * limit, n))]
    {
      if 1 <= page then
        PageSliceClipped(filtered, page, limit);
        PageSlice(filtered, page, limit)
      else
        PageSlice(filtered, page, limit)
    }
  }
}
