/** The invariant the component keeps about its result list, stated on
    values so that each event handler can establish it by one lemma call. */
module ResultSet {
  import opened Records
  import opened Sorter

  /** What holds of the results between any two steps: the count is the
      list's length, the list is a rearrangement of the matches of the last
      search that found any, and once loading is over it is sorted by the
      current order. */
  ghost predicate ResultsInvariant(collate: (string, string) -> bool, filtered: seq<AddressData>,
                                   totalResults: nat, isLoading: bool, sortOrder: SortOrder,
                                   lastMatches: seq<AddressData>)
  {
    && StringPreorder(collate)
    && totalResults == |filtered|
    && (!isLoading ==> SortedBy(filtered, sortOrder, collate))
    && (filtered == [] || multiset(filtered) == multiset(lastMatches))
  }

  /** No results satisfy the invariant in every state. */
  lemma EmptyResultsInvariant(collate: (string, string) -> bool, isLoading: bool, sortOrder: SortOrder,
                              lastMatches: seq<AddressData>)
    requires StringPreorder(collate)
    ensures ResultsInvariant(collate, [], 0, isLoading, sortOrder, lastMatches)
  {
  }

  /** The matches of a search, sorted, satisfy the invariant once loading ends. */
  lemma SortedMatchesInvariant(collate: (string, string) -> bool, ms: seq<AddressData>, sortOrder: SortOrder)
    requires StringPreorder(collate)
    ensures ResultsInvariant(collate, StableSort(ms, sortOrder, collate), |ms|, false, sortOrder, ms)
  {
    StableSortSorted(ms, sortOrder, collate);
    StableSortPermutation(ms, sortOrder, collate);
    assert |StableSort(ms, sortOrder, collate)| == |ms| by {
      assert |multiset(StableSort(ms, sortOrder, collate))| == |multiset(ms)|;
    }
  }

  /** Re-sorting the results by a new order keeps the invariant. */
  lemma ResortInvariant(collate: (string, string) -> bool, filtered: seq<AddressData>, totalResults: nat,
                        sortOrder: SortOrder, order: SortOrder, lastMatches: seq<AddressData>)
    requires ResultsInvariant(collate, filtered, totalResults, false, sortOrder, lastMatches)
    ensures var sorted := StableSort(filtered, order, collate);
            && multiset(sorted) == multiset(filtered)
            && ResultsInvariant(collate, sorted, totalResults, false, order, lastMatches)
  {
    var sorted := StableSort(filtered, order, collate);
    StableSortSorted(filtered, order, collate);
    StableSortPermutation(filtered, order, collate);
    assert |sorted| == |filtered| by {
      assert |multiset(sorted)| == |multiset(filtered)|;
    }
  }

}
