/** The matcher and the query step of `executeSearch`
    (src/components/AddressSearch.tsx): trim the query, decide "no search",
    and otherwise keep the store's records that match, in store order. */
module Matcher {
  import opened Text
  import opened Records

  /** The form the trimmed query takes before records are compared with it:
      its digits in postal-code mode, its lower-cased text otherwise. */
  function QueryKey(mode: SearchMode, query: string): (key: string)
    ensures mode == ZipCode ==> forall k :: 0 <= k < |key| ==> IsDigit(key[k])
    ensures mode != ZipCode ==> |key| == |query| && forall k :: 0 <= k < |key| ==> !IsUpper(key[k])
  {
    if mode == ZipCode then DigitsOnly(query) else ToLower(query)
  }

  /** The text field a text-mode search looks in. */
  function Field(rec: AddressData, mode: SearchMode): string
    requires mode != ZipCode
  {
    if mode == Address then rec.address else rec.furigana
  }

  /** The filter callbacks: a digit prefix of the postal code, or a substring
      of the lower-cased address or reading. */
  predicate Matches(rec: AddressData, mode: SearchMode, key: string) {
    match mode
    case ZipCode => StartsWith(DigitsOnly(rec.zipCode), key)
    case Address => Contains(ToLower(rec.address), key)
    case Furigana => Contains(ToLower(rec.furigana), key)
  }

  /** `addresses.filter(...)`. */
  function Filter(rs: seq<AddressData>, mode: SearchMode, key: string): seq<AddressData> {
    if rs == [] then []
    else
      var init := Filter(rs[..|rs| - 1], mode, key);
      var last := rs[|rs| - 1];
      if Matches(last, mode, key) then init + [last] else init
  }

  /** Filter keeps no more than it is given, and only matching records of
      its input. */
  lemma {:induction false} FilterSound(rs: seq<AddressData>, mode: SearchMode, key: string)
    ensures |Filter(rs, mode, key)| <= |rs|
    ensures forall x :: x in Filter(rs, mode, key) ==> x in rs && Matches(x, mode, key)
  {
    if rs != [] {
      var front := rs[..|rs| - 1];
      FilterSound(front, mode, key);
      forall x | x in front ensures x in rs {
        var k :| 0 <= k < |front| && front[k] == x;
        assert rs[k] == x;
      }
    }
  }

  predicate StrictlyIncreasing(idx: seq<nat>) {
    forall k, l :: 0 <= k < l < |idx| ==> idx[k] < idx[l]
  }

  /** Reference definition of a filter: the positions of the store whose
      record matches, in increasing order, each position once. */
  ghost function MatchIndices(rs: seq<AddressData>, mode: SearchMode, key: string): (idx: seq<nat>)
    ensures StrictlyIncreasing(idx)
    ensures forall k :: 0 <= k < |idx| ==> idx[k] < |rs| && Matches(rs[idx[k]], mode, key)
    ensures forall i :: 0 <= i < |rs| && Matches(rs[i], mode, key) ==> i in idx
  {
    if rs == [] then []
    else
      var init := MatchIndices(rs[..|rs| - 1], mode, key);
      if Matches(rs[|rs| - 1], mode, key) then init + [|rs| - 1] else init
  }

  /** Filter picks exactly the records at MatchIndices, in that order. */
  lemma {:induction false} FilterSelectsMatchIndices(rs: seq<AddressData>, mode: SearchMode, key: string)
    ensures |Filter(rs, mode, key)| == |MatchIndices(rs, mode, key)|
    ensures forall k :: 0 <= k < |MatchIndices(rs, mode, key)| ==>
              Filter(rs, mode, key)[k] == rs[MatchIndices(rs, mode, key)[k]]
  {
    if rs != [] {
      var front := rs[..|rs| - 1];
      FilterSelectsMatchIndices(front, mode, key);
      var idx := MatchIndices(front, mode, key);
      var fr := Filter(front, mode, key);
      var last := rs[|rs| - 1];
      if Matches(last, mode, key) {
        var r, ix := fr + [last], idx + [|rs| - 1];
        assert Filter(rs, mode, key) == r && MatchIndices(rs, mode, key) == ix;
        forall k | 0 <= k < |ix| ensures r[k] == rs[ix[k]] {
          if k < |idx| {
            assert r[k] == fr[k] == front[idx[k]];
          }
        }
      } else {
        assert Filter(rs, mode, key) == fr && MatchIndices(rs, mode, key) == idx;
        forall k | 0 <= k < |idx| ensures fr[k] == rs[idx[k]] {
          assert fr[k] == front[idx[k]];
        }
      }
    }
  }

  /** Each matching record is kept as often as the store holds it, and no
      other record is kept. */
  lemma {:induction false} FilterCount(rs: seq<AddressData>, mode: SearchMode, key: string, x: AddressData)
    ensures multiset(Filter(rs, mode, key))[x] == if Matches(x, mode, key) then multiset(rs)[x] else 0
  {
    if rs != [] {
      var front := rs[..|rs| - 1];
      FilterCount(front, mode, key, x);
      assert rs == front + [rs[|rs| - 1]];
    }
  }

  /** What `executeSearch` found: no search at all (the neutral state), or
      the matches in store order, possibly none. */
  datatype SearchOutcome = NoSearch | Searched(matches: seq<AddressData>)

  /** The query step of `executeSearch`. */
  function RunQuery(addresses: seq<AddressData>, searchQuery: string, mode: SearchMode): (r: SearchOutcome)
    ensures r.NoSearch? <==> AllSpace(searchQuery) || (mode == ZipCode && DigitsOnly(Trim(searchQuery)) == [])
    ensures r.Searched? ==> |r.matches| <= |addresses|
  {
    var query := Trim(searchQuery);
    if query == [] then NoSearch
    else if mode == ZipCode && DigitsOnly(query) == [] then NoSearch
    else
      FilterSound(addresses, mode, QueryKey(mode, query));
      Searched(Filter(addresses, mode, QueryKey(mode, query)))
  }

  /** Postal-code search returns exactly the records, in store order, whose
      postal-code digits start with the digits of the trimmed query. */
  lemma ZipSearchExact(addresses: seq<AddressData>, q: string)
    requires RunQuery(addresses, q, ZipCode).Searched?
    ensures var ms := RunQuery(addresses, q, ZipCode).matches;
            var digits := DigitsOnly(Trim(q));
            var idx := MatchIndices(addresses, ZipCode, digits);
            && digits != []
            && StrictlyIncreasing(idx) && |ms| == |idx|
            && (forall k :: 0 <= k < |idx| ==> idx[k] < |addresses| && ms[k] == addresses[idx[k]])
            && (forall i :: 0 <= i < |addresses| ==>
                  (i in idx <==> StartsWith(DigitsOnly(addresses[i].zipCode), digits)))
  {
    FilterSelectsMatchIndices(addresses, ZipCode, DigitsOnly(Trim(q)));
  }

  /** Address and reading search return exactly the records, in store order,
      whose lower-cased field contains the lower-cased trimmed query. */
  lemma TextSearchExact(addresses: seq<AddressData>, q: string, mode: SearchMode)
    requires mode != ZipCode
    requires RunQuery(addresses, q, mode).Searched?
    ensures var ms := RunQuery(addresses, q, mode).matches;
            var needle := ToLower(Trim(q));
            var idx := MatchIndices(addresses, mode, needle);
            && needle != []
            && StrictlyIncreasing(idx) && |ms| == |idx|
            && (forall k :: 0 <= k < |idx| ==> idx[k] < |addresses| && ms[k] == addresses[idx[k]])
            && (forall i :: 0 <= i < |addresses| ==>
                  (i in idx <==> Contains(ToLower(Field(addresses[i], mode)), needle)))
  {
    FilterSelectsMatchIndices(addresses, mode, ToLower(Trim(q)));
  }
}
