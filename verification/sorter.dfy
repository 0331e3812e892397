/** `sortResults` (src/components/AddressSearch.tsx): copy the matches and
    sort the copy in place with the comparator of the selected order.

    `localeCompare(a, b, "ja")` is not modelled character by character: it
    enters as a parameter `collate`, where `collate(a, b)` stands for
    `a.localeCompare(b, "ja") <= 0`, and is required to be a total preorder.
    `Array.prototype.sort` is stable (ECMAScript 2019 and later), so records
    the comparator ties keep their input order; StableSortIsUnique shows that
    this fixes the result whatever algorithm the engine uses. */
module Sorter {
  import opened Records

  /** The comparison `localeCompare` is assumed to be: total and transitive. */
  ghost predicate StringPreorder(collate: (string, string) -> bool) {
    && (forall a, b :: collate(a, b) || collate(b, a))
    && (forall a, b, c :: collate(a, b) && collate(b, c) ==> collate(a, c))
  }

  /** The field an order compares: postal code for `Default`. */
  function SortKey(order: SortOrder, rec: AddressData): string {
    match order
    case Default => rec.zipCode
    case AddressAsc => rec.address
    case AddressDesc => rec.address
    case FuriganaAsc => rec.furigana
    case FuriganaDesc => rec.furigana
  }

  predicate Descending(order: SortOrder) {
    order == AddressDesc || order == FuriganaDesc
  }

  /** The order's comparator returns at most 0 for (a, b): `a` may stay in
      front of `b`. Descending orders swap the arguments of `localeCompare`. */
  predicate Precedes(order: SortOrder, collate: (string, string) -> bool, a: AddressData, b: AddressData) {
    if Descending(order) then collate(SortKey(order, b), SortKey(order, a))
    else collate(SortKey(order, a), SortKey(order, b))
  }

  /** The comparator returns 0: the sort keeps such records in input order. */
  predicate Tied(order: SortOrder, collate: (string, string) -> bool, a: AddressData, b: AddressData) {
    Precedes(order, collate, a, b) && Precedes(order, collate, b, a)
  }

  lemma PrecedesPreorder(order: SortOrder, collate: (string, string) -> bool)
    requires StringPreorder(collate)
    ensures forall a, b :: Precedes(order, collate, a, b) || Precedes(order, collate, b, a)
    ensures forall a, b, c :: Precedes(order, collate, a, b) && Precedes(order, collate, b, c)
                              ==> Precedes(order, collate, a, c)
  {
    forall a, b, c | Precedes(order, collate, a, b) && Precedes(order, collate, b, c)
      ensures Precedes(order, collate, a, c)
    {
      var ka, kb, kc := SortKey(order, a), SortKey(order, b), SortKey(order, c);
      if Descending(order) {
        assert collate(kc, kb) && collate(kb, ka);
      } else {
        assert collate(ka, kb) && collate(kb, kc);
      }
    }
    forall a, b ensures Precedes(order, collate, a, b) || Precedes(order, collate, b, a) {
      var ka, kb := SortKey(order, a), SortKey(order, b);
      assert collate(ka, kb) || collate(kb, ka);
    }
  }

  predicate SortedBy(s: seq<AddressData>, order: SortOrder, collate: (string, string) -> bool) {
    forall i, j :: 0 <= i < j < |s| ==> Precedes(order, collate, s[i], s[j])
  }

  /** The records of `s` that the comparator ties with `y`, in their order in `s`. */
  function TiedWith(s: seq<AddressData>, order: SortOrder, collate: (string, string) -> bool, y: AddressData)
    : seq<AddressData>
  {
    if s == [] then []
    else
      var init := TiedWith(s[..|s| - 1], order, collate, y);
      var last := s[|s| - 1];
      if Tied(order, collate, last, y) then init + [last] else init
  }

  lemma {:induction false} TiedWithMember(s: seq<AddressData>, order: SortOrder, collate: (string, string) -> bool,
                                          y: AddressData, z: AddressData)
    ensures z in TiedWith(s, order, collate, y) <==> z in s && Tied(order, collate, z, y)
  {
    if s != [] {
      TiedWithMember(s[..|s| - 1], order, collate, y, z);
      assert s == s[..|s| - 1] + [s[|s| - 1]];
    }
  }

  /** One step of insertion sort: `x` walks left past every element the
      comparator puts strictly after it. */
  function Insert(s: seq<AddressData>, x: AddressData, order: SortOrder, collate: (string, string) -> bool)
    : seq<AddressData>
  {
    if s == [] then [x]
    else if Precedes(order, collate, s[|s| - 1], x) then s + [x]
    else Insert(s[..|s| - 1], x, order, collate) + [s[|s| - 1]]
  }

  /** The result `sortResults` computes: a stable sort under the order's comparator. */
  function StableSort(s: seq<AddressData>, order: SortOrder, collate: (string, string) -> bool)
    : seq<AddressData>
  {
    if s == [] then []
    else Insert(StableSort(s[..|s| - 1], order, collate), s[|s| - 1], order, collate)
  }

  lemma MultisetSnoc(s: seq<AddressData>)
    requires s != []
    ensures multiset(s) == multiset(s[..|s| - 1]) + multiset{s[|s| - 1]}
  {
    assert s == s[..|s| - 1] + [s[|s| - 1]];
  }

  lemma {:induction false} InsertPermutation(s: seq<AddressData>, x: AddressData, order: SortOrder,
                                             collate: (string, string) -> bool)
    ensures multiset(Insert(s, x, order, collate)) == multiset(s) + multiset{x}
  {
    if s != [] && !Precedes(order, collate, s[|s| - 1], x) {
      InsertPermutation(s[..|s| - 1], x, order, collate);
      MultisetSnoc(s);
    }
  }

  /** The sort returns a permutation of its input. */
  lemma {:induction false} StableSortPermutation(s: seq<AddressData>, order: SortOrder,
                                                 collate: (string, string) -> bool)
    ensures multiset(StableSort(s, order, collate)) == multiset(s)
  {
    if s != [] {
      StableSortPermutation(s[..|s| - 1], order, collate);
      InsertPermutation(StableSort(s[..|s| - 1], order, collate), s[|s| - 1], order, collate);
      MultisetSnoc(s);
    }
  }

  lemma PrecedesTotal(order: SortOrder, collate: (string, string) -> bool, a: AddressData, b: AddressData)
    requires StringPreorder(collate)
    ensures Precedes(order, collate, a, b) || Precedes(order, collate, b, a)
  {
    var ka, kb := SortKey(order, a), SortKey(order, b);
    assert collate(ka, kb) || collate(kb, ka);
  }

  lemma PrecedesTransitive(order: SortOrder, collate: (string, string) -> bool,
                           a: AddressData, b: AddressData, c: AddressData)
    requires StringPreorder(collate)
    requires Precedes(order, collate, a, b) && Precedes(order, collate, b, c)
    ensures Precedes(order, collate, a, c)
  {
    var ka, kb, kc := SortKey(order, a), SortKey(order, b), SortKey(order, c);
    if Descending(order) {
      assert collate(kc, kb) && collate(kb, ka);
    } else {
      assert collate(ka, kb) && collate(kb, kc);
    }
  }

  /** A common upper bound of `s` and `x` bounds every element of Insert(s, x). */
  lemma InsertBoundedAbove(s: seq<AddressData>, x: AddressData, e: AddressData, order: SortOrder,
                           collate: (string, string) -> bool)
    requires forall k :: 0 <= k < |s| ==> Precedes(order, collate, s[k], e)
    requires Precedes(order, collate, x, e)
    ensures forall k :: 0 <= k < |Insert(s, x, order, collate)| ==> Precedes(order, collate, Insert(s, x, order, collate)[k], e)
  {
    var ins := Insert(s, x, order, collate);
    InsertPermutation(s, x, order, collate);
    forall k | 0 <= k < |ins| ensures Precedes(order, collate, ins[k], e) {
      assert ins[k] in multiset(ins);
      if ins[k] != x {
        assert ins[k] in multiset(s);
        var m :| 0 <= m < |s| && s[m] == ins[k];
      }
    }
  }

  lemma SortedSnoc(s: seq<AddressData>, e: AddressData, order: SortOrder, collate: (string, string) -> bool)
    requires SortedBy(s, order, collate)
    requires forall k :: 0 <= k < |s| ==> Precedes(order, collate, s[k], e)
    ensures SortedBy(s + [e], order, collate)
  {
  }

  lemma {:induction false} InsertSorted(s: seq<AddressData>, x: AddressData, order: SortOrder,
                                        collate: (string, string) -> bool)
    requires StringPreorder(collate)
    requires SortedBy(s, order, collate)
    ensures SortedBy(Insert(s, x, order, collate), order, collate)
  {
    if s != [] {
      var front, last := s[..|s| - 1], s[|s| - 1];
      if Precedes(order, collate, last, x) {
        forall k | 0 <= k < |s| ensures Precedes(order, collate, s[k], x) {
          if k < |s| - 1 { PrecedesTransitive(order, collate, s[k], last, x); }
        }
        SortedSnoc(s, x, order, collate);
      } else {
        assert SortedBy(front, order, collate);
        InsertSorted(front, x, order, collate);
        PrecedesTotal(order, collate, last, x);
        assert forall k :: 0 <= k < |front| ==> Precedes(order, collate, front[k], last) by {
          forall k | 0 <= k < |front| ensures Precedes(order, collate, front[k], last) {
            assert front[k] == s[k];
          }
        }
        InsertBoundedAbove(front, x, last, order, collate);
        SortedSnoc(Insert(front, x, order, collate), last, order, collate);
      }
    }
  }

  /** The sort's result is ordered by the comparator. */
  lemma {:induction false} StableSortSorted(s: seq<AddressData>, order: SortOrder,
                                            collate: (string, string) -> bool)
    requires StringPreorder(collate)
    ensures SortedBy(StableSort(s, order, collate), order, collate)
  {
    if s != [] {
      StableSortSorted(s[..|s| - 1], order, collate);
      InsertSorted(StableSort(s[..|s| - 1], order, collate), s[|s| - 1], order, collate);
    }
  }

  lemma TiedWithAppend(s: seq<AddressData>, e: AddressData, order: SortOrder,
                       collate: (string, string) -> bool, y: AddressData)
    ensures TiedWith(s + [e], order, collate, y)
            == TiedWith(s, order, collate, y) + (if Tied(order, collate, e, y) then [e] else [])
  {
    assert (s + [e])[..|s|] == s;
  }

  lemma {:induction false} InsertTied(s: seq<AddressData>, x: AddressData, order: SortOrder,
                                      collate: (string, string) -> bool, y: AddressData)
    requires StringPreorder(collate)
    ensures TiedWith(Insert(s, x, order, collate), order, collate, y)
            == TiedWith(s, order, collate, y) + (if Tied(order, collate, x, y) then [x] else [])
  {
    if s == [] {
      TiedWithAppend([], x, order, collate, y);
    } else {
      var front, last := s[..|s| - 1], s[|s| - 1];
      assert s == front + [last];
      TiedWithAppend(front, last, order, collate, y);
      if Precedes(order, collate, last, x) {
        TiedWithAppend(s, x, order, collate, y);
      } else {
        PrecedesPreorder(order, collate);
        InsertTied(front, x, order, collate, y);
        TiedWithAppend(Insert(front, x, order, collate), last, order, collate, y);
        assert !(Tied(order, collate, x, y) && Tied(order, collate, last, y));
      }
    }
  }

  /** Stability: among the records the comparator ties, the sort keeps the
      input order. */
  lemma {:induction false} StableSortStable(s: seq<AddressData>, order: SortOrder,
                                            collate: (string, string) -> bool, y: AddressData)
    requires StringPreorder(collate)
    ensures TiedWith(StableSort(s, order, collate), order, collate, y) == TiedWith(s, order, collate, y)
  {
    if s != [] {
      var front, last := s[..|s| - 1], s[|s| - 1];
      StableSortStable(front, order, collate, y);
      InsertTied(StableSort(front, order, collate), last, order, collate, y);
    }
  }

  /** Sorting an already sorted sequence changes nothing. */
  lemma {:induction false} StableSortOfSorted(s: seq<AddressData>, order: SortOrder,
                                              collate: (string, string) -> bool)
    requires SortedBy(s, order, collate)
    ensures StableSort(s, order, collate) == s
  {
    if s != [] {
      var front := s[..|s| - 1];
      assert SortedBy(front, order, collate);
      StableSortOfSorted(front, order, collate);
      assert s == front + [s[|s| - 1]];
    }
  }

  /** Sorting twice by the same order gives what sorting once gives. */
  lemma StableSortIdempotent(s: seq<AddressData>, order: SortOrder, collate: (string, string) -> bool)
    requires StringPreorder(collate)
    ensures StableSort(StableSort(s, order, collate), order, collate) == StableSort(s, order, collate)
  {
    StableSortSorted(s, order, collate);
    StableSortOfSorted(StableSort(s, order, collate), order, collate);
  }

  /** Any sequence that is sorted by the comparator and keeps every group of
      tied records in their input order is StableSort's result: the outcome
      does not depend on the algorithm behind `Array.prototype.sort`. */
  lemma {:induction false} StableSortIsUnique(s: seq<AddressData>, t: seq<AddressData>, order: SortOrder,
                                              collate: (string, string) -> bool)
    requires StringPreorder(collate)
    requires SortedBy(t, order, collate)
    requires forall y :: TiedWith(t, order, collate, y) == TiedWith(s, order, collate, y)
    ensures t == StableSort(s, order, collate)
  {
    var u := StableSort(s, order, collate);
    StableSortSorted(s, order, collate);
    forall y ensures TiedWith(t, order, collate, y) == TiedWith(u, order, collate, y) {
      StableSortStable(s, order, collate, y);
    }
    SortedTiedUnique(t, u, order, collate);
  }

  lemma {:induction false} SortedTiedUnique(t: seq<AddressData>, u: seq<AddressData>, order: SortOrder,
                                            collate: (string, string) -> bool)
    requires StringPreorder(collate)
    requires SortedBy(t, order, collate) && SortedBy(u, order, collate)
    requires forall y :: TiedWith(t, order, collate, y) == TiedWith(u, order, collate, y)
    ensures t == u
  {
    if t == [] || u == [] {
      if t != [] {
        PrecedesTotal(order, collate, t[0], t[0]);
        TiedWithMember(t, order, collate, t[0], t[0]);
        TiedWithMember(u, order, collate, t[0], t[0]);
      } else if u != [] {
        PrecedesTotal(order, collate, u[0], u[0]);
        TiedWithMember(t, order, collate, u[0], u[0]);
        TiedWithMember(u, order, collate, u[0], u[0]);
      }
    } else {
      var t', a := t[..|t| - 1], t[|t| - 1];
      var u', b := u[..|u| - 1], u[|u| - 1];
      assert t == t' + [a] && u == u' + [b];
      PrecedesTotal(order, collate, a, a);
      PrecedesTotal(order, collate, b, b);
      LastTied(t, u, order, collate);
      assert a == b by {
        TiedWithAppend(t', a, order, collate, a);
        TiedWithAppend(u', b, order, collate, a);
        var tied := TiedWith(t, order, collate, a);
        assert tied == TiedWith(t', order, collate, a) + [a];
        assert tied == TiedWith(u', order, collate, a) + [b];
        assert tied[|tied| - 1] == a && tied[|tied| - 1] == b;
      }
      forall y ensures TiedWith(t', order, collate, y) == TiedWith(u', order, collate, y) {
        DropLastTied(t', u', a, order, collate, y);
      }
      assert SortedBy(t', order, collate) && SortedBy(u', order, collate);
      SortedTiedUnique(t', u', order, collate);
    }
  }

  lemma DropLastTied(t: seq<AddressData>, u: seq<AddressData>, a: AddressData, order: SortOrder,
                     collate: (string, string) -> bool, y: AddressData)
    requires TiedWith(t + [a], order, collate, y) == TiedWith(u + [a], order, collate, y)
    ensures TiedWith(t, order, collate, y) == TiedWith(u, order, collate, y)
  {
    TiedWithAppend(t, a, order, collate, y);
    TiedWithAppend(u, a, order, collate, y);
    var x, z := TiedWith(t, order, collate, y), TiedWith(u, order, collate, y);
    if Tied(order, collate, a, y) {
      assert (x + [a])[..|x|] == x && (z + [a])[..|z|] == z;
    }
  }

  /** Two sorted sequences that agree on the tie groups of their last
      records end in tied records. */
  lemma LastTied(t: seq<AddressData>, u: seq<AddressData>, order: SortOrder, collate: (string, string) -> bool)
    requires t != [] && u != []
    requires Precedes(order, collate, t[|t| - 1], t[|t| - 1]) && Precedes(order, collate, u[|u| - 1], u[|u| - 1])
    requires SortedBy(t, order, collate) && SortedBy(u, order, collate)
    requires TiedWith(t, order, collate, t[|t| - 1]) == TiedWith(u, order, collate, t[|t| - 1])
    requires TiedWith(t, order, collate, u[|u| - 1]) == TiedWith(u, order, collate, u[|u| - 1])
    ensures Tied(order, collate, t[|t| - 1], u[|u| - 1]) && Tied(order, collate, t[|t| - 1], t[|t| - 1])
  {
    var a, b := t[|t| - 1], u[|u| - 1];
    TiedWithMember(t, order, collate, a, a);
    TiedWithMember(u, order, collate, a, a);
    TiedWithMember(t, order, collate, b, b);
    TiedWithMember(u, order, collate, b, b);
    var i :| 0 <= i < |u| && u[i] == a;
    var j :| 0 <= j < |t| && t[j] == b;
    assert Precedes(order, collate, a, b) by { if i < |u| - 1 { assert Precedes(order, collate, u[i], u[|u| - 1]); } }
    assert Precedes(order, collate, b, a) by { if j < |t| - 1 { assert Precedes(order, collate, t[j], t[|t| - 1]); } }
  }

  /** Where the inner loop of InsertInPlace stops, `x` goes: after `s[j - 1]`,
      which may precede it, and before the elements it walked past. */
  lemma {:induction false} InsertAt(s: seq<AddressData>, x: AddressData, j: nat, order: SortOrder,
                                    collate: (string, string) -> bool)
    requires j <= |s| && (j == 0 || Precedes(order, collate, s[j - 1], x))
    requires forall k :: j <= k < |s| ==> !Precedes(order, collate, s[k], x)
    ensures Insert(s, x, order, collate) == s[..j] + [x] + s[j..]
    decreases |s|
  {
    if j < |s| {
      var front := s[..|s| - 1];
      assert front[..j] == s[..j] && (j == 0 || front[j - 1] == s[j - 1]);
      InsertAt(front, x, j, order, collate);
      assert s[j..] == front[j..] + [s[|s| - 1]];
    } else {
      assert s[..j] == s && s[j..] == [];
    }
  }

  /** The array prefix InsertInPlace leaves behind: `s[..j]`, then `x`, then
      the elements it shifted one place right. */
  lemma ShiftedIsInsert(s: seq<AddressData>, x: AddressData, j: nat, b: seq<AddressData>, order: SortOrder,
                        collate: (string, string) -> bool)
    requires j <= |s| && |b| == |s| + 1
    requires j == 0 || Precedes(order, collate, s[j - 1], x)
    requires forall k :: j <= k < |s| ==> !Precedes(order, collate, s[k], x)
    requires forall k :: 0 <= k < j ==> b[k] == s[k]
    requires b[j] == x
    requires forall k :: j < k < |b| ==> b[k] == s[k - 1]
    ensures b == Insert(s, x, order, collate)
  {
    InsertAt(s, x, j, order, collate);
    var r := s[..j] + [x] + s[j..];
    forall k | 0 <= k < |b| ensures b[k] == r[k] {
      if k > j { assert r[k] == s[k - 1]; }
    }
  }

  /** `sortResults`: copies the matches into a fresh array and insertion-sorts
      the copy in place; the caller's sequence is a value and stays as it was. */
  method SortResults(results: seq<AddressData>, order: SortOrder, collate: (string, string) -> bool)
    returns (sorted: seq<AddressData>)
    ensures sorted == StableSort(results, order, collate)
  {
    var a := new AddressData[|results|](k requires 0 <= k < |results| => results[k]);
    var i := 0;
    while i < a.Length
      invariant 0 <= i <= a.Length
      invariant a[..i] == StableSort(results[..i], order, collate)
      invariant a[i..] == results[i..]
    {
      assert results[..i + 1] == results[..i] + [results[i]];
      InsertInPlace(a, i, order, collate);
      i := i + 1;
    }
    assert results[..a.Length] == results;
    sorted := a[..];
  }

  /** One round of the insertion sort: `a[i]` moves left into the sorted
      prefix `a[..i]`; the rest of the array is untouched. */
  method InsertInPlace(a: array<AddressData>, i: nat, order: SortOrder, collate: (string, string) -> bool)
    requires i < a.Length
    modifies a
    ensures a[..i + 1] == Insert(old(a[..i]), old(a[i]), order, collate)
    ensures a[i + 1..] == old(a[i + 1..])
  {
    var x := a[i];
    ghost var s := a[..i];
    var j := i;
    while j > 0 && !Precedes(order, collate, a[j - 1], x)
      invariant 0 <= j <= i
      invariant forall k :: 0 <= k < j ==> a[k] == s[k]
      invariant forall k :: j < k <= i ==> a[k] == s[k - 1]
      invariant forall k :: j <= k < i ==> !Precedes(order, collate, s[k], x)
      invariant a[i + 1..] == old(a[i + 1..])
    {
      a[j] := a[j - 1];
      j := j - 1;
    }
    a[j] := x;
    assert a[..i + 1][j] == x;
    ShiftedIsInsert(s, x, j, a[..i + 1], order, collate);
  }
}
