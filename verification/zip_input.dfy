/** `handleZipCodeInput` (src/components/AddressSearch.tsx), the string part:
    keep digits and hyphens, insert a hyphen after three digits when the
    user typed none, and keep at most eight characters (`XXX-XXXX`). */
module ZipInput {
  import opened Text
  import opened JsMath

  predicate IsZipChar(c: char) {
    IsDigit(c) || c == '-'
  }

  predicate AllZipChars(s: string) {
    forall k :: 0 <= k < |s| ==> IsZipChar(s[k])
  }

  /** `value.replace(/[^\d-]/g, "")`. */
  function CleanZip(value: string): (r: string)
    ensures |r| <= |value| && AllZipChars(r)
    ensures AllZipChars(value) ==> r == value
    ensures |value| == 1 ==> r == (if IsZipChar(value[0]) then value else [])
  {
    if value == [] then []
    else (if IsZipChar(value[0]) then [value[0]] else []) + CleanZip(value[1..])
  }

  /** Together with the single-character case above, this fixes CleanZip on
      every string: it distributes over concatenation. */
  lemma {:induction false} CleanZipAppend(a: string, b: string)
    ensures CleanZip(a + b) == CleanZip(a) + CleanZip(b)
  {
    if a != [] {
      assert (a + b)[1..] == a[1..] + b;
      CleanZipAppend(a[1..], b);
    } else {
      assert a + b == b;
    }
  }

  /** Cleaning drops no digit: the digits of the input survive it unchanged. */
  lemma {:induction false} CleanZipKeepsDigits(value: string)
    ensures DigitsOnly(CleanZip(value)) == DigitsOnly(value)
  {
    if value != [] {
      CleanZipKeepsDigits(value[1..]);
      var head := if IsZipChar(value[0]) then [value[0]] else [];
      DigitsOnlyAppend(head, CleanZip(value[1..]));
    }
  }

  /** `String.prototype.substring` for the arguments the formatter passes:
      both are clipped to `[0, |s|]` and swapped when out of order. */
  function Substring(s: string, start: int, end: int): (r: string)
    ensures |r| <= |s|
  {
    var a := if start < 0 then 0 else if start > |s| then |s| else start;
    var b := if end < 0 then 0 else if end > |s| then |s| else end;
    if a <= b then s[a..b] else s[b..a]
  }

  /** The local `formatted` of the handler. */
  function Formatted(value: string): string {
    var cleaned := CleanZip(value);
    if |cleaned| > 3 && '-' !in cleaned then cleaned[..3] + "-" + Substring(cleaned, 3, 7)
    else cleaned
  }

  /** What the handler stores as `searchQuery`: `formatted.substring(0, 8)`. */
  function StoredQuery(value: string): string {
    Substring(Formatted(value), 0, 8)
  }

  lemma SubstringFrom(s: string, a: nat, b: nat)
    requires a <= |s| && a <= b
    ensures Substring(s, a, b) == s[a..Min(b, |s|)]
  {
  }

  lemma AllZipCharsSlice(s: string, a: nat, b: nat)
    requires AllZipChars(s) && a <= b <= |s|
    ensures AllZipChars(s[a..b])
  {
    forall k | 0 <= k < b - a ensures IsZipChar(s[a..b][k]) {
      assert s[a..b][k] == s[a + k];
    }
  }

  /** `formatted`, case by case: the hyphen goes in only when more than three
      characters were kept and none of them is a hyphen. */
  lemma FormattedCases(value: string)
    ensures var c, f := CleanZip(value), Formatted(value);
            && AllZipChars(f)
            && (|c| > 3 && '-' !in c ==> f == c[..3] + "-" + c[3..Min(7, |c|)] && |f| <= 8)
            && (|c| <= 3 || '-' in c ==> f == c)
  {
    var c := CleanZip(value);
    if |c| > 3 && '-' !in c {
      var m := Min(7, |c|);
      SubstringFrom(c, 3, 7);
      var f := c[..3] + "-" + c[3..m];
      AllZipCharsSlice(c, 0, 3);
      AllZipCharsSlice(c, 3, m);
      forall k | 0 <= k < |f| ensures IsZipChar(f[k]) {
        if k < 3 {
          assert f[k] == c[..3][k];
        } else if k > 3 {
          assert f[k] == c[3..m][k - 4];
        }
      }
    }
  }

  /** The stored query is `formatted` cut to eight characters. */
  lemma StoredQueryCut(value: string)
    ensures var f := Formatted(value);
            StoredQuery(value) == f[..Min(8, |f|)]
  {
    SubstringFrom(Formatted(value), 0, 8);
  }

  /** The stored query is at most eight characters of digits and hyphens, and
      empty exactly when `formatted` is (which decides whether a search is
      started); without a hyphen typed, more than three characters come out
      as the first three, a hyphen and the next four at most. */
  lemma StoredQueryShape(value: string)
    ensures var q, cleaned := StoredQuery(value), CleanZip(value);
            && |q| <= 8 && AllZipChars(q)
            && (|q| == 0 <==> |Formatted(value)| == 0)
            && (|cleaned| > 3 && '-' !in cleaned ==>
                  q == cleaned[..3] + "-" + cleaned[3..Min(7, |cleaned|)])
            && (|cleaned| <= 3 || '-' in cleaned ==> q == cleaned[..Min(8, |cleaned|)])
  {
    var f := Formatted(value);
    FormattedCases(value);
    StoredQueryCut(value);
    AllZipCharsSlice(f, 0, Min(8, |f|));
    if |f| <= 8 {
      assert f[..|f|] == f;
    }
  }

  lemma PrefixDigits(s: string, m: nat)
    requires m <= |s|
    ensures StartsWith(DigitsOnly(s), DigitsOnly(s[..m]))
  {
    assert s == s[..m] + s[m..];
    DigitsOnlyAppend(s[..m], s[m..]);
  }

  lemma HyphenDigits(x: string, y: string)
    ensures DigitsOnly(x + "-" + y) == DigitsOnly(x + y)
  {
    DigitsOnlyAppend(x + "-", y);
    DigitsOnlyAppend(x, "-");
    DigitsOnlyAppend(x, y);
    assert DigitsOnly("-") == [];
  }

  /** The digits of the stored query are those of the first `m` kept
      characters, for some `m`. */
  lemma StoredQueryDigits(value: string) returns (m: nat)
    ensures var c := CleanZip(value);
            && m == (if |c| > 3 && '-' !in c then Min(7, |c|) else Min(8, |c|))
            && DigitsOnly(StoredQuery(value)) == DigitsOnly(c[..m])
  {
    var c := CleanZip(value);
    StoredQueryShape(value);
    if |c| > 3 && '-' !in c {
      m := Min(7, |c|);
      HyphenDigits(c[..3], c[3..m]);
      assert c[..3] + c[3..m] == c[..m];
    } else {
      m := Min(8, |c|);
    }
  }

  /** The formatter never invents, reorders or repeats a digit: the stored
      query's digits are a prefix of the typed digits. */
  lemma StoredQueryDigitsArePrefix(value: string)
    ensures StartsWith(DigitsOnly(value), DigitsOnly(StoredQuery(value)))
  {
    var m := StoredQueryDigits(value);
    CleanZipKeepsDigits(value);
    PrefixDigits(CleanZip(value), m);
  }

  /** With no hyphen typed and at most seven digit or hyphen characters kept,
      no digit is lost. */
  lemma StoredQueryKeepsShortDigits(value: string)
    requires '-' !in CleanZip(value) && |CleanZip(value)| <= 7
    ensures DigitsOnly(StoredQuery(value)) == DigitsOnly(value)
  {
    var c := CleanZip(value);
    var m := StoredQueryDigits(value);
    assert c[..m] == c;
    CleanZipKeepsDigits(value);
  }

  /** The input field holds at most eight characters (`maxLength={8}`); on
      such input, formatting what was stored changes nothing more. */
  lemma StoredQueryIdempotent(value: string)
    requires |value| <= 8
    ensures StoredQuery(StoredQuery(value)) == StoredQuery(value)
  {
    var cleaned := CleanZip(value);
    StoredQueryShape(value);
    var q := StoredQuery(value);
    StoredQueryShape(q);
    assert CleanZip(q) == q;
    if |cleaned| > 3 && '-' !in cleaned {
      assert q[3] == '-';
    } else {
      assert q == cleaned;
    }
  }
}
