/** String primitives the search engine relies on: ECMAScript `trim`, the
    `replace(/[^\d]/g, "")` digit filter, `toLowerCase`, `startsWith` and
    `includes`, each stated over `seq<char>`. */
module Text {

  /** `\d` in an ECMAScript regular expression without the `u` flag: ASCII 0-9. */
  predicate IsDigit(c: char) {
    '0' <= c <= '9'
  }

  /** The WhiteSpace and LineTerminator code points that `String.prototype.trim` removes. */
  predicate IsSpace(c: char) {
    || c == ' ' || c == '\t' || c == '\n' || c == '\r'
    || c == '\U{000B}' || c == '\U{000C}' || c == '\U{00A0}' || c == '\U{1680}'
    || ('\U{2000}' <= c <= '\U{200A}')
    || c == '\U{2028}' || c == '\U{2029}' || c == '\U{202F}' || c == '\U{205F}'
    || c == '\U{3000}' || c == '\U{FEFF}'
  }

  predicate AllSpace(s: string) {
    forall k :: 0 <= k < |s| ==> IsSpace(s[k])
  }

  /** Where the text of `s` starts once leading white space is skipped from `lo`. */
  function SkipSpace(s: string, lo: nat): (n: nat)
    requires lo <= |s|
    ensures lo <= n <= |s|
    ensures forall k :: lo <= k < n ==> IsSpace(s[k])
    ensures n == |s| || !IsSpace(s[n])
    decreases |s| - lo
  {
    if lo < |s| && IsSpace(s[lo]) then SkipSpace(s, lo + 1) else lo
  }

  /** Where the text of `s[lo..hi]` ends once trailing white space is dropped. */
  function SkipSpaceBack(s: string, lo: nat, hi: nat): (m: nat)
    requires lo <= hi <= |s|
    ensures lo <= m <= hi
    ensures forall k :: m <= k < hi ==> IsSpace(s[k])
    ensures m == lo || !IsSpace(s[m - 1])
    decreases hi
  {
    if lo < hi && IsSpace(s[hi - 1]) then SkipSpaceBack(s, lo, hi - 1) else hi
  }

  /** `String.prototype.trim`: the result is the slice `s[i..i + |r|]` with
      white space only around it, and it is empty exactly when `s` is all
      white space. */
  function Trim(s: string): (r: string)
    ensures r == [] <==> AllSpace(s)
    ensures r == [] || (!IsSpace(r[0]) && !IsSpace(r[|r| - 1]))
    ensures exists i :: 0 <= i <= |s| - |r| && r == s[i..i + |r|]
                        && AllSpace(s[..i]) && AllSpace(s[i + |r|..])
  {
    var n := SkipSpace(s, 0);
    var m := SkipSpaceBack(s, n, |s|);
    assert AllSpace(s[..n]) && AllSpace(s[m..]);
    assert n == m ==> n == |s|;
    assert s[..|s|] == s;
    assert n < m ==> s[n..m][0] == s[n] && s[n..m][m - n - 1] == s[m - 1];
    s[n..m]
  }

  /** `replace(/[^\d]/g, "")`: keeps the ASCII digits of `s`, in order. */
  function DigitsOnly(s: string): (r: string)
    ensures |r| <= |s|
    ensures forall k :: 0 <= k < |r| ==> IsDigit(r[k])
    ensures (forall k :: 0 <= k < |s| ==> IsDigit(s[k])) ==> r == s
    ensures |s| == 1 ==> r == (if IsDigit(s[0]) then s else [])
  {
    if s == [] then []
    else (if IsDigit(s[0]) then [s[0]] else []) + DigitsOnly(s[1..])
  }

  /** Together with the single-character case of the definition, this fixes
      DigitsOnly on every string: it distributes over concatenation. */
  lemma {:induction false} DigitsOnlyAppend(a: string, b: string)
    ensures DigitsOnly(a + b) == DigitsOnly(a) + DigitsOnly(b)
  {
    if a != [] {
      assert (a + b)[1..] == a[1..] + b;
      DigitsOnlyAppend(a[1..], b);
    } else {
      assert a + b == b;
    }
  }

  /** The capitals `toLowerCase` is modelled on: ASCII A-Z and full-width Ａ-Ｚ. */
  predicate IsUpper(c: char) {
    'A' <= c <= 'Z' || '\U{FF21}' <= c <= '\U{FF3A}'
  }

  /** Lowers one character: each capital moves to its small letter, 32 code
      points on in both alphabets; anything else is left alone. */
  function LowerChar(c: char): (d: char)
    ensures 'A' <= c <= 'Z' ==> d as int == c as int + 32
    ensures '\U{FF21}' <= c <= '\U{FF3A}' ==> d as int == c as int + 32
    ensures !IsUpper(c) ==> d == c
  {
    if IsUpper(c) then (c as int + 32) as char else c
  }

  /** `toLowerCase`, restricted to the Latin letters LowerChar knows:
      same length, character by character, and no upper-case letter left. */
  function ToLower(s: string): (r: string)
    ensures |r| == |s|
    ensures forall k :: 0 <= k < |s| ==> r[k] == LowerChar(s[k])
    ensures forall k :: 0 <= k < |r| ==> !IsUpper(r[k])
  {
    seq(|s|, k requires 0 <= k < |s| => LowerChar(s[k]))
  }

  lemma ToLowerIdempotent(s: string)
    ensures ToLower(ToLower(s)) == ToLower(s)
  {
    assert forall k :: 0 <= k < |s| ==> LowerChar(LowerChar(s[k])) == LowerChar(s[k]);
  }

  /** `startsWith`. */
  predicate StartsWith(s: string, prefix: string) {
    |prefix| <= |s| && s[..|prefix|] == prefix
  }

  /** `needle` occurs in `hay` at position `i`. */
  predicate OccursAt(hay: string, needle: string, i: int) {
    0 <= i && i + |needle| <= |hay| && hay[i..i + |needle|] == needle
  }

  /** `includes`: true exactly when `needle` occurs somewhere in `hay`. */
  function Contains(hay: string, needle: string): (r: bool)
    ensures r <==> exists i :: OccursAt(hay, needle, i)
    decreases |hay|
  {
    if |needle| > |hay| then
      false
    else if hay[..|needle|] == needle then
      assert OccursAt(hay, needle, 0);
      true
    else
      var r := Contains(hay[1..], needle);
      assert forall i :: OccursAt(hay[1..], needle, i) <==> OccursAt(hay, needle, i + 1) by {
        forall i | OccursAt(hay[1..], needle, i) || OccursAt(hay, needle, i + 1)
          ensures hay[1..][i..i + |needle|] == hay[i + 1..i + 1 + |needle|]
        {}
      }
      assert r ==> exists i :: OccursAt(hay, needle, i) by {
        if r {
          var i :| OccursAt(hay[1..], needle, i);
          assert OccursAt(hay, needle, i + 1);
        }
      }
      assert (exists i :: OccursAt(hay, needle, i)) ==> r by {
        if exists i :: OccursAt(hay, needle, i) {
          var i :| OccursAt(hay, needle, i);
          assert i != 0;
          assert OccursAt(hay[1..], needle, i - 1);
        }
      }
      r
  }
}
