/** The Python string primitives the trainer reader relies on: the `\s` and `\w`
    character classes, `str.strip()`, `str.lower()`, `str.count()` and `''.join()`. */
module Text {

  /** Python's `str.isspace()`. A `str` pattern's `\s` class and `str.strip()`
      both use exactly this set. */
  predicate IsSpace(c: char) {
    || ('\t' <= c <= '\r')            // tab, line feed, vertical tab, form feed, carriage return
    || ('\U{1C}' <= c <= ' ')         // the four information separators and the space
    || c == '\U{85}' || c == '\U{A0}' || c == '\U{1680}'
    || ('\U{2000}' <= c <= '\U{200A}')
    || c == '\U{2028}' || c == '\U{2029}' || c == '\U{202F}' || c == '\U{205F}' || c == '\U{3000}'
  }

  /** The `\w` class over ASCII: letters, digits and the underscore. */
  predicate IsWordChar(c: char) {
    ('a' <= c <= 'z') || ('A' <= c <= 'Z') || ('0' <= c <= '9') || c == '_'
  }

  lemma WordCharIsNotSpace(c: char)
    requires IsWordChar(c)
    ensures !IsSpace(c)
  {
  }

  predicate AllSpace(s: string) {
    forall k :: 0 <= k < |s| ==> IsSpace(s[k])
  }

  predicate AllWord(s: string) {
    forall k :: 0 <= k < |s| ==> IsWordChar(s[k])
  }

  /** The first index at or after `i` that does not hold whitespace (`|s|` if none):
      where a greedy `\s*` starting at `i` stops. */
  function SkipSpace(s: string, i: nat): (r: nat)
    requires i <= |s|
    ensures i <= r <= |s|
    ensures forall p :: i <= p < r ==> IsSpace(s[p])
    ensures r == |s| || !IsSpace(s[r])
    decreases |s| - i
  {
    if i == |s| || !IsSpace(s[i]) then i else SkipSpace(s, i + 1)
  }

  /** The first index at or after `i` that does not hold a word character (`|s|` if
      none): where a greedy `\w+` starting at `i` stops. */
  function WordEnd(s: string, i: nat): (r: nat)
    requires i <= |s|
    ensures i <= r <= |s|
    ensures forall p :: i <= p < r ==> IsWordChar(s[p])
    ensures r == |s| || !IsWordChar(s[r])
    decreases |s| - i
  {
    if i == |s| || !IsWordChar(s[i]) then i else WordEnd(s, i + 1)
  }

  /** The first index at or after `i` that holds `c` (`|s|` if none): where a
      greedy `[^c]+` starting at `i` stops. */
  function Until(s: string, i: nat, c: char): (r: nat)
    requires i <= |s|
    ensures i <= r <= |s|
    ensures forall p :: i <= p < r ==> s[p] != c
    ensures r == |s| || s[r] == c
    decreases |s| - i
  {
    if i == |s| || s[i] == c then i else Until(s, i + 1, c)
  }

  /** Whitespace, then a non-space character or the end: `SkipSpace` stops exactly there. */
  lemma SkipSpaceAt(s: string, i: nat, m: nat)
    requires i <= m <= |s|
    requires AllSpace(s[i..m])
    requires m == |s| || !IsSpace(s[m])
    ensures SkipSpace(s, i) == m
  {
    assert forall p :: i <= p < m ==> s[i..m][p - i] == s[p];
  }

  /** Word characters, then a non-word character or the end: `WordEnd` stops exactly there. */
  lemma WordEndAt(s: string, i: nat, m: nat)
    requires i <= m <= |s|
    requires AllWord(s[i..m])
    requires m == |s| || !IsWordChar(s[m])
    ensures WordEnd(s, i) == m
  {
    assert forall p :: i <= p < m ==> s[i..m][p - i] == s[p];
  }

  /** Characters other than `c`, then `c` or the end: `Until` stops exactly there. */
  lemma UntilAt(s: string, i: nat, c: char, m: nat)
    requires i <= m <= |s|
    requires forall k :: 0 <= k < m - i ==> s[i..m][k] != c
    requires m == |s| || s[m] == c
    ensures Until(s, i, c) == m
  {
    assert forall p :: i <= p < m ==> s[i..m][p - i] == s[p];
  }

  /** The end of `s[lo..hi]` once trailing whitespace is dropped. */
  function TrimEnd(s: string, lo: nat, hi: nat): (r: nat)
    requires lo <= hi <= |s|
    ensures lo <= r <= hi
    ensures forall p :: r <= p < hi ==> IsSpace(s[p])
    ensures r == lo || !IsSpace(s[r - 1])
    decreases hi
  {
    if hi == lo || !IsSpace(s[hi - 1]) then hi else TrimEnd(s, lo, hi - 1)
  }

  /** Python's `str.strip()` with no argument: drops leading and trailing whitespace. */
  function Strip(s: string): (r: string)
    ensures |r| == 0 || (!IsSpace(r[0]) && !IsSpace(r[|r| - 1]))
    ensures exists lo: nat, hi: nat ::
              lo <= hi <= |s| && r == s[lo..hi] && AllSpace(s[..lo]) && AllSpace(s[hi..])
  {
    var lo := SkipSpace(s, 0);
    var hi := TrimEnd(s, lo, |s|);
    assert AllSpace(s[..lo]) by {
      assert forall k :: 0 <= k < lo ==> s[..lo][k] == s[k];
    }
    assert AllSpace(s[hi..]) by {
      assert forall k :: 0 <= k < |s| - hi ==> s[hi..][k] == s[hi + k];
    }
    s[lo..hi]
  }

  /** `Strip` removes exactly the whitespace padding around a text that neither
      starts nor ends with whitespace. */
  lemma {:induction false} StripPadded(lead: string, t: string, trail: string)
    requires AllSpace(lead) && AllSpace(trail)
    requires |t| == 0 || (!IsSpace(t[0]) && !IsSpace(t[|t| - 1]))
    ensures Strip(lead + t + trail) == t
  {
    var s := lead + t + trail;
    if |t| == 0 {
      assert s == lead + trail;
      assert AllSpace(s[0..|s|]) by {
        forall k | 0 <= k < |s|
          ensures IsSpace(s[0..|s|][k])
        {
          if k < |lead| {
            assert s[k] == lead[k];
          } else {
            assert s[k] == trail[k - |lead|];
          }
        }
      }
      SkipSpaceAt(s, 0, |s|);
    } else {
      assert AllSpace(s[0..|lead|]) by {
        assert s[0..|lead|] == lead;
      }
      assert s[|lead|] == t[0];
      SkipSpaceAt(s, 0, |lead|);
      var hi := |lead| + |t|;
      assert s[hi - 1] == t[|t| - 1];
      assert forall p :: hi <= p < |s| ==> s[p] == trail[p - hi];
      assert s[|lead|..hi] == t;
    }
  }

  /** Python's `str.lower()` on one character: ASCII upper-case letters become lower case. */
  function LowerChar(c: char): char {
    if 'A' <= c <= 'Z' then (c as int - 'A' as int + 'a' as int) as char else c
  }

  /** Python's `str.lower()`, which changes the text character by character. */
  function Lower(s: string): (r: string)
    ensures |r| == |s|
    ensures forall k :: 0 <= k < |s| ==> r[k] == LowerChar(s[k])
  {
    if |s| == 0 then "" else [LowerChar(s[0])] + Lower(s[1..])
  }

  /** Python's `str.count(c)` for a one-character argument. */
  function Count(s: string, c: char): (n: nat)
    ensures n <= |s|
    ensures n == 0 <==> forall k :: 0 <= k < |s| ==> s[k] != c
    ensures |s| == 1 ==> n == (if s[0] == c then 1 else 0)
  {
    if |s| == 0 then 0 else (if s[0] == c then 1 else 0) + Count(s[1..], c)
  }

  /** `Count` is the number of occurrences: the multiplicity of `c` in the
      multiset of the text's characters. */
  lemma {:induction false} CountOccurrences(s: string, c: char)
    ensures Count(s, c) == multiset(s)[c]
  {
    if |s| > 0 {
      CountOccurrences(s[1..], c);
      assert s == [s[0]] + s[1..];
      assert multiset(s) == multiset{s[0]} + multiset(s[1..]);
    }
  }

  /** Counting over a concatenation adds the two counts. */
  lemma {:induction false} CountAppend(a: string, b: string, c: char)
    ensures Count(a + b, c) == Count(a, c) + Count(b, c)
  {
    if |a| > 0 {
      assert (a + b)[1..] == a[1..] + b;
      CountAppend(a[1..], b, c);
    } else {
      assert a + b == b;
    }
  }

  /** Python's `''.join(parts)`. */
  function Concat(parts: seq<string>): (r: string)
    ensures |parts| == 0 ==> r == ""
  {
    if |parts| == 0 then "" else parts[0] + Concat(parts[1..])
  }

  /** Joining is compatible with splitting the list of parts anywhere. */
  lemma {:induction false} ConcatAppend(a: seq<string>, b: seq<string>)
    ensures Concat(a + b) == Concat(a) + Concat(b)
  {
    if |a| == 0 {
      assert a + b == b;
    } else {
      assert (a + b)[1..] == a[1..] + b;
      ConcatAppend(a[1..], b);
    }
  }

  /** Python's `sep.join(parts)`. */
  function Join(parts: seq<string>, sep: string): (r: string)
    ensures |parts| == 1 ==> r == parts[0]
  {
    if |parts| == 0 then ""
    else if |parts| == 1 then parts[0]
    else parts[0] + sep + Join(parts[1..], sep)
  }
}
