/**
 * The handful of Python `str` operations the message router relies on, restricted
 * to ASCII: whitespace as `str.isspace()` and the regex class `\s` see it,
 * `lower()`, `upper()`, `strip()`, `in`, `startswith()` and `split()`.
 */
module Text {
  import opened Wrappers

  /** ASCII whitespace: space, tab, line feed, vertical tab, form feed, carriage
      return and the four separators 0x1C..0x1F that Python also counts. */
  predicate IsSpace(c: char) {
    c == ' ' || ('\t' <= c <= '\r') || ('\U{1C}' <= c <= '\U{1F}')
  }

  predicate AllSpace(s: string) {
    forall i | 0 <= i < |s| :: IsSpace(s[i])
  }

  predicate NoSpace(s: string) {
    forall i | 0 <= i < |s| :: !IsSpace(s[i])
  }

  function LowerChar(c: char): char {
    if 'A' <= c <= 'Z' then (c as int + 32) as char else c
  }

  function UpperChar(c: char): char {
    if 'a' <= c <= 'z' then (c as int - 32) as char else c
  }

  /** `s.lower()` on ASCII letters: no upper-case letter is left, and each
      character is the original one up to case. */
  function Lower(s: string): (r: string)
    ensures |r| == |s|
    ensures forall i | 0 <= i < |r| :: !('A' <= r[i] <= 'Z') && UpperChar(r[i]) == UpperChar(s[i])
  {
    seq(|s|, i requires 0 <= i < |s| => LowerChar(s[i]))
  }

  /** `s.upper()` on ASCII letters: no lower-case letter is left, and each
      character is the original one up to case. */
  function Upper(s: string): (r: string)
    ensures |r| == |s|
    ensures forall i | 0 <= i < |r| :: !('a' <= r[i] <= 'z') && LowerChar(r[i]) == LowerChar(s[i])
  {
    seq(|s|, i requires 0 <= i < |s| => UpperChar(s[i]))
  }

  /** Case mapping never turns a space into a non-space or back. */
  lemma CaseKeepsSpace(c: char)
    ensures IsSpace(LowerChar(c)) == IsSpace(c)
    ensures IsSpace(UpperChar(c)) == IsSpace(c)
  {
  }

  /** `s.lstrip()`: drops the leading whitespace. */
  function TrimStart(s: string): (r: string)
    ensures |r| <= |s| && r == s[|s| - |r|..]
    ensures AllSpace(s[..|s| - |r|])
    ensures r == [] || !IsSpace(r[0])
  {
    var n := LeadingSpace(s, 0);
    assert forall k | 0 <= k < n :: s[..n][k] == s[k];
    s[n..]
  }

  /** Where the run of whitespace that starts at index `i` of `s` ends. */
  function LeadingSpace(s: string, i: nat): (n: nat)
    requires i <= |s|
    ensures i <= n <= |s|
    ensures forall k | i <= k < n :: IsSpace(s[k])
    ensures n == |s| || !IsSpace(s[n])
    decreases |s| - i
  {
    if i < |s| && IsSpace(s[i]) then LeadingSpace(s, i + 1) else i
  }

  /** The contract of `TrimStart` fixes its result: the cut falls at the first
      non-whitespace character. */
  lemma TrimStartIs(s: string, r: string)
    requires |r| <= |s| && r == s[|s| - |r|..] && AllSpace(s[..|s| - |r|])
    requires r == [] || !IsSpace(r[0])
    ensures TrimStart(s) == r
  {
    var n := LeadingSpace(s, 0);
  }

  /** `lstrip` drops one leading whitespace character at a time. */
  lemma TrimStartStep(s: string)
    ensures s != [] && IsSpace(s[0]) ==> TrimStart(s) == TrimStart(s[1..])
    ensures s == [] || !IsSpace(s[0]) ==> TrimStart(s) == s
  {
    if s != [] && IsSpace(s[0]) {
      var r := TrimStart(s[1..]);
      LeadingStep(s, r);
      TrimStartIs(s, r);
    } else {
      TrimStartIs(s, s);
    }
  }

  /** `s.rstrip()`: drops the trailing whitespace. */
  function TrimEnd(s: string): (r: string)
    ensures |r| <= |s| && r == s[..|r|]
    ensures AllSpace(s[|r|..])
    ensures r == [] || !IsSpace(r[|r| - 1])
  {
    var n := TrailingSpace(s, |s|);
    assert forall k | 0 <= k < |s| - n :: s[n..][k] == s[n + k];
    s[..n]
  }

  /** Where the run of whitespace that ends at index `j` of `s` begins. */
  function TrailingSpace(s: string, j: nat): (n: nat)
    requires j <= |s|
    ensures n <= j
    ensures forall k | n <= k < j :: IsSpace(s[k])
    ensures n == 0 || !IsSpace(s[n - 1])
    decreases j
  {
    if j > 0 && IsSpace(s[j - 1]) then TrailingSpace(s, j - 1) else j
  }

  /** A whitespace character in front of what `lstrip` keeps of the rest. */
  lemma LeadingStep(s: string, r: string)
    requires s != [] && IsSpace(s[0])
    requires |r| <= |s[1..]| && r == s[1..][|s[1..]| - |r|..] && AllSpace(s[1..][..|s[1..]| - |r|])
    ensures |r| <= |s| && r == s[|s| - |r|..] && AllSpace(s[..|s| - |r|])
  {
    forall k | 0 <= k < |s| - |r| ensures IsSpace(s[k]) {
      if k > 0 {
        assert s[k] == s[1..][..|s[1..]| - |r|][k - 1];
      }
    }
  }

  /** `s.strip()`. */
  function Strip(s: string): (r: string)
    ensures |r| <= |s|
    ensures r == [] || (!IsSpace(r[0]) && !IsSpace(r[|r| - 1]))
  {
    var t := TrimStart(s);
    var e := TrimEnd(t);
    assert e != [] ==> e[0] == t[0];
    e
  }

  /** `r` is the slice of `s` at offset `a`, with only whitespace around it. */
  predicate StripAt(s: string, a: nat, r: string) {
    && a + |r| <= |s| && r == s[a..a + |r|]
    && AllSpace(s[..a]) && AllSpace(s[a + |r|..])
    && (r == [] ==> a == |s|)
  }

  /** Whatever `strip()` keeps is one contiguous slice of `s`, starting at
      offset `a`, with only whitespace around it. */
  lemma StripFacts(s: string, r: string) returns (a: nat)
    requires r == Strip(s)
    ensures StripAt(s, a, r)
  {
    var t := TrimStart(s);
    var e := TrimEnd(t);
    assert r == e;
    StripAround(s, t, |s| - |t|, e);
    a := |s| - |t|;
  }

  /** `strip()` keeps one contiguous slice of `s`, with only whitespace around
      it and no whitespace at either of its ends: the facts about the two trims
      put together. */
  lemma StripAround(s: string, t: string, a: nat, r: string)
    requires |t| <= |s| && t == s[|s| - |t|..] && AllSpace(s[..|s| - |t|]) && a == |s| - |t|
    requires t == [] || !IsSpace(t[0])
    requires |r| <= |t| && r == t[..|r|] && AllSpace(t[|r|..])
    requires r == [] || !IsSpace(r[|r| - 1])
    ensures a + |r| <= |s| && r == s[a..a + |r|]
    ensures AllSpace(s[..a]) && AllSpace(s[a + |r|..])
    ensures r == [] || (!IsSpace(r[0]) && !IsSpace(r[|r| - 1]))
    ensures r == [] ==> a == |s|
  {
    assert t[|r|..] == s[a + |r|..];
    if r != [] {
      assert r[0] == t[0];
    }
  }

  /** Is `pat` found in `s` starting at index `i`? */
  predicate MatchAt(s: string, pat: string, i: int) {
    0 <= i && i + |pat| <= |s| && s[i..i + |pat|] == pat
  }

  /** The leftmost search behind `in` and `re.search`: the first index at or
      after `from` where `pat` occurs. */
  function IndexFrom(s: string, pat: string, from: nat): (r: Option<nat>)
    ensures r.Some? ==> from <= r.value && MatchAt(s, pat, r.value)
    ensures forall j | from <= j && (r.None? || j < r.value) :: !MatchAt(s, pat, j)
    decreases |s| - from
  {
    if from + |pat| > |s| then None
    else if s[from..from + |pat|] == pat then Some(from)
    else IndexFrom(s, pat, from + 1)
  }

  /** The search reports the first occurrence and no other. */
  lemma FirstMatchIs(s: string, pat: string, m: nat)
    requires MatchAt(s, pat, m) && forall j | 0 <= j < m :: !MatchAt(s, pat, j)
    ensures IndexFrom(s, pat, 0) == Some(m)
  {
  }

  /** Python's `pat in s`. */
  function Contains(s: string, pat: string): (b: bool)
    ensures b <==> exists i :: MatchAt(s, pat, i)
  {
    IndexFrom(s, pat, 0).Some?
  }

  /** `s.startswith(p)`: the leftmost occurrence of `p` is at the very start. */
  function StartsWith(s: string, p: string): (b: bool)
    ensures b <==> IndexFrom(s, p, 0) == Some(0)
  {
    |p| <= |s| && s[..|p|] == p
  }

  /** A pattern one of whose characters never occurs in `s` does not occur in `s`. */
  lemma MissingCharMeansAbsent(s: string, pat: string, i: nat)
    requires i < |pat|
    requires forall p | 0 <= p < |s| :: s[p] != pat[i]
    ensures !Contains(s, pat)
  {
    forall k ensures !MatchAt(s, pat, k) {
      if 0 <= k && k + |pat| <= |s| {
        assert s[k..k + |pat|][i] == s[k + i];
      }
    }
  }

  /** Indexing into a slice, stated for any indices so that it can be used as a fact. */
  lemma SliceIndex(s: string, lo: int, hi: int, i: int)
    ensures 0 <= lo <= hi <= |s| && 0 <= i < hi - lo ==> s[lo..hi][i] == s[lo + i]
  {
  }

  /** Lower-casing commutes with slicing. */
  lemma LowerSlice(s: string, lo: nat, hi: nat)
    requires lo <= hi <= |s|
    ensures Lower(s)[lo..hi] == Lower(s[lo..hi])
  {
  }

  /** A slice of a slice is a slice. */
  lemma SliceOfSlice(s: string, lo: nat, hi: nat, a: nat, b: nat)
    requires lo <= hi <= |s| && a <= b <= hi - lo
    ensures s[lo..hi][a..b] == s[lo + a..lo + b]
  {
    forall k | 0 <= k < b - a ensures s[lo..hi][a..b][k] == s[lo + a..lo + b][k] {
      assert s[lo..hi][a + k] == s[lo + a + k];
    }
  }

  /** A piece of a piece of `s` is a piece of `s`. */
  lemma MatchTrans(s: string, a: int, t: string, b: int, w: string)
    requires MatchAt(s, t, a) && MatchAt(t, w, b)
    ensures MatchAt(s, w, a + b)
  {
    SliceOfSlice(s, a, a + |t|, b, b + |w|);
  }
}
