/**
 * `" ".join(q.split())`: the whitespace collapse applied to the extracted SQL
 * statement (main.py line 209), with Python's `str.split()` (no separator):
 * maximal runs of non-whitespace, with empty pieces dropped.
 */
module Whitespace {
  import opened Text

  /** Length of the leading run of non-whitespace characters. */
  function WordLength(s: string): (n: nat)
    ensures n <= |s| && NoSpace(s[..n])
    ensures n < |s| ==> IsSpace(s[n])
  {
    if s == [] || IsSpace(s[0]) then 0
    else
      var n := WordLength(s[1..]);
      assert s[..n + 1] == [s[0]] + s[1..][..n];
      n + 1
  }

  /** A list of words as `split()` produces them: non-empty, no whitespace. */
  predicate Words(words: seq<string>) {
    forall k | 0 <= k < |words| :: words[k] != [] && NoSpace(words[k])
  }

  /** `s.split()`. */
  function Split(s: string): (words: seq<string>)
    ensures Words(words)
    decreases |s|
  {
    var t := TrimStart(s);
    if t == [] then []
    else
      var n := WordLength(t);
      [t[..n]] + Split(t[n..])
  }

  /** One step of `split()`: skip whitespace, cut off the first word. */
  lemma SplitStep(s: string, t: string, n: nat)
    requires t == TrimStart(s) && t != [] && n == WordLength(t)
    ensures 0 < n <= |t| && Split(s) == [t[..n]] + Split(t[n..])
  {
  }

  lemma SplitShift(s: string, t: string, n: nat, i: nat)
    requires t == TrimStart(s) && t != [] && n == WordLength(t) && i < |Split(t[n..])|
    ensures i + 1 < |Split(s)| && Split(s)[i + 1] == Split(t[n..])[i]
  {
    SplitStep(s, t, n);
  }

  /** `" ".join(words)`: on words as `split()` produces them, a collapsed
      string, empty exactly when there are no words. */
  function Join(words: seq<string>): (r: string)
    ensures Words(words) ==> Collapsed(r) && (r == [] <==> words == [])
  {
    if words == [] then []
    else if |words| == 1 then words[0]
    else
      var rest := Join(words[1..]);
      assert Words(words) ==> Words(words[1..]) by {
        if Words(words) {
          forall k | 0 <= k < |words| - 1 ensures words[1..][k] != [] && NoSpace(words[1..][k]) {
            assert words[1..][k] == words[k + 1];
          }
        }
      }
      JoinStepCollapsed(words[0], rest);
      words[0] + " " + rest
  }

  /** `" ".join(s.split())`. */
  function Collapse(s: string): (r: string)
    ensures Collapsed(r)
  {
    Join(Split(s))
  }

  /** The only whitespace is single spaces strictly between two non-whitespace
      characters: no line breaks or tabs, no leading or trailing space, no two
      spaces in a row. */
  predicate Collapsed(s: string) {
    forall i | 0 <= i < |s| && IsSpace(s[i]) :: s[i] == ' ' && 0 < i < |s| - 1 && !IsSpace(s[i + 1])
  }

  // ---------------------------------------------------------------------------

  lemma {:induction false} WordLengthOfWord(w: string, t: string)
    requires NoSpace(w) && (t == [] || IsSpace(t[0]))
    ensures WordLength(w + t) == |w|
  {
    if w == [] {
      assert w + t == t;
    } else {
      assert (w + t)[0] == w[0];
      assert (w + t)[1..] == w[1..] + t;
      WordLengthOfWord(w[1..], t);
    }
  }

  /** A word followed by a space and more text splits off as the first word. */
  lemma SplitCons(w: string, rest: string)
    requires w != [] && NoSpace(w)
    ensures Split(w + " " + rest) == [w] + Split(rest)
  {
    var s := w + " " + rest;
    TrimStartNonSpace(s);
    WordLengthOfWord(w, " " + rest);
    assert s == w + (" " + rest);
    assert s[..|w|] == w;
    assert s[|w|..] == " " + rest;
    assert (" " + rest)[1..] == rest;
    TrimStartStep(" " + rest);
    SplitAfterSpace(" " + rest, rest);
    SplitStep(s, s, |w|);
  }

  /** A single word splits into itself. */
  lemma SplitWord(w: string)
    requires w != [] && NoSpace(w)
    ensures Split(w) == [w]
  {
    TrimStartNonSpace(w);
    WordLengthAll(w);
    SplitStep(w, w, |w|);
    var rest := w[|w|..];
    assert rest == [] && w[..|w|] == w;
    assert Split(rest) == [];
  }

  /** A text without whitespace is one word long. */
  lemma WordLengthAll(w: string)
    requires NoSpace(w)
    ensures WordLength(w) == |w|
  {
    WordLengthOfWord(w, []);
    assert w + [] == w;
  }

  /** `split()` only looks past leading whitespace. */
  lemma SplitAfterSpace(s: string, t: string)
    requires TrimStart(s) == TrimStart(t)
    ensures Split(s) == Split(t)
  {
  }

  lemma TrimStartNonSpace(s: string)
    requires s != [] && !IsSpace(s[0])
    ensures TrimStart(s) == s
  {
    TrimStartStep(s);
  }

  /** Leading whitespace is dropped across a concatenation. */
  lemma {:induction false} TrimStartAppend(a: string, x: string)
    ensures TrimStart(a + x) == if TrimStart(a) == [] then TrimStart(x) else TrimStart(a) + x
  {
    if a == [] {
      assert a + x == x;
    } else {
      assert (a + x)[0] == a[0];
      TrimStartStep(a);
      TrimStartStep(a + x);
      if IsSpace(a[0]) {
        assert (a + x)[1..] == a[1..] + x;
        TrimStartAppend(a[1..], x);
      }
    }
  }

  /** Every whitespace character separates words: `split()` of a text cut at
      one whitespace character is the split of the part before it followed by
      the split of the part after it. With `SplitWord` (a whitespace-free text
      is one word) and `SplitKeepsText` this determines `split()`: the words
      are the maximal whitespace-free runs, in order. */
  lemma SplitAtSpace(a: string, c: char, b: string)
    requires IsSpace(c)
    ensures Split(a + [c] + b) == Split(a) + Split(b)
  {
    var x := [c] + b;
    assert a + [c] + b == a + x;
    SplitBeforeSpace(a, x);
    assert x[1..] == b;
    TrimStartStep(x);
    SplitAfterSpace(x, b);
  }

  /** The split of `a + x`, where `x` starts with whitespace. */
  lemma {:induction false} SplitBeforeSpace(a: string, x: string)
    requires x != [] && IsSpace(x[0])
    ensures Split(a + x) == Split(a) + Split(x)
    decreases |a|
  {
    TrimStartAppend(a, x);
    var ta := TrimStart(a);
    if ta == [] {
      SplitAfterSpace(a + x, x);
    } else {
      var n := WordLength(ta);
      SplitStep(a, ta, n);
      var u := Regroup(ta, n, x);
      SplitFirstWord(a + x, ta[..n], u);
      SplitBeforeSpace(ta[n..], x);
      FirstWordThenRest(Split(a), Split(a + x), ta[..n], Split(ta[n..]), Split(x));
    }
  }

  /** Regrouping the words: the first word, then the rest. Stated over
      abstract sequences so that the recursive definition of `split()` stays
      out of the associativity step. */
  lemma FirstWordThenRest(before: seq<string>, after: seq<string>, w: string,
                          rest: seq<string>, tail: seq<string>)
    requires before == [w] + rest && after == [w] + (rest + tail)
    ensures after == before + tail
  {
  }

  /** Cutting the first word off `ta` in front of `x`. */
  lemma Regroup(ta: string, n: nat, x: string) returns (u: string)
    requires n <= |ta| && (n < |ta| ==> IsSpace(ta[n])) && x != [] && IsSpace(x[0])
    ensures u == ta[n..] + x && u != [] && IsSpace(u[0]) && ta + x == ta[..n] + u
  {
    u := ta[n..] + x;
    if n < |ta| {
      assert u[0] == ta[n];
    } else {
      assert u[0] == x[0];
    }
  }

  /** A first word followed by whitespace is the first element of the split. */
  lemma SplitFirstWord(s: string, w: string, rest: string)
    requires w != [] && NoSpace(w) && rest != [] && IsSpace(rest[0]) && TrimStart(s) == w + rest
    ensures Split(s) == [w] + Split(rest)
  {
    var t := w + rest;
    WordLengthOfWord(w, rest);
    SplitStep(s, t, |w|);
    assert t[..|w|] == w && t[|w|..] == rest;
  }

  /** A word, a space and a non-empty collapsed rest make a collapsed string. */
  lemma JoinStepCollapsed(w: string, rest: string)
    ensures w != [] && NoSpace(w) && rest != [] && Collapsed(rest) ==> Collapsed(w + " " + rest)
  {
    if w != [] && NoSpace(w) && rest != [] && Collapsed(rest) {
      var s := w + " " + rest;
      forall i | 0 <= i < |s|
        ensures IsSpace(s[i]) ==> s[i] == ' ' && 0 < i < |s| - 1 && !IsSpace(s[i + 1])
      {
        if i < |w| {
          assert s[i] == w[i];
        } else if i == |w| {
          assert s[i + 1] == rest[0];
        } else {
          assert s[i] == rest[i - |w| - 1];
          if i + 1 < |s| {
            assert s[i + 1] == rest[i - |w|];
          }
        }
      }
    }
  }

  /** Splitting joined words gives the words back. */
  lemma {:induction false} SplitJoin(words: seq<string>)
    requires Words(words)
    ensures Split(Join(words)) == words
  {
    if |words| == 1 {
      SplitWord(words[0]);
    } else if |words| > 1 {
      assert Words(words[1..]) by {
        forall k | 0 <= k < |words| - 1 ensures words[1..][k] != [] && NoSpace(words[1..][k]) {
          assert words[1..][k] == words[k + 1];
        }
      }
      SplitJoin(words[1..]);
      SplitJoinStep(words, Join(words[1..]));
    }
  }

  lemma SplitJoinStep(words: seq<string>, rest: string)
    requires Words(words) && |words| > 1 && rest == Join(words[1..]) && Split(rest) == words[1..]
    ensures Split(Join(words)) == words
  {
    assert Join(words) == words[0] + " " + rest;
    assert words[0] != [] && NoSpace(words[0]);
    SplitCons(words[0], rest);
    assert words == [words[0]] + words[1..];
  }

  /** The collapse keeps exactly the words it was given. */
  lemma SameWords(s: string)
    ensures Split(Collapse(s)) == Split(s)
  {
    SplitJoin(Split(s));
  }

  /** Collapsing twice changes nothing more than collapsing once. */
  lemma CollapseIdempotent(s: string)
    ensures Collapse(Collapse(s)) == Collapse(s)
  {
    SameWords(s);
  }

  /** The collapse leaves a string unchanged exactly when it is already collapsed;
      in particular its result is always collapsed. */
  lemma CollapseFixpoints(s: string)
    ensures Collapsed(Collapse(s))
    ensures Collapse(s) == s <==> Collapsed(s)
  {
    if Collapsed(s) {
      CollapsedJoinSplit(s);
    }
  }

  lemma {:induction false} CollapsedJoinSplit(s: string)
    requires Collapsed(s)
    ensures Join(Split(s)) == s
    decreases |s|
  {
    if s != [] {
      var n := WordLength(s);
      var w := s[..n];
      assert !IsSpace(s[0]);
      if n == |s| {
        assert w == s;
        SplitWord(s);
      } else {
        var u := s[n + 1..];
        assert s == w + " " + u;
        CollapsedSuffix(s, n + 1);
        CollapsedJoinSplit(u);
        SplitCons(w, u);
        var rest := Split(u);
        assert rest != [] by {
          assert u[0] == s[n + 1];
          TrimStartNonSpace(u);
        }
        assert Join([w] + rest) == w + " " + Join(rest);
      }
    }
  }

  /** What follows a space in a collapsed string is collapsed and non-empty. */
  lemma CollapsedSuffix(s: string, k: nat)
    requires Collapsed(s) && 0 < k <= |s| && IsSpace(s[k - 1])
    ensures Collapsed(s[k..]) && s[k..] != [] && !IsSpace(s[k])
  {
    var u := s[k..];
    forall i | 0 <= i < |u|
      ensures IsSpace(u[i]) ==> u[i] == ' ' && 0 < i < |u| - 1 && !IsSpace(u[i + 1])
    {
      assert u[i] == s[k + i];
      if i + 1 < |u| {
        assert u[i + 1] == s[k + i + 1];
      }
    }
  }

  // ---------------------------------------------------------------------------
  // What the collapse keeps

  /** The non-whitespace characters of `s`, in order. */
  function NonSpace(s: string): string {
    if s == [] then []
    else (if IsSpace(s[0]) then [] else [s[0]]) + NonSpace(s[1..])
  }

  function Concat(words: seq<string>): string {
    if words == [] then [] else words[0] + Concat(words[1..])
  }

  lemma ConcatCons(w: string, words: seq<string>)
    ensures Concat([w] + words) == w + Concat(words)
  {
    assert ([w] + words)[1..] == words;
  }

  lemma {:induction false} NonSpaceAppend(a: string, b: string)
    ensures NonSpace(a + b) == NonSpace(a) + NonSpace(b)
  {
    if a == [] {
      assert a + b == b;
    } else {
      assert (a + b)[0] == a[0];
      assert (a + b)[1..] == a[1..] + b;
      NonSpaceAppend(a[1..], b);
    }
  }

  lemma {:induction false} NonSpaceOfSpace(s: string)
    requires AllSpace(s)
    ensures NonSpace(s) == []
  {
    if s != [] {
      NonSpaceOfSpace(s[1..]);
    }
  }

  lemma {:induction false} NonSpaceOfWord(s: string)
    requires NoSpace(s)
    ensures NonSpace(s) == s
  {
    if s != [] {
      NonSpaceOfWord(s[1..]);
      assert s == [s[0]] + s[1..];
    }
  }

  lemma NonSpaceDrop(s: string, t: string, a: nat)
    requires a <= |s| && t == s[a..] && AllSpace(s[..a])
    ensures NonSpace(s) == NonSpace(t)
  {
    assert s == s[..a] + t;
    NonSpaceAppend(s[..a], t);
    NonSpaceOfSpace(s[..a]);
  }

  lemma NonSpaceWordThen(t: string, n: nat)
    requires n <= |t| && NoSpace(t[..n])
    ensures NonSpace(t) == t[..n] + NonSpace(t[n..])
  {
    assert t == t[..n] + t[n..];
    NonSpaceAppend(t[..n], t[n..]);
    NonSpaceOfWord(t[..n]);
  }

  /** `split()` loses no non-whitespace character and reorders none. */
  lemma {:induction false} SplitKeepsText(s: string)
    ensures Concat(Split(s)) == NonSpace(s)
    decreases |s|
  {
    var t := TrimStart(s);
    NonSpaceDrop(s, t, |s| - |t|);
    if t != [] {
      var n := WordLength(t);
      NonSpaceWordThen(t, n);
      SplitKeepsText(t[n..]);
      SplitStep(s, t, n);
      ConcatCons(t[..n], Split(t[n..]));
    }
  }

  /** Joining with single spaces adds only whitespace. */
  lemma {:induction false} JoinKeepsText(words: seq<string>)
    requires Words(words)
    ensures NonSpace(Join(words)) == Concat(words)
  {
    if |words| == 1 {
      NonSpaceOfWord(words[0]);
      assert Concat(words) == words[0] + Concat([]);
    } else if |words| > 1 {
      var w := words[0];
      JoinKeepsText(words[1..]);
      NonSpaceOfWord(w);
      NonSpaceAppend(w, " ");
      NonSpaceAppend(w + " ", Join(words[1..]));
      assert NonSpace(" ") == [] + NonSpace(" "[1..]);
    }
  }

  /** The collapse changes whitespace only: the non-whitespace characters of
      the statement come out exactly as they went in. */
  lemma CollapseKeepsText(s: string)
    ensures NonSpace(Collapse(s)) == NonSpace(s)
  {
    JoinKeepsText(Split(s));
    SplitKeepsText(s);
  }

  /** A whitespace-free pattern never starts in leading whitespace. */
  lemma OccurrenceAfterSpace(s: string, p: string, k: int, t: string, a: nat)
    requires a <= |s| && t == s[a..] && AllSpace(s[..a])
    requires p != [] && NoSpace(p) && MatchAt(s, p, k)
    ensures a <= k && MatchAt(t, p, k - a)
  {
    SliceIndex(s, k, k + |p|, 0);
    assert !IsSpace(s[k]);
    if k < a {
      SliceIndex(s, 0, a, k);
      assert false;
    }
    assert t[k - a..k - a + |p|] == s[k..k + |p|];
  }

  /** A whitespace-free pattern never straddles the end of a word. */
  lemma OccurrenceAroundWord(t: string, p: string, k: int, n: nat)
    requires n <= |t| && (n < |t| ==> IsSpace(t[n]))
    requires p != [] && NoSpace(p) && MatchAt(t, p, k)
    ensures k + |p| <= n ==> MatchAt(t[..n], p, k)
    ensures k + |p| > n ==> n < k && MatchAt(t[n..], p, k - n)
  {
    if k + |p| <= n {
      assert t[..n][k..k + |p|] == t[k..k + |p|];
    } else {
      SliceIndex(t, k, k + |p|, n - k);
      assert n < k;
      assert t[n..][k - n..k - n + |p|] == t[k..k + |p|];
    }
  }

  /** A whitespace-free pattern found in `s` lies inside one word of `s.split()`;
      `t` and `n` are the first step of the split. */
  lemma {:induction false} OccursInSomeWord(s: string, p: string, k: int, t: string, n: nat)
    returns (idx: nat, j: int)
    requires p != [] && NoSpace(p) && MatchAt(s, p, k)
    requires t == TrimStart(s) && n == WordLength(t)
    ensures idx < |Split(s)| && MatchAt(Split(s)[idx], p, j)
    decreases |s|, 1
  {
    var k' := LocateInTrimmed(s, p, k, t, n);
    if k' + |p| <= n {
      idx, j := 0, k';
      OccursInFirstWord(s, p, j, t, n);
    } else {
      idx, j := OccursAfterFirstWord(s, p, k' - n, t, n);
    }
  }

  /** Where an occurrence in `s` sits relative to the first word of `t`, the
      text after the leading whitespace. */
  lemma LocateInTrimmed(s: string, p: string, k: int, t: string, n: nat) returns (k': int)
    requires p != [] && NoSpace(p) && MatchAt(s, p, k)
    requires |t| <= |s| && t == s[|s| - |t|..] && AllSpace(s[..|s| - |t|])
    requires n <= |t| && (n < |t| ==> IsSpace(t[n]))
    ensures k' + |p| <= n ==> MatchAt(t[..n], p, k')
    ensures k' + |p| > n ==> n < k' && n < |t| && MatchAt(t[n..], p, k' - n)
  {
    var a := |s| - |t|;
    OccurrenceAfterSpace(s, p, k, t, a);
    k' := k - a;
    OccurrenceAroundWord(t, p, k', n);
  }

  /** The first word of the split is the leading run of `t`. */
  lemma OccursInFirstWord(s: string, p: string, j: int, t: string, n: nat)
    requires p != [] && t == TrimStart(s) && n == WordLength(t) && MatchAt(t[..n], p, j)
    ensures 0 < |Split(s)| && MatchAt(Split(s)[0], p, j)
  {
    SplitStep(s, t, n);
  }

  /** The same, for a pattern found after the first word. */
  lemma {:induction false} OccursAfterFirstWord(s: string, p: string, m: int, t: string, n: nat)
    returns (idx: nat, j: int)
    requires p != [] && NoSpace(p)
    requires t == TrimStart(s) && n == WordLength(t) && n < |t| && MatchAt(t[n..], p, m)
    ensures idx < |Split(s)| && MatchAt(Split(s)[idx], p, j)
    decreases |s|, 0
  {
    assert 0 < n by {
      assert !IsSpace(t[0]);
    }
    var u := t[n..];
    var tu := TrimStart(u);
    var nu := WordLength(tu);
    var i;
    i, j := OccursInSomeWord(u, p, m, tu, nu);
    idx := i + 1;
    SplitShift(s, t, n, i);
  }

  /** Any text found inside one of the words is found in their join. */
  lemma {:induction false} JoinKeepsWordText(words: seq<string>, p: string, idx: nat, j: int)
    requires Words(words) && idx < |words| && MatchAt(words[idx], p, j)
    ensures Contains(Join(words), p)
  {
    if |words| > 1 {
      var w := words[0];
      var rest := Join(words[1..]);
      assert Join(words) == w + " " + rest;
      if idx == 0 {
        assert (w + " " + rest)[j..j + |p|] == w[j..j + |p|];
        assert MatchAt(Join(words), p, j);
      } else {
        JoinKeepsWordText(words[1..], p, idx - 1, j);
        var k :| MatchAt(rest, p, k);
        assert (w + " " + rest)[|w| + 1 + k..|w| + 1 + k + |p|] == rest[k..k + |p|];
        assert MatchAt(Join(words), p, |w| + 1 + k);
      }
    } else {
      assert MatchAt(Join(words), p, j);
    }
  }

  /** A whitespace-free pattern found in joined words lies inside one word:
      it cannot reach across the single space between two words. */
  lemma {:induction false} OccursInJoinedWord(words: seq<string>, p: string, k: int)
    returns (idx: nat, j: int)
    requires Words(words) && p != [] && NoSpace(p) && MatchAt(Join(words), p, k)
    ensures idx < |words| && MatchAt(words[idx], p, j)
  {
    if words == [] {
      assert false;
    } else if |words| == 1 {
      idx, j := 0, k;
    } else {
      var w := words[0];
      var rest := Join(words[1..]);
      var s := w + " " + rest;
      assert Join(words) == s;
      if k + |p| <= |w| {
        assert s[k..k + |p|] == w[k..k + |p|];
        idx, j := 0, k;
      } else if k <= |w| {
        SliceIndex(s, k, k + |p|, |w| - k);
        assert false;
      } else {
        assert s[k..k + |p|] == rest[k - |w| - 1..k - |w| - 1 + |p|];
        assert Words(words[1..]) by {
          forall i | 0 <= i < |words| - 1 ensures words[1..][i] != [] && NoSpace(words[1..][i]) {
            assert words[1..][i] == words[i + 1];
          }
        }
        var i;
        i, j := OccursInJoinedWord(words[1..], p, k - |w| - 1);
        idx := i + 1;
      }
    }
  }

  /** Every word of `s.split()` is a piece of `s`. */
  lemma {:induction false} WordsFound(s: string)
    ensures forall i | 0 <= i < |Split(s)| :: Contains(s, Split(s)[i])
    decreases |s|
  {
    var t := TrimStart(s);
    if t != [] {
      var n := WordLength(t);
      SplitStep(s, t, n);
      var u := t[n..];
      WordsFound(u);
      FirstWordFound(s, t, n);
      FoundInWhole(s, u, |s| - |t| + n, Split(u));
      FoundCons(s, t[..n], Split(u), Split(s));
    }
  }

  /** The first word of `t`, and what follows it, are pieces of `s` when `t`
      is a suffix of `s`. */
  lemma FirstWordFound(s: string, t: string, n: nat)
    requires |t| <= |s| && t == s[|s| - |t|..] && n <= |t|
    ensures Contains(s, t[..n]) && MatchAt(s, t[n..], |s| - |t| + n)
  {
    assert MatchAt(s, t[..n], |s| - |t|);
  }

  /** What is found in a piece of `s` is found in `s`. */
  lemma FoundInWhole(s: string, u: string, a: int, words: seq<string>)
    requires MatchAt(s, u, a) && forall i | 0 <= i < |words| :: Contains(u, words[i])
    ensures forall i | 0 <= i < |words| :: Contains(s, words[i])
  {
    forall i | 0 <= i < |words| ensures Contains(s, words[i]) {
      var b :| MatchAt(u, words[i], b);
      MatchTrans(s, a, u, b, words[i]);
    }
  }

  lemma FoundCons(s: string, w: string, rest: seq<string>, words: seq<string>)
    requires words == [w] + rest && Contains(s, w) && forall i | 0 <= i < |rest| :: Contains(s, rest[i])
    ensures forall i | 0 <= i < |words| :: Contains(s, words[i])
  {
    forall i | 0 <= i < |words| ensures Contains(s, words[i]) {
      if i > 0 {
        assert words[i] == rest[i - 1];
      }
    }
  }

  /** A whitespace-free pattern is found after the collapse exactly when it was
      found before it: squeezing whitespace runs neither loses an occurrence
      (the sentinel check still sees it) nor creates one. */
  lemma CollapseKeepsPattern(s: string, p: string)
    requires p != [] && NoSpace(p)
    ensures Contains(Collapse(s), p) <==> Contains(s, p)
  {
    if Contains(s, p) {
      var k :| MatchAt(s, p, k);
      var idx, j := OccursInSomeWord(s, p, k, TrimStart(s), WordLength(TrimStart(s)));
      JoinKeepsWordText(Split(s), p, idx, j);
    }
    if Contains(Collapse(s), p) {
      var k :| MatchAt(Collapse(s), p, k);
      var idx, j := OccursInJoinedWord(Split(s), p, k);
      WordsFound(s);
      var a :| MatchAt(s, Split(s)[idx], a);
      MatchTrans(s, a, Split(s)[idx], j, p);
    }
  }
}
