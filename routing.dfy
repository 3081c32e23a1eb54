/**
 * The first-match-wins routing of an incoming message inside the webhook
 * (main.py lines 175-221), and the keyword deletion applied to a privileged
 * "custom" request before it is handed to the query-writing service.
 */
module Routing {
  import opened Wrappers
  import opened Text

  /** What the webhook decides to do with one message. */
  datatype Intent =
    | QueryToday                   // report today's attendance record
    | MarkAttendance(status: string)  // record PRESENT or ABSENT for today
    | CustomSql(request: string)   // privileged: have a SQL statement written and run it
    | FreeForm(question: string)   // forward the message to the question-answering service

  /** Both words "today" and "attendance" occur, in any letter case. */
  predicate AsksToday(message: string) {
    Contains(Lower(message), "today") && Contains(Lower(message), "attendance")
  }

  /** The two words that mark attendance, after `strip().upper()`. */
  predicate IsMarkWord(w: string) {
    w == "PRESENT" || w == "ABSENT"
  }

  /** The stripped, lower-cased message starts with "custom" and the sender's
      lower-cased role mentions "manager" anywhere. */
  predicate WantsCustom(message: string, role: string) {
    StartsWith(Lower(Strip(message)), "custom") && Contains(Lower(role), "manager")
  }

  /** The if/elif chain of the webhook: the earlier test always wins. */
  function Classify(message: string, role: string): (r: Intent)
    ensures r.QueryToday? <==> AsksToday(message)
    ensures r.MarkAttendance? ==> r.status == "PRESENT" || r.status == "ABSENT"
    ensures r.CustomSql? ==> Contains(Lower(role), "manager") && |r.request| <= |message|
    ensures r.FreeForm? ==> r.question == message
  {
    if AsksToday(message) then QueryToday
    else if IsMarkWord(Upper(Strip(message))) then MarkAttendance(Upper(Strip(message)))
    else if WantsCustom(message, role) then CustomSql(RemoveCustom(message))
    else FreeForm(message)
  }

  /** `re.sub(r'(?i)custom', '', s)`: one left-to-right pass that deletes every
      non-overlapping occurrence of "custom" in any letter case. */
  function RemoveCustom(s: string): (r: string)
    ensures |r| <= |s| && (|s| - |r|) % 6 == 0
    decreases |s|
  {
    if |s| < 6 then s
    else if Lower(s[..6]) == "custom" then RemoveCustom(s[6..])
    else [s[0]] + RemoveCustom(s[1..])
  }

  // ---------------------------------------------------------------------------
  // Routing properties

  /** A message mentioning both "today" and "attendance" is always the
      attendance query, even from a manager and even after a "custom" prefix. */
  lemma TodayQueryWins(message: string, role: string)
    requires AsksToday(message)
    ensures Classify(message, role) == QueryToday
  {
  }

  /** A bare PRESENT or ABSENT (up to case and surrounding whitespace) never
      mentions "today", so the first rule cannot shadow the second. */
  lemma MarkWordNeverAsksToday(message: string)
    requires IsMarkWord(Upper(Strip(message)))
    ensures !Contains(Lower(message), "today")
  {
    var core := Strip(message);
    var a := StripFacts(message, core);
    NoLetterY(message, a, core);
    MissingCharMeansAbsent(Lower(message), "today", 4);
  }

  /** Whitespace around a mark word holds no 'y', and neither does the word. */
  lemma NoLetterY(message: string, a: nat, core: string)
    requires StripAt(message, a, core) && IsMarkWord(Upper(core))
    ensures forall p | 0 <= p < |message| :: Lower(message)[p] != 'y'
  {
    forall p | 0 <= p < |message|
      ensures Lower(message)[p] != 'y'
    {
      if p < a {
        assert message[..a][p] == message[p];
      } else if p < a + |core| {
        assert message[p] == core[p - a];
        MarkWordLetter(Upper(core), p - a);
      } else {
        assert message[a + |core|..][p - a - |core|] == message[p];
      }
    }
  }

  lemma MarkWordLetter(w: string, i: nat)
    requires IsMarkWord(w) && i < |w|
    ensures w[i] != 'Y'
  {
  }

  /** The attendance-marking branch is taken exactly when `strip().upper()` of
      the message is PRESENT or ABSENT, and it records that upper-cased word. */
  lemma MarkExactly(message: string, role: string)
    ensures Classify(message, role).MarkAttendance? <==> IsMarkWord(Upper(Strip(message)))
    ensures Classify(message, role).MarkAttendance? ==>
              Classify(message, role).status == Upper(Strip(message)) &&
              IsMarkWord(Classify(message, role).status)
  {
    var w := Upper(Strip(message));
    if IsMarkWord(w) {
      MarkWordNeverAsksToday(message);
      assert !AsksToday(message);
      assert Classify(message, role) == MarkAttendance(w);
    }
  }

  /** A stripped message that starts with "custom" is never a mark word. */
  lemma CustomIsNoMarkWord(message: string)
    requires StartsWith(Lower(Strip(message)), "custom")
    ensures !IsMarkWord(Upper(Strip(message)))
  {
    var core := Strip(message);
    assert Lower(core)[0] == 'c';
    assert Upper(core)[0] == UpperChar(core[0]) == 'C';
  }

  /** The custom-SQL branch needs both the "custom" prefix and "manager" in the
      role (and no today-query words); its request is the message with every
      "custom" deleted. */
  lemma CustomExactly(message: string, role: string)
    ensures Classify(message, role).CustomSql? <==> !AsksToday(message) && WantsCustom(message, role)
    ensures Classify(message, role).CustomSql? ==> Classify(message, role).request == RemoveCustom(message)
  {
    if WantsCustom(message, role) {
      CustomIsNoMarkWord(message);
    }
  }

  /** Everything else reaches the question-answering service unchanged: a
      non-manager's "custom ..." message is an ordinary question, not an error. */
  lemma FreeFormExactly(message: string, role: string)
    ensures Classify(message, role).FreeForm? <==>
              !AsksToday(message) && !IsMarkWord(Upper(Strip(message))) && !WantsCustom(message, role)
    ensures Classify(message, role).FreeForm? ==> Classify(message, role).question == message
  {
  }

  // ---------------------------------------------------------------------------
  // Properties of the keyword deletion

  /** The characters that can belong to a deleted "custom". */
  predicate InKeyword(c: char) {
    LowerChar(c) in "custom"
  }

  /** The characters of `s` that can never be part of a deleted keyword. */
  function Others(s: string): string {
    if s == [] then []
    else (if InKeyword(s[0]) then [] else [s[0]]) + Others(s[1..])
  }

  lemma {:induction false} OthersAppend(a: string, b: string)
    ensures Others(a + b) == Others(a) + Others(b)
  {
    if a == [] {
      assert a + b == b;
    } else {
      assert (a + b)[0] == a[0];
      assert (a + b)[1..] == a[1..] + b;
      OthersAppend(a[1..], b);
    }
  }

  lemma {:induction false} OthersOfKeyword(w: string)
    requires forall i | 0 <= i < |w| :: InKeyword(w[i])
    ensures Others(w) == []
  {
    if w != [] {
      OthersOfKeyword(w[1..]);
    }
  }

  /** `r` can be obtained from `s` by deleting characters. */
  ghost predicate Subsequence(r: string, s: string)
    decreases |s|
  {
    r == [] || (s != [] && ((r[0] == s[0] && Subsequence(r[1..], s[1..])) || Subsequence(r, s[1..])))
  }

  lemma {:induction false} SubsequenceSkip(r: string, w: string, s: string)
    requires Subsequence(r, s)
    ensures Subsequence(r, w + s)
  {
    if w == [] {
      assert w + s == s;
    } else if r != [] {
      SubsequenceSkip(r, w[1..], s);
      assert (w + s)[1..] == w[1..] + s;
    }
  }

  /** The deletion only deletes: the result is a subsequence of the input, it is
      shorter by a multiple of six, and every character that is not one of the
      letters of "custom" survives, in order. */
  lemma {:induction false} RemoveCustomOnlyDeletes(s: string)
    ensures Subsequence(RemoveCustom(s), s)
    ensures |RemoveCustom(s)| <= |s| && (|s| - |RemoveCustom(s)|) % 6 == 0
    ensures Others(RemoveCustom(s)) == Others(s)
    decreases |s|
  {
    if |s| < 6 {
      SubsequenceReflexive(s);
    } else if Lower(s[..6]) == "custom" {
      RemoveCustomOnlyDeletes(s[6..]);
      DropKeyword(s, RemoveCustom(s[6..]));
    } else {
      RemoveCustomOnlyDeletes(s[1..]);
      KeepFirst(s, RemoveCustom(s[1..]));
    }
  }

  /** What the deletion promises about its result `r` for input `s`. */
  ghost predicate OnlyDeletes(r: string, s: string) {
    Subsequence(r, s) && |r| <= |s| && (|s| - |r|) % 6 == 0 && Others(r) == Others(s)
  }

  lemma DropKeyword(s: string, r: string)
    requires |s| >= 6 && Lower(s[..6]) == "custom"
    requires OnlyDeletes(r, s[6..])
    ensures OnlyDeletes(r, s)
  {
    assert s == s[..6] + s[6..];
    SubsequenceSkip(r, s[..6], s[6..]);
    forall i | 0 <= i < 6 ensures InKeyword(s[..6][i]) {
      assert LowerChar(s[..6][i]) == "custom"[i];
    }
    OthersOfKeyword(s[..6]);
    OthersAppend(s[..6], s[6..]);
  }

  lemma KeepFirst(s: string, r: string)
    requires s != [] && OnlyDeletes(r, s[1..])
    ensures OnlyDeletes([s[0]] + r, s)
  {
    assert ([s[0]] + r)[1..] == r;
    assert s == [s[0]] + s[1..];
    OthersAppend([s[0]], r);
    OthersAppend([s[0]], s[1..]);
  }

  lemma {:induction false} SubsequenceReflexive(s: string)
    ensures Subsequence(s, s)
  {
    if s != [] {
      SubsequenceReflexive(s[1..]);
    }
  }

  /** A message with no "custom" in any letter case passes through unchanged. */
  lemma {:induction false} RemoveCustomWithoutKeyword(s: string)
    requires !Contains(Lower(s), "custom")
    ensures RemoveCustom(s) == s
    decreases |s|
  {
    if |s| >= 6 {
      assert Lower(s)[0..6] == Lower(s[..6]);
      assert !MatchAt(Lower(s), "custom", 0);
      forall k ensures !MatchAt(Lower(s[1..]), "custom", k) {
        if 0 <= k && k + 6 <= |s| - 1 {
          assert Lower(s[1..])[k..k + 6] == Lower(s)[k + 1..k + 7];
          assert !MatchAt(Lower(s), "custom", k + 1);
        }
      }
      RemoveCustomWithoutKeyword(s[1..]);
      assert s == [s[0]] + s[1..];
    }
  }

  /** `re.sub` scans left to right: the text before the first "custom" (in any
      letter case) is kept as it is, that occurrence is deleted, and the scan
      resumes right after it. With `RemoveCustomWithoutKeyword` for the case of
      no occurrence, this determines the deletion on every input. */
  lemma {:induction false} RemoveCustomAtFirst(s: string, p: nat)
    requires IndexFrom(Lower(s), "custom", 0) == Some(p)
    ensures p + 6 <= |s| && RemoveCustom(s) == s[..p] + RemoveCustom(s[p + 6..])
    decreases p
  {
    if p == 0 {
      LowerSlice(s, 0, 6);
      assert s[..0] == [];
    } else {
      NoKeywordFirst(s, p);
      ShiftFirstMatch(s, p);
      RemoveCustomAtFirst(s[1..], p - 1);
      KeepFirstChar(s, p, RemoveCustom(s[1..]), RemoveCustom(s[p + 6..]));
    }
  }

  /** Before the first occurrence, the first six characters are not "custom". */
  lemma NoKeywordFirst(s: string, p: nat)
    requires p > 0 && IndexFrom(Lower(s), "custom", 0) == Some(p)
    ensures RemoveCustom(s) == [s[0]] + RemoveCustom(s[1..])
  {
    LowerSlice(s, 0, 6);
    assert !MatchAt(Lower(s), "custom", 0);
  }

  /** Putting the kept first character back in front. */
  lemma KeepFirstChar(s: string, p: nat, t: string, r: string)
    requires 0 < p && p + 6 <= |s| && t == s[1..][..p - 1] + r
    ensures [s[0]] + t == s[..p] + r
  {
    assert s[1..][..p - 1] == s[1..p];
    assert s[..p] == [s[0]] + s[1..p];
  }

  /** Dropping the first character moves the first occurrence one place left. */
  lemma ShiftFirstMatch(s: string, p: nat)
    requires p > 0 && IndexFrom(Lower(s), "custom", 0) == Some(p)
    ensures IndexFrom(Lower(s[1..]), "custom", 0) == Some(p - 1)
  {
    var t := Lower(s);
    LowerSlice(s, 1, |s|);
    assert s[1..|s|] == s[1..];
    var u := Lower(s[1..]);
    assert u == t[1..|t|];
    forall j | 0 <= j ensures MatchAt(u, "custom", j) <==> MatchAt(t, "custom", j + 1) {
      if j + 6 <= |u| {
        SliceOfSlice(t, 1, |t|, j, j + 6);
      }
    }
    FirstMatchIs(u, "custom", p - 1);
  }

  /** One pass is not a fixpoint: deleting the inner "custom" of "cuscustomtom"
      joins its halves into a new "custom", which stays in the request. */
  lemma SinglePass(s: string)
    requires s == "cuscustomtom"
    ensures RemoveCustom(s) == "custom"
  {
    var t := s[3..];
    assert t[6..] == "tom";
    assert RemoveCustom(t[6..]) == "tom";
    assert Lower(t[..6]) == "custom";
    assert RemoveCustom(t) == "tom";
    NoKeywordAtStart(s[2..], 0);
    assert s[2..][1..] == t;
    NoKeywordAtStart(s[1..], 0);
    assert s[1..][1..] == s[2..];
    NoKeywordAtStart(s, 3);
  }

  /** Unfolding the deletion where the letter at `i` rules out a keyword. */
  lemma NoKeywordAtStart(s: string, i: nat)
    requires |s| >= 6 && i < 6 && LowerChar(s[i]) != "custom"[i]
    ensures RemoveCustom(s) == [s[0]] + RemoveCustom(s[1..])
  {
    assert Lower(s[..6])[i] != "custom"[i];
  }

  /** The deletion is not confined to the leading keyword: the "custom" inside
      "customers" goes too. */
  lemma DeletesInsideWords()
    ensures RemoveCustom("customers") == "ers"
  {
    var s := "customers";
    assert Lower(s[..6]) == "custom";
    assert RemoveCustom(s[6..]) == "ers";
  }

  /** The priority example: a message with both today-query words and a mark
      word is the today query. */
  lemma TodayBeatsPresent(m: string, role: string)
    requires m == "today attendance PRESENT"
    ensures Classify(m, role) == QueryToday
  {
    LowerSlice(m, 0, 5);
    assert m[0..5] == "today";
    assert Lower(m)[0..5] == "today";
    LowerSlice(m, 6, 16);
    assert m[6..16] == "attendance";
    assert Lower(m)[6..16] == "attendance";
    assert MatchAt(Lower(m), "today", 0) && MatchAt(Lower(m), "attendance", 6);
  }

  /** A "custom" message from a sender whose role does not mention "manager"
      is an ordinary question, passed on unchanged. */
  lemma NonManagerCustomIsQuestion(message: string, role: string)
    requires !AsksToday(message) && StartsWith(Lower(Strip(message)), "custom")
    requires !Contains(Lower(role), "manager")
    ensures Classify(message, role) == FreeForm(message)
  {
    CustomIsNoMarkWord(message);
  }
}
