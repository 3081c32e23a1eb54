/**
 * The gates between the untrusted answer of the query-writing service and the
 * database (main.py lines 205-212): take the first fenced ```sql block, strip it,
 * squeeze its whitespace, and refuse to run it when it says "NotSure".
 */
module SqlGate {
  import opened Wrappers
  import opened Text
  import opened Whitespace

  const Open: string := "```sql"
  const Fence: string := "```"

  /** `re.search(r"```sql\s*(.*?)\s*```", answer, re.DOTALL)`, then `.group(1).strip()`;
      None when the pattern does not match. */
  function ExtractSql(answer: string): (r: Option<string>)
    ensures r.Some? ==> Contains(answer, Open) && Contains(answer, Fence)
    ensures r.Some? ==> |r.value| + |Open| + |Fence| <= |answer|
  {
    match IndexFrom(answer, Open, 0)
    case None => None
    case Some(i) =>
      match IndexFrom(answer, Fence, i + |Open|)
      case None => None
      case Some(j) => Some(Strip(answer[i + |Open|..j]))
  }

  /** What happens to the answer: line 209 fails on a missing block, line 211
      holds back a statement that says "notsure", anything else is executed. */
  datatype Verdict = NoFence | NotSure(statement: string) | Run(statement: string)

  function Screen(answer: string): (r: Verdict)
    ensures r.NoFence? <==> ExtractSql(answer).None?
    ensures !r.NoFence? ==> r.statement == Collapse(ExtractSql(answer).value)
    ensures ExtractSql(answer).Some? ==>
      (r.Run? <==> !Contains(Lower(ExtractSql(answer).value), "notsure"))
    ensures r.NotSure? ==> Contains(Lower(r.statement), "notsure")
    ensures r.Run? ==> Collapsed(r.statement) && !Contains(Lower(r.statement), "notsure")
  {
    match ExtractSql(answer)
    case None => NoFence
    case Some(q) =>
      var statement := Collapse(q);
      SentinelSurvivesCollapse(q);
      if Contains(Lower(statement), "notsure") then NotSure(statement) else Run(statement)
  }

  // ---------------------------------------------------------------------------
  // The regular expression, declaratively

  /** One way the pattern can match `s`: the opening "```sql" at `i`, the group
      `s[g..e]`, the closing fence at `j`, and only whitespace in between
      (DOTALL: the group may hold anything, line breaks included). */
  ghost predicate Captures(s: string, i: int, g: int, e: int, j: int) {
    && MatchAt(s, Open, i)
    && i + |Open| <= g <= e <= j
    && MatchAt(s, Fence, j)
    && AllSpace(s[i + |Open|..g])
    && AllSpace(s[e..j])
  }

  /** The match a backtracking engine reports: the leftmost start, then the
      greedy `\s*` as long as possible, then the lazy group as short as possible. */
  ghost predicate ChosenCapture(s: string, i: int, g: int, e: int, j: int) {
    && Captures(s, i, g, e, j)
    && (forall i', g', e', j' | Captures(s, i', g', e', j') :: i <= i')
    && (forall g', e', j' | Captures(s, i, g', e', j') :: g' <= g)
    && (forall e', j' | Captures(s, i, g, e', j') :: e <= e')
  }

  /** The extracted statement is exactly the group the regular expression
      captures; being lazy it holds no closing fence, and it is already stripped. */
  lemma ExtractSqlIsChosenCapture(s: string, q: string)
    requires ExtractSql(s) == Some(q)
    ensures exists i, g, e, j :: ChosenCapture(s, i, g, e, j) && q == s[g..e]
    ensures !Contains(q, Fence)
    ensures q == [] || (!IsSpace(q[0]) && !IsSpace(q[|q| - 1]))
  {
    var i := IndexFrom(s, Open, 0).value;
    var j := IndexFrom(s, Fence, i + |Open|).value;
    var body := s[i + |Open|..j];
    var a := StripFacts(body, q);
    var g, e := LocateGroup(s, q, i, j, body, a);
    ChosenGroup(s, q, i, g, e, j);
  }

  /** A capture that starts at the first opening, ends before the first closing
      fence and has non-whitespace at both ends is the one the engine reports. */
  lemma ChosenGroup(s: string, q: string, i: nat, g: nat, e: nat, j: nat)
    requires IndexFrom(s, Open, 0) == Some(i) && IndexFrom(s, Fence, i + |Open|) == Some(j)
    requires Captures(s, i, g, e, j) && q == s[g..e]
    requires !IsSpace(s[g]) && (g < e ==> !IsSpace(s[e - 1]))
    ensures ChosenCapture(s, i, g, e, j) && !Contains(q, Fence)
  {
    LeftmostStart(s, i);
    GreedySpace(s, i, g, j);
    LazyGroup(s, i, g, e, j);
    NoFenceBefore(s, i + |Open|, g, e, j);
  }

  /** Where the stripped block sits in the answer. */
  lemma LocateGroup(s: string, q: string, i: nat, j: nat, body: string, a: nat) returns (g: nat, e: nat)
    requires MatchAt(s, Open, i) && i + |Open| <= j && MatchAt(s, Fence, j) && body == s[i + |Open|..j]
    requires StripAt(body, a, q) && (q == [] || (!IsSpace(q[0]) && !IsSpace(q[|q| - 1])))
    ensures Captures(s, i, g, e, j) && q == s[g..e]
    ensures !IsSpace(s[g])
    ensures g < e ==> !IsSpace(s[e - 1])
  {
    var b := i + |Open|;
    g := b + a;
    e := g + |q|;
    SliceOfSlice(s, b, j, a, a + |q|);
    assert q == s[g..e];
    assert s[b..g] == body[..a];
    assert s[e..j] == body[a + |q|..];
    if q == [] {
      assert s[j..j + |Fence|][0] == s[j];
    } else {
      assert s[g] == q[0] && s[e - 1] == q[|q| - 1];
    }
  }

  /** No match starts before the first opening. */
  lemma LeftmostStart(s: string, i: nat)
    requires IndexFrom(s, Open, 0) == Some(i)
    ensures forall i', g', e', j' | Captures(s, i', g', e', j') :: i <= i'
  {
  }

  /** The leading `\s*` cannot reach past a non-whitespace character. */
  lemma GreedySpace(s: string, i: nat, g: nat, j: nat)
    requires i + |Open| <= g <= j < |s| && !IsSpace(s[g])
    ensures forall g', e', j' | Captures(s, i, g', e', j') :: g' <= g
  {
    forall g', e', j' | Captures(s, i, g', e', j') ensures g' <= g {
      SliceIndex(s, i + |Open|, g', g - i - |Open|);
    }
  }

  /** Every closing fence lies at or after the first one, so a shorter group
      would leave the last non-whitespace character of the block in the
      trailing `\s*`. */
  lemma LazyGroup(s: string, i: nat, g: nat, e: nat, j: nat)
    requires IndexFrom(s, Fence, i + |Open|) == Some(j) && i + |Open| <= g <= e <= j
    requires g < e ==> !IsSpace(s[e - 1])
    ensures forall e', j' | Captures(s, i, g, e', j') :: e <= e'
  {
    forall e', j' | Captures(s, i, g, e', j') ensures e <= e' {
      SliceIndex(s, e', j', e - 1 - e');
    }
  }

  /** Text between the opening and the first closing fence holds no fence. */
  lemma NoFenceBefore(s: string, b: nat, g: nat, e: nat, j: nat)
    requires IndexFrom(s, Fence, b) == Some(j) && b <= g <= e <= j
    ensures !Contains(s[g..e], Fence)
  {
    var q := s[g..e];
    forall m ensures !MatchAt(q, Fence, m) {
      if 0 <= m && m + |Fence| <= |q| {
        assert j + |Fence| <= |s|;
        SliceOfSlice(s, g, e, m, m + |Fence|);
        assert !MatchAt(s, Fence, g + m);
      }
    }
  }

  /** Any match of the pattern means a block is extracted. */
  lemma MatchMeansExtracted(s: string, i: int, g: int, e: int, j: int)
    ensures Captures(s, i, g, e, j) ==> ExtractSql(s).Some?
  {
    if Captures(s, i, g, e, j) {
      var i0 := IndexFrom(s, Open, 0).value;
      assert IndexFrom(s, Fence, i0 + |Open|).Some?;
    }
  }

  /** No block is extracted exactly when the pattern matches nowhere. */
  lemma ExtractSqlNoneIffNoMatch(s: string)
    ensures ExtractSql(s).None? <==> forall i, g, e, j :: !Captures(s, i, g, e, j)
  {
    if ExtractSql(s).Some? {
      ExtractSqlIsChosenCapture(s, ExtractSql(s).value);
    } else {
      forall i, g, e, j ensures !Captures(s, i, g, e, j) {
        MatchMeansExtracted(s, i, g, e, j);
      }
    }
  }

  // ---------------------------------------------------------------------------
  // The gate

  /** A statement that is executed has gone through the collapse (no line
      breaks, single spaces, same non-whitespace text as the extracted block)
      and does not mention "notsure" in any letter case. */
  lemma ScreenRun(answer: string)
    requires Screen(answer).Run?
    ensures ExtractSql(answer).Some?
    ensures Collapsed(Screen(answer).statement)
    ensures NonSpace(Screen(answer).statement) == NonSpace(ExtractSql(answer).value)
    ensures Split(Screen(answer).statement) == Split(ExtractSql(answer).value)
    ensures !Contains(Lower(Screen(answer).statement), "notsure")
  {
    var q := ExtractSql(answer).value;
    CollapseFixpoints(q);
    CollapseKeepsText(q);
    SameWords(q);
  }

  /** A "notsure" anywhere in the fenced block, in any letter case and however
      it is surrounded by whitespace, stops the statement from being executed. */
  lemma SentinelBlocks(answer: string)
    requires ExtractSql(answer).Some? && Contains(Lower(ExtractSql(answer).value), "notsure")
    ensures Screen(answer).NotSure?
  {
    SentinelSurvivesCollapse(ExtractSql(answer).value);
  }

  /** The sentinel check of line 211 sees a "notsure" exactly when the block
      holds one before the collapse: the word holds no whitespace, so squeezing
      neither breaks one up nor puts one together. */
  lemma SentinelSurvivesCollapse(q: string)
    ensures Contains(Lower(Collapse(q)), "notsure") <==> Contains(Lower(q), "notsure")
  {
    if Contains(Lower(q), "notsure") {
      var k :| MatchAt(Lower(q), "notsure", k);
      var w := SentinelSpelling(q, k);
      CollapseKeepsPattern(q, w);
      var m :| MatchAt(Collapse(q), w, m);
      SentinelInLower(Collapse(q), w, m);
    }
    if Contains(Lower(Collapse(q)), "notsure") {
      var m :| MatchAt(Lower(Collapse(q)), "notsure", m);
      var w := SentinelSpelling(Collapse(q), m);
      CollapseKeepsPattern(q, w);
      var k :| MatchAt(q, w, k);
      SentinelInLower(q, w, k);
    }
  }

  /** The characters of `q` that lower-case to "notsure" hold no whitespace. */
  lemma SentinelSpelling(q: string, k: int) returns (w: string)
    requires MatchAt(Lower(q), "notsure", k)
    ensures w != [] && NoSpace(w) && Lower(w) == "notsure" && MatchAt(q, w, k)
  {
    w := q[k..k + 7];
    LowerSlice(q, k, k + 7);
    forall i | 0 <= i < |w| ensures !IsSpace(w[i]) {
      assert Lower(w)[i] == "notsure"[i];
      CaseKeepsSpace(w[i]);
    }
  }

  lemma SentinelInLower(c: string, w: string, m: int)
    requires MatchAt(c, w, m) && Lower(w) == "notsure"
    ensures MatchAt(Lower(c), "notsure", m)
  {
    LowerSlice(c, m, m + |w|);
  }

  /** An answer without an opening "```sql" never reaches the database: it
      fails at line 209, whatever else it says. */
  lemma NoOpeningNoStatement(answer: string)
    requires !Contains(answer, Open)
    ensures Screen(answer) == NoFence
  {
  }

  /** The bare "NotSure" answer the prompt asks for has no fence, so it takes
      the failing path of line 209, not the sentinel check of line 211. */
  lemma BareNotSureHasNoFence(answer: string)
    requires answer == "NotSure"
    ensures Screen(answer) == NoFence
  {
    MissingCharMeansAbsent(answer, Open, 0);
  }
}
