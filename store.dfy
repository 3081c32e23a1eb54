/**
 * The attendance table behind `execute_query`, and the two operations the
 * webhook performs on it (main.py lines 59-85): `get_attendance`, which
 * reads the first row under an employee and a date, and `add_attendance`,
 * which reads that row and then updates or inserts.
 */
module Store {
  import opened Wrappers

  datatype Record = Record(empId: int, date: string, status: string)

  predicate Keyed(r: Record, empId: int, date: string) {
    r.empId == empId && r.date == date
  }

  /** `date.replace("'", "")`, done at line 61 whenever a quote occurs. */
  function RemoveQuotes(d: string): (r: string)
    ensures |r| <= |d|
    ensures '\'' !in r
    ensures forall c | c != '\'' :: c in r <==> c in d
    ensures '\'' !in d ==> r == d
    ensures multiset(r) == multiset(d)['\'' := 0]
  {
    if d == [] then []
    else
      var rest := RemoveQuotes(d[1..]);
      var r := (if d[0] == '\'' then [] else [d[0]]) + rest;
      UnquoteStep(d, rest, r);
      r
  }

  /** One step of the recursion keeps the clauses of `RemoveQuotes`. */
  lemma UnquoteStep(d: string, rest: string, r: string)
    requires d != [] && r == (if d[0] == '\'' then [] else [d[0]]) + rest
    requires |rest| <= |d[1..]| && '\'' !in rest
    requires forall c | c != '\'' :: c in rest <==> c in d[1..]
    requires '\'' !in d[1..] ==> rest == d[1..]
    requires multiset(rest) == multiset(d[1..])['\'' := 0]
    ensures |r| <= |d| && '\'' !in r
    ensures forall c | c != '\'' :: c in r <==> c in d
    ensures '\'' !in d ==> r == d
    ensures multiset(r) == multiset(d)['\'' := 0]
  {
    assert d == [d[0]] + d[1..];
    assert forall c :: c in d <==> c == d[0] || c in d[1..];
    forall c ensures multiset(r)[c] == multiset(d)['\'' := 0][c] {
      assert multiset(d)[c] == multiset([d[0]])[c] + multiset(d[1..])[c];
    }
  }

  /** The quotes are removed piece by piece: the result for a concatenation is
      the concatenation of the results. With the multiset clause above (every
      character other than the quote keeps its count) this fixes the result:
      each other character is kept, in order. */
  lemma {:induction false} RemoveQuotesAppend(a: string, b: string)
    ensures RemoveQuotes(a + b) == RemoveQuotes(a) + RemoveQuotes(b)
  {
    if a != [] {
      assert (a + b)[0] == a[0];
      assert (a + b)[1..] == a[1..] + b;
      RemoveQuotesAppend(a[1..], b);
      var head := if a[0] == '\'' then [] else [a[0]];
      RegroupKept(RemoveQuotes(a + b), RemoveQuotes(a), head, RemoveQuotes(a[1..]), RemoveQuotes(b));
    } else {
      assert a + b == b;
    }
  }

  /** Regrouping the kept first character and the two results; stated over
      abstract strings so that the recursive definition stays out of the
      associativity step. */
  lemma RegroupKept(whole: string, left: string, head: string, mid: string, right: string)
    requires whole == head + (mid + right) && left == head + mid
    ensures whole == left + right
  {
  }

  /** `add_attendance` wraps the date in quotes (line 70) and `get_attendance`
      takes them off again. */
  lemma UnquoteQuoted(d: string)
    requires '\'' !in d
    ensures RemoveQuotes("'" + d + "'") == d
  {
    RemoveQuotesAppend("'" + d, "'");
    RemoveQuotesAppend("'", d);
    assert RemoveQuotes("'") == [];
  }

  /** Record `k` is the first one under the key. */
  predicate FirstKeyed(records: seq<Record>, k: int, empId: int, date: string) {
    && 0 <= k < |records|
    && Keyed(records[k], empId, date)
    && forall k' | 0 <= k' < k :: !Keyed(records[k'], empId, date)
  }

  /** `query_result[0]["status"] if query_result else None`, where the query
      selects the records under the key in table order. */
  function Lookup(records: seq<Record>, empId: int, date: string): (r: Option<string>)
    ensures r.None? <==> forall k | 0 <= k < |records| :: !Keyed(records[k], empId, date)
    ensures r.Some? ==> exists k :: FirstKeyed(records, k, empId, date) && records[k].status == r.value
  {
    if records == [] then None
    else if Keyed(records[0], empId, date) then
      assert FirstKeyed(records, 0, empId, date);
      Some(records[0].status)
    else
      var r := Lookup(records[1..], empId, date);
      if r.Some? then
        var k :| FirstKeyed(records[1..], k, empId, date) && records[1..][k].status == r.value;
        assert FirstKeyed(records, k + 1, empId, date);
        r
      else
        r
  }

  /** `UPDATE attendance SET status=… WHERE empId=… AND date=…`: every record
      under the key takes the new status, in its place. */
  function SetStatus(records: seq<Record>, empId: int, date: string, status: string): (r: seq<Record>)
    ensures |r| == |records|
    ensures forall k | 0 <= k < |r| :: r[k].empId == records[k].empId && r[k].date == records[k].date
    ensures forall k | 0 <= k < |r| :: Keyed(records[k], empId, date) ==> r[k].status == status
    ensures forall k | 0 <= k < |r| :: !Keyed(records[k], empId, date) ==> r[k] == records[k]
  {
    seq(|records|, k requires 0 <= k < |records| =>
      if Keyed(records[k], empId, date) then records[k].(status := status) else records[k])
  }

  /** `if query_result:` — a stored status that is the empty string counts as
      no record. */
  predicate HasStatus(found: Option<string>) {
    found.Some? && found.value != ""
  }

  /** The table after `add_attendance(empId, date, status)`: update when a
      non-empty status is found, otherwise insert one record at the end. */
  function Upsert(records: seq<Record>, empId: int, date: string, status: string): (r: seq<Record>)
    ensures Lookup(r, empId, date).Some?
    ensures |r| == |records| || r == records + [Record(empId, date, status)]
  {
    if HasStatus(Lookup(records, empId, date)) then
      var k :| FirstKeyed(records, k, empId, date);
      var r := SetStatus(records, empId, date, status);
      assert Keyed(r[k], empId, date);
      r
    else
      var r := records + [Record(empId, date, status)];
      assert Keyed(r[|records|], empId, date);
      r
  }

  /** The records under other keys, in order. */
  function OtherKeys(records: seq<Record>, empId: int, date: string): (r: seq<Record>)
    ensures forall x :: x in r <==> x in records && !Keyed(x, empId, date)
  {
    if records == [] then []
    else
      var rest := OtherKeys(records[1..], empId, date);
      assert forall x :: x in records <==> x == records[0] || x in records[1..];
      if Keyed(records[0], empId, date) then rest else [records[0]] + rest
  }

  /** No two records share an employee and a date. */
  predicate AtMostOnePerKey(records: seq<Record>) {
    forall i, j | 0 <= i < j < |records| :: !Keyed(records[i], records[j].empId, records[j].date)
  }

  // ---------------------------------------------------------------------------
  // What an upsert does

  /** The first record under the key is the one `Lookup` reads. */
  lemma LookupFirst(records: seq<Record>, k: int, empId: int, date: string)
    requires FirstKeyed(records, k, empId, date)
    ensures Lookup(records, empId, date) == Some(records[k].status)
  {
    assert Keyed(records[k], empId, date);
    var k' := FoundAt(records, empId, date);
    assert Keyed(records[k'], empId, date);
    assert k == k';
  }

  /** The position of the first record under the key, when there is one. */
  lemma FoundAt(records: seq<Record>, empId: int, date: string) returns (k: int)
    requires Lookup(records, empId, date).Some?
    ensures FirstKeyed(records, k, empId, date) && records[k].status == Lookup(records, empId, date).value
  {
    k :| FirstKeyed(records, k, empId, date) && records[k].status == Lookup(records, empId, date).value;
  }

  /** After the upsert the key reads back as the new status, unless an empty
      status was already stored there (then the new record lands behind it). */
  lemma UpsertStores(records: seq<Record>, empId: int, date: string, status: string)
    requires Lookup(records, empId, date) != Some("")
    ensures Lookup(Upsert(records, empId, date, status), empId, date) == Some(status)
  {
    var r := Upsert(records, empId, date, status);
    if HasStatus(Lookup(records, empId, date)) {
      var k := FoundAt(records, empId, date);
      assert FirstKeyed(r, k, empId, date);
      LookupFirst(r, k, empId, date);
    } else {
      assert FirstKeyed(r, |records|, empId, date);
      LookupFirst(r, |records|, empId, date);
    }
  }

  /** An existing non-empty status is overwritten in place, records keep their
      positions and no record is added; otherwise exactly one record is
      appended and the old records stay as they were. */
  lemma UpsertShape(records: seq<Record>, empId: int, date: string, status: string)
    ensures var r := Upsert(records, empId, date, status);
      if HasStatus(Lookup(records, empId, date)) then
        && |r| == |records|
        && (forall k | 0 <= k < |r| :: r[k].empId == records[k].empId && r[k].date == records[k].date)
        && (forall k | 0 <= k < |r| :: r[k].status == if Keyed(records[k], empId, date) then status else records[k].status)
      else
        && |r| == |records| + 1
        && r[..|records|] == records
        && r[|records|] == Record(empId, date, status)
  {
  }

  /** The upsert leaves every record under another key as it was, in order. */
  lemma UpsertLeavesOthers(records: seq<Record>, empId: int, date: string, status: string)
    ensures OtherKeys(Upsert(records, empId, date, status), empId, date) == OtherKeys(records, empId, date)
  {
    if HasStatus(Lookup(records, empId, date)) {
      OtherKeysIgnoreStatus(records, empId, date, status);
    } else {
      OtherKeysIgnoreKeyed(records, Record(empId, date, status), empId, date);
    }
  }

  lemma {:induction false} OtherKeysIgnoreStatus(records: seq<Record>, empId: int, date: string, status: string)
    ensures OtherKeys(SetStatus(records, empId, date, status), empId, date) == OtherKeys(records, empId, date)
  {
    if records != [] {
      var r := SetStatus(records, empId, date, status);
      assert r[1..] == SetStatus(records[1..], empId, date, status);
      OtherKeysIgnoreStatus(records[1..], empId, date, status);
    }
  }

  lemma {:induction false} OtherKeysIgnoreKeyed(records: seq<Record>, x: Record, empId: int, date: string)
    requires Keyed(x, empId, date)
    ensures OtherKeys(records + [x], empId, date) == OtherKeys(records, empId, date)
  {
    if records == [] {
      assert OtherKeys([x], empId, date) == OtherKeys([x][1..], empId, date);
    } else {
      assert (records + [x])[1..] == records[1..] + [x];
      OtherKeysIgnoreKeyed(records[1..], x, empId, date);
    }
  }

  /** A table with at most one record per key keeps that property, as long as
      no empty status sits under the key being written. */
  lemma UpsertKeepsUnique(records: seq<Record>, empId: int, date: string, status: string)
    requires AtMostOnePerKey(records) && Lookup(records, empId, date) != Some("")
    ensures AtMostOnePerKey(Upsert(records, empId, date, status))
  {
    var r := Upsert(records, empId, date, status);
    if !HasStatus(Lookup(records, empId, date)) {
      forall i, j | 0 <= i < j < |r| ensures !Keyed(r[i], r[j].empId, r[j].date) {
        if j < |records| {
          assert r[i] == records[i] && r[j] == records[j];
        } else {
          assert r[i] == records[i];
        }
      }
    }
  }

  /** Writing the same key twice leaves what writing the second status alone
      would leave: the first status is gone and no record is added by the
      second write. */
  lemma UpsertTwice(records: seq<Record>, empId: int, date: string, first: string, second: string)
    requires Lookup(records, empId, date) != Some("") && first != ""
    ensures Upsert(Upsert(records, empId, date, first), empId, date, second) == Upsert(records, empId, date, second)
  {
    var r1 := Upsert(records, empId, date, first);
    UpsertStores(records, empId, date, first);
    assert HasStatus(Lookup(r1, empId, date));
    if HasStatus(Lookup(records, empId, date)) {
      SetStatusTwice(records, empId, date, first, second);
    } else {
      SetStatusOfNew(records, empId, date, first, second);
    }
  }

  lemma SetStatusTwice(records: seq<Record>, empId: int, date: string, first: string, second: string)
    ensures SetStatus(SetStatus(records, empId, date, first), empId, date, second)
         == SetStatus(records, empId, date, second)
  {
  }

  lemma SetStatusOfNew(records: seq<Record>, empId: int, date: string, first: string, second: string)
    requires Lookup(records, empId, date).None?
    ensures SetStatus(records + [Record(empId, date, first)], empId, date, second)
         == records + [Record(empId, date, second)]
  {
  }

  /** As written, a record whose stored status is empty is not seen by the
      truth test of line 77: the write inserts a second record under the same
      key, and reading the key still gives the empty status. */
  lemma EmptyStatusDuplicates(records: seq<Record>, empId: int, date: string, status: string)
    requires Lookup(records, empId, date) == Some("")
    ensures var r := Upsert(records, empId, date, status);
      && |r| == |records| + 1
      && !AtMostOnePerKey(r)
      && Lookup(r, empId, date) == Some("")
  {
    var r := Upsert(records, empId, date, status);
    var k := FoundAt(records, empId, date);
    assert FirstKeyed(r, k, empId, date);
    LookupFirst(r, k, empId, date);
    assert Keyed(r[k], r[|records|].empId, r[|records|].date);
  }

  // ---------------------------------------------------------------------------
  // The table

  /** The remote attendance table, as the webhook changes it. */
  class AttendanceTable {
    var records: seq<Record>

    constructor (initial: seq<Record>)
      ensures records == initial
    {
      records := initial;
    }

    /** `get_attendance(empId, date)`: quotes are dropped from the date, then
        the first record under the key gives its status. */
    function GetAttendance(empId: int, date: string): (r: Option<string>)
      reads this
      ensures r.None? <==> forall k | 0 <= k < |records| :: !Keyed(records[k], empId, RemoveQuotes(date))
      ensures r.Some? ==> exists k :: FirstKeyed(records, k, empId, RemoveQuotes(date)) && records[k].status == r.value
    {
      Lookup(records, empId, RemoveQuotes(date))
    }

    /** `add_attendance(empId, today, status)`: read the quoted date back, then
        UPDATE when a non-empty status is found and INSERT otherwise; the
        status is returned. */
    method AddAttendance(empId: int, today: string, status: string) returns (recorded: string)
      requires '\'' !in today
      modifies this
      ensures records == Upsert(old(records), empId, today, status)
      ensures recorded == status
    {
      var quoted := "'" + today + "'";
      var existing := GetAttendance(empId, quoted);
      UnquoteQuoted(today);
      if existing.Some? && existing.value != "" {
        records := SetStatus(records, empId, today, status);
      } else {
        records := records + [Record(empId, today, status)];
      }
      recorded := status;
    }
  }
}
