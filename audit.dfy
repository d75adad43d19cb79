/** The course eligibility audit: records of a course's sessions grouped by
    matric number, each student's attendance percentage, the 75% rule, and
    the report sorted by percentage. */
module Audit {
  import opened Model
  import opened Storage
  import opened Sorting

  /** Percentage needed for exam eligibility. */
  const ELIGIBILITY_THRESHOLD: real := 75.0

  /** `count / total * 100`, or 0 when the course has no sessions. */
  function Percentage(count: nat, total: nat): (p: real)
    ensures p >= 0.0
    ensures total == 0 ==> p == 0.0
  {
    if total > 0 then (count as real / total as real) * 100.0 else 0.0
  }

  function InCourse(courseId: string): Session -> bool {
    (s: Session) => s.courseId == courseId
  }

  /** `allSessions.filter(s => s.courseId === courseId)` */
  function CourseSessions(sessions: seq<Session>, courseId: string): (r: seq<Session>)
    ensures |r| <= |sessions|
    ensures forall s :: s in r <==> s in sessions && s.courseId == courseId
  {
    FilterMembership(sessions, InCourse(courseId));
    Filter(sessions, InCourse(courseId))
  }

  /** `sessions.some(s => s.id === id)` */
  predicate HasSessionId(sessions: seq<Session>, id: string) {
    exists i :: 0 <= i < |sessions| && sessions[i].id == id
  }

  function InSessions(courseSessions: seq<Session>): AttendanceRecord -> bool {
    (x: AttendanceRecord) => HasSessionId(courseSessions, x.sessionId)
  }

  /** `allRecords.filter(r => courseSessions.some(s => s.id === r.sessionId))` */
  function CourseRecords(records: seq<AttendanceRecord>, courseSessions: seq<Session>): (r: seq<AttendanceRecord>)
    ensures |r| <= |records|
    ensures forall x :: x in r <==> x in records && HasSessionId(courseSessions, x.sessionId)
  {
    FilterMembership(records, InSessions(courseSessions));
    Filter(records, InSessions(courseSessions))
  }

  // Reference definitions, read from the left.

  predicate Occurs(records: seq<AttendanceRecord>, matric: string) {
    exists i :: 0 <= i < |records| && records[i].matricNo == matric
  }

  /** How many records carry the matric. */
  function Count(records: seq<AttendanceRecord>, matric: string): nat {
    if records == [] then 0
    else (if records[0].matricNo == matric then 1 else 0) + Count(records[1..], matric)
  }

  /** How many records carry the matric and belong to one of the given sessions. */
  function CountInCourse(records: seq<AttendanceRecord>, matric: string, courseSessions: seq<Session>): nat {
    if records == [] then 0
    else
      (if records[0].matricNo == matric && HasSessionId(courseSessions, records[0].sessionId) then 1 else 0)
      + CountInCourse(records[1..], matric, courseSessions)
  }

  /** The student name on the first record that carries the matric. */
  function FirstName(records: seq<AttendanceRecord>, matric: string): string
    requires Occurs(records, matric)
  {
    if records[0].matricNo == matric then records[0].studentName
    else
      assert Occurs(records[1..], matric) by {
        var i :| 0 <= i < |records| && records[i].matricNo == matric;
        assert records[1..][i - 1] == records[i];
      }
      FirstName(records[1..], matric)
  }

  /** The position of the first record that carries the matric. */
  function FirstIndex(records: seq<AttendanceRecord>, matric: string): (k: nat)
    requires Occurs(records, matric)
    ensures k < |records| && records[k].matricNo == matric
    ensures forall j :: 0 <= j < k ==> records[j].matricNo != matric
  {
    if records[0].matricNo == matric then 0
    else
      assert Occurs(records[1..], matric) by {
        var i :| 0 <= i < |records| && records[i].matricNo == matric;
        assert records[1..][i - 1] == records[i];
      }
      1 + FirstIndex(records[1..], matric)
  }

  // The `studentMap` the grouping loop builds, read record by record.

  datatype Entry = Entry(name: string, count: nat)

  /** One turn of the loop: the first record of a matric creates its entry
      with that record's name and a count of 0, then every record adds one. */
  function AddEntry(table: map<string, Entry>, r: AttendanceRecord): (t: map<string, Entry>)
    ensures t.Keys == table.Keys + {r.matricNo}
  {
    var start := if r.matricNo in table then table else table[r.matricNo := Entry(r.studentName, 0)];
    start[r.matricNo := start[r.matricNo].(count := start[r.matricNo].count + 1)]
  }

  /** A key joins the key list the first time it is set. */
  function AddKey(keys: seq<string>, m: string): seq<string> {
    if m in keys then keys else keys + [m]
  }

  /** The dictionary after the loop has visited every record. */
  function Groups(records: seq<AttendanceRecord>): map<string, Entry> {
    if records == [] then map[]
    else AddEntry(Groups(records[..|records| - 1]), records[|records| - 1])
  }

  /** The dictionary's keys in insertion order (`Object.keys`). */
  function Keys(records: seq<AttendanceRecord>): (keys: seq<string>)
    ensures forall i, j :: 0 <= i < j < |keys| ==> keys[i] != keys[j]
  {
    if records == [] then []
    else AddKey(Keys(records[..|records| - 1]), records[|records| - 1].matricNo)
  }

  /** Reading one more record is one more turn of the loop. */
  lemma GroupsStep(records: seq<AttendanceRecord>, i: nat)
    requires i < |records|
    ensures Groups(records[..i + 1]) == AddEntry(Groups(records[..i]), records[i])
    ensures Keys(records[..i + 1]) == AddKey(Keys(records[..i]), records[i].matricNo)
  {
    assert records[..i + 1][..i] == records[..i];
    assert records[..i + 1][i] == records[i];
  }

  /** A matric is among the keys exactly when the dictionary has it. */
  lemma {:induction false} KeysDomain(records: seq<AttendanceRecord>)
    ensures forall m :: m in Keys(records) <==> m in Groups(records)
  {
    if records != [] {
      KeysDomain(records[..|records| - 1]);
    }
  }

  function StatRow(matric: string, entry: Entry, total: nat): (row: StudentStats)
    ensures row.eligible <==> total > 0 && 4 * entry.count >= 3 * total
  {
    EligibleIff(entry.count, total);
    var pct := Percentage(entry.count, total);
    StudentStats(matric, entry.name, entry.count, total, pct, pct >= ELIGIBILITY_THRESHOLD)
  }

  /** `Object.keys(studentMap).map(...)` */
  function Rows(keys: seq<string>, table: map<string, Entry>, total: nat): seq<StudentStats>
    requires forall m :: m in keys ==> m in table
  {
    seq(|keys|, i requires 0 <= i < |keys| => StatRow(keys[i], table[keys[i]], total))
  }

  function Pct(row: StudentStats): real {
    row.percentage
  }

  /** The report the audit view shows for a course. */
  function AuditReport(courseId: string, sessions: seq<Session>, records: seq<AttendanceRecord>): (report: seq<StudentStats>)
    ensures |report| == |AuditRows(courseId, sessions, records)|
    ensures NonIncreasing(report, Pct)
  {
    SortDescSorted(AuditRows(courseId, sessions, records), Pct);
    SortDesc(AuditRows(courseId, sessions, records), Pct)
  }

  /** The `forEach` that fills `studentMap`: the first record of a matric
      creates its entry with that record's name, every record adds one. */
  method GroupByMatric(records: seq<AttendanceRecord>) returns (keys: seq<string>, table: map<string, Entry>)
    ensures keys == Keys(records) && table == Groups(records)
  {
    keys, table := [], map[];
    var i := 0;
    while i < |records|
      invariant 0 <= i <= |records|
      invariant keys == Keys(records[..i]) && table == Groups(records[..i])
    {
      GroupsStep(records, i);
      KeysDomain(records[..i]);
      var r := records[i];
      if r.matricNo !in table {
        table := table[r.matricNo := Entry(r.studentName, 0)];
        keys := keys + [r.matricNo];
      }
      table := table[r.matricNo := table[r.matricNo].(count := table[r.matricNo].count + 1)];
      i := i + 1;
    }
    assert records[..i] == records;
  }

  /** The effect of the audit view: read storage, filter, group, build rows, sort. */
  method ComputeAudit(store: Store, courseId: string) returns (totalSessions: nat, stats: seq<StudentStats>)
    ensures totalSessions == |CourseSessions(store.sessions, courseId)|
    ensures stats == AuditReport(courseId, store.sessions, store.records)
  {
    var courseSessions := CourseSessions(store.sessions, courseId);
    totalSessions := |courseSessions|;
    var courseRecords := CourseRecords(store.records, courseSessions);
    var keys, table := GroupByMatric(courseRecords);
    KeysDomain(courseRecords);
    var rows := Rows(keys, table, |courseSessions|);
    stats := SortDesc(rows, Pct);
  }

  // What the grouping computes.

  lemma {:induction false} CountSnoc(records: seq<AttendanceRecord>, r: AttendanceRecord, matric: string)
    ensures Count(records + [r], matric) == Count(records, matric) + (if r.matricNo == matric then 1 else 0)
  {
    if records != [] {
      CountSnoc(records[1..], r, matric);
      assert (records + [r])[1..] == records[1..] + [r];
    }
  }

  lemma {:induction false} CountAbsent(records: seq<AttendanceRecord>, matric: string)
    requires !Occurs(records, matric)
    ensures Count(records, matric) == 0
  {
    if records != [] {
      CountAbsent(records[1..], matric);
    }
  }

  lemma {:induction false} FirstNameSnoc(records: seq<AttendanceRecord>, r: AttendanceRecord, matric: string)
    requires Occurs(records, matric)
    ensures Occurs(records + [r], matric)
    ensures FirstName(records + [r], matric) == FirstName(records, matric)
  {
    assert (records + [r])[FirstIndex(records, matric)] == records[FirstIndex(records, matric)];
    if records[0].matricNo != matric {
      assert Occurs(records[1..], matric) by {
        var i := FirstIndex(records, matric);
        assert records[1..][i - 1] == records[i];
      }
      FirstNameSnoc(records[1..], r, matric);
      assert (records + [r])[1..] == records[1..] + [r];
    }
  }

  lemma {:induction false} FirstNameNew(records: seq<AttendanceRecord>, r: AttendanceRecord)
    requires !Occurs(records, r.matricNo)
    ensures Occurs(records + [r], r.matricNo)
    ensures FirstName(records + [r], r.matricNo) == r.studentName
  {
    assert (records + [r])[|records|] == r;
    if records != [] {
      FirstNameNew(records[1..], r);
      assert (records + [r])[1..] == records[1..] + [r];
    }
  }

  lemma {:induction false} FirstIndexSnoc(records: seq<AttendanceRecord>, r: AttendanceRecord, matric: string)
    requires Occurs(records, matric)
    ensures Occurs(records + [r], matric)
    ensures FirstIndex(records + [r], matric) == FirstIndex(records, matric)
  {
    var k := FirstIndex(records, matric);
    assert (records + [r])[k] == records[k];
    var k' := FirstIndex(records + [r], matric);
    assert k' <= k;
    assert (records + [r])[k'] == records[k'];
  }

  /** The dictionary holds exactly the matrics of the records. */
  lemma {:induction false} GroupsDomain(records: seq<AttendanceRecord>)
    ensures forall m :: m in Groups(records) <==> Occurs(records, m)
  {
    if records != [] {
      var prefix := records[..|records| - 1];
      var r := records[|records| - 1];
      GroupsDomain(prefix);
      forall m ensures Occurs(records, m) <==> Occurs(prefix, m) || m == r.matricNo {
        if Occurs(records, m) && m != r.matricNo {
          var i :| 0 <= i < |records| && records[i].matricNo == m;
          assert prefix[i] == records[i];
        }
        if Occurs(prefix, m) {
          var i :| 0 <= i < |prefix| && prefix[i].matricNo == m;
          assert records[i] == prefix[i];
        }
      }
    }
  }

  /** Each entry counts that matric's records and keeps the name of its
      first record. */
  lemma {:induction false} GroupsEntries(records: seq<AttendanceRecord>, m: string)
    requires Occurs(records, m)
    ensures m in Groups(records)
    ensures Groups(records)[m].count == Count(records, m)
    ensures Groups(records)[m].name == FirstName(records, m)
  {
    GroupsDomain(records);
    var prefix := records[..|records| - 1];
    var r := records[|records| - 1];
    assert records == prefix + [r];
    GroupsDomain(prefix);
    CountSnoc(prefix, r, m);
    if Occurs(prefix, m) {
      GroupsEntries(prefix, m);
      FirstNameSnoc(prefix, r, m);
    } else {
      CountAbsent(prefix, m);
      FirstNameNew(prefix, r);
    }
  }

  /** The keys are the distinct matrics of the records. */
  lemma KeysOccur(records: seq<AttendanceRecord>)
    ensures forall m :: m in Keys(records) <==> Occurs(records, m)
  {
    KeysDomain(records);
    GroupsDomain(records);
  }

  /** The keys come in the order of each matric's first record. */
  lemma {:induction false} KeysFirstSeenOrder(records: seq<AttendanceRecord>)
    ensures forall m :: m in Keys(records) ==> Occurs(records, m)
    ensures forall i, j :: 0 <= i < j < |Keys(records)| ==>
              FirstIndex(records, Keys(records)[i]) < FirstIndex(records, Keys(records)[j])
  {
    KeysOccur(records);
    if records != [] {
      var prefix := records[..|records| - 1];
      var r := records[|records| - 1];
      assert records == prefix + [r];
      assert Keys(records) == AddKey(Keys(prefix), r.matricNo);
      KeysFirstSeenOrder(prefix);
      KeysOccur(prefix);
      var keys := Keys(records);
      var old_keys := Keys(prefix);
      forall i, j | 0 <= i < j < |keys|
        ensures FirstIndex(records, keys[i]) < FirstIndex(records, keys[j])
      {
        assert keys[i] == old_keys[i];
        FirstIndexSnoc(prefix, r, old_keys[i]);
        if j < |old_keys| {
          assert keys[j] == old_keys[j];
          FirstIndexSnoc(prefix, r, old_keys[j]);
        } else {
          assert keys[j] == r.matricNo && r.matricNo !in old_keys;
          assert FirstIndex(records, keys[j]) == |prefix|;
        }
      }
    }
  }

  /** Counting over the course's records is counting, over all records, those
      that belong to one of the course's sessions. */
  lemma {:induction false} CountCourseRecords(records: seq<AttendanceRecord>, courseSessions: seq<Session>, matric: string)
    ensures Count(CourseRecords(records, courseSessions), matric) == CountInCourse(records, matric, courseSessions)
  {
    if records != [] {
      CountCourseRecords(records[1..], courseSessions, matric);
      var head := if HasSessionId(courseSessions, records[0].sessionId) then [records[0]] else [];
      CountAppend(head, CourseRecords(records[1..], courseSessions), matric);
    }
  }

  lemma {:induction false} CountAppend(a: seq<AttendanceRecord>, b: seq<AttendanceRecord>, matric: string)
    ensures Count(a + b, matric) == Count(a, matric) + Count(b, matric)
  {
    if a != [] {
      CountAppend(a[1..], b, matric);
      assert (a + b)[0] == a[0];
      assert (a + b)[1..] == a[1..] + b;
    } else {
      assert a + b == b;
    }
  }

  /** The 75% rule in integers: eligible exactly when the course has sessions
      and four times the attended count reaches three times the total. */
  lemma EligibleIff(count: nat, total: nat)
    ensures Percentage(count, total) >= ELIGIBILITY_THRESHOLD <==> total > 0 && 4 * count >= 3 * total
    ensures total > 0 ==> Percentage(count, total) * total as real == 100.0 * count as real
  {
    if total > 0 {
      var t := total as real;
      var c := count as real;
      var p := Percentage(count, total);
      assert p == (c / t) * 100.0;
      assert (c / t) * t == c;
      assert p * t == ((c / t) * t) * 100.0;
      assert p * t == 100.0 * c;
      ScaleByPositive(p, 75.0, t);
      assert p >= 75.0 <==> 100.0 * c >= 75.0 * t;
    }
  }

  lemma ScaleByPositive(a: real, b: real, t: real)
    requires t > 0.0
    ensures a >= b <==> a * t >= b * t
  {
    assert a * t - b * t == (a - b) * t;
  }

  /** Every row of the report: the course's session total, the number of
      course records with that matric (over all stored records, those whose
      session is one of the course's), the name from the first course record,
      and the 75% rule. */
  lemma AuditRowFacts(courseId: string, sessions: seq<Session>, records: seq<AttendanceRecord>, i: nat)
    requires i < |AuditReport(courseId, sessions, records)|
    ensures var courseSessions := CourseSessions(sessions, courseId);
            var courseRecords := CourseRecords(records, courseSessions);
            var row := AuditReport(courseId, sessions, records)[i];
            && Occurs(courseRecords, row.matricNo)
            && row.totalSessions == |courseSessions|
            && row.sessionsAttended == Count(courseRecords, row.matricNo)
            && row.sessionsAttended == CountInCourse(records, row.matricNo, courseSessions)
            && row.name == FirstName(courseRecords, row.matricNo)
            && row.percentage == Percentage(row.sessionsAttended, row.totalSessions)
            && (row.eligible <==> row.totalSessions > 0 && 4 * row.sessionsAttended >= 3 * row.totalSessions)
  {
    var courseSessions := CourseSessions(sessions, courseId);
    var courseRecords := CourseRecords(records, courseSessions);
    KeysDomain(courseRecords);
    var rows := Rows(Keys(courseRecords), Groups(courseRecords), |courseSessions|);
    var report := AuditReport(courseId, sessions, records);
    SortDescPermutes(rows, Pct);
    assert report[i] in multiset(rows);
    var k :| 0 <= k < |rows| && rows[k] == report[i];
    var m := Keys(courseRecords)[k];
    KeysOccur(courseRecords);
    GroupsEntries(courseRecords, m);
    CountCourseRecords(records, courseSessions, m);
    EligibleIff(Count(courseRecords, m), |courseSessions|);
  }

  /** The rows before sorting: one per key, in key order. */
  function AuditRows(courseId: string, sessions: seq<Session>, records: seq<AttendanceRecord>): seq<StudentStats> {
    var courseSessions := CourseSessions(sessions, courseId);
    var courseRecords := CourseRecords(records, courseSessions);
    KeysDomain(courseRecords);
    Rows(Keys(courseRecords), Groups(courseRecords), |courseSessions|)
  }

  lemma AuditRowsKeys(courseId: string, sessions: seq<Session>, records: seq<AttendanceRecord>)
    ensures var keys := Keys(CourseRecords(records, CourseSessions(sessions, courseId)));
            var rows := AuditRows(courseId, sessions, records);
            |rows| == |keys| && forall i :: 0 <= i < |rows| ==> rows[i].matricNo == keys[i]
  {
  }

  lemma ReportIsSortedRows(courseId: string, sessions: seq<Session>, records: seq<AttendanceRecord>)
    ensures AuditReport(courseId, sessions, records) == SortDesc(AuditRows(courseId, sessions, records), Pct)
  {
  }

  /** A permutation of rows keyed by distinct matrics has the same matrics, still distinct. */
  lemma PermutedMatrics(rows: seq<StudentStats>, report: seq<StudentStats>, keys: seq<string>)
    requires multiset(report) == multiset(rows)
    requires |rows| == |keys| && forall i :: 0 <= i < |rows| ==> rows[i].matricNo == keys[i]
    ensures forall m :: m in keys <==> exists i :: 0 <= i < |report| && report[i].matricNo == m
  {
    forall m ensures m in keys <==> exists i :: 0 <= i < |report| && report[i].matricNo == m {
      if m in keys {
        var k :| 0 <= k < |keys| && keys[k] == m;
        assert rows[k] in multiset(report);
        var i :| 0 <= i < |report| && report[i] == rows[k];
      }
      if exists i :: 0 <= i < |report| && report[i].matricNo == m {
        var i :| 0 <= i < |report| && report[i].matricNo == m;
        assert report[i] in multiset(rows);
        var k :| 0 <= k < |rows| && rows[k] == report[i];
      }
    }
  }

  /** Every matric among the course's records has a row in the report. */
  lemma ReportHasRow(courseId: string, sessions: seq<Session>, records: seq<AttendanceRecord>, matric: string)
    returns (j: nat)
    requires Occurs(CourseRecords(records, CourseSessions(sessions, courseId)), matric)
    ensures j < |AuditReport(courseId, sessions, records)|
    ensures AuditReport(courseId, sessions, records)[j].matricNo == matric
  {
    var courseRecords := CourseRecords(records, CourseSessions(sessions, courseId));
    var keys := Keys(courseRecords);
    var rows := AuditRows(courseId, sessions, records);
    var report := AuditReport(courseId, sessions, records);
    KeysOccur(courseRecords);
    var k :| 0 <= k < |keys| && keys[k] == matric;
    AuditRowsKeys(courseId, sessions, records);
    ReportIsSortedRows(courseId, sessions, records);
    SortDescPermutes(rows, Pct);
    j := PermutedIndex(rows, report, k);
  }

  /** Where an element of rows sits after a permutation. */
  lemma PermutedIndex(rows: seq<StudentStats>, report: seq<StudentStats>, k: nat) returns (j: nat)
    requires multiset(report) == multiset(rows) && k < |rows|
    ensures j < |report| && report[j] == rows[k]
  {
    assert rows[k] in multiset(report);
    j :| 0 <= j < |report| && report[j] == rows[k];
  }

  /** Exactly one row per distinct matric among the course's records. */
  lemma OneRowPerStudent(courseId: string, sessions: seq<Session>, records: seq<AttendanceRecord>)
    ensures var courseRecords := CourseRecords(records, CourseSessions(sessions, courseId));
            var report := AuditReport(courseId, sessions, records);
            && (forall m :: Occurs(courseRecords, m) <==> exists i :: 0 <= i < |report| && report[i].matricNo == m)
            && (forall i, j :: 0 <= i < j < |report| ==> report[i].matricNo != report[j].matricNo)
  {
    var courseRecords := CourseRecords(records, CourseSessions(sessions, courseId));
    var keys := Keys(courseRecords);
    var rows := AuditRows(courseId, sessions, records);
    var report := AuditReport(courseId, sessions, records);
    ReportIsSortedRows(courseId, sessions, records);
    AuditRowsKeys(courseId, sessions, records);
    KeysOccur(courseRecords);
    SortDescPermutes(rows, Pct);
    PermutedMatrics(rows, report, keys);
    SortDescKeepsDistinct(rows, Pct, (row: StudentStats) => row.matricNo);
  }

  /** The report is ordered by percentage, highest first, and students with
      equal percentages keep the order of their first course record. */
  lemma AuditOrder(courseId: string, sessions: seq<Session>, records: seq<AttendanceRecord>, pct: real)
    ensures var courseRecords := CourseRecords(records, CourseSessions(sessions, courseId));
            var rows := AuditRows(courseId, sessions, records);
            var report := AuditReport(courseId, sessions, records);
            && NonIncreasing(report, Pct)
            && multiset(report) == multiset(rows)
            && WithKey(report, Pct, pct) == WithKey(rows, Pct, pct)
            && (forall i :: 0 <= i < |rows| ==> Occurs(courseRecords, rows[i].matricNo))
            && forall i, j :: 0 <= i < j < |rows| ==>
                 FirstIndex(courseRecords, rows[i].matricNo) < FirstIndex(courseRecords, rows[j].matricNo)
  {
    var courseRecords := CourseRecords(records, CourseSessions(sessions, courseId));
    var rows := AuditRows(courseId, sessions, records);
    ReportIsSortedRows(courseId, sessions, records);
    SortDescSorted(rows, Pct);
    SortDescPermutes(rows, Pct);
    SortDescStable(rows, Pct, pct);
    AuditRowsKeys(courseId, sessions, records);
    KeysFirstSeenOrder(courseRecords);
  }

  /** A course without sessions has no records and an empty report. */
  lemma NoSessionsNoReport(courseId: string, sessions: seq<Session>, records: seq<AttendanceRecord>)
    requires CourseSessions(sessions, courseId) == []
    ensures AuditReport(courseId, sessions, records) == []
  {
  }
}
