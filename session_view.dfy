/** The lecturer's live session page: the roll of the session's records, the
    link-expiry countdown, per-attendee statistics for the summary, and the
    portal link students follow. */
module SessionView {
  import opened Model
  import opened Text
  import opened Storage
  import opened Sorting
  import App
  import Audit

  /** The link is shown as valid for 30 minutes after the session starts. */
  const LINK_EXPIRY_MS: int := 30 * 60 * 1000

  function InSession(sessionId: string): AttendanceRecord -> bool {
    (x: AttendanceRecord) => x.sessionId == sessionId
  }

  /** `allRecords.filter(r => r.sessionId === sessionId)` */
  function ForSession(records: seq<AttendanceRecord>, sessionId: string): (r: seq<AttendanceRecord>)
    ensures |r| <= |records|
    ensures forall x :: x in r <==> x in records && x.sessionId == sessionId
  {
    FilterMembership(records, InSession(sessionId));
    Filter(records, InSession(sessionId))
  }

  function Stamp(r: AttendanceRecord): real {
    r.timestamp as real
  }

  /** `fetchRecords`: the session's records, newest first. */
  function Roll(records: seq<AttendanceRecord>, sessionId: string): (r: seq<AttendanceRecord>)
    ensures multiset(r) == multiset(ForSession(records, sessionId))
  {
    SortDescPermutes(ForSession(records, sessionId), Stamp);
    SortDesc(ForSession(records, sessionId), Stamp)
  }

  /** The roll holds exactly the session's records, as often as they are
      stored, newest first, with records of equal time in stored order. */
  lemma RollMeaning(records: seq<AttendanceRecord>, sessionId: string, time: real)
    ensures forall x :: x in Roll(records, sessionId) <==> x in records && x.sessionId == sessionId
    ensures multiset(Roll(records, sessionId)) == multiset(ForSession(records, sessionId))
    ensures forall i, j :: 0 <= i < j < |Roll(records, sessionId)| ==>
              Roll(records, sessionId)[i].timestamp >= Roll(records, sessionId)[j].timestamp
    ensures WithKey(Roll(records, sessionId), Stamp, time) == WithKey(ForSession(records, sessionId), Stamp, time)
  {
    var filtered := ForSession(records, sessionId);
    SortDescPermutes(filtered, Stamp);
    SortDescSorted(filtered, Stamp);
    SortDescStable(filtered, Stamp, time);
    var roll := Roll(records, sessionId);
    forall x ensures x in roll <==> x in filtered {
      assert x in roll <==> x in multiset(roll);
    }
    forall i, j | 0 <= i < j < |roll| ensures roll[i].timestamp >= roll[j].timestamp {
      assert Stamp(roll[i]) >= Stamp(roll[j]);
    }
  }

  /** `${mins}:${secs < 10 ? '0' : ''}${secs}` */
  function ClockText(mins: nat, secs: nat): string {
    NatToString(mins) + ":" + (if secs < 10 then "0" else "") + NatToString(secs)
  }

  /** The countdown text for a session that started at `startTime`, read at `now`. */
  function Countdown(startTime: int, now: int): (t: string)
    ensures t == "EXPIRED" <==> LINK_EXPIRY_MS - (now - startTime) <= 0
  {
    var diff := LINK_EXPIRY_MS - (now - startTime);
    if diff <= 0 then "EXPIRED"
    else
      var t := ClockText(diff / 60000, (diff % 60000) / 1000);
      assert IsDigit(t[0]) && !IsDigit("EXPIRED"[0]);
      t
  }

  /** `updateTimer`: the text changes only while the route's session exists
      and is active; otherwise the previous text stays. */
  function TimerText(sessions: seq<Session>, sessionId: string, now: int, previous: string): (t: string)
    ensures t != previous ==> FindById(sessions, sessionId).Some? && FindById(sessions, sessionId).value.active
  {
    var found := FindById(sessions, sessionId);
    if found.Some? && found.value.active then Countdown(found.value.startTime, now) else previous
  }

  lemma TwoDigitText(n: nat)
    requires 10 <= n < 100
    ensures |NatToString(n)| == 2
  {
  }

  lemma {:induction false} DivideClock(diff: int)
    requires diff > 0
    ensures (diff % 60000) / 1000 < 60
    ensures (diff / 60000) * 60 + (diff % 60000) / 1000 == diff / 1000
  {
    var q := diff / 60000;
    var r := diff % 60000;
    assert diff == 60000 * q + r;
    assert 60000 * q + r == 1000 * (60 * q + r / 1000) + r % 1000;
  }

  /** While time is left, the countdown is minutes, a colon, and two digits of
      seconds; read back, they give the whole seconds left. */
  lemma CountdownReadsBack(startTime: int, now: int)
    requires LINK_EXPIRY_MS - (now - startTime) > 0
    ensures var diff := LINK_EXPIRY_MS - (now - startTime);
            var t := Countdown(startTime, now);
            && |t| >= 4 && t[|t| - 3] == ':'
            && (forall i :: 0 <= i < |t| && i != |t| - 3 ==> IsDigit(t[i]))
            && ParseDigits(t[..|t| - 3]) == diff / 60000
            && ParseDigits(t[|t| - 2..]) == (diff % 60000) / 1000 < 60
            && ParseDigits(t[..|t| - 3]) * 60 + ParseDigits(t[|t| - 2..]) == diff / 1000
  {
    var diff := LINK_EXPIRY_MS - (now - startTime);
    var mins := diff / 60000;
    var secs := (diff % 60000) / 1000;
    DivideClock(diff);
    var m := NatToString(mins);
    var s := (if secs < 10 then "0" else "") + NatToString(secs);
    if secs >= 10 {
      TwoDigitText(secs);
    }
    assert |s| == 2;
    var t := Countdown(startTime, now);
    assert t == m + ":" + s;
    assert t[..|t| - 3] == m;
    assert t[|t| - 2..] == s;
    ParseNatToString(mins);
    ParseNatToString(secs);
    if secs < 10 {
      assert s == ['0'] + NatToString(secs);
      assert s[..1] == "0";
    }
  }

  /** The timer text moves only for an existing, active session. */
  lemma TimerTextOnlyWhenActive(sessions: seq<Session>, sessionId: string, now: int, previous: string)
    ensures (forall i :: 0 <= i < |sessions| ==> sessions[i].id != sessionId) ==> TimerText(sessions, sessionId, now, previous) == previous
    ensures FindById(sessions, sessionId).Some? && !FindById(sessions, sessionId).value.active
            ==> TimerText(sessions, sessionId, now, previous) == previous
    ensures FindById(sessions, sessionId).Some? && FindById(sessions, sessionId).value.active
            ==> TimerText(sessions, sessionId, now, previous) == Countdown(FindById(sessions, sessionId).value.startTime, now)
  {
  }

  /** `activeSession || sessions.find(s => s.id === sessionId)`: the app's
      active session wins even when its id is not the route's. */
  function ShownSession(activeSession: Option<Session>, sessions: seq<Session>, sessionId: string): (r: Option<Session>)
    ensures activeSession.Some? ==> r == activeSession
    ensures r.None? <==> activeSession.None? && forall i :: 0 <= i < |sessions| ==> sessions[i].id != sessionId
  {
    if activeSession.Some? then activeSession else FindById(sessions, sessionId)
  }

  /** The statistics `runAiAnalysis` sends for summary: one entry per roll
      record, in roll order, counting that matric's records over every
      session of the shown session's course. */
  function AttendeeStats(roll: seq<AttendanceRecord>, sessions: seq<Session>, records: seq<AttendanceRecord>,
                         current: Session): (stats: seq<StudentStats>)
    ensures |stats| == |roll|
  {
    var courseSessions := Audit.CourseSessions(sessions, current.courseId);
    seq(|roll|, i requires 0 <= i < |roll| =>
      var count := Audit.CountInCourse(records, roll[i].matricNo, courseSessions);
      Audit.StatRow(roll[i].matricNo, Audit.Entry(roll[i].studentName, count), |courseSessions|))
  }

  /** Each entry carries its roll record's matric and name, the number of
      that matric's records, over all stored records, that belong to a session
      of the shown course, the course's session total, and the 75% rule over
      its own count. */
  lemma AttendeeStatsShape(roll: seq<AttendanceRecord>, sessions: seq<Session>, records: seq<AttendanceRecord>,
                           current: Session)
    ensures var stats := AttendeeStats(roll, sessions, records, current);
            var total := |Audit.CourseSessions(sessions, current.courseId)|;
            && |stats| == |roll|
            && forall i :: 0 <= i < |roll| ==>
                 && stats[i].matricNo == roll[i].matricNo && stats[i].name == roll[i].studentName
                 && stats[i].sessionsAttended
                    == Audit.CountInCourse(records, roll[i].matricNo, Audit.CourseSessions(sessions, current.courseId))
                 && stats[i].totalSessions == total
                 && stats[i].percentage == Audit.Percentage(stats[i].sessionsAttended, total)
                 && (stats[i].eligible <==> total > 0 && 4 * stats[i].sessionsAttended >= 3 * total)
  {
    var stats := AttendeeStats(roll, sessions, records, current);
    var total := |Audit.CourseSessions(sessions, current.courseId)|;
    forall i | 0 <= i < |roll|
      ensures stats[i].eligible <==> total > 0 && 4 * stats[i].sessionsAttended >= 3 * total
    {
      Audit.EligibleIff(stats[i].sessionsAttended, total);
    }
  }

  /** The per-session figures are the course audit's: every attendee whose
      record belongs to the course has a row in the course report with the
      same count, total, percentage and eligibility. */
  lemma AttendeeStatsAgreeWithAudit(roll: seq<AttendanceRecord>, sessions: seq<Session>,
                                    records: seq<AttendanceRecord>, current: Session, i: nat)
    requires i < |roll| && roll[i] in records
    requires Audit.HasSessionId(Audit.CourseSessions(sessions, current.courseId), roll[i].sessionId)
    ensures var entry := AttendeeStats(roll, sessions, records, current)[i];
            var report := Audit.AuditReport(current.courseId, sessions, records);
            exists j :: 0 <= j < |report| && report[j].matricNo == entry.matricNo
                        && report[j].sessionsAttended == entry.sessionsAttended
                        && report[j].totalSessions == entry.totalSessions
                        && report[j].percentage == entry.percentage
                        && report[j].eligible == entry.eligible
  {
    var courseSessions := Audit.CourseSessions(sessions, current.courseId);
    var total := |courseSessions|;
    var m := roll[i].matricNo;
    var count := Audit.CountInCourse(records, m, courseSessions);
    var entry := AttendeeStats(roll, sessions, records, current)[i];
    assert entry == Audit.StatRow(m, Audit.Entry(roll[i].studentName, count), total);
    var j := AuditRowFor(current.courseId, sessions, records, roll[i]);
    var report := Audit.AuditReport(current.courseId, sessions, records);
    Audit.AuditRowFacts(current.courseId, sessions, records, j);
    var row := report[j];
    assert row.sessionsAttended == count && row.totalSessions == total;
    assert row.percentage == entry.percentage;
    Audit.EligibleIff(count, total);
    assert row.eligible == entry.eligible;
  }

  /** A course record's matric has a row in the course report. */
  lemma AuditRowFor(courseId: string, sessions: seq<Session>, records: seq<AttendanceRecord>, r: AttendanceRecord)
    returns (j: nat)
    requires r in records && Audit.HasSessionId(Audit.CourseSessions(sessions, courseId), r.sessionId)
    ensures j < |Audit.AuditReport(courseId, sessions, records)|
    ensures Audit.AuditReport(courseId, sessions, records)[j].matricNo == r.matricNo
  {
    var courseRecords := Audit.CourseRecords(records, Audit.CourseSessions(sessions, courseId));
    var report := Audit.AuditReport(courseId, sessions, records);
    assert r in courseRecords;
    var k :| 0 <= k < |courseRecords| && courseRecords[k] == r;
    assert Audit.Occurs(courseRecords, r.matricNo);
    j := Audit.ReportHasRow(courseId, sessions, records, r.matricNo);
  }

  /** `${origin}${pathname}#/portal/${id}` */
  function PortalUrl(origin: string, pathname: string, sessionId: string): (url: string)
    ensures |url| == |origin| + |pathname| + |"#/portal/"| + |sessionId|
    ensures url[..|origin| + |pathname|] == origin + pathname
    ensures url[|url| - |sessionId|..] == sessionId
  {
    origin + pathname + "#/portal/" + sessionId
  }

  /** The part of the link after '#' is the portal route of that session: the
      route guard lets it through without a user, and the id reads back. */
  lemma PortalUrlRoute(origin: string, pathname: string, sessionId: string, user: Option<User>)
    ensures var url := PortalUrl(origin, pathname, sessionId);
            var route := url[|origin| + |pathname| + 1..];
            && url[|origin| + |pathname|] == '#'
            && route == "/portal/" + sessionId
            && StartsWith(route, "/portal/")
            && route[|"/portal/"|..] == sessionId
            && !App.ShouldRedirectHome(user, route)
  {
    var url := PortalUrl(origin, pathname, sessionId);
    assert url == (origin + pathname) + "#" + ("/portal/" + sessionId);
    var route := url[|origin| + |pathname| + 1..];
    assert route == "/portal/" + sessionId;
    assert route[..8] == "/portal/";
  }

  /** The page's own state. */
  class SessionMonitor {
    const sessionId: string
    var records: seq<AttendanceRecord>
    var timeLeft: string
    var aiInsights: string
    var analyzing: bool

    constructor (sessionId: string)
      ensures this.sessionId == sessionId
      ensures records == [] && timeLeft == "" && aiInsights == "" && !analyzing
    {
      this.sessionId := sessionId;
      records, timeLeft, aiInsights, analyzing := [], "", "", false;
    }

    /** One tick of the poll: `fetchRecords`, then `updateTimer`. */
    method Poll(store: Store, now: int)
      modifies this`records, this`timeLeft
      ensures records == Roll(store.records, sessionId)
      ensures timeLeft == TimerText(store.sessions, sessionId, now, old(timeLeft))
    {
      records := Roll(store.records, sessionId);
      var found := FindById(store.sessions, sessionId);
      if found.Some? && found.value.active {
        timeLeft := Countdown(found.value.startTime, now);
      }
    }

    /** `runAiAnalysis`, with the summary service passed in as `summarize`.
        Returns the statistics it sent, if any. */
    method RunAiAnalysis(store: Store, activeSession: Option<Session>, summarize: seq<StudentStats> -> string)
      returns (sent: Option<seq<StudentStats>>)
      modifies this`aiInsights, this`analyzing
      ensures records == [] ==> sent == None && aiInsights == old(aiInsights) && analyzing == old(analyzing)
      ensures records != [] ==> !analyzing
      ensures records != [] && ShownSession(activeSession, store.sessions, sessionId).None? ==>
                sent == None && aiInsights == old(aiInsights)
      ensures records != [] && ShownSession(activeSession, store.sessions, sessionId).Some? ==>
                && sent == Some(AttendeeStats(records, store.sessions, store.records,
                                              ShownSession(activeSession, store.sessions, sessionId).value))
                && aiInsights == summarize(sent.value)
    {
      sent := None;
      if records == [] {
        return;
      }
      analyzing := true;
      var current := ShownSession(activeSession, store.sessions, sessionId);
      if current.None? {
        analyzing := false;
        return;
      }
      var stats := AttendeeStats(records, store.sessions, store.records, current.value);
      sent := Some(stats);
      aiInsights := summarize(stats);
      analyzing := false;
    }
  }
}
