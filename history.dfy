/** The session history page: every stored session, newest first, each card
    showing its course, its status and how many records it holds. */
module History {
  import opened Model
  import opened Sorting
  import SessionView

  function StartKey(s: Session): real {
    s.startTime as real
  }

  /** `savedSessions.sort((a, b) => b.startTime - a.startTime)` */
  function Listing(sessions: seq<Session>): (r: seq<Session>)
    ensures multiset(r) == multiset(sessions)
  {
    SortDescPermutes(sessions, StartKey);
    SortDesc(sessions, StartKey)
  }

  /** The listing holds the stored sessions, each as often as stored, newest
      first; sessions started at the same time keep their stored order. */
  lemma ListingOrder(sessions: seq<Session>, time: real)
    ensures multiset(Listing(sessions)) == multiset(sessions)
    ensures |Listing(sessions)| == |sessions|
    ensures forall i, j :: 0 <= i < j < |Listing(sessions)| ==>
              Listing(sessions)[i].startTime >= Listing(sessions)[j].startTime
    ensures WithKey(Listing(sessions), StartKey, time) == WithKey(sessions, StartKey, time)
  {
    SortDescPermutes(sessions, StartKey);
    SortDescSorted(sessions, StartKey);
    SortDescStable(sessions, StartKey, time);
    var listing := Listing(sessions);
    forall i, j | 0 <= i < j < |listing| ensures listing[i].startTime >= listing[j].startTime {
      assert StartKey(listing[i]) >= StartKey(listing[j]);
    }
  }

  /** `records.filter(r => r.sessionId === session.id).length` */
  function AttendanceCount(records: seq<AttendanceRecord>, sessionId: string): (n: nat)
    ensures n <= |records|
  {
    |SessionView.ForSession(records, sessionId)|
  }

  /** The session id of every record, in stored order. */
  function SessionIds(records: seq<AttendanceRecord>): seq<string> {
    seq(|records|, i requires 0 <= i < |records| => records[i].sessionId)
  }

  /** The count is how often the session's id occurs among the records' session ids. */
  lemma {:induction false} AttendanceCountIsMultiplicity(records: seq<AttendanceRecord>, sessionId: string)
    ensures AttendanceCount(records, sessionId) == multiset(SessionIds(records))[sessionId]
  {
    if records != [] {
      AttendanceCountIsMultiplicity(records[1..], sessionId);
      assert SessionIds(records) == [records[0].sessionId] + SessionIds(records[1..]);
    }
  }

  /** The card's count is the length of the roll the session page shows. */
  lemma AttendanceCountMatchesRoll(records: seq<AttendanceRecord>, sessionId: string)
    ensures AttendanceCount(records, sessionId) == |SessionView.Roll(records, sessionId)|
  {
  }

  /** An accepted submission adds one to its session's count and leaves every
      other session's count alone. */
  lemma {:induction false} AttendanceCountAppend(records: seq<AttendanceRecord>, r: AttendanceRecord, sessionId: string)
    ensures AttendanceCount(records + [r], sessionId)
            == AttendanceCount(records, sessionId) + (if r.sessionId == sessionId then 1 else 0)
  {
    AttendanceCountIsMultiplicity(records, sessionId);
    AttendanceCountIsMultiplicity(records + [r], sessionId);
    assert SessionIds(records + [r]) == SessionIds(records) + [r.sessionId];
  }

  function StatusLabel(s: Session): string {
    if s.active then "Active" else "Ended"
  }

  lemma StatusLabelIff(s: Session)
    ensures StatusLabel(s) == "Active" <==> s.active
    ensures StatusLabel(s) == "Ended" <==> !s.active
  {
    assert "Active"[0] != "Ended"[0];
  }

  function CourseId(c: Course): string {
    c.id
  }

  /** `COURSES.find(c => c.id === session.courseId)` */
  function FindCourse(courses: seq<Course>, id: string): (r: Option<Course>)
    ensures r.None? <==> forall i :: 0 <= i < |courses| ==> courses[i].id != id
    ensures r.Some? ==> exists k :: 0 <= k < |courses| && courses[k] == r.value && r.value.id == id
                                    && forall j :: 0 <= j < k ==> courses[j].id != id
  {
    FindFirst(courses, CourseId, id)
  }

  /** One history card. `course` is None when the session's course is not in
      the catalogue, and the card then shows no code or name. */
  datatype Card = Card(session: Session, course: Option<Course>, attendance: nat, status: string)

  datatype Page = EmptyState | Cards(cards: seq<Card>)

  /** What the page shows for the stored sessions and records. */
  function HistoryPage(sessions: seq<Session>, records: seq<AttendanceRecord>): (p: Page)
    ensures p.EmptyState? <==> sessions == []
    ensures p.Cards? ==> |p.cards| == |sessions|
  {
    if |sessions| == 0 then EmptyState
    else
      var listing := Listing(sessions);
      Cards(seq(|listing|, i requires 0 <= i < |listing| =>
        Card(listing[i], FindCourse(COURSES, listing[i].courseId),
             AttendanceCount(records, listing[i].id), StatusLabel(listing[i]))))
  }

  /** No stored session gives the empty state; otherwise there is one card per
      stored session, in listing order, each with its own count and label. */
  lemma HistoryPageShape(sessions: seq<Session>, records: seq<AttendanceRecord>)
    ensures HistoryPage(sessions, records).EmptyState? <==> sessions == []
    ensures sessions != [] ==>
              var cards := HistoryPage(sessions, records).cards;
              && |cards| == |sessions|
              && forall i :: 0 <= i < |cards| ==>
                   && cards[i].session == Listing(sessions)[i]
                   && cards[i].attendance == multiset(SessionIds(records))[cards[i].session.id]
                   && (cards[i].status == "Active" <==> cards[i].session.active)
                   && (cards[i].course.None? <==> forall k :: 0 <= k < |COURSES| ==> COURSES[k].id != cards[i].session.courseId)
                   && (cards[i].course.Some? ==> cards[i].course.value in COURSES
                                                 && cards[i].course.value.id == cards[i].session.courseId)
  {
    if sessions != [] {
        var cards := HistoryPage(sessions, records).cards;
      forall i | 0 <= i < |cards|
        ensures cards[i].attendance == multiset(SessionIds(records))[cards[i].session.id]
        ensures cards[i].status == "Active" <==> cards[i].session.active
      {
        AttendanceCountIsMultiplicity(records, cards[i].session.id);
        StatusLabelIff(cards[i].session);
      }
    }
  }
}
