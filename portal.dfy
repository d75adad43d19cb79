/** The student portal: the checks a submission passes through, in order,
    and the single record an accepted submission appends. */
module Portal {
  import opened Model
  import opened Text
  import opened Storage

  datatype Status = Idle | Success | Error

  /** The reasons a submission is turned away, in the order they are checked. */
  datatype Rejection =
    | SessionInactive
    | WrongKey
    | GeolocationUnsupported
    | LocationDenied
    | OutOfRange
    | AlreadySubmitted

  datatype Verdict = Accepted | Rejected(reason: Rejection)

  function Message(reason: Rejection): string {
    match reason
    case SessionInactive => "This session is no longer active."
    case WrongKey => "Incorrect Session Key. Please ask your lecturer."
    case GeolocationUnsupported => "Geolocation must be enabled to take attendance."
    case LocationDenied => "Location access denied. Attendance cannot be verified."
    case OutOfRange => "Outside lecture range. Attendance denied."
    case AlreadySubmitted => "You have already logged attendance for this session."
  }

  function SuccessMessage(name: string): string {
    "Attendance successfully logged for " + name + "!"
  }

  /** Half the side of the accepted box around the session's position, in degrees. */
  const RANGE_DEGREES: real := 0.001

  function Abs(x: real): real {
    if x < 0.0 then -x else x
  }

  /** The typed key, upper-cased, must equal the stored key exactly. */
  predicate KeyMatches(keyInput: string, session: Session) {
    Upper(keyInput) == session.sessionKey
  }

  /** The device must lie in a box of ±0.001° around the session's position;
      the session's radius plays no part. */
  predicate WithinRange(position: Location, session: Session) {
    Abs(position.lat - session.location.lat) <= RANGE_DEGREES
    && Abs(position.lng - session.location.lng) <= RANGE_DEGREES
  }

  /** Some stored record carries this session id and exactly this matric text. */
  predicate HasSubmitted(records: seq<AttendanceRecord>, sessionId: string, matric: string) {
    exists i :: 0 <= i < |records| && records[i].sessionId == sessionId && records[i].matricNo == matric
  }

  /** The rule chain of `handleSubmit`. `session` is the portal's copy of the
      session loaded at mount; `position` is None when the device refused or
      failed to give a position; `records` are read from storage when the
      duplicate check runs. */
  function Decide(session: Option<Session>, keyInput: string, matricInput: string,
                  geoSupported: bool, position: Option<Location>,
                  records: seq<AttendanceRecord>, sessionId: string): (v: Verdict)
    ensures v.Rejected? ==> Fails(v.reason, session, keyInput, matricInput, geoSupported, position, records, sessionId)
  {
    if session.None? || !session.value.active then Rejected(SessionInactive)
    else if !KeyMatches(keyInput, session.value) then Rejected(WrongKey)
    else if !geoSupported then Rejected(GeolocationUnsupported)
    else if position.None? then Rejected(LocationDenied)
    else if !WithinRange(position.value, session.value) then Rejected(OutOfRange)
    else if HasSubmitted(records, sessionId, matricInput) then Rejected(AlreadySubmitted)
    else Accepted
  }

  /** Where each reason stands in the chain. */
  function Rank(reason: Rejection): nat {
    match reason
    case SessionInactive => 0
    case WrongKey => 1
    case GeolocationUnsupported => 2
    case LocationDenied => 3
    case OutOfRange => 4
    case AlreadySubmitted => 5
  }

  /** Each check on its own, read as "this check fails". */
  predicate Fails(reason: Rejection, session: Option<Session>, keyInput: string, matricInput: string,
                  geoSupported: bool, position: Option<Location>,
                  records: seq<AttendanceRecord>, sessionId: string)
  {
    match reason
    case SessionInactive => session.None? || !session.value.active
    case WrongKey => session.Some? && !KeyMatches(keyInput, session.value)
    case GeolocationUnsupported => !geoSupported
    case LocationDenied => position.None?
    case OutOfRange => session.Some? && position.Some? && !WithinRange(position.value, session.value)
    case AlreadySubmitted => HasSubmitted(records, sessionId, matricInput)
  }

  /** The record an accepted submission appends. */
  function NewRecord(id: string, sessionId: string, name: string, matricInput: string,
                     department: string, now: int, position: Location): AttendanceRecord
  {
    AttendanceRecord(id, sessionId, name, Upper(matricInput), department, now, None, position)
  }

  /** A submission is rejected for a reason exactly when that check fails and
      every check before it passes: the first failing check decides. */
  lemma FirstFailureDecides(session: Option<Session>, keyInput: string, matricInput: string,
                            geoSupported: bool, position: Option<Location>,
                            records: seq<AttendanceRecord>, sessionId: string, reason: Rejection)
    ensures Decide(session, keyInput, matricInput, geoSupported, position, records, sessionId) == Rejected(reason)
            <==> Fails(reason, session, keyInput, matricInput, geoSupported, position, records, sessionId)
                  && forall q :: Rank(q) < Rank(reason)
                       ==> !Fails(q, session, keyInput, matricInput, geoSupported, position, records, sessionId)
  {
  }

  /** A submission is accepted exactly when every check passes. */
  lemma AcceptedIff(session: Option<Session>, keyInput: string, matricInput: string,
                    geoSupported: bool, position: Option<Location>,
                    records: seq<AttendanceRecord>, sessionId: string)
    ensures Decide(session, keyInput, matricInput, geoSupported, position, records, sessionId) == Accepted
            <==> && session.Some? && session.value.active
                 && Upper(keyInput) == session.value.sessionKey
                 && geoSupported && position.Some?
                 && Abs(position.value.lat - session.value.location.lat) <= 0.001
                 && Abs(position.value.lng - session.value.location.lng) <= 0.001
                 && forall i :: 0 <= i < |records| ==>
                      !(records[i].sessionId == sessionId && records[i].matricNo == matricInput)
  {
  }

  /** A missing or switched-off session is refused whatever else is typed or measured. */
  lemma InactiveRejectedFirst(session: Option<Session>, keyInput: string, matricInput: string,
                              geoSupported: bool, position: Option<Location>,
                              records: seq<AttendanceRecord>, sessionId: string)
    requires session.None? || !session.value.active
    ensures Decide(session, keyInput, matricInput, geoSupported, position, records, sessionId)
            == Rejected(SessionInactive)
  {
  }

  /** The verdict does not depend on the session's configured radius. */
  lemma RadiusIgnored(session: Session, radius: int, keyInput: string, matricInput: string,
                      geoSupported: bool, position: Option<Location>,
                      records: seq<AttendanceRecord>, sessionId: string)
    ensures Decide(Some(session), keyInput, matricInput, geoSupported, position, records, sessionId)
            == Decide(Some(session.(radius := radius)), keyInput, matricInput, geoSupported, position, records, sessionId)
  {
  }

  /** At most one record per (session, matric) pair. */
  predicate UniquePairs(records: seq<AttendanceRecord>) {
    forall i, j :: 0 <= i < j < |records| ==>
      !(records[i].sessionId == records[j].sessionId && records[i].matricNo == records[j].matricNo)
  }

  /** When the typed matric is already upper-case, an accepted submission keeps
      the records free of duplicate (session, matric) pairs. */
  lemma AcceptKeepsPairsUnique(session: Option<Session>, keyInput: string, matricInput: string,
                               geoSupported: bool, position: Option<Location>,
                               records: seq<AttendanceRecord>, sessionId: string,
                               id: string, name: string, department: string, now: int)
    requires UniquePairs(records)
    requires IsUpper(matricInput)
    requires Decide(session, keyInput, matricInput, geoSupported, position, records, sessionId) == Accepted
    ensures UniquePairs(records + [NewRecord(id, sessionId, name, matricInput, department, now, position.value)])
  {
    UpperOfUpper(matricInput);
    var r := records + [NewRecord(id, sessionId, name, matricInput, department, now, position.value)];
    forall i, j | 0 <= i < j < |r|
      ensures !(r[i].sessionId == r[j].sessionId && r[i].matricNo == r[j].matricNo)
    {
      if j == |records| {
        assert r[i] == records[i];
      } else {
        assert r[i] == records[i] && r[j] == records[j];
      }
    }
  }

  /** The duplicate check compares the raw typed matric with stored,
      upper-cased ones, so typing a stored matric in lower case gets a second
      record for the same student and session through. */
  lemma LowerCaseResubmissionDuplicates()
    ensures var session := Session("s1", "lect", "cpe301", "cpe", "300", "K3Y9QZ", 0, None,
                                   Location(6.5, 3.4), DEFAULT_RADIUS, true);
            var stored := [AttendanceRecord("r1", "s1", "Ada", "AB1", "cpe", 10, None, Location(6.5, 3.4))];
            && Decide(Some(session), "K3Y9QZ", "ab1", true, Some(Location(6.5, 3.4)), stored, "s1") == Accepted
            && UniquePairs(stored)
            && !UniquePairs(stored + [NewRecord("r2", "s1", "Ada", "ab1", "cpe", 20, Location(6.5, 3.4))])
  {
    var stored := [AttendanceRecord("r1", "s1", "Ada", "AB1", "cpe", 10, None, Location(6.5, 3.4))];
    assert Upper("K3Y9QZ") == "K3Y9QZ";
    assert Upper("ab1") == "AB1";
    assert "ab1" != "AB1" by { assert "ab1"[0] != "AB1"[0]; }
    assert !HasSubmitted(stored, "s1", "ab1");
    var after := stored + [NewRecord("r2", "s1", "Ada", "ab1", "cpe", 20, Location(6.5, 3.4))];
    assert after[0].matricNo == after[1].matricNo;
  }

  /** Records written by the portal always hold an upper-case matric. */
  lemma NewRecordMatricUpper(id: string, sessionId: string, name: string, matricInput: string,
                             department: string, now: int, position: Location)
    ensures IsUpper(NewRecord(id, sessionId, name, matricInput, department, now, position).matricNo)
    ensures Upper(NewRecord(id, sessionId, name, matricInput, department, now, position).matricNo)
            == NewRecord(id, sessionId, name, matricInput, department, now, position).matricNo
  {
    UpperIsUpper(matricInput);
    UpperOfUpper(Upper(matricInput));
  }

  /** The portal form's state. */
  class PortalForm {
    const sessionId: string
    var activeSession: Option<Session>
    var name: string
    var matricNo: string
    var department: string
    var sessionKey: string
    var loading: bool
    var status: Status
    var message: string

    /** Mount: look the route's session up once; the copy is not refreshed later. */
    constructor (sessionId: string, stored: seq<Session>)
      ensures this.sessionId == sessionId
      ensures activeSession == FindById(stored, sessionId)
      ensures activeSession.Some? ==> activeSession.value.id == sessionId
      ensures name == "" && matricNo == "" && department == "" && sessionKey == ""
      ensures !loading && status == Idle && message == ""
    {
      this.sessionId := sessionId;
      activeSession := FindById(stored, sessionId);
      name, matricNo, department, sessionKey := "", "", "", "";
      loading, status, message := false, Idle, "";
    }

    /** `handleSubmit`, with the device's answers, the clock and the fresh
        record id as inputs. Only an accepted submission writes to storage,
        and it appends exactly one record. */
    method HandleSubmit(store: Store, geoSupported: bool, position: Option<Location>, recordId: string, now: int)
      returns (verdict: Verdict)
      modifies this`name, this`matricNo, this`department, this`sessionKey
      modifies this`loading, this`status, this`message, store`records
      ensures verdict == Decide(activeSession, old(sessionKey), old(matricNo), geoSupported, position,
                                old(store.records), sessionId)
      ensures verdict.Accepted? ==>
                && position.Some?
                && store.records == old(store.records)
                     + [NewRecord(recordId, sessionId, old(name), old(matricNo), old(department), now, position.value)]
                && status == Success && message == SuccessMessage(old(name))
                && name == "" && matricNo == "" && department == "" && sessionKey == ""
      ensures verdict.Rejected? ==>
                && store.records == old(store.records)
                && status == Error && message == Message(verdict.reason)
                && name == old(name) && matricNo == old(matricNo)
                && department == old(department) && sessionKey == old(sessionKey)
      ensures !loading
    {
      verdict := Decide(activeSession, sessionKey, matricNo, geoSupported, position, store.records, sessionId);
      loading, status, message := true, Idle, "";
      if verdict.Accepted? {
        store.records := store.records + [NewRecord(recordId, sessionId, name, matricNo, department, now, position.value)];
        status, message := Success, SuccessMessage(name);
        name, matricNo, department, sessionKey := "", "", "", "";
      } else {
        status, message := Error, Message(verdict.reason);
      }
      loading := false;
    }
  }
}
