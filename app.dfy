/** The browser storage the views share: the parsed values of the keys
    'attendx_sessions' and 'attendx_records'. */
module Storage {
  import opened Model

  class Store {
    var sessions: seq<Session>
    var records: seq<AttendanceRecord>

    /** A missing key reads as the empty list (`getItem(...) || '[]'`). */
    constructor ()
      ensures sessions == [] && records == []
    {
      sessions := [];
      records := [];
    }
  }
}

/** The root component: the signed-in user, the session it treats as active,
    starting and ending sessions, and the route guard. */
module App {
  import opened Model
  import opened Text
  import opened Storage

  /** `sessions.map(s => ({ ...s, active: false }))` */
  function Deactivated(sessions: seq<Session>): seq<Session> {
    seq(|sessions|, i requires 0 <= i < |sessions| => sessions[i].(active := false))
  }

  /** The list `startSession` stores: every earlier session switched off, the new one last. */
  function Started(sessions: seq<Session>, session: Session): (r: seq<Session>)
    ensures |r| == |sessions| + 1 && r[|sessions|] == session
    ensures forall i :: 0 <= i < |sessions| ==> !r[i].active
  {
    Deactivated(sessions) + [session]
  }

  /** The list `endSession` stores: the session with that id is switched off and stamped. */
  function Ended(sessions: seq<Session>, id: string, now: int): (r: seq<Session>)
    ensures |r| == |sessions|
    ensures forall i :: 0 <= i < |r| ==> r[i].id == sessions[i].id && (r[i].id == id ==> !r[i].active)
  {
    seq(|sessions|, i requires 0 <= i < |sessions| =>
      if sessions[i].id == id then sessions[i].(active := false, endTime := Some(now)) else sessions[i])
  }

  predicate AtMostOneActive(sessions: seq<Session>) {
    forall i, j :: 0 <= i < j < |sessions| && sessions[i].active ==> !sessions[j].active
  }

  /** `sessions.find(s => s.active)`: the first active session in stored order. */
  function FirstActive(sessions: seq<Session>): (r: Option<Session>)
    ensures r.None? <==> forall i :: 0 <= i < |sessions| ==> !sessions[i].active
    ensures r.Some? ==> exists k :: 0 <= k < |sessions| && sessions[k] == r.value && r.value.active
                                    && forall j :: 0 <= j < k ==> !sessions[j].active
  {
    if sessions == [] then None
    else if sessions[0].active then Some(sessions[0])
    else
      var r := FirstActive(sessions[1..]);
      if r.Some? then
        ghost var k :| 0 <= k < |sessions| - 1 && sessions[1..][k] == r.value && r.value.active
                       && forall j :: 0 <= j < k ==> !sessions[1..][j].active;
        assert sessions[k + 1] == r.value;
        r
      else r
  }

  /** The route guard: without a user, every path other than the portal,
      the login page and the sign-up page is sent back to '/'. */
  predicate ShouldRedirectHome(user: Option<User>, path: string)
    ensures ShouldRedirectHome(user, path) ==> user.None?
    ensures path == "/" || path == "/signup" ==> !ShouldRedirectHome(user, path)
  {
    user.None? && !StartsWith(path, "/portal/") && path != "/" && path != "/signup"
  }

  /** Starting a session keeps every earlier session in place with all its
      fields except `active`, which becomes false; the list grows by one, the
      new session last. */
  lemma StartedShape(sessions: seq<Session>, session: Session)
    ensures |Started(sessions, session)| == |sessions| + 1
    ensures Started(sessions, session)[|sessions|] == session
    ensures forall i :: 0 <= i < |sessions| ==>
              var s := Started(sessions, session)[i];
              !s.active && s == sessions[i].(active := false) && s.endTime == sessions[i].endTime
  {
  }

  /** Whatever was stored before, after a start at most one session is active,
      and an active new session is the only active one. */
  lemma {:induction false} StartedAtMostOneActive(sessions: seq<Session>, session: Session)
    ensures AtMostOneActive(Started(sessions, session))
    ensures session.active ==> forall i :: 0 <= i < |sessions| + 1 ==>
              (Started(sessions, session)[i].active <==> i == |sessions|)
  {
    var r := Started(sessions, session);
    assert forall i :: 0 <= i < |sessions| ==> r[i] == sessions[i].(active := false);
  }

  /** After a start with an active session, the mount-time lookup of the
      active session finds exactly the new one. */
  lemma StartedThenFirstActive(sessions: seq<Session>, session: Session)
    requires session.active
    ensures FirstActive(Started(sessions, session)) == Some(session)
  {
    var r := Started(sessions, session);
    assert forall i :: 0 <= i < |sessions| ==> r[i] == sessions[i].(active := false);
    assert r[|sessions|] == session;
  }

  /** Ending switches off and stamps exactly the sessions with that id; order,
      length and every other session are kept. */
  lemma EndedShape(sessions: seq<Session>, id: string, now: int)
    ensures |Ended(sessions, id, now)| == |sessions|
    ensures forall i :: 0 <= i < |sessions| ==>
              var s := Ended(sessions, id, now)[i];
              if sessions[i].id == id
              then !s.active && s.endTime == Some(now) && s == sessions[i].(active := false, endTime := Some(now))
              else s == sessions[i]
  {
  }

  /** Ending never switches a session on, so "at most one active" survives it. */
  lemma {:induction false} EndedAtMostOneActive(sessions: seq<Session>, id: string, now: int)
    requires AtMostOneActive(sessions)
    ensures AtMostOneActive(Ended(sessions, id, now))
  {
    var r := Ended(sessions, id, now);
    forall i, j | 0 <= i < j < |r| && r[i].active ensures !r[j].active {
      assert sessions[i].active;
    }
  }

  /** An id that no stored session has leaves the list as it was. */
  lemma EndedUnknownId(sessions: seq<Session>, id: string, now: int)
    requires forall i :: 0 <= i < |sessions| ==> sessions[i].id != id
    ensures Ended(sessions, id, now) == sessions
  {
  }

  /** Ending an already ended session again is not a no-op: its end time is
      overwritten with the later clock reading. */
  lemma EndedTwiceRestamps(sessions: seq<Session>, k: nat, first: int, second: int)
    requires k < |sessions| && first != second
    ensures Ended(Ended(sessions, sessions[k].id, first), sessions[k].id, second) != Ended(sessions, sessions[k].id, first)
    ensures Ended(Ended(sessions, sessions[k].id, first), sessions[k].id, second)[k].endTime == Some(second)
  {
    var once := Ended(sessions, sessions[k].id, first);
    assert once[k].id == sessions[k].id;
    assert Ended(once, sessions[k].id, second)[k].endTime != once[k].endTime;
  }

  /** The guard never sends a signed-in user away, never touches a portal
      link, and leaves '/' alone, so a redirect happens at most once. */
  lemma GuardSpares(user: Option<User>, path: string)
    ensures user.Some? ==> !ShouldRedirectHome(user, path)
    ensures StartsWith(path, "/portal/") ==> !ShouldRedirectHome(user, path)
    ensures !ShouldRedirectHome(user, "/") && !ShouldRedirectHome(user, "/signup")
    ensures user.None? && !StartsWith(path, "/portal/") && path != "/" && path != "/signup"
            ==> ShouldRedirectHome(user, path)
  {
  }

  class AppState {
    var currentUser: Option<User>
    var activeSession: Option<Session>
    const store: Store

    /** Mount: restore the saved user, then run `checkActiveSession` once. */
    constructor (store: Store, savedUser: Option<User>)
      ensures this.store == store
      ensures currentUser == savedUser
      ensures activeSession == FirstActive(store.sessions)
    {
      this.store := store;
      currentUser := savedUser;
      activeSession := FirstActive(store.sessions);
    }

    /** `checkActiveSession`: adopt the first active stored session; when there
        is none, keep the current one. */
    method CheckActiveSession()
      modifies this`activeSession
      ensures FirstActive(store.sessions).Some? ==> activeSession == FirstActive(store.sessions)
      ensures FirstActive(store.sessions).None? ==> activeSession == old(activeSession)
    {
      var found := FirstActive(store.sessions);
      if found.Some? {
        activeSession := found;
      }
    }

    /** `startSession`: store every earlier session switched off plus the new
        one, and make the new one the active session. */
    method StartSession(session: Session)
      modifies this`activeSession, store`sessions
      ensures store.sessions == Started(old(store.sessions), session)
      ensures AtMostOneActive(store.sessions)
      ensures activeSession == Some(session)
    {
      store.sessions := Started(store.sessions, session);
      StartedAtMostOneActive(old(store.sessions), session);
      activeSession := Some(session);
    }

    /** `endSession`: switch off and stamp the session with that id, and forget
        the active session. */
    method EndSession(id: string, now: int)
      modifies this`activeSession, store`sessions
      ensures store.sessions == Ended(old(store.sessions), id, now)
      ensures AtMostOneActive(old(store.sessions)) ==> AtMostOneActive(store.sessions)
      ensures activeSession == None
    {
      if AtMostOneActive(store.sessions) {
        EndedAtMostOneActive(store.sessions, id, now);
      }
      store.sessions := Ended(store.sessions, id, now);
      activeSession := None;
    }
  }
}
