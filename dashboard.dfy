/** The lecturer dashboard: the course list offered for a department, the
    checks before a session is started, and the session record it builds. */
module Dashboard {
  import opened Model
  import opened Text
  import App
  import Portal

  const INCOMPLETE_SELECTION: string := "Please complete all selections."
  const GEOLOCATION_UNSUPPORTED: string := "Geolocation is not supported by your browser."
  const LOCATION_FAILED: string := "Failed to get your location. Please enable location services."

  function InDepartment(dept: string): Course -> bool {
    (c: Course) => c.deptId == dept
  }

  /** `COURSES.filter(c => c.deptId === selectedDept)`, over any catalogue. */
  function CoursesOf(courses: seq<Course>, dept: string): (r: seq<Course>)
    ensures |r| <= |courses|
  {
    Filter(courses, InDepartment(dept))
  }

  /** The courses the course menu offers once a department is chosen. */
  function FilteredCourses(dept: string): seq<Course> {
    CoursesOf(COURSES, dept)
  }

  /** The offered courses are exactly the catalogue's courses of that department. */
  lemma CoursesOfMeaning(courses: seq<Course>, dept: string)
    ensures forall c :: c in CoursesOf(courses, dept) <==> c in courses && c.deptId == dept
  {
    FilterMembership(courses, InDepartment(dept));
  }

  /** Computer Engineering offers CPE 301 and CPE 305, in catalogue order. */
  lemma ComputerEngineeringMenu()
    ensures FilteredCourses("cpe") == [COURSES[0], COURSES[1]]
  {
  }

  /** Electrical Engineering offers ELE 201 and ELE 401, in catalogue order. */
  lemma ElectricalEngineeringMenu()
    ensures FilteredCourses("ele") == [COURSES[2], COURSES[3]]
  {
  }

  /** Mechanical and Civil Engineering offer one course each. */
  lemma MechanicalAndCivilMenus()
    ensures FilteredCourses("mec") == [COURSES[4]]
    ensures FilteredCourses("civ") == [COURSES[5]]
  {
  }

  /** A catalogue without courses of the department gives an empty menu. */
  lemma CoursesOfNone(courses: seq<Course>, dept: string)
    requires forall i :: 0 <= i < |courses| ==> courses[i].deptId != dept
    ensures CoursesOf(courses, dept) == []
  {
    FilterNone(courses, InDepartment(dept));
  }

  /** The catalogue has a course of the department with this id. */
  predicate OfferedIn(courses: seq<Course>, dept: string, courseId: string) {
    exists k :: 0 <= k < |courses| && courses[k].deptId == dept && courses[k].id == courseId
  }

  /** The course menu of the department offers a course with this id. */
  predicate Offered(dept: string, courseId: string) {
    OfferedIn(COURSES, dept, courseId)
  }

  /** A course id is offered exactly when the department's course menu lists
      a course with that id. */
  lemma OfferedIffListed(courses: seq<Course>, dept: string, courseId: string)
    ensures OfferedIn(courses, dept, courseId) <==> exists c :: c in CoursesOf(courses, dept) && c.id == courseId
  {
    CoursesOfMeaning(courses, dept);
    if OfferedIn(courses, dept, courseId) {
      var k :| 0 <= k < |courses| && courses[k].deptId == dept && courses[k].id == courseId;
      assert courses[k] in CoursesOf(courses, dept);
    }
  }

  /** Chemical Engineering is listed as a department but has no course, so its
      course menu offers nothing. */
  lemma ChemicalEngineeringHasNoCourse()
    ensures DEPARTMENTS[4].id == "che"
    ensures FilteredCourses("che") == []
    ensures forall courseId :: !Offered("che", courseId)
  {
  }

  /** `user?.id || 'anonymous'`: an absent user or an empty id both fall back. */
  function LecturerId(user: Option<User>): (id: string)
    ensures id != ""
    ensures user.Some? && user.value.id != "" ==> id == user.value.id
    ensures user.None? || user.value.id == "" ==> id == "anonymous"
  {
    if user.Some? && user.value.id != "" then user.value.id else "anonymous"
  }

  /** The session the position callback builds. `keySource` and `idSource`
      stand for two draws of `Math.random().toString(36)`; only characters 2
      onwards are used, as by `substr(2, n)`. */
  function NewSession(user: Option<User>, dept: string, level: string, course: string,
                      keySource: string, idSource: string, now: int, position: Location): (s: Session)
    ensures IsUpper(s.sessionKey) && |s.sessionKey| <= 6 && |s.id| <= 9
    ensures s.active && s.endTime == None && s.radius == DEFAULT_RADIUS
  {
    UpperIsUpper(Substr(keySource, 2, 6));
    Session(Substr(idSource, 2, 9), LecturerId(user), course, dept, level,
            Upper(Substr(keySource, 2, 6)), now, None, position, DEFAULT_RADIUS, true)
  }

  /** What a press of "Generate Session & Link" ends in. */
  datatype StartOutcome = Failed(message: string) | Created(session: Session)

  /** `handleStartSession` with the device's answers as inputs: `geoSupported`
      says whether the browser has geolocation, and `position` is None when
      the error callback runs. */
  function Start(user: Option<User>, dept: string, level: string, course: string,
                 geoSupported: bool, position: Option<Location>,
                 keySource: string, idSource: string, now: int): (o: StartOutcome)
    ensures o.Failed? ==> o.message in {INCOMPLETE_SELECTION, GEOLOCATION_UNSUPPORTED, LOCATION_FAILED}
    ensures o.Created? ==> o.session.courseId == course && o.session.departmentId == dept && o.session.level == level
  {
    if dept == "" || level == "" || course == "" then Failed(INCOMPLETE_SELECTION)
    else if !geoSupported then Failed(GEOLOCATION_UNSUPPORTED)
    else if position.None? then Failed(LOCATION_FAILED)
    else Created(NewSession(user, dept, level, course, keySource, idSource, now, position.value))
  }

  /** A session is created exactly when all three selections are made, the
      browser has geolocation and a position arrives; otherwise the first
      missing piece names the error. */
  lemma StartOutcomes(user: Option<User>, dept: string, level: string, course: string,
                      geoSupported: bool, position: Option<Location>,
                      keySource: string, idSource: string, now: int)
    ensures var o := Start(user, dept, level, course, geoSupported, position, keySource, idSource, now);
            && (o.Created? <==> dept != "" && level != "" && course != "" && geoSupported && position.Some?)
            && (dept == "" || level == "" || course == "" ==> o == Failed(INCOMPLETE_SELECTION))
            && (dept != "" && level != "" && course != "" && !geoSupported ==> o == Failed(GEOLOCATION_UNSUPPORTED))
            && (dept != "" && level != "" && course != "" && geoSupported && position.None?
                ==> o == Failed(LOCATION_FAILED))
  {
  }

  /** A created session carries the selections, the clock reading and the
      device position; it is active, open-ended, has the default radius, and
      its key is upper-case and at most six characters long. */
  lemma CreatedSessionFields(user: Option<User>, dept: string, level: string, course: string,
                             geoSupported: bool, position: Option<Location>,
                             keySource: string, idSource: string, now: int)
    requires Start(user, dept, level, course, geoSupported, position, keySource, idSource, now).Created?
    ensures var s := Start(user, dept, level, course, geoSupported, position, keySource, idSource, now).session;
            && s.courseId == course && s.departmentId == dept && s.level == level
            && s.courseId != "" && s.departmentId != "" && s.level != ""
            && s.active && s.endTime == None && s.radius == 100
            && s.startTime == now && position == Some(s.location)
            && s.lecturerId == LecturerId(user)
            && IsUpper(s.sessionKey) && |s.sessionKey| <= 6
            && (|keySource| >= 8 ==> |s.sessionKey| == 6)
            && |s.id| <= 9
  {
    UpperIsUpper(Substr(keySource, 2, 6));
  }

  /** With the course taken from the department's menu (or not chosen), a
      created session's course belongs to its department; in particular no
      session is ever created for Chemical Engineering. */
  lemma StartFromMenu(user: Option<User>, dept: string, level: string, course: string,
                      geoSupported: bool, position: Option<Location>,
                      keySource: string, idSource: string, now: int)
    requires course == "" || Offered(dept, course)
    ensures var o := Start(user, dept, level, course, geoSupported, position, keySource, idSource, now);
            && (o.Created? ==> Offered(o.session.departmentId, o.session.courseId))
            && (dept == "che" ==> o == Failed(INCOMPLETE_SELECTION))
  {
  }

  /** A random draw that runs short gives a short key: six characters are not
      guaranteed. */
  lemma ShortKeySource()
    ensures |NewSession(None, "cpe", "300", "cpe301", "0.k2", "0.abc", 0, Location(0.0, 0.0)).sessionKey| == 2
  {
  }

  /** The key shown to the lecturer, typed back as shown, passes the portal's
      key check, and a fresh session passes the "still active" check. */
  lemma {:induction false} DisplayedKeyAccepted(user: Option<User>, dept: string, level: string, course: string,
                                                keySource: string, idSource: string, now: int, position: Location)
    ensures var s := NewSession(user, dept, level, course, keySource, idSource, now, position);
            && Portal.KeyMatches(s.sessionKey, s)
            && forall matric, geo, pos, records, id ::
                 Portal.Decide(Some(s), s.sessionKey, matric, geo, pos, records, id)
                 !in {Portal.Rejected(Portal.SessionInactive), Portal.Rejected(Portal.WrongKey)}
  {
    UpperIdempotent(Substr(keySource, 2, 6));
  }

  /** The dashboard's form state. */
  class LecturerDashboard {
    const user: Option<User>
    const app: App.AppState
    var selectedDept: string
    var selectedLevel: string
    var selectedCourse: string
    var loading: bool
    var error: string

    /** The chosen course, if any, is one the menu of the chosen department
        offers: the course `<select>` lists only `filteredCourses`, and a new
        department clears the course. */
    predicate Valid()
      reads this
    {
      selectedCourse == "" || Offered(selectedDept, selectedCourse)
    }

    constructor (user: Option<User>, app: App.AppState)
      ensures Valid()
      ensures this.user == user && this.app == app
      ensures selectedDept == "" && selectedLevel == "" && selectedCourse == ""
      ensures !loading && error == ""
    {
      this.user := user;
      this.app := app;
      selectedDept, selectedLevel, selectedCourse := "", "", "";
      loading, error := false, "";
    }

    /** Choosing a department clears the course choice. */
    method SelectDepartment(dept: string)
      modifies this`selectedDept, this`selectedCourse
      ensures Valid()
      ensures selectedDept == dept && selectedCourse == ""
    {
      selectedDept := dept;
      selectedCourse := "";
    }

    /** Choosing the level; the level menu lists `LEVELS`. */
    method SelectLevel(level: string)
      requires level == "" || level in LEVELS
      requires Valid()
      modifies this`selectedLevel
      ensures Valid()
      ensures selectedLevel == level
    {
      selectedLevel := level;
    }

    /** Choosing a course from the menu: "Select Course" (the empty value)
        or one of the department's courses. */
    method SelectCourse(courseId: string)
      requires courseId == "" || Offered(selectedDept, courseId)
      modifies this`selectedCourse
      ensures Valid()
      ensures selectedCourse == courseId
    {
      selectedCourse := courseId;
    }

    /** `handleStartSession`; the position callback's result is passed in.
        A created session goes to the app's `startSession`. */
    method HandleStartSession(geoSupported: bool, position: Option<Location>,
                              keySource: string, idSource: string, now: int)
      returns (outcome: StartOutcome)
      requires Valid()
      modifies this`loading, this`error, app`activeSession, app.store`sessions
      ensures Valid()
      ensures outcome.Created? ==> Offered(outcome.session.departmentId, outcome.session.courseId)
      ensures selectedDept == "che" ==> outcome == Failed(INCOMPLETE_SELECTION)
      ensures outcome == Start(user, selectedDept, selectedLevel, selectedCourse, geoSupported, position,
                               keySource, idSource, now)
      ensures outcome.Failed? ==> error == outcome.message && app.store.sessions == old(app.store.sessions)
                                  && app.activeSession == old(app.activeSession)
      ensures outcome == Failed(INCOMPLETE_SELECTION) ==> loading == old(loading)
      ensures outcome != Failed(INCOMPLETE_SELECTION) ==> !loading
      ensures outcome.Created? ==> && error == ""
                                   && app.store.sessions == App.Started(old(app.store.sessions), outcome.session)
                                   && App.AtMostOneActive(app.store.sessions)
                                   && app.activeSession == Some(outcome.session)
    {
      outcome := Start(user, selectedDept, selectedLevel, selectedCourse, geoSupported, position,
                       keySource, idSource, now);
      StartFromMenu(user, selectedDept, selectedLevel, selectedCourse, geoSupported, position,
                    keySource, idSource, now);
      if selectedDept == "" || selectedLevel == "" || selectedCourse == "" {
        error := INCOMPLETE_SELECTION;
        return;
      }
      loading, error := true, "";
      if outcome.Failed? {
        error := outcome.message;
      } else {
        app.StartSession(outcome.session);
      }
      loading := false;
    }
  }
}
