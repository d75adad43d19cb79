# Attendance tracker: a verified model of the bookkeeping

The application lets a lecturer open an attendance session for a course. Students
then submit their attendance through a portal link, and the lecturer audits exam
eligibility under the 75% rule. The views keep everything in two stored lists,
sessions and attendance records. This project models what the views do with
those two lists, and proves properties of that model:

- the student portal's chain of checks, and the single record an accepted
  submission appends (`Portal`);
- the course eligibility audit. Records are filtered to the course's sessions
  and grouped by matric number. Each student gets a percentage and the 75% rule,
  and the report is sorted by percentage (`Audit`, `Sorting`);
- starting and ending sessions, the lookup of the active session, and the route
  guard (`App`). Both stored lists live in the `Storage.Store` class;
- the lecturer dashboard's course menu, the checks before a start, and the
  session record it builds (`Dashboard`);
- the live session page: the roll, the link-expiry countdown, per-attendee
  statistics and the portal link (`SessionView`). The summary service's fixed
  answers are in `Insights`;
- the history listing (`History`) and the semester-reset confirmation dialog
  (`Reset`).

`Model` holds the shared records (sessions, attendance records, student
statistics), the fixed catalogue of departments, courses and levels, and the
two array methods every view uses: `find` (`FindFirst`) and `filter` (`Filter`),
each proved once and shared by the views. `Text`
stands in for the JavaScript string methods used: `toUpperCase`, `substr`,
`startsWith`, number printing, and `length`, which counts UTF-16 code units.

Times are epoch milliseconds (`int`). Coordinates and percentages are exact
`real`s. Every clock reading, random draw and device answer is a parameter:
whether geolocation exists, the position or its refusal, and the two
`Math.random().toString(36)` strings. The sort the views use
(`Array.prototype.sort`, stable since ES2019) is one stable insertion sort,
`Sorting.SortDesc`. It is proved non-increasing in its key, a permutation of its
input, and stable: the elements sharing a key keep their input order.

State the source changes in place is modelled with classes:
`Storage.Store`, `App.AppState`, `Portal.PortalForm`, `Dashboard.LecturerDashboard`,
`SessionView.SessionMonitor` and `Reset.ResetDialog`. The dashboard keeps the
invariant its menus enforce: the chosen course is one the chosen department
offers. The audit's grouping loop
is the method `Audit.GroupByMatric`. Each method is proved against the pure
function that specifies it, and the lemmas are about those functions.

The range test is a box of ±0.001° in latitude and longitude.
There is no great-circle distance, the session's `radius` is never read, and
there is no `radius + 75` margin. There is no device lock, no face capture and
no second, coarser location attempt. Ending a session twice stamps its end time
again; it is not a no-op.

## Model

| member | source | states |
|---|---|---|
| Model.FindFirst | views/StudentPortal.tsx:20 | None exactly when no element has the key; otherwise the first element in order whose key matches |
| Model.Filter | views/AuditView.tsx:21 | a filter keeps no more elements than it is given |
| Model.FilterMembership | views/AuditView.tsx:21 | exactly the elements that pass the test are kept |
| Model.FilterMultiplicity | views/AuditView.tsx:25 | each passing element appears as often as it is given, and no failing element appears |
| Model.FilterAppend | views/SessionView.tsx:29 | filtering a concatenation concatenates the filtered parts, so the given order is kept |
| Model.FilterNone | views/LecturerDashboard.tsx:21 | when no element passes, the result is empty |
| Model.FindById | views/StudentPortal.tsx:18-24 | None exactly when no stored session has the id; otherwise the first session in stored order with that id |
| Storage.Store.constructor | App.tsx:59 | a missing storage key reads as the empty list for both collections |
| App.FirstActive | App.tsx:26-30 | None exactly when no stored session is active; otherwise the first active session in stored order |
| App.AppState.constructor | App.tsx:20-32 | on mount the saved user is restored and the active session is the first active stored one |
| App.AppState.CheckActiveSession | App.tsx:26-30 | adopts the first active stored session; when there is none, keeps the current active session |
| App.Started | App.tsx:60 | the stored list after a start: one longer, the new session last, every earlier session inactive |
| App.Ended | App.tsx:68-70 | the stored list after an end: same length and ids in the same places, and every session with that id inactive |
| App.ShouldRedirectHome | App.tsx:78-80 | only a visitor without a user is redirected, and never from '/' or '/signup' |
| App.StartedShape | App.tsx:58-64 | a start grows the list by one with the new session last; every earlier session keeps all its fields, including its end time, except that it becomes inactive |
| App.StartedAtMostOneActive | App.tsx:58-64 | after a start at most one session is active, whatever was stored before; an active new session is the only active one |
| App.StartedThenFirstActive | App.tsx:58-64 | after starting an active session, the mount-time lookup of the active session finds exactly that session |
| App.AppState.StartSession | App.tsx:58-64 | stores the earlier sessions switched off plus the new one, keeps at most one active, and makes the new session active |
| App.EndedShape | App.tsx:66-74 | ending switches off and stamps with the clock reading exactly the sessions with that id; every other session, the order and the length are kept |
| App.EndedAtMostOneActive | App.tsx:66-74 | ending preserves "at most one active" |
| App.EndedUnknownId | App.tsx:66-74 | an id no stored session has leaves the list unchanged |
| App.EndedTwiceRestamps | App.tsx:66-74 | ending an already ended session again overwrites its end time, so it is not a no-op |
| App.AppState.EndSession | App.tsx:66-74 | stores the ended list, preserves "at most one active", and clears the active session |
| App.GuardSpares | App.tsx:77-82 | the guard redirects to '/' exactly when there is no user, the path does not start with '/portal/', and it is neither '/' nor '/signup' |
| Portal.PortalForm.constructor | views/StudentPortal.tsx:18-24 | the portal loads the route's session once, by id; the form starts empty and idle |
| Portal.Decide | views/StudentPortal.tsx:32-78 | a rejection always names a check that fails on these inputs |
| Portal.FirstFailureDecides | views/StudentPortal.tsx:32-78 | a submission is rejected for a reason exactly when that check fails and every earlier check passes. The order is: session missing or inactive, key mismatch, no geolocation, location refused, out of range, duplicate |
| Portal.AcceptedIff | views/StudentPortal.tsx:32-93 | accepted exactly when the session exists and is active, the upper-cased key equals the stored key, geolocation gives a position within ±0.001° in both coordinates, and no stored record has this session id and the raw typed matric |
| Portal.InactiveRejectedFirst | views/StudentPortal.tsx:32-37 | a missing or inactive session is rejected as "no longer active", whatever else is typed or measured |
| Portal.RadiusIgnored | views/StudentPortal.tsx:56-65 | the verdict does not depend on the session's radius |
| Portal.NewRecordMatricUpper | views/StudentPortal.tsx:84 | a record written by the portal holds an upper-case matric, which upper-casing leaves unchanged |
| Portal.AcceptKeepsPairsUnique | views/StudentPortal.tsx:72-93 | when the typed matric is already upper-case, an accepted submission keeps at most one record per (session, matric) pair |
| Portal.LowerCaseResubmissionDuplicates | views/StudentPortal.tsx:72-84 | typing a stored matric in lower case passes the duplicate check and creates a second record for the same student and session |
| Portal.PortalForm.HandleSubmit | views/StudentPortal.tsx:26-111 | the verdict is the check chain's. Acceptance appends exactly one record at the end, with the route's session id, the upper-cased matric and the device position; it also sets success and clears the four inputs. Rejection leaves the records and inputs unchanged and sets the reason's message. Loading ends false |
| Audit.Percentage | views/AuditView.tsx:38 | the percentage is never negative, and 0 when the course has no sessions |
| Audit.CourseSessions | views/AuditView.tsx:21 | exactly the stored sessions of the course, and no more of them than are stored |
| Audit.CourseRecords | views/AuditView.tsx:25 | exactly the stored records whose session id belongs to one of the course's sessions, and no more of them than are stored |
| Audit.Keys | views/AuditView.tsx:36 | the dictionary's keys come without repetition |
| Audit.KeysDomain | views/AuditView.tsx:36 | a matric is among the keys exactly when the dictionary has an entry for it |
| Audit.GroupByMatric | views/AuditView.tsx:28-34 | the grouping loop builds the dictionary and key order of the reference definition |
| Audit.GroupsDomain | views/AuditView.tsx:28-34 | the dictionary has an entry exactly for the matrics among the course records |
| Audit.GroupsEntries | views/AuditView.tsx:29-34 | each entry counts that matric's course records and keeps the name of its first record; later records do not overwrite the name |
| Audit.KeysOccur | views/AuditView.tsx:36 | the keys are exactly the matrics among the course records |
| Audit.KeysFirstSeenOrder | views/AuditView.tsx:29-36 | the keys come in the order of each matric's first course record |
| Audit.CountCourseRecords | views/AuditView.tsx:24-34 | counting a matric among the course records equals counting, over all records, those with that matric whose session is one of the course's |
| Audit.EligibleIff | views/AuditView.tsx:38-45 | percentage ≥ 75 exactly when the course has sessions and 4·count ≥ 3·total; the percentage times the total is 100·count |
| Audit.StatRow | views/AuditView.tsx:36-47 | a row is eligible exactly when the course has sessions and 4·count ≥ 3·total |
| Audit.AuditReport | views/AuditView.tsx:36-49 | the report has one row per computed row and is non-increasing in percentage |
| Audit.AuditRowFacts | views/AuditView.tsx:36-47 | every report row has the course's session total, its matric's course-record count, the first-seen name, count/total·100 (0 with no sessions), and eligibility by the 75% rule |
| Audit.ReportHasRow | views/AuditView.tsx:36-49 | every matric among the course records has a row in the report |
| Audit.OneRowPerStudent | views/AuditView.tsx:36-49 | the report has exactly one row per distinct matric among the course records |
| Audit.AuditOrder | views/AuditView.tsx:49 | the report is a permutation of the computed rows and non-increasing in percentage; rows with equal percentages keep the first-seen order of their students |
| Audit.NoSessionsNoReport | views/AuditView.tsx:21-25 | a course without sessions gives an empty report |
| Audit.ComputeAudit | views/AuditView.tsx:19-50 | the effect's session total and rows are the course's session count and the sorted report |
| Sorting.SortDesc | views/AuditView.tsx:49 | the sorted copy has as many elements as its input |
| Sorting.SortDescSorted | views/AuditView.tsx:49 | the sort's output is non-increasing in the key |
| Sorting.SortDescPermutes | views/AuditView.tsx:49 | the sort's output is a permutation of its input |
| Sorting.SortDescStable | views/AuditView.tsx:49 | for every key value, the elements carrying it keep their input order |
| Sorting.SortDescKeepsDistinct | views/AuditView.tsx:49 | a field unique per element before the sort is unique after it |
| SessionView.ForSession | views/SessionView.tsx:29 | exactly the stored records of the session, and no more of them than are stored |
| SessionView.Roll | views/SessionView.tsx:27-31 | the roll is a permutation of the session's records |
| SessionView.RollMeaning | views/SessionView.tsx:27-31 | the roll holds exactly the session's records, each as often as stored, newest first, with equal timestamps in stored order |
| SessionView.Countdown | views/SessionView.tsx:37-44 | the countdown reads EXPIRED exactly when 30 minutes minus the elapsed time is ≤ 0 |
| SessionView.DivideClock | views/SessionView.tsx:41-42 | the seconds part is below 60, and minutes·60 + seconds is the whole seconds left |
| SessionView.CountdownReadsBack | views/SessionView.tsx:40-44 | while time is left, the text is the minutes, a colon and two zero-padded digits of seconds, and these read back as diff div 60000 and (diff mod 60000) div 1000 |
| SessionView.TimerText | views/SessionView.tsx:33-46 | the text differs from the previous one only when the route's session exists and is active |
| SessionView.TimerTextOnlyWhenActive | views/SessionView.tsx:33-46 | the timer text changes only when the route's session exists and is active; otherwise the previous text stays |
| SessionView.ShownSession | views/SessionView.tsx:64 | the app's active session wins when there is one; nothing is shown exactly when there is none and no stored session has the route's id |
| SessionView.AttendeeStats | views/SessionView.tsx:70-89 | one entry per roll record |
| SessionView.AttendeeStatsShape | views/SessionView.tsx:70-89 | one entry per roll record, in roll order, with its matric and name, the number of that matric's stored records in a session of the shown course, the course's session total, count/total·100, and the 75% rule |
| SessionView.AttendeeStatsAgreeWithAudit | views/SessionView.tsx:70-89 | for an attendee whose record belongs to the course, the entry's count, total, percentage and eligibility equal those of that student's row in the course audit |
| SessionView.PortalUrl | views/SessionView.tsx:111 | the link starts with the app's origin and path and ends with the session id |
| SessionView.PortalUrlRoute | views/SessionView.tsx:111 | the link's part after '#' is '/portal/' followed by the session id, which reads back; the route guard lets it through without a user |
| SessionView.SessionMonitor.constructor | views/SessionView.tsx:18-24 | the page starts with an empty roll and no timer text or insights |
| SessionView.SessionMonitor.Poll | views/SessionView.tsx:48-53 | a poll sets the roll to the session's records newest first, and moves the timer only for an existing active session |
| SessionView.SessionMonitor.RunAiAnalysis | views/SessionView.tsx:57-94 | with an empty roll nothing happens; with no session to show nothing is sent; otherwise the per-attendee statistics are sent and the reply becomes the insights, and analysing ends false |
| Insights.AnalyzeAttendance | services/geminiService.ts:6-24 | the summary is never empty: the missing-key message, the error message, the model's text, or "No insights generated." for an empty reply |
| Dashboard.CoursesOf | views/LecturerDashboard.tsx:21 | the menu is never longer than the catalogue |
| Dashboard.CoursesOfMeaning | views/LecturerDashboard.tsx:21 | the offered courses are exactly the catalogue's courses of the selected department |
| Dashboard.CoursesOfNone | views/LecturerDashboard.tsx:21 | a department with no catalogue course gets an empty menu |
| Dashboard.ComputerEngineeringMenu | constants.ts:12-19 | Computer Engineering offers CPE 301 then CPE 305 |
| Dashboard.ElectricalEngineeringMenu | constants.ts:12-19 | Electrical Engineering offers ELE 201 then ELE 401 |
| Dashboard.MechanicalAndCivilMenus | constants.ts:12-19 | Mechanical and Civil Engineering offer one course each |
| Dashboard.ChemicalEngineeringHasNoCourse | constants.ts:4-19 | Chemical Engineering is a listed department with no course: its menu is empty and offers no course id |
| Dashboard.OfferedIffListed | views/LecturerDashboard.tsx:120-129 | a course id is offered for a department exactly when that department's course menu lists a course with the id |
| Dashboard.StartFromMenu | views/LecturerDashboard.tsx:24-57 | with the course taken from the department's menu or left unchosen, a created session's course belongs to its department, and Chemical Engineering always ends in the incomplete-selection error |
| Dashboard.LecturerId | views/LecturerDashboard.tsx:45 | the user's id, or 'anonymous' when there is no user or the id is empty; never empty |
| Dashboard.NewSession | views/LecturerDashboard.tsx:40-57 | a built session is active, open-ended, has the default radius, an upper-case key of at most six characters and an id of at most nine |
| Dashboard.Start | views/LecturerDashboard.tsx:23-67 | a failure carries one of the three error messages; a created session carries the chosen department, level and course |
| Dashboard.StartOutcomes | views/LecturerDashboard.tsx:23-67 | a session is created exactly when department, level and course are chosen, geolocation exists and a position arrives; otherwise the first missing piece names the error |
| Dashboard.CreatedSessionFields | views/LecturerDashboard.tsx:40-57 | a new session has the selections, the clock reading and the device position; it is active, has no end time and has radius 100. Its key is upper-case and at most six characters long, and its id at most nine |
| Dashboard.ShortKeySource | views/LecturerDashboard.tsx:40 | a short random draw gives a key shorter than six characters |
| Dashboard.DisplayedKeyAccepted | views/LecturerDashboard.tsx:40 | the key shown to the lecturer, typed back, passes the portal's key check, and a fresh session passes the "still active" check |
| Dashboard.LecturerDashboard.constructor | views/LecturerDashboard.tsx:15-19 | nothing is selected, not loading, no error; the chosen course is one the chosen department offers (trivially, none) |
| Dashboard.LecturerDashboard.SelectDepartment | views/LecturerDashboard.tsx:90-99 | choosing a department clears the course choice, so the chosen course stays one the department offers |
| Dashboard.LecturerDashboard.SelectLevel | views/LecturerDashboard.tsx:104-113 | choosing one of the listed levels sets the level and keeps the course choice valid |
| Dashboard.LecturerDashboard.SelectCourse | views/LecturerDashboard.tsx:120-129 | the course menu offers "Select Course" or a course of the chosen department, and the choice is set |
| Dashboard.LecturerDashboard.HandleStartSession | views/LecturerDashboard.tsx:23-67 | an incomplete selection sets its error and leaves loading as it was. Any other failure sets its error, ends loading and stores nothing. A created session is passed to the app's start, which stores it last and makes it the only active one. A created session's course is one its department offers, and with Chemical Engineering chosen the press always ends in the incomplete-selection error |
| History.Listing | views/HistoryView.tsx:17 | the listing is a permutation of the stored sessions |
| History.ListingOrder | views/HistoryView.tsx:15-18 | the listing is a permutation of the stored sessions, newest start first, with equal start times in stored order |
| History.AttendanceCount | views/HistoryView.tsx:42 | a count never exceeds the number of stored records |
| History.AttendanceCountIsMultiplicity | views/HistoryView.tsx:41-42 | a session's count is how often its id occurs among the records' session ids |
| History.AttendanceCountMatchesRoll | views/HistoryView.tsx:41-42 | a card's count equals the length of the session page's roll |
| History.AttendanceCountAppend | views/HistoryView.tsx:41-42 | appending a record adds one to its session's count and changes no other count |
| History.StatusLabelIff | views/HistoryView.tsx:52 | the label is 'Active' exactly when the session is active, 'Ended' otherwise |
| History.FindCourse | views/HistoryView.tsx:40 | None exactly when no catalogue course has the id; otherwise the first catalogue course with that id |
| History.HistoryPage | views/HistoryView.tsx:31-52 | the empty state exactly when nothing is stored, otherwise one card per stored session |
| History.HistoryPageShape | views/HistoryView.tsx:31-52 | no stored session gives the empty state; otherwise one card per stored session in listing order, with its own count and label; the card has no course exactly when no catalogue course has the session's course id, and otherwise that catalogue course |
| Text.Utf16Length | components/ResetConfirmation.tsx:20 | `length` in UTF-16 code units: at least the number of characters and at most twice it |
| Reset.CredentialsValid | components/ResetConfirmation.tsx:20 | valid credentials imply a signed-in user and a password of UTF-16 length at least six |
| Reset.CredentialsCases | components/ResetConfirmation.tsx:19-28 | confirmed exactly when a user exists, the typed email is theirs, and the password's UTF-16 length is at least six; never without a user; fewer than three characters never pass, six or more always do |
| Reset.EmojiPasswordAccepted | components/ResetConfirmation.tsx:20 | three emoji outside the Basic Multilingual Plane have length six and pass the password rule |
| Reset.ResetDialog.constructor | components/ResetConfirmation.tsx:13-15 | the dialog starts with empty email, password and error |
| Reset.ResetDialog.HandleVerifyAndReset | components/ResetConfirmation.tsx:17-28 | a closed dialog does nothing. Otherwise the reset is confirmed exactly when the credentials are valid, and then all three fields are cleared. A refusal sets "Invalid credentials. Access denied." and keeps the inputs |

## Left out

- Timing and concurrency are not modelled: the one-second polling interval, the
  one-second delay before a record is saved, `storage` event listeners, and
  read-then-write races between tabs. Every operation is one atomic step on the
  `Store`.
- `localStorage` and JSON are not modelled: the two collections are `seq` fields
  of `Storage.Store`, and the serialisation round-trip is taken to be exact.
- Audit.GroupByMatric: `Object.keys` is taken to list keys in insertion order.
  JavaScript lists integer-like keys first, in numeric order, so all-digit
  matric numbers would reorder the rows. The source's `studentMap` is also a
  plain object, so a matric equal to an inherited member name (`constructor`,
  `toString`, `valueOf`, `__proto__`) reads as already present and gets no row;
  the model's `map` gives it one. Upper-case matrics, the only ones the portal
  stores (`Portal.NewRecordMatricUpper`), never collide with those names.
- Text.Upper: only the ASCII letters a–z are upper-cased. `toUpperCase` maps
  other scripts too.
- IEEE floating point and `toFixed` display are not modelled: coordinates and
  percentages are exact reals.
- The random generators, `Date.now` and the device's geolocation are parameters,
  not models.
- Rendering is not modelled. The login and sign-up view, the layout and the
  logout dialog are pure interface or simulated login, and are not part of this
  model. Neither are login and logout.
- Side effects beyond the two collections are not modelled: navigation after a
  start or an end, the clipboard, `alert` and `window.print`.
- The summary service's network call is not modelled. `RunAiAnalysis` takes the
  service as a function parameter, and `Insights.AnalyzeAttendance` covers only
  its fixed fallback strings.
- `Array.prototype.sort` works in place. `Sorting.SortDesc` computes the sorted
  sequence as a value; the order it gives is the same.
