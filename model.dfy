/** The shared data model: the records kept in storage, the derived student
    statistics, and the fixed catalogue of departments, courses and levels. */
module Model {

  datatype Option<T> = None | Some(value: T)

  /** A position in decimal degrees. */
  datatype Location = Location(lat: real, lng: real)

  datatype Role = Lecturer | Student

  datatype User = User(id: string, name: string, email: string, role: Role)

  datatype Department = Department(id: string, name: string)

  datatype Course = Course(id: string, code: string, name: string, deptId: string)

  /** An attendance session opened by a lecturer. Times are epoch milliseconds. */
  datatype Session = Session(
    id: string,
    lecturerId: string,
    courseId: string,
    departmentId: string,
    level: string,
    sessionKey: string,
    startTime: int,
    endTime: Option<int>,
    location: Location,
    radius: int,
    active: bool)

  /** One accepted student submission. */
  datatype AttendanceRecord = AttendanceRecord(
    id: string,
    sessionId: string,
    studentName: string,
    matricNo: string,
    department: string,
    timestamp: int,
    faceImage: Option<string>,
    location: Location)

  /** A derived eligibility row; never stored. */
  datatype StudentStats = StudentStats(
    matricNo: string,
    name: string,
    sessionsAttended: nat,
    totalSessions: nat,
    percentage: real,
    eligible: bool)

  const DEPARTMENTS: seq<Department> := [
    Department("cpe", "Computer Engineering"),
    Department("ele", "Electrical Engineering"),
    Department("mec", "Mechanical Engineering"),
    Department("civ", "Civil Engineering"),
    Department("che", "Chemical Engineering")
  ]

  const COURSES: seq<Course> := [
    Course("cpe301", "CPE 301", "Digital Logic Design", "cpe"),
    Course("cpe305", "CPE 305", "Computer Architecture", "cpe"),
    Course("ele201", "ELE 201", "Circuit Theory I", "ele"),
    Course("ele401", "ELE 401", "Control Engineering", "ele"),
    Course("mec201", "MEC 201", "Engineering Thermodynamics", "mec"),
    Course("civ301", "CIV 301", "Structural Analysis", "civ")
  ]

  const LEVELS: seq<string> := ["100", "200", "300", "400", "500"]

  /** The geofence radius, in meters, given to every new session. */
  const DEFAULT_RADIUS: int := 100

  /** `xs.find(x => key(x) === id)`: the first element whose key is `id`. */
  function FindFirst<T, K(==)>(xs: seq<T>, key: T -> K, id: K): (r: Option<T>)
    ensures r.None? <==> forall i :: 0 <= i < |xs| ==> key(xs[i]) != id
    ensures r.Some? ==> exists k :: 0 <= k < |xs| && xs[k] == r.value && key(r.value) == id
                                    && forall j :: 0 <= j < k ==> key(xs[j]) != id
  {
    if xs == [] then None
    else if key(xs[0]) == id then Some(xs[0])
    else
      var r := FindFirst(xs[1..], key, id);
      if r.Some? then
        ghost var k :| 0 <= k < |xs| - 1 && xs[1..][k] == r.value && key(r.value) == id
                       && forall j :: 0 <= j < k ==> key(xs[1..][j]) != id;
        assert xs[k + 1] == r.value;
        r
      else r
  }

  /** `xs.filter(keep)`: the elements that pass, in their stored order. */
  function Filter<T(!new)>(xs: seq<T>, keep: T -> bool): (r: seq<T>)
    ensures |r| <= |xs|
  {
    if xs == [] then []
    else (if keep(xs[0]) then [xs[0]] else []) + Filter(xs[1..], keep)
  }

  /** Exactly the elements that pass are kept. */
  lemma {:induction false} FilterMembership<T(!new)>(xs: seq<T>, keep: T -> bool)
    ensures forall x :: x in Filter(xs, keep) <==> x in xs && keep(x)
  {
    if xs != [] {
      FilterMembership(xs[1..], keep);
      assert xs == [xs[0]] + xs[1..];
    }
  }

  /** Every element that passes is kept as often as it occurs; the others
      are dropped. */
  lemma {:induction false} FilterMultiplicity<T(!new)>(xs: seq<T>, keep: T -> bool)
    ensures forall x :: multiset(Filter(xs, keep))[x] == if keep(x) then multiset(xs)[x] else 0
  {
    if xs != [] {
      FilterMultiplicity(xs[1..], keep);
      assert xs == [xs[0]] + xs[1..];
    }
  }

  /** The filter keeps stored order: filtering a concatenation filters each part. */
  lemma {:induction false} FilterAppend<T(!new)>(a: seq<T>, b: seq<T>, keep: T -> bool)
    ensures Filter(a + b, keep) == Filter(a, keep) + Filter(b, keep)
  {
    if a == [] {
      assert a + b == b;
    } else {
      var head := if keep(a[0]) then [a[0]] else [];
      FilterAppend(a[1..], b, keep);
      assert (a + b)[0] == a[0];
      assert (a + b)[1..] == a[1..] + b;
      assert Filter(a + b, keep) == head + Filter(a[1..] + b, keep);
      assert Filter(a, keep) == head + Filter(a[1..], keep);
      assert head + (Filter(a[1..], keep) + Filter(b, keep)) == (head + Filter(a[1..], keep)) + Filter(b, keep);
    }
  }

  /** When no element passes, nothing is kept. */
  lemma {:induction false} FilterNone<T(!new)>(xs: seq<T>, keep: T -> bool)
    requires forall i :: 0 <= i < |xs| ==> !keep(xs[i])
    ensures Filter(xs, keep) == []
  {
    if xs != [] {
      FilterNone(xs[1..], keep);
    }
  }

  function SessionId(s: Session): string {
    s.id
  }

  /** `sessions.find(s => s.id === id)`: the first stored session with that id. */
  function FindById(sessions: seq<Session>, id: string): (r: Option<Session>)
    ensures r.None? <==> forall i :: 0 <= i < |sessions| ==> sessions[i].id != id
    ensures r.Some? ==> exists k :: 0 <= k < |sessions| && sessions[k] == r.value && r.value.id == id
                                    && forall j :: 0 <= j < k ==> sessions[j].id != id
  {
    FindFirst(sessions, SessionId, id)
  }
}

/** String helpers standing in for the JavaScript string methods the views use. */
module Text {

  /** `toUpperCase` on one character; only the ASCII letters are mapped. */
  function UpperChar(c: char): char {
    if 'a' <= c <= 'z' then (c as int - 32) as char else c
  }

  function Upper(s: string): string {
    seq(|s|, i requires 0 <= i < |s| => UpperChar(s[i]))
  }

  predicate IsUpper(s: string) {
    forall i :: 0 <= i < |s| ==> !('a' <= s[i] <= 'z')
  }

  lemma UpperIsUpper(s: string)
    ensures IsUpper(Upper(s))
  {
  }

  /** Upper-casing an upper-case string changes nothing. */
  lemma UpperOfUpper(s: string)
    requires IsUpper(s)
    ensures Upper(s) == s
  {
  }

  /** Upper-casing twice is upper-casing once. */
  lemma UpperIdempotent(s: string)
    ensures Upper(Upper(s)) == Upper(s)
  {
    UpperIsUpper(s);
    UpperOfUpper(Upper(s));
  }

  /** `s.length`: JavaScript counts UTF-16 code units, so a character
      outside the Basic Multilingual Plane counts twice. */
  function Utf16Length(s: string): (n: nat)
    ensures |s| <= n <= 2 * |s|
  {
    if s == [] then 0
    else (if s[0] as int >= 0x1_0000 then 2 else 1) + Utf16Length(s[1..])
  }

  /** Three emoji are three characters but six code units. */
  lemma Utf16LengthOfEmoji()
    ensures |"\U{1F600}\U{1F600}\U{1F600}"| == 3
    ensures Utf16Length("\U{1F600}\U{1F600}\U{1F600}") == 6
  {
  }

  /** `s.substr(start, len)` for a non-negative start. */
  function Substr(s: string, start: nat, len: nat): (r: string)
    ensures |r| <= len
    ensures start <= |s| ==> r <= s[start..]
    ensures start + len <= |s| ==> |r| == len
    ensures start >= |s| ==> r == []
  {
    if start >= |s| then []
    else if start + len <= |s| then s[start..start + len]
    else s[start..]
  }

  predicate StartsWith(s: string, prefix: string) {
    |prefix| <= |s| && s[..|prefix|] == prefix
  }

  predicate IsDigit(c: char) {
    '0' <= c <= '9'
  }

  function DigitChar(d: nat): char
    requires d < 10
  {
    ('0' as int + d) as char
  }

  /** The decimal text of a natural number, as template literals print it. */
  function NatToString(n: nat): (r: string)
    ensures |r| >= 1
    ensures forall i :: 0 <= i < |r| ==> IsDigit(r[i])
  {
    if n < 10 then [DigitChar(n)] else NatToString(n / 10) + [DigitChar(n % 10)]
  }

  /** Reads a run of decimal digits back as a number. */
  function ParseDigits(s: string): nat
    requires forall i :: 0 <= i < |s| ==> IsDigit(s[i])
  {
    if s == [] then 0
    else
      assert IsDigit(s[|s| - 1]);
      ParseDigits(s[..|s| - 1]) * 10 + (s[|s| - 1] as int - '0' as int)
  }

  lemma {:induction false} ParseNatToString(n: nat)
    ensures ParseDigits(NatToString(n)) == n
  {
    var r := NatToString(n);
    if n >= 10 {
      ParseNatToString(n / 10);
      assert r[..|r| - 1] == NatToString(n / 10);
    }
  }
}
