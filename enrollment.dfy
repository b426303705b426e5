/** The enrolment actions of the student schedule page: enrol in one
    course behind its admission checks, drop one course, enrol in every
    available course of a term, and drop every course of a term, with the
    seat-count and semester-status bookkeeping each of them does. */
module Enrollment {
  import opened Common
  import opened Tables
  import opened Timetable
  import Academics

  /** A schedules row: one weekly meeting of a course and its seat count. */
  datatype Schedule = Schedule(id: int, courseId: int, slot: Slot, capacity: int, enrolledCount: int)

  /** The three tables the enrolment actions write. */
  datatype Rows = Rows(enrollments: seq<Enrollment>, schedules: seq<Schedule>, statuses: seq<SemesterStatus>)

  // ---------------------------------------------------------------
  // The queries the checks run
  // ---------------------------------------------------------------

  /** Some enrollments row, of any academic year and any status, links the
      student to the course. */
  predicate Holds(enrs: seq<Enrollment>, sid: int, cid: int) {
    exists i :: 0 <= i < |enrs| && enrs[i].studentId == sid && enrs[i].courseId == cid
  }

  /** The schedules rows of a course, in table order. */
  function SchedulesOf(scheds: seq<Schedule>, cid: int): seq<Schedule>
    decreases |scheds|
  {
    if scheds == [] then []
    else
      var s := scheds[|scheds| - 1];
      SchedulesOf(scheds[..|scheds| - 1], cid) + (if s.courseId == cid then [s] else [])
  }

  lemma {:induction false} SchedulesOfSpec(scheds: seq<Schedule>, cid: int)
    ensures forall s :: s in SchedulesOf(scheds, cid) <==> s in scheds && s.courseId == cid
    decreases |scheds|
  {
    if scheds != [] {
      SchedulesOfSpec(scheds[..|scheds| - 1], cid);
      assert scheds == scheds[..|scheds| - 1] + [scheds[|scheds| - 1]];
    }
  }

  /** The first enrollments row of the student and the course, which is
      what fetching one row of the query returns. */
  function FirstRecord(enrs: seq<Enrollment>, sid: int, cid: int): Option<Enrollment>
    decreases |enrs|
  {
    if enrs == [] then None
    else if enrs[0].studentId == sid && enrs[0].courseId == cid then Some(enrs[0])
    else FirstRecord(enrs[1..], sid, cid)
  }

  /** A record is found exactly when the student holds the course, and it
      is the earliest row that links them. */
  lemma {:induction false} FirstRecordSpec(enrs: seq<Enrollment>, sid: int, cid: int)
    ensures FirstRecord(enrs, sid, cid).Some? <==> Holds(enrs, sid, cid)
    ensures FirstRecord(enrs, sid, cid).Some? ==>
      exists k :: 0 <= k < |enrs| && enrs[k] == FirstRecord(enrs, sid, cid).value
        && enrs[k].studentId == sid && enrs[k].courseId == cid
        && forall j :: 0 <= j < k ==> !(enrs[j].studentId == sid && enrs[j].courseId == cid)
    decreases |enrs|
  {
    if enrs != [] && !(enrs[0].studentId == sid && enrs[0].courseId == cid) {
      var tail := enrs[1..];
      FirstRecordSpec(tail, sid, cid);
      if Holds(enrs, sid, cid) {
        var i :| 0 <= i < |enrs| && enrs[i].studentId == sid && enrs[i].courseId == cid;
        assert tail[i - 1] == enrs[i];
      }
      if Holds(tail, sid, cid) {
        var i :| 0 <= i < |tail| && tail[i].studentId == sid && tail[i].courseId == cid;
        assert enrs[i + 1] == tail[i];
      }
      if FirstRecord(tail, sid, cid).Some? {
        var k :| 0 <= k < |tail| && tail[k] == FirstRecord(tail, sid, cid).value
          && tail[k].studentId == sid && tail[k].courseId == cid
          && forall j :: 0 <= j < k ==> !(tail[j].studentId == sid && tail[j].courseId == cid);
        assert enrs[k + 1] == tail[k];
        forall j | 0 <= j < k + 1 ensures !(enrs[j].studentId == sid && enrs[j].courseId == cid) {
          if j > 0 { assert enrs[j] == tail[j - 1]; }
        }
      }
    } else if enrs != [] {
      assert Holds(enrs, sid, cid);
    }
  }

  /** An empty prerequisite_id (NULL or 0) means the course has none. */
  predicate HasPrerequisite(c: Course) {
    c.prerequisite.Some? && c.prerequisite.value != 0
  }

  /** The student's record of the prerequisite passes when its status is
      Passed or its final grade lies in (0, 3.0]. */
  predicate PassedRecord(r: Option<Enrollment>) {
    r.Some? && (r.value.status == "Passed" || (r.value.grade.Some? && 0.0 < r.value.grade.value <= 3.0))
  }

  /** The course code shown for a curriculum id (empty when the row is
      missing). */
  function CodeOf(courses: seq<Course>, id: int): string {
    var c := FindCourse(courses, id);
    if c.Some? then c.value.code else ""
  }

  /** An Enrolled row of the student in the academic year whose course
      belongs to the semester. */
  predicate EnrolledIn(courses: seq<Course>, e: Enrollment, sid: int, ay: string, sem: int) {
    e.status == "Enrolled" && InTerm(courses, e, sid, Term(ay, sem))
  }

  function SlotsOf(scheds: seq<Schedule>): (r: seq<Slot>)
    ensures |r| == |scheds| && forall i :: 0 <= i < |scheds| ==> r[i] == scheds[i].slot
  {
    seq(|scheds|, i requires 0 <= i < |scheds| => scheds[i].slot)
  }

  /** The meetings the student already has in the term: each Enrolled row
      of the academic year and semester joined with its course's schedules. */
  function TermSlots(enrs: seq<Enrollment>, scheds: seq<Schedule>, courses: seq<Course>, sid: int, ay: string, sem: int): seq<Slot>
    decreases |enrs|
  {
    if enrs == [] then []
    else
      var e := enrs[|enrs| - 1];
      TermSlots(enrs[..|enrs| - 1], scheds, courses, sid, ay, sem)
        + (if EnrolledIn(courses, e, sid, ay, sem) then SlotsOf(SchedulesOf(scheds, e.courseId)) else [])
  }

  /** A meeting of some Enrolled course of the term. */
  ghost predicate TermMeeting(enrs: seq<Enrollment>, scheds: seq<Schedule>, courses: seq<Course>,
                              sid: int, ay: string, sem: int, x: Slot) {
    exists e, s :: e in enrs && s in scheds && EnrolledIn(courses, e, sid, ay, sem) && s.courseId == e.courseId && s.slot == x
  }

  lemma {:induction false} TermSlotsSpec(enrs: seq<Enrollment>, scheds: seq<Schedule>, courses: seq<Course>, sid: int, ay: string, sem: int)
    ensures forall x :: x in TermSlots(enrs, scheds, courses, sid, ay, sem) <==> TermMeeting(enrs, scheds, courses, sid, ay, sem, x)
    decreases |enrs|
  {
    if enrs != [] {
      var init := enrs[..|enrs| - 1];
      var e := enrs[|enrs| - 1];
      TermSlotsSpec(init, scheds, courses, sid, ay, sem);
      SchedulesOfSpec(scheds, e.courseId);
      assert enrs == init + [e];
      var own := if EnrolledIn(courses, e, sid, ay, sem) then SlotsOf(SchedulesOf(scheds, e.courseId)) else [];
      forall x | x in own ensures TermMeeting(enrs, scheds, courses, sid, ay, sem, x) {
        var i :| 0 <= i < |own| && own[i] == x;
        var s := SchedulesOf(scheds, e.courseId)[i];
        assert s in SchedulesOf(scheds, e.courseId);
      }
      forall x | TermMeeting(enrs, scheds, courses, sid, ay, sem, x)
        ensures x in TermSlots(enrs, scheds, courses, sid, ay, sem)
      {
        var e', s :| e' in enrs && s in scheds && EnrolledIn(courses, e', sid, ay, sem) && s.courseId == e'.courseId && s.slot == x;
        if e' == e {
          var ss := SchedulesOf(scheds, e.courseId);
          var k :| 0 <= k < |ss| && ss[k] == s;
          assert own[k] == x;
        } else {
          assert e' in init;
          assert TermMeeting(init, scheds, courses, sid, ay, sem, x);
        }
      }
    }
  }

  // ---------------------------------------------------------------
  // The capacity and overlap scans
  // ---------------------------------------------------------------

  predicate IsFull(s: Schedule) {
    s.enrolledCount >= s.capacity
  }

  /** The first schedule row whose count has reached its capacity. */
  function FirstFull(news: seq<Schedule>): Option<Schedule>
    decreases |news|
  {
    if news == [] then None
    else if IsFull(news[0]) then Some(news[0])
    else FirstFull(news[1..])
  }

  /** None exactly when every row still has a free seat; otherwise a full
      row of the list. */
  lemma {:induction false} FirstFullSpec(news: seq<Schedule>)
    ensures FirstFull(news).None? <==> forall s :: s in news ==> !IsFull(s)
    ensures FirstFull(news).Some? ==> FirstFull(news).value in news && IsFull(FirstFull(news).value)
    decreases |news|
  {
    if news != [] {
      FirstFullSpec(news[1..]);
      assert news == [news[0]] + news[1..];
    }
  }

  /** The capacity foreach, with its break. */
  method FindFull(news: seq<Schedule>) returns (r: Option<Schedule>)
    ensures r == FirstFull(news)
  {
    var i := 0;
    while i < |news|
      invariant 0 <= i <= |news|
      invariant FirstFull(news[i..]) == FirstFull(news)
    {
      if news[i].enrolledCount >= news[i].capacity {
        return Some(news[i]);
      }
      assert news[i..][1..] == news[i + 1..];
      i := i + 1;
    }
    return None;
  }

  predicate ClashesAny(a: Slot, currs: seq<Slot>) {
    exists c :: c in currs && Clash(a, c)
  }

  /** The day of the first new meeting that clashes with a current one. */
  function FirstClash(news: seq<Schedule>, currs: seq<Slot>): Option<string>
    decreases |news|
  {
    if news == [] then None
    else if ClashesAny(news[0].slot, currs) then Some(news[0].slot.day)
    else FirstClash(news[1..], currs)
  }

  /** None exactly when no new meeting clashes with a current one;
      otherwise the day of a clashing pair. */
  lemma {:induction false} FirstClashSpec(news: seq<Schedule>, currs: seq<Slot>)
    ensures FirstClash(news, currs).None? <==> forall n, c :: n in news && c in currs ==> !Clash(n.slot, c)
    ensures FirstClash(news, currs).Some? ==>
      exists n, c :: n in news && c in currs && Clash(n.slot, c) && FirstClash(news, currs).value == n.slot.day
    decreases |news|
  {
    if news != [] {
      FirstClashSpec(news[1..], currs);
      assert news == [news[0]] + news[1..];
      if ClashesAny(news[0].slot, currs) {
        var c :| c in currs && Clash(news[0].slot, c);
        assert news[0] in news;
      }
    }
  }

  /** The nested overlap foreach; the `break 2` ends both loops at the
      first clash. */
  method FindClash(news: seq<Schedule>, currs: seq<Slot>) returns (r: Option<string>)
    ensures r == FirstClash(news, currs)
  {
    var i := 0;
    while i < |news|
      invariant 0 <= i <= |news|
      invariant FirstClash(news[i..], currs) == FirstClash(news, currs)
    {
      var j := 0;
      while j < |currs|
        invariant 0 <= j <= |currs|
        invariant forall k :: 0 <= k < j ==> !Clash(news[i].slot, currs[k])
      {
        if news[i].slot.day == currs[j].day {
          if StrLess(news[i].slot.start, currs[j].end) && StrLess(currs[j].start, news[i].slot.end) {
            assert Clash(news[i].slot, currs[j]);
            return Some(news[i].slot.day);
          }
        }
        j := j + 1;
      }
      assert news[i..][1..] == news[i + 1..];
      i := i + 1;
    }
    return None;
  }

  // ---------------------------------------------------------------
  // Enrol in one course
  // ---------------------------------------------------------------

  /** Why a request is turned down, with what its message shows. */
  datatype Refusal =
    | AlreadyEnrolled
    | BelowYearLevel(code: string, courseLevel: int, studentLevel: int)
    | MissingPrerequisite(prerequisiteCode: string, code: string)
    | Full(count: int, capacity: int)
    | Conflict(day: string)

  datatype Verdict = Admit | Refuse(why: Refusal)

  /** The meetings the new course is checked against: none when its
      curriculum row is missing, since the query then binds a NULL
      semester. */
  function CurrentSlots(db: Rows, courses: seq<Course>, sid: int, ay: string, c: Option<Course>): seq<Slot> {
    if c.Some? then TermSlots(db.enrollments, db.schedules, courses, sid, ay, c.value.semester) else []
  }

  /** The checks in the order the handler runs them; the first that fails
      decides. A missing curriculum row passes the year-level check (a NULL
      level never compares greater) and has no prerequisite. */
  function Admission(db: Rows, courses: seq<Course>, sid: int, year: int, cid: int, ay: string): Verdict {
    if Holds(db.enrollments, sid, cid) then Refuse(AlreadyEnrolled)
    else
      var c := FindCourse(courses, cid);
      if c.Some? && c.value.yearLevel > year then Refuse(BelowYearLevel(c.value.code, c.value.yearLevel, year))
      else if c.Some? && HasPrerequisite(c.value) && !PassedRecord(FirstRecord(db.enrollments, sid, c.value.prerequisite.value)) then
        Refuse(MissingPrerequisite(CodeOf(courses, c.value.prerequisite.value), c.value.code))
      else
        var news := SchedulesOf(db.schedules, cid);
        var full := FirstFull(news);
        if full.Some? then Refuse(Full(full.value.enrolledCount, full.value.capacity))
        else
          var clash := FirstClash(news, CurrentSlots(db, courses, sid, ay, c));
          if clash.Some? then Refuse(Conflict(clash.value)) else Admit
  }

  function Message(v: Verdict): string {
    match v
    case Admit => "Enrolled successfully."
    case Refuse(AlreadyEnrolled) => "Already enrolled in this course."
    case Refuse(BelowYearLevel(code, level, year)) =>
      "Cannot enroll in " + code + " (Year " + IntToString(level) + "). You are Year " + IntToString(year) + "."
    case Refuse(MissingPrerequisite(p, code)) => "Prerequisite required: You must pass " + p + " before enrolling in " + code
    case Refuse(Full(n, cap)) => "Course is full (" + IntToString(n) + "/" + IntToString(cap) + ")."
    case Refuse(Conflict(day)) => "Schedule conflict detected on " + day
  }

  // The checks, stated independently of the order they run in.

  predicate YearLevelAllows(courses: seq<Course>, cid: int, year: int) {
    FindCourse(courses, cid).None? || FindCourse(courses, cid).value.yearLevel <= year
  }

  predicate PrerequisiteAllows(db: Rows, courses: seq<Course>, sid: int, cid: int) {
    var c := FindCourse(courses, cid);
    c.None? || !HasPrerequisite(c.value) || PassedRecord(FirstRecord(db.enrollments, sid, c.value.prerequisite.value))
  }

  ghost predicate SeatsLeft(db: Rows, cid: int) {
    forall s :: s in db.schedules && s.courseId == cid ==> s.enrolledCount < s.capacity
  }

  /** A meeting of the course clashes with a meeting of a course the
      student is Enrolled in for the same academic year and semester. */
  ghost predicate TimeClash(db: Rows, courses: seq<Course>, sid: int, cid: int, ay: string) {
    var c := FindCourse(courses, cid);
    c.Some? && exists s, x ::
      && s in db.schedules && s.courseId == cid
      && TermMeeting(db.enrollments, db.schedules, courses, sid, ay, c.value.semester, x)
      && Clash(s.slot, x)
  }

  lemma FullIffNoSeats(db: Rows, cid: int)
    ensures FirstFull(SchedulesOf(db.schedules, cid)).None? <==> SeatsLeft(db, cid)
  {
    SchedulesOfSpec(db.schedules, cid);
    FirstFullSpec(SchedulesOf(db.schedules, cid));
  }

  lemma ClashIffTimeClash(db: Rows, courses: seq<Course>, sid: int, cid: int, ay: string)
    ensures FirstClash(SchedulesOf(db.schedules, cid), CurrentSlots(db, courses, sid, ay, FindCourse(courses, cid))).Some?
      <==> TimeClash(db, courses, sid, cid, ay)
  {
    var c := FindCourse(courses, cid);
    var news := SchedulesOf(db.schedules, cid);
    var currs := CurrentSlots(db, courses, sid, ay, c);
    SchedulesOfSpec(db.schedules, cid);
    FirstClashSpec(news, currs);
    if c.Some? {
      TermSlotsSpec(db.enrollments, db.schedules, courses, sid, ay, c.value.semester);
      if TimeClash(db, courses, sid, cid, ay) {
        var s, x :| s in db.schedules && s.courseId == cid
          && TermMeeting(db.enrollments, db.schedules, courses, sid, ay, c.value.semester, x) && Clash(s.slot, x);
        assert s in news && x in currs;
      }
    }
  }

  /** A request is admitted exactly when the student holds no record of
      the course, the course's year level is not above the student's, the
      prerequisite is passed, every meeting of the course has a free seat,
      and none clashes with the student's Enrolled courses of that
      academic year and semester. */
  lemma AdmissionRule(db: Rows, courses: seq<Course>, sid: int, year: int, cid: int, ay: string)
    ensures Admission(db, courses, sid, year, cid, ay) == Admit <==>
      && !Holds(db.enrollments, sid, cid)
      && YearLevelAllows(courses, cid, year)
      && PrerequisiteAllows(db, courses, sid, cid)
      && SeatsLeft(db, cid)
      && !TimeClash(db, courses, sid, cid, ay)
  {
    FullIffNoSeats(db, cid);
    ClashIffTimeClash(db, courses, sid, cid, ay);
  }

  /** The refusal reported is the first check that fails: every earlier
      check passed. */
  lemma AdmissionOrder(db: Rows, courses: seq<Course>, sid: int, year: int, cid: int, ay: string)
    ensures var v := Admission(db, courses, sid, year, cid, ay);
      && (v == Refuse(AlreadyEnrolled) <==> Holds(db.enrollments, sid, cid))
      && (v.Refuse? && v.why.BelowYearLevel? ==> !Holds(db.enrollments, sid, cid) && !YearLevelAllows(courses, cid, year))
      && (v.Refuse? && v.why.MissingPrerequisite? ==>
            !Holds(db.enrollments, sid, cid) && YearLevelAllows(courses, cid, year) && !PrerequisiteAllows(db, courses, sid, cid))
      && (v.Refuse? && v.why.Full? ==>
            !Holds(db.enrollments, sid, cid) && YearLevelAllows(courses, cid, year) && PrerequisiteAllows(db, courses, sid, cid)
            && !SeatsLeft(db, cid))
      && (v.Refuse? && v.why.Conflict? ==>
            !Holds(db.enrollments, sid, cid) && YearLevelAllows(courses, cid, year) && PrerequisiteAllows(db, courses, sid, cid)
            && SeatsLeft(db, cid) && TimeClash(db, courses, sid, cid, ay))
  {
    FullIffNoSeats(db, cid);
    ClashIffTimeClash(db, courses, sid, cid, ay);
  }

  /** UPDATE schedules SET enrolled_count = enrolled_count + 1 WHERE curriculum_id = cid. */
  function Bumped(scheds: seq<Schedule>, cid: int): (r: seq<Schedule>)
    ensures |r| == |scheds|
  {
    seq(|scheds|, i requires 0 <= i < |scheds| =>
      if scheds[i].courseId == cid then scheds[i].(enrolledCount := scheds[i].enrolledCount + 1) else scheds[i])
  }

  /** UPDATE schedules SET enrolled_count = GREATEST(0, enrolled_count - 1) WHERE curriculum_id = cid. */
  function Lowered(scheds: seq<Schedule>, cid: int): (r: seq<Schedule>)
    ensures |r| == |scheds|
  {
    seq(|scheds|, i requires 0 <= i < |scheds| =>
      if scheds[i].courseId == cid then scheds[i].(enrolledCount := if scheds[i].enrolledCount - 1 > 0 then scheds[i].enrolledCount - 1 else 0)
      else scheds[i])
  }

  predicate SameKey(r: SemesterStatus, sid: int, t: Term) {
    r.studentId == sid && r.term == t
  }

  /** Make sure the term has a semester_status row In Progress: insert one
      when the student has none for the term, else set every such row to
      In Progress. */
  function InProgress(rows: seq<SemesterStatus>, sid: int, yl: int, t: Term): seq<SemesterStatus> {
    if exists i :: 0 <= i < |rows| && SameKey(rows[i], sid, t) then
      seq(|rows|, i requires 0 <= i < |rows| => if SameKey(rows[i], sid, t) then rows[i].(status := "In Progress") else rows[i])
    else rows + [SemesterStatus(sid, yl, t, "In Progress")]
  }

  /** Afterwards the term has a row and all its rows are In Progress;
      every other row keeps its place and value, and a row is added only
      when the term had none. */
  lemma InProgressRule(rows: seq<SemesterStatus>, sid: int, yl: int, t: Term)
    ensures var r := InProgress(rows, sid, yl, t);
      && (exists i :: 0 <= i < |r| && SameKey(r[i], sid, t))
      && (forall i :: 0 <= i < |r| && SameKey(r[i], sid, t) ==> r[i].status == "In Progress")
      && |rows| <= |r| <= |rows| + 1
      && (|r| == |rows| + 1 <==> forall i :: 0 <= i < |rows| ==> !SameKey(rows[i], sid, t))
      && (forall i :: 0 <= i < |rows| && !SameKey(rows[i], sid, t) ==> r[i] == rows[i])
  {
    var r := InProgress(rows, sid, yl, t);
    if exists i :: 0 <= i < |rows| && SameKey(rows[i], sid, t) {
      var i :| 0 <= i < |rows| && SameKey(rows[i], sid, t);
      assert SameKey(r[i], sid, t);
    } else {
      assert SameKey(r[|rows|], sid, t);
    }
  }

  /** The row the handler inserts; `now` is the row's creation time. */
  function NewEnrollment(sid: int, cid: int, ay: string, now: int): Enrollment {
    Enrollment(sid, cid, ay, "Enrolled", None, now)
  }

  /** The writes of an admitted request. A missing curriculum row gives a
      status row for semester 0 and year level 0 (intval of NULL). */
  function Admitted(db: Rows, courses: seq<Course>, sid: int, cid: int, ay: string, now: int): Rows {
    var c := FindCourse(courses, cid);
    var yl := if c.Some? then c.value.yearLevel else 0;
    var sem := if c.Some? then c.value.semester else 0;
    Rows(db.enrollments + [NewEnrollment(sid, cid, ay, now)],
         Bumped(db.schedules, cid),
         InProgress(db.statuses, sid, yl, Term(ay, sem)))
  }

  function EnrollAction(db: Rows, courses: seq<Course>, sid: int, year: int, cid: int, ay: string, now: int): (Verdict, Rows) {
    var v := Admission(db, courses, sid, year, cid, ay);
    (v, if v == Admit then Admitted(db, courses, sid, cid, ay, now) else db)
  }

  // ---------------------------------------------------------------
  // Drop one course
  // ---------------------------------------------------------------

  /** DELETE FROM enrollments WHERE student_id = sid AND curriculum_id = cid. */
  function Without(enrs: seq<Enrollment>, sid: int, cid: int): seq<Enrollment>
    decreases |enrs|
  {
    if enrs == [] then []
    else
      var e := enrs[|enrs| - 1];
      Without(enrs[..|enrs| - 1], sid, cid) + (if e.studentId == sid && e.courseId == cid then [] else [e])
  }

  /** The delete keeps exactly the other rows, in order. */
  lemma {:induction false} WithoutSpec(enrs: seq<Enrollment>, sid: int, cid: int)
    ensures forall e :: e in Without(enrs, sid, cid) <==> e in enrs && !(e.studentId == sid && e.courseId == cid)
    ensures !Holds(enrs, sid, cid) ==> Without(enrs, sid, cid) == enrs
    decreases |enrs|
  {
    if enrs != [] {
      var init := enrs[..|enrs| - 1];
      WithoutSpec(init, sid, cid);
      assert enrs == init + [enrs[|enrs| - 1]];
      if !Holds(enrs, sid, cid) {
        assert !(enrs[|enrs| - 1].studentId == sid && enrs[|enrs| - 1].courseId == cid);
      }
    }
  }

  function DropAction(db: Rows, sid: int, cid: int): Rows {
    Rows(Without(db.enrollments, sid, cid), Lowered(db.schedules, cid), db.statuses)
  }

  /** A drop leaves every count non-negative and removes every record of
      the course, whatever its academic year or status. */
  lemma DropRule(db: Rows, sid: int, cid: int)
    requires forall s :: s in db.schedules ==> s.enrolledCount >= 0
    ensures forall s :: s in DropAction(db, sid, cid).schedules ==> s.enrolledCount >= 0
    ensures !Holds(DropAction(db, sid, cid).enrollments, sid, cid)
  {
    var after := DropAction(db, sid, cid);
    WithoutSpec(db.enrollments, sid, cid);
    forall s | s in after.schedules ensures s.enrolledCount >= 0 {
      var i :| 0 <= i < |after.schedules| && after.schedules[i] == s;
      assert db.schedules[i] in db.schedules;
    }
    forall i | 0 <= i < |after.enrollments|
      ensures !(after.enrollments[i].studentId == sid && after.enrollments[i].courseId == cid)
    {
      assert after.enrollments[i] in after.enrollments;
    }
  }

  /** Dropping a course right after it was admitted restores the
      enrollments and every seat count. */
  lemma DropUndoesEnroll(db: Rows, courses: seq<Course>, sid: int, year: int, cid: int, ay: string, now: int)
    requires forall s :: s in db.schedules ==> s.enrolledCount >= 0
    requires Admission(db, courses, sid, year, cid, ay) == Admit
    ensures var after := DropAction(EnrollAction(db, courses, sid, year, cid, ay, now).1, sid, cid);
      after.enrollments == db.enrollments && after.schedules == db.schedules
  {
    var mid := EnrollAction(db, courses, sid, year, cid, ay, now).1;
    var e := NewEnrollment(sid, cid, ay, now);
    assert mid.enrollments == db.enrollments + [e];
    assert mid.enrollments[..|mid.enrollments| - 1] == db.enrollments;
    WithoutSpec(db.enrollments, sid, cid);
    var back := Lowered(mid.schedules, cid);
    forall i | 0 <= i < |db.schedules| ensures back[i] == db.schedules[i] {
      assert db.schedules[i] in db.schedules;
    }
  }

  /** A refused request writes nothing. */
  lemma RefusalWritesNothing(db: Rows, courses: seq<Course>, sid: int, year: int, cid: int, ay: string, now: int)
    requires Admission(db, courses, sid, year, cid, ay) != Admit
    ensures EnrollAction(db, courses, sid, year, cid, ay, now).1 == db
  {
  }

  // ---------------------------------------------------------------
  // Enrol in every available course of a term
  // ---------------------------------------------------------------

  predicate CodeBefore(a: Course, b: Course) {
    StrLess(a.code, b.code)
  }

  /** A curriculum row of the program, year level and semester that the
      student holds no record of, in any academic year. */
  predicate Offerable(c: Course, enrs: seq<Enrollment>, sid: int, program: int, year: int, sem: int) {
    c.programId == program && c.yearLevel == year && c.semester == sem && !Holds(enrs, sid, c.id)
  }

  function Offered(courses: seq<Course>, enrs: seq<Enrollment>, sid: int, program: int, year: int, sem: int): seq<Course>
    decreases |courses|
  {
    if courses == [] then []
    else
      var c := courses[|courses| - 1];
      Offered(courses[..|courses| - 1], enrs, sid, program, year, sem) + (if Offerable(c, enrs, sid, program, year, sem) then [c] else [])
  }

  /** The available-courses query, ORDER BY course_code (rows with the same
      code in table order). */
  function Available(courses: seq<Course>, enrs: seq<Enrollment>, sid: int, program: int, year: int, sem: int): seq<Course> {
    Academics.SortBy(Offered(courses, enrs, sid, program, year, sem), CodeBefore)
  }

  lemma CodeBeforeIsStrictWeakOrder()
    ensures Academics.StrictWeakOrder(CodeBefore)
  {
    forall a: Course, b: Course | CodeBefore(a, b) ensures !CodeBefore(b, a) {
      StrLessAsymmetric(a.code, b.code);
    }
    forall a: Course, b: Course, c: Course | CodeBefore(a, c) ensures CodeBefore(a, b) || CodeBefore(b, c) {
      if !CodeBefore(a, b) && !CodeBefore(b, c) {
        if a.code != b.code { StrLessTotal(a.code, b.code); StrLessTransitive(b.code, a.code, c.code); }
        if b.code != c.code { StrLessTotal(b.code, c.code); StrLessTransitive(a.code, c.code, b.code); }
        StrLessIrreflexive(a.code);
      }
    }
  }

  lemma {:induction false} OfferedSpec(courses: seq<Course>, enrs: seq<Enrollment>, sid: int, program: int, year: int, sem: int)
    ensures forall c :: c in Offered(courses, enrs, sid, program, year, sem) <==> c in courses && Offerable(c, enrs, sid, program, year, sem)
    decreases |courses|
  {
    if courses != [] {
      OfferedSpec(courses[..|courses| - 1], enrs, sid, program, year, sem);
      assert courses == courses[..|courses| - 1] + [courses[|courses| - 1]];
    }
  }

  /** The batch walks exactly the offerable curriculum rows, in course-code
      order. */
  lemma AvailableSpec(courses: seq<Course>, enrs: seq<Enrollment>, sid: int, program: int, year: int, sem: int)
    ensures var a := Available(courses, enrs, sid, program, year, sem);
      && (forall c :: c in a <==> c in courses && Offerable(c, enrs, sid, program, year, sem))
      && (forall i, j :: 0 <= i < j < |a| ==> !StrLess(a[j].code, a[i].code))
  {
    var o := Offered(courses, enrs, sid, program, year, sem);
    OfferedSpec(courses, enrs, sid, program, year, sem);
    CodeBeforeIsStrictWeakOrder();
    Academics.SortBySorted(o, CodeBefore);
    var a := Available(courses, enrs, sid, program, year, sem);
    assert multiset(a) == multiset(o);
    forall c ensures c in a <==> c in o {
      assert c in a <==> c in multiset(a);
      assert c in o <==> c in multiset(o);
    }
  }

  /** The batch's checks of one course against the current tables: the
      prerequisite, then a full meeting, then a clash with the Enrolled
      courses of the academic year and the course's semester. There is no
      year-level check. */
  function BatchVerdict(db: Rows, courses: seq<Course>, sid: int, ay: string, ac: Course): Option<string> {
    if HasPrerequisite(ac) && !PassedRecord(FirstRecord(db.enrollments, sid, ac.prerequisite.value)) then Some("Prereq missing")
    else
      var news := SchedulesOf(db.schedules, ac.id);
      if FirstFull(news).Some? then Some("Full")
      else if FirstClash(news, TermSlots(db.enrollments, db.schedules, courses, sid, ay, ac.semester)).Some? then Some("Conflict")
      else None
  }

  /** The writes for an admitted batch course; the status row is for the
      selected year level and semester. */
  function BatchAdmitted(db: Rows, sid: int, ay: string, year: int, sem: int, now: int, ac: Course): Rows {
    Rows(db.enrollments + [NewEnrollment(sid, ac.id, ay, now)],
         Bumped(db.schedules, ac.id),
         InProgress(db.statuses, sid, year, Term(ay, sem)))
  }

  /** The tables and the two counters with the failure reasons. */
  datatype Batch = Batch(db: Rows, enrolled: int, failed: int, reasons: seq<string>)

  /** The foreach over the available courses. Each course is checked
      against the tables as the earlier courses of the batch left them. */
  function RunBatch(b: Batch, courses: seq<Course>, sid: int, ay: string, year: int, sem: int, now: int, avail: seq<Course>): Batch
    decreases |avail|
  {
    if avail == [] then b
    else BatchStep(RunBatch(b, courses, sid, ay, year, sem, now, avail[..|avail| - 1]), courses, sid, ay, year, sem, now, avail[|avail| - 1])
  }

  /** One course of the foreach: admitted, or counted as failed with its
      reason. */
  function BatchStep(prev: Batch, courses: seq<Course>, sid: int, ay: string, year: int, sem: int, now: int, ac: Course): Batch {
    var why := BatchVerdict(prev.db, courses, sid, ay, ac);
    if why.None? then Batch(BatchAdmitted(prev.db, sid, ay, year, sem, now, ac), prev.enrolled + 1, prev.failed, prev.reasons)
    else Batch(prev.db, prev.enrolled, prev.failed + 1, prev.reasons + [ac.code + " (" + why.value + ")"])
  }

  lemma RunBatchSnoc(b: Batch, courses: seq<Course>, sid: int, ay: string, year: int, sem: int, now: int, avail: seq<Course>, i: nat)
    requires i < |avail|
    ensures RunBatch(b, courses, sid, ay, year, sem, now, avail[..i + 1])
      == BatchStep(RunBatch(b, courses, sid, ay, year, sem, now, avail[..i]), courses, sid, ay, year, sem, now, avail[i])
  {
    assert avail[..i + 1][..i] == avail[..i];
  }

  /** array_slice(reasons, 0, 3). */
  function FirstThree(reasons: seq<string>): seq<string> {
    if |reasons| <= 3 then reasons else reasons[..3]
  }

  function BatchMessage(enrolled: int, failed: int, reasons: seq<string>): string {
    if enrolled > 0 then
      "Batch Enrollment: Successfully enrolled in " + IntToString(enrolled) + " courses."
      + (if failed > 0 then
           " (" + IntToString(failed) + " failed: " + Academics.Join(FirstThree(reasons), ", ")
           + (if |reasons| > 3 then "..." else "") + ")"
         else "")
    else "No courses enrolled. " + Academics.Join(reasons, ", ")
  }

  function EnrollAllAction(db: Rows, courses: seq<Course>, sid: int, ay: string, year: int, sem: int, program: int, now: int): (Batch, string) {
    if year > 0 && sem > 0 && program > 0 then
      var b := RunBatch(Batch(db, 0, 0, []), courses, sid, ay, year, sem, now, Available(courses, db.enrollments, sid, program, year, sem));
      (b, BatchMessage(b.enrolled, b.failed, b.reasons))
    else (Batch(db, 0, 0, []), "Invalid parameters for batch enrollment.")
  }

  /** Every course of the batch ends up either enrolled or counted as
      failed with one reason; the enrollments table only grows, by one
      Enrolled row of the student and the academic year per enrolled
      course, for a course of the batch. */
  lemma {:induction false} BatchAccounts(b: Batch, courses: seq<Course>, sid: int, ay: string, year: int, sem: int, now: int, avail: seq<Course>)
    ensures var r := RunBatch(b, courses, sid, ay, year, sem, now, avail);
      && r.enrolled + r.failed == b.enrolled + b.failed + |avail|
      && r.enrolled >= b.enrolled && r.failed >= b.failed
      && |r.reasons| - r.failed == |b.reasons| - b.failed
      && |r.db.enrollments| - r.enrolled == |b.db.enrollments| - b.enrolled
      && r.db.enrollments[..|b.db.enrollments|] == b.db.enrollments
      && forall i :: |b.db.enrollments| <= i < |r.db.enrollments| ==>
           var e := r.db.enrollments[i];
           e.studentId == sid && e.ay == ay && e.status == "Enrolled" && exists c :: c in avail && c.id == e.courseId
    decreases |avail|
  {
    if avail != [] {
      var init := avail[..|avail| - 1];
      var ac := avail[|avail| - 1];
      BatchAccounts(b, courses, sid, ay, year, sem, now, init);
      var prev := RunBatch(b, courses, sid, ay, year, sem, now, init);
      var r := RunBatch(b, courses, sid, ay, year, sem, now, avail);
      assert ac in avail;
      forall c | c in init ensures c in avail { }
      if BatchVerdict(prev.db, courses, sid, ay, ac).None? {
        assert r.db.enrollments == prev.db.enrollments + [NewEnrollment(sid, ac.id, ay, now)];
        assert r.db.enrollments[..|prev.db.enrollments|] == prev.db.enrollments;
      }
    }
  }

  // Two Monday courses whose meetings overlap, used by the batch lemmas.
  const DemoA := Course(1, "CS101", 3, 1, 1, 5, None)
  const DemoB := Course(2, "CS102", 3, 1, 1, 5, None)
  const DemoSa := Schedule(10, 1, Slot("Monday", "08:00:00", "10:00:00"), 40, 0)
  const DemoSb := Schedule(11, 2, Slot("Monday", "09:00:00", "11:00:00"), 40, 0)

  lemma SchedulesOfPair(x: Schedule, y: Schedule, cid: int)
    ensures SchedulesOf([x, y], cid) == (if x.courseId == cid then [x] else []) + (if y.courseId == cid then [y] else [])
  {
    assert [x, y][..1] == [x] && [x][..0] == [];
    assert SchedulesOf([x], cid) == SchedulesOf([], cid) + (if x.courseId == cid then [x] else []);
    assert SchedulesOf([x, y], cid) == SchedulesOf([x], cid) + (if y.courseId == cid then [y] else []);
  }

  lemma TermSlotsOne(e: Enrollment, scheds: seq<Schedule>, courses: seq<Course>, sid: int, ay: string, sem: int)
    ensures TermSlots([e], scheds, courses, sid, ay, sem)
      == if EnrolledIn(courses, e, sid, ay, sem) then SlotsOf(SchedulesOf(scheds, e.courseId)) else []
  {
    assert [e][..0] == [];
  }

  /** The first course of the batch is admitted into empty tables. */
  lemma BatchAdmitsFirst()
    ensures RunBatch(Batch(Rows([], [DemoSa, DemoSb], []), 0, 0, []), [DemoA, DemoB], 7, "2025-2026", 1, 1, 0, [DemoA])
      == Batch(Rows([NewEnrollment(7, 1, "2025-2026", 0)], [DemoSa.(enrolledCount := 1), DemoSb],
                    InProgress([], 7, 1, Term("2025-2026", 1))), 1, 0, [])
  {
    var db := Rows([], [DemoSa, DemoSb], []);
    var b0 := Batch(db, 0, 0, []);
    assert [DemoA][..0] == [];
    SchedulesOfPair(DemoSa, DemoSb, 1);
    assert FirstFull([DemoSa]) == None;
    assert FirstClash([DemoSa], []) == None;
    assert BatchVerdict(db, [DemoA, DemoB], 7, "2025-2026", DemoA) == None;
    assert RunBatch(b0, [DemoA, DemoB], 7, "2025-2026", 1, 1, 0, []) == b0;
    assert RunBatch(b0, [DemoA, DemoB], 7, "2025-2026", 1, 1, 0, [DemoA])
      == BatchStep(b0, [DemoA, DemoB], 7, "2025-2026", 1, 1, 0, DemoA);
    assert [DemoSa, DemoSb][..1] == [DemoSa] && [DemoSa][..0] == [];
    assert Bumped([DemoSa, DemoSb], 1) == [DemoSa.(enrolledCount := 1), DemoSb];
  }

  /** With the first course admitted, the second is refused as a clash. */
  lemma BatchRefusesSecond()
    ensures BatchVerdict(Rows([NewEnrollment(7, 1, "2025-2026", 0)], [DemoSa.(enrolledCount := 1), DemoSb],
                              InProgress([], 7, 1, Term("2025-2026", 1))), [DemoA, DemoB], 7, "2025-2026", DemoB)
      == Some("Conflict")
  {
    var e := NewEnrollment(7, 1, "2025-2026", 0);
    var sa' := DemoSa.(enrolledCount := 1);
    var db := Rows([e], [sa', DemoSb], InProgress([], 7, 1, Term("2025-2026", 1)));
    SchedulesOfPair(sa', DemoSb, 2);
    assert SchedulesOf(db.schedules, DemoB.id) == [DemoSb];
    assert FirstFull([DemoSb]) == None;
    DemoTermSlots();
    DemoClash();
    assert !HasPrerequisite(DemoB);
  }

  /** The admitted first course's meeting is the student's only one. */
  lemma DemoTermSlots()
    ensures TermSlots([NewEnrollment(7, 1, "2025-2026", 0)], [DemoSa.(enrolledCount := 1), DemoSb], [DemoA, DemoB], 7, "2025-2026", 1)
      == [DemoSa.slot]
  {
    var e := NewEnrollment(7, 1, "2025-2026", 0);
    var sa' := DemoSa.(enrolledCount := 1);
    assert FindCourse([DemoA, DemoB], 1) == Some(DemoA);
    assert EnrolledIn([DemoA, DemoB], e, 7, "2025-2026", 1);
    TermSlotsOne(e, [sa', DemoSb], [DemoA, DemoB], 7, "2025-2026", 1);
    SchedulesOfPair(sa', DemoSb, 1);
    assert SchedulesOf([sa', DemoSb], 1) == [sa'];
    assert SlotsOf([sa']) == [DemoSa.slot];
    assert TermSlots([e], [sa', DemoSb], [DemoA, DemoB], 7, "2025-2026", 1) == SlotsOf(SchedulesOf([sa', DemoSb], e.courseId));
  }

  /** The second course's Monday meeting overlaps the first's. */
  lemma DemoClash()
    ensures FirstClash([DemoSb], [DemoSa.slot]) == Some("Monday")
  {
    assert StrLess("09:00:00", "10:00:00") && StrLess("08:00:00", "11:00:00");
    assert Clash(DemoSb.slot, DemoSa.slot);
    assert ClashesAny(DemoSb.slot, [DemoSa.slot]);
  }

  /** The reason text the batch records for the refused demo course. */
  lemma ConflictReason()
    ensures DemoB.code + " (" + "Conflict" + ")" == "CS102 (Conflict)"
  {
  }

  /** The batch does check a course against the courses admitted before
      it in the same batch: with no records yet, two Monday courses whose
      meetings overlap give one enrolment and one "Conflict". */
  lemma BatchSeesEarlierCourses()
    ensures var r := RunBatch(Batch(Rows([], [DemoSa, DemoSb], []), 0, 0, []), [DemoA, DemoB], 7, "2025-2026", 1, 1, 0, [DemoA, DemoB]);
      r.enrolled == 1 && r.failed == 1 && r.reasons == ["CS102 (Conflict)"]
  {
    var b0 := Batch(Rows([], [DemoSa, DemoSb], []), 0, 0, []);
    var db1 := Rows([NewEnrollment(7, 1, "2025-2026", 0)], [DemoSa.(enrolledCount := 1), DemoSb],
                    InProgress([], 7, 1, Term("2025-2026", 1)));
    var b1 := Batch(db1, 1, 0, []);
    BatchAdmitsFirst();
    assert RunBatch(b0, [DemoA, DemoB], 7, "2025-2026", 1, 1, 0, [DemoA]) == b1;
    BatchRefusesSecond();
    assert BatchVerdict(db1, [DemoA, DemoB], 7, "2025-2026", DemoB) == Some("Conflict");
    RunBatchSnoc(b0, [DemoA, DemoB], 7, "2025-2026", 1, 1, 0, [DemoA, DemoB], 1);
    assert [DemoA, DemoB][..1] == [DemoA] && [DemoA, DemoB][..2] == [DemoA, DemoB];
    var r := RunBatch(b0, [DemoA, DemoB], 7, "2025-2026", 1, 1, 0, [DemoA, DemoB]);
    assert r == BatchStep(b1, [DemoA, DemoB], 7, "2025-2026", 1, 1, 0, DemoB);
    var x := DemoB.code + " (" + "Conflict" + ")";
    assert r == Batch(db1, 1, 1, [] + [x]);
    assert [] + [x] == [x];
    ConflictReason();
    assert r.reasons == ["CS102 (Conflict)"];
  }

  // ---------------------------------------------------------------
  // Drop every course of a term
  // ---------------------------------------------------------------

  /** The curriculum ids of the student's Enrolled rows of the academic
      year whose course has the year level and semester, in table order. */
  function DropTargets(enrs: seq<Enrollment>, courses: seq<Course>, sid: int, ay: string, year: int, sem: int): seq<int>
    decreases |enrs|
  {
    if enrs == [] then []
    else
      var e := enrs[|enrs| - 1];
      var c := FindCourse(courses, e.courseId);
      DropTargets(enrs[..|enrs| - 1], courses, sid, ay, year, sem)
        + (if e.studentId == sid && e.ay == ay && e.status == "Enrolled" && c.Some? && c.value.yearLevel == year && c.value.semester == sem
           then [e.courseId] else [])
  }

  /** One decrement per target, each floored at 0. */
  function LoweredAll(scheds: seq<Schedule>, cids: seq<int>): (r: seq<Schedule>)
    ensures |r| == |scheds|
    decreases |cids|
  {
    if cids == [] then scheds else Lowered(LoweredAll(scheds, cids[..|cids| - 1]), cids[|cids| - 1])
  }

  /** One delete per target, each by student and curriculum id only. */
  function WithoutAll(enrs: seq<Enrollment>, sid: int, cids: seq<int>): seq<Enrollment>
    decreases |cids|
  {
    if cids == [] then enrs else Without(WithoutAll(enrs, sid, cids[..|cids| - 1]), sid, cids[|cids| - 1])
  }

  function Occurrences(cids: seq<int>, cid: int): nat
    decreases |cids|
  {
    if cids == [] then 0 else Occurrences(cids[..|cids| - 1], cid) + (if cids[|cids| - 1] == cid then 1 else 0)
  }

  function FlooredCount(n: int): int {
    if n > 0 then n else 0
  }

  /** A schedule row loses one seat per occurrence of its course among the
      targets, and its count never drops below 0. */
  lemma {:induction false} LoweredAllCounts(scheds: seq<Schedule>, cids: seq<int>)
    requires forall s :: s in scheds ==> s.enrolledCount >= 0
    ensures forall i :: 0 <= i < |scheds| ==>
      LoweredAll(scheds, cids)[i] == scheds[i].(enrolledCount := FlooredCount(scheds[i].enrolledCount - Occurrences(cids, scheds[i].courseId)))
    decreases |cids|
  {
    if cids != [] {
      var init := cids[..|cids| - 1];
      LoweredAllCounts(scheds, init);
      forall i | 0 <= i < |scheds|
        ensures LoweredAll(scheds, cids)[i]
          == scheds[i].(enrolledCount := FlooredCount(scheds[i].enrolledCount - Occurrences(cids, scheds[i].courseId)))
      {
        var k := Occurrences(init, scheds[i].courseId);
        var prev := LoweredAll(scheds, init);
        assert prev[i] == scheds[i].(enrolledCount := FlooredCount(scheds[i].enrolledCount - k));
        assert LoweredAll(scheds, cids) == Lowered(prev, cids[|cids| - 1]);
        assert Occurrences(cids, scheds[i].courseId) == k + (if cids[|cids| - 1] == scheds[i].courseId then 1 else 0);
      }
    }
  }

  /** The deletes keep exactly the rows that are not the student's records
      of a target course. */
  lemma {:induction false} WithoutAllSpec(enrs: seq<Enrollment>, sid: int, cids: seq<int>)
    ensures forall e :: e in WithoutAll(enrs, sid, cids) <==> e in enrs && !(e.studentId == sid && e.courseId in cids)
    decreases |cids|
  {
    if cids != [] {
      var init := cids[..|cids| - 1];
      WithoutAllSpec(enrs, sid, init);
      WithoutSpec(WithoutAll(enrs, sid, init), sid, cids[|cids| - 1]);
      assert cids == init + [cids[|cids| - 1]];
    }
  }

  function DropAllAction(db: Rows, courses: seq<Course>, sid: int, year: int, sem: int, ay: string): (string, Rows) {
    if !(year > 0 && sem > 0 && ay != "" && ay != "0") then ("Invalid term selected for Drop All.", db)
    else
      var cids := DropTargets(db.enrollments, courses, sid, ay, year, sem);
      if cids == [] then ("No enrolled courses found to drop for this term.", db)
      else ("Successfully dropped all " + IntToString(|cids|) + " courses.",
            Rows(WithoutAll(db.enrollments, sid, cids), LoweredAll(db.schedules, cids), db.statuses))
  }

  /** After a drop-all every record the student has of a dropped course is
      gone, including records of other academic years, since the deletes
      match on student and curriculum id only; every other row stays. */
  lemma DropAllRule(db: Rows, courses: seq<Course>, sid: int, year: int, sem: int, ay: string)
    ensures var after := DropAllAction(db, courses, sid, year, sem, ay).1;
      var cids := DropTargets(db.enrollments, courses, sid, ay, year, sem);
      (year > 0 && sem > 0 && ay != "" && ay != "0") ==>
        forall e :: e in after.enrollments <==> e in db.enrollments && !(e.studentId == sid && e.courseId in cids)
  {
    WithoutAllSpec(db.enrollments, sid, DropTargets(db.enrollments, courses, sid, ay, year, sem));
  }

  // ---------------------------------------------------------------
  // The tables as the handlers change them
  // ---------------------------------------------------------------

  class Registrar {
    var enrollments: seq<Enrollment>
    var schedules: seq<Schedule>
    var statuses: seq<SemesterStatus>

    function Snapshot(): Rows
      reads this
    {
      Rows(enrollments, schedules, statuses)
    }

    constructor (db: Rows)
      ensures Snapshot() == db
    {
      enrollments := db.enrollments;
      schedules := db.schedules;
      statuses := db.statuses;
    }

    /** The checks of the enroll action, in order. */
    method Decide(courses: seq<Course>, sid: int, year: int, cid: int, ay: string) returns (v: Verdict)
      ensures v == Admission(Snapshot(), courses, sid, year, cid, ay)
    {
      if Holds(enrollments, sid, cid) {
        return Refuse(AlreadyEnrolled);
      }
      var c := FindCourse(courses, cid);
      if c.Some? && c.value.yearLevel > year {
        return Refuse(BelowYearLevel(c.value.code, c.value.yearLevel, year));
      }
      if c.Some? && HasPrerequisite(c.value) {
        var pre := FirstRecord(enrollments, sid, c.value.prerequisite.value);
        if !PassedRecord(pre) {
          return Refuse(MissingPrerequisite(CodeOf(courses, c.value.prerequisite.value), c.value.code));
        }
      }
      var news := SchedulesOf(schedules, cid);
      var full := FindFull(news);
      if full.Some? {
        return Refuse(Full(full.value.enrolledCount, full.value.capacity));
      }
      var clash := FindClash(news, CurrentSlots(Snapshot(), courses, sid, ay, c));
      if clash.Some? {
        return Refuse(Conflict(clash.value));
      }
      return Admit;
    }

    /** The enroll action. */
    method Enroll(courses: seq<Course>, sid: int, year: int, cid: int, ay: string, now: int) returns (v: Verdict, message: string)
      modifies this
      ensures (v, Snapshot()) == EnrollAction(old(Snapshot()), courses, sid, year, cid, ay, now)
      ensures message == Message(v)
    {
      v := Decide(courses, sid, year, cid, ay);
      if v == Admit {
        var c := FindCourse(courses, cid);
        var yl := if c.Some? then c.value.yearLevel else 0;
        var sem := if c.Some? then c.value.semester else 0;
        enrollments := enrollments + [NewEnrollment(sid, cid, ay, now)];
        schedules := Bumped(schedules, cid);
        statuses := InProgress(statuses, sid, yl, Term(ay, sem));
      }
      message := Message(v);
    }

    /** The drop action. */
    method Drop(sid: int, cid: int) returns (message: string)
      modifies this
      ensures Snapshot() == DropAction(old(Snapshot()), sid, cid)
      ensures message == "Course dropped successfully."
    {
      schedules := Lowered(schedules, cid);
      enrollments := Without(enrollments, sid, cid);
      message := "Course dropped successfully.";
    }

    /** The batch's checks of one course. */
    method CheckCourse(courses: seq<Course>, sid: int, ay: string, ac: Course) returns (why: Option<string>)
      ensures why == BatchVerdict(Snapshot(), courses, sid, ay, ac)
    {
      if HasPrerequisite(ac) && !PassedRecord(FirstRecord(enrollments, sid, ac.prerequisite.value)) {
        return Some("Prereq missing");
      }
      var news := SchedulesOf(schedules, ac.id);
      var full := FindFull(news);
      if full.Some? {
        return Some("Full");
      }
      var clash := FindClash(news, TermSlots(enrollments, schedules, courses, sid, ay, ac.semester));
      if clash.Some? {
        return Some("Conflict");
      }
      return None;
    }

    /** One course of the batch: the checks, then the writes or the
        failure count and reason. */
    method BatchCourse(courses: seq<Course>, sid: int, ay: string, year: int, sem: int, now: int, ac: Course,
                       enrolled0: int, failed0: int, reasons0: seq<string>)
      returns (enrolled: int, failed: int, reasons: seq<string>)
      modifies this
      ensures Batch(Snapshot(), enrolled, failed, reasons)
        == BatchStep(Batch(old(Snapshot()), enrolled0, failed0, reasons0), courses, sid, ay, year, sem, now, ac)
    {
      enrolled, failed, reasons := enrolled0, failed0, reasons0;
      var why := CheckCourse(courses, sid, ay, ac);
      if why.None? {
        enrollments := enrollments + [NewEnrollment(sid, ac.id, ay, now)];
        schedules := Bumped(schedules, ac.id);
        statuses := InProgress(statuses, sid, year, Term(ay, sem));
        enrolled := enrolled + 1;
      } else {
        failed := failed + 1;
        reasons := reasons + [ac.code + " (" + why.value + ")"];
      }
    }

    /** The enroll_all action. */
    method EnrollAll(courses: seq<Course>, sid: int, ay: string, year: int, sem: int, program: int, now: int)
      returns (enrolled: int, failed: int, reasons: seq<string>, message: string)
      modifies this
      ensures (Batch(Snapshot(), enrolled, failed, reasons), message)
        == EnrollAllAction(old(Snapshot()), courses, sid, ay, year, sem, program, now)
    {
      if !(year > 0 && sem > 0 && program > 0) {
        return 0, 0, [], "Invalid parameters for batch enrollment.";
      }
      var avail := Available(courses, enrollments, sid, program, year, sem);
      ghost var start := Snapshot();
      enrolled, failed, reasons := 0, 0, [];
      var i := 0;
      while i < |avail|
        invariant 0 <= i <= |avail|
        invariant Batch(Snapshot(), enrolled, failed, reasons)
          == RunBatch(Batch(start, 0, 0, []), courses, sid, ay, year, sem, now, avail[..i])
      {
        enrolled, failed, reasons := BatchCourse(courses, sid, ay, year, sem, now, avail[i], enrolled, failed, reasons);
        RunBatchSnoc(Batch(start, 0, 0, []), courses, sid, ay, year, sem, now, avail, i);
        i := i + 1;
      }
      assert avail[..|avail|] == avail;
      message := BatchMessage(enrolled, failed, reasons);
    }

    /** The drop_all action: one decrement per target, then one delete per
      target. */
    method DropAll(courses: seq<Course>, sid: int, year: int, sem: int, ay: string) returns (message: string)
      modifies this
      ensures (message, Snapshot()) == DropAllAction(old(Snapshot()), courses, sid, year, sem, ay)
    {
      if !(year > 0 && sem > 0 && ay != "" && ay != "0") {
        return "Invalid term selected for Drop All.";
      }
      var cids := DropTargets(enrollments, courses, sid, ay, year, sem);
      if cids == [] {
        return "No enrolled courses found to drop for this term.";
      }
      var i := 0;
      while i < |cids|
        invariant 0 <= i <= |cids|
        invariant schedules == LoweredAll(old(schedules), cids[..i])
        invariant enrollments == old(enrollments) && statuses == old(statuses)
      {
        schedules := Lowered(schedules, cids[i]);
        assert cids[..i + 1][..i] == cids[..i];
        i := i + 1;
      }
      assert cids[..|cids|] == cids;
      var dropCount := 0;
      i := 0;
      while i < |cids|
        invariant 0 <= i <= |cids| && dropCount == i
        invariant enrollments == WithoutAll(old(enrollments), sid, cids[..i])
        invariant schedules == LoweredAll(old(schedules), cids) && statuses == old(statuses)
      {
        enrollments := Without(enrollments, sid, cids[i]);
        dropCount := dropCount + 1;
        assert cids[..i + 1][..i] == cids[..i];
        i := i + 1;
      }
      message := "Successfully dropped all " + IntToString(dropCount) + " courses.";
    }
  }
}
