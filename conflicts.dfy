/** The student conflict endpoint: the meetings of the student's Enrolled
    courses in an academic year, ordered by day and start time, and every
    pair of them that overlaps. */
module ConflictCheck {
  import opened Common
  import opened Tables
  import opened Timetable
  import Academics
  import Enrollment

  /** A row of the endpoint's query: one meeting with its course code. */
  datatype Row = Row(code: string, slot: Slot)

  /** One reported clash: the day, each course code, and each meeting's
      'start-end' span. */
  datatype Entry = Entry(day: string, s1: string, t1: string, s2: string, t2: string)

  /** The JSON answer: the missing-parameter error or the conflict list. */
  datatype Response = MissingParams | Listed(conflicts: seq<Entry>)

  function RowsOf(c: Course, ss: seq<Enrollment.Schedule>): (r: seq<Row>)
    ensures |r| == |ss| && forall k :: 0 <= k < |ss| ==> r[k] == Row(c.code, ss[k].slot)
  {
    seq(|ss|, k requires 0 <= k < |ss| => Row(c.code, ss[k].slot))
  }

  /** The three-way join before ORDER BY: each Enrolled enrollments row of
      the student and the academic year whose course exists, with each of
      its course's meetings. */
  function Joined(enrs: seq<Tables.Enrollment>, scheds: seq<Enrollment.Schedule>, courses: seq<Course>, sid: int, ay: string): seq<Row>
    decreases |enrs|
  {
    if enrs == [] then []
    else
      var e := enrs[|enrs| - 1];
      var c := FindCourse(courses, e.courseId);
      Joined(enrs[..|enrs| - 1], scheds, courses, sid, ay)
        + (if e.studentId == sid && e.ay == ay && e.status == "Enrolled" && c.Some?
           then RowsOf(c.value, Enrollment.SchedulesOf(scheds, e.courseId)) else [])
  }

  /** ORDER BY s.day_of_week, s.start_time. */
  predicate RowBefore(a: Row, b: Row) {
    StrLess(a.slot.day, b.slot.day) || (a.slot.day == b.slot.day && StrLess(a.slot.start, b.slot.start))
  }

  lemma RowBeforeIsStrictWeakOrder()
    ensures Academics.StrictWeakOrder(RowBefore)
  {
    forall a: Row, b: Row | RowBefore(a, b) ensures !RowBefore(b, a) {
      if StrLess(a.slot.day, b.slot.day) {
        StrLessAsymmetric(a.slot.day, b.slot.day);
      } else {
        StrLessAsymmetric(a.slot.start, b.slot.start);
      }
    }
    forall a: Row, b: Row, c: Row | !RowBefore(a, b) && !RowBefore(b, c) ensures !RowBefore(a, c) {
      StrNotLessTransitive(a.slot.day, b.slot.day, c.slot.day);
      if a.slot.day == c.slot.day {
        if a.slot.day != b.slot.day {
          StrLessTotal(a.slot.day, b.slot.day);
        }
        StrNotLessTransitive(a.slot.start, b.slot.start, c.slot.start);
      }
    }
  }

  /** The query result: the joined rows in day and start order (rows the
      order does not separate keep their join order). */
  function Fetched(db: Enrollment.Rows, courses: seq<Course>, sid: int, ay: string): seq<Row> {
    Academics.SortBy(Joined(db.enrollments, db.schedules, courses, sid, ay), RowBefore)
  }

  /** The fetched rows are the joined rows, each as often, sorted by day
      and then start time. */
  lemma FetchedRows(db: Enrollment.Rows, courses: seq<Course>, sid: int, ay: string)
    ensures multiset(Fetched(db, courses, sid, ay)) == multiset(Joined(db.enrollments, db.schedules, courses, sid, ay))
    ensures forall i, j :: 0 <= i < j < |Fetched(db, courses, sid, ay)| ==>
      !RowBefore(Fetched(db, courses, sid, ay)[j], Fetched(db, courses, sid, ay)[i])
  {
    RowBeforeIsStrictWeakOrder();
    Academics.SortBySorted(Joined(db.enrollments, db.schedules, courses, sid, ay), RowBefore);
  }

  /** isOverlap: the slot clash test, applied to every pair of rows,
      including two rows of the same course. */
  predicate IsOverlap(a: Row, b: Row) {
    Clash(a.slot, b.slot)
  }

  function EntryOf(a: Row, b: Row): Entry {
    Entry(a.slot.day, a.code, a.slot.start + "-" + a.slot.end, b.code, b.slot.start + "-" + b.slot.end)
  }

  /** The endpoint: an error when the student id or the academic year is
      missing, else one entry per overlapping pair i < j of fetched rows. */
  function Respond(sid: Option<int>, ay: Option<string>, db: Enrollment.Rows, courses: seq<Course>): Response {
    if sid.None? || ay.None? then MissingParams
    else
      var rows := Fetched(db, courses, sid.value, ay.value);
      Listed(Reported(rows, EntryOf, Hits(rows, IsOverlap)))
  }

  method CheckStudentConflicts(sid: Option<int>, ay: Option<string>, db: Enrollment.Rows, courses: seq<Course>)
    returns (r: Response)
    ensures r == Respond(sid, ay, db, courses)
  {
    if sid.None? || ay.None? {
      return MissingParams;
    }
    var rows := Fetched(db, courses, sid.value, ay.value);
    var conflicts := ScanPairs(rows, IsOverlap, EntryOf);
    r := Listed(conflicts);
  }

  /** `es` holds an entry exactly for each overlapping pair i < j of `rows`. */
  ghost predicate ListsOverlaps(es: seq<Entry>, rows: seq<Row>) {
    forall x :: x in es <==>
      exists i, j :: 0 <= i < j < |rows| && Clash(rows[i].slot, rows[j].slot) && x == EntryOf(rows[i], rows[j])
  }

  /** A missing parameter gives the error and nothing else; otherwise the
      list holds an entry exactly for each overlapping pair i < j, at most
      n(n-1)/2 of them for n rows. */
  lemma ResponseRule(sid: Option<int>, ay: Option<string>, db: Enrollment.Rows, courses: seq<Course>)
    ensures Respond(sid, ay, db, courses).MissingParams? <==> sid.None? || ay.None?
    ensures sid.Some? && ay.Some? ==>
      ListsOverlaps(Respond(sid, ay, db, courses).conflicts, Fetched(db, courses, sid.value, ay.value))
    ensures sid.Some? && ay.Some? ==>
      2 * |Respond(sid, ay, db, courses).conflicts| <= |Fetched(db, courses, sid.value, ay.value)| * (|Fetched(db, courses, sid.value, ay.value)| - 1)
  {
    if sid.Some? && ay.Some? {
      var rows := Fetched(db, courses, sid.value, ay.value);
      assert Respond(sid, ay, db, courses).conflicts == Reported(rows, EntryOf, Hits(rows, IsOverlap));
      OverlapsListed(rows);
      OverlapsCounted(rows);
    }
  }

  lemma OverlapsListed(rows: seq<Row>)
    ensures ListsOverlaps(Reported(rows, EntryOf, Hits(rows, IsOverlap)), rows)
  {
    ReportedSpec(rows, IsOverlap, EntryOf);
  }

  lemma OverlapsCounted(rows: seq<Row>)
    ensures 2 * |Reported(rows, EntryOf, Hits(rows, IsOverlap))| <= |rows| * (|rows| - 1)
  {
    HitsLength(rows, IsOverlap, |rows|);
    assert |rows| * (2 * |rows| - 1 - |rows|) == |rows| * (|rows| - 1);
  }

  /** Two rows of one course that overlap are reported against each other:
      the endpoint does not skip same-course pairs. */
  lemma SameCourseReported()
    ensures var a := Row("CS101", Slot("Mon", "08:00:00", "10:00:00"));
      Hits([a, a], IsOverlap) == [(0, 1)]
  {
    var a := Row("CS101", Slot("Mon", "08:00:00", "10:00:00"));
    assert StrLess(a.slot.start, a.slot.end);
    assert HitsAfter([a, a], IsOverlap, 0, 2) == [(0, 1)];
    assert HitsAfter([a, a], IsOverlap, 1, 2) == [];
    assert HitsBefore([a, a], IsOverlap, 1) == [(0, 1)];
  }
}
