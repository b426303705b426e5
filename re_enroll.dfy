/** The enroll-student page: the academic year it proposes, the
    all-or-nothing confirmation that replaces the student's enrollments of
    an academic year with the submitted courses, and the report of full
    meetings and clashes that decides whether the confirm button is
    offered. */
module ReEnroll {
  import opened Common
  import opened Tables
  import opened Timetable
  import opened AcademicYear
  import Academics
  import Enrollment

  /** The students row the page works from. */
  datatype Student = Student(programId: int, yearLevel: int, semester: int)

  // ---------------------------------------------------------------
  // The proposed academic year
  // ---------------------------------------------------------------

  /** A row of the history query: an enrollment's academic year and its
      course's year level. */
  datatype Stamp = Stamp(ay: string, yearLevel: int)

  /** The student's enrollments joined with their curriculum rows (an
      enrollment whose course is missing drops out of the join). */
  function HistoryOf(enrs: seq<Tables.Enrollment>, courses: seq<Course>, sid: int): seq<Stamp>
    decreases |enrs|
  {
    if enrs == [] then []
    else
      var e := enrs[|enrs| - 1];
      var c := FindCourse(courses, e.courseId);
      HistoryOf(enrs[..|enrs| - 1], courses, sid)
        + (if e.studentId == sid && c.Some? then [Stamp(e.ay, c.value.yearLevel)] else [])
  }

  /** ORDER BY academic_year DESC, year_level DESC: `a` comes first. */
  predicate Above(a: Stamp, b: Stamp) {
    StrLess(b.ay, a.ay) || (a.ay == b.ay && a.yearLevel > b.yearLevel)
  }

  lemma AboveTransitive(a: Stamp, b: Stamp, c: Stamp)
    requires Above(a, b) && Above(b, c)
    ensures Above(a, c)
  {
    if StrLess(b.ay, a.ay) && StrLess(c.ay, b.ay) {
      StrLessTransitive(c.ay, b.ay, a.ay);
    }
  }

  /** LIMIT 1: the first row in that order. */
  function Latest(h: seq<Stamp>): Option<Stamp>
    decreases |h|
  {
    if h == [] then None
    else
      var best := Latest(h[..|h| - 1]);
      var x := h[|h| - 1];
      if best.None? || Above(x, best.value) then Some(x) else best
  }

  /** There is a latest stamp exactly when there is history, it is one of
      the stamps, and no stamp comes before it. */
  lemma {:induction false} LatestSpec(h: seq<Stamp>)
    ensures Latest(h).Some? <==> h != []
    ensures Latest(h).Some? ==> Latest(h).value in h && forall x :: x in h ==> !Above(x, Latest(h).value)
    decreases |h|
  {
    if h != [] {
      var init := h[..|h| - 1];
      var x := h[|h| - 1];
      LatestSpec(init);
      assert h == init + [x];
      StrLessIrreflexive(x.ay);
      var best := Latest(init);
      if best.Some? && Above(x, best.value) {
        forall y | y in init ensures !Above(y, x) {
          if Above(y, x) {
            AboveTransitive(y, x, best.value);
          }
        }
      }
    }
  }

  /** The current_academic_year setting, or 'Y-(Y+1)' for the calendar
      year when it is unset. */
  function SystemAY(setting: Option<string>, currentYear: nat): string {
    if setting.Some? then setting.value else NatToString(currentYear) + "-" + NatToString(currentYear + 1)
  }

  function ProposedAY(setting: Option<string>, currentYear: nat, st: Student, h: seq<Stamp>): string {
    var base := SystemAY(setting, currentYear);
    var l := Latest(h);
    if l.Some? && st.yearLevel > l.value.yearLevel then AdvanceYears(base, st.yearLevel - l.value.yearLevel, currentYear)
    else base
  }

  /** The `for` loop that moves the system year forward once per year
      level of difference. */
  method ProposeAY(setting: Option<string>, currentYear: nat, st: Student, h: seq<Stamp>) returns (ay: string)
    ensures ay == ProposedAY(setting, currentYear, st, h)
  {
    var base := SystemAY(setting, currentYear);
    ay := base;
    var l := Latest(h);
    if l.Some? && st.yearLevel > l.value.yearLevel {
      var diff := st.yearLevel - l.value.yearLevel;
      var i := 0;
      while i < diff
        invariant 0 <= i <= diff
        invariant AdvanceYears(ay, diff - i, currentYear) == AdvanceYears(base, diff, currentYear)
      {
        ay := NextAcademicYear(ay, currentYear);
        i := i + 1;
      }
    }
  }

  /** The proposal is the system year unless the student's year level is
      above that of the latest enrollment. */
  lemma ProposedAYDefaults(setting: Option<string>, currentYear: nat, st: Student, h: seq<Stamp>)
    ensures h == [] ==> ProposedAY(setting, currentYear, st, h) == SystemAY(setting, currentYear)
    ensures (forall x :: x in h ==> st.yearLevel <= x.yearLevel) ==> ProposedAY(setting, currentYear, st, h) == SystemAY(setting, currentYear)
  {
    LatestSpec(h);
  }

  /** Above it, a well-formed system year moves forward by exactly the
      difference. */
  lemma ProposedAYAdvances(setting: Option<string>, currentYear: nat, st: Student, h: seq<Stamp>)
    requires Latest(h).Some? && st.yearLevel > Latest(h).value.yearLevel
    requires ParseAY(SystemAY(setting, currentYear)).Some?
    requires 999 <= ParseAY(SystemAY(setting, currentYear)).value.first
    requires ParseAY(SystemAY(setting, currentYear)).value.second + (st.yearLevel - Latest(h).value.yearLevel) <= 9999
    requires ParseAY(SystemAY(setting, currentYear)).value.first <= ParseAY(SystemAY(setting, currentYear)).value.second
    ensures ParseAY(ProposedAY(setting, currentYear, st, h))
      == Some(YearPair(ParseAY(SystemAY(setting, currentYear)).value.first + (st.yearLevel - Latest(h).value.yearLevel),
                       ParseAY(SystemAY(setting, currentYear)).value.second + (st.yearLevel - Latest(h).value.yearLevel)))
  {
    var base, d := SystemAY(setting, currentYear), st.yearLevel - Latest(h).value.yearLevel;
    var y := ParseAY(base).value;
    assert d > 0 && y.first + d <= 9999 && 999 <= y.second;
    AdvanceYearsAdds(base, d, currentYear);
    assert ParseAY(AdvanceYears(base, d, currentYear)) == Some(YearPair(y.first + d, y.second + d));
    ProposedAYIsAdvance(setting, currentYear, st, h);
  }

  /** Above the latest level, the proposal is the system year advanced
      once per level of difference. */
  lemma ProposedAYIsAdvance(setting: Option<string>, currentYear: nat, st: Student, h: seq<Stamp>)
    requires Latest(h).Some? && st.yearLevel > Latest(h).value.yearLevel
    ensures ProposedAY(setting, currentYear, st, h)
      == AdvanceYears(SystemAY(setting, currentYear), st.yearLevel - Latest(h).value.yearLevel, currentYear)
  {
  }

  // ---------------------------------------------------------------
  // Confirming the enrollment
  // ---------------------------------------------------------------

  /** SELECT count(*) ... WHERE curriculum_id = ? AND enrolled_count >= capacity
      is above 0. */
  predicate CourseFull(scheds: seq<Enrollment.Schedule>, cid: int) {
    exists s :: s in scheds && s.courseId == cid && Enrollment.IsFull(s)
  }

  predicate AnyFull(scheds: seq<Enrollment.Schedule>, cids: seq<int>) {
    exists k :: 0 <= k < |cids| && CourseFull(scheds, cids[k])
  }

  /** The capacity foreach, which throws at the first full course. */
  method CheckCapacity(scheds: seq<Enrollment.Schedule>, cids: seq<int>) returns (full: bool)
    ensures full <==> AnyFull(scheds, cids)
  {
    var k := 0;
    while k < |cids|
      invariant 0 <= k <= |cids|
      invariant forall m :: 0 <= m < k ==> !CourseFull(scheds, cids[m])
    {
      var j := 0;
      var count := 0;
      while j < |scheds|
        invariant 0 <= j <= |scheds|
        invariant count == 0 <==> forall t :: 0 <= t < j ==> !(scheds[t].courseId == cids[k] && Enrollment.IsFull(scheds[t]))
      {
        if scheds[j].courseId == cids[k] && Enrollment.IsFull(scheds[j]) {
          count := count + 1;
        }
        j := j + 1;
      }
      if count > 0 {
        return true;
      }
      k := k + 1;
    }
    return false;
  }

  /** SELECT curriculum_id FROM enrollments WHERE student_id = ? AND
      academic_year = ?: every semester of the year. */
  function ExistingIds(enrs: seq<Tables.Enrollment>, sid: int, ay: string): seq<int>
    decreases |enrs|
  {
    if enrs == [] then []
    else
      var e := enrs[|enrs| - 1];
      ExistingIds(enrs[..|enrs| - 1], sid, ay) + (if e.studentId == sid && e.ay == ay then [e.courseId] else [])
  }

  predicate OfYear(e: Tables.Enrollment, sid: int, ay: string) {
    e.studentId == sid && e.ay == ay
  }

  /** The student's rows of the academic year, in table order. */
  function YearRows(enrs: seq<Tables.Enrollment>, sid: int, ay: string): seq<Tables.Enrollment>
    decreases |enrs|
  {
    if enrs == [] then []
    else YearRows(enrs[..|enrs| - 1], sid, ay) + (if OfYear(enrs[|enrs| - 1], sid, ay) then [enrs[|enrs| - 1]] else [])
  }

  /** DELETE FROM enrollments WHERE student_id = ? AND academic_year = ?. */
  function WithoutYear(enrs: seq<Tables.Enrollment>, sid: int, ay: string): seq<Tables.Enrollment>
    decreases |enrs|
  {
    if enrs == [] then []
    else WithoutYear(enrs[..|enrs| - 1], sid, ay) + (if OfYear(enrs[|enrs| - 1], sid, ay) then [] else [enrs[|enrs| - 1]])
  }

  /** The single UPDATE ... GREATEST(0, enrolled_count - 1) WHERE
      curriculum_id IN (...): a row matching the list loses one seat
      however often its course is listed. */
  function LoweredIn(scheds: seq<Enrollment.Schedule>, ids: seq<int>): (r: seq<Enrollment.Schedule>)
    ensures |r| == |scheds|
  {
    seq(|scheds|, i requires 0 <= i < |scheds| =>
      if scheds[i].courseId in ids then scheds[i].(enrolledCount := Enrollment.FlooredCount(scheds[i].enrolledCount - 1))
      else scheds[i])
  }

  /** The inserted rows, one per submitted course, in submission order. */
  function NewRows(sid: int, cids: seq<int>, ay: string, now: int): (r: seq<Tables.Enrollment>)
    ensures |r| == |cids|
  {
    seq(|cids|, k requires 0 <= k < |cids| => Enrollment.NewEnrollment(sid, cids[k], ay, now))
  }

  lemma NewRowsSnoc(sid: int, cids: seq<int>, k: int, ay: string, now: int)
    requires 0 <= k < |cids|
    ensures NewRows(sid, cids[..k + 1], ay, now) == NewRows(sid, cids[..k], ay, now) + [Enrollment.NewEnrollment(sid, cids[k], ay, now)]
  {
  }

  /** One increment per submitted course. */
  function BumpedAll(scheds: seq<Enrollment.Schedule>, cids: seq<int>): (r: seq<Enrollment.Schedule>)
    ensures |r| == |scheds|
    decreases |cids|
  {
    if cids == [] then scheds else Enrollment.Bumped(BumpedAll(scheds, cids[..|cids| - 1]), cids[|cids| - 1])
  }

  datatype Outcome = NoCourses | RolledBack | Committed

  function OutcomeMessage(o: Outcome): string {
    match o
    case NoCourses => "No courses selected."
    case RolledBack => "Error enrolling: One of the selected courses is full."
    case Committed => "Enrollment successful!"
  }

  /** The writes of a committed confirmation. */
  function Replaced(db: Enrollment.Rows, st: Student, sid: int, ay: string, cids: seq<int>, now: int): Enrollment.Rows {
    var ids := ExistingIds(db.enrollments, sid, ay);
    var scheds := if ids != [] then LoweredIn(db.schedules, ids) else db.schedules;
    var enrs := if ids != [] then WithoutYear(db.enrollments, sid, ay) else db.enrollments;
    Enrollment.Rows(enrs + NewRows(sid, cids, ay, now), BumpedAll(scheds, cids),
                    Enrollment.InProgress(db.statuses, sid, st.yearLevel, Term(ay, st.semester)))
  }

  /** The POST handler: no course list, a full course (rolled back), or
      the replacement. */
  function Confirm(db: Enrollment.Rows, st: Student, sid: int, ay: string, submitted: Option<seq<int>>, now: int)
    : (Outcome, Enrollment.Rows)
  {
    if submitted.None? then (NoCourses, db)
    else if AnyFull(db.schedules, submitted.value) then (RolledBack, db)
    else (Committed, Replaced(db, st, sid, ay, submitted.value, now))
  }

  /** The transaction, on the page's tables. */
  method ConfirmEnrollment(reg: Enrollment.Registrar, st: Student, sid: int, ay: string, submitted: Option<seq<int>>, now: int)
    returns (outcome: Outcome, message: string)
    modifies reg
    ensures (outcome, reg.Snapshot()) == Confirm(old(reg.Snapshot()), st, sid, ay, submitted, now)
    ensures message == OutcomeMessage(outcome)
  {
    if submitted.None? {
      return NoCourses, OutcomeMessage(NoCourses);
    }
    var cids := submitted.value;
    var full := CheckCapacity(reg.schedules, cids);
    if full {
      return RolledBack, OutcomeMessage(RolledBack);
    }
    var ids := ExistingIds(reg.enrollments, sid, ay);
    if ids != [] {
      reg.schedules := LoweredIn(reg.schedules, ids);
      reg.enrollments := WithoutYear(reg.enrollments, sid, ay);
    }
    ghost var enrs := reg.enrollments;
    ghost var scheds := reg.schedules;
    var k := 0;
    while k < |cids|
      invariant 0 <= k <= |cids|
      invariant reg.enrollments == enrs + NewRows(sid, cids[..k], ay, now)
      invariant reg.schedules == BumpedAll(scheds, cids[..k])
      invariant reg.statuses == old(reg.statuses)
    {
      NewRowsSnoc(sid, cids, k, ay, now);
      reg.enrollments := reg.enrollments + [Enrollment.NewEnrollment(sid, cids[k], ay, now)];
      reg.schedules := Enrollment.Bumped(reg.schedules, cids[k]);
      assert cids[..k + 1][..k] == cids[..k];
      k := k + 1;
    }
    assert cids[..|cids|] == cids;
    reg.statuses := Enrollment.InProgress(reg.statuses, sid, st.yearLevel, Term(ay, st.semester));
    return Committed, OutcomeMessage(Committed);
  }

  lemma {:induction false} YearRowsAppend(a: seq<Tables.Enrollment>, b: seq<Tables.Enrollment>, sid: int, ay: string)
    ensures YearRows(a + b, sid, ay) == YearRows(a, sid, ay) + YearRows(b, sid, ay)
    ensures WithoutYear(a + b, sid, ay) == WithoutYear(a, sid, ay) + WithoutYear(b, sid, ay)
    decreases |b|
  {
    if b != [] {
      var b0 := b[..|b| - 1];
      assert (a + b)[..|a + b| - 1] == a + b0;
      YearRowsAppend(a, b0, sid, ay);
    } else {
      assert a + b == a;
    }
  }

  lemma {:induction false} WithoutYearSpec(enrs: seq<Tables.Enrollment>, sid: int, ay: string)
    ensures YearRows(WithoutYear(enrs, sid, ay), sid, ay) == []
    ensures WithoutYear(WithoutYear(enrs, sid, ay), sid, ay) == WithoutYear(enrs, sid, ay)
    decreases |enrs|
  {
    if enrs != [] {
      var init := enrs[..|enrs| - 1];
      var e := enrs[|enrs| - 1];
      WithoutYearSpec(init, sid, ay);
      YearRowsAppend(WithoutYear(init, sid, ay), if OfYear(e, sid, ay) then [] else [e], sid, ay);
      assert YearRows([e], sid, ay) == YearRows([], sid, ay) + (if OfYear(e, sid, ay) then [e] else []) by {
        assert [e][..0] == [];
      }
      assert WithoutYear([e], sid, ay) == WithoutYear([], sid, ay) + (if OfYear(e, sid, ay) then [] else [e]) by {
        assert [e][..0] == [];
      }
    }
  }

  lemma {:induction false} NewRowsOfYear(sid: int, cids: seq<int>, ay: string, now: int)
    ensures YearRows(NewRows(sid, cids, ay, now), sid, ay) == NewRows(sid, cids, ay, now)
    ensures WithoutYear(NewRows(sid, cids, ay, now), sid, ay) == []
    decreases |cids|
  {
    if cids != [] {
      var init := cids[..|cids| - 1];
      NewRowsOfYear(sid, init, ay, now);
      var r := NewRows(sid, cids, ay, now);
      assert r[..|r| - 1] == NewRows(sid, init, ay, now);
    }
  }

  lemma {:induction false} BumpedAllCounts(scheds: seq<Enrollment.Schedule>, cids: seq<int>)
    ensures forall i :: 0 <= i < |scheds| ==>
      BumpedAll(scheds, cids)[i] == scheds[i].(enrolledCount := scheds[i].enrolledCount + Enrollment.Occurrences(cids, scheds[i].courseId))
    decreases |cids|
  {
    if cids != [] {
      var init := cids[..|cids| - 1];
      BumpedAllCounts(scheds, init);
      forall i | 0 <= i < |scheds|
        ensures BumpedAll(scheds, cids)[i]
          == scheds[i].(enrolledCount := scheds[i].enrolledCount + Enrollment.Occurrences(cids, scheds[i].courseId))
      {
        assert BumpedAll(scheds, cids) == Enrollment.Bumped(BumpedAll(scheds, init), cids[|cids| - 1]);
      }
    }
  }

  /** Without a course list, or with a full course among the submitted
      ones, nothing is written. */
  lemma ConfirmRollsBack(db: Enrollment.Rows, st: Student, sid: int, ay: string, submitted: Option<seq<int>>, now: int)
    ensures Confirm(db, st, sid, ay, submitted, now).0 != Committed ==> Confirm(db, st, sid, ay, submitted, now).1 == db
    ensures Confirm(db, st, sid, ay, submitted, now).0 == RolledBack <==>
      submitted.Some? && (exists k, s :: 0 <= k < |submitted.value| && s in db.schedules
                           && s.courseId == submitted.value[k] && s.enrolledCount >= s.capacity)
  {
  }

  /** A commit leaves the student's rows of the academic year (of any
      semester) exactly the submitted courses, one Enrolled row each in
      submission order, and every other row as it was. */
  lemma ConfirmReplaces(db: Enrollment.Rows, st: Student, sid: int, ay: string, cids: seq<int>, now: int)
    requires !AnyFull(db.schedules, cids)
    ensures Confirm(db, st, sid, ay, Some(cids), now).0 == Committed
    ensures YearRows(Confirm(db, st, sid, ay, Some(cids), now).1.enrollments, sid, ay) == NewRows(sid, cids, ay, now)
    ensures WithoutYear(Confirm(db, st, sid, ay, Some(cids), now).1.enrollments, sid, ay) == WithoutYear(db.enrollments, sid, ay)
  {
    CommittedEnrollments(db, st, sid, ay, cids, now);
    ReplacedYearRows(db.enrollments, sid, ay, cids, now);
    ReplacedOtherRows(db.enrollments, sid, ay, cids, now);
  }

  /** After the delete and the inserts, the year's rows are the new ones. */
  lemma ReplacedYearRows(enrs: seq<Tables.Enrollment>, sid: int, ay: string, cids: seq<int>, now: int)
    ensures YearRows(WithoutYear(enrs, sid, ay) + NewRows(sid, cids, ay, now), sid, ay) == NewRows(sid, cids, ay, now)
  {
    var w, news := WithoutYear(enrs, sid, ay), NewRows(sid, cids, ay, now);
    YearRowsAppend(w, news, sid, ay);
    NewRowsOfYear(sid, cids, ay, now);
    WithoutYearSpec(enrs, sid, ay);
    assert [] + news == news;
  }

  /** After the delete and the inserts, the other rows are those the
      delete kept. */
  lemma ReplacedOtherRows(enrs: seq<Tables.Enrollment>, sid: int, ay: string, cids: seq<int>, now: int)
    ensures WithoutYear(WithoutYear(enrs, sid, ay) + NewRows(sid, cids, ay, now), sid, ay) == WithoutYear(enrs, sid, ay)
  {
    var w, news := WithoutYear(enrs, sid, ay), NewRows(sid, cids, ay, now);
    YearRowsAppend(w, news, sid, ay);
    NewRowsOfYear(sid, cids, ay, now);
    WithoutYearSpec(enrs, sid, ay);
    assert w + [] == w;
  }

  /** Whether or not the year had rows, the committed enrollments are the
      other years' rows followed by the new ones. */
  lemma CommittedEnrollments(db: Enrollment.Rows, st: Student, sid: int, ay: string, cids: seq<int>, now: int)
    ensures Replaced(db, st, sid, ay, cids, now).enrollments == WithoutYear(db.enrollments, sid, ay) + NewRows(sid, cids, ay, now)
  {
    if ExistingIds(db.enrollments, sid, ay) == [] {
      ExistingIdsEmpty(db.enrollments, sid, ay);
    }
  }

  /** With no rows of the year the delete has nothing to remove. */
  lemma {:induction false} ExistingIdsEmpty(enrs: seq<Tables.Enrollment>, sid: int, ay: string)
    requires ExistingIds(enrs, sid, ay) == []
    ensures WithoutYear(enrs, sid, ay) == enrs
    decreases |enrs|
  {
    if enrs != [] {
      ExistingIdsEmpty(enrs[..|enrs| - 1], sid, ay);
      assert enrs == enrs[..|enrs| - 1] + [enrs[|enrs| - 1]];
    }
  }

  lemma {:induction false} ExistingIdsSpec(enrs: seq<Tables.Enrollment>, sid: int, ay: string)
    ensures forall cid :: cid in ExistingIds(enrs, sid, ay) <==> exists e :: e in enrs && OfYear(e, sid, ay) && e.courseId == cid
    decreases |enrs|
  {
    if enrs != [] {
      ExistingIdsSpec(enrs[..|enrs| - 1], sid, ay);
      assert enrs == enrs[..|enrs| - 1] + [enrs[|enrs| - 1]];
    }
  }

  /** On a commit each meeting first loses one seat (floored at 0) if the
      student had its course in the academic year, then gains one seat per
      submission of its course. */
  lemma ConfirmCounts(db: Enrollment.Rows, st: Student, sid: int, ay: string, cids: seq<int>, now: int)
    requires !AnyFull(db.schedules, cids)
    ensures forall i :: 0 <= i < |db.schedules| ==>
      Confirm(db, st, sid, ay, Some(cids), now).1.schedules[i]
        == db.schedules[i].(enrolledCount :=
             (if exists e :: e in db.enrollments && OfYear(e, sid, ay) && e.courseId == db.schedules[i].courseId
              then Enrollment.FlooredCount(db.schedules[i].enrolledCount - 1)
              else db.schedules[i].enrolledCount)
             + Enrollment.Occurrences(cids, db.schedules[i].courseId))
  {
    var ids := ExistingIds(db.enrollments, sid, ay);
    var scheds := if ids != [] then LoweredIn(db.schedules, ids) else db.schedules;
    ExistingIdsSpec(db.enrollments, sid, ay);
    BumpedAllCounts(scheds, cids);
    var after := Confirm(db, st, sid, ay, Some(cids), now).1.schedules;
    assert after == BumpedAll(scheds, cids);
    forall i | 0 <= i < |db.schedules|
      ensures after[i] == db.schedules[i].(enrolledCount :=
             (if exists e :: e in db.enrollments && OfYear(e, sid, ay) && e.courseId == db.schedules[i].courseId
              then Enrollment.FlooredCount(db.schedules[i].enrolledCount - 1)
              else db.schedules[i].enrolledCount)
             + Enrollment.Occurrences(cids, db.schedules[i].courseId))
    {
      var cid := db.schedules[i].courseId;
      assert cid in ids <==> exists e :: e in db.enrollments && OfYear(e, sid, ay) && e.courseId == cid;
      assert scheds[i] == (if cid in ids then db.schedules[i].(enrolledCount := Enrollment.FlooredCount(db.schedules[i].enrolledCount - 1)) else db.schedules[i]);
    }
  }

  // ---------------------------------------------------------------
  // The page's report and the confirm button
  // ---------------------------------------------------------------

  /** The curriculum rows of the student's program, year level and current
      semester, in table order. */
  function Shown(courses: seq<Course>, st: Student): seq<Course>
    decreases |courses|
  {
    if courses == [] then []
    else
      var c := courses[|courses| - 1];
      Shown(courses[..|courses| - 1], st)
        + (if c.programId == st.programId && c.yearLevel == st.yearLevel && c.semester == st.semester then [c] else [])
  }

  /** checkPrerequisites for one shown course. */
  function PrereqsFor(enrs: seq<Tables.Enrollment>, table: seq<Academics.PrereqRow>, courses: seq<Course>, sid: int, c: Course)
    : Academics.PrereqCheck
  {
    Academics.PrereqCheckOf(enrs, sid, Academics.PrereqsOf(table, courses, c.id))
  }

  /** "<code>: <message>" for each shown course whose prerequisites are
      not met. */
  function PrereqIssues(enrs: seq<Tables.Enrollment>, table: seq<Academics.PrereqRow>, courses: seq<Course>, sid: int, cs: seq<Course>)
    : seq<string>
    decreases |cs|
  {
    if cs == [] then []
    else
      var c := cs[|cs| - 1];
      var r := PrereqsFor(enrs, table, courses, sid, c);
      PrereqIssues(enrs, table, courses, sid, cs[..|cs| - 1]) + (if r.canEnroll then [] else [c.code + ": " + r.message])
  }

  lemma PrereqIssuesSnoc(enrs: seq<Tables.Enrollment>, table: seq<Academics.PrereqRow>, courses: seq<Course>, sid: int,
                         cs: seq<Course>, i: nat)
    requires i < |cs|
    ensures PrereqIssues(enrs, table, courses, sid, cs[..i + 1])
      == PrereqIssues(enrs, table, courses, sid, cs[..i])
       + (if PrereqsFor(enrs, table, courses, sid, cs[i]).canEnroll then []
          else [cs[i].code + ": " + PrereqsFor(enrs, table, courses, sid, cs[i]).message])
  {
    assert cs[..i + 1][..i] == cs[..i];
  }

  /** The hidden courses[] inputs: the ids of the shown courses whose
      prerequisites are met. */
  function Enrollable(enrs: seq<Tables.Enrollment>, table: seq<Academics.PrereqRow>, courses: seq<Course>, sid: int, cs: seq<Course>)
    : seq<int>
    decreases |cs|
  {
    if cs == [] then []
    else
      var c := cs[|cs| - 1];
      Enrollable(enrs, table, courses, sid, cs[..|cs| - 1])
        + (if PrereqsFor(enrs, table, courses, sid, c).canEnroll then [c.id] else [])
  }

  /** One time block of the overlap check. */
  datatype Block = Block(code: string, slot: Slot)

  function FullNote(c: Course, s: Enrollment.Schedule): string {
    "Full: " + c.code + " (Schedule ID: " + IntToString(s.id) + ") is full ("
      + IntToString(s.enrolledCount) + "/" + IntToString(s.capacity) + ")."
  }

  function OverlapNote(a: Block, b: Block): string {
    "Conflict: " + a.code + " vs " + b.code + " on " + a.slot.day
      + " (" + a.slot.start + "-" + a.slot.end + " / " + b.slot.start + "-" + b.slot.end + ")"
  }

  /** One course's meetings: a note for each full one. */
  function CourseNotes(c: Course, ss: seq<Enrollment.Schedule>): seq<string>
    decreases |ss|
  {
    if ss == [] then []
    else
      var s := ss[|ss| - 1];
      CourseNotes(c, ss[..|ss| - 1]) + (if Enrollment.IsFull(s) then [FullNote(c, s)] else [])
  }

  /** One course's meetings as blocks. */
  function CourseBlocks(c: Course, ss: seq<Enrollment.Schedule>): (r: seq<Block>)
    ensures |r| == |ss|
  {
    seq(|ss|, k requires 0 <= k < |ss| => Block(c.code, ss[k].slot))
  }

  lemma ScanCourseSnoc(c: Course, ss: seq<Enrollment.Schedule>, k: nat)
    requires k < |ss|
    ensures CourseNotes(c, ss[..k + 1]) == CourseNotes(c, ss[..k]) + (if Enrollment.IsFull(ss[k]) then [FullNote(c, ss[k])] else [])
    ensures CourseBlocks(c, ss[..k + 1]) == CourseBlocks(c, ss[..k]) + [Block(c.code, ss[k].slot)]
  {
    assert ss[..k + 1][..k] == ss[..k];
  }

  function FullNotes(cs: seq<Course>, scheds: seq<Enrollment.Schedule>): seq<string>
    decreases |cs|
  {
    if cs == [] then []
    else
      var c := cs[|cs| - 1];
      FullNotes(cs[..|cs| - 1], scheds) + CourseNotes(c, Enrollment.SchedulesOf(scheds, c.id))
  }

  function Blocks(cs: seq<Course>, scheds: seq<Enrollment.Schedule>): seq<Block>
    decreases |cs|
  {
    if cs == [] then []
    else
      var c := cs[|cs| - 1];
      Blocks(cs[..|cs| - 1], scheds) + CourseBlocks(c, Enrollment.SchedulesOf(scheds, c.id))
  }

  /** Only blocks of different course codes are compared. */
  predicate Collide(a: Block, b: Block) {
    a.code != b.code && Clash(a.slot, b.slot)
  }

  /** array_unique: the first occurrence of each string, in order. */
  function Unique(xs: seq<string>): seq<string>
    decreases |xs|
  {
    if xs == [] then []
    else
      var x := xs[|xs| - 1];
      var init := xs[..|xs| - 1];
      Unique(init) + (if x in init then [] else [x])
  }

  /** The full-meeting notes followed by one note per colliding pair of
      blocks, without repeats. */
  function Conflicts(cs: seq<Course>, scheds: seq<Enrollment.Schedule>): seq<string> {
    var bs := Blocks(cs, scheds);
    Unique(FullNotes(cs, scheds) + Reported(bs, OverlapNote, Hits(bs, Collide)))
  }

  /** What the page shows: the courses, the prerequisite issues, the
      conflicts, the courses the form submits and whether the confirm
      button is offered. */
  datatype View = View(courses: seq<Course>, issues: seq<string>, conflicts: seq<string>, submitted: seq<int>, offered: bool)

  function ViewOf(db: Enrollment.Rows, courses: seq<Course>, table: seq<Academics.PrereqRow>, st: Student, sid: int): View {
    var cs := Shown(courses, st);
    var sub := Enrollable(db.enrollments, table, courses, sid, cs);
    var conflicts := Conflicts(cs, db.schedules);
    View(cs, PrereqIssues(db.enrollments, table, courses, sid, cs), conflicts, sub, conflicts == [] && sub != [])
  }

  /** The prerequisite foreach. */
  method CheckCourses(enrs: seq<Tables.Enrollment>, table: seq<Academics.PrereqRow>, courses: seq<Course>, sid: int, cs: seq<Course>)
    returns (issues: seq<string>)
    ensures issues == PrereqIssues(enrs, table, courses, sid, cs)
  {
    issues := [];
    var i := 0;
    while i < |cs|
      invariant 0 <= i <= |cs|
      invariant issues == PrereqIssues(enrs, table, courses, sid, cs[..i])
    {
      var r := Academics.CheckPrerequisites(enrs, table, courses, sid, cs[i].id);
      assert r == PrereqsFor(enrs, table, courses, sid, cs[i]);
      PrereqIssuesSnoc(enrs, table, courses, sid, cs, i);
      if !r.canEnroll {
        issues := issues + [cs[i].code + ": " + r.message];
      }
      i := i + 1;
    }
    assert cs[..|cs|] == cs;
  }

  /** The inner foreach over one course's meetings. */
  method ScanCourse(c: Course, ss: seq<Enrollment.Schedule>) returns (notes: seq<string>, blocks: seq<Block>)
    ensures notes == CourseNotes(c, ss) && blocks == CourseBlocks(c, ss)
  {
    notes := [];
    blocks := [];
    var k := 0;
    while k < |ss|
      invariant 0 <= k <= |ss|
      invariant notes == CourseNotes(c, ss[..k]) && blocks == CourseBlocks(c, ss[..k])
    {
      ScanCourseSnoc(c, ss, k);
      if Enrollment.IsFull(ss[k]) {
        notes := notes + [FullNote(c, ss[k])];
      }
      blocks := blocks + [Block(c.code, ss[k].slot)];
      k := k + 1;
    }
    assert ss[..|ss|] == ss;
  }

  /** The outer foreach over the shown courses. */
  method CollectBlocks(cs: seq<Course>, scheds: seq<Enrollment.Schedule>) returns (notes: seq<string>, blocks: seq<Block>)
    ensures notes == FullNotes(cs, scheds) && blocks == Blocks(cs, scheds)
  {
    notes := [];
    blocks := [];
    var i := 0;
    while i < |cs|
      invariant 0 <= i <= |cs|
      invariant notes == FullNotes(cs[..i], scheds) && blocks == Blocks(cs[..i], scheds)
    {
      var n, b := ScanCourse(cs[i], Enrollment.SchedulesOf(scheds, cs[i].id));
      notes := notes + n;
      blocks := blocks + b;
      assert cs[..i + 1][..i] == cs[..i];
      i := i + 1;
    }
    assert cs[..|cs|] == cs;
  }

  /** The page's GET part. */
  method BuildView(db: Enrollment.Rows, courses: seq<Course>, table: seq<Academics.PrereqRow>, st: Student, sid: int)
    returns (v: View)
    ensures v == ViewOf(db, courses, table, st, sid)
  {
    var cs := Shown(courses, st);
    var issues := CheckCourses(db.enrollments, table, courses, sid, cs);
    var notes, blocks := CollectBlocks(cs, db.schedules);
    var overlaps := ScanPairs(blocks, Collide, OverlapNote);
    var conflicts := Unique(notes + overlaps);
    var sub := Enrollable(db.enrollments, table, courses, sid, cs);
    v := View(cs, issues, conflicts, sub, conflicts == [] && sub != []);
  }

  /** array_unique keeps every string once and nothing else. */
  lemma {:induction false} UniqueSpec(xs: seq<string>)
    ensures forall x :: x in Unique(xs) <==> x in xs
    ensures forall i, j :: 0 <= i < j < |Unique(xs)| ==> Unique(xs)[i] != Unique(xs)[j]
    decreases |xs|
  {
    if xs != [] {
      var init := xs[..|xs| - 1];
      UniqueSpec(init);
      assert xs == init + [xs[|xs| - 1]];
    }
  }

  lemma {:induction false} CourseNotesSpec(c: Course, ss: seq<Enrollment.Schedule>)
    ensures forall x :: x in CourseNotes(c, ss) <==> exists s :: s in ss && Enrollment.IsFull(s) && x == FullNote(c, s)
    decreases |ss|
  {
    if ss != [] {
      CourseNotesSpec(c, ss[..|ss| - 1]);
      assert ss == ss[..|ss| - 1] + [ss[|ss| - 1]];
    }
  }

  /** A note for exactly each full meeting of a shown course. */
  lemma {:induction false} FullNotesSpec(cs: seq<Course>, scheds: seq<Enrollment.Schedule>)
    ensures forall x :: x in FullNotes(cs, scheds) <==>
      exists c, s :: c in cs && s in scheds && s.courseId == c.id && Enrollment.IsFull(s) && x == FullNote(c, s)
    decreases |cs|
  {
    if cs != [] {
      var c := cs[|cs| - 1];
      FullNotesSpec(cs[..|cs| - 1], scheds);
      CourseNotesSpec(c, Enrollment.SchedulesOf(scheds, c.id));
      Enrollment.SchedulesOfSpec(scheds, c.id);
      assert cs == cs[..|cs| - 1] + [c];
    }
  }

  /** A block for exactly each meeting of a shown course. */
  lemma {:induction false} BlocksSpec(cs: seq<Course>, scheds: seq<Enrollment.Schedule>)
    ensures forall b :: b in Blocks(cs, scheds) <==>
      exists c, s :: c in cs && s in scheds && s.courseId == c.id && b == Block(c.code, s.slot)
    decreases |cs|
  {
    if cs != [] {
      var c := cs[|cs| - 1];
      var ss := Enrollment.SchedulesOf(scheds, c.id);
      FullNotesSpec(cs[..|cs| - 1], scheds);
      BlocksSpec(cs[..|cs| - 1], scheds);
      Enrollment.SchedulesOfSpec(scheds, c.id);
      assert cs == cs[..|cs| - 1] + [c];
      forall b ensures b in CourseBlocks(c, ss) <==> exists s :: s in ss && b == Block(c.code, s.slot) {
        if b in CourseBlocks(c, ss) {
          var k :| 0 <= k < |ss| && CourseBlocks(c, ss)[k] == b;
          assert ss[k] in ss;
        }
        if exists s :: s in ss && b == Block(c.code, s.slot) {
          var s :| s in ss && b == Block(c.code, s.slot);
          var k :| 0 <= k < |ss| && ss[k] == s;
          assert CourseBlocks(c, ss)[k] == b;
        }
      }
    }
  }

  /** The conflicts are, without repeats, exactly the notes of full
      meetings of shown courses and the notes of the pairs i < j of blocks
      of different courses on the same day that overlap strictly. */
  lemma ConflictsRule(cs: seq<Course>, scheds: seq<Enrollment.Schedule>)
    ensures forall x :: x in Conflicts(cs, scheds) <==>
      || (exists c, s :: c in cs && s in scheds && s.courseId == c.id && Enrollment.IsFull(s) && x == FullNote(c, s))
      || (exists i, j :: 0 <= i < j < |Blocks(cs, scheds)| && Collide(Blocks(cs, scheds)[i], Blocks(cs, scheds)[j])
            && x == OverlapNote(Blocks(cs, scheds)[i], Blocks(cs, scheds)[j]))
    ensures forall i, j :: 0 <= i < j < |Conflicts(cs, scheds)| ==> Conflicts(cs, scheds)[i] != Conflicts(cs, scheds)[j]
  {
    var bs := Blocks(cs, scheds);
    var all := FullNotes(cs, scheds) + Reported(bs, OverlapNote, Hits(bs, Collide));
    UniqueSpec(all);
    FullNotesSpec(cs, scheds);
    ReportedSpec(bs, Collide, OverlapNote);
  }

  /** The form submits exactly the shown courses whose prerequisites are
      met, and the button is offered exactly when there is no conflict and
      at least one such course. */
  lemma {:induction false} EnrollableSpec(enrs: seq<Tables.Enrollment>, table: seq<Academics.PrereqRow>, courses: seq<Course>, sid: int, cs: seq<Course>)
    ensures forall cid :: cid in Enrollable(enrs, table, courses, sid, cs) <==>
      exists c :: c in cs && c.id == cid && PrereqsFor(enrs, table, courses, sid, c).canEnroll
    decreases |cs|
  {
    if cs != [] {
      EnrollableSpec(enrs, table, courses, sid, cs[..|cs| - 1]);
      assert cs == cs[..|cs| - 1] + [cs[|cs| - 1]];
    }
  }

  lemma EnrollableNonEmpty(enrs: seq<Tables.Enrollment>, table: seq<Academics.PrereqRow>, courses: seq<Course>, sid: int, cs: seq<Course>)
    ensures Enrollable(enrs, table, courses, sid, cs) != [] <==>
      exists c :: c in cs && PrereqsFor(enrs, table, courses, sid, c).canEnroll
  {
    var sub := Enrollable(enrs, table, courses, sid, cs);
    EnrollableSpec(enrs, table, courses, sid, cs);
    if sub != [] {
      assert sub[0] in sub;
    }
  }

  lemma GateRule(db: Enrollment.Rows, courses: seq<Course>, table: seq<Academics.PrereqRow>, st: Student, sid: int)
    ensures ViewOf(db, courses, table, st, sid).offered <==>
      ViewOf(db, courses, table, st, sid).conflicts == []
      && exists c :: c in Shown(courses, st) && PrereqsFor(db.enrollments, table, courses, sid, c).canEnroll
  {
    EnrollableNonEmpty(db.enrollments, table, courses, sid, Shown(courses, st));
  }

  /** A full meeting of a submitted course always shows up as a conflict. */
  lemma FullCourseReported(db: Enrollment.Rows, courses: seq<Course>, table: seq<Academics.PrereqRow>, st: Student, sid: int)
    requires AnyFull(db.schedules, ViewOf(db, courses, table, st, sid).submitted)
    ensures ViewOf(db, courses, table, st, sid).conflicts != []
  {
    var cs := Shown(courses, st);
    var sub := Enrollable(db.enrollments, table, courses, sid, cs);
    var k :| 0 <= k < |sub| && CourseFull(db.schedules, sub[k]);
    var s :| s in db.schedules && s.courseId == sub[k] && Enrollment.IsFull(s);
    EnrollableSpec(db.enrollments, table, courses, sid, cs);
    assert sub[k] in sub;
    var c :| c in cs && c.id == sub[k] && PrereqsFor(db.enrollments, table, courses, sid, c).canEnroll;
    ConflictsRule(cs, db.schedules);
    assert FullNote(c, s) in Conflicts(cs, db.schedules);
  }

  /** Confirming what an offering page submits commits, and leaves the
      student's rows of the academic year exactly the enrollable courses. */
  lemma OfferCommits(db: Enrollment.Rows, courses: seq<Course>, table: seq<Academics.PrereqRow>, st: Student, sid: int,
                     ay: string, now: int)
    requires ViewOf(db, courses, table, st, sid).offered
    ensures Confirm(db, st, sid, ay, Some(ViewOf(db, courses, table, st, sid).submitted), now).0 == Committed
    ensures YearRows(Confirm(db, st, sid, ay, Some(ViewOf(db, courses, table, st, sid).submitted), now).1.enrollments, sid, ay)
      == NewRows(sid, ViewOf(db, courses, table, st, sid).submitted, ay, now)
  {
    var sub := ViewOf(db, courses, table, st, sid).submitted;
    if AnyFull(db.schedules, sub) {
      FullCourseReported(db, courses, table, st, sid);
    }
    ConfirmReplaces(db, st, sid, ay, sub, now);
  }
}
