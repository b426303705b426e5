/** The database rows the finance and enrolment code reads, and the
    aggregate queries it runs over them (SUM, MIN, SELECT DISTINCT), written
    as functions over in-memory tables. */
module Tables {
  import opened Common

  /** A curriculum row: one course of a program's curriculum, with the
      course (if any) that must be passed first. */
  datatype Course = Course(
    id: int, code: string, units: int, semester: int, yearLevel: int,
    programId: int, prerequisite: Option<int>)

  /** An enrollments row. `enrolledAt` is a timestamp in seconds. */
  datatype Enrollment = Enrollment(
    studentId: int, courseId: int, ay: string, status: string,
    grade: Option<real>, enrolledAt: int)

  /** A payments row; a negative amount is a balance-forwarding debit. */
  datatype Payment = Payment(studentId: int, ay: string, sem: int, amount: real)

  /** A term_overpayments row. */
  datatype Overpayment = Overpayment(
    id: int, studentId: int, source: Term, amount: real,
    applied: bool, appliedTo: Option<Term>)

  /** A semester_status row ('In Progress', 'Completed', ...). */
  datatype SemesterStatus = SemesterStatus(studentId: int, yearLevel: int, term: Term, status: string)

  /** A student_late_fees row. */
  datatype LateFeeRow = LateFeeRow(studentId: int, term: Term, amount: real, waived: bool)

  /** Statuses the ledger and the comprehensive summary count units for. */
  const BilledStatuses: set<string> := {"Enrolled", "Passed", "Failed"}

  /** Statuses getStudentBalance and getTermAssessment count units for. */
  const AssessedStatuses: set<string> := {"Enrolled", "Passed", "Failed", "Dropped"}

  /** The curriculum row an enrollment joins with (curriculum_id is the key). */
  function FindCourse(courses: seq<Course>, id: int): (r: Option<Course>)
    ensures r.Some? ==> r.value in courses && r.value.id == id
    ensures r.None? ==> forall c :: c in courses ==> c.id != id
  {
    if courses == [] then None
    else if courses[0].id == id then Some(courses[0])
    else FindCourse(courses[1..], id)
  }

  /** The enrollment joined with its curriculum row belongs to `t`. */
  predicate InTerm(courses: seq<Course>, e: Enrollment, sid: int, t: Term) {
    e.studentId == sid && e.ay == t.ay
    && FindCourse(courses, e.courseId).Some?
    && FindCourse(courses, e.courseId).value.semester == t.sem
  }

  /** SELECT SUM(c.units) ... WHERE student, academic year and semester match
      and e.status is one of `statuses` (a NULL sum reads as 0). */
  function TermUnits(enrs: seq<Enrollment>, courses: seq<Course>, sid: int, t: Term, statuses: set<string>): int
    decreases |enrs|
  {
    if enrs == [] then 0
    else
      var e := enrs[|enrs| - 1];
      TermUnits(enrs[..|enrs| - 1], courses, sid, t, statuses)
      + (if InTerm(courses, e, sid, t) && e.status in statuses
         then FindCourse(courses, e.courseId).value.units else 0)
  }

  /** Units are never negative when every curriculum row has non-negative
      units. */
  lemma {:induction false} TermUnitsNonNegative(enrs: seq<Enrollment>, courses: seq<Course>, sid: int, t: Term, statuses: set<string>)
    requires forall c :: c in courses ==> c.units >= 0
    ensures TermUnits(enrs, courses, sid, t, statuses) >= 0
    decreases |enrs|
  {
    if enrs != [] {
      TermUnitsNonNegative(enrs[..|enrs| - 1], courses, sid, t, statuses);
    }
  }

  /** Widening the status filter never lowers the unit count. */
  lemma {:induction false} TermUnitsMonotone(enrs: seq<Enrollment>, courses: seq<Course>, sid: int, t: Term, narrow: set<string>, wide: set<string>)
    requires narrow <= wide
    requires forall c :: c in courses ==> c.units >= 0
    ensures TermUnits(enrs, courses, sid, t, narrow) <= TermUnits(enrs, courses, sid, t, wide)
    decreases |enrs|
  {
    if enrs != [] {
      TermUnitsMonotone(enrs[..|enrs| - 1], courses, sid, t, narrow, wide);
    }
  }

  /** The row is the student's, joins with a curriculum row of term `t`,
      and passes the optional status filter. */
  predicate Selected(courses: seq<Course>, e: Enrollment, sid: int, t: Term, statuses: Option<set<string>>) {
    InTerm(courses, e, sid, t) && (statuses.None? || e.status in statuses.value)
  }

  /** The terms of a student's joined enrollment rows, in table order, with
      repetitions; `statuses` restricts them when present. */
  function EnrollmentTerms(enrs: seq<Enrollment>, courses: seq<Course>, sid: int, statuses: Option<set<string>>): (r: seq<Term>)
    ensures forall t :: t in r <==> exists i :: 0 <= i < |enrs| && Selected(courses, enrs[i], sid, t, statuses)
    decreases |enrs|
  {
    if enrs == [] then []
    else
      var e := enrs[|enrs| - 1];
      var init := EnrollmentTerms(enrs[..|enrs| - 1], courses, sid, statuses);
      var c := FindCourse(courses, e.courseId);
      assert forall i :: 0 <= i < |enrs| - 1 ==> enrs[..|enrs| - 1][i] == enrs[i];
      if e.studentId == sid && c.Some? && (statuses.None? || e.status in statuses.value)
      then
        assert Selected(courses, e, sid, Term(e.ay, c.value.semester), statuses);
        init + [Term(e.ay, c.value.semester)]
      else init
  }

  /** SELECT DISTINCT e.academic_year, c.semester ... ORDER BY academic_year,
      semester. */
  function StudentTerms(enrs: seq<Enrollment>, courses: seq<Course>, sid: int, statuses: Option<set<string>>): (r: seq<Term>)
    ensures StrictlyAscending(r)
    ensures forall t :: t in r <==> exists i :: 0 <= i < |enrs| && Selected(courses, enrs[i], sid, t, statuses)
  {
    SortedDistinct(EnrollmentTerms(enrs, courses, sid, statuses))
  }

  /** SELECT MIN(enrolled_at) over the student's rows of the term, any status. */
  function FirstEnrolledAt(enrs: seq<Enrollment>, courses: seq<Course>, sid: int, t: Term): (r: Option<int>)
    ensures r.Some? ==> exists i :: 0 <= i < |enrs| && InTerm(courses, enrs[i], sid, t) && enrs[i].enrolledAt == r.value
    ensures r.Some? ==> forall i :: 0 <= i < |enrs| && InTerm(courses, enrs[i], sid, t) ==> r.value <= enrs[i].enrolledAt
    ensures r.None? <==> forall i :: 0 <= i < |enrs| ==> !InTerm(courses, enrs[i], sid, t)
    decreases |enrs|
  {
    if enrs == [] then None
    else
      var e := enrs[|enrs| - 1];
      var init := FirstEnrolledAt(enrs[..|enrs| - 1], courses, sid, t);
      assert forall i :: 0 <= i < |enrs| - 1 ==> enrs[..|enrs| - 1][i] == enrs[i];
      if !InTerm(courses, e, sid, t) then init
      else if init.Some? && init.value <= e.enrolledAt then init
      else Some(e.enrolledAt)
  }

  /** SELECT SUM(amount) FROM payments for one term of one student. */
  function TermPaid(pays: seq<Payment>, sid: int, t: Term): real
    decreases |pays|
  {
    if pays == [] then 0.0
    else
      var p := pays[|pays| - 1];
      TermPaid(pays[..|pays| - 1], sid, t)
      + (if p.studentId == sid && p.ay == t.ay && p.sem == t.sem then p.amount else 0.0)
  }

  /** SELECT SUM(amount) FROM payments for all terms of one student. */
  function TotalPaid(pays: seq<Payment>, sid: int): real
    decreases |pays|
  {
    if pays == [] then 0.0
    else
      var p := pays[|pays| - 1];
      TotalPaid(pays[..|pays| - 1], sid) + (if p.studentId == sid then p.amount else 0.0)
  }

  /** Appending a payment raises its own term's total by its amount and
      leaves every other term's total alone. */
  lemma TermPaidAppend(pays: seq<Payment>, p: Payment, sid: int, t: Term)
    ensures TermPaid(pays + [p], sid, t)
         == TermPaid(pays, sid, t) + (if p.studentId == sid && p.ay == t.ay && p.sem == t.sem then p.amount else 0.0)
    ensures TotalPaid(pays + [p], sid) == TotalPaid(pays, sid) + (if p.studentId == sid then p.amount else 0.0)
  {
    assert (pays + [p])[..|pays|] == pays;
  }

  /** SUM(amount) of the records applied to `t`: applied_academic_year and
      applied_semester match and is_applied = 1. */
  function AppliedCredit(ops: seq<Overpayment>, sid: int, t: Term): real
    decreases |ops|
  {
    if ops == [] then 0.0
    else
      var o := ops[|ops| - 1];
      AppliedCredit(ops[..|ops| - 1], sid, t)
      + (if o.studentId == sid && o.applied && o.appliedTo == Some(t) then o.amount else 0.0)
  }

  /** getAvailableOverpaymentCredit: SUM(amount) of unapplied records. */
  function UnappliedCredit(ops: seq<Overpayment>, sid: int): real
    decreases |ops|
  {
    if ops == [] then 0.0
    else
      var o := ops[|ops| - 1];
      UnappliedCredit(ops[..|ops| - 1], sid) + (if o.studentId == sid && !o.applied then o.amount else 0.0)
  }

  /** SUM(amount) of the late fees of a term that were not waived. */
  function UnwaivedLateFees(fees: seq<LateFeeRow>, sid: int, t: Term): real
    decreases |fees|
  {
    if fees == [] then 0.0
    else
      var f := fees[|fees| - 1];
      UnwaivedLateFees(fees[..|fees| - 1], sid, t) + (if f.studentId == sid && f.term == t && !f.waived then f.amount else 0.0)
  }
}
