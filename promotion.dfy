/** The student edit handler (pages/edit_student.php, lines 33-198): field
    validation, the promotion balance gate with its 20% threshold, the
    completion of the term being left, and the forwarding of an
    outstanding balance as a +/- payment pair. */
module Promotion {
  import opened Common
  import opened Money
  import opened Tables
  import opened FinanceData
  import opened Assessment
  import opened AcademicYear

  /** The editable columns of a students row. */
  datatype Profile = Profile(
    firstName: string, middleName: string, lastName: string, email: string,
    dateOfBirth: string, gender: string, address: string, phone: string,
    programId: int, yearLevel: int, semester: int, status: string)

  datatype Student = Student(id: int, profile: Profile)

  /** The tables the handler reads and writes. */
  datatype School = School(db: Db, ops: seq<Overpayment>, students: seq<Student>, semesters: seq<SemesterStatus>)

  datatype Error =
    | FirstNameRequired | LastNameRequired | EmailRequired | InvalidEmail
    | DateOfBirthRequired | GenderRequired | ProgramRequired
    | InvalidYearLevel | InvalidSemester | InvalidStatus | EmailTaken
    | OverThreshold(balance: real, threshold: real)

  datatype Outcome =
    | NotFound
    | Rejected(errors: seq<Error>)
    | NeedsConfirmation(balance: real)
    | Updated(forwarded: real)

  // ---------------------------------------------------------------
  // Input normalisation and validation
  // ---------------------------------------------------------------

  /** The characters PHP's trim strips: space, tab, LF, CR, NUL, VT. */
  predicate Blank(c: char) {
    c == ' ' || c == '\t' || c == '\n' || c == '\r' || c == 0 as char || c == 11 as char
  }

  /** Strips stripped characters from the front. */
  function TrimLeft(s: string): string
    decreases |s|
  {
    if s != [] && Blank(s[0]) then TrimLeft(s[1..]) else s
  }

  /** Strips stripped characters from the back. */
  function TrimRight(s: string): string
    decreases |s|
  {
    if s != [] && Blank(s[|s| - 1]) then TrimRight(s[..|s| - 1]) else s
  }

  /** PHP trim: strip from both ends. */
  function Trim(s: string): string {
    TrimRight(TrimLeft(s))
  }

  /** TrimLeft removes a blank prefix and leaves a suffix that does not
      start with a blank. */
  lemma {:induction false} TrimLeftSpec(s: string)
    ensures |TrimLeft(s)| <= |s| && TrimLeft(s) == s[|s| - |TrimLeft(s)|..]
    ensures TrimLeft(s) == [] || !Blank(TrimLeft(s)[0])
    ensures forall k :: 0 <= k < |s| - |TrimLeft(s)| ==> Blank(s[k])
    decreases |s|
  {
    if s != [] && Blank(s[0]) {
      TrimLeftSpec(s[1..]);
      forall k | 1 <= k < |s| - |TrimLeft(s)| ensures Blank(s[k]) {
        assert s[k] == s[1..][k - 1];
      }
    }
  }

  /** TrimRight removes a blank suffix and leaves a prefix that does not
      end with a blank. */
  lemma {:induction false} TrimRightSpec(s: string)
    ensures |TrimRight(s)| <= |s| && TrimRight(s) == s[..|TrimRight(s)|]
    ensures TrimRight(s) == [] || !Blank(TrimRight(s)[|TrimRight(s)| - 1])
    ensures forall k :: |TrimRight(s)| <= k < |s| ==> Blank(s[k])
    decreases |s|
  {
    if s != [] && Blank(s[|s| - 1]) {
      TrimRightSpec(s[..|s| - 1]);
      forall k | |TrimRight(s)| <= k < |s| - 1 ensures Blank(s[k]) {
        assert s[k] == s[..|s| - 1][k];
      }
    }
  }

  /** The trimmed string is the slice of the input between a blank prefix
      and a blank suffix, and neither of its ends is blank. */
  lemma TrimIsSlice(s: string)
    ensures var i := |s| - |TrimLeft(s)|;
      var r := Trim(s);
      0 <= i <= |s| - |r| && r == s[i..i + |r|]
      && (r == [] || (!Blank(r[0]) && !Blank(r[|r| - 1])))
      && (forall k :: 0 <= k < i ==> Blank(s[k]))
      && (forall k :: i + |r| <= k < |s| ==> Blank(s[k]))
  {
    var l := TrimLeft(s);
    TrimLeftSpec(s);
    TrimRightSpec(l);
    var r := TrimRight(l);
    var i := |s| - |l|;
    if r != [] {
      assert r[0] == l[0];
    }
    forall k | i + |r| <= k < |s| ensures Blank(s[k]) {
      assert s[k] == l[k - i];
    }
  }

  /** PHP empty() on a string: "" and "0". */
  predicate Empty(s: string) {
    s == "" || s == "0"
  }

  /** The POSTed fields as the handler reads them: names, email, address
      and phone trimmed; date of birth, gender and status as sent. */
  function Normalize(raw: Profile): Profile {
    raw.(firstName := Trim(raw.firstName), middleName := Trim(raw.middleName),
         lastName := Trim(raw.lastName), email := Trim(raw.email),
         address := Trim(raw.address), phone := Trim(raw.phone))
  }

  const Statuses: set<string> := {"Active", "Inactive", "Graduated"}

  /** Appends `e` when the check `failed`. */
  function Add(errs: seq<Error>, failed: bool, e: Error): (r: seq<Error>)
    ensures forall x :: x in r <==> x in errs || (failed && x == e)
    ensures r == [] <==> errs == [] && !failed
  {
    if failed then errs + [e] else errs
  }

  /** The field checks, in order; `emailValid` is filter_var's verdict on
      the email. */
  function Validate(p: Profile, emailValid: bool): seq<Error> {
    var e1 := Add([], Empty(p.firstName), FirstNameRequired);
    var e2 := Add(e1, Empty(p.lastName), LastNameRequired);
    var e3 := Add(e2, Empty(p.email), EmailRequired);
    var e4 := Add(e3, !emailValid, InvalidEmail);
    var e5 := Add(e4, Empty(p.dateOfBirth), DateOfBirthRequired);
    var e6 := Add(e5, Empty(p.gender), GenderRequired);
    var e7 := Add(e6, p.programId <= 0, ProgramRequired);
    var e8 := Add(e7, p.yearLevel < 1 || p.yearLevel > 4, InvalidYearLevel);
    var e9 := Add(e8, p.semester < 1 || p.semester > 2, InvalidSemester);
    Add(e9, p.status !in Statuses, InvalidStatus)
  }

  /** An error is in the list exactly when its own check failed. */
  lemma ValidateMembers(p: Profile, emailValid: bool)
    ensures forall x :: x in Validate(p, emailValid) <==>
      (x == FirstNameRequired && Empty(p.firstName)) || (x == LastNameRequired && Empty(p.lastName))
      || (x == EmailRequired && Empty(p.email)) || (x == InvalidEmail && !emailValid)
      || (x == DateOfBirthRequired && Empty(p.dateOfBirth)) || (x == GenderRequired && Empty(p.gender))
      || (x == ProgramRequired && p.programId <= 0) || (x == InvalidYearLevel && !(1 <= p.yearLevel <= 4))
      || (x == InvalidSemester && !(1 <= p.semester <= 2)) || (x == InvalidStatus && p.status !in Statuses)
  {
  }

  /** A missing name is reported, and only then. */
  lemma ValidateReportsNames(p: Profile, emailValid: bool)
    ensures FirstNameRequired in Validate(p, emailValid) <==> Empty(p.firstName)
    ensures LastNameRequired in Validate(p, emailValid) <==> Empty(p.lastName)
  {
    ValidateMembers(p, emailValid);
  }

  /** A missing or malformed email and a missing date of birth are
      reported, and only then. */
  lemma ValidateReportsContact(p: Profile, emailValid: bool)
    ensures EmailRequired in Validate(p, emailValid) <==> Empty(p.email)
    ensures InvalidEmail in Validate(p, emailValid) <==> !emailValid
    ensures DateOfBirthRequired in Validate(p, emailValid) <==> Empty(p.dateOfBirth)
  {
    ValidateMembers(p, emailValid);
  }

  /** A missing gender or program is reported, and only then. */
  lemma ValidateReportsChoices(p: Profile, emailValid: bool)
    ensures GenderRequired in Validate(p, emailValid) <==> Empty(p.gender)
    ensures ProgramRequired in Validate(p, emailValid) <==> p.programId <= 0
  {
    ValidateMembers(p, emailValid);
  }

  /** An out-of-range year level or semester and an unknown status are
      reported, and only then. */
  lemma ValidateReportsRanges(p: Profile, emailValid: bool)
    ensures InvalidYearLevel in Validate(p, emailValid) <==> !(1 <= p.yearLevel <= 4)
    ensures InvalidSemester in Validate(p, emailValid) <==> !(1 <= p.semester <= 2)
    ensures InvalidStatus in Validate(p, emailValid) <==> p.status !in Statuses
  {
    ValidateMembers(p, emailValid);
  }

  /** The form passes the field checks iff every field is acceptable. */
  lemma ValidatePasses(p: Profile, emailValid: bool)
    ensures EmailTaken !in Validate(p, emailValid)
    ensures Validate(p, emailValid) == [] <==>
      !Empty(p.firstName) && !Empty(p.lastName) && !Empty(p.email) && emailValid
      && !Empty(p.dateOfBirth) && !Empty(p.gender) && p.programId > 0
      && 1 <= p.yearLevel <= 4 && 1 <= p.semester <= 2 && p.status in Statuses
  {
  }

  /** The field checks as the handler runs them, appending to a list. */
  method CollectErrors(p: Profile, emailValid: bool) returns (errors: seq<Error>)
    ensures errors == Validate(p, emailValid)
  {
    errors := [];
    errors := Add(errors, Empty(p.firstName), FirstNameRequired);
    errors := Add(errors, Empty(p.lastName), LastNameRequired);
    errors := Add(errors, Empty(p.email), EmailRequired);
    errors := Add(errors, !emailValid, InvalidEmail);
    errors := Add(errors, Empty(p.dateOfBirth), DateOfBirthRequired);
    errors := Add(errors, Empty(p.gender), GenderRequired);
    errors := Add(errors, p.programId <= 0, ProgramRequired);
    errors := Add(errors, p.yearLevel < 1 || p.yearLevel > 4, InvalidYearLevel);
    errors := Add(errors, p.semester < 1 || p.semester > 2, InvalidSemester);
    errors := Add(errors, p.status !in Statuses, InvalidStatus);
  }

  /** Another student already has the email. */
  predicate EmailTakenBy(students: seq<Student>, email: string, sid: int) {
    exists i :: 0 <= i < |students| && students[i].profile.email == email && students[i].id != sid
  }

  /** The duplicate-email query runs only when the field checks passed. */
  function AllErrors(students: seq<Student>, sid: int, p: Profile, emailValid: bool): (r: seq<Error>)
    ensures r == [] <==> Validate(p, emailValid) == [] && !EmailTakenBy(students, p.email, sid)
    ensures EmailTaken in r <==> Validate(p, emailValid) == [] && EmailTakenBy(students, p.email, sid)
  {
    var errs := Validate(p, emailValid);
    ValidatePasses(p, emailValid);
    if errs == [] && EmailTakenBy(students, p.email, sid) then [EmailTaken] else errs
  }

  function FindStudent(students: seq<Student>, sid: int): (r: Option<Profile>)
    ensures r.Some? <==> exists i :: 0 <= i < |students| && students[i].id == sid
    decreases |students|
  {
    if students == [] then None
    else if students[0].id == sid then Some(students[0].profile)
    else
      var r := FindStudent(students[1..], sid);
      assert forall i :: 1 <= i < |students| ==> students[1..][i - 1] == students[i];
      r
  }

  // ---------------------------------------------------------------
  // The term being left
  // ---------------------------------------------------------------

  /** The academic year of the student's latest enrollment (highest
      enrollment_id, the table being in id order) in a curriculum row of
      the given semester and year level. */
  function LatestEnrollmentAY(enrs: seq<Enrollment>, courses: seq<Course>, sid: int, sem: int, yl: int): (r: Option<string>)
    ensures r.Some? ==> exists i :: 0 <= i < |enrs| && enrs[i].ay == r.value
    ensures r.None? <==> forall i :: 0 <= i < |enrs| ==> !LevelRow(courses, enrs[i], sid, sem, yl)
    decreases |enrs|
  {
    if enrs == [] then None
    else
      var e := enrs[|enrs| - 1];
      assert forall i :: 0 <= i < |enrs| - 1 ==> enrs[..|enrs| - 1][i] == enrs[i];
      if LevelRow(courses, e, sid, sem, yl) then Some(e.ay)
      else LatestEnrollmentAY(enrs[..|enrs| - 1], courses, sid, sem, yl)
  }

  predicate LevelRow(courses: seq<Course>, e: Enrollment, sid: int, sem: int, yl: int) {
    e.studentId == sid && FindCourse(courses, e.courseId).Some?
    && FindCourse(courses, e.courseId).value.semester == sem
    && FindCourse(courses, e.courseId).value.yearLevel == yl
  }

  /** The current_academic_year setting, or "Y-(Y+1)" for the calendar
      year when the setting row is missing. */
  function SystemAY(setting: Option<string>, currentYear: nat): string {
    if setting.Some? then setting.value else RenderAY(currentYear, currentYear + 1)
  }

  /** The source academic year: the latest enrollment's, falling back to
      the system year when there is none or it is empty. */
  function SourceAY(db: Db, sid: int, cur: Profile, setting: Option<string>, currentYear: nat): (ay: string)
    ensures LatestEnrollmentAY(db.enrollments, db.courses, sid, cur.semester, cur.yearLevel).Some?
            && !Empty(LatestEnrollmentAY(db.enrollments, db.courses, sid, cur.semester, cur.yearLevel).value)
            ==> ay == LatestEnrollmentAY(db.enrollments, db.courses, sid, cur.semester, cur.yearLevel).value
  {
    var found := LatestEnrollmentAY(db.enrollments, db.courses, sid, cur.semester, cur.yearLevel);
    if found.Some? && !Empty(found.value) then found.value else SystemAY(setting, currentYear)
  }

  // ---------------------------------------------------------------
  // The balance gate
  // ---------------------------------------------------------------

  datatype Gate = Clear | Blocked(balance: real, threshold: real) | Confirm(balance: real) | Forward(amount: real)

  /** 20% of the term's assessment, rounded to cents. */
  function Threshold(assessment: real): real {
    Round2(assessment * 0.2)
  }

  /** A positive rounded balance above the threshold blocks; one within it
      asks for confirmation, or, once confirmed, is forwarded whole. */
  function GateOf(balance: real, assessment: real, confirmed: bool): Gate {
    if Round2(balance) > 0.0 then
      if Round2(balance) > Threshold(assessment) then Blocked(balance, Threshold(assessment))
      else if !confirmed then Confirm(balance)
      else Forward(balance)
    else Clear
  }

  /** A forwarded amount is the whole, positive, term balance; a balance
      that rounds to zero or below never gates. */
  lemma GateForwardsWholeBalance(balance: real, assessment: real, confirmed: bool)
    ensures GateOf(balance, assessment, confirmed).Forward? ==>
      GateOf(balance, assessment, confirmed).amount == balance && balance > 0.0
      && Round2(balance) <= Threshold(assessment) && confirmed
    ensures GateOf(balance, assessment, confirmed).Clear? <==> Round2(balance) <= 0.0
    ensures GateOf(balance, assessment, confirmed).Blocked? <==>
      Round2(balance) > 0.0 && Round2(balance) > Threshold(assessment)
  {
    if Round2(balance) > 0.0 {
      Round2Sign(balance);
    }
  }

  // ---------------------------------------------------------------
  // Writes
  // ---------------------------------------------------------------

  /** UPDATE semester_status SET status = 'Completed' for the term's In
      Progress rows. */
  function CompleteTerm(rows: seq<SemesterStatus>, sid: int, t: Term): (r: seq<SemesterStatus>)
    ensures |r| == |rows|
    ensures forall i :: 0 <= i < |rows| ==>
      r[i] == (if rows[i].studentId == sid && rows[i].term == t && rows[i].status == "In Progress"
               then rows[i].(status := "Completed") else rows[i])
  {
    seq(|rows|, i requires 0 <= i < |rows| =>
      if rows[i].studentId == sid && rows[i].term == t && rows[i].status == "In Progress"
      then rows[i].(status := "Completed") else rows[i])
  }

  /** The enrollment the Enrolled -> Passed update writes, as it writes it. */
  function PassRow(courses: seq<Course>, e: Enrollment, sid: int, t: Term): Enrollment {
    if InTerm(courses, e, sid, t) && e.status == "Enrolled" then e.(status := "Passed") else e
  }

  /** UPDATE enrollments SET status = 'Passed' for the term's Enrolled rows. */
  function PassEnrolled(enrs: seq<Enrollment>, courses: seq<Course>, sid: int, t: Term): (r: seq<Enrollment>)
    ensures |r| == |enrs|
    ensures forall i :: 0 <= i < |enrs| ==> r[i] == PassRow(courses, enrs[i], sid, t)
    decreases |enrs|
  {
    if enrs == [] then []
    else
      var init := enrs[..|enrs| - 1];
      assert forall i :: 0 <= i < |init| ==> init[i] == enrs[i];
      PassEnrolled(init, courses, sid, t) + [PassRow(courses, enrs[|enrs| - 1], sid, t)]
  }

  /** Turning Enrolled rows into Passed rows keeps every term's assessed
      units, since both statuses are counted. */
  lemma {:induction false} PassEnrolledKeepsUnits(enrs: seq<Enrollment>, courses: seq<Course>, sid: int, t: Term, sid': int, u: Term)
    ensures TermUnits(PassEnrolled(enrs, courses, sid, t), courses, sid', u, AssessedStatuses)
         == TermUnits(enrs, courses, sid', u, AssessedStatuses)
    decreases |enrs|
  {
    if enrs != [] {
      var n := |enrs| - 1;
      var r := PassEnrolled(enrs, courses, sid, t);
      PassEnrolledKeepsUnits(enrs[..n], courses, sid, t, sid', u);
      assert r[..n] == PassEnrolled(enrs[..n], courses, sid, t);
    }
  }

  /** UPDATE students SET program_id for the student's rows. */
  function SetProgram(rows: seq<StudentRow>, sid: int, program: int): (r: seq<StudentRow>)
    ensures |r| == |rows|
    decreases |rows|
  {
    if rows == [] then []
    else [if rows[0].id == sid then rows[0].(programId := Some(program)) else rows[0]]
         + SetProgram(rows[1..], sid, program)
  }

  /** Rewriting the program a student already has keeps the program the
      finance code resolves. */
  lemma {:induction false} SetProgramSame(rows: seq<StudentRow>, sid: int, program: int)
    requires ProgramOf(rows, sid) == Some(program)
    ensures ProgramOf(SetProgram(rows, sid, program), sid) == Some(program)
    decreases |rows|
  {
    if rows[0].id != sid {
      SetProgramSame(rows[1..], sid, program);
    }
  }

  function UpdateProfile(students: seq<Student>, sid: int, p: Profile): (r: seq<Student>)
    ensures |r| == |students|
    ensures forall i :: 0 <= i < |students| ==>
      r[i] == (if students[i].id == sid then Student(sid, p) else students[i])
  {
    seq(|students|, i requires 0 <= i < |students| =>
      if students[i].id == sid then Student(sid, p) else students[i])
  }

  /** The students UPDATE: the profile columns, program included. */
  function Apply(sc: School, sid: int, p: Profile): School {
    sc.(students := UpdateProfile(sc.students, sid, p),
        db := sc.db.(students := SetProgram(sc.db.students, sid, p.programId)))
  }

  /** The term being left is completed and its Enrolled rows passed. */
  function Complete(sc: School, sid: int, t: Term): School {
    sc.(semesters := CompleteTerm(sc.semesters, sid, t),
        db := sc.db.(enrollments := PassEnrolled(sc.db.enrollments, sc.db.courses, sid, t)))
  }

  /** The forwarding pair: +amount on the source term, -amount on the
      target term, stored under the full academic years. The page binds
      the year as an integer instead (see ForwardPairAsBound); the handler
      below uses this intended pair. */
  function ForwardPair(sc: School, sid: int, amount: real, src: Term, dst: Term): School {
    sc.(db := sc.db.(payments := sc.db.payments
      + [Payment(sid, src.ay, src.sem, amount), Payment(sid, dst.ay, dst.sem, -amount)]))
  }

  /** The target academic year: the next one after the system year when
      the year level rises or the semester goes from 2 back to 1,
      otherwise the system year itself. */
  function TargetAY(sysAy: string, currentYear: nat, cur: Profile, p: Profile): string {
    if p.yearLevel > cur.yearLevel || (cur.semester == 2 && p.semester == 1)
    then NextAcademicYear(sysAy, currentYear) else sysAy
  }

  /** A promotion lands one academic year after a well-formed system year,
      any other move in the system year itself. */
  lemma TargetAYRule(sysAy: string, currentYear: nat, cur: Profile, p: Profile)
    requires MatchesAY(sysAy)
    ensures var y := ParseAY(sysAy).value;
      (p.yearLevel > cur.yearLevel || (cur.semester == 2 && p.semester == 1)) ==>
        TargetAY(sysAy, currentYear, cur, p) == RenderAY(y.first + 1, y.second + 1)
    ensures !(p.yearLevel > cur.yearLevel || (cur.semester == 2 && p.semester == 1)) ==>
      TargetAY(sysAy, currentYear, cur, p) == sysAy
  {
  }

  // ---------------------------------------------------------------
  // The handler
  // ---------------------------------------------------------------

  /** The inputs of one POST besides the tables. */
  datatype Request = Request(
    sid: int, raw: Profile, confirmed: bool, emailValid: bool,
    setting: Option<string>, currentYear: nat)

  /** The source term of a move: the source year and the current semester. */
  function SourceTerm(sc: School, rq: Request, cur: Profile): Term {
    Term(SourceAY(sc.db, rq.sid, cur, rq.setting, rq.currentYear), cur.semester)
  }

  /** The term the forwarded balance is charged to. */
  function TargetTerm(rq: Request, cur: Profile, p: Profile): Term {
    Term(TargetAY(SystemAY(rq.setting, rq.currentYear), rq.currentYear, cur, p), p.semester)
  }

  /** The gate's verdict for the source term. */
  function GateFor(sc: School, rq: Request, cur: Profile): Gate {
    var src := SourceTerm(sc, rq, cur);
    GateOf(TermBalance(sc.db, sc.ops, rq.sid, src), TermAssessment(sc.db, rq.sid, src), rq.confirmed)
  }

  /** A change of year level or semester, once the gate has ruled. */
  function Move(sc: School, sid: int, p: Profile, src: Term, dst: Term, g: Gate): (School, Outcome) {
    match g
    case Blocked(b, thr) => (sc, Rejected([OverThreshold(b, thr)]))
    case Confirm(b) => (sc, NeedsConfirmation(b))
    case Clear => (Apply(Complete(sc, sid, src), sid, p), Updated(0.0))
    case Forward(a) => (ForwardPair(Apply(Complete(sc, sid, src), sid, p), sid, a, src, dst), Updated(a))
  }

  /** The POST for a student that exists. */
  function Decide(sc: School, rq: Request, cur: Profile): (School, Outcome) {
    var p := Normalize(rq.raw);
    var errs := AllErrors(sc.students, rq.sid, p, rq.emailValid);
    if errs != [] then (sc, Rejected(errs))
    else if p.yearLevel == cur.yearLevel && p.semester == cur.semester then (Apply(sc, rq.sid, p), Updated(0.0))
    else Move(sc, rq.sid, p, SourceTerm(sc, rq, cur), TargetTerm(rq, cur, p), GateFor(sc, rq, cur))
  }

  /** The whole POST: the new tables and what the page reports. */
  function Submit(sc: School, rq: Request): (School, Outcome) {
    match FindStudent(sc.students, rq.sid)
    case None => (sc, NotFound)
    case Some(cur) => Decide(sc, rq, cur)
  }

  /** An unknown student, a failed check, a blocked move and a move awaiting
      confirmation all leave every table as it was. */
  lemma RefusalsWriteNothing(sc: School, rq: Request)
    ensures !Submit(sc, rq).1.Updated? ==> Submit(sc, rq).0 == sc
  {
    if FindStudent(sc.students, rq.sid).Some? {
      var cur := FindStudent(sc.students, rq.sid).value;
      var p := Normalize(rq.raw);
      var g := GateFor(sc, rq, cur);
      MoveRefusals(sc, rq.sid, p, SourceTerm(sc, rq, cur), TargetTerm(rq, cur, p), g);
    }
  }

  /** A known student's edit is refused exactly when a field check fails,
      the email is taken, or a move's balance is over the threshold. */
  lemma RejectedExactly(sc: School, rq: Request)
    requires FindStudent(sc.students, rq.sid).Some?
    ensures var p := Normalize(rq.raw);
      var cur := FindStudent(sc.students, rq.sid).value;
      (Submit(sc, rq).1.Rejected? <==>
        Validate(p, rq.emailValid) != [] || EmailTakenBy(sc.students, p.email, rq.sid)
        || ((p.yearLevel != cur.yearLevel || p.semester != cur.semester) && GateFor(sc, rq, cur).Blocked?))
  {
    var cur := FindStudent(sc.students, rq.sid).value;
    var p := Normalize(rq.raw);
    var g := GateFor(sc, rq, cur);
    assert Submit(sc, rq) == Decide(sc, rq, cur);
    MoveRefusals(sc, rq.sid, p, SourceTerm(sc, rq, cur), TargetTerm(rq, cur, p), g);
  }

  /** Only a blocked or unconfirmed move writes nothing. */
  lemma MoveRefusals(sc: School, sid: int, p: Profile, src: Term, dst: Term, g: Gate)
    ensures !Move(sc, sid, p, src, dst, g).1.Updated? <==> g.Blocked? || g.Confirm?
    ensures !Move(sc, sid, p, src, dst, g).1.Updated? ==> Move(sc, sid, p, src, dst, g).0 == sc
    ensures Move(sc, sid, p, src, dst, g).1.Rejected? <==> g.Blocked?
    ensures g.Clear? || g.Forward? ==>
      Move(sc, sid, p, src, dst, g).0.semesters == CompleteTerm(sc.semesters, sid, src)
      && Move(sc, sid, p, src, dst, g).0.db.enrollments == PassEnrolled(sc.db.enrollments, sc.db.courses, sid, src)
  {
  }

  /** The gate runs only on a change of year level or semester: otherwise
      the profile is written and no payment, status or enrollment changes. */
  lemma NoMoveNoGate(sc: School, rq: Request)
    requires FindStudent(sc.students, rq.sid).Some?
    requires AllErrors(sc.students, rq.sid, Normalize(rq.raw), rq.emailValid) == []
    requires Normalize(rq.raw).yearLevel == FindStudent(sc.students, rq.sid).value.yearLevel
    requires Normalize(rq.raw).semester == FindStudent(sc.students, rq.sid).value.semester
    ensures Submit(sc, rq).1 == Updated(0.0)
    ensures var s' := Submit(sc, rq).0;
      s'.db.payments == sc.db.payments && s'.db.enrollments == sc.db.enrollments
      && s'.semesters == sc.semesters && s'.ops == sc.ops
  {
  }

  /** An error-free move completes the term being left: its In Progress
      status becomes Completed and its Enrolled rows become Passed. */
  lemma MoveCompletesSourceTerm(sc: School, rq: Request)
    requires FindStudent(sc.students, rq.sid).Some?
    requires var cur := FindStudent(sc.students, rq.sid).value;
      var p := Normalize(rq.raw);
      AllErrors(sc.students, rq.sid, p, rq.emailValid) == []
      && (p.yearLevel != cur.yearLevel || p.semester != cur.semester)
      && (GateFor(sc, rq, cur).Clear? || GateFor(sc, rq, cur).Forward?)
    ensures var cur := FindStudent(sc.students, rq.sid).value;
      var src := SourceTerm(sc, rq, cur);
      var s' := Submit(sc, rq).0;
      s'.semesters == CompleteTerm(sc.semesters, rq.sid, src)
      && s'.db.enrollments == PassEnrolled(sc.db.enrollments, sc.db.courses, rq.sid, src)
  {
    var cur := FindStudent(sc.students, rq.sid).value;
    var p := Normalize(rq.raw);
    var g := GateFor(sc, rq, cur);
    assert Submit(sc, rq) == Move(sc, rq.sid, p, SourceTerm(sc, rq, cur), TargetTerm(rq, cur, p), g);
    MoveRefusals(sc, rq.sid, p, SourceTerm(sc, rq, cur), TargetTerm(rq, cur, p), g);
  }

  /** The forwarded balance is written as +amount on the source term and
      -amount on the target term: the student's total payments are
      unchanged, the source term's payments rise by the amount and the
      target term's fall by it. */
  lemma ForwardingPairConserves(sc: School, sid: int, amount: real, src: Term, dst: Term)
    requires src != dst
    ensures var pays := ForwardPair(sc, sid, amount, src, dst).db.payments;
      TotalPaid(pays, sid) == TotalPaid(sc.db.payments, sid)
      && TermPaid(pays, sid, src) == TermPaid(sc.db.payments, sid, src) + amount
      && TermPaid(pays, sid, dst) == TermPaid(sc.db.payments, sid, dst) - amount
  {
    var p0 := sc.db.payments;
    var c := Payment(sid, src.ay, src.sem, amount);
    var d := Payment(sid, dst.ay, dst.sem, -amount);
    assert p0 + [c, d] == (p0 + [c]) + [d];
    TermPaidAppend(p0, c, sid, src);
    TermPaidAppend(p0 + [c], d, sid, src);
    TermPaidAppend(p0, c, sid, dst);
    TermPaidAppend(p0 + [c], d, sid, dst);
  }

  /** Two tables with the same rates, fees, program and units assess a
      term alike. */
  lemma AssessmentFromInputs(db1: Db, db2: Db, sid: int, t: Term)
    requires db1.rates == db2.rates && db1.fees == db2.fees
    requires ProgramOf(db1.students, sid) == ProgramOf(db2.students, sid)
    requires AssessedUnits(db1, sid, t) == AssessedUnits(db2, sid, t)
    ensures TermAssessment(db1, sid, t) == TermAssessment(db2, sid, t)
  {
    assert StudentRates(db1, sid) == StudentRates(db2, sid);
  }

  /** Completing a term and rewriting the profile with the same program
      leave every term balance as it was. */
  lemma CompleteApplyKeepBalance(sc: School, sid: int, t: Term, p: Profile, u: Term)
    requires ProgramOf(sc.db.students, sid) == Some(p.programId)
    ensures TermBalance(Apply(Complete(sc, sid, t), sid, p).db, sc.ops, sid, u) == TermBalance(sc.db, sc.ops, sid, u)
  {
    var db' := Apply(Complete(sc, sid, t), sid, p).db;
    assert db'.enrollments == PassEnrolled(sc.db.enrollments, sc.db.courses, sid, t);
    assert db'.students == SetProgram(sc.db.students, sid, p.programId);
    PassEnrolledKeepsUnits(sc.db.enrollments, sc.db.courses, sid, t, sid, u);
    SetProgramSame(sc.db.students, sid, p.programId);
    AssessmentFromInputs(db', sc.db, sid, u);
  }

  /** A confirmed forward settles the source term: when the program is
      unchanged and the target term differs from the source, the source
      term's balance becomes zero and the student's total payments are
      unchanged. */
  lemma ForwardSettlesSource(sc: School, rq: Request)
    requires FindStudent(sc.students, rq.sid).Some?
    requires var cur := FindStudent(sc.students, rq.sid).value;
      var p := Normalize(rq.raw);
      AllErrors(sc.students, rq.sid, p, rq.emailValid) == []
      && (p.yearLevel != cur.yearLevel || p.semester != cur.semester)
      && GateFor(sc, rq, cur).Forward?
      && ProgramOf(sc.db.students, rq.sid) == Some(p.programId)
      && TargetTerm(rq, cur, p) != SourceTerm(sc, rq, cur)
    ensures var cur := FindStudent(sc.students, rq.sid).value;
      var src := SourceTerm(sc, rq, cur);
      var (s', out) := Submit(sc, rq);
      out == Updated(TermBalance(sc.db, sc.ops, rq.sid, src)) && out.forwarded > 0.0
      && TermBalance(s'.db, s'.ops, rq.sid, src) == 0.0
      && TotalPaid(s'.db.payments, rq.sid) == TotalPaid(sc.db.payments, rq.sid)
  {
    var cur := FindStudent(sc.students, rq.sid).value;
    var p := Normalize(rq.raw);
    var src := SourceTerm(sc, rq, cur);
    var dst := TargetTerm(rq, cur, p);
    var bal := TermBalance(sc.db, sc.ops, rq.sid, src);
    GateForwardsWholeBalance(bal, TermAssessment(sc.db, rq.sid, src), rq.confirmed);
    var mid := Apply(Complete(sc, rq.sid, src), rq.sid, p);
    assert Submit(sc, rq) == (ForwardPair(mid, rq.sid, bal, src, dst), Updated(bal));
    CompleteApplyKeepBalance(sc, rq.sid, src, p, src);
    ForwardingPairConserves(mid, rq.sid, bal, src, dst);
    ForwardKeepsAssessment(mid, rq.sid, bal, src, dst);
  }

  /** The forwarding pair only touches the payments. */
  lemma ForwardKeepsAssessment(sc: School, sid: int, amount: real, src: Term, dst: Term)
    ensures var db' := ForwardPair(sc, sid, amount, src, dst).db;
      TermAssessment(db', sid, src) == TermAssessment(sc.db, sid, src)
  {
    var db' := ForwardPair(sc, sid, amount, src, dst).db;
    AssessmentFromInputs(db', sc.db, sid, src);
  }

  /** When the target term is the source term (a move back a year level
      within the same semester of the system year, say), the pair cancels
      out: the source balance stays what it was although the page reports
      it forwarded. */
  lemma ForwardOntoSourceCancels(sc: School, sid: int, amount: real, src: Term)
    ensures TermPaid(ForwardPair(sc, sid, amount, src, src).db.payments, sid, src) == TermPaid(sc.db.payments, sid, src)
    ensures TotalPaid(ForwardPair(sc, sid, amount, src, src).db.payments, sid) == TotalPaid(sc.db.payments, sid)
  {
    var p0 := sc.db.payments;
    var c := Payment(sid, src.ay, src.sem, amount);
    var d := Payment(sid, src.ay, src.sem, -amount);
    assert p0 + [c, d] == (p0 + [c]) + [d];
    TermPaidAppend(p0, c, sid, src);
    TermPaidAppend(p0 + [c], d, sid, src);
  }

  // ---------------------------------------------------------------
  // The forwarding INSERT as the page binds it
  // ---------------------------------------------------------------

  /** The leading decimal digits of a string. */
  function LeadingDigits(s: string): (r: string)
    ensures |r| <= |s| && r == s[..|r|] && AllDigits(r)
    ensures |r| < |s| ==> !IsDigit(s[|r|])
    decreases |s|
  {
    if s != [] && IsDigit(s[0]) then [s[0]] + LeadingDigits(s[1..]) else []
  }

  /** An academic year bound as an `i` parameter: the string is cast to an
      integer, which reads its leading digits, and the VARCHAR column
      stores that integer's decimal rendering. */
  function BoundAsInt(ay: string): (r: string)
    ensures AllDigits(r)
  {
    NatToString(DigitsValue(LeadingDigits(ay)))
  }

  /** The pair as the page inserts it: its type string binds the academic
      year with `i`, so both rows carry the bound-as-integer year. */
  function ForwardPairAsBound(sc: School, sid: int, amount: real, src: Term, dst: Term): School {
    sc.(db := sc.db.(payments := sc.db.payments
      + [Payment(sid, BoundAsInt(src.ay), src.sem, amount), Payment(sid, BoundAsInt(dst.ay), dst.sem, -amount)]))
  }

  /** No string of digits is a well-formed academic year. */
  lemma DigitsAreNoAY(r: string, ay: string)
    requires AllDigits(r) && MatchesAY(ay)
    ensures r != ay
  {
    if |r| > 4 {
      assert IsDigit(r[4]) && ay[4] == '-';
    }
  }

  /** A well-formed academic year is bound as its first year. */
  lemma BoundAsIntOfAY(ay: string)
    requires MatchesAY(ay)
    ensures BoundAsInt(ay) == NatToString(ParseAY(ay).value.first)
  {
    assert LeadingDigits(ay) == ay[..4];
  }

  /** "2025-2026" is stored as "2025". */
  lemma BoundAsIntExample()
    ensures BoundAsInt("2025-2026") == "2025"
  {
    var s := "2025-2026";
    assert s[..4] == "2025" && s[5..9] == "2026";
    assert MatchesAY(s);
    BoundAsIntOfAY(s);
    DigitsValueFour('2', '0', '2', '5');
    Render2025();
  }

  lemma Render2025()
    ensures NatToString(2025) == "2025"
  {
    assert NatToString(20) == "20";
    assert NatToString(202) == "202";
  }

  /** As bound, the pair never lands on a well-formed source term: the
      source term's payments and balance stay what they were, so a
      confirmed forward leaves the balance it reported forwarded still
      owing on the source term. */
  lemma ForwardAsBoundMissesSource(sc: School, sid: int, amount: real, src: Term, dst: Term)
    requires MatchesAY(src.ay)
    ensures TermPaid(ForwardPairAsBound(sc, sid, amount, src, dst).db.payments, sid, src) == TermPaid(sc.db.payments, sid, src)
    ensures TermBalance(ForwardPairAsBound(sc, sid, amount, src, dst).db, sc.ops, sid, src) == TermBalance(sc.db, sc.ops, sid, src)
  {
    var p0 := sc.db.payments;
    var c := Payment(sid, BoundAsInt(src.ay), src.sem, amount);
    var d := Payment(sid, BoundAsInt(dst.ay), dst.sem, -amount);
    var db' := ForwardPairAsBound(sc, sid, amount, src, dst).db;
    DigitsAreNoAY(BoundAsInt(src.ay), src.ay);
    DigitsAreNoAY(BoundAsInt(dst.ay), src.ay);
    assert p0 + [c, d] == (p0 + [c]) + [d];
    TermPaidAppend(p0, c, sid, src);
    TermPaidAppend(p0 + [c], d, sid, src);
    AssessmentFromInputs(db', sc.db, sid, src);
  }

  /** The handler as the page runs it: the error list is built check by
      check, and a change of year level or semester goes to the gate. */
  method HandlePost(sc: School, rq: Request) returns (s': School, out: Outcome)
    ensures (s', out) == Submit(sc, rq)
  {
    var found := FindStudent(sc.students, rq.sid);
    if found.None? {
      return sc, NotFound;
    }
    var cur := found.value;
    assert Submit(sc, rq) == Decide(sc, rq, cur);
    var p := Normalize(rq.raw);
    var errors := CollectErrors(p, rq.emailValid);
    if errors == [] && EmailTakenBy(sc.students, p.email, rq.sid) {
      errors := errors + [EmailTaken];
    }
    assert errors == AllErrors(sc.students, rq.sid, p, rq.emailValid);
    if errors != [] {
      return sc, Rejected(errors);
    }
    if p.yearLevel != cur.yearLevel || p.semester != cur.semester {
      s', out := HandleMove(sc, rq, cur, p);
    } else {
      s' := Apply(sc, rq.sid, p);
      out := Updated(0.0);
    }
  }

  /** The gate and the writes of a move: the confirmation flag and the
      forwarded amount are set as the page sets them, then the term is
      completed, the profile written and the pair inserted. */
  method HandleMove(sc: School, rq: Request, cur: Profile, p: Profile) returns (s': School, out: Outcome)
    ensures (s', out) == Move(sc, rq.sid, p, SourceTerm(sc, rq, cur), TargetTerm(rq, cur, p), GateFor(sc, rq, cur))
  {
    var src := SourceTerm(sc, rq, cur);
    var balance := TermBalance(sc.db, sc.ops, rq.sid, src);
    var assessment := TermAssessment(sc.db, rq.sid, src);
    var g := GateFor(sc, rq, cur);
    assert g == GateOf(balance, assessment, rq.confirmed);
    var errors: seq<Error> := [];
    var forward := 0.0;
    var requiresConfirmation := false;
    if Round2(balance) > 0.0 {
      var threshold := Threshold(assessment);
      if Round2(balance) > threshold {
        errors := errors + [OverThreshold(balance, threshold)];
      } else if !rq.confirmed {
        requiresConfirmation := true;
      } else {
        forward := balance;
      }
    }
    GateForwardsWholeBalance(balance, assessment, rq.confirmed);
    if errors != [] {
      assert g.Blocked? && errors == [OverThreshold(g.balance, g.threshold)];
      return sc, Rejected(errors);
    }
    if requiresConfirmation {
      return sc, NeedsConfirmation(balance);
    }
    s' := Complete(sc, rq.sid, src);
    s' := Apply(s', rq.sid, p);
    if forward > 0.0 {
      s' := ForwardPair(s', rq.sid, forward, src, TargetTerm(rq, cur, p));
    }
    out := Updated(forward);
  }
}
