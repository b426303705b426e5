/** Grades and academic standing (config/academic_helpers.php): the term
    GPA, the cumulative GPA (GWA) with its per-term breakdown, the
    first-match standing rules, the standing upsert, the prerequisite check
    and the GPA interpretation. Grades follow the Philippine scale: 1.00 is
    the best grade, 3.00 the lowest passing one, 4.00 conditional and 5.00
    failed, so a LOWER number is a BETTER grade. */
module Academics {
  import opened Common
  import opened Money
  import opened Tables

  // ---------------------------------------------------------------
  // Stable ordering (the ORDER BY clauses of the queries)
  // ---------------------------------------------------------------

  /** Stable insertion: `x` goes in front of exactly the trailing elements
      it must precede. */
  function InsertBy<T>(x: T, s: seq<T>, before: (T, T) -> bool): (r: seq<T>)
    ensures multiset(r) == multiset(s) + multiset{x}
    decreases |s|
  {
    if s != [] && before(x, s[|s| - 1]) then
      assert s == s[..|s| - 1] + [s[|s| - 1]];
      InsertBy(x, s[..|s| - 1], before) + [s[|s| - 1]]
    else s + [x]
  }

  /** Stable insertion sort: rows the order does not separate keep their
      table order. */
  function SortBy<T>(s: seq<T>, before: (T, T) -> bool): (r: seq<T>)
    ensures multiset(r) == multiset(s)
    decreases |s|
  {
    if s == [] then []
    else
      assert s == s[..|s| - 1] + [s[|s| - 1]];
      InsertBy(s[|s| - 1], SortBy(s[..|s| - 1], before), before)
  }

  ghost predicate SortedBy<T>(s: seq<T>, before: (T, T) -> bool) {
    forall i, j :: 0 <= i < j < |s| ==> !before(s[j], s[i])
  }

  /** `before` is asymmetric and its complement is transitive. */
  ghost predicate StrictWeakOrder<T(!new)>(before: (T, T) -> bool) {
    (forall a, b :: before(a, b) ==> !before(b, a))
    && (forall a, b, c {:trigger before(a, b), before(b, c)} {:trigger before(a, c), before(a, b)}
          :: before(a, c) ==> before(a, b) || before(b, c))
  }

  /** Appending an element no earlier element must follow keeps a sorted
      sequence sorted. */
  lemma SortedSnoc<T>(s: seq<T>, y: T, before: (T, T) -> bool)
    requires SortedBy(s, before)
    requires forall i :: 0 <= i < |s| ==> !before(y, s[i])
    ensures SortedBy(s + [y], before)
  {
    var r := s + [y];
    forall i, j | 0 <= i < j < |r| ensures !before(r[j], r[i]) {
      if j < |s| {
        assert r[i] == s[i] && r[j] == s[j];
      } else {
        assert r[i] == s[i];
      }
    }
  }

  lemma {:induction false} InsertBySorted<T(!new)>(x: T, s: seq<T>, before: (T, T) -> bool)
    requires StrictWeakOrder(before) && SortedBy(s, before)
    ensures SortedBy(InsertBy(x, s, before), before)
    decreases |s|
  {
    if s != [] && before(x, s[|s| - 1]) {
      var init := s[..|s| - 1];
      var last := s[|s| - 1];
      assert SortedBy(init, before);
      InsertBySorted(x, init, before);
      var r0 := InsertBy(x, init, before);
      assert InsertBy(x, s, before) == r0 + [last];
      forall i | 0 <= i < |r0| ensures !before(last, r0[i]) {
        assert r0[i] in multiset(r0);
        if r0[i] != x {
          assert r0[i] in multiset(init);
          var k :| 0 <= k < |init| && init[k] == r0[i];
          assert s[k] == r0[i];
        }
      }
      SortedSnoc(r0, last, before);
    } else if s != [] {
      var last := s[|s| - 1];
      forall i | 0 <= i < |s| ensures !before(x, s[i]) {
        if i < |s| - 1 {
          assert !before(last, s[i]);
        }
      }
      SortedSnoc(s, x, before);
    } else {
      SortedSnoc(s, x, before);
    }
  }

  lemma {:induction false} SortBySorted<T(!new)>(s: seq<T>, before: (T, T) -> bool)
    requires StrictWeakOrder(before)
    ensures SortedBy(SortBy(s, before), before)
    decreases |s|
  {
    if s != [] {
      SortBySorted(s[..|s| - 1], before);
      InsertBySorted(s[|s| - 1], SortBy(s[..|s| - 1], before), before);
    }
  }

  // ---------------------------------------------------------------
  // Term GPA (calculateTermGPA)
  // ---------------------------------------------------------------

  /** A graded course as the grade queries return it: the term it was
      taken in, the course code, the course's units and the final grade. */
  datatype Graded = Graded(term: Term, code: string, units: int, grade: real)

  /** The per-course remark of the term report. */
  function CourseStatus(grade: real): string {
    if grade <= 3.00 then "Passed" else if grade <= 4.00 then "Conditional" else "Failed"
  }

  /** Passed up to 3.00, Conditional above that up to 4.00, Failed above
      4.00: every grade gets exactly one remark. */
  lemma CourseStatusExactly(grade: real)
    ensures CourseStatus(grade) == "Passed" <==> grade <= 3.00
    ensures CourseStatus(grade) == "Conditional" <==> 3.00 < grade <= 4.00
    ensures CourseStatus(grade) == "Failed" <==> 4.00 < grade
  {
  }

  /** A course's grade points: its grade times its units. */
  function Points(r: Graded): real {
    r.grade * r.units as real
  }

  function WeightedSum(rows: seq<Graded>): real
    decreases |rows|
  {
    if rows == [] then 0.0 else WeightedSum(rows[..|rows| - 1]) + Points(rows[|rows| - 1])
  }

  function UnitSum(rows: seq<Graded>): int
    decreases |rows|
  {
    if rows == [] then 0 else UnitSum(rows[..|rows| - 1]) + rows[|rows| - 1].units
  }

  /** Units of the courses graded 3.00 or better. */
  function PassedUnits(rows: seq<Graded>): int
    decreases |rows|
  {
    if rows == [] then 0
    else PassedUnits(rows[..|rows| - 1]) + (if rows[|rows| - 1].grade <= 3.00 then rows[|rows| - 1].units else 0)
  }

  /** Units of the courses graded worse than 3.00 (an independent reference
      for the reported failed units). */
  function UnitsAbove3(rows: seq<Graded>): int
    decreases |rows|
  {
    if rows == [] then 0
    else UnitsAbove3(rows[..|rows| - 1]) + (if rows[|rows| - 1].grade > 3.00 then rows[|rows| - 1].units else 0)
  }

  /** round(weighted / units, 2), or 0 when no units were graded. */
  function Average(weighted: real, units: int): real {
    if units > 0 then Round2(weighted / units as real) else 0.0
  }

  /** One line of the term report's grade list. */
  datatype GradeLine = GradeLine(code: string, units: int, grade: real, status: string)

  function Lines(rows: seq<Graded>): seq<GradeLine>
    decreases |rows|
  {
    if rows == [] then []
    else
      var r := rows[|rows| - 1];
      Lines(rows[..|rows| - 1]) + [GradeLine(r.code, r.units, r.grade, CourseStatus(r.grade))]
  }

  datatype TermReport = TermReport(
    gpa: real, totalUnits: int, passedUnits: int, failedUnits: int, grades: seq<GradeLine>)

  function TermReportOf(rows: seq<Graded>): TermReport {
    TermReport(Average(WeightedSum(rows), UnitSum(rows)), UnitSum(rows), PassedUnits(rows),
               UnitSum(rows) - PassedUnits(rows), Lines(rows))
  }

  /** The term query: the student's enrollments of the academic year, of
      any status, that carry a final grade and whose curriculum row is of
      semester `sem`, in table order. */
  function TermGraded(enrs: seq<Enrollment>, courses: seq<Course>, sid: int, t: Term): (r: seq<Graded>)
    ensures forall g :: g in r ==> g.term == t
    decreases |enrs|
  {
    if enrs == [] then []
    else
      var e := enrs[|enrs| - 1];
      var c := FindCourse(courses, e.courseId);
      TermGraded(enrs[..|enrs| - 1], courses, sid, t)
      + (if InTerm(courses, e, sid, t) && e.grade.Some?
         then [Graded(t, c.value.code, c.value.units, e.grade.value)] else [])
  }

  /** calculateTermGPA's loop over the graded rows. */
  method CalculateTermGPA(enrs: seq<Enrollment>, courses: seq<Course>, sid: int, t: Term)
    returns (report: TermReport)
    ensures report == TermReportOf(TermGraded(enrs, courses, sid, t))
  {
    var rows := TermGraded(enrs, courses, sid, t);
    var weighted, total, passed := 0.0, 0, 0;
    var grades: seq<GradeLine> := [];
    var i := 0;
    while i < |rows|
      invariant 0 <= i <= |rows|
      invariant weighted == WeightedSum(rows[..i])
      invariant total == UnitSum(rows[..i])
      invariant passed == PassedUnits(rows[..i])
      invariant grades == Lines(rows[..i])
    {
      TermStep(rows, i);
      var r := rows[i];
      grades := grades + [GradeLine(r.code, r.units, r.grade, CourseStatus(r.grade))];
      weighted := weighted + Points(r);
      total := total + r.units;
      if r.grade <= 3.00 {
        passed := passed + r.units;
      }
      i := i + 1;
    }
    assert rows[..i] == rows;
    report := TermReport(Average(weighted, total), total, passed, total - passed, grades);
  }

  /** The four sums of the term report, one row further. */
  lemma TermStep(rows: seq<Graded>, i: int)
    requires 0 <= i < |rows|
    ensures WeightedSum(rows[..i + 1]) == WeightedSum(rows[..i]) + Points(rows[i])
    ensures UnitSum(rows[..i + 1]) == UnitSum(rows[..i]) + rows[i].units
    ensures PassedUnits(rows[..i + 1]) == PassedUnits(rows[..i]) + (if rows[i].grade <= 3.00 then rows[i].units else 0)
    ensures Lines(rows[..i + 1]) == Lines(rows[..i]) + [GradeLine(rows[i].code, rows[i].units, rows[i].grade, CourseStatus(rows[i].grade))]
  {
    assert rows[..i + 1][..i] == rows[..i];
  }

  /** Passed and failed units split the graded units: the reported failed
      units are exactly the units graded worse than 3.00, and with
      non-negative units neither part exceeds the total. */
  lemma {:induction false} UnitsSplit(rows: seq<Graded>)
    ensures PassedUnits(rows) + UnitsAbove3(rows) == UnitSum(rows)
    ensures (forall g :: g in rows ==> g.units >= 0) ==> 0 <= PassedUnits(rows) <= UnitSum(rows)
    decreases |rows|
  {
    if rows != [] {
      UnitsSplit(rows[..|rows| - 1]);
      assert forall g :: g in rows[..|rows| - 1] ==> g in rows;
    }
  }

  /** The report's grade list has one line per graded course, in query
      order, carrying the course's code, units and grade and the remark
      its grade earns. */
  lemma {:induction false} LinesFollowRows(rows: seq<Graded>)
    ensures |Lines(rows)| == |rows|
    ensures forall i :: 0 <= i < |rows| ==>
      Lines(rows)[i] == GradeLine(rows[i].code, rows[i].units, rows[i].grade, CourseStatus(rows[i].grade))
    decreases |rows|
  {
    if rows != [] {
      LinesFollowRows(rows[..|rows| - 1]);
    }
  }

  lemma ScaleBounds(g: real, u: real, lo: real, hi: real)
    requires u >= 0.0 && lo <= g <= hi
    ensures lo * u <= g * u <= hi * u
  {
    assert (g - lo) * u >= 0.0;
    assert (hi - g) * u >= 0.0;
  }

  lemma AddBounds(total: real, units: real, w: real, a: real, x: real, u: real, lo: real, hi: real)
    requires lo * a <= w <= hi * a && lo * u <= x <= hi * u
    requires total == w + x && units == a + u
    ensures lo * units <= total <= hi * units
  {
    assert lo * (a + u) == lo * a + lo * u;
    assert hi * (a + u) == hi * a + hi * u;
  }

  lemma DivBounds(w: real, u: real, lo: real, hi: real)
    requires u > 0.0 && lo * u <= w <= hi * u
    ensures lo <= w / u <= hi
  {
    assert w / u * u == w;
  }

  /** `w` lies between `lo` and `hi` times `units`. */
  predicate Between(w: real, units: int, lo: real, hi: real) {
    lo * units as real <= w <= hi * units as real
  }

  /** With non-negative units and grades in [lo, hi], the weighted sum lies
      between lo and hi times the units. */
  lemma {:induction false} WeightedSumBounds(rows: seq<Graded>, lo: real, hi: real)
    requires forall g :: g in rows ==> g.units >= 0 && lo <= g.grade <= hi
    ensures Between(WeightedSum(rows), UnitSum(rows), lo, hi)
    decreases |rows|
  {
    if rows == [] {
      assert UnitSum(rows) as real == 0.0 && WeightedSum(rows) == 0.0;
    } else {
      var init := rows[..|rows| - 1];
      var r := rows[|rows| - 1];
      assert r in rows;
      assert forall g :: g in init ==> g in rows;
      WeightedSumBounds(init, lo, hi);
      WeightedSumStep(rows, lo, hi);
    }
  }

  lemma WeightedSumStep(rows: seq<Graded>, lo: real, hi: real)
    requires rows != []
    requires rows[|rows| - 1].units >= 0 && lo <= rows[|rows| - 1].grade <= hi
    requires Between(WeightedSum(rows[..|rows| - 1]), UnitSum(rows[..|rows| - 1]), lo, hi)
    ensures Between(WeightedSum(rows), UnitSum(rows), lo, hi)
  {
    var init := rows[..|rows| - 1];
    var r := rows[|rows| - 1];
    var u := r.units as real;
    ScaleBounds(r.grade, u, lo, hi);
    AddBounds(WeightedSum(rows), UnitSum(rows) as real, WeightedSum(init), UnitSum(init) as real, Points(r), u, lo, hi);
  }

  /** A GPA is a weighted average: with graded units and non-negative unit
      counts it lies between the (rounded) best and worst grade counted. */
  lemma GpaWithinGrades(rows: seq<Graded>, lo: real, hi: real)
    requires forall g :: g in rows ==> g.units >= 0 && lo <= g.grade <= hi
    requires UnitSum(rows) > 0
    ensures Round2(lo) <= Average(WeightedSum(rows), UnitSum(rows)) <= Round2(hi)
  {
    var u := UnitSum(rows) as real;
    var w := WeightedSum(rows);
    WeightedSumBounds(rows, lo, hi);
    assert Between(w, UnitSum(rows), lo, hi);
    assert lo * u <= w <= hi * u;
    DivBounds(w, u, lo, hi);
    Round2Monotone(lo, w / u);
    Round2Monotone(w / u, hi);
    assert Average(w, UnitSum(rows)) == Round2(w / u);
  }

  /** On the grading scale (every grade between 1.00 and 5.00) the term
      GPA is 0 with no graded units and otherwise between 1.00 and 5.00. */
  lemma TermGpaOnScale(enrs: seq<Enrollment>, courses: seq<Course>, sid: int, t: Term)
    requires forall c :: c in courses ==> c.units >= 0
    requires forall e :: e in enrs && e.grade.Some? ==> 1.00 <= e.grade.value <= 5.00
    ensures var r := TermReportOf(TermGraded(enrs, courses, sid, t));
      (r.totalUnits == 0 ==> r.gpa == 0.0)
      && (r.totalUnits > 0 ==> 1.00 <= r.gpa <= 5.00)
  {
    var rows := TermGraded(enrs, courses, sid, t);
    TermGradedFrom(enrs, courses, sid, t);
    if UnitSum(rows) > 0 {
      GpaWithinGrades(rows, 1.00, 5.00);
      Round2OfCents(100);
      Round2OfCents(500);
    }
  }

  /** Each row of the term query comes from a graded enrollment joined with
      its curriculum row. */
  lemma {:induction false} TermGradedFrom(enrs: seq<Enrollment>, courses: seq<Course>, sid: int, t: Term)
    ensures forall g :: g in TermGraded(enrs, courses, sid, t) ==>
      exists e, c :: e in enrs && c in courses && e.grade == Some(g.grade) && c.units == g.units && c.code == g.code
    decreases |enrs|
  {
    if enrs != [] {
      var init := enrs[..|enrs| - 1];
      TermGradedFrom(init, courses, sid, t);
      assert forall e :: e in init ==> e in enrs;
    }
  }

  // ---------------------------------------------------------------
  // Cumulative GPA (calculateCumulativeGPA)
  // ---------------------------------------------------------------

  /** The rows the cumulative query selects, before ordering: the
      student's enrollments with status Passed or Failed that carry a final
      grade, joined with their curriculum rows. */
  function CumulativeSelected(enrs: seq<Enrollment>, courses: seq<Course>, sid: int): seq<Graded>
    decreases |enrs|
  {
    if enrs == [] then []
    else
      var e := enrs[|enrs| - 1];
      var c := FindCourse(courses, e.courseId);
      CumulativeSelected(enrs[..|enrs| - 1], courses, sid)
      + (if e.studentId == sid && e.grade.Some? && (e.status == "Passed" || e.status == "Failed") && c.Some?
         then [Graded(Term(e.ay, c.value.semester), c.value.code, c.value.units, e.grade.value)] else [])
  }

  predicate EarlierTerm(a: Graded, b: Graded) {
    TermLess(a.term, b.term)
  }

  /** ORDER BY academic_year, semester (rows of one term in table order). */
  function CumulativeRows(enrs: seq<Enrollment>, courses: seq<Course>, sid: int): seq<Graded> {
    SortBy(CumulativeSelected(enrs, courses, sid), EarlierTerm)
  }

  lemma EarlierTermIsStrictWeakOrder()
    ensures StrictWeakOrder(EarlierTerm)
  {
    forall a: Graded, b: Graded | EarlierTerm(a, b) ensures !EarlierTerm(b, a) {
      if EarlierTerm(b, a) {
        TermLessTransitive(a.term, b.term, a.term);
        TermLessIrreflexive(a.term);
      }
    }
    forall a: Graded, b: Graded, c: Graded | EarlierTerm(a, c) ensures EarlierTerm(a, b) || EarlierTerm(b, c) {
      if !EarlierTerm(a, b) && !EarlierTerm(b, c) {
        if a.term != b.term { TermLessTotal(a.term, b.term); }
        if b.term != c.term { TermLessTotal(b.term, c.term); }
        if a.term == b.term && b.term == c.term {
          TermLessIrreflexive(a.term);
        } else if a.term == b.term {
          TermLessTransitive(a.term, c.term, b.term);
          TermLessIrreflexive(a.term);
        } else if b.term == c.term {
          TermLessTransitive(a.term, c.term, a.term);
          TermLessIrreflexive(a.term);
        } else {
          TermLessTransitive(c.term, b.term, a.term);
          TermLessTransitive(a.term, c.term, a.term);
          TermLessIrreflexive(a.term);
        }
      }
    }
  }

  /** The cumulative query returns exactly the student's graded Passed and
      Failed enrollments, in chronological term order. */
  lemma CumulativeRowsOrdered(enrs: seq<Enrollment>, courses: seq<Course>, sid: int)
    ensures multiset(CumulativeRows(enrs, courses, sid)) == multiset(CumulativeSelected(enrs, courses, sid))
    ensures forall i, j :: 0 <= i < j < |CumulativeRows(enrs, courses, sid)| ==>
      !TermLess(CumulativeRows(enrs, courses, sid)[j].term, CumulativeRows(enrs, courses, sid)[i].term)
  {
    EarlierTermIsStrictWeakOrder();
    SortBySorted(CumulativeSelected(enrs, courses, sid), EarlierTerm);
  }

  /** One entry of the per-term breakdown. */
  datatype TermTotal = TermTotal(term: Term, weighted: real, units: int, gpa: real)

  /** Position of the entry for `t`, or |acc| when there is none (isset on
      the term key). */
  function IndexOfTerm(acc: seq<TermTotal>, t: Term): (k: nat)
    ensures k <= |acc|
    decreases |acc|
  {
    if acc == [] then 0
    else if acc[0].term == t then 0
    else 1 + IndexOfTerm(acc[1..], t)
  }

  lemma {:induction false} IndexOfTermSpec(acc: seq<TermTotal>, t: Term)
    ensures IndexOfTerm(acc, t) < |acc| ==> acc[IndexOfTerm(acc, t)].term == t
    ensures forall j :: 0 <= j < IndexOfTerm(acc, t) ==> acc[j].term != t
    decreases |acc|
  {
    if acc != [] && acc[0].term != t {
      IndexOfTermSpec(acc[1..], t);
    }
  }

  /** Adds a row's points and units to its term's entry, opening the
      entry with zero sums the first time the term is seen. */
  function AddTo(acc: seq<TermTotal>, t: Term, w: real, u: int): seq<TermTotal> {
    var k := IndexOfTerm(acc, t);
    if k == |acc| then acc + [TermTotal(t, 0.0 + w, 0 + u, 0.0)]
    else acc[k := acc[k].(weighted := acc[k].weighted + w, units := acc[k].units + u)]
  }

  /** The step as the source writes it: open a zero entry when the term is
      new, then add to the entry. */
  lemma AddToShape(acc: seq<TermTotal>, t: Term, w: real, u: int)
    ensures var k := IndexOfTerm(acc, t);
      var acc1 := if k == |acc| then acc + [TermTotal(t, 0.0, 0, 0.0)] else acc;
      AddTo(acc, t, w, u) == acc1[k := acc1[k].(weighted := acc1[k].weighted + w, units := acc1[k].units + u)]
  {
    var k := IndexOfTerm(acc, t);
    if k == |acc| {
      var acc1 := acc + [TermTotal(t, 0.0, 0, 0.0)];
      assert acc1[k := acc1[k].(weighted := acc1[k].weighted + w, units := acc1[k].units + u)]
        == acc + [TermTotal(t, 0.0 + w, 0 + u, 0.0)];
    }
  }

  function Accumulate(rows: seq<Graded>): seq<TermTotal>
    decreases |rows|
  {
    if rows == [] then [] else AddTo(Accumulate(rows[..|rows| - 1]), rows[|rows| - 1].term, Points(rows[|rows| - 1]), rows[|rows| - 1].units)
  }

  /** The per-term GPAs, set once every row has been added. */
  function WithGpa(acc: seq<TermTotal>): seq<TermTotal> {
    seq(|acc|, k requires 0 <= k < |acc| => acc[k].(gpa := Average(acc[k].weighted, acc[k].units)))
  }

  /** The rows of `rows` taken in term `t`. */
  function RowsOf(rows: seq<Graded>, t: Term): seq<Graded>
    decreases |rows|
  {
    if rows == [] then []
    else RowsOf(rows[..|rows| - 1], t) + (if rows[|rows| - 1].term == t then [rows[|rows| - 1]] else [])
  }

  lemma {:induction false} RowsOfAbsent(rows: seq<Graded>, t: Term)
    requires !Mentions(rows, t)
    ensures RowsOf(rows, t) == []
    decreases |rows|
  {
    if rows != [] {
      RowsOfAbsent(rows[..|rows| - 1], t);
    }
  }

  predicate HasTerm(acc: seq<TermTotal>, t: Term) {
    exists k :: 0 <= k < |acc| && acc[k].term == t
  }

  predicate Mentions(rows: seq<Graded>, t: Term) {
    exists i :: 0 <= i < |rows| && rows[i].term == t
  }

  /** One step of the breakdown: the row's entry is found or appended,
      and only that entry changes. */
  lemma AddRowStep(acc: seq<TermTotal>, r: Graded)
    ensures var k := IndexOfTerm(acc, r.term); var acc' := AddTo(acc, r.term, Points(r), r.units);
      |acc'| == (if k == |acc| then |acc| + 1 else |acc|)
      && acc'[k].term == r.term
      && acc'[k].units == (if k < |acc| then acc[k].units else 0) + r.units
      && acc'[k].weighted == (if k < |acc| then acc[k].weighted else 0.0) + Points(r)
      && (forall j :: 0 <= j < |acc| && j != k ==> acc'[j] == acc[j])
      && (k == |acc| <==> !HasTerm(acc, r.term))
  {
    IndexOfTermSpec(acc, r.term);
  }

  /** The breakdown has an entry for exactly the terms the rows mention,
      and no two entries for the same term. */
  lemma {:induction false} AccumulateTerms(rows: seq<Graded>)
    ensures forall t :: HasTerm(Accumulate(rows), t) <==> Mentions(rows, t)
    ensures forall j, k :: 0 <= j < k < |Accumulate(rows)| ==> Accumulate(rows)[j].term != Accumulate(rows)[k].term
    decreases |rows|
  {
    if rows != [] {
      var init := rows[..|rows| - 1];
      var r := rows[|rows| - 1];
      var acc := Accumulate(init);
      AccumulateTerms(init);
      AddRowStep(acc, r);
      var acc' := Accumulate(rows);
      var k := IndexOfTerm(acc, r.term);
      forall t ensures HasTerm(acc', t) <==> Mentions(rows, t) {
        if HasTerm(acc', t) {
          var m :| 0 <= m < |acc'| && acc'[m].term == t;
          if m != k {
            assert acc[m].term == t;
            assert HasTerm(acc, t);
            assert Mentions(init, t);
            var i :| 0 <= i < |init| && init[i].term == t;
            assert rows[i].term == t;
          } else {
            assert rows[|rows| - 1].term == t;
          }
        }
        if Mentions(rows, t) {
          var i :| 0 <= i < |rows| && rows[i].term == t;
          if i < |init| {
            assert init[i].term == t;
            assert Mentions(init, t);
            assert HasTerm(acc, t);
            var m :| 0 <= m < |acc| && acc[m].term == t;
            if m != k { assert acc'[m].term == t; }
          }
        }
      }
    }
  }

  /** Entry `j` of the breakdown holds exactly the sums over its term's
      rows. */
  lemma {:induction false} AccumulateSumsAt(rows: seq<Graded>, j: int)
    requires 0 <= j < |Accumulate(rows)|
    ensures Accumulate(rows)[j].units == UnitSum(RowsOf(rows, Accumulate(rows)[j].term))
    ensures Accumulate(rows)[j].weighted == WeightedSum(RowsOf(rows, Accumulate(rows)[j].term))
    decreases |rows|
  {
    var init := rows[..|rows| - 1];
    var r := rows[|rows| - 1];
    var acc := Accumulate(init);
    AddRowStep(acc, r);
    var k := IndexOfTerm(acc, r.term);
    var acc' := Accumulate(rows);
    var t := acc'[j].term;
    var rs := RowsOf(rows, t);
    if j == k {
      assert rs == RowsOf(init, t) + [r];
      assert rs[..|rs| - 1] == RowsOf(init, t);
      if k == |acc| {
        AccumulateTerms(init);
        RowsOfAbsent(init, t);
      } else {
        AccumulateSumsAt(init, j);
      }
    } else {
      assert acc'[j] == acc[j];
      AccumulateSumsAt(init, j);
      AccumulateTerms(init);
      assert t != r.term;
      assert rs == RowsOf(init, t);
    }
  }

  /** Every entry of the breakdown holds exactly the sums over its term's
      rows. */
  lemma AccumulateSums(rows: seq<Graded>)
    ensures forall k :: 0 <= k < |Accumulate(rows)| ==>
      Accumulate(rows)[k].units == UnitSum(RowsOf(rows, Accumulate(rows)[k].term))
      && Accumulate(rows)[k].weighted == WeightedSum(RowsOf(rows, Accumulate(rows)[k].term))
  {
    forall k | 0 <= k < |Accumulate(rows)|
      ensures Accumulate(rows)[k].units == UnitSum(RowsOf(rows, Accumulate(rows)[k].term))
      ensures Accumulate(rows)[k].weighted == WeightedSum(RowsOf(rows, Accumulate(rows)[k].term))
    {
      AccumulateSumsAt(rows, k);
    }
  }

  /** The term entries together account for every graded unit. */
  function TotalUnits(acc: seq<TermTotal>): int
    decreases |acc|
  {
    if acc == [] then 0 else TotalUnits(acc[..|acc| - 1]) + acc[|acc| - 1].units
  }

  lemma {:induction false} TotalUnitsUpdate(acc: seq<TermTotal>, k: int, x: TermTotal)
    requires 0 <= k < |acc|
    ensures TotalUnits(acc[k := x]) == TotalUnits(acc) - acc[k].units + x.units
    decreases |acc|
  {
    if k < |acc| - 1 {
      assert acc[k := x][..|acc| - 1] == acc[..|acc| - 1][k := x];
      TotalUnitsUpdate(acc[..|acc| - 1], k, x);
    } else {
      assert acc[k := x][..|acc| - 1] == acc[..|acc| - 1];
    }
  }

  /** The per-term unit sums add up to the total units. */
  lemma {:induction false} TermUnitsAddUp(rows: seq<Graded>)
    ensures TotalUnits(Accumulate(rows)) == UnitSum(rows)
    ensures TotalUnits(WithGpa(Accumulate(rows))) == UnitSum(rows)
    decreases |rows|
  {
    if rows != [] {
      var init := rows[..|rows| - 1];
      var r := rows[|rows| - 1];
      var acc := Accumulate(init);
      TermUnitsAddUp(init);
      var k := IndexOfTerm(acc, r.term);
      if k == |acc| {
        assert Accumulate(rows)[..|acc|] == acc;
      } else {
        TotalUnitsUpdate(acc, k, Accumulate(rows)[k]);
        assert Accumulate(rows) == acc[k := Accumulate(rows)[k]];
      }
    }
    TotalUnitsOfWithGpa(Accumulate(rows));
  }

  lemma {:induction false} TotalUnitsOfWithGpa(acc: seq<TermTotal>)
    ensures TotalUnits(WithGpa(acc)) == TotalUnits(acc)
    decreases |acc|
  {
    if acc != [] {
      assert WithGpa(acc)[..|acc| - 1] == WithGpa(acc[..|acc| - 1]);
      TotalUnitsOfWithGpa(acc[..|acc| - 1]);
    }
  }

  /** round(passed / total * 100, 1), or 0 with no units. */
  function CompletionRate(passed: int, total: int): real {
    if total > 0 then Round1(passed as real / total as real * 100.0) else 0.0
  }

  /** The completion rate is a percentage. */
  lemma CompletionRateBounds(passed: int, total: int)
    requires 0 <= passed <= total
    ensures 0.0 <= CompletionRate(passed, total) <= 100.0
    ensures passed == total && total > 0 ==> CompletionRate(passed, total) == 100.0
  {
    if total > 0 {
      var q := passed as real / total as real;
      var x := q * 100.0;
      DivBounds(passed as real, total as real, 0.0, 1.0);
      FloorMonotone(x * 10.0 + 0.5, 1000.5);
      assert (1000.5).Floor == 1000;
      if passed == total {
        DivBounds(passed as real, total as real, 1.0, 1.0);
        assert x * 10.0 + 0.5 == 1000.5;
      }
    }
  }

  datatype Cumulative = Cumulative(
    gpa: real, totalUnits: int, passedUnits: int, failedUnits: int,
    completionRate: real, terms: seq<TermTotal>)

  function CumulativeOf(rows: seq<Graded>): Cumulative {
    var total := UnitSum(rows);
    var passed := PassedUnits(rows);
    Cumulative(Average(WeightedSum(rows), total), total, passed, total - passed,
               CompletionRate(passed, total), WithGpa(Accumulate(rows)))
  }

  /** calculateCumulativeGPA's first pass: each row is added to the
      totals and to its term's entry. */
  method SumByTerm(rows: seq<Graded>) returns (weighted: real, total: int, passed: int, terms: seq<TermTotal>)
    ensures weighted == WeightedSum(rows) && total == UnitSum(rows) && passed == PassedUnits(rows)
    ensures terms == Accumulate(rows)
  {
    weighted, total, passed := 0.0, 0, 0;
    terms := [];
    var i := 0;
    while i < |rows|
      invariant 0 <= i <= |rows|
      invariant weighted == WeightedSum(rows[..i])
      invariant total == UnitSum(rows[..i])
      invariant passed == PassedUnits(rows[..i])
      invariant terms == Accumulate(rows[..i])
    {
      assert rows[..i + 1][..i] == rows[..i];
      var r := rows[i];
      ghost var prev := terms;
      var k := IndexOfTerm(terms, r.term);
      if k == |terms| {
        terms := terms + [TermTotal(r.term, 0.0, 0, 0.0)];
      }
      var points := Points(r);
      weighted := weighted + points;
      total := total + r.units;
      terms := terms[k := terms[k].(weighted := terms[k].weighted + points, units := terms[k].units + r.units)];
      AddToShape(prev, r.term, points, r.units);
      assert Accumulate(rows[..i + 1]) == AddTo(Accumulate(rows[..i]), r.term, points, r.units);
      if r.grade <= 3.00 {
        passed := passed + r.units;
      }
      i := i + 1;
    }
    assert rows[..i] == rows;
  }

  /** The second pass, by reference: each term's GPA from its own sums. */
  method SetTermGpas(acc: seq<TermTotal>) returns (terms: seq<TermTotal>)
    ensures terms == WithGpa(acc)
  {
    terms := acc;
    var j := 0;
    while j < |terms|
      invariant 0 <= j <= |terms| == |acc|
      invariant forall m :: 0 <= m < j ==> terms[m] == WithGpa(acc)[m]
      invariant forall m :: j <= m < |terms| ==> terms[m] == acc[m]
    {
      terms := terms[j := terms[j].(gpa := Average(terms[j].weighted, terms[j].units))];
      j := j + 1;
    }
  }

  /** calculateCumulativeGPA. */
  method CalculateCumulativeGPA(enrs: seq<Enrollment>, courses: seq<Course>, sid: int)
    returns (result: Cumulative)
    ensures result == CumulativeOf(CumulativeRows(enrs, courses, sid))
  {
    var rows := CumulativeRows(enrs, courses, sid);
    var weighted, total, passed, acc := SumByTerm(rows);
    var terms := SetTermGpas(acc);
    result := Cumulative(Average(weighted, total), total, passed, total - passed,
                         CompletionRate(passed, total), terms);
  }

  // ---------------------------------------------------------------
  // Academic standing (determineAcademicStanding)
  // ---------------------------------------------------------------

  /** An academic_standing_config row; a missing GPA bound is NULL. */
  datatype StandingConfig = StandingConfig(
    standing: string, description: string, minGpa: Option<real>, maxGpa: Option<real>,
    minUnits: int, priority: int, active: bool)

  datatype StandingInfo = StandingInfo(standing: string, description: string, css: string)

  predicate HigherPriority(a: StandingConfig, b: StandingConfig) {
    a.priority > b.priority
  }

  function ActiveOnly(table: seq<StandingConfig>): seq<StandingConfig>
    decreases |table|
  {
    if table == [] then []
    else ActiveOnly(table[..|table| - 1]) + (if table[|table| - 1].active then [table[|table| - 1]] else [])
  }

  lemma {:induction false} ActiveOnlySpec(table: seq<StandingConfig>)
    ensures forall c :: c in ActiveOnly(table) <==> c in table && c.active
    decreases |table|
  {
    if table != [] {
      ActiveOnlySpec(table[..|table| - 1]);
      assert table == table[..|table| - 1] + [table[|table| - 1]];
    }
  }

  /** WHERE is_active = 1 ORDER BY priority DESC (equal priorities in
      table order). */
  function ActiveConfigs(table: seq<StandingConfig>): seq<StandingConfig> {
    SortBy(ActiveOnly(table), HigherPriority)
  }

  /** Inclusive GPA bounds (a NULL bound does not constrain) and the unit
      minimum. */
  predicate Meets(c: StandingConfig, gpa: real, units: int) {
    units >= c.minUnits
    && (c.minGpa.None? || gpa >= c.minGpa.value)
    && (c.maxGpa.None? || gpa <= c.maxGpa.value)
  }

  /** Position of the first config that the GPA and units meet, or
      |configs| when none does. */
  function FirstMeeting(configs: seq<StandingConfig>, gpa: real, units: int): (k: nat)
    ensures k <= |configs|
    ensures k < |configs| ==> Meets(configs[k], gpa, units)
    ensures forall j :: 0 <= j < k ==> !Meets(configs[j], gpa, units)
    decreases |configs|
  {
    if configs == [] then 0
    else if Meets(configs[0], gpa, units) then 0
    else 1 + FirstMeeting(configs[1..], gpa, units)
  }

  /** The badge class of each standing; anything else is status-default. */
  function CssClass(standing: string): string {
    if standing == "Dean's List" then "status-deans-list"
    else if standing == "With Honors" then "status-honors"
    else if standing == "Good Standing" then "status-good"
    else if standing == "Warning" then "status-warning"
    else if standing == "Probation" then "status-probation"
    else if standing == "Dismissed" then "status-dismissed"
    else "status-default"
  }

  const KnownStandings: set<string> :=
    {"Dean's List", "With Honors", "Good Standing", "Warning", "Probation", "Dismissed"}

  /** Only the six known standings have a class of their own. */
  lemma CssClassDefault(standing: string)
    ensures CssClass(standing) == "status-default" <==> standing !in KnownStandings
  {
  }

  const Pending := StandingInfo("Pending", "No grades recorded yet", "status-pending")

  function StandingOf(table: seq<StandingConfig>, gpa: real, units: int): StandingInfo {
    if gpa == 0.0 then Pending
    else
      var cs := ActiveConfigs(table);
      var k := FirstMeeting(cs, gpa, units);
      var standing := if k < |cs| then cs[k].standing else "Good Standing";
      var description := if k < |cs| then cs[k].description else "Meeting academic requirements";
      StandingInfo(standing, description, CssClass(standing))
  }

  /** The configs consulted are the active ones, highest priority
      first. */
  lemma ActiveConfigsSpec(table: seq<StandingConfig>)
    ensures forall c :: c in ActiveConfigs(table) <==> c in table && c.active
    ensures forall i, j :: 0 <= i < j < |ActiveConfigs(table)| ==>
      ActiveConfigs(table)[i].priority >= ActiveConfigs(table)[j].priority
  {
    var cs := ActiveConfigs(table);
    ActiveOnlySpec(table);
    forall c ensures c in cs <==> c in ActiveOnly(table) {
      assert c in cs <==> c in multiset(cs);
    }
    SortBySorted(ActiveOnly(table), HigherPriority);
  }

  /** In a list ordered by descending priority, the first met config has
      the highest priority among the met ones. */
  lemma FirstMeetingHighest(cs: seq<StandingConfig>, gpa: real, units: int, m: int)
    requires forall i, j :: 0 <= i < j < |cs| ==> cs[i].priority >= cs[j].priority
    requires 0 <= m < |cs| && Meets(cs[m], gpa, units)
    ensures FirstMeeting(cs, gpa, units) <= m
    ensures forall n :: 0 <= n < |cs| && cs[n].priority > cs[FirstMeeting(cs, gpa, units)].priority ==> !Meets(cs[n], gpa, units)
  {
    var k := FirstMeeting(cs, gpa, units);
    forall n | 0 <= n < |cs| && cs[n].priority > cs[k].priority ensures !Meets(cs[n], gpa, units) {
      assert n < k;
    }
  }

  /** With a non-zero GPA and an active config `met` that the GPA and
      units meet, the standing is that of a met active config, and no
      active config of strictly higher priority is met. */
  lemma StandingRule(table: seq<StandingConfig>, gpa: real, units: int, met: StandingConfig)
    requires gpa != 0.0
    requires met in table && met.active && Meets(met, gpa, units)
    ensures exists c ::
      && c in table && c.active && Meets(c, gpa, units)
      && StandingOf(table, gpa, units) == StandingInfo(c.standing, c.description, CssClass(c.standing))
      && forall d :: d in table && d.active && d.priority > c.priority ==> !Meets(d, gpa, units)
  {
    var cs := ActiveConfigs(table);
    ActiveConfigsSpec(table);
    assert met in cs;
    var m :| 0 <= m < |cs| && cs[m] == met;
    FirstMeetingHighest(cs, gpa, units, m);
    var k := FirstMeeting(cs, gpa, units);
    var c := cs[k];
    assert StandingOf(table, gpa, units) == StandingInfo(c.standing, c.description, CssClass(c.standing));
    assert c in cs;
    forall d | d in table && d.active && d.priority > c.priority ensures !Meets(d, gpa, units) {
      assert d in cs;
      var n :| 0 <= n < |cs| && cs[n] == d;
    }
  }

  /** A GPA of 0 is Pending; a non-zero GPA that meets no active config is
      Good Standing. */
  lemma StandingDefault(table: seq<StandingConfig>, gpa: real, units: int)
    ensures gpa == 0.0 ==> StandingOf(table, gpa, units) == Pending
    ensures gpa != 0.0 && (forall c :: c in table && c.active ==> !Meets(c, gpa, units)) ==>
      StandingOf(table, gpa, units) == StandingInfo("Good Standing", "Meeting academic requirements", "status-good")
  {
    ActiveConfigsSpec(table);
  }

  /** determineAcademicStanding's loop: the first met config in priority
      order wins. */
  method DetermineAcademicStanding(table: seq<StandingConfig>, gpa: real, units: int) returns (info: StandingInfo)
    ensures info == StandingOf(table, gpa, units)
  {
    var configs := ActiveConfigs(table);
    var standing := "Good Standing";
    var description := "Meeting academic requirements";
    if gpa == 0.0 {
      return Pending;
    }
    var i := 0;
    while i < |configs|
      invariant 0 <= i <= |configs|
      invariant forall j :: 0 <= j < i ==> !Meets(configs[j], gpa, units)
    {
      var c := configs[i];
      var meetsGpa := true;
      var meetsUnits := units >= c.minUnits;
      if c.minGpa.Some? && gpa < c.minGpa.value {
        meetsGpa := false;
      }
      if c.maxGpa.Some? && gpa > c.maxGpa.value {
        meetsGpa := false;
      }
      if meetsGpa && meetsUnits {
        standing := c.standing;
        description := c.description;
        break;
      }
      i := i + 1;
    }
    assert i == FirstMeeting(configs, gpa, units);
    info := StandingInfo(standing, description, CssClass(standing));
  }

  // ---------------------------------------------------------------
  // Standing upsert (updateAcademicStanding)
  // ---------------------------------------------------------------

  /** An academic_standings row. */
  datatype StandingRow = StandingRow(
    sid: int, term: Term, gpa: real, standing: string, unitsTaken: int, unitsPassed: int)

  /** The cumulative figures kept on a students row. */
  datatype AcademicRecord = AcademicRecord(cumulativeGpa: real, standing: string)

  datatype Records = Records(standings: seq<StandingRow>, students: map<int, AcademicRecord>)

  predicate SameKey(a: StandingRow, b: StandingRow) {
    a.sid == b.sid && a.term == b.term
  }

  /** UPDATE every row with the key when one exists, INSERT otherwise. */
  function Upsert(rows: seq<StandingRow>, row: StandingRow): seq<StandingRow> {
    if exists i :: 0 <= i < |rows| && SameKey(rows[i], row)
    then seq(|rows|, i requires 0 <= i < |rows| => if SameKey(rows[i], row) then row else rows[i])
    else rows + [row]
  }

  /** After the upsert the key has at least one row, every row with the key
      carries the new figures, and every other row keeps its place and
      contents; a row is added only when the key had none. */
  lemma UpsertRule(rows: seq<StandingRow>, row: StandingRow)
    ensures var r := Upsert(rows, row);
      (exists i :: 0 <= i < |r| && SameKey(r[i], row))
      && (forall i :: 0 <= i < |r| && SameKey(r[i], row) ==> r[i] == row)
      && (forall i :: 0 <= i < |rows| && !SameKey(rows[i], row) ==> r[i] == rows[i])
      && |r| == |rows| + (if exists i :: 0 <= i < |rows| && SameKey(rows[i], row) then 0 else 1)
  {
    var r := Upsert(rows, row);
    if exists i :: 0 <= i < |rows| && SameKey(rows[i], row) {
      var i :| 0 <= i < |rows| && SameKey(rows[i], row);
      assert SameKey(r[i], row);
    } else {
      assert SameKey(r[|rows|], row);
    }
  }

  /** updateAcademicStanding: false and no write when the term has no
      graded units; otherwise the term's standing row is upserted with the
      term GPA, the standing it earns and the unit counts, and the
      student's row gets the cumulative GPA and that standing. */
  function UpdateAcademicStanding(rec: Records, enrs: seq<Enrollment>, courses: seq<Course>,
                                  table: seq<StandingConfig>, sid: int, t: Term): (bool, Records)
  {
    var report := TermReportOf(TermGraded(enrs, courses, sid, t));
    if report.totalUnits == 0 then (false, rec)
    else
      var info := StandingOf(table, report.gpa, report.totalUnits);
      var row := StandingRow(sid, t, report.gpa, info.standing, report.totalUnits, report.passedUnits);
      var cumulative := CumulativeOf(CumulativeRows(enrs, courses, sid));
      var students := if sid in rec.students
        then rec.students[sid := AcademicRecord(cumulative.gpa, info.standing)] else rec.students;
      (true, Records(Upsert(rec.standings, row), students))
  }

  /** No graded units: nothing is written. Otherwise the term's row holds
      the term figures and the standing they earn, other students' rows
      and records are untouched, and the student's record (if the student
      exists) holds the cumulative GPA and the term's standing. */
  lemma UpdateAcademicStandingRule(rec: Records, enrs: seq<Enrollment>, courses: seq<Course>,
                                   table: seq<StandingConfig>, sid: int, t: Term)
    ensures var (ok, rec') := UpdateAcademicStanding(rec, enrs, courses, table, sid, t);
      var report := TermReportOf(TermGraded(enrs, courses, sid, t));
      (!ok <==> report.totalUnits == 0)
      && (!ok ==> rec' == rec)
      && (ok ==> forall i :: 0 <= i < |rec'.standings| && rec'.standings[i].sid == sid && rec'.standings[i].term == t ==>
            rec'.standings[i] == StandingRow(sid, t, report.gpa, StandingOf(table, report.gpa, report.totalUnits).standing,
                                             report.totalUnits, report.passedUnits))
      && (ok ==> exists i :: 0 <= i < |rec'.standings| && rec'.standings[i].sid == sid && rec'.standings[i].term == t)
      && (ok ==> forall i :: 0 <= i < |rec.standings| && rec.standings[i].sid != sid ==> rec'.standings[i] == rec.standings[i])
      && rec'.students.Keys == rec.students.Keys
      && (forall s :: s in rec.students && s != sid ==> rec'.students[s] == rec.students[s])
      && (ok && sid in rec.students ==>
            rec'.students[sid].cumulativeGpa == CumulativeOf(CumulativeRows(enrs, courses, sid)).gpa
            && rec'.students[sid].standing == StandingOf(table, report.gpa, report.totalUnits).standing)
  {
    var report := TermReportOf(TermGraded(enrs, courses, sid, t));
    if report.totalUnits != 0 {
      var info := StandingOf(table, report.gpa, report.totalUnits);
      UpsertRule(rec.standings, StandingRow(sid, t, report.gpa, info.standing, report.totalUnits, report.passedUnits));
    }
  }

  // ---------------------------------------------------------------
  // Prerequisites (checkPrerequisites)
  // ---------------------------------------------------------------

  /** A course_prerequisites row; min_grade may be NULL. */
  datatype PrereqRow = PrereqRow(courseId: int, requiredId: int, minGrade: Option<real>)

  /** A prerequisite joined with the required course's curriculum row. */
  datatype Required = Required(requiredId: int, code: string, minGrade: Option<real>)

  /** The prerequisites of course `cid`, in table order (a prerequisite
      whose required course has no curriculum row drops out of the
      join). */
  function PrereqsOf(table: seq<PrereqRow>, courses: seq<Course>, cid: int): seq<Required>
    decreases |table|
  {
    if table == [] then []
    else
      var p := table[|table| - 1];
      var c := FindCourse(courses, p.requiredId);
      PrereqsOf(table[..|table| - 1], courses, cid)
      + (if p.courseId == cid && c.Some? then [Required(p.requiredId, c.value.code, p.minGrade)] else [])
  }

  /** An enrollment satisfies the prerequisite when it is the student's,
      for the required course, and either Passed or graded no worse than
      the minimum grade (a NULL minimum compares as unknown, so only Passed
      counts then). */
  predicate Satisfies(e: Enrollment, sid: int, p: Required) {
    e.studentId == sid && e.courseId == p.requiredId
    && (e.status == "Passed" || (e.grade.Some? && p.minGrade.Some? && e.grade.value <= p.minGrade.value))
  }

  predicate Met(enrs: seq<Enrollment>, sid: int, p: Required) {
    exists i :: 0 <= i < |enrs| && Satisfies(enrs[i], sid, p)
  }

  function Unmet(enrs: seq<Enrollment>, sid: int, ps: seq<Required>): seq<Required>
    decreases |ps|
  {
    if ps == [] then []
    else Unmet(enrs, sid, ps[..|ps| - 1]) + (if Met(enrs, sid, ps[|ps| - 1]) then [] else [ps[|ps| - 1]])
  }

  function Codes(ps: seq<Required>): seq<string>
    decreases |ps|
  {
    if ps == [] then [] else Codes(ps[..|ps| - 1]) + [ps[|ps| - 1].code]
  }

  /** implode(", ", ...). */
  function Join(parts: seq<string>, sep: string): string
    decreases |parts|
  {
    if parts == [] then ""
    else if |parts| == 1 then parts[0]
    else Join(parts[..|parts| - 1], sep) + sep + parts[|parts| - 1]
  }

  datatype PrereqCheck = PrereqCheck(canEnroll: bool, missing: seq<Required>, message: string)

  function PrereqCheckOf(enrs: seq<Enrollment>, sid: int, ps: seq<Required>): PrereqCheck {
    if ps == [] then PrereqCheck(true, [], "No prerequisites required")
    else
      var missing := Unmet(enrs, sid, ps);
      if missing == [] then PrereqCheck(true, [], "All prerequisites met")
      else PrereqCheck(false, missing,
        "Missing " + NatToString(|missing|) + " prerequisite(s): " + Join(Codes(missing), ", "))
  }

  lemma {:induction false} UnmetSpec(enrs: seq<Enrollment>, sid: int, ps: seq<Required>)
    ensures forall p :: p in Unmet(enrs, sid, ps) <==> p in ps && !Met(enrs, sid, p)
    ensures |Unmet(enrs, sid, ps)| <= |ps|
    decreases |ps|
  {
    if ps != [] {
      UnmetSpec(enrs, sid, ps[..|ps| - 1]);
      assert ps == ps[..|ps| - 1] + [ps[|ps| - 1]];
    }
  }

  /** The student may enroll iff every prerequisite is met (vacuously with
      none), and the missing list holds exactly the unmet prerequisites. */
  lemma PrerequisiteRule(enrs: seq<Enrollment>, sid: int, ps: seq<Required>)
    ensures var r := PrereqCheckOf(enrs, sid, ps);
      (r.canEnroll <==> forall p :: p in ps ==> Met(enrs, sid, p))
      && (forall p :: p in r.missing <==> p in ps && !Met(enrs, sid, p))
  {
    UnmetSpec(enrs, sid, ps);
    var missing := Unmet(enrs, sid, ps);
    if missing != [] {
      assert missing[0] in missing;
    }
  }

  /** A refusal's message opens with the number of missing
      prerequisites. */
  lemma RefusalCountsMissing(enrs: seq<Enrollment>, sid: int, ps: seq<Required>)
    requires !PrereqCheckOf(enrs, sid, ps).canEnroll
    ensures var r := PrereqCheckOf(enrs, sid, ps);
      |r.missing| > 0 && r.message[..8 + |NatToString(|r.missing|)|] == "Missing " + NatToString(|r.missing|)
  {
    var r := PrereqCheckOf(enrs, sid, ps);
    var head := "Missing " + NatToString(|r.missing|);
    assert r.message == head + (" prerequisite(s): " + Join(Codes(r.missing), ", "));
  }

  /** checkPrerequisites' loop over the course's prerequisites. */
  method CheckPrerequisites(enrs: seq<Enrollment>, table: seq<PrereqRow>, courses: seq<Course>, sid: int, cid: int)
    returns (r: PrereqCheck)
    ensures r == PrereqCheckOf(enrs, sid, PrereqsOf(table, courses, cid))
  {
    var ps := PrereqsOf(table, courses, cid);
    if ps == [] {
      return PrereqCheck(true, [], "No prerequisites required");
    }
    var missing: seq<Required> := [];
    var canEnroll := true;
    var i := 0;
    while i < |ps|
      invariant 0 <= i <= |ps|
      invariant missing == Unmet(enrs, sid, ps[..i])
      invariant canEnroll <==> missing == []
    {
      assert ps[..i + 1][..i] == ps[..i];
      if !Met(enrs, sid, ps[i]) {
        canEnroll := false;
        missing := missing + [ps[i]];
      }
      i := i + 1;
    }
    assert ps[..i] == ps;
    var message := if canEnroll then "All prerequisites met"
      else "Missing " + NatToString(|missing|) + " prerequisite(s): " + Join(Codes(missing), ", ");
    r := PrereqCheck(canEnroll, missing, message);
  }

  // ---------------------------------------------------------------
  // GPA interpretation (getGPAInterpretation)
  // ---------------------------------------------------------------

  datatype Interpretation = Interpretation(rating: string, color: string)

  function Interpret(gpa: real): Interpretation {
    if gpa == 0.0 then Interpretation("N/A", "#999")
    else if gpa <= 1.25 then Interpretation("Excellent", "#28a745")
    else if gpa <= 1.75 then Interpretation("Very Good", "#20c997")
    else if gpa <= 2.25 then Interpretation("Good", "#17a2b8")
    else if gpa <= 2.75 then Interpretation("Satisfactory", "#6c757d")
    else if gpa <= 3.00 then Interpretation("Passing", "#ffc107")
    else if gpa <= 4.00 then Interpretation("Conditional", "#fd7e14")
    else Interpretation("Failed", "#dc3545")
  }

  /** Position of a rating from best to worst; N/A is 0. */
  function Rank(rating: string): nat {
    if rating == "Excellent" then 1
    else if rating == "Very Good" then 2
    else if rating == "Good" then 3
    else if rating == "Satisfactory" then 4
    else if rating == "Passing" then 5
    else if rating == "Conditional" then 6
    else if rating == "Failed" then 7
    else 0
  }

  /** The interpretation is an ordered classification: N/A exactly for 0,
      otherwise a worse (higher) GPA never gets a better rating, and the
      Passing / Conditional / Failed boundaries agree with the per-course
      remarks. */
  lemma InterpretationOrdered(a: real, b: real)
    ensures Interpret(a).rating == "N/A" <==> a == 0.0
    ensures a != 0.0 && b != 0.0 && a <= b ==> 1 <= Rank(Interpret(a).rating) <= Rank(Interpret(b).rating) <= 7
    ensures a != 0.0 ==> (Rank(Interpret(a).rating) <= 5 <==> CourseStatus(a) == "Passed")
    ensures a != 0.0 ==> (Interpret(a).rating == "Conditional" <==> CourseStatus(a) == "Conditional")
    ensures a != 0.0 ==> (Interpret(a).rating == "Failed" <==> CourseStatus(a) == "Failed")
  {
  }
}
