/** What the schedule and grades tabs of the student schedule page compute
    from their query results: the per-course grouping of meetings with the
    total units, the list of clashes between courses of the same term, and
    the general weighted average. */
module ScheduleView {
  import opened Common
  import opened Money
  import opened Timetable
  import Academics

  // ---------------------------------------------------------------
  // Grouping the schedule rows by course
  // ---------------------------------------------------------------

  /** A row of the schedule query: the enrolled course, its units, the
      academic year of the enrollment, the course's semester and one
      meeting. */
  datatype SchedRow = SchedRow(courseId: int, units: int, ay: string, sem: int, slot: Slot)

  /** One course of the schedule: the header comes from the course's first
      row, the meetings from all of its rows. */
  datatype Group = Group(courseId: int, units: int, ay: string, sem: int, meetings: seq<Slot>)

  /** The position of the course's group, or |gs| when it has none yet. */
  function IndexOfGroup(gs: seq<Group>, cid: int): (k: nat)
    ensures k <= |gs|
    ensures k < |gs| ==> gs[k].courseId == cid
    ensures forall j :: 0 <= j < k ==> gs[j].courseId != cid
    decreases |gs|
  {
    if gs == [] then 0
    else if gs[0].courseId == cid then 0
    else 1 + IndexOfGroup(gs[1..], cid)
  }

  /** The grouping foreach: a course seen for the first time opens a group,
      and every row adds its meeting to its course's group. */
  function Grouped(rows: seq<SchedRow>): seq<Group>
    decreases |rows|
  {
    if rows == [] then []
    else
      var gs := Grouped(rows[..|rows| - 1]);
      var r := rows[|rows| - 1];
      var k := IndexOfGroup(gs, r.courseId);
      if k < |gs| then gs[k := gs[k].(meetings := gs[k].meetings + [r.slot])]
      else gs + [Group(r.courseId, r.units, r.ay, r.sem, [r.slot])]
  }

  /** The meetings of the course's rows, in row order. */
  function MeetingsOf(rows: seq<SchedRow>, cid: int): seq<Slot>
    decreases |rows|
  {
    if rows == [] then []
    else
      var r := rows[|rows| - 1];
      MeetingsOf(rows[..|rows| - 1], cid) + (if r.courseId == cid then [r.slot] else [])
  }

  /** The course's first row. */
  function FirstRowOf(rows: seq<SchedRow>, cid: int): Option<SchedRow>
    decreases |rows|
  {
    if rows == [] then None
    else if rows[0].courseId == cid then Some(rows[0])
    else FirstRowOf(rows[1..], cid)
  }

  lemma {:induction false} FirstRowOfSnoc(rows: seq<SchedRow>, r: SchedRow, cid: int)
    ensures FirstRowOf(rows + [r], cid)
      == if FirstRowOf(rows, cid).Some? then FirstRowOf(rows, cid) else if r.courseId == cid then Some(r) else None
    decreases |rows|
  {
    if rows != [] {
      assert (rows + [r])[1..] == rows[1..] + [r];
      FirstRowOfSnoc(rows[1..], r, cid);
    }
  }

  /** A course has a first row exactly when some row is of that course. */
  lemma {:induction false} FirstRowOfSome(rows: seq<SchedRow>, cid: int)
    ensures FirstRowOf(rows, cid).Some? <==> exists i :: 0 <= i < |rows| && rows[i].courseId == cid
    decreases |rows|
  {
    if rows != [] {
      FirstRowOfSome(rows[1..], cid);
      if exists i :: 0 <= i < |rows| && rows[i].courseId == cid {
        var i :| 0 <= i < |rows| && rows[i].courseId == cid;
        if i > 0 { assert rows[1..][i - 1] == rows[i]; }
      }
      if exists i :: 0 <= i < |rows[1..]| && rows[1..][i].courseId == cid {
        var i :| 0 <= i < |rows[1..]| && rows[1..][i].courseId == cid;
        assert rows[i + 1] == rows[1..][i];
      }
    }
  }

  predicate GroupOfRows(rows: seq<SchedRow>, g: Group) {
    var f := FirstRowOf(rows, g.courseId);
    f.Some? && g == Group(g.courseId, f.value.units, f.value.ay, f.value.sem, MeetingsOf(rows, g.courseId))
  }

  /** The grouping step for the last row, as the three lemmas below use
      it. */
  lemma GroupedSnoc(rows: seq<SchedRow>)
    requires rows != []
    ensures var gs0 := Grouped(rows[..|rows| - 1]);
      var r := rows[|rows| - 1];
      var k := IndexOfGroup(gs0, r.courseId);
      Grouped(rows) == if k < |gs0| then gs0[k := gs0[k].(meetings := gs0[k].meetings + [r.slot])]
                       else gs0 + [Group(r.courseId, r.units, r.ay, r.sem, [r.slot])]
  {
  }

  /** No two groups are of the same course. */
  lemma {:induction false} GroupedDistinct(rows: seq<SchedRow>)
    ensures forall i, j :: 0 <= i < j < |Grouped(rows)| ==> Grouped(rows)[i].courseId != Grouped(rows)[j].courseId
    decreases |rows|
  {
    if rows != [] {
      var init := rows[..|rows| - 1];
      var r := rows[|rows| - 1];
      GroupedDistinct(init);
      GroupedSnoc(rows);
      var gs0 := Grouped(init);
      var k := IndexOfGroup(gs0, r.courseId);
      var gs := Grouped(rows);
      assert forall j :: 0 <= j < |gs0| ==> gs[j].courseId == gs0[j].courseId;
      if k == |gs0| {
        assert gs[k].courseId == r.courseId;
      }
    }
  }

  /** Every course with a row has a group. */
  lemma {:induction false} GroupedCovers(rows: seq<SchedRow>)
    ensures forall cid :: FirstRowOf(rows, cid).Some? ==> exists k :: 0 <= k < |Grouped(rows)| && Grouped(rows)[k].courseId == cid
    decreases |rows|
  {
    if rows != [] {
      var init := rows[..|rows| - 1];
      var r := rows[|rows| - 1];
      assert rows == init + [r];
      GroupedCovers(init);
      GroupedSnoc(rows);
      var gs0 := Grouped(init);
      var k := IndexOfGroup(gs0, r.courseId);
      var gs := Grouped(rows);
      assert forall j :: 0 <= j < |gs0| ==> gs[j].courseId == gs0[j].courseId;
      forall cid | FirstRowOf(rows, cid).Some?
        ensures exists j :: 0 <= j < |gs| && gs[j].courseId == cid
      {
        FirstRowOfSnoc(init, r, cid);
        if FirstRowOf(init, cid).Some? {
          var j :| 0 <= j < |gs0| && gs0[j].courseId == cid;
          assert gs[j].courseId == cid;
        } else {
          assert gs[k].courseId == cid;
        }
      }
    }
  }

  /** Each group's header is that of its course's first row and its
      meetings are those of all the course's rows. */
  lemma {:induction false} GroupedHeaders(rows: seq<SchedRow>)
    ensures forall k :: 0 <= k < |Grouped(rows)| ==> GroupOfRows(rows, Grouped(rows)[k])
    decreases |rows|
  {
    if rows != [] {
      var init := rows[..|rows| - 1];
      var r := rows[|rows| - 1];
      assert rows == init + [r];
      GroupedHeaders(init);
      GroupedSnoc(rows);
      var gs0 := Grouped(init);
      var k := IndexOfGroup(gs0, r.courseId);
      var gs := Grouped(rows);
      if k == |gs0| {
        GroupedCovers(init);
        FirstRowOfSome(init, r.courseId);
        MeetingsOfAbsent(init, r.courseId);
        forall j | 0 <= j < |gs| ensures GroupOfRows(rows, gs[j]) {
          FirstRowOfSnoc(init, r, gs[j].courseId);
          if j < |gs0| {
            assert GroupOfRows(init, gs0[j]);
            assert gs[j] == gs0[j];
          }
        }
      } else {
        GroupedDistinct(init);
        forall j | 0 <= j < |gs| ensures GroupOfRows(rows, gs[j]) {
          FirstRowOfSnoc(init, r, gs[j].courseId);
          assert GroupOfRows(init, gs0[j]);
          if j != k {
            assert gs0[j].courseId != r.courseId;
            assert gs[j] == gs0[j];
          }
        }
      }
    }
  }

  /** A course without rows has no meetings. */
  lemma {:induction false} MeetingsOfAbsent(rows: seq<SchedRow>, cid: int)
    requires forall i :: 0 <= i < |rows| ==> rows[i].courseId != cid
    ensures MeetingsOf(rows, cid) == []
    decreases |rows|
  {
    if rows != [] {
      MeetingsOfAbsent(rows[..|rows| - 1], cid);
    }
  }

  /** The units of the schedule: each course's units counted once. */
  function GroupUnits(gs: seq<Group>): int
    decreases |gs|
  {
    if gs == [] then 0 else GroupUnits(gs[..|gs| - 1]) + gs[|gs| - 1].units
  }

  function Sum(xs: seq<int>): int
    decreases |xs|
  {
    if xs == [] then 0 else Sum(xs[..|xs| - 1]) + xs[|xs| - 1]
  }

  /** The grouping loop, adding a course's units when it opens the course's
      group; with no schedule rows the units of the enrolled courses are
      added instead. */
  method GroupSchedules(rows: seq<SchedRow>, courseUnits: seq<int>) returns (gs: seq<Group>, totalUnits: int)
    ensures gs == Grouped(rows)
    ensures totalUnits == if rows == [] then Sum(courseUnits) else GroupUnits(gs)
  {
    gs, totalUnits := [], 0;
    var i := 0;
    while i < |rows|
      invariant 0 <= i <= |rows|
      invariant gs == Grouped(rows[..i]) && totalUnits == GroupUnits(gs)
    {
      var r := rows[i];
      var k := IndexOfGroup(gs, r.courseId);
      assert rows[..i + 1][..i] == rows[..i];
      if k == |gs| {
        totalUnits := totalUnits + r.units;
        gs := gs + [Group(r.courseId, r.units, r.ay, r.sem, [r.slot])];
        assert gs[..|gs| - 1] == Grouped(rows[..i]);
      } else {
        GroupUnitsUpdate(gs, k, gs[k].(meetings := gs[k].meetings + [r.slot]));
        gs := gs[k := gs[k].(meetings := gs[k].meetings + [r.slot])];
      }
      i := i + 1;
    }
    assert rows[..|rows|] == rows;
    if rows == [] {
      var j := 0;
      while j < |courseUnits|
        invariant 0 <= j <= |courseUnits| && totalUnits == Sum(courseUnits[..j])
      {
        totalUnits := totalUnits + courseUnits[j];
        assert courseUnits[..j + 1][..j] == courseUnits[..j];
        j := j + 1;
      }
      assert courseUnits[..|courseUnits|] == courseUnits;
    }
  }

  lemma {:induction false} GroupUnitsUpdate(gs: seq<Group>, k: int, g: Group)
    requires 0 <= k < |gs| && g.units == gs[k].units
    ensures GroupUnits(gs[k := g]) == GroupUnits(gs)
    decreases |gs|
  {
    if k < |gs| - 1 {
      assert gs[k := g][..|gs| - 1] == gs[..|gs| - 1][k := g];
      GroupUnitsUpdate(gs[..|gs| - 1], k, g);
    } else {
      assert gs[k := g][..|gs| - 1] == gs[..|gs| - 1];
    }
  }

  // ---------------------------------------------------------------
  // The clash list
  // ---------------------------------------------------------------

  /** One listed clash: the two courses, the day, and the two meetings. */
  datatype Listed = Listed(course1: int, course2: int, day: string, first: Slot, second: Slot)

  /** The innermost foreach: a meeting of the first course against every
      meeting of the second. */
  function AgainstMeetings(c1: int, m1: Slot, c2: int, ms: seq<Slot>): seq<Listed>
    decreases |ms|
  {
    if ms == [] then []
    else
      var m2 := ms[|ms| - 1];
      AgainstMeetings(c1, m1, c2, ms[..|ms| - 1]) + (if Clash(m1, m2) then [Listed(c1, c2, m1.day, m1, m2)] else [])
  }

  /** Whether the second course is compared at all: a larger curriculum id
      and the same academic year and semester. */
  predicate Compared(g1: Group, g2: Group) {
    g1.courseId < g2.courseId && g1.ay == g2.ay && g1.sem == g2.sem
  }

  /** The third foreach: a meeting of the first course against every other
      course. */
  function AgainstGroups(g1: Group, m1: Slot, gs: seq<Group>): seq<Listed>
    decreases |gs|
  {
    if gs == [] then []
    else
      var g2 := gs[|gs| - 1];
      AgainstGroups(g1, m1, gs[..|gs| - 1]) + (if Compared(g1, g2) then AgainstMeetings(g1.courseId, m1, g2.courseId, g2.meetings) else [])
  }

  /** The second foreach: every meeting of the first course. */
  function FromMeetings(g1: Group, ms: seq<Slot>, all: seq<Group>): seq<Listed>
    decreases |ms|
  {
    if ms == [] then [] else FromMeetings(g1, ms[..|ms| - 1], all) + AgainstGroups(g1, ms[|ms| - 1], all)
  }

  /** The outer foreach: every course. */
  function ConflictList(gs: seq<Group>, all: seq<Group>): seq<Listed>
    decreases |gs|
  {
    if gs == [] then [] else ConflictList(gs[..|gs| - 1], all) + FromMeetings(gs[|gs| - 1], gs[|gs| - 1].meetings, all)
  }

  /** A listed clash between a meeting of g1 and a meeting of g2. */
  ghost predicate ListedFor(x: Listed, g1: Group, g2: Group) {
    && Compared(g1, g2)
    && x.first in g1.meetings && x.second in g2.meetings
    && Clash(x.first, x.second)
    && x == Listed(g1.courseId, g2.courseId, x.first.day, x.first, x.second)
  }

  lemma {:induction false} AgainstMeetingsSpec(c1: int, m1: Slot, c2: int, ms: seq<Slot>)
    ensures forall x :: x in AgainstMeetings(c1, m1, c2, ms) <==>
      x.second in ms && Clash(m1, x.second) && x == Listed(c1, c2, m1.day, m1, x.second)
    decreases |ms|
  {
    if ms != [] {
      AgainstMeetingsSpec(c1, m1, c2, ms[..|ms| - 1]);
      assert ms == ms[..|ms| - 1] + [ms[|ms| - 1]];
    }
  }

  lemma {:induction false} AgainstGroupsSpec(g1: Group, m1: Slot, gs: seq<Group>)
    requires m1 in g1.meetings
    ensures forall x :: x in AgainstGroups(g1, m1, gs) <==> x.first == m1 && exists g2 :: g2 in gs && ListedFor(x, g1, g2)
    decreases |gs|
  {
    if gs != [] {
      var init := gs[..|gs| - 1];
      var g2 := gs[|gs| - 1];
      AgainstGroupsSpec(g1, m1, init);
      AgainstMeetingsSpec(g1.courseId, m1, g2.courseId, g2.meetings);
      assert gs == init + [g2];
      var own := if Compared(g1, g2) then AgainstMeetings(g1.courseId, m1, g2.courseId, g2.meetings) else [];
      assert AgainstGroups(g1, m1, gs) == AgainstGroups(g1, m1, init) + own;
      forall x | x in own ensures x.first == m1 && ListedFor(x, g1, g2) { }
      forall x: Listed | x.first == m1 && (exists g :: g in gs && ListedFor(x, g1, g))
        ensures x in AgainstGroups(g1, m1, gs)
      {
        var g :| g in gs && ListedFor(x, g1, g);
        if g != g2 {
          assert g in init;
        }
      }
    }
  }

  lemma {:induction false} FromMeetingsSpec(g1: Group, ms: seq<Slot>, all: seq<Group>)
    requires forall m :: m in ms ==> m in g1.meetings
    ensures forall x :: x in FromMeetings(g1, ms, all) <==> x.first in ms && exists g2 :: g2 in all && ListedFor(x, g1, g2)
    decreases |ms|
  {
    if ms != [] {
      var init := ms[..|ms| - 1];
      var m := ms[|ms| - 1];
      FromMeetingsSpec(g1, init, all);
      AgainstGroupsSpec(g1, m, all);
      assert ms == init + [m];
    }
  }

  lemma {:induction false} ConflictListSpec(gs: seq<Group>, all: seq<Group>)
    ensures forall x :: x in ConflictList(gs, all) <==> exists g1, g2 :: g1 in gs && g2 in all && ListedFor(x, g1, g2)
    decreases |gs|
  {
    if gs != [] {
      var init := gs[..|gs| - 1];
      var g := gs[|gs| - 1];
      ConflictListSpec(init, all);
      FromMeetingsSpec(g, g.meetings, all);
      assert gs == init + [g];
      forall x: Listed | exists g1, g2 :: g1 in gs && g2 in all && ListedFor(x, g1, g2)
        ensures x in ConflictList(gs, all)
      {
        var g1, g2 :| g1 in gs && g2 in all && ListedFor(x, g1, g2);
        if g1 != g {
          assert g1 in init;
        }
      }
    }
  }

  /** The page lists exactly the clashing meeting pairs of two courses of
      the same academic year and semester, each pair once with the smaller
      curriculum id first; so no course is listed against itself. */
  lemma ConflictsRule(gs: seq<Group>)
    ensures forall x :: x in ConflictList(gs, gs) <==> exists g1, g2 :: g1 in gs && g2 in gs && ListedFor(x, g1, g2)
    ensures forall x :: x in ConflictList(gs, gs) ==> x.course1 < x.course2 && x.first.day == x.second.day
  {
    ConflictListSpec(gs, gs);
    forall x | x in ConflictList(gs, gs) ensures x.course1 < x.course2 && x.first.day == x.second.day {
      var g1, g2 :| g1 in gs && g2 in gs && ListedFor(x, g1, g2);
    }
  }

  method ScanMeetings(c1: int, m1: Slot, c2: int, ms: seq<Slot>) returns (out: seq<Listed>)
    ensures out == AgainstMeetings(c1, m1, c2, ms)
  {
    out := [];
    var b := 0;
    while b < |ms|
      invariant 0 <= b <= |ms| && out == AgainstMeetings(c1, m1, c2, ms[..b])
    {
      var m2 := ms[b];
      if m1.day == m2.day {
        if StrLess(m1.start, m2.end) && StrLess(m2.start, m1.end) {
          out := out + [Listed(c1, c2, m1.day, m1, m2)];
        }
      }
      assert ms[..b + 1][..b] == ms[..b];
      b := b + 1;
    }
    assert ms[..|ms|] == ms;
  }

  method ScanGroups(g1: Group, m1: Slot, gs: seq<Group>) returns (out: seq<Listed>)
    ensures out == AgainstGroups(g1, m1, gs)
  {
    out := [];
    var j := 0;
    while j < |gs|
      invariant 0 <= j <= |gs| && out == AgainstGroups(g1, m1, gs[..j])
    {
      var g2 := gs[j];
      assert gs[..j + 1][..j] == gs[..j];
      j := j + 1;
      if g1.courseId >= g2.courseId {
        continue;
      }
      if g1.ay != g2.ay || g1.sem != g2.sem {
        continue;
      }
      var part := ScanMeetings(g1.courseId, m1, g2.courseId, g2.meetings);
      out := out + part;
    }
    assert gs[..|gs|] == gs;
  }

  /** The second foreach: every meeting of one course. */
  method ScanCourse(g1: Group, gs: seq<Group>) returns (out: seq<Listed>)
    ensures out == FromMeetings(g1, g1.meetings, gs)
  {
    out := [];
    var a := 0;
    while a < |g1.meetings|
      invariant 0 <= a <= |g1.meetings| && out == FromMeetings(g1, g1.meetings[..a], gs)
    {
      var part := ScanGroups(g1, g1.meetings[a], gs);
      out := out + part;
      assert g1.meetings[..a + 1][..a] == g1.meetings[..a];
      a := a + 1;
    }
    assert g1.meetings[..|g1.meetings|] == g1.meetings;
  }

  /** The four nested foreach loops of the clash list. */
  method ListConflicts(gs: seq<Group>) returns (out: seq<Listed>)
    ensures out == ConflictList(gs, gs)
  {
    out := [];
    var i := 0;
    while i < |gs|
      invariant 0 <= i <= |gs| && out == ConflictList(gs[..i], gs)
    {
      var part := ScanCourse(gs[i], gs);
      out := out + part;
      assert gs[..i + 1][..i] == gs[..i];
      i := i + 1;
    }
    assert gs[..|gs|] == gs;
  }

  // ---------------------------------------------------------------
  // General weighted average
  // ---------------------------------------------------------------

  /** A row of the grades query: the enrollment's academic year, status and
      final grade with the course's code, semester and units. */
  datatype GradeRow = GradeRow(ay: string, sem: int, code: string, status: string, grade: Option<real>, units: int)

  predicate Counts(r: GradeRow) {
    r.status == "Passed" && r.grade.Some?
  }

  function ToGraded(r: GradeRow): Academics.Graded
    requires r.grade.Some?
  {
    Academics.Graded(Term(r.ay, r.sem), r.code, r.units, r.grade.value)
  }

  /** The rows the average counts: Passed with a final grade. */
  function Counted(rows: seq<GradeRow>): seq<Academics.Graded>
    decreases |rows|
  {
    if rows == [] then []
    else
      var r := rows[|rows| - 1];
      Counted(rows[..|rows| - 1]) + (if Counts(r) then [ToGraded(r)] else [])
  }

  /** The three running sums of the grades loop: units, grade points and
      the number of counted rows. */
  datatype Sums = Sums(units: int, points: real, completed: int)

  function SumsOf(c: seq<Academics.Graded>): Sums {
    Sums(Academics.UnitSum(c), Academics.WeightedSum(c), |c|)
  }

  /** A counted row adds its units, its grade points and one completed
      course; any other row adds nothing. */
  lemma CountedStep(rows: seq<GradeRow>, i: int)
    requires 0 <= i < |rows|
    ensures Counts(rows[i]) ==>
      (SumsOf(Counted(rows[..i + 1]))
         == Sums(SumsOf(Counted(rows[..i])).units + rows[i].units,
                 SumsOf(Counted(rows[..i])).points + rows[i].grade.value * rows[i].units as real,
                 SumsOf(Counted(rows[..i])).completed + 1))
    ensures !Counts(rows[i]) ==> SumsOf(Counted(rows[..i + 1])) == SumsOf(Counted(rows[..i]))
  {
    assert rows[..i + 1][..i] == rows[..i];
    if Counts(rows[i]) {
      var c := Counted(rows[..i]);
      var g := ToGraded(rows[i]);
      assert Counted(rows[..i + 1]) == c + [g];
      assert (c + [g])[..|c|] == c;
      assert Academics.UnitSum(c + [g]) == Academics.UnitSum(c) + g.units;
      assert Academics.WeightedSum(c + [g]) == Academics.WeightedSum(c) + Academics.Points(g);
    } else {
      assert Counted(rows[..i + 1]) == Counted(rows[..i]);
    }
  }

  /** round(points / units, 2), or NULL when no units are counted. */
  function GwaOf(rows: seq<GradeRow>): Option<real> {
    var c := Counted(rows);
    if Academics.UnitSum(c) > 0 then Some(Academics.Average(Academics.WeightedSum(c), Academics.UnitSum(c))) else None
  }

  lemma {:induction false} CountedSpec(rows: seq<GradeRow>)
    ensures forall g :: g in Counted(rows) <==>
      exists r :: r in rows && Counts(r) && g == ToGraded(r)
    decreases |rows|
  {
    if rows != [] {
      CountedSpec(rows[..|rows| - 1]);
      assert rows == rows[..|rows| - 1] + [rows[|rows| - 1]];
    }
  }

  /** The average lies between the (rounded) lowest and highest grade it
      counts, so on the 1.00 to 5.00 scale it is on the scale too; it is
      NULL exactly when the counted units total 0. */
  lemma GwaWithinGrades(rows: seq<GradeRow>, lo: real, hi: real)
    requires forall r :: r in rows && Counts(r) ==> r.units >= 0 && lo <= r.grade.value <= hi
    ensures GwaOf(rows).None? <==> Academics.UnitSum(Counted(rows)) <= 0
    ensures GwaOf(rows).Some? ==> Round2(lo) <= GwaOf(rows).value <= Round2(hi)
  {
    CountedSpec(rows);
    if Academics.UnitSum(Counted(rows)) > 0 {
      Academics.GpaWithinGrades(Counted(rows), lo, hi);
    }
  }

  lemma GwaOfSums(rows: seq<GradeRow>, units: int, points: real, gwa: Option<real>)
    requires units == Academics.UnitSum(Counted(rows)) && points == Academics.WeightedSum(Counted(rows))
    requires gwa == if units > 0 then Some(Round2(points / units as real)) else None
    ensures gwa == GwaOf(rows)
  {
  }

  /** The grades foreach: units and grade points of the counted rows, and
      how many there are. */
  method Gwa(rows: seq<GradeRow>) returns (gwa: Option<real>, completed: int)
    ensures gwa == GwaOf(rows) && completed == |Counted(rows)|
  {
    var sums := Sums(0, 0.0, 0);
    var i := 0;
    while i < |rows|
      invariant 0 <= i <= |rows|
      invariant sums == SumsOf(Counted(rows[..i]))
    {
      var r := rows[i];
      CountedStep(rows, i);
      if Counts(r) {
        sums := Sums(sums.units + r.units, sums.points + r.grade.value * r.units as real, sums.completed + 1);
      }
      i := i + 1;
    }
    assert rows[..i] == rows;
    if sums.units > 0 {
      gwa := Some(Round2(sums.points / sums.units as real));
    } else {
      gwa := None;
    }
    completed := sums.completed;
    GwaOfSums(rows, sums.units, sums.points, gwa);
  }
}
