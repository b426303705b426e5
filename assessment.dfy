/** The per-term assessment and balance functions and the comprehensive
    term summary (config/finance_helpers.php, getStudentBalance,
    getTermAssessment, getTermBalance, getComprehensiveFinancialSummary).
    Unlike the ledger, these count Dropped enrollments, ignore scholarships
    in the term balance, and (in the summary) charge misc fees at zero
    units. */
module Assessment {
  import opened Common
  import opened Money
  import opened Tables
  import opened Fees
  import opened Scholarship
  import opened LateFee
  import opened FinanceData
  import opened Ledger

  /** A term's charge as getTermAssessment and getStudentBalance compute it:
      tuition plus the fixed-fee total, or nothing at zero units. */
  function Charge(units: real, tuition: real, fixedTotal: real): (c: real)
    ensures units <= 0.0 ==> c == 0.0
    ensures units > 0.0 ==> c - tuition == fixedTotal
  {
    if units > 0.0 then tuition + fixedTotal else 0.0
  }

  /** Units counted by the assessment functions: Dropped rows included. */
  function AssessedUnits(db: Db, sid: int, t: Term): real {
    TermUnits(db.enrollments, db.courses, sid, t, AssessedStatuses) as real
  }

  /** getTermAssessment. */
  function TermAssessment(db: Db, sid: int, t: Term): real {
    var units := AssessedUnits(db, sid, t);
    Charge(units, units * StudentRates(db, sid).tuitionPerUnit, FixedTotal(db, sid))
  }

  /** getTermBalance: assessment minus the term's payments minus the
      persisted credit applied to it; no scholarship is deducted. */
  function TermBalance(db: Db, ops: seq<Overpayment>, sid: int, t: Term): real {
    TermAssessment(db, sid, t) - TermPaid(db.payments, sid, t) - AppliedCredit(ops, sid, t)
  }

  /** The assessment summed over a list of terms. */
  function AssessedTotal(db: Db, sid: int, terms: seq<Term>, rate: real, fixedTotal: real): real
    decreases |terms|
  {
    if terms == [] then 0.0
    else
      var t := terms[|terms| - 1];
      var units := AssessedUnits(db, sid, t);
      AssessedTotal(db, sid, terms[..|terms| - 1], rate, fixedTotal) + Charge(units, units * rate, fixedTotal)
  }

  /** getStudentBalance: the assessment of every term with an Enrolled,
      Passed, Failed or Dropped row, minus all of the student's payments.
      Neither scholarships nor persisted credits are deducted. */
  function StudentBalance(db: Db, sid: int): real {
    var terms := StudentTerms(db.enrollments, db.courses, sid, Some(AssessedStatuses));
    AssessedTotal(db, sid, terms, StudentRates(db, sid).tuitionPerUnit, FixedTotal(db, sid))
      - TotalPaid(db.payments, sid)
  }

  /** The term loop of getStudentBalance. */
  method StudentBalanceLoop(db: Db, sid: int, terms: seq<Term>, rate: real, fixedTotal: real) returns (total: real)
    ensures total == AssessedTotal(db, sid, terms, rate, fixedTotal)
  {
    total := 0.0;
    var i := 0;
    while i < |terms|
      invariant 0 <= i <= |terms|
      invariant total == AssessedTotal(db, sid, terms[..i], rate, fixedTotal)
    {
      var units := AssessedUnits(db, sid, terms[i]);
      assert terms[..i + 1][..i] == terms[..i];
      if units > 0.0 {
        var termTuition := units * rate;
        total := total + (termTuition + fixedTotal);
      }
      i := i + 1;
    }
    assert terms[..i] == terms;
  }

  /** getStudentBalance as the source runs it. */
  method GetStudentBalance(db: Db, sid: int) returns (balance: real)
    ensures balance == StudentBalance(db, sid)
  {
    var rates := StudentRates(db, sid);
    var fixedTotal := TotalFixedFee(db.fees, rates.labFee);
    var terms := StudentTerms(db.enrollments, db.courses, sid, Some(AssessedStatuses));
    var total := StudentBalanceLoop(db, sid, terms, rates.tuitionPerUnit, fixedTotal);
    balance := total - TotalPaid(db.payments, sid);
  }

  /** The term balance depends on the charges, payments and applied
      credits only: replacing the award table never changes it. */
  lemma TermBalanceIgnoresDiscount(db: Db, ops: seq<Overpayment>, sid: int, t: Term, awards: seq<AwardRow>)
    ensures TermBalance(db.(awards := awards), ops, sid, t) == TermBalance(db, ops, sid, t)
  {
    assert StudentRates(db.(awards := awards), sid) == StudentRates(db, sid);
    assert FixedTotal(db.(awards := awards), sid) == FixedTotal(db, sid);
  }

  /** Dropped rows are billed by the assessment functions but not by the
      ledger: with non-negative curriculum units the assessed units are at
      least the ledger's units. */
  lemma AssessedUnitsCoverBilled(db: Db, sid: int, t: Term, rate: real)
    requires forall c :: c in db.courses ==> c.units >= 0
    ensures FactOf(db, sid, t, rate).units <= AssessedUnits(db, sid, t)
  {
    assert BilledStatuses <= AssessedStatuses;
    TermUnitsMonotone(db.enrollments, db.courses, sid, t, BilledStatuses, AssessedStatuses);
  }

  /** A one-course example: a Dropped 3-unit course is assessed by
      getTermAssessment (3 units at the default 800 per unit plus the
      default 2000 lab fee) while the ledger bills the term nothing. */
  lemma DroppedCourseDiverges()
    ensures var db := Db([StudentRow(1, Some(7))], [], [], [Course(10, "CS101", 3, 1, 1, 7, None)],
                         [Enrollment(1, 10, "2025-2026", "Dropped", None, 0)], [], [], [], []);
      var t := Term("2025-2026", 1);
      TermAssessment(db, 1, t) == 4400.0
      && TermRow(FactOf(db, 1, t, 800.0), 800.0, FixedTotal(db, 1), 0.0).net == 0.0
  {
    var db := Db([StudentRow(1, Some(7))], [], [], [Course(10, "CS101", 3, 1, 1, 7, None)],
                 [Enrollment(1, 10, "2025-2026", "Dropped", None, 0)], [], [], [], []);
    var t := Term("2025-2026", 1);
    var e := db.enrollments[0];
    assert db.enrollments[..0] == [];
    assert FindCourse(db.courses, 10) == Some(Course(10, "CS101", 3, 1, 1, 7, None));
    assert InTerm(db.courses, e, 1, t);
    assert TermUnits(db.enrollments, db.courses, 1, t, AssessedStatuses) == 3;
    assert TermUnits(db.enrollments, db.courses, 1, t, BilledStatuses) == 0;
    assert StudentRates(db, 1) == Rates(800.0, 2000.0);
    assert FixedTotal(db, 1) == 2000.0;
    assert ActiveAwards(db.awards, 1, t) == [];
  }

  // ---------------------------------------------------------------
  // The comprehensive summary
  // ---------------------------------------------------------------

  /** One line of the misc-fee breakdown. */
  datatype FeeLine = FeeLine(code: string, amount: real)

  /** The catalogue's fixed non-LAB fees, one line each, in table order. */
  function FixedLines(fees: seq<Fee>): seq<FeeLine>
    decreases |fees|
  {
    if fees == [] then []
    else
      var f := fees[|fees| - 1];
      FixedLines(fees[..|fees| - 1]) + (if f.kind == "fixed" && f.code != "LAB" then [FeeLine(f.code, f.amount)] else [])
  }

  /** The breakdown: the fixed fees, then the program lab fee as LAB. */
  function Breakdown(fees: seq<Fee>, labFee: real): seq<FeeLine> {
    FixedLines(fees) + [FeeLine("LAB", labFee)]
  }

  function SumLines(lines: seq<FeeLine>): real
    decreases |lines|
  {
    if lines == [] then 0.0 else SumLines(lines[..|lines| - 1]) + lines[|lines| - 1].amount
  }

  lemma {:induction false} SumLinesAppend(a: seq<FeeLine>, b: seq<FeeLine>)
    ensures SumLines(a + b) == SumLines(a) + SumLines(b)
    decreases |b|
  {
    if b == [] {
      assert a + b == a;
    } else {
      assert (a + b)[..|a + b| - 1] == a + b[..|b| - 1];
      SumLinesAppend(a, b[..|b| - 1]);
    }
  }

  /** The breakdown lists exactly what the misc amount totals. */
  lemma {:induction false} BreakdownSumsToMisc(fees: seq<Fee>, labFee: real)
    ensures SumLines(Breakdown(fees, labFee)) == FixedNonLab(fees) + labFee
    decreases |fees|
  {
    if fees != [] {
      var init := fees[..|fees| - 1];
      var f := fees[|fees| - 1];
      BreakdownSumsToMisc(init, labFee);
      var extra := if f.kind == "fixed" && f.code != "LAB" then [FeeLine(f.code, f.amount)] else [];
      SumLinesAppend(FixedLines(init), extra);
      SumLinesAppend(FixedLines(fees), [FeeLine("LAB", labFee)]);
      SumLinesAppend(FixedLines(init), [FeeLine("LAB", labFee)]);
      assert [FeeLine("LAB", labFee)][..0] == [];
      if extra != [] {
        assert extra[..0] == [];
      }
    }
  }

  /** The fee loop of the summary: the misc total and its breakdown. */
  method FeeBreakdown(fees: seq<Fee>, labFee: real) returns (total: real, lines: seq<FeeLine>)
    ensures lines == Breakdown(fees, labFee)
    ensures total == SumLines(lines) && total == FixedNonLab(fees) + labFee
  {
    total := 0.0;
    lines := [];
    var i := 0;
    while i < |fees|
      invariant 0 <= i <= |fees|
      invariant total == FixedNonLab(fees[..i]) && lines == FixedLines(fees[..i])
    {
      assert fees[..i + 1][..i] == fees[..i];
      if fees[i].kind == "fixed" && fees[i].code != "LAB" {
        total := total + fees[i].amount;
        lines := lines + [FeeLine(fees[i].code, fees[i].amount)];
      }
      i := i + 1;
    }
    assert fees[..i] == fees;
    total := total + labFee;
    lines := lines + [FeeLine("LAB", labFee)];
    BreakdownSumsToMisc(fees, labFee);
  }

  datatype PayStatus = Paid | Overdue | Unpaid

  datatype Summary = Summary(
    units: real, tuitionRate: real, tuition: real, misc: real, breakdown: seq<FeeLine>,
    gross: real, discount: real, discounts: seq<DiscountLine>, net: real,
    paid: real, appliedCredits: real, availableCredits: real, appliedLateFees: real,
    pendingLateFee: real, balance: real, totalDue: real,
    hasOverpayment: bool, overpaymentAmount: real, status: PayStatus)

  /** The summary's arithmetic once the queries have run. Misc is the full
      fixed-fee total whatever the units. */
  function SummaryOf(units: real, rate: real, tuition: real, fixedTotal: real, lines: seq<FeeLine>,
                     awards: seq<AwardRow>, paid: real, applied: real, available: real,
                     lateFees: real, pending: Penalty): Summary
  {
    var misc := fixedTotal;
    var gross := tuition + misc;
    var discount := TotalDiscount(awards, tuition, misc);
    var net := gross - discount;
    var balance := net + lateFees - paid - applied;
    Summary(units, rate, tuition, misc, lines, gross, discount, DiscountLines(awards, tuition, misc), net,
            paid, applied, available, lateFees, pending.fee, balance,
            Max(0.0, balance + pending.fee),
            balance < 0.0, if balance < 0.0 then Abs(balance) else 0.0,
            if balance <= 0.0 then Paid else if pending.daysOverdue > 0 then PayStatus.Overdue else Unpaid)
  }

  /** The summary's balance, amount due and status: the balance adds
      unwaived late fees to net and takes off payments and applied credits;
      the amount due is never negative; exactly one status holds, Paid iff
      the balance is not positive and Overdue iff it is positive with days
      overdue; an overpayment is reported iff the balance is negative, for
      its magnitude. */
  lemma SummaryClassifies(units: real, rate: real, tuition: real, fixedTotal: real, lines: seq<FeeLine>,
                          awards: seq<AwardRow>, paid: real, applied: real, available: real,
                          lateFees: real, pending: Penalty)
    ensures var s := SummaryOf(units, rate, tuition, fixedTotal, lines, awards, paid, applied, available, lateFees, pending);
      s.misc == fixedTotal
      && s.net == tuition + fixedTotal - TotalDiscount(awards, tuition, fixedTotal)
      && s.balance == s.net + lateFees - paid - applied
      && s.totalDue >= 0.0 && s.totalDue >= s.balance + s.pendingLateFee
      && (s.totalDue == 0.0 || s.totalDue == s.balance + s.pendingLateFee)
      && (s.status == Paid <==> s.balance <= 0.0)
      && (s.status == PayStatus.Overdue <==> s.balance > 0.0 && pending.daysOverdue > 0)
      && (s.status == Unpaid <==> s.balance > 0.0 && pending.daysOverdue <= 0)
      && (s.hasOverpayment <==> s.overpaymentAmount > 0.0)
      && s.overpaymentAmount == Max(0.0, -s.balance)
  {
  }

  /** The first enrollment instant and the late fee pending for a term at
      instant `now`: calculateLateFee with no explicit due date. */
  function PendingLateFee(db: Db, ops: seq<Overpayment>, sid: int, t: Term, now: int): Penalty {
    CalculateLateFee(LateFeeConfig(db.lateFeeConfigs), TermBalance(db, ops, sid, t), None,
                     FirstEnrolledAt(db.enrollments, db.courses, sid, t), now)
  }

  /** getComprehensiveFinancialSummary at instant `now`. It reads the same
      billed units, payments and awards as a ledger term. */
  function ComprehensiveSummary(db: Db, ops: seq<Overpayment>, sid: int, t: Term, now: int): Summary {
    var rates := StudentRates(db, sid);
    var f := FactOf(db, sid, t, rates.tuitionPerUnit);
    SummaryOf(f.units, rates.tuitionPerUnit, f.tuition, FixedTotal(db, sid),
              Breakdown(db.fees, rates.labFee), f.awards, f.paid,
              AppliedCredit(ops, sid, t), UnappliedCredit(ops, sid),
              UnwaivedLateFees(db.lateFees, sid, t), PendingLateFee(db, ops, sid, t, now))
  }

  /** getComprehensiveFinancialSummary as the source runs it. */
  method GetComprehensiveFinancialSummary(db: Db, ops: seq<Overpayment>, sid: int, t: Term, now: int)
    returns (s: Summary)
    ensures s == ComprehensiveSummary(db, ops, sid, t, now)
  {
    var rates := StudentRates(db, sid);
    var fixedTotal, lines := FeeBreakdown(db.fees, rates.labFee);
    assert fixedTotal == FixedTotal(db, sid);
    var f := ReadTermFacts(db, sid, t, rates.tuitionPerUnit);
    var pending := PendingLateFee(db, ops, sid, t, now);
    s := SummaryOf(f.units, rates.tuitionPerUnit, f.tuition, fixedTotal, lines, f.awards, f.paid,
                   AppliedCredit(ops, sid, t), UnappliedCredit(ops, sid),
                   UnwaivedLateFees(db.lateFees, sid, t), pending);
  }

  /** At zero billed units the summary still charges the whole fixed-fee
      total while the ledger charges nothing. */
  lemma SummaryChargesMiscAtZeroUnits(db: Db, ops: seq<Overpayment>, sid: int, t: Term, now: int, pool: real)
    requires TermUnits(db.enrollments, db.courses, sid, t, BilledStatuses) == 0
    ensures ComprehensiveSummary(db, ops, sid, t, now).misc == FixedTotal(db, sid)
    ensures TermRow(FactOf(db, sid, t, StudentRates(db, sid).tuitionPerUnit), StudentRates(db, sid).tuitionPerUnit,
                    FixedTotal(db, sid), pool).misc == 0.0
  {
  }

  /** Given the same facts, the summary's net equals the ledger row's net
      whenever units are positive. */
  lemma SummaryNetIsRowNet(f: TermFacts, rate: real, fixedTotal: real, pool: real, lines: seq<FeeLine>,
                           applied: real, available: real, lateFees: real, pending: Penalty)
    requires f.units > 0.0
    ensures SummaryOf(f.units, rate, f.tuition, fixedTotal, lines, f.awards, f.paid, applied, available, lateFees, pending).net
         == TermRow(f, rate, fixedTotal, pool).net
  {
  }

  /** With positive billed units the summary's net equals the ledger row's
      net for the same term: the two differ only in misc at zero units. */
  lemma SummaryNetMatchesLedger(db: Db, ops: seq<Overpayment>, sid: int, t: Term, now: int, pool: real)
    requires TermUnits(db.enrollments, db.courses, sid, t, BilledStatuses) > 0
    ensures var rate := StudentRates(db, sid).tuitionPerUnit;
      ComprehensiveSummary(db, ops, sid, t, now).net
        == TermRow(FactOf(db, sid, t, rate), rate, FixedTotal(db, sid), pool).net
  {
    var rates := StudentRates(db, sid);
    var f := FactOf(db, sid, t, rates.tuitionPerUnit);
    var lines := Breakdown(db.fees, rates.labFee);
    var applied, available := AppliedCredit(ops, sid, t), UnappliedCredit(ops, sid);
    var late, pending := UnwaivedLateFees(db.lateFees, sid, t), PendingLateFee(db, ops, sid, t, now);
    SummaryNetIsRowNet(f, rates.tuitionPerUnit, FixedTotal(db, sid), pool, lines, applied, available, late, pending);
  }
}
