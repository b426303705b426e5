/** The carry-forward ledger (config/finance_helpers.php,
    calculateAllTermsWithCarryForward): every term of a student in
    chronological order, with one running credit pool that absorbs
    overpayments and pays down later terms. */
module Ledger {
  import opened Common
  import opened Money
  import opened Tables
  import opened Fees
  import opened Scholarship
  import opened FinanceData

  /** What the ledger reads for one term. */
  datatype TermFacts = TermFacts(term: Term, units: real, tuition: real, paid: real, awards: seq<AwardRow>)

  /** One entry of `terms` in the result. */
  datatype Row = Row(
    term: Term, units: real, tuition: real, tuitionRate: real, misc: real,
    gross: real, discount: real, discounts: seq<DiscountLine>, net: real,
    paid: real, creditApplied: real, balance: real, runningCredit: real)

  datatype Totals = Totals(assessment: real, paid: real, discount: real, availableCredit: real, balance: real)

  datatype LedgerResult = LedgerResult(rows: seq<Row>, totals: Totals, tuitionRate: real, labFee: real)

  /** The credit step of one term. */
  datatype CreditStep = CreditStep(applied: real, balance: real, pool: real)

  /** Credit is drawn only when both the pool and the net charge are
      positive, and then as much as both allow; a negative balance moves
      into the pool and is shown as zero. */
  function ApplyCredit(net: real, paid: real, pool: real): (s: CreditStep)
    ensures pool > 0.0 && net > 0.0 ==> s.applied == Min(pool, net)
    ensures !(pool > 0.0 && net > 0.0) ==> s.applied == 0.0
    ensures s.balance >= 0.0
    ensures s.balance == Max(net - paid - s.applied, 0.0)
    ensures pool >= 0.0 ==> 0.0 <= s.applied <= pool && s.pool >= 0.0
    ensures s.balance - s.pool == net - paid - pool
  {
    var applied := if pool > 0.0 && net > 0.0 then Min(pool, net) else 0.0;
    var left := pool - applied;
    var bal := net - paid - applied;
    if bal < 0.0 then CreditStep(applied, 0.0, left + Abs(bal)) else CreditStep(applied, bal, left)
  }

  /** The ledger row of one term, given the pool left by earlier terms:
      misc only when units are positive, the award discounts of tuition and
      misc, net with no floor, then the credit step. */
  function TermRow(f: TermFacts, rate: real, fixedTotal: real, pool: real): Row {
    var misc := if f.units > 0.0 then fixedTotal else 0.0;
    var discount := TotalDiscount(f.awards, f.tuition, misc);
    var gross := f.tuition + misc;
    var net := gross - discount;
    var step := ApplyCredit(net, f.paid, pool);
    Row(f.term, f.units, f.tuition, rate, misc, gross, discount, DiscountLines(f.awards, f.tuition, misc),
        net, f.paid, step.applied, step.balance, step.pool)
  }

  function SumNet(rows: seq<Row>): real
    decreases |rows|
  {
    if rows == [] then 0.0 else SumNet(rows[..|rows| - 1]) + rows[|rows| - 1].net
  }

  function SumPaid(rows: seq<Row>): real
    decreases |rows|
  {
    if rows == [] then 0.0 else SumPaid(rows[..|rows| - 1]) + rows[|rows| - 1].paid
  }

  function SumDiscount(rows: seq<Row>): real
    decreases |rows|
  {
    if rows == [] then 0.0 else SumDiscount(rows[..|rows| - 1]) + rows[|rows| - 1].discount
  }

  function SumBalance(rows: seq<Row>): real
    decreases |rows|
  {
    if rows == [] then 0.0 else SumBalance(rows[..|rows| - 1]) + rows[|rows| - 1].balance
  }

  function SumCreditApplied(rows: seq<Row>): real
    decreases |rows|
  {
    if rows == [] then 0.0 else SumCreditApplied(rows[..|rows| - 1]) + rows[|rows| - 1].creditApplied
  }

  /** The pool a row started from: the previous row's running credit, or
      zero for the first term. */
  function PoolBefore(rows: seq<Row>, i: int): real
    requires 0 <= i < |rows|
  {
    if i == 0 then 0.0 else rows[i - 1].runningCredit
  }

  /** What every emitted row satisfies: a non-negative balance and pool,
      credit drawn within the pool it started from and within a positive
      net charge. */
  predicate RowSound(rows: seq<Row>, i: int)
    requires 0 <= i < |rows|
  {
    rows[i].balance >= 0.0 && rows[i].runningCredit >= 0.0
    && 0.0 <= rows[i].creditApplied <= PoolBefore(rows, i)
    && (rows[i].creditApplied > 0.0 ==> 0.0 < rows[i].net && rows[i].creditApplied <= rows[i].net)
  }

  /** The state of the loop: rows so far, the pool and the three grand
      total accumulators. */
  datatype State = State(rows: seq<Row>, pool: real, net: real, paid: real, discount: real)

  /** The ledger as a fold over the terms' facts. */
  function Fold(facts: seq<TermFacts>, rate: real, fixedTotal: real): (s: State)
    ensures |s.rows| == |facts|
    ensures facts != [] ==> s.pool == s.rows[|s.rows| - 1].runningCredit
    ensures facts == [] ==> s.pool == 0.0
    decreases |facts|
  {
    if facts == [] then State([], 0.0, 0.0, 0.0, 0.0)
    else
      var prev := Fold(facts[..|facts| - 1], rate, fixedTotal);
      var row := TermRow(facts[|facts| - 1], rate, fixedTotal, prev.pool);
      var rows := prev.rows + [row];
      assert rows[..|rows| - 1] == prev.rows;
      State(rows, row.runningCredit, prev.net + row.net, prev.paid + row.paid, prev.discount + row.discount)
  }

  /** Row i is the row of term i, carrying that term's payments. */
  lemma {:induction false} FoldRowTerms(facts: seq<TermFacts>, rate: real, fixedTotal: real)
    ensures forall i :: 0 <= i < |facts| ==>
      Fold(facts, rate, fixedTotal).rows[i].term == facts[i].term
      && Fold(facts, rate, fixedTotal).rows[i].paid == facts[i].paid
    decreases |facts|
  {
    if facts != [] {
      var n := |facts| - 1;
      var prev := Fold(facts[..n], rate, fixedTotal);
      var rows := Fold(facts, rate, fixedTotal).rows;
      var row := TermRow(facts[n], rate, fixedTotal, prev.pool);
      FoldRowTerms(facts[..n], rate, fixedTotal);
      assert rows == prev.rows + [row];
      assert row.term == facts[n].term && row.paid == facts[n].paid;
      forall i | 0 <= i < n
        ensures rows[i].term == facts[i].term && rows[i].paid == facts[i].paid
      {
        assert rows[i] == prev.rows[i];
        assert facts[..n][i] == facts[i];
      }
    }
  }

  /** The accumulators are the sums over the rows; the pool is never
      negative; and the sum of the shown balances minus the pool is
      exactly net minus paid. */
  lemma FoldTotals(facts: seq<TermFacts>, rate: real, fixedTotal: real)
    ensures var s := Fold(facts, rate, fixedTotal);
      s.pool >= 0.0
      && s.net == SumNet(s.rows) && s.paid == SumPaid(s.rows) && s.discount == SumDiscount(s.rows)
      && SumBalance(s.rows) - s.pool == s.net - s.paid
  {
    FoldPoolNonNegative(facts, rate, fixedTotal);
    FoldSums(facts, rate, fixedTotal);
    FoldBalanceIdentity(facts, rate, fixedTotal);
  }

  lemma {:induction false} FoldPoolNonNegative(facts: seq<TermFacts>, rate: real, fixedTotal: real)
    ensures Fold(facts, rate, fixedTotal).pool >= 0.0
    decreases |facts|
  {
    if facts != [] {
      var n := |facts| - 1;
      var prev := Fold(facts[..n], rate, fixedTotal);
      FoldPoolNonNegative(facts[..n], rate, fixedTotal);
      TermRowSound(facts[n], rate, fixedTotal, prev.pool);
      assert Fold(facts, rate, fixedTotal).pool == TermRow(facts[n], rate, fixedTotal, prev.pool).runningCredit;
    }
  }

  lemma {:induction false} FoldSums(facts: seq<TermFacts>, rate: real, fixedTotal: real)
    ensures Fold(facts, rate, fixedTotal).net == SumNet(Fold(facts, rate, fixedTotal).rows)
    ensures Fold(facts, rate, fixedTotal).paid == SumPaid(Fold(facts, rate, fixedTotal).rows)
    ensures Fold(facts, rate, fixedTotal).discount == SumDiscount(Fold(facts, rate, fixedTotal).rows)
    decreases |facts|
  {
    if facts != [] {
      var n := |facts| - 1;
      var s := Fold(facts, rate, fixedTotal);
      var prev := Fold(facts[..n], rate, fixedTotal);
      var row := TermRow(facts[n], rate, fixedTotal, prev.pool);
      FoldSums(facts[..n], rate, fixedTotal);
      SumsSnoc(prev.rows, row);
      assert s.rows == prev.rows + [row];
    }
  }

  lemma SumsSnoc(rows: seq<Row>, row: Row)
    ensures SumNet(rows + [row]) == SumNet(rows) + row.net
    ensures SumPaid(rows + [row]) == SumPaid(rows) + row.paid
    ensures SumDiscount(rows + [row]) == SumDiscount(rows) + row.discount
  {
    assert (rows + [row])[..|rows|] == rows;
  }

  lemma {:induction false} FoldBalanceIdentity(facts: seq<TermFacts>, rate: real, fixedTotal: real)
    ensures SumBalance(Fold(facts, rate, fixedTotal).rows) - Fold(facts, rate, fixedTotal).pool
      == Fold(facts, rate, fixedTotal).net - Fold(facts, rate, fixedTotal).paid
    decreases |facts|
  {
    if facts != [] {
      var n := |facts| - 1;
      var s := Fold(facts, rate, fixedTotal);
      var prev := Fold(facts[..n], rate, fixedTotal);
      var row := TermRow(facts[n], rate, fixedTotal, prev.pool);
      FoldBalanceIdentity(facts[..n], rate, fixedTotal);
      assert s.rows[..n] == prev.rows && s.rows[n] == row;
      assert row.balance - row.runningCredit == row.net - row.paid - prev.pool;
    }
  }

  /** A row computed from a non-negative pool is sound. */
  lemma TermRowSound(f: TermFacts, rate: real, fixedTotal: real, pool: real)
    requires pool >= 0.0
    ensures var row := TermRow(f, rate, fixedTotal, pool);
      row.balance >= 0.0 && row.runningCredit >= 0.0
      && 0.0 <= row.creditApplied <= pool
      && (row.creditApplied > 0.0 ==> 0.0 < row.net && row.creditApplied <= row.net)
  {
  }

  /** Every row of the fold is sound. */
  lemma {:induction false} FoldRowsSound(facts: seq<TermFacts>, rate: real, fixedTotal: real)
    ensures forall i :: 0 <= i < |Fold(facts, rate, fixedTotal).rows| ==> RowSound(Fold(facts, rate, fixedTotal).rows, i)
    decreases |facts|
  {
    if facts != [] {
      var n := |facts| - 1;
      var prev := Fold(facts[..n], rate, fixedTotal);
      var rows := Fold(facts, rate, fixedTotal).rows;
      var row := TermRow(facts[n], rate, fixedTotal, prev.pool);
      FoldRowsSound(facts[..n], rate, fixedTotal);
      FoldTotals(facts[..n], rate, fixedTotal);
      assert rows == prev.rows + [row];
      TermRowSound(facts[n], rate, fixedTotal, prev.pool);
      SoundRowsExtend(prev.rows, row, prev.pool);
    }
  }

  /** Appending a row drawn from the pool the previous rows left keeps
      every row sound. */
  lemma SoundRowsExtend(rows: seq<Row>, row: Row, pool: real)
    requires forall i :: 0 <= i < |rows| ==> RowSound(rows, i)
    requires pool == if rows == [] then 0.0 else rows[|rows| - 1].runningCredit
    requires row.balance >= 0.0 && row.runningCredit >= 0.0 && 0.0 <= row.creditApplied <= pool
    requires row.creditApplied > 0.0 ==> 0.0 < row.net && row.creditApplied <= row.net
    ensures forall i :: 0 <= i < |rows + [row]| ==> RowSound(rows + [row], i)
  {
    var all := rows + [row];
    forall i | 0 <= i < |all|
      ensures RowSound(all, i)
    {
      if i == |rows| {
        assert PoolBefore(all, i) == pool;
      } else {
        assert RowSound(rows, i);
        assert all[i] == rows[i];
        assert PoolBefore(all, i) == PoolBefore(rows, i);
      }
    }
  }

  /** The per-term facts read by the queries of the loop body. */
  function FactOf(db: Db, sid: int, t: Term, rate: real): TermFacts {
    var units := TermUnits(db.enrollments, db.courses, sid, t, BilledStatuses) as real;
    TermFacts(t, units, units * rate,
              TermPaid(db.payments, sid, t), ActiveAwards(db.awards, sid, t))
  }

  function Facts(db: Db, sid: int, terms: seq<Term>, rate: real): (r: seq<TermFacts>)
    ensures |r| == |terms| && forall i :: 0 <= i < |terms| ==> r[i] == FactOf(db, sid, terms[i], rate)
    decreases |terms|
  {
    if terms == [] then [] else Facts(db, sid, terms[..|terms| - 1], rate) + [FactOf(db, sid, terms[|terms| - 1], rate)]
  }

  /** calculateAllTermsWithCarryForward as a function of the tables: all
      the student's terms (any enrollment status), ascending. */
  function LedgerOf(db: Db, sid: int): LedgerResult {
    var rates := StudentRates(db, sid);
    var terms := StudentTerms(db.enrollments, db.courses, sid, None);
    var s := Fold(Facts(db, sid, terms, rates.tuitionPerUnit), rates.tuitionPerUnit, FixedTotal(db, sid));
    LedgerResult(s.rows, Totals(s.net, s.paid, s.discount, s.pool, s.net - s.paid),
                 rates.tuitionPerUnit, rates.labFee)
  }

  /** Rows follow the student's terms in strictly ascending (academic year,
      semester) order, one per distinct term. */
  lemma LedgerRowsAscending(db: Db, sid: int)
    ensures var rows := LedgerOf(db, sid).rows;
      var terms := StudentTerms(db.enrollments, db.courses, sid, None);
      |rows| == |terms| && (forall i :: 0 <= i < |rows| ==> rows[i].term == terms[i])
      && forall i, j :: 0 <= i < j < |rows| ==> TermLess(rows[i].term, rows[j].term)
  {
    var rates := StudentRates(db, sid);
    var terms := StudentTerms(db.enrollments, db.courses, sid, None);
    FoldRowTerms(Facts(db, sid, terms, rates.tuitionPerUnit), rates.tuitionPerUnit, FixedTotal(db, sid));
  }

  /** The grand balance is Σnet − Σpaid, and it equals the sum of the
      emitted term balances minus the credit left in the pool. Emitted
      balances and the pool are never negative. */
  lemma GrandBalanceIdentity(db: Db, sid: int)
    ensures var r := LedgerOf(db, sid);
      r.totals.balance == SumNet(r.rows) - SumPaid(r.rows)
      && r.totals.balance == SumBalance(r.rows) - r.totals.availableCredit
      && r.totals.availableCredit >= 0.0
      && (r.rows != [] ==> r.totals.availableCredit == r.rows[|r.rows| - 1].runningCredit)
      && forall i :: 0 <= i < |r.rows| ==> RowSound(r.rows, i)
  {
    var rates := StudentRates(db, sid);
    var terms := StudentTerms(db.enrollments, db.courses, sid, None);
    FoldRowsSound(Facts(db, sid, terms, rates.tuitionPerUnit), rates.tuitionPerUnit, FixedTotal(db, sid));
    FoldTotals(Facts(db, sid, terms, rates.tuitionPerUnit), rates.tuitionPerUnit, FixedTotal(db, sid));
  }

  /** The facts of a term are the loop body's queries: billed units (not
      Dropped), tuition as those units times the rate, the term's payments
      and its active awards. */
  lemma FactOfReads(db: Db, sid: int, t: Term, rate: real)
    ensures var f := FactOf(db, sid, t, rate);
      f.term == t
      && f.units == TermUnits(db.enrollments, db.courses, sid, t, BilledStatuses) as real
      && f.tuition == f.units * rate
      && f.paid == TermPaid(db.payments, sid, t)
      && f.awards == ActiveAwards(db.awards, sid, t)
  {
  }

  /** Each term's figures are the ones the source derives: misc is charged
      only when units are positive, net is gross minus discount with no
      floor, and the credit step moves the pool by exactly what the term
      under- or overpaid. */
  lemma RowCharges(f: TermFacts, rate: real, fixedTotal: real, pool: real)
    ensures var row := TermRow(f, rate, fixedTotal, pool);
      row.term == f.term && row.units == f.units && row.tuition == f.tuition && row.paid == f.paid
      && (f.units > 0.0 ==> row.misc == fixedTotal)
      && (f.units <= 0.0 ==> row.misc == 0.0)
      && row.gross == row.tuition + row.misc
      && row.discount == TotalDiscount(f.awards, row.tuition, row.misc)
      && row.net == row.gross - row.discount
      && row.balance - row.runningCredit == row.net - row.paid - pool
  {
  }

  /** Credit drawn over all terms never exceeds what the terms put into the
      pool: the pool only grows by overpayments. */
  lemma {:induction false} CreditDrawnFromOverpayments(facts: seq<TermFacts>, rate: real, fixedTotal: real)
    ensures var s := Fold(facts, rate, fixedTotal);
      SumCreditApplied(s.rows) + s.pool == SumOverpaid(s.rows)
    decreases |facts|
  {
    if facts != [] {
      var s := Fold(facts, rate, fixedTotal);
      var prev := Fold(facts[..|facts| - 1], rate, fixedTotal);
      assert s.rows[..|s.rows| - 1] == prev.rows;
      CreditDrawnFromOverpayments(facts[..|facts| - 1], rate, fixedTotal);
    }
  }

  /** Credit a row put into the pool: its running credit minus what the
      pool held after the draw. */
  function Overpaid(rows: seq<Row>, i: int): real
    requires 0 <= i < |rows|
  {
    rows[i].runningCredit - (PoolBefore(rows, i) - rows[i].creditApplied)
  }

  function SumOverpaid(rows: seq<Row>): real
    decreases |rows|
  {
    if rows == [] then 0.0 else SumOverpaid(rows[..|rows| - 1]) + Overpaid(rows, |rows| - 1)
  }

  // ---------------------------------------------------------------
  // Worked scenarios
  // ---------------------------------------------------------------

  const T1: Term := Term("2025-2026", 1)
  const T2: Term := Term("2025-2026", 2)

  /** 15 units at 1000 per unit and 3000 of fixed fees, no award, no
      payment. */
  lemma ScenarioA()
    ensures var s := Fold([TermFacts(T1, 15.0, 15000.0, 0.0, [])], 1000.0, 3000.0);
      s.rows[0].net == 18000.0 && s.rows[0].balance == 18000.0 && s.pool == 0.0
  {
    var f := [TermFacts(T1, 15.0, 15000.0, 0.0, [])];
    assert f[..0] == [];
  }

  /** The same term with a 50% tuition scholarship. */
  lemma ScenarioB()
    ensures var s := Fold([TermFacts(T1, 15.0, 15000.0, 0.0, [AwardRow(1, T1, "Active", Percentage, 50.0, OnTuition)])], 1000.0, 3000.0);
      s.rows[0].discount == 7500.0 && s.rows[0].net == 10500.0
  {
    var awards := [AwardRow(1, T1, "Active", Percentage, 50.0, OnTuition)];
    var f := [TermFacts(T1, 15.0, 15000.0, 0.0, awards)];
    assert f[..0] == [];
    assert awards[..0] == [];
    assert TotalDiscount(awards, 15000.0, 3000.0) == 7500.0;
  }

  /** Scenario A with a payment of 20000: the term shows zero and 2000 moves
      into the pool; a second term of 18000 with no payment then draws the
      2000 and shows 16000. */
  lemma ScenarioCD()
    ensures var s := Fold([TermFacts(T1, 15.0, 15000.0, 20000.0, []), TermFacts(T2, 15.0, 15000.0, 0.0, [])], 1000.0, 3000.0);
      s.rows[0].creditApplied == 0.0 && s.rows[0].balance == 0.0 && s.rows[0].runningCredit == 2000.0
      && s.rows[1].creditApplied == 2000.0 && s.rows[1].balance == 16000.0 && s.pool == 0.0
      && s.net - s.paid == 16000.0
  {
    var f := [TermFacts(T1, 15.0, 15000.0, 20000.0, []), TermFacts(T2, 15.0, 15000.0, 0.0, [])];
    assert f[..1] == [f[0]];
    assert f[..1][..0] == [];
    assert Fold(f[..1][..0], 1000.0, 3000.0) == State([], 0.0, 0.0, 0.0, 0.0);
    var first := Fold(f[..1], 1000.0, 3000.0);
    assert first.net == 18000.0 && first.paid == 20000.0 && first.pool == 2000.0;
  }

  /** Net is not floored: two 60% awards on everything make the net charge
      negative, and the excess plus any payment feeds the pool, to be drawn
      by a later term. */
  lemma NegativeNetFeedsPool()
    ensures var aw := AwardRow(1, T1, "Active", Percentage, 60.0, OnAll);
      var s := Fold([TermFacts(T1, 10.0, 10000.0, 500.0, [aw, aw]), TermFacts(T2, 10.0, 10000.0, 0.0, [])], 1000.0, 0.0);
      s.rows[0].net == -2000.0 && s.rows[0].balance == 0.0 && s.rows[0].runningCredit == 2500.0
      && s.rows[1].creditApplied == 2500.0 && s.rows[1].balance == 7500.0
  {
    var aw := AwardRow(1, T1, "Active", Percentage, 60.0, OnAll);
    var f := [TermFacts(T1, 10.0, 10000.0, 500.0, [aw, aw]), TermFacts(T2, 10.0, 10000.0, 0.0, [])];
    assert f[..1] == [f[0]];
    assert f[..1][..0] == [];
    DiscountCanExceedCharges();
  }

  /** One pass of the ledger loop extends the fold by the next term's row. */
  lemma LedgerStep(facts: seq<TermFacts>, i: nat, rate: real, fixedTotal: real, st: State, row: Row)
    requires i < |facts|
    requires st == Fold(facts[..i], rate, fixedTotal)
    requires row == TermRow(facts[i], rate, fixedTotal, st.pool)
    ensures Fold(facts[..i + 1], rate, fixedTotal)
      == State(st.rows + [row], row.runningCredit, st.net + row.net, st.paid + row.paid, st.discount + row.discount)
  {
    assert facts[..i + 1][..i] == facts[..i];
  }

  /** The credit step of the ledger loop. */
  method CarryCredit(net: real, paid: real, pool: real) returns (applied: real, balance: real, runningCredit: real)
    ensures CreditStep(applied, balance, runningCredit) == ApplyCredit(net, paid, pool)
  {
    runningCredit := pool;
    applied := 0.0;
    if runningCredit > 0.0 && net > 0.0 {
      applied := Min(runningCredit, net);
      runningCredit := runningCredit - applied;
    }
    balance := net - paid - applied;
    if balance < 0.0 {
      runningCredit := runningCredit + Abs(balance);
      balance := 0.0;
    }
  }

  /** The queries of the ledger loop for one term: billed units, tuition
      at the rate, payments and active awards. */
  method ReadTermFacts(db: Db, sid: int, t: Term, rate: real) returns (f: TermFacts)
    ensures f == FactOf(db, sid, t, rate)
  {
    var units := TermUnits(db.enrollments, db.courses, sid, t, BilledStatuses) as real;
    var tuition := units * rate;
    var paid := TermPaid(db.payments, sid, t);
    var awards := ActiveAwards(db.awards, sid, t);
    f := TermFacts(t, units, tuition, paid, awards);
  }

  /** The charges of the ledger loop for one term: misc, discount, gross,
      net, then the credit step. */
  method LedgerTermStep(f: TermFacts, rate: real, fixedTotal: real, pool: real) returns (row: Row)
    ensures row == TermRow(f, rate, fixedTotal, pool)
  {
    var misc := if f.units > 0.0 then fixedTotal else 0.0;
    var discount, lines := CalculateScholarshipDiscount(f.awards, f.tuition, misc);
    var gross := f.tuition + misc;
    var net := gross - discount;
    var creditApplied, balance, runningCredit := CarryCredit(net, f.paid, pool);
    row := Row(f.term, f.units, f.tuition, rate, misc, gross, discount, lines, net, f.paid,
               creditApplied, balance, runningCredit);
  }

  /** The ledger loop over the student's terms: one row per term, the
      running credit pool and the grand-total accumulators. */
  method LedgerLoop(db: Db, sid: int, terms: seq<Term>, rate: real, fixedTotal: real) returns (s: State)
    ensures s == Fold(Facts(db, sid, terms, rate), rate, fixedTotal)
  {
    ghost var facts := Facts(db, sid, terms, rate);
    // The rows array, the running credit and the three grand-total
    // accumulators, kept together.
    s := State([], 0.0, 0.0, 0.0, 0.0);
    var i := 0;
    while i < |terms|
      invariant 0 <= i <= |terms|
      invariant Fold(facts[..i], rate, fixedTotal) == s
    {
      var f := ReadTermFacts(db, sid, terms[i], rate);
      assert f == facts[i];
      var row := LedgerTermStep(f, rate, fixedTotal, s.pool);
      LedgerStep(facts, i, rate, fixedTotal, s, row);
      s := State(s.rows + [row], row.runningCredit, s.net + row.net, s.paid + row.paid, s.discount + row.discount);
      i := i + 1;
    }
    assert facts[..i] == facts;
  }

  /** calculateAllTermsWithCarryForward: rates, the fixed-fee total, the
      student's terms in order, the loop, then the totals. */
  method CalculateAllTermsWithCarryForward(db: Db, sid: int) returns (res: LedgerResult)
    ensures res == LedgerOf(db, sid)
  {
    var rates := StudentRates(db, sid);
    var fixedTotal := TotalFixedFee(db.fees, rates.labFee);
    var terms := StudentTerms(db.enrollments, db.courses, sid, None);
    assert fixedTotal == FixedTotal(db, sid);
    var s := LedgerLoop(db, sid, terms, rates.tuitionPerUnit, fixedTotal);
    assert s == Fold(Facts(db, sid, terms, rates.tuitionPerUnit), rates.tuitionPerUnit, FixedTotal(db, sid));
    res := LedgerResult(s.rows, Totals(s.net, s.paid, s.discount, s.pool, s.net - s.paid),
                        rates.tuitionPerUnit, rates.labFee);
  }
}
