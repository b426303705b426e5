/** The statement of account page (pages/student_finance.php, lines
    15-177): payment entry, the term picker, and the statement rows and
    totals re-added from the carry-forward ledger. */
module Statement {
  import opened Common
  import opened Money
  import opened Tables
  import opened FinanceData
  import opened Ledger
  import opened TermOptions

  // ---------------------------------------------------------------
  // Payment entry
  // ---------------------------------------------------------------

  /** A POSTed payment is inserted only when its amount is positive. */
  function AcceptPayment(pays: seq<Payment>, sid: int, amount: real, ay: string, sem: int): seq<Payment> {
    if amount > 0.0 then pays + [Payment(sid, ay, sem, amount)] else pays
  }

  /** A positive payment raises exactly its own term's paid total and the
      student's total by its amount; any other amount changes nothing. */
  lemma AcceptPaymentEffect(pays: seq<Payment>, sid: int, amount: real, ay: string, sem: int, t: Term)
    ensures amount <= 0.0 ==> AcceptPayment(pays, sid, amount, ay, sem) == pays
    ensures amount > 0.0 ==>
      TermPaid(AcceptPayment(pays, sid, amount, ay, sem), sid, t)
        == TermPaid(pays, sid, t) + (if t == Term(ay, sem) then amount else 0.0)
      && TotalPaid(AcceptPayment(pays, sid, amount, ay, sem), sid) == TotalPaid(pays, sid) + amount
  {
    if amount > 0.0 {
      TermPaidAppend(pays, Payment(sid, ay, sem, amount), sid, t);
    }
  }

  // ---------------------------------------------------------------
  // Term selection
  // ---------------------------------------------------------------

  datatype Selection = AllTerms | OneTerm(term: Term) | NoTerm

  /** The requested key ("||" for all terms), else the first option; an
      unknown key falls back to the first option. With no options at all
      no term is selected. */
  function SelectTerm(options: Options, requested: Option<string>): Selection {
    var current := if options == [] then None else Some(options[0].0);
    var key := if requested.Some? then requested else current;
    if key == Some("||") then AllTerms
    else
      var k := if key.Some? && Find(options, key.value).Some? then key else current;
      if k.None? then NoTerm
      else
        match Find(options, k.value)
        case Some(o) => OneTerm(Term(o.ay, o.sem))
        case None => NoTerm
  }

  /** "||" selects every term; a known key selects its option's term; no
      key or an unknown one selects the first option, the one with the
      greatest key. */
  lemma SelectTermRules(options: Options, requested: Option<string>)
    ensures requested == Some("||") ==> SelectTerm(options, requested) == AllTerms
    ensures requested.Some? && requested != Some("||") && Find(options, requested.value).Some? ==>
      SelectTerm(options, requested)
        == OneTerm(Term(Find(options, requested.value).value.ay, Find(options, requested.value).value.sem))
    ensures ((requested.None? || Find(options, requested.value).None?) && requested != Some("||")
             && options != [] && options[0].0 != "||") ==>
      SelectTerm(options, requested) == OneTerm(Term(options[0].1.ay, options[0].1.sem))
    ensures (requested.None? || Find(options, requested.value).None?) && requested != Some("||") && options == [] ==>
      SelectTerm(options, requested) == NoTerm
  {
    if options != [] {
      var first := options[0].0;
      assert Find(options, first) == Some(options[0].1);
      if requested != Some("||") && (requested.None? || Find(options, requested.value).None?) {
        var key := if requested.Some? then requested else Some(first);
        var k := if Find(options, key.value).Some? then key else Some(first);
        assert k == Some(first);
      }
    }
  }

  /** The terms the statement covers: every term with an enrollment row in
      the all-terms view, else the one selected. */
  function ActiveTerms(db: Db, sid: int, sel: Selection): seq<Term> {
    match sel
    case AllTerms => StudentTerms(db.enrollments, db.courses, sid, None)
    case OneTerm(t) => [t]
    case NoTerm => []
  }

  // ---------------------------------------------------------------
  // Statement rows and totals
  // ---------------------------------------------------------------

  /** `$terms_lookup`: the ledger rows keyed by term, a later row
      overwriting an earlier one with the same key. */
  function LookupOf(rows: seq<Row>): map<Term, Row>
    decreases |rows|
  {
    if rows == [] then map[]
    else LookupOf(rows[..|rows| - 1])[rows[|rows| - 1].term := rows[|rows| - 1]]
  }

  /** The lookup holds exactly the ledger's terms, each mapped to a ledger
      row of that term. */
  lemma {:induction false} LookupOfSpec(rows: seq<Row>)
    ensures forall i :: 0 <= i < |rows| ==> rows[i].term in LookupOf(rows)
    ensures forall t :: t in LookupOf(rows) ==> LookupOf(rows)[t] in rows && LookupOf(rows)[t].term == t
    decreases |rows|
  {
    if rows != [] {
      var n := |rows| - 1;
      LookupOfSpec(rows[..n]);
      assert forall i :: 0 <= i < n ==> rows[..n][i] == rows[i];
    }
  }

  datatype Soa = Soa(rows: seq<Row>, assessment: real, discount: real, paid: real, creditsApplied: real)

  /** The foreach over the active terms: each term found in the ledger adds
      its row, copied, and its figures to the four grand totals. */
  function SoaOf(active: seq<Term>, lookup: map<Term, Row>): Soa
    decreases |active|
  {
    if active == [] then Soa([], 0.0, 0.0, 0.0, 0.0)
    else
      var prev := SoaOf(active[..|active| - 1], lookup);
      var t := active[|active| - 1];
      if t in lookup then
        var r := lookup[t];
        Soa(prev.rows + [r], prev.assessment + r.net, prev.discount + r.discount,
            prev.paid + r.paid, prev.creditsApplied + r.creditApplied)
      else prev
  }

  /** The displayed balance: Σnet − Σpaid − Σcredit_applied. */
  function DisplayedBalance(s: Soa): real {
    s.assessment - s.paid - s.creditsApplied
  }

  /** Statement rows are ledger rows of active terms, at most one per
      active term. */
  lemma {:induction false} SoaRowsFromLedger(active: seq<Term>, ledgerRows: seq<Row>)
    ensures |SoaOf(active, LookupOf(ledgerRows)).rows| <= |active|
    ensures forall i :: 0 <= i < |SoaOf(active, LookupOf(ledgerRows)).rows| ==>
      SoaOf(active, LookupOf(ledgerRows)).rows[i] in ledgerRows && SoaOf(active, LookupOf(ledgerRows)).rows[i].term in active
    decreases |active|
  {
    if active != [] {
      var n := |active| - 1;
      var lookup := LookupOf(ledgerRows);
      var s := SoaOf(active, lookup);
      var prev := SoaOf(active[..n], lookup);
      SoaRowsFromLedger(active[..n], ledgerRows);
      LookupOfSpec(ledgerRows);
      if active[n] in lookup {
        assert s.rows == prev.rows + [lookup[active[n]]];
      } else {
        assert s == prev;
      }
      forall i | 0 <= i < |s.rows| ensures s.rows[i] in ledgerRows && s.rows[i].term in active {
        if i < |prev.rows| {
          assert s.rows[i] == prev.rows[i];
          assert prev.rows[i].term in active[..n];
        }
      }
    }
  }

  /** Some row is of term `t`. */
  predicate HasRowOf(rows: seq<Row>, t: Term) {
    exists i :: 0 <= i < |rows| && rows[i].term == t
  }

  /** Every active term with a ledger row contributes a statement row. */
  lemma {:induction false} SoaCoversActive(active: seq<Term>, ledgerRows: seq<Row>)
    ensures forall t :: t in active && HasRowOf(ledgerRows, t) ==> HasRowOf(SoaOf(active, LookupOf(ledgerRows)).rows, t)
    decreases |active|
  {
    if active != [] {
      var n := |active| - 1;
      var lookup := LookupOf(ledgerRows);
      var s := SoaOf(active, lookup);
      var prev := SoaOf(active[..n], lookup);
      SoaCoversActive(active[..n], ledgerRows);
      LookupOfSpec(ledgerRows);
      if active[n] in lookup {
        assert s.rows == prev.rows + [lookup[active[n]]];
      } else {
        assert s == prev;
      }
      forall t | t in active && HasRowOf(ledgerRows, t)
        ensures HasRowOf(s.rows, t)
      {
        if t != active[n] {
          assert t in active[..n];
          var i :| 0 <= i < |prev.rows| && prev.rows[i].term == t;
          assert s.rows[i] == prev.rows[i];
        } else {
          var i :| 0 <= i < |ledgerRows| && ledgerRows[i].term == t;
          assert t in lookup;
          assert s.rows[|s.rows| - 1].term == t;
        }
      }
    }
  }

  /** The four grand totals are the sums over the statement rows. */
  lemma {:induction false} SoaTotals(active: seq<Term>, lookup: map<Term, Row>)
    ensures var s := SoaOf(active, lookup);
      s.assessment == SumNet(s.rows) && s.paid == SumPaid(s.rows)
      && s.discount == SumDiscount(s.rows) && s.creditsApplied == SumCreditApplied(s.rows)
    decreases |active|
  {
    if active != [] {
      var n := |active| - 1;
      var s := SoaOf(active, lookup);
      var prev := SoaOf(active[..n], lookup);
      SoaTotals(active[..n], lookup);
      if active[n] in lookup {
        assert s.rows[..|s.rows| - 1] == prev.rows;
      }
    }
  }

  /** When the ledger's terms are distinct, the lookup maps each row's
      term to that row. */
  lemma {:induction false} LookupOfDistinct(rows: seq<Row>)
    requires forall i, j :: 0 <= i < j < |rows| ==> rows[i].term != rows[j].term
    ensures forall i :: 0 <= i < |rows| ==> rows[i].term in LookupOf(rows) && LookupOf(rows)[rows[i].term] == rows[i]
    decreases |rows|
  {
    if rows != [] {
      var n := |rows| - 1;
      var init := rows[..n];
      assert forall i, j :: 0 <= i < j < |init| ==> init[i].term != init[j].term by {
        forall i, j | 0 <= i < j < |init| ensures init[i].term != init[j].term {
          assert init[i] == rows[i] && init[j] == rows[j];
        }
      }
      LookupOfDistinct(init);
      forall i | 0 <= i < |rows| ensures rows[i].term in LookupOf(rows) && LookupOf(rows)[rows[i].term] == rows[i] {
        if i < n {
          assert init[i] == rows[i];
        }
      }
    }
  }

  /** A lookup holding row i for the i-th active term yields exactly those
      rows. */
  lemma {:induction false} SoaOfMatching(active: seq<Term>, lookup: map<Term, Row>, rows: seq<Row>)
    requires |active| == |rows|
    requires forall i :: 0 <= i < |active| ==> active[i] in lookup && lookup[active[i]] == rows[i]
    ensures SoaOf(active, lookup).rows == rows
    decreases |active|
  {
    if active != [] {
      var n := |active| - 1;
      assert forall i :: 0 <= i < n ==> active[..n][i] == active[i] && rows[..n][i] == rows[i];
      SoaOfMatching(active[..n], lookup, rows[..n]);
      assert rows == rows[..n] + [rows[n]];
    }
  }

  /** When the ledger's terms are distinct and the active terms are exactly
      the ledger's, the statement reproduces the ledger rows. */
  lemma SoaOfWholeLedger(ledgerRows: seq<Row>, active: seq<Term>)
    requires |active| == |ledgerRows|
    requires forall i :: 0 <= i < |active| ==> ledgerRows[i].term == active[i]
    requires forall i, j :: 0 <= i < j < |ledgerRows| ==> ledgerRows[i].term != ledgerRows[j].term
    ensures SoaOf(active, LookupOf(ledgerRows)).rows == ledgerRows
    ensures DisplayedBalance(SoaOf(active, LookupOf(ledgerRows)))
      == SumNet(ledgerRows) - SumPaid(ledgerRows) - SumCreditApplied(ledgerRows)
  {
    LookupOfDistinct(ledgerRows);
    SoaOfMatching(active, LookupOf(ledgerRows), ledgerRows);
    SoaTotals(active, LookupOf(ledgerRows));
  }

  /** Strictly ascending terms are distinct. */
  lemma AscendingRowsDistinct(rows: seq<Row>)
    requires forall i, j :: 0 <= i < j < |rows| ==> TermLess(rows[i].term, rows[j].term)
    ensures forall i, j :: 0 <= i < j < |rows| ==> rows[i].term != rows[j].term
  {
    forall i, j | 0 <= i < j < |rows| ensures rows[i].term != rows[j].term {
      TermLessIrreflexive(rows[i].term);
    }
  }

  /** The all-terms statement shows every ledger row, in ledger order, and
      its displayed balance is Σnet − Σpaid − Σcredit applied over them. */
  lemma AllTermsShowsLedger(db: Db, sid: int)
    ensures var rows := LedgerOf(db, sid).rows;
      var s := SoaOf(ActiveTerms(db, sid, AllTerms), LookupOf(rows));
      s.rows == rows
      && DisplayedBalance(s) == SumNet(rows) - SumPaid(rows) - SumCreditApplied(rows)
  {
    var rows := LedgerOf(db, sid).rows;
    LedgerRowsAscending(db, sid);
    AscendingRowsDistinct(rows);
    SoaOfWholeLedger(rows, ActiveTerms(db, sid, AllTerms));
  }

  /** The all-terms displayed balance is the ledger's grand balance minus
      the credit applied, so applied credit is deducted a second time: it
      equals the sum of the emitted term balances minus the pool minus the
      applied credit. */
  lemma AllTermsDeductsCreditTwice(db: Db, sid: int)
    ensures var ledger := LedgerOf(db, sid);
      var s := SoaOf(ActiveTerms(db, sid, AllTerms), LookupOf(ledger.rows));
      DisplayedBalance(s) == ledger.totals.balance - SumCreditApplied(ledger.rows)
      && DisplayedBalance(s) == SumBalance(ledger.rows) - ledger.totals.availableCredit - SumCreditApplied(ledger.rows)
  {
    AllTermsShowsLedger(db, sid);
    GrandBalanceIdentity(db, sid);
  }

  /** Net 18000 with 20000 paid, then net 18000 with nothing paid: the term
      balances sum to 16000, the statement shows 14000. */
  lemma DoubleCountExample()
    ensures var facts := [TermFacts(T1, 15.0, 15000.0, 20000.0, []), TermFacts(T2, 15.0, 15000.0, 0.0, [])];
      var rows := Fold(facts, 1000.0, 3000.0).rows;
      var s := SoaOf([T1, T2], LookupOf(rows));
      SumBalance(rows) == 16000.0 && DisplayedBalance(s) == 14000.0
  {
    var facts := [TermFacts(T1, 15.0, 15000.0, 20000.0, []), TermFacts(T2, 15.0, 15000.0, 0.0, [])];
    var st := Fold(facts, 1000.0, 3000.0);
    ScenarioCD();
    FoldTotals(facts, 1000.0, 3000.0);
    FoldRowTerms(facts, 1000.0, 3000.0);
    SoaOfWholeLedger(st.rows, [T1, T2]);
    assert st.rows[..1] == [st.rows[0]];
    assert SumCreditApplied(st.rows[..1]) == st.rows[0].creditApplied by {
      assert st.rows[..1][..0] == [];
    }
  }

  /** The overpayment flag is exactly a negative displayed balance, and its
      amount is that balance's magnitude. */
  function OverpaymentShown(s: Soa): (r: (bool, real))
    ensures r.0 <==> DisplayedBalance(s) < 0.0
    ensures r.1 >= 0.0 && (r.0 ==> r.1 == -DisplayedBalance(s)) && (!r.0 ==> r.1 == 0.0)
  {
    var b := DisplayedBalance(s);
    if b < 0.0 then (true, Abs(b)) else (false, 0.0)
  }

  /** The available credit shown is the ledger's final pool: the last
      term's running credit, never negative; the persisted overpayment
      table is not consulted. */
  function AvailableCredit(db: Db, sid: int): (c: real)
    ensures c >= 0.0
    ensures LedgerOf(db, sid).rows != [] ==> c == LedgerOf(db, sid).rows[|LedgerOf(db, sid).rows| - 1].runningCredit
  {
    GrandBalanceIdentity(db, sid);
    LedgerOf(db, sid).totals.availableCredit
  }

  /** The page's two loops: the lookup over the ledger rows, then the
      statement over the active terms. */
  method BuildStatement(active: seq<Term>, ledgerRows: seq<Row>) returns (s: Soa)
    ensures s == SoaOf(active, LookupOf(ledgerRows))
  {
    var lookup: map<Term, Row> := map[];
    var i := 0;
    while i < |ledgerRows|
      invariant 0 <= i <= |ledgerRows|
      invariant lookup == LookupOf(ledgerRows[..i])
    {
      lookup := lookup[ledgerRows[i].term := ledgerRows[i]];
      assert ledgerRows[..i + 1][..i] == ledgerRows[..i];
      i := i + 1;
    }
    assert ledgerRows[..i] == ledgerRows;
    s := Soa([], 0.0, 0.0, 0.0, 0.0);
    var j := 0;
    while j < |active|
      invariant 0 <= j <= |active|
      invariant s == SoaOf(active[..j], lookup)
    {
      var t := active[j];
      if t in lookup {
        var r := lookup[t];
        s := Soa(s.rows + [r], s.assessment + r.net, s.discount + r.discount, s.paid + r.paid, s.creditsApplied + r.creditApplied);
      }
      assert active[..j + 1][..j] == active[..j];
      j := j + 1;
    }
    assert active[..j] == active;
  }
}
