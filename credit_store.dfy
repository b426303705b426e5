/** The persisted overpayment credit store (config/finance_helpers.php,
    recordOverpayment, applyOverpaymentCredit, processTermOverpayment and
    applyAvailableCredits): a table of term_overpayments records that the
    functions update in place. Record ids are the table's auto-increment
    key. */
module CreditStore {
  import opened Common
  import opened Money
  import opened Tables
  import opened FinanceData
  import opened Assessment

  // ---------------------------------------------------------------
  // Records and the updates the SQL statements make
  // ---------------------------------------------------------------

  predicate UniqueIds(rs: seq<Overpayment>) {
    forall i, j :: 0 <= i < j < |rs| ==> rs[i].id != rs[j].id
  }

  /** Ids are unique and below the next auto-increment value. */
  predicate StoreValid(rs: seq<Overpayment>, nextId: int) {
    UniqueIds(rs) && forall i :: 0 <= i < |rs| ==> rs[i].id < nextId
  }

  /** A record once applied to term `t`. */
  function AppliedTo(o: Overpayment, t: Term): Overpayment {
    o.(applied := true, appliedTo := Some(t))
  }

  /** UPDATE ... SET is_applied = 1, applied_academic_year/semester = t
      WHERE overpayment_id = id. Nothing checks whether the record was
      already applied. */
  function MarkApplied(rs: seq<Overpayment>, id: int, t: Term): (r: seq<Overpayment>)
    ensures |r| == |rs|
    ensures forall i :: 0 <= i < |rs| ==> r[i] == (if rs[i].id == id then AppliedTo(rs[i], t) else rs[i])
    decreases |rs|
  {
    if rs == [] then []
    else
      var o := rs[|rs| - 1];
      MarkApplied(rs[..|rs| - 1], id, t) + [if o.id == id then AppliedTo(o, t) else o]
  }

  /** UPDATE ... SET amount = x WHERE overpayment_id = id. */
  function SetAmount(rs: seq<Overpayment>, id: int, x: real): (r: seq<Overpayment>)
    ensures |r| == |rs|
    ensures forall i :: 0 <= i < |rs| ==> r[i] == (if rs[i].id == id then rs[i].(amount := x) else rs[i])
    decreases |rs|
  {
    if rs == [] then []
    else
      var o := rs[|rs| - 1];
      SetAmount(rs[..|rs| - 1], id, x) + [if o.id == id then o.(amount := x) else o]
  }

  /** SUM(amount) over every record. */
  function SumAmount(rs: seq<Overpayment>): real
    decreases |rs|
  {
    if rs == [] then 0.0 else SumAmount(rs[..|rs| - 1]) + rs[|rs| - 1].amount
  }

  lemma {:induction false} SumAmountAppend(rs: seq<Overpayment>, o: Overpayment)
    ensures SumAmount(rs + [o]) == SumAmount(rs) + o.amount
  {
    assert (rs + [o])[..|rs|] == rs;
  }

  /** Marking records applied moves no money. */
  lemma {:induction false} SumAmountMarkApplied(rs: seq<Overpayment>, id: int, t: Term)
    ensures SumAmount(MarkApplied(rs, id, t)) == SumAmount(rs)
    decreases |rs|
  {
    if rs != [] {
      SumAmountMarkApplied(rs[..|rs| - 1], id, t);
    }
  }

  /** Rewriting the amount of the one record with this id changes the total
      by the difference. */
  lemma {:induction false} SumAmountSetAmount(rs: seq<Overpayment>, o: Overpayment, x: real)
    requires UniqueIds(rs) && o in rs
    ensures SumAmount(SetAmount(rs, o.id, x)) == SumAmount(rs) - o.amount + x
    decreases |rs|
  {
    var n := |rs| - 1;
    var init := rs[..n];
    if rs[n].id == o.id {
      assert rs[n] == o by {
        var k :| 0 <= k < |rs| && rs[k] == o;
        assert k == n;
      }
      SetAmountAbsent(init, o.id, x);
    } else {
      var k :| 0 <= k < |rs| && rs[k] == o;
      assert init[k] == o;
      SumAmountSetAmount(init, o, x);
    }
  }

  /** An update by an id no record carries changes nothing. */
  lemma SetAmountAbsent(rs: seq<Overpayment>, id: int, x: real)
    requires forall i :: 0 <= i < |rs| ==> rs[i].id != id
    ensures SetAmount(rs, id, x) == rs
  {
  }

  /** Marking an unapplied record applied to `t` moves its amount from the
      unapplied credit to the credit applied to `t`; every other term's
      applied credit stays as it was. */
  lemma CreditsMarkApplied(rs: seq<Overpayment>, o: Overpayment, t: Term, sid: int, u: Term)
    requires UniqueIds(rs) && o in rs && !o.applied
    ensures AppliedCredit(MarkApplied(rs, o.id, t), sid, u)
         == AppliedCredit(rs, sid, u) + (if o.studentId == sid && u == t then o.amount else 0.0)
    ensures UnappliedCredit(MarkApplied(rs, o.id, t), sid)
         == UnappliedCredit(rs, sid) - (if o.studentId == sid then o.amount else 0.0)
  {
    AppliedCreditMarkApplied(rs, o, t, sid, u);
    UnappliedCreditMarkApplied(rs, o, t, sid);
  }

  lemma {:induction false} AppliedCreditMarkApplied(rs: seq<Overpayment>, o: Overpayment, t: Term, sid: int, u: Term)
    requires UniqueIds(rs) && o in rs && !o.applied
    ensures AppliedCredit(MarkApplied(rs, o.id, t), sid, u)
         == AppliedCredit(rs, sid, u) + (if o.studentId == sid && u == t then o.amount else 0.0)
    decreases |rs|
  {
    var n := |rs| - 1;
    var init := rs[..n];
    var k :| 0 <= k < |rs| && rs[k] == o;
    if k == n {
      MarkAppliedAbsent(init, o.id, t);
    } else {
      assert init[k] == o;
      AppliedCreditMarkApplied(init, o, t, sid, u);
    }
  }

  lemma {:induction false} UnappliedCreditMarkApplied(rs: seq<Overpayment>, o: Overpayment, t: Term, sid: int)
    requires UniqueIds(rs) && o in rs && !o.applied
    ensures UnappliedCredit(MarkApplied(rs, o.id, t), sid)
         == UnappliedCredit(rs, sid) - (if o.studentId == sid then o.amount else 0.0)
    decreases |rs|
  {
    var n := |rs| - 1;
    var init := rs[..n];
    var k :| 0 <= k < |rs| && rs[k] == o;
    if k == n {
      MarkAppliedAbsent(init, o.id, t);
    } else {
      assert init[k] == o;
      UnappliedCreditMarkApplied(init, o, t, sid);
    }
  }

  lemma MarkAppliedAbsent(rs: seq<Overpayment>, id: int, t: Term)
    requires forall i :: 0 <= i < |rs| ==> rs[i].id != id
    ensures MarkApplied(rs, id, t) == rs
  {
  }

  /** Rewriting the amount of an unapplied record leaves every term's
      applied credit alone. */
  lemma {:induction false} AppliedCreditSetAmount(rs: seq<Overpayment>, o: Overpayment, x: real, sid: int, u: Term)
    requires UniqueIds(rs) && o in rs && !o.applied
    ensures AppliedCredit(SetAmount(rs, o.id, x), sid, u) == AppliedCredit(rs, sid, u)
    decreases |rs|
  {
    var n := |rs| - 1;
    var init := rs[..n];
    var k :| 0 <= k < |rs| && rs[k] == o;
    if k == n {
      SetAmountAbsent(init, o.id, x);
    } else {
      assert init[k] == o;
      AppliedCreditSetAmount(init, o, x, sid, u);
    }
  }

  /** The same update, seen from the unapplied total. */
  lemma {:induction false} UnappliedCreditSetAmount(rs: seq<Overpayment>, o: Overpayment, x: real, sid: int)
    requires UniqueIds(rs) && o in rs && !o.applied
    ensures UnappliedCredit(SetAmount(rs, o.id, x), sid)
         == UnappliedCredit(rs, sid) + (if o.studentId == sid then x - o.amount else 0.0)
    decreases |rs|
  {
    var n := |rs| - 1;
    var init := rs[..n];
    var k :| 0 <= k < |rs| && rs[k] == o;
    if k == n {
      SetAmountAbsent(init, o.id, x);
    } else {
      assert init[k] == o;
      UnappliedCreditSetAmount(init, o, x, sid);
    }
  }

  lemma CreditsAppend(rs: seq<Overpayment>, o: Overpayment, sid: int, u: Term)
    ensures AppliedCredit(rs + [o], sid, u)
         == AppliedCredit(rs, sid, u) + (if o.studentId == sid && o.applied && o.appliedTo == Some(u) then o.amount else 0.0)
    ensures UnappliedCredit(rs + [o], sid)
         == UnappliedCredit(rs, sid) + (if o.studentId == sid && !o.applied then o.amount else 0.0)
  {
    assert (rs + [o])[..|rs|] == rs;
  }

  // ---------------------------------------------------------------
  // recordOverpayment and processTermOverpayment
  // ---------------------------------------------------------------

  /** The record the existence check finds: the first unapplied record of
      this student with this source term, in table order. */
  function FirstUnapplied(rs: seq<Overpayment>, sid: int, t: Term): (r: Option<Overpayment>)
    ensures r.Some? ==> exists k :: 0 <= k < |rs| && rs[k] == r.value && Open(r.value, sid, t)
                          && forall i :: 0 <= i < k ==> !Open(rs[i], sid, t)
    ensures r.None? <==> forall o :: o in rs ==> !Open(o, sid, t)
    decreases |rs|
  {
    if rs == [] then None
    else if Open(rs[0], sid, t) then
      assert rs[0] == rs[0];
      Some(rs[0])
    else
      assert forall o :: o in rs ==> o == rs[0] || o in rs[1..];
      var r := FirstUnapplied(rs[1..], sid, t);
      assert r.Some? ==> exists k :: 0 <= k < |rs| && rs[k] == r.value && Open(r.value, sid, t)
                          && forall i :: 0 <= i < k ==> !Open(rs[i], sid, t) by {
        if r.Some? {
          var k :| 0 <= k < |rs| - 1 && rs[1..][k] == r.value && Open(r.value, sid, t)
                   && forall i :: 0 <= i < k ==> !Open(rs[1..][i], sid, t);
          assert rs[k + 1] == r.value;
          assert forall i :: 0 <= i < k + 1 ==> !Open(rs[i], sid, t) by {
            forall i | 0 < i < k + 1 ensures !Open(rs[i], sid, t) { assert rs[i] == rs[1..][i - 1]; }
          }
        }
      }
      r
  }

  /** An unapplied record of this student whose source is `t`. */
  predicate Open(o: Overpayment, sid: int, t: Term) {
    o.studentId == sid && o.source == t && !o.applied
  }

  datatype Store = Store(records: seq<Overpayment>, nextId: int)

  /** recordOverpayment: overwrite the amount of the existing unapplied
      record for the source term, or insert a new one. */
  function Recorded(s: Store, sid: int, t: Term, amount: real): Store {
    match FirstUnapplied(s.records, sid, t)
    case Some(o) => Store(SetAmount(s.records, o.id, amount), s.nextId)
    case None => Store(s.records + [Overpayment(s.nextId, sid, t, amount, false, None)], s.nextId + 1)
  }

  /** Overwriting: the existing record keeps its id and place and now holds
      `amount`; the unapplied credit changes by the difference and no
      applied credit changes. */
  lemma RecordedOverwrites(s: Store, sid: int, t: Term, amount: real, o: Overpayment)
    requires StoreValid(s.records, s.nextId)
    requires FirstUnapplied(s.records, sid, t) == Some(o)
    ensures StoreValid(Recorded(s, sid, t, amount).records, Recorded(s, sid, t, amount).nextId)
    ensures |Recorded(s, sid, t, amount).records| == |s.records|
    ensures FirstUnapplied(Recorded(s, sid, t, amount).records, sid, t) == Some(o.(amount := amount))
    ensures UnappliedCredit(Recorded(s, sid, t, amount).records, sid) == UnappliedCredit(s.records, sid) - o.amount + amount
    ensures forall u :: AppliedCredit(Recorded(s, sid, t, amount).records, sid, u) == AppliedCredit(s.records, sid, u)
  {
    var rs := s.records;
    var r := SetAmount(rs, o.id, amount);
    assert Recorded(s, sid, t, amount) == Store(r, s.nextId);
    SetAmountValid(rs, s.nextId, o.id, amount);
    UnappliedCreditSetAmount(rs, o, amount, sid);
    forall u ensures AppliedCredit(r, sid, u) == AppliedCredit(rs, sid, u) {
      AppliedCreditSetAmount(rs, o, amount, sid, u);
    }
    FirstUnappliedAfterSet(rs, sid, t, amount, o);
  }

  lemma FirstUnappliedAfterSet(rs: seq<Overpayment>, sid: int, t: Term, x: real, o: Overpayment)
    requires UniqueIds(rs)
    requires FirstUnapplied(rs, sid, t) == Some(o)
    ensures FirstUnapplied(SetAmount(rs, o.id, x), sid, t) == Some(o.(amount := x))
  {
    var r := SetAmount(rs, o.id, x);
    var k :| 0 <= k < |rs| && rs[k] == o && Open(o, sid, t) && forall i :: 0 <= i < k ==> !Open(rs[i], sid, t);
    assert r[k] == o.(amount := x);
    forall i | 0 <= i < k ensures !Open(r[i], sid, t) {
      assert rs[i].id != o.id;
    }
    FirstUnappliedStable(r, k, sid, t);
  }

  /** Inserting: one new unapplied record with a fresh id, found by the
      next existence check; the unapplied credit grows by `amount` and no
      applied credit changes. */
  lemma RecordedInserts(s: Store, sid: int, t: Term, amount: real)
    requires StoreValid(s.records, s.nextId)
    requires FirstUnapplied(s.records, sid, t).None?
    ensures StoreValid(Recorded(s, sid, t, amount).records, Recorded(s, sid, t, amount).nextId)
    ensures Recorded(s, sid, t, amount).records[..|s.records|] == s.records
    ensures |Recorded(s, sid, t, amount).records| == |s.records| + 1
    ensures FirstUnapplied(Recorded(s, sid, t, amount).records, sid, t) == Some(Overpayment(s.nextId, sid, t, amount, false, None))
    ensures UnappliedCredit(Recorded(s, sid, t, amount).records, sid) == UnappliedCredit(s.records, sid) + amount
    ensures forall u :: AppliedCredit(Recorded(s, sid, t, amount).records, sid, u) == AppliedCredit(s.records, sid, u)
  {
    var rs := s.records;
    var n := Overpayment(s.nextId, sid, t, amount, false, None);
    var r := rs + [n];
    assert Recorded(s, sid, t, amount) == Store(r, s.nextId + 1);
    AppendValid(rs, s.nextId, n);
    forall u ensures AppliedCredit(r, sid, u) == AppliedCredit(rs, sid, u) {
      CreditsAppend(rs, n, sid, u);
    }
    CreditsAppend(rs, n, sid, t);
    forall i | 0 <= i < |rs| ensures !Open(r[i], sid, t) {
      assert rs[i] in rs;
    }
    FirstUnappliedStable(r, |rs|, sid, t);
  }

  lemma SetAmountValid(rs: seq<Overpayment>, nextId: int, id: int, x: real)
    requires StoreValid(rs, nextId)
    ensures StoreValid(SetAmount(rs, id, x), nextId)
  {
  }

  /** A record carrying the next auto-increment id keeps the store valid. */
  lemma AppendValid(rs: seq<Overpayment>, nextId: int, o: Overpayment)
    requires StoreValid(rs, nextId) && o.id == nextId
    ensures StoreValid(rs + [o], nextId + 1)
  {
  }

  /** When record k is the only unapplied record of the source, the
      existence check finds it. */
  lemma FirstUnappliedStable(rs: seq<Overpayment>, k: int, sid: int, t: Term)
    requires 0 <= k < |rs| && Open(rs[k], sid, t)
    requires forall i :: 0 <= i < k ==> !Open(rs[i], sid, t)
    ensures FirstUnapplied(rs, sid, t) == Some(rs[k])
    decreases k
  {
    if k > 0 {
      FirstUnappliedStable(rs[1..], k - 1, sid, t);
    }
  }

  /** SetAmount to the amount the record already holds changes nothing. */
  lemma SetAmountSame(rs: seq<Overpayment>, o: Overpayment)
    requires UniqueIds(rs) && o in rs
    ensures SetAmount(rs, o.id, o.amount) == rs
  {
    var r := SetAmount(rs, o.id, o.amount);
    forall i | 0 <= i < |rs| ensures r[i] == rs[i] {
      var k :| 0 <= k < |rs| && rs[k] == o;
      if rs[i].id == o.id {
        assert i == k;
      }
    }
  }

  // ---------------------------------------------------------------
  // The queue applyAvailableCredits walks: the student's unapplied
  // records, oldest source term first
  // ---------------------------------------------------------------

  /** WHERE student_id = sid AND is_applied = 0, in table order. */
  function Unapplied(rs: seq<Overpayment>, sid: int): (r: seq<Overpayment>)
    ensures forall o :: o in r <==> o in rs && o.studentId == sid && !o.applied
    decreases |rs|
  {
    if rs == [] then []
    else
      var o := rs[|rs| - 1];
      assert forall x :: x in rs <==> x in rs[..|rs| - 1] || x == o;
      Unapplied(rs[..|rs| - 1], sid) + (if o.studentId == sid && !o.applied then [o] else [])
  }

  lemma {:induction false} UnappliedUniqueIds(rs: seq<Overpayment>, sid: int)
    requires UniqueIds(rs)
    ensures UniqueIds(Unapplied(rs, sid))
    decreases |rs|
  {
    if rs != [] {
      var n := |rs| - 1;
      var o := rs[n];
      var init := Unapplied(rs[..n], sid);
      UnappliedUniqueIds(rs[..n], sid);
      forall x | x in init ensures x.id != o.id {
        var k :| 0 <= k < n && rs[k] == x;
      }
    }
  }

  /** Oldest source term first: no record's source is earlier than that of
      a record before it. */
  predicate SourceOrdered(q: seq<Overpayment>) {
    forall i, j :: 0 <= i < j < |q| ==> !TermLess(q[j].source, q[i].source)
  }

  /** Not-earlier is transitive. */
  lemma NotEarlierTransitive(a: Term, b: Term, c: Term)
    requires !TermLess(b, a) && !TermLess(c, b)
    ensures !TermLess(c, a)
  {
    if TermLess(c, a) {
      if a == b {
      } else {
        TermLessTotal(a, b);
        TermLessTransitive(c, a, b);
      }
    }
  }

  /** Insert `x` in front of the first record whose source is not earlier. */
  function InsertBySource(x: Overpayment, q: seq<Overpayment>): (r: seq<Overpayment>)
    ensures multiset(r) == multiset(q) + multiset{x}
    decreases |q|
  {
    if q == [] || !TermLess(q[0].source, x.source) then [x] + q
    else
      assert q == [q[0]] + q[1..];
      [q[0]] + InsertBySource(x, q[1..])
  }

  lemma {:induction false} InsertKeepsOrder(x: Overpayment, q: seq<Overpayment>)
    requires SourceOrdered(q)
    ensures SourceOrdered(InsertBySource(x, q))
    decreases |q|
  {
    if q == [] || !TermLess(q[0].source, x.source) {
      forall j | 0 <= j < |q| ensures !TermLess(q[j].source, x.source) {
        if j > 0 { NotEarlierTransitive(x.source, q[0].source, q[j].source); }
      }
    } else {
      var rest := InsertBySource(x, q[1..]);
      InsertKeepsOrder(x, q[1..]);
      forall y | y in rest ensures !TermLess(y.source, q[0].source) {
        assert y in multiset(rest);
        if y == x {
          if TermLess(x.source, q[0].source) {
            TermLessTransitive(x.source, q[0].source, x.source);
            TermLessIrreflexive(x.source);
          }
        } else {
          assert y in multiset(q[1..]);
          var j :| 0 <= j < |q| - 1 && q[1..][j] == y;
          assert q[j + 1] == y;
        }
      }
      assert InsertBySource(x, q) == [q[0]] + rest;
    }
  }

  /** ORDER BY source_academic_year, source_semester: an insertion sort that
      keeps records with the same source in table order. */
  function SortBySource(q: seq<Overpayment>): (r: seq<Overpayment>)
    ensures multiset(r) == multiset(q)
    ensures SourceOrdered(r)
    decreases |q|
  {
    if q == [] then []
    else
      assert q == [q[0]] + q[1..];
      var r := SortBySource(q[1..]);
      InsertKeepsOrder(q[0], r);
      InsertBySource(q[0], r)
  }

  lemma {:induction false} InsertKeepsUniqueIds(x: Overpayment, q: seq<Overpayment>)
    requires UniqueIds(q) && forall y :: y in q ==> y.id != x.id
    ensures UniqueIds(InsertBySource(x, q))
    decreases |q|
  {
    if q != [] && TermLess(q[0].source, x.source) {
      InsertKeepsUniqueIds(x, q[1..]);
      var rest := InsertBySource(x, q[1..]);
      forall y | y in rest ensures y.id != q[0].id {
        assert y in multiset(rest);
        if y != x {
          assert y in multiset(q[1..]);
          var j :| 0 <= j < |q| - 1 && q[1..][j] == y;
          assert q[j + 1] == y;
        }
      }
    }
  }

  lemma {:induction false} SortKeepsUniqueIds(q: seq<Overpayment>)
    requires UniqueIds(q)
    ensures UniqueIds(SortBySource(q))
    decreases |q|
  {
    if q != [] {
      SortKeepsUniqueIds(q[1..]);
      var r := SortBySource(q[1..]);
      forall y | y in r ensures y.id != q[0].id {
        assert y in multiset(q[1..]);
        var j :| 0 <= j < |q| - 1 && q[1..][j] == y;
        assert q[j + 1] == y;
      }
      InsertKeepsUniqueIds(q[0], r);
    }
  }

  /** The records applyAvailableCredits fetches, in the order it walks them. */
  function Queue(rs: seq<Overpayment>, sid: int): (q: seq<Overpayment>)
    ensures SourceOrdered(q)
    ensures forall o :: o in q <==> o in rs && o.studentId == sid && !o.applied
    ensures UniqueIds(rs) ==> UniqueIds(q)
  {
    var u := Unapplied(rs, sid);
    var q := SortBySource(u);
    assert forall o :: o in q <==> o in multiset(u);
    assert UniqueIds(rs) ==> UniqueIds(q) by {
      if UniqueIds(rs) { UnappliedUniqueIds(rs, sid); SortKeepsUniqueIds(u); }
    }
    q
  }

  // ---------------------------------------------------------------
  // applyAvailableCredits as a fold over the queue
  // ---------------------------------------------------------------

  /** The loop's state: the table, total_applied and remaining. */
  datatype Pass = Pass(store: Store, applied: real, remaining: real)

  /** One iteration for record `op`: apply min(amount, remaining); a whole
      record is marked applied, otherwise it keeps the rest and a new
      applied record holds exactly the applied part. */
  function Step(p: Pass, op: Overpayment, sid: int, t: Term): Pass {
    var a := Min(op.amount, p.remaining);
    var rs := p.store.records;
    var id := p.store.nextId;
    if a == op.amount then
      Pass(Store(MarkApplied(rs, op.id, t), id), p.applied + a, p.remaining - a)
    else
      Pass(Store(SetAmount(rs, op.id, op.amount - a) + [Overpayment(id, sid, op.source, a, true, Some(t))], id + 1),
           p.applied + a, p.remaining - a)
  }

  /** The foreach with its `if ($remaining <= 0) break`. */
  function Consume(p: Pass, q: seq<Overpayment>, sid: int, t: Term): Pass
    decreases |q|
  {
    if q == [] || p.remaining <= 0.0 then p else Consume(Step(p, q[0], sid, t), q[1..], sid, t)
  }

  lemma ConsumeFrom(p: Pass, q: seq<Overpayment>, i: nat, sid: int, t: Term)
    requires i < |q| && p.remaining > 0.0
    ensures Consume(p, q[i..], sid, t) == Consume(Step(p, q[i], sid, t), q[i + 1..], sid, t)
  {
    assert q[i..][1..] == q[i + 1..];
  }

  lemma ConsumeStops(p: Pass, q: seq<Overpayment>, i: nat, sid: int, t: Term)
    requires i <= |q| && (i == |q| || p.remaining <= 0.0)
    ensures Consume(p, q[i..], sid, t) == p
  {
    if i == |q| {
      assert q[i..] == [];
    }
  }

  /** How many records of the queue the loop visits before it stops. */
  function Processed(p: Pass, q: seq<Overpayment>, sid: int, t: Term): (k: nat)
    ensures k <= |q|
    decreases |q|
  {
    if q == [] || p.remaining <= 0.0 then 0 else 1 + Processed(Step(p, q[0], sid, t), q[1..], sid, t)
  }

  /** The queue still to walk is a list of distinct, unapplied records of
      the student that are in the table as fetched. */
  predicate Ready(p: Pass, q: seq<Overpayment>, sid: int) {
    StoreValid(p.store.records, p.store.nextId) && UniqueIds(q)
    && forall o :: o in q ==> o in p.store.records && o.studentId == sid && !o.applied
  }

  /** A step moves `a` from remaining to applied; a split leaves nothing
      remaining and adds exactly one record. */
  lemma StepCounts(p: Pass, op: Overpayment, sid: int, t: Term)
    requires p.remaining > 0.0
    ensures var n := Step(p, op, sid, t);
      n.applied + n.remaining == p.applied + p.remaining
      && n.applied - p.applied == Min(op.amount, p.remaining)
      && (Min(op.amount, p.remaining) == op.amount ==> |n.store.records| == |p.store.records|)
      && (Min(op.amount, p.remaining) != op.amount ==> |n.store.records| == |p.store.records| + 1 && n.remaining == 0.0)
  {
  }

  /** Updates by id keep every record of another id. */
  lemma UpdatesKeepOthers(rs: seq<Overpayment>, id: int, t: Term, x: real)
    ensures forall r :: r in rs && r.id != id ==> r in MarkApplied(rs, id, t) && r in SetAmount(rs, id, x)
  {
    forall r | r in rs && r.id != id ensures r in MarkApplied(rs, id, t) && r in SetAmount(rs, id, x) {
      var i :| 0 <= i < |rs| && rs[i] == r;
      assert MarkApplied(rs, id, t)[i] == r && SetAmount(rs, id, x)[i] == r;
    }
  }

  lemma MarkAppliedValid(rs: seq<Overpayment>, nextId: int, id: int, t: Term)
    requires StoreValid(rs, nextId)
    ensures StoreValid(MarkApplied(rs, id, t), nextId)
  {
  }

  /** The records a step leaves in place: all of another id. */
  lemma StepKeeps(p: Pass, op: Overpayment, sid: int, t: Term)
    ensures forall r :: r in p.store.records && r.id != op.id ==> r in Step(p, op, sid, t).store.records
  {
    var a := Min(op.amount, p.remaining);
    UpdatesKeepOthers(p.store.records, op.id, t, op.amount - a);
  }

  /** A whole record is marked applied to the target term. */
  lemma StepFull(p: Pass, op: Overpayment, sid: int, t: Term)
    requires StoreValid(p.store.records, p.store.nextId) && op in p.store.records
    requires Min(op.amount, p.remaining) == op.amount
    ensures StoreValid(Step(p, op, sid, t).store.records, Step(p, op, sid, t).store.nextId)
    ensures AppliedTo(op, t) in Step(p, op, sid, t).store.records
  {
    var rs := p.store.records;
    MarkAppliedValid(rs, p.store.nextId, op.id, t);
    var k :| 0 <= k < |rs| && rs[k] == op;
    assert MarkApplied(rs, op.id, t)[k] == AppliedTo(op, t);
  }

  /** A split keeps the table valid. */
  lemma StepSplitValid(p: Pass, op: Overpayment, sid: int, t: Term)
    requires StoreValid(p.store.records, p.store.nextId)
    requires Min(op.amount, p.remaining) != op.amount
    ensures StoreValid(Step(p, op, sid, t).store.records, Step(p, op, sid, t).store.nextId)
  {
    var a := Min(op.amount, p.remaining);
    var mid := SetAmount(p.store.records, op.id, op.amount - a);
    SetAmountValid(p.store.records, p.store.nextId, op.id, op.amount - a);
    AppendValid(mid, p.store.nextId, Overpayment(p.store.nextId, sid, op.source, a, true, Some(t)));
  }

  /** A step leaves the rest of the queue ready. */
  lemma StepReady(p: Pass, q: seq<Overpayment>, sid: int, t: Term)
    requires Ready(p, q, sid) && q != []
    ensures Ready(Step(p, q[0], sid, t), q[1..], sid)
  {
    var n := Step(p, q[0], sid, t);
    if Min(q[0].amount, p.remaining) == q[0].amount {
      StepFull(p, q[0], sid, t);
    } else {
      StepSplitValid(p, q[0], sid, t);
    }
    StepKeeps(p, q[0], sid, t);
    forall o | o in q[1..] ensures o in n.store.records && o.studentId == sid && !o.applied {
      var j :| 0 <= j < |q| - 1 && q[1..][j] == o;
      assert q[j + 1] == o;
    }
  }

  /** A step moves no money between records as a whole. */
  lemma StepSum(p: Pass, op: Overpayment, sid: int, t: Term)
    requires UniqueIds(p.store.records) && op in p.store.records
    ensures SumAmount(Step(p, op, sid, t).store.records) == SumAmount(p.store.records)
  {
    var a := Min(op.amount, p.remaining);
    var rs := p.store.records;
    var total := SumAmount(rs);
    if a == op.amount {
      SumAmountMarkApplied(rs, op.id, t);
      assert Step(p, op, sid, t).store.records == MarkApplied(rs, op.id, t);
    } else {
      var mid := SetAmount(rs, op.id, op.amount - a);
      var o := Overpayment(p.store.nextId, sid, op.source, a, true, Some(t));
      SumAmountSetAmount(rs, op, op.amount - a);
      assert SumAmount(mid) == total - a;
      SumAmountAppend(mid, o);
      assert SumAmount(mid + [o]) == total;
      assert Step(p, op, sid, t).store.records == mid + [o];
    }
  }

  /** A step moves the applied part from the student's unapplied credit to
      the credit applied to the target term, and no other term's. */
  lemma StepCredits(p: Pass, op: Overpayment, sid: int, t: Term, u: Term)
    requires UniqueIds(p.store.records) && op in p.store.records && op.studentId == sid && !op.applied
    ensures var n := Step(p, op, sid, t);
      AppliedCredit(n.store.records, sid, u)
        == AppliedCredit(p.store.records, sid, u) + (if u == t then n.applied - p.applied else 0.0)
      && UnappliedCredit(n.store.records, sid) == UnappliedCredit(p.store.records, sid) - (n.applied - p.applied)
  {
    var a := Min(op.amount, p.remaining);
    var n := Step(p, op, sid, t);
    assert n.applied - p.applied == a;
    if a == op.amount {
      assert n.store.records == MarkApplied(p.store.records, op.id, t);
      CreditsMarkApplied(p.store.records, op, t, sid, u);
    } else {
      assert n.store.records
        == SetAmount(p.store.records, op.id, op.amount - a) + [Overpayment(p.store.nextId, sid, op.source, a, true, Some(t))];
      SplitCredits(p.store.records, p.store.nextId, op, a, sid, t, u);
    }
  }

  /** The split branch on its own: the record keeps `op.amount - a`
      unapplied and a new record holds `a` applied to `t`. */
  lemma SplitCredits(rs: seq<Overpayment>, id: int, op: Overpayment, a: real, sid: int, t: Term, u: Term)
    requires UniqueIds(rs) && op in rs && op.studentId == sid && !op.applied
    ensures var r := SetAmount(rs, op.id, op.amount - a) + [Overpayment(id, sid, op.source, a, true, Some(t))];
      AppliedCredit(r, sid, u) == AppliedCredit(rs, sid, u) + (if u == t then a else 0.0)
      && UnappliedCredit(r, sid) == UnappliedCredit(rs, sid) - a
  {
    var mid := SetAmount(rs, op.id, op.amount - a);
    AppliedCreditSetAmount(rs, op, op.amount - a, sid, u);
    UnappliedCreditSetAmount(rs, op, op.amount - a, sid);
    var o := Overpayment(id, sid, op.source, a, true, Some(t));
    var ap, un := AppliedCredit(rs, sid, u), UnappliedCredit(rs, sid);
    assert AppliedCredit(mid, sid, u) == ap;
    assert UnappliedCredit(mid, sid) == un - a;
    AppendAppliedRecord(mid, id, sid, op.source, a, t, u);
    assert AppliedCredit(mid + [o], sid, u) == ap + (if u == t then a else 0.0);
    assert UnappliedCredit(mid + [o], sid) == un - a;
  }

  /** A new applied record adds to its target term only. */
  lemma AppendAppliedRecord(rs: seq<Overpayment>, id: int, sid: int, source: Term, a: real, t: Term, u: Term)
    ensures AppliedCredit(rs + [Overpayment(id, sid, source, a, true, Some(t))], sid, u)
         == AppliedCredit(rs, sid, u) + (if u == t then a else 0.0)
    ensures UnappliedCredit(rs + [Overpayment(id, sid, source, a, true, Some(t))], sid) == UnappliedCredit(rs, sid)
  {
    CreditsAppend(rs, Overpayment(id, sid, source, a, true, Some(t)), sid, u);
  }

  /** applied_amount + remaining_balance is invariant. */
  lemma {:induction false} ConsumeBalance(p: Pass, q: seq<Overpayment>, sid: int, t: Term)
    ensures Consume(p, q, sid, t).applied + Consume(p, q, sid, t).remaining == p.applied + p.remaining
    decreases |q|
  {
    if q != [] && p.remaining > 0.0 {
      StepCounts(p, q[0], sid, t);
      ConsumeBalance(Step(p, q[0], sid, t), q[1..], sid, t);
    }
  }

  /** The walk keeps the table valid, keeps the total amount across
      records, and moves exactly the applied amount from the student's
      unapplied credit to the target term's applied credit. */
  lemma {:induction false} ConsumeConserves(p: Pass, q: seq<Overpayment>, sid: int, t: Term)
    requires Ready(p, q, sid)
    ensures var f := Consume(p, q, sid, t);
      StoreValid(f.store.records, f.store.nextId)
      && SumAmount(f.store.records) == SumAmount(p.store.records)
      && UnappliedCredit(f.store.records, sid) == UnappliedCredit(p.store.records, sid) - (f.applied - p.applied)
      && forall u :: AppliedCredit(f.store.records, sid, u)
                     == AppliedCredit(p.store.records, sid, u) + (if u == t then f.applied - p.applied else 0.0)
    decreases |q|
  {
    if q != [] && p.remaining > 0.0 {
      var n := Step(p, q[0], sid, t);
      StepReady(p, q, sid, t);
      StepSum(p, q[0], sid, t);
      StepCredits(p, q[0], sid, t, t);
      forall u ensures AppliedCredit(n.store.records, sid, u)
                       == AppliedCredit(p.store.records, sid, u) + (if u == t then n.applied - p.applied else 0.0) {
        StepCredits(p, q[0], sid, t, u);
      }
      ConsumeConserves(n, q[1..], sid, t);
    }
  }

  /** At most one record is split per call. */
  lemma {:induction false} ConsumeOneSplit(p: Pass, q: seq<Overpayment>, sid: int, t: Term)
    ensures |p.store.records| <= |Consume(p, q, sid, t).store.records| <= |p.store.records| + 1
    decreases |q|
  {
    if q != [] && p.remaining > 0.0 {
      var n := Step(p, q[0], sid, t);
      StepCounts(p, q[0], sid, t);
      if Min(q[0].amount, p.remaining) == q[0].amount {
        ConsumeOneSplit(n, q[1..], sid, t);
      } else {
        assert Consume(n, q[1..], sid, t) == n;
      }
    }
  }

  /** Records of ids outside the queue survive the walk unchanged. */
  lemma {:induction false} ConsumeKeeps(p: Pass, q: seq<Overpayment>, sid: int, t: Term, r: Overpayment)
    requires r in p.store.records && forall o :: o in q ==> o.id != r.id
    ensures r in Consume(p, q, sid, t).store.records
    decreases |q|
  {
    if q != [] && p.remaining > 0.0 {
      StepKeeps(p, q[0], sid, t);
      ConsumeKeeps(Step(p, q[0], sid, t), q[1..], sid, t, r);
    }
  }

  /** The records after the k visited ones are untouched. */
  lemma {:induction false} ConsumeUntouched(p: Pass, q: seq<Overpayment>, sid: int, t: Term)
    requires Ready(p, q, sid)
    ensures forall i :: Processed(p, q, sid, t) <= i < |q| ==> q[i] in Consume(p, q, sid, t).store.records
    decreases |q|
  {
    if q != [] && p.remaining > 0.0 {
      var n := Step(p, q[0], sid, t);
      StepReady(p, q, sid, t);
      ConsumeUntouched(n, q[1..], sid, t);
      forall i | 1 <= i < |q| ensures q[i] == q[1..][i - 1] { }
    } else {
      forall i | 0 <= i < |q| ensures q[i] in q { }
    }
  }

  /** A record applied whole to the target term stays so for the rest of
      the walk. */
  lemma FullStepSticks(p: Pass, q: seq<Overpayment>, sid: int, t: Term)
    requires Ready(p, q, sid) && q != [] && Min(q[0].amount, p.remaining) == q[0].amount
    ensures AppliedTo(q[0], t) in Consume(Step(p, q[0], sid, t), q[1..], sid, t).store.records
  {
    StepFull(p, q[0], sid, t);
    forall o | o in q[1..] ensures o.id != AppliedTo(q[0], t).id {
      var j :| 0 <= j < |q| - 1 && q[1..][j] == o;
      assert q[j + 1] == o;
    }
    ConsumeKeeps(Step(p, q[0], sid, t), q[1..], sid, t, AppliedTo(q[0], t));
  }

  /** Every visited record but possibly the last is applied whole. */
  lemma {:induction false} ConsumeAppliedWhole(p: Pass, q: seq<Overpayment>, sid: int, t: Term)
    requires Ready(p, q, sid)
    ensures forall i :: 0 <= i < Processed(p, q, sid, t) - 1 ==> AppliedTo(q[i], t) in Consume(p, q, sid, t).store.records
    decreases |q|
  {
    if q != [] && p.remaining > 0.0 {
      var n := Step(p, q[0], sid, t);
      StepReady(p, q, sid, t);
      StepCounts(p, q[0], sid, t);
      ConsumeAppliedWhole(n, q[1..], sid, t);
      if Min(q[0].amount, p.remaining) == q[0].amount {
        FullStepSticks(p, q, sid, t);
        forall i | 1 <= i < |q| ensures q[i] == q[1..][i - 1] { }
      }
    }
  }

  /** When a balance remains, every record of the queue was applied whole. */
  lemma {:induction false} ConsumeExhausts(p: Pass, q: seq<Overpayment>, sid: int, t: Term)
    requires Ready(p, q, sid)
    ensures Consume(p, q, sid, t).remaining > 0.0 ==>
              Processed(p, q, sid, t) == |q| && forall i :: 0 <= i < |q| ==> AppliedTo(q[i], t) in Consume(p, q, sid, t).store.records
    decreases |q|
  {
    if q != [] && p.remaining > 0.0 {
      var n := Step(p, q[0], sid, t);
      StepReady(p, q, sid, t);
      StepCounts(p, q[0], sid, t);
      ConsumeExhausts(n, q[1..], sid, t);
      if Min(q[0].amount, p.remaining) == q[0].amount {
        FullStepSticks(p, q, sid, t);
        forall i | 1 <= i < |q| ensures q[i] == q[1..][i - 1] { }
      } else {
        assert Consume(n, q[1..], sid, t) == n;
      }
    }
  }

  // ---------------------------------------------------------------
  // The three entry points over the table as a value
  // ---------------------------------------------------------------

  /** applyAvailableCredits: nothing when the target term's balance is not
      positive, otherwise the walk over the queue starting from that
      balance. */
  function ApplyAvailable(db: Db, s: Store, sid: int, t: Term): Pass {
    var bal := TermBalance(db, s.records, sid, t);
    if bal <= 0.0 then Pass(s, 0.0, bal)
    else Consume(Pass(s, 0.0, bal), Queue(s.records, sid), sid, t)
  }

  /** getTermBalance reads the table only through the credit applied to the
      term. */
  lemma TermBalanceShift(db: Db, rs: seq<Overpayment>, rs': seq<Overpayment>, sid: int, t: Term)
    ensures TermBalance(db, rs', sid, t) == TermBalance(db, rs, sid, t) - (AppliedCredit(rs', sid, t) - AppliedCredit(rs, sid, t))
  {
  }

  /** The reported figures add up to the starting balance, the target
      term's balance afterwards is exactly the reported remaining balance,
      no other term's balance moves, the student's unapplied credit drops
      by the amount applied, the total across records is unchanged, and at
      most one record is added. */
  lemma ApplyAvailableSettles(db: Db, s: Store, sid: int, t: Term)
    requires StoreValid(s.records, s.nextId)
    ensures var bal := TermBalance(db, s.records, sid, t);
      var f := ApplyAvailable(db, s, sid, t);
      f.applied + f.remaining == bal
      && TermBalance(db, f.store.records, sid, t) == f.remaining
      && (forall u :: u != t ==> TermBalance(db, f.store.records, sid, u) == TermBalance(db, s.records, sid, u))
      && UnappliedCredit(f.store.records, sid) == UnappliedCredit(s.records, sid) - f.applied
      && SumAmount(f.store.records) == SumAmount(s.records)
      && StoreValid(f.store.records, f.store.nextId)
      && |s.records| <= |f.store.records| <= |s.records| + 1
  {
    var bal := TermBalance(db, s.records, sid, t);
    var f := ApplyAvailable(db, s, sid, t);
    if bal > 0.0 {
      var p := Pass(s, 0.0, bal);
      var q := Queue(s.records, sid);
      ConsumeBalance(p, q, sid, t);
      ConsumeConserves(p, q, sid, t);
      ConsumeOneSplit(p, q, sid, t);
      TermBalanceShift(db, s.records, f.store.records, sid, t);
      forall u | u != t ensures TermBalance(db, f.store.records, sid, u) == TermBalance(db, s.records, sid, u) {
        TermBalanceShift(db, s.records, f.store.records, sid, u);
      }
    }
  }

  lemma ApplyAvailableValid(db: Db, s: Store, sid: int, t: Term)
    requires StoreValid(s.records, s.nextId)
    ensures StoreValid(ApplyAvailable(db, s, sid, t).store.records, ApplyAvailable(db, s, sid, t).store.nextId)
  {
    if TermBalance(db, s.records, sid, t) > 0.0 {
      var p := Pass(s, 0.0, TermBalance(db, s.records, sid, t));
      assert Ready(p, Queue(s.records, sid), sid);
      ConsumeConserves(p, Queue(s.records, sid), sid, t);
    }
  }

  /** With nothing due it changes nothing and reports 0 applied. */
  lemma ApplyAvailableNothingDue(db: Db, s: Store, sid: int, t: Term)
    requires TermBalance(db, s.records, sid, t) <= 0.0
    ensures ApplyAvailable(db, s, sid, t) == Pass(s, 0.0, TermBalance(db, s.records, sid, t))
  {
  }

  /** The walk is first in, first out: the queue is ordered oldest source
      term first, every visited record but the last is applied whole to
      the target term, the records after the visited ones are untouched,
      and when a balance remains every record was applied whole. */
  lemma ApplyAvailableFifo(db: Db, s: Store, sid: int, t: Term)
    requires StoreValid(s.records, s.nextId)
    requires TermBalance(db, s.records, sid, t) > 0.0
    ensures var q := Queue(s.records, sid);
      var p := Pass(s, 0.0, TermBalance(db, s.records, sid, t));
      var f := ApplyAvailable(db, s, sid, t);
      var k := Processed(p, q, sid, t);
      SourceOrdered(q)
      && (forall i :: 0 <= i < k - 1 ==> AppliedTo(q[i], t) in f.store.records)
      && (forall i :: k <= i < |q| ==> q[i] in f.store.records)
      && (f.remaining > 0.0 ==> forall i :: 0 <= i < |q| ==> AppliedTo(q[i], t) in f.store.records)
  {
    var q := Queue(s.records, sid);
    var p := Pass(s, 0.0, TermBalance(db, s.records, sid, t));
    assert Ready(p, q, sid);
    ConsumeUntouched(p, q, sid, t);
    ConsumeAppliedWhole(p, q, sid, t);
    ConsumeExhausts(p, q, sid, t);
  }

  /** processTermOverpayment: a negative term balance is recorded as an
      overpayment of its absolute value. */
  function ProcessTerm(db: Db, s: Store, sid: int, t: Term): (Store, bool, real) {
    var bal := TermBalance(db, s.records, sid, t);
    if bal < 0.0 then (Recorded(s, sid, t, Abs(bal)), true, Abs(bal)) else (s, false, 0.0)
  }

  /** Recording an overpayment changes no term's applied credit. */
  lemma RecordedKeepsApplied(s: Store, sid: int, t: Term, amount: real, u: Term)
    requires StoreValid(s.records, s.nextId)
    ensures AppliedCredit(Recorded(s, sid, t, amount).records, sid, u) == AppliedCredit(s.records, sid, u)
  {
    match FirstUnapplied(s.records, sid, t)
    case Some(o) => AppliedCreditSetAmount(s.records, o, amount, sid, u);
    case None => CreditsAppend(s.records, Overpayment(s.nextId, sid, t, amount, false, None), sid, u);
  }

  /** An overpayment is reported iff the term balance is negative; its
      amount is the overpaid sum, now held by the source term's unapplied
      record; otherwise nothing changes. */
  lemma ProcessTermRecords(db: Db, s: Store, sid: int, t: Term)
    requires StoreValid(s.records, s.nextId)
    ensures var bal := TermBalance(db, s.records, sid, t);
      var r := ProcessTerm(db, s, sid, t);
      StoreValid(r.0.records, r.0.nextId)
      && (r.1 <==> bal < 0.0)
      && (r.1 ==> r.2 == -bal && r.2 > 0.0
                  && FirstUnapplied(r.0.records, sid, t).Some? && FirstUnapplied(r.0.records, sid, t).value.amount == r.2)
      && (!r.1 ==> r.0 == s && r.2 == 0.0)
  {
    var bal := TermBalance(db, s.records, sid, t);
    if bal < 0.0 {
      match FirstUnapplied(s.records, sid, t)
      case Some(o) => RecordedOverwrites(s, sid, t, Abs(bal), o);
      case None => RecordedInserts(s, sid, t, Abs(bal));
    }
  }

  /** processTermOverpayment never changes any term's balance. */
  lemma ProcessTermKeepsBalances(db: Db, s: Store, sid: int, t: Term, u: Term)
    requires StoreValid(s.records, s.nextId)
    ensures TermBalance(db, ProcessTerm(db, s, sid, t).0.records, sid, u) == TermBalance(db, s.records, sid, u)
  {
    var bal := TermBalance(db, s.records, sid, t);
    if bal < 0.0 {
      RecordedKeepsApplied(s, sid, t, Abs(bal), u);
      TermBalanceShift(db, s.records, Recorded(s, sid, t, Abs(bal)).records, sid, u);
    }
  }

  /** Processing the same term twice records nothing new. */
  lemma ProcessTermIdempotent(db: Db, s: Store, sid: int, t: Term)
    requires StoreValid(s.records, s.nextId)
    ensures ProcessTerm(db, ProcessTerm(db, s, sid, t).0, sid, t) == ProcessTerm(db, s, sid, t)
  {
    var r := ProcessTerm(db, s, sid, t);
    ProcessTermRecords(db, s, sid, t);
    ProcessTermKeepsBalances(db, s, sid, t, t);
    if r.1 {
      var o := FirstUnapplied(r.0.records, sid, t).value;
      SetAmountSame(r.0.records, o);
    }
  }

  /** applyOverpaymentCredit does not refuse a record that is already
      applied: applying it again to another term takes its whole amount
      off the term it was applied to ... */
  lemma {:induction false} ReapplicationDrains(rs: seq<Overpayment>, o: Overpayment, sid: int, t: Term, t': Term)
    requires UniqueIds(rs) && o in rs && o.studentId == sid
    requires o.applied && o.appliedTo == Some(t) && t != t'
    ensures AppliedCredit(MarkApplied(rs, o.id, t'), sid, t) == AppliedCredit(rs, sid, t) - o.amount
    decreases |rs|
  {
    var n := |rs| - 1;
    var k :| 0 <= k < |rs| && rs[k] == o;
    if k == n {
      MarkAppliedAbsent(rs[..n], o.id, t');
    } else {
      assert rs[..n][k] == o;
      ReapplicationDrains(rs[..n], o, sid, t, t');
    }
  }

  /** ... and puts it on the new term. */
  lemma {:induction false} ReapplicationCredits(rs: seq<Overpayment>, o: Overpayment, sid: int, t: Term, t': Term)
    requires UniqueIds(rs) && o in rs && o.studentId == sid
    requires o.applied && o.appliedTo == Some(t) && t != t'
    ensures AppliedCredit(MarkApplied(rs, o.id, t'), sid, t') == AppliedCredit(rs, sid, t') + o.amount
    decreases |rs|
  {
    var n := |rs| - 1;
    var k :| 0 <= k < |rs| && rs[k] == o;
    if k == n {
      MarkAppliedAbsent(rs[..n], o.id, t');
    } else {
      assert rs[..n][k] == o;
      ReapplicationCredits(rs[..n], o, sid, t, t');
    }
  }

  // ---------------------------------------------------------------
  // The table as a mutable object
  // ---------------------------------------------------------------

  /** The term_overpayments table with its auto-increment counter. */
  class OverpaymentStore {
    var records: seq<Overpayment>
    var nextId: int

    ghost predicate Valid()
      reads this
    {
      StoreValid(records, nextId)
    }

    function Snapshot(): Store
      reads this
    {
      Store(records, nextId)
    }

    /** An empty table. */
    constructor ()
      ensures Valid() && records == [] && nextId == 1
    {
      records := [];
      nextId := 1;
    }

    /** recordOverpayment. */
    method RecordOverpayment(sid: int, t: Term, amount: real)
      requires Valid()
      modifies this
      ensures Valid()
      ensures Snapshot() == Recorded(old(Snapshot()), sid, t, amount)
    {
      var existing := FirstUnapplied(records, sid, t);
      if existing.Some? {
        SetAmountValid(records, nextId, existing.value.id, amount);
        records := SetAmount(records, existing.value.id, amount);
      } else {
        AppendValid(records, nextId, Overpayment(nextId, sid, t, amount, false, None));
        records := records + [Overpayment(nextId, sid, t, amount, false, None)];
        nextId := nextId + 1;
      }
    }

    /** applyOverpaymentCredit: no check that the record is unapplied. */
    method ApplyOverpaymentCredit(id: int, t: Term)
      modifies this
      ensures records == MarkApplied(old(records), id, t) && nextId == old(nextId)
    {
      records := MarkApplied(records, id, t);
    }

    /** processTermOverpayment. */
    method ProcessTermOverpayment(db: Db, sid: int, t: Term) returns (hasOverpayment: bool, amount: real)
      requires Valid()
      modifies this
      ensures Valid()
      ensures (Snapshot(), hasOverpayment, amount) == ProcessTerm(db, old(Snapshot()), sid, t)
    {
      var balance := TermBalance(db, records, sid, t);
      if balance < 0.0 {
        amount := Abs(balance);
        RecordOverpayment(sid, t, amount);
        hasOverpayment := true;
      } else {
        hasOverpayment, amount := false, 0.0;
      }
    }

    /** applyAvailableCredits. */
    method ApplyAvailableCredits(db: Db, sid: int, t: Term) returns (applied: real, remaining: real)
      requires Valid()
      modifies this
      ensures Valid()
      ensures Pass(Snapshot(), applied, remaining) == ApplyAvailable(db, old(Snapshot()), sid, t)
    {
      var balance := TermBalance(db, records, sid, t);
      if balance <= 0.0 {
        return 0.0, balance;
      }
      var queue := Queue(records, sid);
      ApplyAvailableValid(db, Snapshot(), sid, t);
      applied, remaining := ConsumeQueue(queue, sid, t, balance);
    }

    /** The foreach over the fetched records, with its break. */
    method ConsumeQueue(queue: seq<Overpayment>, sid: int, t: Term, balance: real) returns (applied: real, remaining: real)
      modifies this
      ensures Pass(Snapshot(), applied, remaining) == Consume(Pass(old(Snapshot()), 0.0, balance), queue, sid, t)
    {
      ghost var start := Pass(Snapshot(), 0.0, balance);
      applied, remaining := 0.0, balance;
      var i := 0;
      while i < |queue|
        invariant 0 <= i <= |queue|
        invariant Consume(Pass(Store(records, nextId), applied, remaining), queue[i..], sid, t) == Consume(start, queue, sid, t)
      {
        if remaining <= 0.0 {
          break;
        }
        ghost var p := Pass(Store(records, nextId), applied, remaining);
        ConsumeFrom(p, queue, i, sid, t);
        var a := ApplyOne(queue[i], sid, t, applied, remaining);
        applied := applied + a;
        remaining := remaining - a;
        assert Pass(Store(records, nextId), applied, remaining) == Step(p, queue[i], sid, t);
        i := i + 1;
      }
      ConsumeStops(Pass(Store(records, nextId), applied, remaining), queue, i, sid, t);
    }

    /** One iteration: a whole record is marked applied; otherwise its
        amount is reduced and the applied part inserted as a new applied
        record. */
    method ApplyOne(op: Overpayment, sid: int, t: Term, applied: real, remaining: real) returns (a: real)
      modifies this
      ensures Pass(Snapshot(), applied + a, remaining - a) == Step(Pass(old(Snapshot()), applied, remaining), op, sid, t)
    {
      a := Min(op.amount, remaining);
      if a == op.amount {
        ApplyOverpaymentCredit(op.id, t);
      } else {
        records := SetAmount(records, op.id, op.amount - a);
        records := records + [Overpayment(nextId, sid, op.source, a, true, Some(t))];
        nextId := nextId + 1;
      }
    }
  }
}
