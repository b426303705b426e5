/** Fee-rate resolution (config/finance_helpers.php, getProgramTuitionRate)
    and the fixed-fee total every assessment adds to tuition. */
module Fees {
  import opened Common

  /** A program_tuition_rates row; `effectiveDate` is a day number. */
  datatype ProgramRate = ProgramRate(
    programId: int, tuitionPerUnit: real, labFee: real, isActive: bool, effectiveDate: int)

  /** A fees catalogue row; `kind` is the `type` column ('fixed', 'per_unit'). */
  datatype Fee = Fee(code: string, kind: string, amount: real)

  datatype Rates = Rates(tuitionPerUnit: real, labFee: real)

  const DefaultTuitionPerUnit: real := 800.0
  const DefaultLabFee: real := 2000.0

  predicate RateApplies(r: ProgramRate, pid: int) {
    r.programId == pid && r.isActive
  }

  /** WHERE program_id = ? AND is_active = 1 ORDER BY effective_date DESC
      LIMIT 1: an active rate of the program with the latest effective date
      (the earliest such row in table order on a tie). */
  function LatestRate(rates: seq<ProgramRate>, pid: int): (r: Option<ProgramRate>)
    ensures r.Some? ==> r.value in rates && RateApplies(r.value, pid)
    ensures r.Some? ==> forall x :: x in rates && RateApplies(x, pid) ==> x.effectiveDate <= r.value.effectiveDate
    ensures r.None? <==> forall x :: x in rates ==> !RateApplies(x, pid)
    decreases |rates|
  {
    if rates == [] then None
    else
      var init := rates[..|rates| - 1];
      var last := rates[|rates| - 1];
      assert rates == init + [last];
      var best := LatestRate(init, pid);
      if RateApplies(last, pid) && (best.None? || best.value.effectiveDate < last.effectiveDate)
      then Some(last) else best
  }

  /** The first catalogue row with this code (and this type, when given):
      the `LIMIT 1` lookups of the fallback. */
  function FirstFee(fees: seq<Fee>, code: string, kind: Option<string>): (r: Option<Fee>)
    ensures r.Some? ==>
      exists i :: (0 <= i < |fees| && fees[i] == r.value
        && fees[i].code == code && (kind.None? || fees[i].kind == kind.value)
        && forall j :: 0 <= j < i ==> !(fees[j].code == code && (kind.None? || fees[j].kind == kind.value)))
    ensures r.None? <==> forall i :: 0 <= i < |fees| ==> !(fees[i].code == code && (kind.None? || fees[i].kind == kind.value))
    decreases |fees|
  {
    if fees == [] then None
    else if fees[0].code == code && (kind.None? || fees[0].kind == kind.value) then Some(fees[0])
    else
      var r := FirstFee(fees[1..], code, kind);
      assert forall i :: 1 <= i < |fees| ==> fees[1..][i - 1] == fees[i];
      r
  }

  /** getProgramTuitionRate. The active program rate with the latest
      effective date wins; without one, tuition and lab fall back to the
      catalogue independently, each with its own default. A student without
      a program matches no rate row (the query compares program_id with
      NULL). Resolution never fails. */
  function ProgramTuitionRate(rates: seq<ProgramRate>, fees: seq<Fee>, pid: Option<int>): Rates
  {
    var latest := if pid.Some? then LatestRate(rates, pid.value) else None;
    if latest.Some? then Rates(latest.value.tuitionPerUnit, latest.value.labFee)
    else
      var base := FirstFee(fees, "TUITION", Some("per_unit"));
      var lab := FirstFee(fees, "LAB", None);
      Rates(if base.Some? then base.value.amount else DefaultTuitionPerUnit,
            if lab.Some? then lab.value.amount else DefaultLabFee)
  }

  /** The resolution rule: the latest active rate of the program wins;
      otherwise tuition and lab each come from the catalogue or their
      default. */
  lemma ProgramTuitionRateResolves(rates: seq<ProgramRate>, fees: seq<Fee>, pid: Option<int>)
    ensures (pid.Some? && exists x :: x in rates && RateApplies(x, pid.value)) ==>
      exists w :: (w in rates && RateApplies(w, pid.value)
        && ProgramTuitionRate(rates, fees, pid) == Rates(w.tuitionPerUnit, w.labFee)
        && forall x :: x in rates && RateApplies(x, pid.value) ==> x.effectiveDate <= w.effectiveDate)
    ensures (pid.None? || forall x :: x in rates ==> !RateApplies(x, pid.value)) ==>
      ProgramTuitionRate(rates, fees, pid).tuitionPerUnit
        == (if exists i :: 0 <= i < |fees| && fees[i].code == "TUITION" && fees[i].kind == "per_unit"
            then FirstFee(fees, "TUITION", Some("per_unit")).value.amount else DefaultTuitionPerUnit)
      && ProgramTuitionRate(rates, fees, pid).labFee
        == (if exists i :: 0 <= i < |fees| && fees[i].code == "LAB"
            then FirstFee(fees, "LAB", None).value.amount else DefaultLabFee)
  {
  }

  /** Sum of the catalogue's fixed fees other than LAB
      (type = 'fixed' AND code != 'LAB'). */
  function FixedNonLab(fees: seq<Fee>): real
    decreases |fees|
  {
    if fees == [] then 0.0
    else
      var f := fees[|fees| - 1];
      FixedNonLab(fees[..|fees| - 1]) + (if f.kind == "fixed" && f.code != "LAB" then f.amount else 0.0)
  }

  /** The fixed-fee total is additive over the catalogue, so a row's
      contribution does not depend on where it stands. */
  lemma {:induction false} FixedNonLabAppend(a: seq<Fee>, b: seq<Fee>)
    ensures FixedNonLab(a + b) == FixedNonLab(a) + FixedNonLab(b)
    decreases |b|
  {
    if b == [] {
      assert a + b == a;
    } else {
      assert (a + b)[..|a + b| - 1] == a + b[..|b| - 1];
      FixedNonLabAppend(a, b[..|b| - 1]);
    }
  }

  /** Catalogue LAB rows never count as fixed fees: the program lab fee
      replaces them. */
  lemma LabRowIgnored(a: seq<Fee>, b: seq<Fee>, kind: string, amount: real)
    ensures FixedNonLab(a + [Fee("LAB", kind, amount)] + b) == FixedNonLab(a + b)
  {
    FixedNonLabAppend(a + [Fee("LAB", kind, amount)], b);
    FixedNonLabAppend(a, [Fee("LAB", kind, amount)]);
    FixedNonLabAppend(a, b);
    assert [Fee("LAB", kind, amount)][..0] == [];
  }

  /** The loop that totals the fixed fees and adds the program lab fee
      (the same loop opens every assessment function). */
  method TotalFixedFee(fees: seq<Fee>, labFee: real) returns (total: real)
    ensures total == FixedNonLab(fees) + labFee
  {
    total := 0.0;
    var i := 0;
    while i < |fees|
      invariant 0 <= i <= |fees|
      invariant total == FixedNonLab(fees[..i])
    {
      assert fees[..i + 1][..i] == fees[..i];
      if fees[i].kind == "fixed" && fees[i].code != "LAB" {
        total := total + fees[i].amount;
      }
      i := i + 1;
    }
    assert fees[..i] == fees;
    total := total + labFee;
  }
}
