/** Scholarship discounts for a term (config/finance_helpers.php,
    getStudentScholarships and calculateScholarshipDiscount). */
module Scholarship {
  import opened Common
  import opened Money

  /** The `applies_to` column; any value other than the three known ones
      discounts nothing. */
  datatype AppliesTo = OnTuition | OnMisc | OnAll | OnOther

  /** The `discount_type` column: 'percentage', or anything else, which
      the code treats as a fixed amount. */
  datatype DiscountKind = Percentage | FixedAmount

  /** A student_scholarships row joined with its scholarship. */
  datatype AwardRow = AwardRow(
    studentId: int, term: Term, status: string,
    kind: DiscountKind, value: real, appliesTo: AppliesTo)

  /** One entry of the per-award breakdown. */
  datatype DiscountLine = DiscountLine(kind: DiscountKind, value: real, appliesTo: AppliesTo, amount: real)

  /** getStudentScholarships for one term: the student's Active awards of
      that term, in table order (the ORDER BY keys are constant within a
      term). */
  function ActiveAwards(rows: seq<AwardRow>, sid: int, t: Term): (r: seq<AwardRow>)
    ensures forall a :: a in r <==> a in rows && a.studentId == sid && a.term == t && a.status == "Active"
    ensures |r| <= |rows|
    decreases |rows|
  {
    if rows == [] then []
    else
      var init := ActiveAwards(rows[..|rows| - 1], sid, t);
      var a := rows[|rows| - 1];
      assert rows == rows[..|rows| - 1] + [a];
      if a.studentId == sid && a.term == t && a.status == "Active" then init + [a] else init
  }

  /** The amount an award discounts, chosen by `applies_to`. */
  function Base(a: AwardRow, tuition: real, misc: real): real {
    match a.appliesTo
    case OnTuition => tuition
    case OnMisc => misc
    case OnAll => tuition + misc
    case OnOther => 0.0
  }

  /** One award's discount: a percentage of its base, or a fixed amount
      capped at its base. */
  function AwardDiscount(a: AwardRow, tuition: real, misc: real): (d: real)
    ensures a.kind == FixedAmount ==>
      d <= a.value && d <= Base(a, tuition, misc) && (d == a.value || d == Base(a, tuition, misc))
    ensures a.kind == FixedAmount && 0.0 <= a.value && Base(a, tuition, misc) >= 0.0 ==>
      0.0 <= d <= Base(a, tuition, misc)
    ensures a.appliesTo == OnOther && (a.kind == Percentage || a.value >= 0.0) ==> d == 0.0
  {
    var base := Base(a, tuition, misc);
    if a.kind == Percentage then base * (a.value / 100.0) else Min(a.value, base)
  }

  /** A well-formed award never discounts more than its base nor a negative
      amount. */
  lemma AwardDiscountWithinBase(a: AwardRow, tuition: real, misc: real)
    requires WellFormedAward(a) && Base(a, tuition, misc) >= 0.0
    ensures 0.0 <= AwardDiscount(a, tuition, misc) <= Base(a, tuition, misc)
  {
    if a.kind == Percentage {
      PercentOfBase(Base(a, tuition, misc), a.value, AwardDiscount(a, tuition, misc));
    }
  }

  /** A percentage between 0 and 100 of a non-negative base lies between 0
      and the base. */
  lemma PercentOfBase(base: real, pct: real, d: real)
    requires 0.0 <= pct <= 100.0 && base >= 0.0 && d == base * (pct / 100.0)
    ensures 0.0 <= d <= base
  {
    var f := pct / 100.0;
    assert 0.0 <= f <= 1.0;
    MulNonNegative(base, f);
    MulNonNegative(base, 1.0 - f);
    assert base * f + base * (1.0 - f) == base;
  }

  lemma MulNonNegative(x: real, y: real)
    requires x >= 0.0 && y >= 0.0
    ensures x * y >= 0.0
  {
  }

  /** total_discount: the sum of the per-award discounts. */
  function TotalDiscount(awards: seq<AwardRow>, tuition: real, misc: real): real
    decreases |awards|
  {
    if awards == [] then 0.0
    else TotalDiscount(awards[..|awards| - 1], tuition, misc) + AwardDiscount(awards[|awards| - 1], tuition, misc)
  }

  /** The total is additive over the award list. */
  lemma {:induction false} TotalDiscountAppend(a: seq<AwardRow>, b: seq<AwardRow>, tuition: real, misc: real)
    ensures TotalDiscount(a + b, tuition, misc) == TotalDiscount(a, tuition, misc) + TotalDiscount(b, tuition, misc)
    decreases |b|
  {
    if b == [] {
      assert a + b == a;
    } else {
      assert (a + b)[..|a + b| - 1] == a + b[..|b| - 1];
      TotalDiscountAppend(a, b[..|b| - 1], tuition, misc);
    }
  }

  predicate WellFormedAward(a: AwardRow) {
    0.0 <= a.value && (a.kind == Percentage ==> a.value <= 100.0)
  }

  /** With sensible awards and non-negative charges the total discount is
      never negative (each award stays within its own base, but nothing caps
      the total at the charge). */
  lemma {:induction false} TotalDiscountNonNegative(awards: seq<AwardRow>, tuition: real, misc: real)
    requires forall a :: a in awards ==> WellFormedAward(a)
    requires tuition >= 0.0 && misc >= 0.0
    ensures 0.0 <= TotalDiscount(awards, tuition, misc)
    decreases |awards|
  {
    if awards != [] {
      var a := awards[|awards| - 1];
      assert a in awards;
      assert forall x :: x in awards[..|awards| - 1] ==> x in awards;
      TotalDiscountNonNegative(awards[..|awards| - 1], tuition, misc);
      AwardDiscountWithinBase(a, tuition, misc);
    }
  }

  /** Two 60% awards on everything discount more than the whole charge:
      the discount total is not capped by the assessment. */
  lemma DiscountCanExceedCharges()
    ensures var awards := [AwardRow(1, Term("2025-2026", 1), "Active", Percentage, 60.0, OnAll),
                           AwardRow(1, Term("2025-2026", 1), "Active", Percentage, 60.0, OnAll)];
            TotalDiscount(awards, 10000.0, 0.0) == 12000.0
  {
    var awards := [AwardRow(1, Term("2025-2026", 1), "Active", Percentage, 60.0, OnAll),
                   AwardRow(1, Term("2025-2026", 1), "Active", Percentage, 60.0, OnAll)];
    assert awards[..1][..0] == [];
    assert TotalDiscount(awards[..1], 10000.0, 0.0) == 6000.0;
  }

  /** The breakdown: one line per award, in award order. */
  function DiscountLines(awards: seq<AwardRow>, tuition: real, misc: real): (r: seq<DiscountLine>)
    ensures |r| == |awards|
  {
    seq(|awards|, i requires 0 <= i < |awards| =>
      DiscountLine(awards[i].kind, awards[i].value, awards[i].appliesTo, AwardDiscount(awards[i], tuition, misc)))
  }

  /** The switch-and-branch computation of the loop body is the award's
      discount. */
  lemma SwitchComputesDiscount(s: AwardRow, tuition: real, misc: real, base: real, discount: real)
    requires base == Base(s, tuition, misc)
    requires discount == (if s.kind == Percentage then base * (s.value / 100.0) else Min(s.value, base))
    ensures discount == AwardDiscount(s, tuition, misc)
  {
  }

  /** The discount loop: the total and one breakdown line per award. */
  method CalculateScholarshipDiscount(awards: seq<AwardRow>, tuition: real, misc: real)
    returns (total: real, lines: seq<DiscountLine>)
    ensures total == TotalDiscount(awards, tuition, misc)
    ensures lines == DiscountLines(awards, tuition, misc)
  {
    total := 0.0;
    lines := [];
    var i := 0;
    while i < |awards|
      invariant 0 <= i <= |awards|
      invariant total == TotalDiscount(awards[..i], tuition, misc)
      invariant |lines| == i
      invariant forall k :: 0 <= k < i ==>
        lines[k] == DiscountLine(awards[k].kind, awards[k].value, awards[k].appliesTo, AwardDiscount(awards[k], tuition, misc))
    {
      var s := awards[i];
      var base := 0.0;
      match s.appliesTo {
        case OnTuition => base := tuition;
        case OnMisc => base := misc;
        case OnAll => base := tuition + misc;
        case OnOther =>
      }
      var discount: real;
      if s.kind == Percentage {
        discount := base * (s.value / 100.0);
      } else {
        discount := Min(s.value, base);
      }
      SwitchComputesDiscount(s, tuition, misc, base, discount);
      lines := lines + [DiscountLine(s.kind, s.value, s.appliesTo, discount)];
      assert awards[..i + 1][..i] == awards[..i];
      total := total + discount;
      i := i + 1;
    }
    assert awards[..i] == awards;
    assert forall k :: 0 <= k < |awards| ==> lines[k] == DiscountLines(awards, tuition, misc)[k];
  }
}
