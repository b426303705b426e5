/** Late-fee accrual (config/finance_helpers.php, getLateFeeConfig and
    calculateLateFee). Instants are seconds since the epoch in the server's
    time zone, taken as free of daylight-saving shifts; the clock reading is
    a parameter. */
module LateFee {
  import opened Common
  import opened Money

  const SecondsPerDay: int := 86400

  /** A late_fee_config row. `feeType` is 'percentage' or anything else
      (a fixed amount); `applyPer` is 'month', 'week' or anything else
      (charged once). */
  datatype Config = Config(
    feeType: string, feeValue: real, graceDays: int,
    maxPenaltyPercent: real, applyPer: string)

  /** The configuration used when no active row exists. */
  const DefaultConfig: Config := Config("percentage", 5.0, 30, 25.0, "month")

  /** getLateFeeConfig: the first active row, or the defaults. */
  function LateFeeConfig(activeRows: seq<Config>): (c: Config)
    ensures activeRows == [] ==> c == DefaultConfig
    ensures activeRows != [] ==> c == activeRows[0]
  {
    if activeRows == [] then DefaultConfig else activeRows[0]
  }

  /** Why the fee is what it is (the `message` of the result). */
  datatype Reason = NoBalanceDue | NoEnrollment | NotYetOverdue | Overdue

  datatype Penalty = Penalty(fee: real, daysOverdue: int, periodsOverdue: int, maxFee: real, reason: Reason)

  /** The due date: the first enrollment instant plus the grace period,
      truncated to its calendar day (format('Y-m-d')); an explicit due date
      (a day number) overrides it. */
  function DueDay(c: Config, dueDate: Option<int>, firstEnrolled: Option<int>): Option<int> {
    if dueDate.Some? then dueDate
    else if firstEnrolled.Some? then Some(firstEnrolled.value / SecondsPerDay + c.graceDays)
    else None
  }

  /** Periods overdue: ceil(days / 30) per month, ceil(days / 7) per week,
      otherwise one. */
  function Periods(c: Config, days: int): (p: int)
    requires days >= 0
    ensures p >= 0
    ensures c.applyPer == "month" ==> (p - 1) * 30 < days <= p * 30
    ensures c.applyPer == "week" ==> (p - 1) * 7 < days <= p * 7
    ensures c.applyPer != "month" && c.applyPer != "week" ==> p == 1
  {
    if c.applyPer == "month" then CeilDiv(days, 30)
    else if c.applyPer == "week" then CeilDiv(days, 7)
    else 1
  }

  /** The uncapped fee: a percentage of the balance, or the fixed value, per
      period. */
  function RawFee(c: Config, balance: real, periods: int): real {
    if c.feeType == "percentage" then balance * (c.feeValue / 100.0) * periods as real
    else c.feeValue * periods as real
  }

  function MaxFee(c: Config, balance: real): real {
    balance * (c.maxPenaltyPercent / 100.0)
  }

  /** calculateLateFee for a term whose getTermBalance is `balance`, at
      instant `now`. */
  function CalculateLateFee(c: Config, balance: real, dueDate: Option<int>, firstEnrolled: Option<int>, now: int): (r: Penalty)
    ensures r.reason == Overdue <==>
      balance > 0.0 && DueDay(c, dueDate, firstEnrolled).Some?
      && now > DueDay(c, dueDate, firstEnrolled).value * SecondsPerDay
    ensures r.reason == NoBalanceDue <==> balance <= 0.0
    ensures r.reason == NoEnrollment <==> balance > 0.0 && DueDay(c, dueDate, firstEnrolled).None?
    ensures r.reason != Overdue ==> r.fee == 0.0 && r.daysOverdue == 0 && r.periodsOverdue == 0 && r.maxFee == 0.0
    ensures r.reason == Overdue ==>
      r.daysOverdue >= 0
      && r.daysOverdue * SecondsPerDay <= now - DueDay(c, dueDate, firstEnrolled).value * SecondsPerDay
         < (r.daysOverdue + 1) * SecondsPerDay
      && r.periodsOverdue == Periods(c, r.daysOverdue)
      && r.maxFee == Round2(balance * (c.maxPenaltyPercent / 100.0))
  {
    if balance <= 0.0 then Penalty(0.0, 0, 0, 0.0, NoBalanceDue)
    else
      var due := DueDay(c, dueDate, firstEnrolled);
      if due.None? then Penalty(0.0, 0, 0, 0.0, NoEnrollment)
      else if now <= due.value * SecondsPerDay then Penalty(0.0, 0, 0, 0.0, NotYetOverdue)
      else
        Accrue(c, balance, (now - due.value * SecondsPerDay) / SecondsPerDay)
  }

  /** The overdue branch of calculateLateFee, `days` whole days late. */
  function Accrue(c: Config, balance: real, days: int): (r: Penalty)
    requires days >= 0
    ensures r.reason == Overdue && r.daysOverdue == days && r.periodsOverdue == Periods(c, days)
    ensures r.maxFee == Round2(balance * (c.maxPenaltyPercent / 100.0))
  {
    var periods := Periods(c, days);
    Penalty(Round2(Min(RawFee(c, balance, periods), MaxFee(c, balance))), days, periods, Round2(MaxFee(c, balance)), Overdue)
  }

  /** The fee never exceeds the rounded cap of max_penalty_percent of the
      balance. */
  lemma LateFeeCapped(c: Config, balance: real, dueDate: Option<int>, firstEnrolled: Option<int>, now: int)
    requires CalculateLateFee(c, balance, dueDate, firstEnrolled, now).reason == Overdue
    ensures CalculateLateFee(c, balance, dueDate, firstEnrolled, now).fee <= Round2(MaxFee(c, balance))
  {
    var r := CalculateLateFee(c, balance, dueDate, firstEnrolled, now);
    Round2Monotone(Min(RawFee(c, balance, r.periodsOverdue), MaxFee(c, balance)), MaxFee(c, balance));
  }

  /** The overdue fee, `days` whole days late: the per-period charge (the
      configured percentage of the balance, or the fixed value) times the
      periods overdue, limited to max_penalty_percent of the balance (the
      cap `maxFee` reports), rounded to centavos. */
  lemma AccrueValue(c: Config, balance: real, days: int, r: Penalty)
    requires days >= 0 && r == Accrue(c, balance, days)
    ensures c.feeType == "percentage" ==>
      r.fee == Round2(Min(balance * (c.feeValue / 100.0) * r.periodsOverdue as real, balance * (c.maxPenaltyPercent / 100.0)))
    ensures c.feeType != "percentage" ==>
      r.fee == Round2(Min(c.feeValue * r.periodsOverdue as real, balance * (c.maxPenaltyPercent / 100.0)))
  {
    FeeFigures(c, balance, r.periodsOverdue, r.fee);
  }

  /** An overdue term's penalty is the accrual for its whole days late. */
  lemma LateFeeIsAccrual(c: Config, balance: real, dueDate: Option<int>, firstEnrolled: Option<int>, now: int)
    requires CalculateLateFee(c, balance, dueDate, firstEnrolled, now).reason == Overdue
    ensures var r := CalculateLateFee(c, balance, dueDate, firstEnrolled, now);
      r == Accrue(c, balance, r.daysOverdue)
  {
  }

  /** The overdue fee of calculateLateFee in the configuration's own fields. */
  lemma LateFeeValue(c: Config, balance: real, dueDate: Option<int>, firstEnrolled: Option<int>, now: int, r: Penalty)
    requires r == CalculateLateFee(c, balance, dueDate, firstEnrolled, now) && r.reason == Overdue
    ensures c.feeType == "percentage" ==>
      r.fee == Round2(Min(balance * (c.feeValue / 100.0) * r.periodsOverdue as real, balance * (c.maxPenaltyPercent / 100.0)))
    ensures c.feeType != "percentage" ==>
      r.fee == Round2(Min(c.feeValue * r.periodsOverdue as real, balance * (c.maxPenaltyPercent / 100.0)))
  {
    LateFeeIsAccrual(c, balance, dueDate, firstEnrolled, now);
    AccrueValue(c, balance, r.daysOverdue, r);
  }

  /** The capped fee written out in the configuration's own fields. */
  lemma FeeFigures(c: Config, balance: real, periods: int, fee: real)
    requires fee == Round2(Min(RawFee(c, balance, periods), MaxFee(c, balance)))
    ensures c.feeType == "percentage" ==>
      fee == Round2(Min(balance * (c.feeValue / 100.0) * periods as real, balance * (c.maxPenaltyPercent / 100.0)))
    ensures c.feeType != "percentage" ==>
      fee == Round2(Min(c.feeValue * periods as real, balance * (c.maxPenaltyPercent / 100.0)))
  {
    var cap := balance * (c.maxPenaltyPercent / 100.0);
    assert MaxFee(c, balance) == cap;
    if c.feeType == "percentage" {
      assert RawFee(c, balance, periods) == balance * (c.feeValue / 100.0) * periods as real;
      assert Min(RawFee(c, balance, periods), MaxFee(c, balance)) == Min(balance * (c.feeValue / 100.0) * periods as real, cap);
    } else {
      assert Min(RawFee(c, balance, periods), MaxFee(c, balance)) == Min(c.feeValue * periods as real, cap);
    }
  }

  lemma ScaleNonNegative(x: real, y: real)
    requires x >= 0.0 && y >= 0.0
    ensures x * y >= 0.0
  {
  }

  lemma ScaleMonotone(x: real, p: int, q: int)
    requires x >= 0.0 && p <= q
    ensures x * p as real <= x * q as real
  {
    assert x * q as real - x * p as real == x * (q - p) as real;
  }

  /** With non-negative configuration values the fee is never negative. */
  lemma LateFeeNonNegative(c: Config, balance: real, dueDate: Option<int>, firstEnrolled: Option<int>, now: int)
    requires c.feeValue >= 0.0 && c.maxPenaltyPercent >= 0.0
    ensures CalculateLateFee(c, balance, dueDate, firstEnrolled, now).fee >= 0.0
  {
    var r := CalculateLateFee(c, balance, dueDate, firstEnrolled, now);
    if r.reason == Overdue {
      var raw, m := RawFee(c, balance, r.periodsOverdue), MaxFee(c, balance);
      RawFeeNonNegative(c, balance, r.periodsOverdue);
      ScaleNonNegative(balance, c.maxPenaltyPercent / 100.0);
      assert r.fee == Round2(Min(raw, m));
      Round2Sign(Min(raw, m));
    }
  }

  lemma RawFeeNonNegative(c: Config, balance: real, periods: int)
    requires c.feeValue >= 0.0 && balance >= 0.0 && periods >= 0
    ensures RawFee(c, balance, periods) >= 0.0
  {
    if c.feeType == "percentage" {
      var pct := c.feeValue / 100.0;
      ScaleNonNegative(balance, pct);
      ScaleNonNegative(balance * pct, periods as real);
    } else {
      ScaleNonNegative(c.feeValue, periods as real);
    }
  }

  lemma PeriodsMonotone(c: Config, d1: int, d2: int)
    requires 0 <= d1 <= d2
    ensures Periods(c, d1) <= Periods(c, d2)
  {
  }

  lemma RawFeeMonotone(c: Config, balance: real, p1: int, p2: int)
    requires balance >= 0.0 && c.feeValue >= 0.0 && p1 <= p2
    ensures RawFee(c, balance, p1) <= RawFee(c, balance, p2)
  {
    if c.feeType == "percentage" {
      ScaleNonNegative(balance, c.feeValue / 100.0);
      ScaleMonotone(balance * (c.feeValue / 100.0), p1, p2);
    } else {
      ScaleMonotone(c.feeValue, p1, p2);
    }
  }

  lemma DaysMonotone(a: int, b: int)
    requires 0 <= a <= b
    ensures a / SecondsPerDay <= b / SecondsPerDay
  {
    var qa, qb := a / SecondsPerDay, b / SecondsPerDay;
    assert SecondsPerDay * qa <= a;
    assert b < SecondsPerDay * qb + SecondsPerDay;
  }

  /** The penalty only grows as time passes (for a fixed balance and
      non-negative configuration). */
  lemma LateFeeGrowsWithTime(c: Config, balance: real, dueDate: Option<int>, firstEnrolled: Option<int>, now1: int, now2: int)
    requires c.feeValue >= 0.0 && c.maxPenaltyPercent >= 0.0
    requires now1 <= now2
    ensures CalculateLateFee(c, balance, dueDate, firstEnrolled, now1).fee
         <= CalculateLateFee(c, balance, dueDate, firstEnrolled, now2).fee
  {
    var r1 := CalculateLateFee(c, balance, dueDate, firstEnrolled, now1);
    var r2 := CalculateLateFee(c, balance, dueDate, firstEnrolled, now2);
    LateFeeNonNegative(c, balance, dueDate, firstEnrolled, now2);
    if r1.reason == Overdue {
      assert r2.reason == Overdue;
      var due := DueDay(c, dueDate, firstEnrolled).value * SecondsPerDay;
      DaysMonotone(now1 - due, now2 - due);
      PeriodsMonotone(c, r1.daysOverdue, r2.daysOverdue);
      RawFeeMonotone(c, balance, r1.periodsOverdue, r2.periodsOverdue);
      var m := MaxFee(c, balance);
      Round2Monotone(Min(RawFee(c, balance, r1.periodsOverdue), m), Min(RawFee(c, balance, r2.periodsOverdue), m));
    }
  }

  /** With the defaults, a balance of 10000.00 that is 45 days overdue
      accrues two monthly periods of 5%: 1000.00, below the 2500.00 cap. */
  lemma DefaultConfigExample()
    ensures CalculateLateFee(DefaultConfig, 10000.0, Some(20000), None, 20000 * 86400 + 45 * 86400 + 3600)
         == Penalty(1000.0, 45, 2, 2500.0, Overdue)
  {
    var r := CalculateLateFee(DefaultConfig, 10000.0, Some(20000), None, 20000 * 86400 + 45 * 86400 + 3600);
    assert (45 * 86400 + 3600) / 86400 == 45;
    assert Periods(DefaultConfig, 45) == 2;
    assert RawFee(DefaultConfig, 10000.0, 2) == 1000.0;
    assert MaxFee(DefaultConfig, 10000.0) == 2500.0;
    Round2OfCents(100000);
    Round2OfCents(250000);
  }

  /** Overdue by less than one whole day counts zero days and zero periods,
      so no fee accrues although the term is reported overdue. */
  lemma SameDayOverdueChargesNothing()
    ensures CalculateLateFee(DefaultConfig, 10000.0, Some(20000), None, 20000 * 86400 + 60)
         == Penalty(0.0, 0, 0, 2500.0, Overdue)
  {
    assert (60) / 86400 == 0;
    assert Periods(DefaultConfig, 0) == 0;
    assert RawFee(DefaultConfig, 10000.0, 0) == 0.0;
    assert MaxFee(DefaultConfig, 10000.0) == 2500.0;
    Round2OfCents(0);
    Round2OfCents(250000);
  }

  /** Without an explicit due date the due day is the first enrollment's
      day plus the 30-day grace period; ten days past it one monthly period
      of 5% accrues. */
  lemma GracePeriodExample()
    ensures CalculateLateFee(DefaultConfig, 10000.0, None, Some(20000 * 86400 + 3600), 20040 * 86400 + 5)
         == Penalty(500.0, 10, 1, 2500.0, Overdue)
  {
    assert (20000 * 86400 + 3600) / 86400 == 20000;
    assert DueDay(DefaultConfig, None, Some(20000 * 86400 + 3600)) == Some(20030);
    assert (20040 * 86400 + 5 - 20030 * 86400) / 86400 == 10;
    assert Periods(DefaultConfig, 10) == 1;
    assert RawFee(DefaultConfig, 10000.0, 1) == 500.0;
    assert MaxFee(DefaultConfig, 10000.0) == 2500.0;
    Round2OfCents(50000);
    Round2OfCents(250000);
  }
}
