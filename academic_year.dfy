/** Academic-year strings "YYYY-YYYY" (config/db_helpers.php,
    getNextAcademicYear) and how their string order relates to the years
    they name. */
module AcademicYear {
  import opened Common

  datatype YearPair = YearPair(first: nat, second: nat)

  predicate AllDigits(s: string) {
    forall i :: 0 <= i < |s| ==> IsDigit(s[i])
  }

  /** preg_match('/^(\d{4})-(\d{4})$/'): four digits, a hyphen, four digits;
      PCRE's `$` also accepts one final newline. */
  predicate MatchesAY(s: string) {
    (|s| == 9 || (|s| == 10 && s[9] == '\n'))
    && AllDigits(s[..4]) && s[4] == '-' && AllDigits(s[5..9])
  }

  /** The two captured years, read as PHP's (int) cast reads them. */
  function ParseAY(s: string): (r: Option<YearPair>)
    ensures r.Some? <==> MatchesAY(s)
  {
    if MatchesAY(s) then Some(YearPair(DigitsValue(s[..4]), DigitsValue(s[5..9]))) else None
  }

  function RenderAY(y1: nat, y2: nat): string {
    NatToString(y1) + "-" + NatToString(y2)
  }

  /** getNextAcademicYear: both years plus one, or, for an empty or
      malformed argument, "Y-(Y+1)" for the current calendar year (passed
      in, since the source reads the clock). */
  function NextAcademicYear(ay: string, currentYear: nat): (r: string)
    ensures MatchesAY(ay) ==>
      r == RenderAY(ParseAY(ay).value.first + 1, ParseAY(ay).value.second + 1)
    ensures !MatchesAY(ay) ==> r == RenderAY(currentYear, currentYear + 1)
  {
    match ParseAY(ay)
    case Some(p) => RenderAY(p.first + 1, p.second + 1)
    case None => RenderAY(currentYear, currentYear + 1)
  }

  lemma FourDigitLength(n: nat)
    requires 1000 <= n <= 9999
    ensures |NatToString(n)| == 4
  {
    assert Pow10(3) == 1000 && Pow10(4) == 10000;
    NatToStringLength(n, 3);
  }

  lemma RenderParses(y1: nat, y2: nat)
    requires 1000 <= y1 <= 9999 && 1000 <= y2 <= 9999
    ensures ParseAY(RenderAY(y1, y2)) == Some(YearPair(y1, y2))
  {
    FourDigitLength(y1);
    FourDigitLength(y2);
    var s := RenderAY(y1, y2);
    assert s[..4] == NatToString(y1);
    assert s[5..9] == NatToString(y2);
    DigitsValueOfNatToString(y1);
    DigitsValueOfNatToString(y2);
  }

  /** A well-formed year whose successor still has four digits advances by
      exactly one in both halves. */
  lemma NextAcademicYearAdvances(ay: string, currentYear: nat)
    requires ParseAY(ay).Some?
    requires 999 <= ParseAY(ay).value.first <= 9998
    requires 999 <= ParseAY(ay).value.second <= 9998
    ensures ParseAY(NextAcademicYear(ay, currentYear))
         == Some(YearPair(ParseAY(ay).value.first + 1, ParseAY(ay).value.second + 1))
  {
    RenderParses(ParseAY(ay).value.first + 1, ParseAY(ay).value.second + 1);
  }

  /** An empty or malformed argument falls back to a well-formed year. */
  lemma NextAcademicYearFallback(ay: string, currentYear: nat)
    requires !MatchesAY(ay)
    requires 1000 <= currentYear <= 9998
    ensures ParseAY(NextAcademicYear(ay, currentYear)) == Some(YearPair(currentYear, currentYear + 1))
  {
    RenderParses(currentYear, currentYear + 1);
  }

  /** The "always well-formed" reading fails at the top edge: 9999 grows
      a fifth digit. */
  lemma NextAcademicYearGrowsDigit()
    ensures NextAcademicYear("9999-9999", 2025) == "10000-10000"
    ensures !MatchesAY(NextAcademicYear("9999-9999", 2025))
  {
    assert ParseAY("9999-9999") == Some(YearPair(9999, 9999)) by {
      assert "9999-9999"[..4] == "9999" && "9999-9999"[5..9] == "9999";
      DigitsValueFour('9', '9', '9', '9');
    }
    assert NatToString(10000) == "10000";
  }

  /** ... and at the bottom edge: (int) drops leading zeros. */
  lemma NextAcademicYearDropsZeros()
    ensures NextAcademicYear("0099-0100", 2025) == "100-101"
    ensures !MatchesAY(NextAcademicYear("0099-0100", 2025))
  {
    ParseLeadingZeros();
    assert NatToString(100) == "100" && NatToString(101) == "101";
  }

  lemma ParseLeadingZeros()
    ensures ParseAY("0099-0100") == Some(YearPair(99, 100))
  {
    assert "0099-0100"[..4] == "0099" && "0099-0100"[5..9] == "0100";
    DigitsValueFour('0', '0', '9', '9');
    DigitsValueFour('0', '1', '0', '0');
  }

  lemma DigitsValueFour(c0: char, c1: char, c2: char, c3: char)
    requires IsDigit(c0) && IsDigit(c1) && IsDigit(c2) && IsDigit(c3)
    ensures DigitsValue([c0, c1, c2, c3])
         == 1000 * (c0 as int - '0' as int) + 100 * (c1 as int - '0' as int)
          + 10 * (c2 as int - '0' as int) + (c3 as int - '0' as int)
  {
    var s4, s3, s2, s1: string := [c0, c1, c2, c3], [c0, c1, c2], [c0, c1], [c0];
    assert s1[..0] == [];
    assert DigitsValue(s1) == c0 as int - '0' as int;
    assert s2[..1] == s1;
    assert DigitsValue(s2) == 10 * DigitsValue(s1) + (c1 as int - '0' as int);
    assert s3[..2] == s2;
    assert DigitsValue(s3) == 10 * DigitsValue(s2) + (c2 as int - '0' as int);
    assert s4[..3] == s3;
    assert DigitsValue(s4) == 10 * DigitsValue(s3) + (c3 as int - '0' as int);
  }

  /** Advancing `n` times: the loops that project an academic year forward
      by a number of year levels. */
  function AdvanceYears(ay: string, n: nat, currentYear: nat): (r: string)
    decreases n
  {
    if n == 0 then ay else AdvanceYears(NextAcademicYear(ay, currentYear), n - 1, currentYear)
  }

  lemma {:induction false} AdvanceYearsAdds(ay: string, n: nat, currentYear: nat)
    requires ParseAY(ay).Some?
    requires 999 <= ParseAY(ay).value.first && ParseAY(ay).value.first + n <= 9999
    requires 999 <= ParseAY(ay).value.second && ParseAY(ay).value.second + n <= 9999
    ensures n > 0 ==>
      ParseAY(AdvanceYears(ay, n, currentYear))
        == Some(YearPair(ParseAY(ay).value.first + n, ParseAY(ay).value.second + n))
    decreases n
  {
    if n > 0 {
      NextAcademicYearAdvances(ay, currentYear);
      AdvanceYearsAdds(NextAcademicYear(ay, currentYear), n - 1, currentYear);
    }
  }

  // ---------------------------------------------------------------
  // String order of equal-length digit strings is numeric order, so
  // ORDER BY academic_year sorts well-formed years by their first year.
  // ---------------------------------------------------------------

  lemma {:induction false} DigitsValueFront(s: string)
    requires |s| >= 1 && AllDigits(s)
    ensures DigitsValue(s) == (s[0] as int - '0' as int) * Pow10(|s| - 1) + DigitsValue(s[1..])
    decreases |s|
  {
    if |s| > 1 {
      var init, t := s[..|s| - 1], s[1..];
      var d0, last := s[0] as int - '0' as int, s[|s| - 1] as int - '0' as int;
      assert init[1..] == t[..|t| - 1];
      assert init[0] == s[0] && t[|t| - 1] == s[|s| - 1];
      DigitsValueFront(init);
      assert DigitsValue(t) == 10 * DigitsValue(init[1..]) + last;
      assert DigitsValue(s) == 10 * DigitsValue(init) + last;
      FrontStep(DigitsValue(s), DigitsValue(init), DigitsValue(t), DigitsValue(init[1..]), d0, Pow10(|s| - 2), last);
    } else {
      assert s[..0] == [];
    }
  }

  lemma FrontStep(vs: int, vInit: int, vt: int, vMid: int, d0: int, p: int, last: int)
    requires vInit == d0 * p + vMid && vt == 10 * vMid + last && vs == 10 * vInit + last
    ensures vs == d0 * (10 * p) + vt
  {
  }

  lemma {:induction false} DigitsValueBound(s: string)
    requires AllDigits(s)
    ensures DigitsValue(s) < Pow10(|s|)
    decreases |s|
  {
    if |s| > 0 {
      DigitsValueBound(s[..|s| - 1]);
    }
  }

  /** A smaller leading digit outweighs any tail. */
  lemma LeadingDigitDominates(ds: int, dt: int, p: int, x: int, y: int)
    requires 0 <= ds < dt && 0 <= x < p && 0 <= y
    ensures ds * p + x < dt * p + y
  {
    assert (ds + 1) * p <= dt * p;
  }

  lemma {:induction false} DigitOrderIsNumericOrder(s: string, t: string)
    requires |s| == |t| && AllDigits(s) && AllDigits(t)
    ensures StrLess(s, t) <==> DigitsValue(s) < DigitsValue(t)
    decreases |s|
  {
    if |s| > 0 {
      var s1, t1 := s[1..], t[1..];
      assert AllDigits(s1) && AllDigits(t1);
      DigitsValueFront(s);
      DigitsValueFront(t);
      DigitsValueBound(s1);
      DigitsValueBound(t1);
      var p := Pow10(|s| - 1);
      var ds, dt := s[0] as int - '0' as int, t[0] as int - '0' as int;
      var vs, vt := DigitsValue(s1), DigitsValue(t1);
      assert DigitsValue(s) == ds * p + vs && DigitsValue(t) == dt * p + vt;
      if s[0] == t[0] {
        DigitOrderIsNumericOrder(s1, t1);
        assert StrLess(s, t) == StrLess(s1, t1);
        assert ds * p == dt * p;
      } else if s[0] < t[0] {
        assert StrLess(s, t);
        LeadingDigitDominates(ds, dt, p, vs, vt);
      } else {
        assert !StrLess(s, t);
        LeadingDigitDominates(dt, ds, p, vt, vs);
      }
    }
  }

  /** Equal-length digit strings with the same value are the same string. */
  lemma DigitsValueInjective(s: string, t: string)
    requires |s| == |t| && AllDigits(s) && AllDigits(t)
    requires DigitsValue(s) == DigitsValue(t)
    ensures s == t
  {
    if s != t {
      StrLessTotal(s, t);
      DigitOrderIsNumericOrder(s, t);
      DigitOrderIsNumericOrder(t, s);
    }
  }

  /** For well-formed years without a trailing newline, string order is
      (first year, second year) order. */
  lemma AYOrderIsYearOrder(a: string, b: string)
    requires MatchesAY(a) && MatchesAY(b) && |a| == 9 && |b| == 9
    ensures StrLess(a, b) <==>
      (ParseAY(a).value.first < ParseAY(b).value.first
       || (ParseAY(a).value.first == ParseAY(b).value.first
           && ParseAY(a).value.second < ParseAY(b).value.second))
  {
    var a1, b1, a2, b2 := a[..4], b[..4], a[5..9], b[5..9];
    DigitOrderIsNumericOrder(a1, b1);
    DigitOrderIsNumericOrder(a2, b2);
    StrLessSplit(a, b, 4);
    assert a[4..][1..] == a2 && b[4..][1..] == b2;
    assert StrLess(a[4..], b[4..]) == StrLess(a2, b2);
    if DigitsValue(a1) == DigitsValue(b1) {
      DigitsValueInjective(a1, b1);
    }
  }

  /** Lexicographic order on a common-length prefix, then on the rest. */
  lemma {:induction false} StrLessSplit(a: string, b: string, k: nat)
    requires k <= |a| && k <= |b|
    ensures StrLess(a, b) <==>
      (StrLess(a[..k], b[..k]) || (a[..k] == b[..k] && StrLess(a[k..], b[k..])))
    decreases k
  {
    if k > 0 {
      assert a[1..][..k - 1] == a[1..k] && b[1..][..k - 1] == b[1..k];
      assert a[1..][k - 1..] == a[k..] && b[1..][k - 1..] == b[k..];
      StrLessSplit(a[1..], b[1..], k - 1);
      assert a[..k][1..] == a[1..k] && b[..k][1..] == b[1..k];
      if a[0] == b[0] {
        assert a[..k] == b[..k] <==> a[1..k] == b[1..k] by {
          if a[1..k] == b[1..k] { assert a[..k] == [a[0]] + a[1..k]; assert b[..k] == [b[0]] + b[1..k]; }
        }
      }
    } else {
      assert a[..0] == b[..0];
      StrLessIrreflexive(a[..0]);
    }
  }
}
