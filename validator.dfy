/** The browser-side form checks: email and Philippine mobile number
    shapes, required fields, and the 15-to-100-years birth-date window. */
module Validator {
  import opened Common

  /** What `\s` matches and what String.prototype.trim strips: the
      ECMAScript white space and line terminator characters. */
  predicate JsSpace(c: char) {
    var n := c as int;
    n == 0x09 || n == 0x0A || n == 0x0B || n == 0x0C || n == 0x0D || n == 0x20
    || n == 0xA0 || n == 0x1680 || (0x2000 <= n <= 0x200A) || n == 0x2028 || n == 0x2029
    || n == 0x202F || n == 0x205F || n == 0x3000 || n == 0xFEFF
  }

  predicate AsciiDigit(c: char) {
    '0' <= c <= '9'
  }

  // ---------------------------------------------------------------
  // isValidEmail
  // ---------------------------------------------------------------

  /** A character `[^\s@]` accepts. */
  predicate EmailChar(c: char) {
    !JsSpace(c) && c != '@'
  }

  /** Every character is one `[^\s@]` accepts. */
  predicate Clean(s: string) {
    forall k :: 0 <= k < |s| ==> EmailChar(s[k])
  }

  /** A run `[^\s@]+`. */
  predicate Run(s: string) {
    s != [] && Clean(s)
  }

  lemma CleanConcat(x: string, y: string)
    ensures Clean(x + y) <==> Clean(x) && Clean(y)
  {
    if Clean(x + y) {
      forall k | 0 <= k < |x| ensures EmailChar(x[k]) {
        assert x[k] == (x + y)[k];
      }
      forall k | 0 <= k < |y| ensures EmailChar(y[k]) {
        assert y[k] == (x + y)[|x| + k];
      }
    }
    if Clean(x) && Clean(y) {
      forall k | 0 <= k < |x + y| ensures EmailChar((x + y)[k]) {
        if k < |x| {
          assert (x + y)[k] == x[k];
        } else {
          assert (x + y)[k] == y[k - |x|];
        }
      }
    }
  }

  lemma CleanSlice(s: string, i: nat, j: nat)
    requires Clean(s) && i <= j <= |s|
    ensures Clean(s[i..j])
  {
    forall k | 0 <= k < j - i ensures EmailChar(s[i..j][k]) {
      assert s[i..j][k] == s[i + k];
    }
  }

  function IndexOf(s: string, c: char): (r: nat)
    ensures r <= |s| && (r < |s| ==> s[r] == c) && forall k :: 0 <= k < r ==> s[k] != c
    decreases |s|
  {
    if s == [] then 0 else if s[0] == c then 0 else 1 + IndexOf(s[1..], c)
  }

  /** The part after the '@': no white space or '@', and a '.' that is
      neither its first nor its last character. */
  predicate DomainOk(d: string) {
    Clean(d) && |d| >= 3 && '.' in d[1..|d| - 1]
  }

  /** The test the regular expression performs, one piece at a time: a
      first '@' with something before it and an acceptable part after it. */
  function IsValidEmail(email: string): bool {
    var at := IndexOf(email, '@');
    0 < at < |email| && Clean(email[..at]) && DomainOk(email[at + 1..])
  }

  /** `[^\s@]+\.[^\s@]+`. */
  ghost predicate DomainPattern(d: string) {
    exists b: string, c: string :: d == b + "." + c && Run(b) && Run(c)
  }

  /** What /^[^\s@]+@[^\s@]+\.[^\s@]+$/ matches: a non-empty run, '@', a
      non-empty run, '.', a non-empty run, where no run holds white space
      or '@'. */
  ghost predicate EmailPattern(s: string) {
    exists a: string, d: string :: s == a + "@" + d && Run(a) && DomainPattern(d)
  }

  lemma DomainMatchesPattern(d: string)
    ensures DomainOk(d) <==> DomainPattern(d)
  {
    if DomainOk(d) {
      var q := 1 + IndexOf(d[1..|d| - 1], '.');
      assert d[q] == '.';
      var b, c := d[..q], d[q + 1..];
      assert d == b + "." + c;
      CleanSlice(d, 0, q);
      CleanSlice(d, q + 1, |d|);
      assert Run(b) && Run(c);
    }
    if DomainPattern(d) {
      var b: string, c: string :| d == b + "." + c && Run(b) && Run(c);
      CleanConcat(b, ".");
      CleanConcat(b + ".", c);
      assert Clean(d);
      assert |d| >= 3;
      assert d[1..|d| - 1][|b| - 1] == d[|b|] == '.';
      assert '.' in d[1..|d| - 1];
    }
  }

  lemma EmailValidMatches(email: string)
    requires IsValidEmail(email)
    ensures EmailPattern(email)
  {
    var at := IndexOf(email, '@');
    var a, d := email[..at], email[at + 1..];
    assert email == a + "@" + d;
    assert Run(a);
    DomainMatchesPattern(d);
    assert email == a + "@" + d && Run(a) && DomainPattern(d);
  }

  lemma EmailPatternValid(email: string)
    requires EmailPattern(email)
    ensures IsValidEmail(email)
  {
    var a: string, d: string :| email == a + "@" + d && Run(a) && DomainPattern(d);
    DomainMatchesPattern(d);
    assert email[..|a|] == a;
    assert email[|a| + 1..] == d;
    assert IndexOf(email, '@') == |a| by {
      assert email[|a|] == '@';
      forall k | 0 <= k < |a| ensures email[k] != '@' {
        assert email[k] == a[k];
      }
    }
  }

  /** isValidEmail accepts exactly the strings the regular expression
      matches. */
  lemma EmailMatchesPattern(email: string)
    ensures IsValidEmail(email) <==> EmailPattern(email)
  {
    if IsValidEmail(email) {
      EmailValidMatches(email);
    }
    if EmailPattern(email) {
      EmailPatternValid(email);
    }
  }

  // ---------------------------------------------------------------
  // isValidPhone
  // ---------------------------------------------------------------

  /** phone.replace(/[\s-]/g, ''). */
  function Strip(s: string): (r: string)
    ensures forall k :: 0 <= k < |r| ==> !JsSpace(r[k]) && r[k] != '-'
    decreases |s|
  {
    if s == [] then []
    else
      var c := s[|s| - 1];
      Strip(s[..|s| - 1]) + (if JsSpace(c) || c == '-' then [] else [c])
  }

  predicate AllDigits(s: string) {
    forall k :: 0 <= k < |s| ==> AsciiDigit(s[k])
  }

  /** ^(09|\+639)\d{9}$, character by character. */
  predicate Mobile(t: string) {
    || (|t| == 11 && t[0] == '0' && t[1] == '9' && AllDigits(t[2..]))
    || (|t| == 13 && t[0] == '+' && t[1] == '6' && t[2] == '3' && t[3] == '9' && AllDigits(t[4..]))
  }

  /** A missing or empty number is accepted (the field is optional);
      otherwise the number without white space and hyphens must match. */
  function IsValidPhone(phone: Option<string>): bool {
    phone.None? || phone.value == "" || Mobile(Strip(phone.value))
  }

  lemma {:induction false} StripAppend(a: string, b: string)
    ensures Strip(a + b) == Strip(a) + Strip(b)
    decreases |b|
  {
    if b != [] {
      StripAppend(a, b[..|b| - 1]);
      assert (a + b)[..|a + b| - 1] == a + b[..|b| - 1];
    } else {
      assert a + b == a;
    }
  }

  /** A number is accepted exactly when it is absent or empty, or when,
      with its separators removed, it is 09 or +639 followed by nine
      digits. */
  lemma PhoneRule(phone: Option<string>)
    ensures IsValidPhone(phone) <==>
      || phone.None? || phone.value == ""
      || exists d :: |d| == 9 && AllDigits(d) && (Strip(phone.value) == "09" + d || Strip(phone.value) == "+639" + d)
  {
    if phone.Some? && phone.value != "" {
      var t := Strip(phone.value);
      if |t| == 11 && t[0] == '0' && t[1] == '9' && AllDigits(t[2..]) {
        assert t == "09" + t[2..];
      } else if |t| == 13 && t[0] == '+' && t[1] == '6' && t[2] == '3' && t[3] == '9' && AllDigits(t[4..]) {
        assert t == "+639" + t[4..];
      }
      if exists d :: |d| == 9 && AllDigits(d) && (t == "09" + d || t == "+639" + d) {
        var d :| |d| == 9 && AllDigits(d) && (t == "09" + d || t == "+639" + d);
        if t == "09" + d {
          assert t[2..] == d;
        } else {
          assert t[4..] == d;
        }
      }
    }
  }

  /** Spaces and hyphens typed between the digits make no difference. */
  lemma SeparatorsIgnored(a: string, b: string, sep: char)
    requires JsSpace(sep) || sep == '-'
    requires a + b != ""
    ensures IsValidPhone(Some(a + [sep] + b)) == IsValidPhone(Some(a + b))
  {
    StripAppend(a, [sep]);
    StripAppend(a + [sep], b);
    StripAppend(a, b);
    assert Strip([sep]) == [] by {
      assert [sep][..0] == [];
    }
    assert Strip(a + [sep] + b) == Strip(a + b);
  }

  // ---------------------------------------------------------------
  // isRequired
  // ---------------------------------------------------------------

  function TrimStart(s: string): (r: string)
    ensures |r| <= |s| && r == s[|s| - |r|..]
    ensures r != [] ==> !JsSpace(r[0])
    ensures forall k :: 0 <= k < |s| - |r| ==> JsSpace(s[k])
    decreases |s|
  {
    if s != [] && JsSpace(s[0]) then TrimStart(s[1..]) else s
  }

  function TrimEnd(s: string): (r: string)
    ensures |r| <= |s| && r == s[..|r|]
    ensures r != [] ==> !JsSpace(r[|r| - 1])
    ensures forall k :: |r| <= k < |s| ==> JsSpace(s[k])
    decreases |s|
  {
    if s != [] && JsSpace(s[|s| - 1]) then TrimEnd(s[..|s| - 1]) else s
  }

  /** String.prototype.trim. */
  function Trim(s: string): string {
    TrimEnd(TrimStart(s))
  }

  /** null and undefined are None. */
  function IsRequired(value: Option<string>): bool {
    value.Some? && Trim(value.value) != ""
  }

  /** A value is present exactly when it holds a character that is not
      white space. */
  lemma RequiredRule(value: Option<string>)
    ensures IsRequired(value) <==> value.Some? && exists k :: 0 <= k < |value.value| && !JsSpace(value.value[k])
  {
    if value.Some? {
      var s := value.value;
      var l := TrimStart(s);
      if Trim(s) != "" {
        assert l != [] && !JsSpace(l[0]);
        assert s[|s| - |l|] == l[0];
      } else {
        assert l == [];
      }
    }
  }

  // ---------------------------------------------------------------
  // isValidBirthDate
  // ---------------------------------------------------------------

  /** A calendar date. */
  datatype Date = Date(year: int, month: int, day: int)

  /** A JavaScript Date read in the browser's zone, taken as UTC: its
      calendar date and the milliseconds elapsed since that day's midnight. */
  datatype Instant = Instant(date: Date, msOfDay: int)

  const MsPerDay: int := 86400000

  predicate DateLe(a: Date, b: Date) {
    a.year < b.year || (a.year == b.year && (a.month < b.month || (a.month == b.month && a.day <= b.day)))
  }

  /** The order `<=` compares Date objects by: date first, then time of day. */
  predicate InstantLe(a: Instant, b: Instant) {
    (DateLe(a.date, b.date) && a.date != b.date) || (a.date == b.date && a.msOfDay <= b.msOfDay)
  }

  /** `new Date("YYYY-MM-DD")`: a date-only string is read as its midnight. */
  function Midnight(d: Date): Instant {
    Instant(d, 0)
  }

  predicate Leap(y: int) {
    (y % 4 == 0 && y % 100 != 0) || y % 400 == 0
  }

  /** setFullYear(getFullYear() - n): the same month, day and time of day,
      except that 29 February rolls over to 1 March in a common year. */
  function YearsBefore(now: Instant, n: int): Instant {
    var today := now.date;
    if today.month == 2 && today.day == 29 && !Leap(today.year - n) then Instant(Date(today.year - n, 3, 1), now.msOfDay)
    else Instant(Date(today.year - n, today.month, today.day), now.msOfDay)
  }

  /** isValidBirthDate: `date` is what `new Date(dateStr)` yields, None for
      an invalid date, and `now` the clock's instant. */
  function IsValidBirthDate(dateStr: Option<string>, date: Option<Date>, now: Instant): bool {
    if dateStr.None? || dateStr.value == "" then false
    else date.Some? && InstantLe(Midnight(date.value), YearsBefore(now, 15)) && InstantLe(YearsBefore(now, 100), Midnight(date.value))
  }

  /** Read as calendar dates: the 15-year bound is inclusive, and the
      100-year bound is inclusive only at midnight, because the lower limit
      keeps the clock's time of day while the parsed date sits at midnight. */
  lemma BirthDateBounds(dateStr: Option<string>, date: Option<Date>, now: Instant)
    requires 0 <= now.msOfDay < MsPerDay
    ensures IsValidBirthDate(dateStr, date, now) <==>
      dateStr.Some? && dateStr.value != "" && date.Some?
      && DateLe(date.value, YearsBefore(now, 15).date)
      && DateLe(YearsBefore(now, 100).date, date.value)
      && (date.value == YearsBefore(now, 100).date ==> now.msOfDay == 0)
  {
  }

  /** Completed years of age on `today`. */
  function Age(born: Date, today: Date): int {
    today.year - born.year - (if DateLe(Date(today.year, born.month, born.day), today) then 0 else 1)
  }

  /** Away from 29 February, an accepted birth date is that of someone
      aged 15 to 100. */
  lemma BirthDateAges(dateStr: Option<string>, date: Option<Date>, now: Instant)
    requires 0 <= now.msOfDay < MsPerDay
    requires !(now.date.month == 2 && now.date.day == 29)
    requires IsValidBirthDate(dateStr, date, now)
    ensures 15 <= Age(date.value, now.date) <= 100
  {
  }

  /** On 29 February the upper bound rolls over to 1 March, so someone
      who turns 15 the next day is accepted. */
  lemma LeapDayAdmitsFourteen()
    ensures IsValidBirthDate(Some("2009-03-01"), Some(Date(2009, 3, 1)), Instant(Date(2024, 2, 29), 0))
    ensures Age(Date(2009, 3, 1), Date(2024, 2, 29)) == 14
  {
  }

  /** The hundredth birthday is accepted only at the stroke of midnight:
      at 10:00 on 10 June 2024 "1924-06-10" is refused. */
  lemma HundredthBirthdayAfterMidnight()
    ensures IsValidBirthDate(Some("1924-06-10"), Some(Date(1924, 6, 10)), Instant(Date(2024, 6, 10), 0))
    ensures !IsValidBirthDate(Some("1924-06-10"), Some(Date(1924, 6, 10)), Instant(Date(2024, 6, 10), 36000000))
  {
  }
}
