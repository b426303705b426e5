/** The term picker of the finance and schedule pages
    (config/db_helpers.php, get_student_term_options): the student's
    history terms, the projected current term and payment-only terms, keyed
    "ay|yl|sem" and sorted by key in descending string order. The queries'
    results, the system academic year and the calendar year are inputs. */
module TermOptions {
  import opened Common
  import opened AcademicYear

  /** A row of the history query; `yearLevel` None is SQL NULL. */
  datatype HistoryRow = HistoryRow(ay: string, sem: int, yearLevel: Option<int>)

  /** students.year_level and students.current_semester (NULL as None). */
  datatype StudentContext = StudentContext(yearLevel: Option<int>, semester: Option<int>)

  /** One entry of the options dictionary. */
  datatype TermOption = TermOption(ay: string, sem: int, yl: string, caption: string)

  /** The dictionary: (key, option) pairs, each key at most once. */
  type Options = seq<(string, TermOption)>

  /** `$x ?? d`. */
  function OrDefault(x: Option<int>, d: int): int {
    if x.Some? then x.value else d
  }

  /** PHP intval of a nullable column: NULL reads as 0. */
  function IntVal(x: Option<int>): int {
    OrDefault(x, 0)
  }

  // ---------------------------------------------------------------
  // Projection of the current academic year
  // ---------------------------------------------------------------

  /** The latest history row at the student's year level gives its year;
      a higher student level advances that year once per level; otherwise,
      and with no history, the system year is used. */
  function ProjectedAY(sysAy: string, history: seq<HistoryRow>, yl: int, currentYear: nat): string {
    if history == [] then sysAy
    else
      var latestYl := IntVal(history[0].yearLevel);
      if latestYl == yl then history[0].ay
      else if yl > latestYl then AdvanceYears(history[0].ay, yl - latestYl, currentYear)
      else sysAy
  }

  /** The projection, with the source's `for` loop over the level
      difference. */
  method ProjectCurrentAY(sysAy: string, history: seq<HistoryRow>, yl: int, currentYear: nat) returns (ay: string)
    ensures ay == ProjectedAY(sysAy, history, yl, currentYear)
  {
    ay := sysAy;
    if history != [] {
      var latestYl := IntVal(history[0].yearLevel);
      if latestYl == yl {
        ay := history[0].ay;
      } else if yl > latestYl {
        var diff := yl - latestYl;
        ay := history[0].ay;
        var i := 0;
        while i < diff
          invariant 0 <= i <= diff
          invariant AdvanceYears(ay, diff - i, currentYear) == AdvanceYears(history[0].ay, diff, currentYear)
        {
          ay := NextAcademicYear(ay, currentYear);
          i := i + 1;
        }
      }
    }
  }

  /** Which year the projection picks, and that a well-formed latest year
      advanced by the level difference names the year that many years
      later. */
  lemma ProjectedAYCases(sysAy: string, history: seq<HistoryRow>, yl: int, currentYear: nat)
    ensures history == [] ==> ProjectedAY(sysAy, history, yl, currentYear) == sysAy
    ensures history != [] && IntVal(history[0].yearLevel) == yl ==> ProjectedAY(sysAy, history, yl, currentYear) == history[0].ay
    ensures history != [] && yl < IntVal(history[0].yearLevel) ==> ProjectedAY(sysAy, history, yl, currentYear) == sysAy
    ensures history != [] && yl > IntVal(history[0].yearLevel)
            && ParseAY(history[0].ay).Some?
            && 999 <= ParseAY(history[0].ay).value.first
            && ParseAY(history[0].ay).value.first + (yl - IntVal(history[0].yearLevel)) <= 9999
            && 999 <= ParseAY(history[0].ay).value.second
            && ParseAY(history[0].ay).value.second + (yl - IntVal(history[0].yearLevel)) <= 9999
            ==> var d := yl - IntVal(history[0].yearLevel);
                ParseAY(ProjectedAY(sysAy, history, yl, currentYear))
                  == Some(YearPair(ParseAY(history[0].ay).value.first + d, ParseAY(history[0].ay).value.second + d))
  {
    if history != [] && yl > IntVal(history[0].yearLevel)
       && ParseAY(history[0].ay).Some?
       && 999 <= ParseAY(history[0].ay).value.first
       && ParseAY(history[0].ay).value.first + (yl - IntVal(history[0].yearLevel)) <= 9999
       && 999 <= ParseAY(history[0].ay).value.second
       && ParseAY(history[0].ay).value.second + (yl - IntVal(history[0].yearLevel)) <= 9999 {
      AdvanceYearsAdds(history[0].ay, yl - IntVal(history[0].yearLevel), currentYear);
    }
  }

  // ---------------------------------------------------------------
  // Keys, labels and the dictionary
  // ---------------------------------------------------------------

  /** `if (!$yl) $yl = '?'`: NULL and 0 have no year level. */
  function YearLevelText(yl: Option<int>): string {
    if yl.None? || yl.value == 0 then "?" else IntToString(yl.value)
  }

  function Key(ay: string, yl: string, sem: int): string {
    ay + "|" + yl + "|" + IntToString(sem)
  }

  function Label(ay: string, sem: int, yl: string): string {
    ay + " " + (if sem == 1 then "1st" else "2nd") + " Sem (Year " + yl + ")"
  }

  function Find(opts: Options, k: string): (r: Option<TermOption>)
    ensures r.Some? <==> exists i :: 0 <= i < |opts| && opts[i].0 == k
    ensures r.Some? ==> (k, r.value) in opts
    decreases |opts|
  {
    if opts == [] then None
    else if opts[0].0 == k then Some(opts[0].1)
    else
      var r := Find(opts[1..], k);
      assert forall i :: 1 <= i < |opts| ==> opts[i] == opts[1..][i - 1];
      r
  }

  predicate KeysUnique(opts: Options) {
    forall i, j :: 0 <= i < j < |opts| ==> opts[i].0 != opts[j].0
  }

  /** `$terms_options[$k] = $v`: overwrite in place, or append. */
  function Put(opts: Options, k: string, v: TermOption): (r: Options)
    decreases |opts|
  {
    if opts == [] then [(k, v)]
    else if opts[0].0 == k then [(k, v)] + opts[1..]
    else [opts[0]] + Put(opts[1..], k, v)
  }

  /** After `Put` the key holds the new value, every other key keeps its
      value, and keys stay unique. */
  lemma {:induction false} PutFind(opts: Options, k: string, v: TermOption, k': string)
    requires KeysUnique(opts)
    ensures KeysUnique(Put(opts, k, v))
    ensures Find(Put(opts, k, v), k') == (if k' == k then Some(v) else Find(opts, k'))
    decreases |opts|
  {
    if opts != [] && opts[0].0 != k {
      PutFind(opts[1..], k, v, k');
      PutKeys(opts[1..], k, v);
    } else if opts != [] {
      assert forall i :: 1 <= i < |opts| ==> opts[i].0 != k;
      assert Find(opts[1..], k) == None;
    }
  }

  /** `Put` only ever adds its own key. */
  lemma {:induction false} PutKeys(opts: Options, k: string, v: TermOption)
    ensures forall p :: p in Put(opts, k, v) ==> p.0 == k || p in opts
    decreases |opts|
  {
    if opts != [] && opts[0].0 != k {
      PutKeys(opts[1..], k, v);
    }
  }

  /** The option a history row contributes. */
  function HistoryEntry(h: HistoryRow): (string, TermOption) {
    var yl := YearLevelText(h.yearLevel);
    (Key(h.ay, yl, h.sem), TermOption(h.ay, h.sem, yl, Label(h.ay, h.sem, yl)))
  }

  /** The history loop: later rows with an equal key overwrite earlier ones. */
  function HistoryOptions(history: seq<HistoryRow>): Options
    decreases |history|
  {
    if history == [] then []
    else
      var e := HistoryEntry(history[|history| - 1]);
      Put(HistoryOptions(history[..|history| - 1]), e.0, e.1)
  }

  /** Add the current term, or mark it when history already has it. */
  function WithCurrent(opts: Options, ay: string, yl: int, sem: int): Options {
    var k := Key(ay, IntToString(yl), sem);
    match Find(opts, k)
    case None => Put(opts, k, TermOption(ay, sem, IntToString(yl), Label(ay, sem, IntToString(yl)) + " - Current"))
    case Some(o) => Put(opts, k, o.(caption := o.caption + " - Current"))
  }

  /** Some option already names this academic year and semester. */
  predicate HasTerm(opts: Options, ay: string, sem: int) {
    exists i :: 0 <= i < |opts| && opts[i].1.ay == ay && opts[i].1.sem == sem
  }

  /** The inner loop with its `break`: does any option name (ay, sem)? */
  method FindTerm(opts: Options, ay: string, sem: int) returns (exists_: bool)
    ensures exists_ <==> HasTerm(opts, ay, sem)
  {
    exists_ := false;
    var i := 0;
    while i < |opts|
      invariant 0 <= i <= |opts|
      invariant !exists_ ==> forall j :: 0 <= j < i ==> !(opts[j].1.ay == ay && opts[j].1.sem == sem)
      invariant exists_ ==> HasTerm(opts, ay, sem)
    {
      if opts[i].1.ay == ay && opts[i].1.sem == sem {
        exists_ := true;
        break;
      }
      i := i + 1;
    }
  }

  /** One payment-only term: added as "ay|?|sem" unless some option
      already names that academic year and semester. */
  function WithPaymentTerm(opts: Options, t: Term): Options {
    if HasTerm(opts, t.ay, t.sem) then opts
    else Put(opts, Key(t.ay, "?", t.sem), TermOption(t.ay, t.sem, "?", Label(t.ay, t.sem, "?")))
  }

  function WithPaymentTerms(opts: Options, payTerms: seq<Term>): Options
    decreases |payTerms|
  {
    if payTerms == [] then opts
    else WithPaymentTerm(WithPaymentTerms(opts, payTerms[..|payTerms| - 1]), payTerms[|payTerms| - 1])
  }

  // ---------------------------------------------------------------
  // uksort with strcmp($b, $a): descending by key
  // ---------------------------------------------------------------

  predicate KeysDescending(opts: Options) {
    forall i, j :: 0 <= i < j < |opts| ==> StrLess(opts[j].0, opts[i].0)
  }

  function InsertDesc(e: (string, TermOption), opts: Options): (r: Options)
    requires KeysDescending(opts) && forall p :: p in opts ==> p.0 != e.0
    ensures KeysDescending(r)
    ensures forall p :: p in r <==> p == e || p in opts
    ensures |r| == |opts| + 1
    decreases |opts|
  {
    if opts == [] then [e]
    else if StrLess(opts[0].0, e.0) then
      forall j | 0 <= j < |opts| ensures StrLess(opts[j].0, e.0) {
        if j > 0 { StrLessTransitive(opts[j].0, opts[0].0, e.0); }
      }
      [e] + opts
    else
      StrLessTotal(opts[0].0, e.0);
      assert forall p :: p in opts[1..] ==> StrLess(p.0, opts[0].0) by {
        forall p | p in opts[1..] ensures StrLess(p.0, opts[0].0) {
          var j :| 0 <= j < |opts| - 1 && opts[1..][j] == p;
          assert opts[j + 1] == p;
        }
      }
      [opts[0]] + InsertDesc(e, opts[1..])
  }

  function SortDesc(opts: Options): (r: Options)
    requires KeysUnique(opts)
    ensures KeysDescending(r)
    ensures forall p :: p in r <==> p in opts
    ensures |r| == |opts|
    decreases |opts|
  {
    if opts == [] then []
    else
      var init := opts[..|opts| - 1];
      var e := opts[|opts| - 1];
      assert KeysUnique(init);
      var rest := SortDesc(init);
      assert forall p :: p in rest ==> p.0 != e.0 by {
        forall p | p in rest ensures p.0 != e.0 {
          var j :| 0 <= j < |init| && init[j] == p;
        }
      }
      assert forall p :: p in opts <==> p in init || p == e;
      InsertDesc(e, rest)
  }

  /** Descending keys are distinct. */
  lemma DescendingIsUnique(opts: Options)
    requires KeysDescending(opts)
    ensures KeysUnique(opts)
  {
    forall i, j | 0 <= i < j < |opts| ensures opts[i].0 != opts[j].0 {
      StrLessIrreflexive(opts[i].0);
    }
  }

  // ---------------------------------------------------------------
  // get_student_term_options
  // ---------------------------------------------------------------

  /** The whole builder; an unknown student has no options. */
  function StudentTermOptions(sysAy: string, student: Option<StudentContext>, history: seq<HistoryRow>,
                              payTerms: seq<Term>, currentYear: nat): Options
  {
    match student
    case None => []
    case Some(st) =>
      var yl := OrDefault(st.yearLevel, 1);
      var sem := OrDefault(st.semester, 1);
      var ay := ProjectedAY(sysAy, history, yl, currentYear);
      var opts := WithPaymentTerms(WithCurrent(HistoryOptions(history), ay, yl, sem), payTerms);
      KeysUniqueBuilt(history, ay, yl, sem, payTerms);
      SortDesc(opts)
  }

  lemma {:induction false} HistoryKeysUnique(history: seq<HistoryRow>)
    ensures KeysUnique(HistoryOptions(history))
    decreases |history|
  {
    if history != [] {
      var e := HistoryEntry(history[|history| - 1]);
      HistoryKeysUnique(history[..|history| - 1]);
      PutFind(HistoryOptions(history[..|history| - 1]), e.0, e.1, e.0);
    }
  }

  lemma {:induction false} PaymentKeysUnique(opts: Options, payTerms: seq<Term>)
    requires KeysUnique(opts)
    ensures KeysUnique(WithPaymentTerms(opts, payTerms))
    decreases |payTerms|
  {
    if payTerms != [] {
      var t := payTerms[|payTerms| - 1];
      PaymentKeysUnique(opts, payTerms[..|payTerms| - 1]);
      var prev := WithPaymentTerms(opts, payTerms[..|payTerms| - 1]);
      PutFind(prev, Key(t.ay, "?", t.sem), TermOption(t.ay, t.sem, "?", Label(t.ay, t.sem, "?")), "");
    }
  }

  lemma KeysUniqueBuilt(history: seq<HistoryRow>, ay: string, yl: int, sem: int, payTerms: seq<Term>)
    ensures KeysUnique(WithPaymentTerms(WithCurrent(HistoryOptions(history), ay, yl, sem), payTerms))
  {
    HistoryKeysUnique(history);
    CurrentMarked(HistoryOptions(history), ay, yl, sem, "");
    PaymentKeysUnique(WithCurrent(HistoryOptions(history), ay, yl, sem), payTerms);
  }

  predicate EndsWith(s: string, suffix: string) {
    |suffix| <= |s| && s[|s| - |suffix|..] == suffix
  }

  /** The current term is always an option and its caption ends with
      " - Current": a history entry with its key keeps its fields and gets
      the suffix; no other key changes. */
  lemma CurrentMarked(opts: Options, ay: string, yl: int, sem: int, k': string)
    requires KeysUnique(opts)
    ensures var k := Key(ay, IntToString(yl), sem);
      var r := WithCurrent(opts, ay, yl, sem);
      KeysUnique(r)
      && Find(r, k).Some? && EndsWith(Find(r, k).value.caption, " - Current")
      && (Find(opts, k).Some? ==> Find(r, k).value == Find(opts, k).value.(caption := Find(opts, k).value.caption + " - Current"))
      && (Find(opts, k).None? ==> Find(r, k).value.ay == ay && Find(r, k).value.sem == sem)
      && (k' != k ==> Find(r, k') == Find(opts, k'))
  {
    var k := Key(ay, IntToString(yl), sem);
    match Find(opts, k)
    case None =>
      var v := TermOption(ay, sem, IntToString(yl), Label(ay, sem, IntToString(yl)) + " - Current");
      PutFind(opts, k, v, k);
      PutFind(opts, k, v, k');
    case Some(o) =>
      PutFind(opts, k, o.(caption := o.caption + " - Current"), k);
      PutFind(opts, k, o.(caption := o.caption + " - Current"), k');
  }

  /** A payment-only term becomes the option "ay|?|sem" exactly when no
      option names its academic year and semester yet; otherwise nothing
      changes. Afterwards some option names it either way. */
  lemma PaymentTermRule(opts: Options, t: Term)
    requires KeysUnique(opts)
    ensures HasTerm(opts, t.ay, t.sem) ==> WithPaymentTerm(opts, t) == opts
    ensures !HasTerm(opts, t.ay, t.sem) ==>
      Find(WithPaymentTerm(opts, t), Key(t.ay, "?", t.sem)) == Some(TermOption(t.ay, t.sem, "?", Label(t.ay, t.sem, "?")))
    ensures HasTerm(WithPaymentTerm(opts, t), t.ay, t.sem)
  {
    if !HasTerm(opts, t.ay, t.sem) {
      var k := Key(t.ay, "?", t.sem);
      var v := TermOption(t.ay, t.sem, "?", Label(t.ay, t.sem, "?"));
      PutFind(opts, k, v, k);
      var r := WithPaymentTerm(opts, t);
      var i :| 0 <= i < |r| && r[i] == (k, v);
    }
  }

  /** The result is sorted by key, descending, each key once, and holds
      exactly the entries of the dictionary built before the sort. */
  lemma TermOptionsSorted(sysAy: string, student: Option<StudentContext>, history: seq<HistoryRow>,
                          payTerms: seq<Term>, currentYear: nat)
    ensures var r := StudentTermOptions(sysAy, student, history, payTerms, currentYear);
      KeysDescending(r) && KeysUnique(r)
      && (student.None? ==> r == [])
      && (student.Some? ==>
            var yl := OrDefault(student.value.yearLevel, 1);
            var sem := OrDefault(student.value.semester, 1);
            var ay := ProjectedAY(sysAy, history, yl, currentYear);
            forall p :: p in r <==> p in WithPaymentTerms(WithCurrent(HistoryOptions(history), ay, yl, sem), payTerms))
  {
    DescendingIsUnique(StudentTermOptions(sysAy, student, history, payTerms, currentYear));
  }

  /** The loop over the history rows. */
  method CollectHistory(history: seq<HistoryRow>) returns (opts: Options)
    ensures opts == HistoryOptions(history)
  {
    opts := [];
    var i := 0;
    while i < |history|
      invariant 0 <= i <= |history|
      invariant opts == HistoryOptions(history[..i])
    {
      var e := HistoryEntry(history[i]);
      opts := Put(opts, e.0, e.1);
      assert history[..i + 1][..i] == history[..i];
      i := i + 1;
    }
    assert history[..i] == history;
  }

  /** The loop over the payment-only terms. */
  method AddPaymentTerms(start: Options, payTerms: seq<Term>) returns (opts: Options)
    ensures opts == WithPaymentTerms(start, payTerms)
  {
    opts := start;
    var j := 0;
    while j < |payTerms|
      invariant 0 <= j <= |payTerms|
      invariant opts == WithPaymentTerms(start, payTerms[..j])
    {
      var t := payTerms[j];
      var named := FindTerm(opts, t.ay, t.sem);
      if !named {
        opts := Put(opts, Key(t.ay, "?", t.sem), TermOption(t.ay, t.sem, "?", Label(t.ay, t.sem, "?")));
      }
      assert payTerms[..j + 1][..j] == payTerms[..j];
      j := j + 1;
    }
    assert payTerms[..j] == payTerms;
  }

  /** get_student_term_options with its loops: history rows, the current
      term, then payment-only terms, then the sort. */
  method GetStudentTermOptions(sysAy: string, student: Option<StudentContext>, history: seq<HistoryRow>,
                               payTerms: seq<Term>, currentYear: nat) returns (r: Options)
    ensures r == StudentTermOptions(sysAy, student, history, payTerms, currentYear)
  {
    if student.None? {
      return [];
    }
    var yl := OrDefault(student.value.yearLevel, 1);
    var sem := OrDefault(student.value.semester, 1);
    var ay := ProjectCurrentAY(sysAy, history, yl, currentYear);
    var opts := CollectHistory(history);
    opts := WithCurrent(opts, ay, yl, sem);
    opts := AddPaymentTerms(opts, payTerms);
    KeysUniqueBuilt(history, ay, yl, sem, payTerms);
    r := SortDesc(opts);
  }
}
