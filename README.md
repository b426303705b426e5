# A verified model of the Cano-P-EMS finance, grading and enrolment core

Cano-P-EMS is a PHP school-management system: students, a curriculum,
per-term enrolment, grades and academic standing, and a finance side
that bills tuition and fees per term, applies scholarships, charges
late fees and carries overpayments forward. This project models the
decision logic of that system in Dafny and proves properties of it.

The model covers these parts of the system:

- **The finance engine** of `config/finance_helpers.php`:
  - program rate resolution with its fallbacks;
  - scholarship discounts;
  - late-fee accrual;
  - the carry-forward ledger;
  - the balance and assessment queries;
  - the comprehensive term summary;
  - the persisted overpayment credit store and its FIFO application.
- **The helpers** of `config/db_helpers.php`:
  - the next academic year;
  - the term-option dictionary with its projection of the current year;
  - the session program cache;
  - `db_exists`.
- **The pages that consume the finance engine:**
  - the statement of account (`pages/student_finance.php`);
  - the student edit handler with its promotion gate and balance forwarding (`pages/edit_student.php`);
  - the finance list with its classification, filter, counts and pagination (`pages/finance.php`).
- **The academic rules** of `config/academic_helpers.php`:
  - term and cumulative GPA;
  - standing;
  - the standing upsert;
  - prerequisites;
  - the GPA interpretation.
- **The enrolment pages:**
  - enroll, drop, enroll-all and drop-all with their admission rule and seat counts, the conflict listing and the GWA (`pages/student_schedule_grades.php`);
  - the all-or-nothing re-enrolment with its academic-year projection and block checks (`pages/enroll_student.php`);
  - the pairwise conflict endpoint (`api/check_student_conflicts.php`).
- **The client-side rules** of `js/app.js`:
  - the email, phone, required-field and birth-date validators;
  - the bounded page-time history.

Database tables are sequences of row datatypes (module `Tables`, and a
`Db` record in `FinanceData`). A query becomes a function over them. A
loop of the source becomes a `method` whose `while` loop is proved equal
to a specification function. A row updated in place becomes a class
field that methods reassign:

- `CreditStore.OverpaymentStore`;
- `Enrollment.Registrar`;
- `DbHelpers.Session`;
- `Performance.PageTimeLog`;
- the finance list's `array`.

Money is Dafny `real`. PHP's `round($x, 2)` (half away from zero) is
`Money.Round2`, and `ceil` of a division is `Money.CeilDiv`. The
wall clock, `date('Y')`, `time()` and the database connection are
parameters.

Where the source behaves differently from what its comments or the
surrounding design suggest, the model follows the code. It states the
difference as a lemma:

- `enroll_all` re-queries the database after every insert, so an
  earlier course of a batch *is* seen by the conflict checks of later
  ones (`Enrollment.BatchSeesEarlierCourses`).
- The statement's all-terms balance subtracts the applied credits a
  second time (`Statement.AllTermsDeductsCreditTwice`).
- `getNextAcademicYear` does not always return `YYYY-YYYY`: the `(int)`
  cast drops leading zeros and 9999 grows a fifth digit.
- PCRE's `$` accepts a trailing newline (`AcademicYear.MatchesAY`).
- Re-enrolment deletes every semester's rows of the academic year, not
  only the current semester's (`ReEnroll.ConfirmReplaces`).
- Dropped units count towards `getStudentBalance` and
  `getTermAssessment` but not towards the ledger
  (`Assessment.DroppedCourseDiverges`).
- The comprehensive summary charges misc fees at zero units while the
  ledger does not (`Assessment.SummaryChargesMiscAtZeroUnits`).
- `getTermBalance` ignores scholarships
  (`Assessment.TermBalanceIgnoresDiscount`).
- A net assessment below zero feeds the credit pool
  (`Ledger.NegativeNetFeedsPool`).
- An applied credit record can be applied again
  (`CreditStore.ReapplicationDrains`).
- The balance-forwarding payments bind the academic year as an
  integer, so they are stored under "2025" rather than "2025-2026" and
  do not settle the source term
  (`Promotion.ForwardAsBoundMissesSource`). The model's handler uses
  the evidently intended pair; see "## Findings".

## Model

| member | source | states |
|---|---|---|
| AcademicYear.ParseAY | config/db_helpers.php:158 | two years are read exactly when the string is four digits, a hyphen and four digits, with PCRE's optional final newline |
| AcademicYear.NextAcademicYearAdvances | config/db_helpers.php:157-163 | a well-formed year whose halves stay four-digit parses back as both halves plus one |
| AcademicYear.NextAcademicYearFallback | config/db_helpers.php:158-160 | an empty or malformed argument yields the well-formed pair (current year, current year + 1) |
| AcademicYear.NextAcademicYearGrowsDigit | config/db_helpers.php:162 | "9999-9999" becomes "10000-10000", which no longer matches the pattern |
| AcademicYear.NextAcademicYearDropsZeros | config/db_helpers.php:162 | "0099-0100" becomes "100-101": the integer cast drops leading zeros, so the result is malformed |
| AcademicYear.AdvanceYearsAdds | config/db_helpers.php:233-237 | applying getNextAcademicYear n times to a well-formed year adds n to both halves |
| AcademicYear.DigitOrderIsNumericOrder | config/finance_helpers.php:160 | for equal-length digit strings, string order is numeric order (both directions) |
| AcademicYear.AYOrderIsYearOrder | config/finance_helpers.php:160 | ORDER BY academic_year sorts well-formed years by first year, then second year (both directions) |
| TermOptions.ProjectCurrentAY | config/db_helpers.php:220-239 | the projection with its for loop equals the projected-year function |
| TermOptions.ProjectedAYCases | config/db_helpers.php:220-239 | the result is: the system year with no history or a lower student level; the latest year at an equal level; the latest year advanced by the level difference at a higher level |
| TermOptions.Find | config/db_helpers.php:265 | the lookup succeeds exactly when some entry has the key, and returns that entry's value |
| TermOptions.PutFind | config/db_helpers.php:255-260 | an assignment keeps keys unique, makes the key hold the new value and leaves every other key's value unchanged |
| TermOptions.FindTerm | config/db_helpers.php:284-291 | the loop with its break answers true exactly when some option names the academic year and semester |
| TermOptions.SortDesc | config/db_helpers.php:303-305 | the sorted dictionary has strictly descending keys and the same entries and size as before |
| TermOptions.HistoryKeysUnique | config/db_helpers.php:245-261 | the history loop builds a dictionary whose keys are unique |
| TermOptions.PaymentKeysUnique | config/db_helpers.php:279-300 | adding payment-only terms keeps keys unique |
| TermOptions.CurrentMarked | config/db_helpers.php:263-274 | the current key is always present with a caption ending " - Current". An existing entry keeps its fields and gains the suffix. A new entry has the current year and semester. No other key changes. |
| TermOptions.PaymentTermRule | config/db_helpers.php:279-300 | a payment-only term adds an option keyed by its year, a placeholder year level and its semester exactly when no option names its year and semester, and changes nothing otherwise. Afterwards some option names it. |
| TermOptions.TermOptionsSorted | config/db_helpers.php:185-307 | the result is sorted by key descending with unique keys. It is empty for an unknown student. Otherwise it holds exactly the entries built from the history, the current term and the payment terms. |
| TermOptions.StudentTermOptions | config/db_helpers.php:185-307 | getStudentTermOptions; stated by TermOptions.TermOptionsSorted, TermOptions.CurrentMarked, TermOptions.PaymentTermRule and TermOptions.ProjectedAYCases |
| TermOptions.CollectHistory | config/db_helpers.php:245-261 | the history loop equals the history dictionary function |
| TermOptions.AddPaymentTerms | config/db_helpers.php:279-300 | the payment-term loop equals the payment-term function |
| TermOptions.GetStudentTermOptions | config/db_helpers.php:185-307 | the whole builder with its loops equals the term-options function |
| DbHelpers.CacheServesWithinHour | config/db_helpers.php:78-100 | after a fetch, an unforced call within 3600 seconds returns the fetched list whatever the table holds. From 3600 seconds on, the table is read and restamped. |
| DbHelpers.ForcedRefreshReads | config/db_helpers.php:84-97 | a forced refresh reads the table and stamps the session |
| DbHelpers.Session.GetCachedPrograms | config/db_helpers.php:78-100 | the returned list and the new session entries are the cache function's result on the old entries |
| DbHelpers.Session.ClearCache | config/db_helpers.php:105-108 | both entries are removed, so every following call reads the table |
| DbHelpers.Count | config/db_helpers.php:142-150 | the count never exceeds the number of rows |
| DbHelpers.DbExistsIff | config/db_helpers.php:174-176 | a record exists exactly when some row satisfies the condition |
| Fees.LatestRate | config/finance_helpers.php:14-18 | the chosen rate is an active rate of the program with the latest effective date. There is none exactly when no active rate of the program exists. |
| Fees.FirstFee | config/finance_helpers.php:28-34 | the fee returned is the first catalogue row with the code (and type); none is returned exactly when no row matches |
| Fees.ProgramTuitionRateResolves | config/finance_helpers.php:12-40 | the latest active program rate supplies both rates when one exists. Otherwise tuition comes from the first TUITION per_unit row or 800, and lab from the first LAB row or 2000, independently. |
| Fees.FixedNonLabAppend | config/finance_helpers.php:148-152 | the fixed-fee total is additive over the catalogue |
| Fees.LabRowIgnored | config/finance_helpers.php:149 | a LAB catalogue row never contributes to the fixed-fee total |
| Fees.TotalFixedFee | config/finance_helpers.php:148-153 | the loop's total is the non-LAB fixed fees plus the program lab fee |
| FinanceData.ProgramOf | config/finance_helpers.php:49-54 | no program is returned exactly when no student row has the id (a NULL program reads as 0) |
| Scholarship.ActiveAwards | config/finance_helpers.php:479-503 | the rows returned are exactly the student's Active awards of the term |
| Scholarship.AwardDiscount | config/finance_helpers.php:527-544 | a fixed award gives min(value, base). A well-formed fixed award stays within its base. An unknown applies_to gives 0. |
| Scholarship.AwardDiscountWithinBase | config/finance_helpers.php:539-544 | a well-formed award discounts between 0 and its base |
| Scholarship.TotalDiscountAppend | config/finance_helpers.php:555 | the total discount is additive over the award list |
| Scholarship.TotalDiscountNonNegative | config/finance_helpers.php:519-556 | with well-formed awards and non-negative charges the total discount is never negative |
| Scholarship.DiscountCanExceedCharges | config/finance_helpers.php:555-560 | two 60% awards on everything discount more than the whole charge: the total is not capped |
| Scholarship.DiscountLines | config/finance_helpers.php:546-553 | the breakdown has one line per award |
| Scholarship.SwitchComputesDiscount | config/finance_helpers.php:523-544 | the switch over applies_to and the type branch compute the award's discount |
| Scholarship.CalculateScholarshipDiscount | config/finance_helpers.php:516-562 | the loop's total and breakdown equal the total-discount and breakdown functions |
| LateFee.LateFeeConfig | config/finance_helpers.php:612-629 | with no active row the defaults apply (percentage, 5.00, 30 days, 25.00, month). Otherwise the first active row applies. |
| LateFee.Periods | config/finance_helpers.php:678-683 | per month the periods are the least p with days <= 30p, per week the least p with days <= 7p, otherwise 1 |
| LateFee.CalculateLateFee | config/finance_helpers.php:640-705 | the reason is "no balance" exactly when balance <= 0, "no enrollment" exactly when no due date can be derived, and "not yet overdue" exactly when today <= due. Only in the overdue case is a non-zero fee, day count or period count reported. When overdue, the day count is the number of whole days past the due day, the period count follows from it, and `maxFee` is max_penalty_percent of the balance rounded to centavos; otherwise `maxFee` is 0. |
| LateFee.Accrue | config/finance_helpers.php:678-698 | the overdue branch reports its day count, the periods for it and the rounded cap; its fee is stated by LateFee.AccrueValue |
| LateFee.AccrueValue | config/finance_helpers.php:685-698 | the fee is round(min(balance × fee_value / 100 × periods, balance × max_penalty_percent / 100), 2) under 'percentage', and round(min(fee_value × periods, that cap), 2) otherwise |
| LateFee.LateFeeIsAccrual | config/finance_helpers.php:668-698 | an overdue result is the accrual for its whole days late |
| LateFee.LateFeeValue | config/finance_helpers.php:685-698 | for every overdue term, calculateLateFee's fee is the per-period charge (fee_value percent of the balance, or fee_value) times the periods overdue, limited to max_penalty_percent of the balance and rounded to centavos |
| LateFee.FeeFigures | config/finance_helpers.php:685-694 | the capped fee written out in the configuration's fields, by fee type |
| LateFee.LateFeeCapped | config/finance_helpers.php:693-698 | the fee never exceeds the rounded cap of max_penalty_percent of the balance |
| LateFee.LateFeeNonNegative | config/finance_helpers.php:685-698 | with non-negative configuration values the fee is never negative |
| LateFee.RawFeeNonNegative | config/finance_helpers.php:686-691 | the uncapped fee is never negative for a non-negative balance and value |
| LateFee.PeriodsMonotone | config/finance_helpers.php:678-683 | more days overdue never means fewer periods |
| LateFee.RawFeeMonotone | config/finance_helpers.php:686-691 | more periods never mean a smaller uncapped fee |
| LateFee.LateFeeGrowsWithTime | config/finance_helpers.php:668-698 | for a fixed balance the fee never decreases as time passes |
| LateFee.DefaultConfigExample | config/finance_helpers.php:617-698 | with the defaults, 10000.00 overdue by 45 days accrues two 5% periods: 1000.00, below the 2500.00 cap |
| LateFee.SameDayOverdueChargesNothing | config/finance_helpers.php:671-680 | overdue by under a day counts 0 days and 0 periods, so the fee is 0 although the term is reported overdue |
| LateFee.GracePeriodExample | config/finance_helpers.php:651-662 | without a due date the due day is the first enrollment's day plus the 30-day grace period. Ten days past it, one 5% period accrues (500.00). |
| Ledger.ApplyCredit | config/finance_helpers.php:198-212 | credit is drawn only when both the pool and the net charge are positive, and then min(pool, net). The shown balance is net − paid − credit floored at 0. The pool never goes negative and moves by exactly what the term under- or overpaid. |
| Ledger.FoldRowTerms | config/finance_helpers.php:169-229 | row i of the ledger is the row of term i and carries that term's payments |
| Ledger.FoldTotals | config/finance_helpers.php:231-243 | the grand totals are the sums of the rows' net, paid and discount. The pool is never negative. The sum of the shown balances minus the pool equals net minus paid. |
| Ledger.FoldRowsSound | config/finance_helpers.php:198-212 | every row's balance and running credit are non-negative, and its credit applied is at most the pool left by earlier rows. Credit is applied only to a positive net, and never more than it. |
| Ledger.LedgerRowsAscending | config/finance_helpers.php:155-169 | there is one row per distinct term of the student, in strictly ascending (academic year, semester) order |
| Ledger.GrandBalanceIdentity | config/finance_helpers.php:236-244 | the reported balance is Σnet − Σpaid and equals the sum of the shown term balances minus the available credit. The available credit is the last row's running credit. Every row is sound. |
| Ledger.FactOfReads | config/finance_helpers.php:173-196 | a term's units exclude Dropped rows, tuition is units × rate, and the payments and awards are the term's own |
| Ledger.RowCharges | config/finance_helpers.php:182-212 | misc is the fixed-fee total exactly when units are positive, otherwise 0. Net is gross minus the award discount, with no floor. The credit step moves the pool by what the term under- or overpaid. |
| Ledger.CreditDrawnFromOverpayments | config/finance_helpers.php:198-212 | the credit drawn over all terms plus the credit left equals the total the terms overpaid |
| Ledger.ScenarioA | config/finance_helpers.php:180-206 | 15 units at 1000 plus 3000 of fixed fees, with no payment, shows 18000 due and no credit |
| Ledger.ScenarioB | config/finance_helpers.php:186-190 | a 50% tuition scholarship on that term discounts 7500 and nets 10500 |
| Ledger.ScenarioCD | config/finance_helpers.php:198-212 | overpaying the first term by 2000 shows it at 0 and carries 2000, which the next term draws (16000 due) |
| Ledger.NegativeNetFeedsPool | config/finance_helpers.php:190-212 | a net charge made negative by stacked awards is not floored: the excess and the payment feed the pool that a later term draws |
| Ledger.CarryCredit | config/finance_helpers.php:198-212 | the statements of the credit step compute the credit-step function |
| Ledger.ReadTermFacts | config/finance_helpers.php:173-196 | the term's queries return the facts the ledger function is defined on |
| Ledger.LedgerTermStep | config/finance_helpers.php:182-229 | one pass of the loop body builds the row the ledger function defines for that term |
| Ledger.LedgerLoop | config/finance_helpers.php:163-234 | the foreach over the terms yields exactly the fold whose totals, soundness and order are proved above |
| Ledger.CalculateAllTermsWithCarryForward | config/finance_helpers.php:140-248 | the whole function returns the ledger of the student's terms with the totals of the fold |
| Ledger.LedgerOf | config/finance_helpers.php:140-248 | calculateAllTermsWithCarryForward; stated by Ledger.FoldRowTerms, Ledger.FoldTotals, Ledger.FoldRowsSound, Ledger.LedgerRowsAscending, Ledger.GrandBalanceIdentity and Ledger.CreditDrawnFromOverpayments |
| Assessment.Charge | config/finance_helpers.php:301-305 | a term with no positive units costs nothing. Otherwise it costs tuition plus the whole fixed-fee total. |
| Assessment.StudentBalanceLoop | config/finance_helpers.php:285-306 | the foreach sums the charge of every listed term |
| Assessment.GetStudentBalance | config/finance_helpers.php:258-315 | the balance is the assessment of every term (Dropped rows included, no discount) minus all payments |
| Assessment.TermBalanceIgnoresDiscount | config/finance_helpers.php:357-371 | changing the scholarship awards never changes a term balance |
| Assessment.AssessedUnitsCoverBilled | config/finance_helpers.php:174-178 | the ledger's billed units never exceed the units the assessment functions count, which include Dropped rows |
| Assessment.DroppedCourseDiverges | config/finance_helpers.php:338-350 | a Dropped 3-unit course is assessed by getTermAssessment but billed nothing by the ledger |
| Assessment.BreakdownSumsToMisc | config/finance_helpers.php:786-805 | the lines of the misc breakdown sum to the non-LAB fixed fees plus the program lab fee |
| Assessment.FeeBreakdown | config/finance_helpers.php:786-805 | the fee loop's total and lines are the breakdown, and the total is what the lines sum to |
| Assessment.SummaryClassifies | config/finance_helpers.php:816-871 | misc is the full fixed total and net is gross minus the discount. The balance adds unwaived late fees and subtracts payments and applied credits. The amount due is never negative. An overpayment is reported exactly when the balance is negative, for its magnitude. The status is Paid exactly when the balance is not positive, and Overdue exactly when it is positive with days overdue. |
| Assessment.GetComprehensiveFinancialSummary | config/finance_helpers.php:778-873 | the summary's queries and arithmetic compute the summary function classified above |
| Assessment.SummaryChargesMiscAtZeroUnits | config/finance_helpers.php:817 | at zero billed units the summary charges the whole fixed-fee total while the ledger row charges none |
| Assessment.SummaryNetIsRowNet | config/finance_helpers.php:816-824 | given the same facts and positive units, the summary's net equals the ledger row's net |
| Assessment.SummaryNetMatchesLedger | config/finance_helpers.php:808-824 | for a term with positive billed units, the summary's net equals the ledger's net for that term |
| CreditStore.MarkApplied | config/finance_helpers.php:125-130 | exactly the records with the id become applied to the target term. Every other record is unchanged, and the table keeps its length. |
| CreditStore.SetAmount | config/finance_helpers.php:107-108 | exactly the records with the id get the new amount. Every other record is unchanged. |
| CreditStore.SumAmountMarkApplied | config/finance_helpers.php:125-130 | marking a record applied moves no money |
| CreditStore.SumAmountSetAmount | config/finance_helpers.php:107-108 | rewriting a record's amount changes the table total by the difference |
| CreditStore.CreditsMarkApplied | config/finance_helpers.php:125-130 | applying an unapplied record moves its amount from the student's unapplied credit to the target term's applied credit |
| CreditStore.FirstUnapplied | config/finance_helpers.php:101-103 | the record found is an unapplied record of the student with that source term, and the first in table order. None is found exactly when there is no such record. |
| CreditStore.RecordedOverwrites | config/finance_helpers.php:105-108 | an existing unapplied record for the source term keeps its id and place and now holds the new amount. Unapplied credit changes by the difference, and no term's applied credit changes. |
| CreditStore.RecordedInserts | config/finance_helpers.php:111-113 | otherwise one unapplied record with the next id is appended, and the next check finds it. Unapplied credit grows by the amount, and no applied credit changes. |
| CreditStore.Unapplied | config/finance_helpers.php:414-415 | the records kept are exactly the student's unapplied ones |
| CreditStore.SortBySource | config/finance_helpers.php:416 | the result is a permutation of the input ordered by source term, oldest first |
| CreditStore.Queue | config/finance_helpers.php:413-418 | the walked queue holds exactly the student's unapplied records, oldest source first, with distinct ids |
| CreditStore.ConsumeBalance | config/finance_helpers.php:444-445 | applied plus remaining is invariant over the walk |
| CreditStore.ConsumeConserves | config/finance_helpers.php:423-446 | the walk keeps ids unique and the table total unchanged. It moves exactly the applied amount from the student's unapplied credit to the target term's applied credit, and no other term's credit changes. |
| CreditStore.ConsumeOneSplit | config/finance_helpers.php:431-441 | a walk adds at most one record |
| CreditStore.ConsumeUntouched | config/finance_helpers.php:424 | the records after the break are untouched |
| CreditStore.ConsumeAppliedWhole | config/finance_helpers.php:428-430 | every visited record except possibly the last is applied whole to the target term |
| CreditStore.ConsumeExhausts | config/finance_helpers.php:423-446 | when a balance remains, every queued record was applied whole |
| CreditStore.TermBalanceShift | config/finance_helpers.php:357-371 | a term balance moves only with the credit applied to that term, in the opposite direction |
| CreditStore.ApplyAvailableSettles | config/finance_helpers.php:405-449 | applied plus remaining is the starting balance, and the target term's balance afterwards is the reported remainder. No other term's balance moves. The student's unapplied credit drops by the applied amount and the table total is unchanged. At most one record is added. |
| CreditStore.ApplyAvailableNothingDue | config/finance_helpers.php:407-411 | with nothing due it changes nothing and reports 0 applied and the balance as remaining |
| CreditStore.ApplyAvailableFifo | config/finance_helpers.php:413-446 | credit is taken oldest source first. Every visited record but the last is applied whole and the unvisited ones are untouched. When a balance remains, all were applied whole. |
| CreditStore.ApplyAvailable | config/finance_helpers.php:405-449 | applyAvailableCredits; stated by CreditStore.ApplyAvailableSettles, CreditStore.ApplyAvailableNothingDue and CreditStore.ApplyAvailableFifo |
| CreditStore.RecordedKeepsApplied | config/finance_helpers.php:99-114 | recording an overpayment changes no term's applied credit |
| CreditStore.ProcessTermRecords | config/finance_helpers.php:383-394 | an overpayment is reported exactly when the term balance is negative, for its magnitude, which is then held by the term's unapplied record. Otherwise nothing changes. |
| CreditStore.ProcessTermKeepsBalances | config/finance_helpers.php:383-394 | processing a term never changes any term's balance |
| CreditStore.ProcessTermIdempotent | config/finance_helpers.php:383-394 | processing the same term twice records nothing new |
| CreditStore.ProcessTerm | config/finance_helpers.php:383-394 | processTermOverpayment; stated by CreditStore.ProcessTermRecords, CreditStore.ProcessTermKeepsBalances and CreditStore.ProcessTermIdempotent |
| CreditStore.ReapplicationDrains | config/finance_helpers.php:125-130 | re-applying an already applied record to another term takes its whole amount off the term it was applied to |
| CreditStore.ReapplicationCredits | config/finance_helpers.php:125-130 | ... and adds it to the new term |
| CreditStore.OverpaymentStore.constructor | config/finance_helpers.php:99-114 | an empty, valid table whose next id is 1 |
| CreditStore.OverpaymentStore.RecordOverpayment | config/finance_helpers.php:99-114 | the table afterwards is the overwrite-or-insert update of the old table, and the ids stay valid |
| CreditStore.OverpaymentStore.ApplyOverpaymentCredit | config/finance_helpers.php:125-130 | the record with the id is marked applied to the term, whether or not it already was, and nothing else changes |
| CreditStore.OverpaymentStore.ProcessTermOverpayment | config/finance_helpers.php:383-394 | the table and the reported pair are those of the process-term function |
| CreditStore.OverpaymentStore.ApplyAvailableCredits | config/finance_helpers.php:405-449 | the table and the reported figures are those of the apply-available function whose settlement is proved above |
| CreditStore.OverpaymentStore.ConsumeQueue | config/finance_helpers.php:420-448 | the foreach with its break leaves the table and totals the walk function defines |
| CreditStore.OverpaymentStore.ApplyOne | config/finance_helpers.php:426-445 | a whole record is marked applied. Otherwise its amount is reduced and the applied part is inserted as a new applied record with the next id. |
| Tables.FindCourse | config/finance_helpers.php:174-177 | the joined curriculum row carries the enrollment's course id; none is found exactly when no row has that id |
| Tables.TermUnitsNonNegative | config/finance_helpers.php:174-180 | with non-negative course units the term's unit sum is never negative |
| Tables.TermUnitsMonotone | config/finance_helpers.php:292-299 | counting more statuses (the assessment functions add Dropped) never lowers a term's units |
| Tables.EnrollmentTerms | config/finance_helpers.php:156-160 | a term is listed exactly when some enrollment of the student, joined with its course and passing the status filter, is of that term |
| Tables.StudentTerms | config/finance_helpers.php:156-161 | SELECT DISTINCT ... ORDER BY gives each such term once, in strictly ascending (academic year, semester) order |
| Tables.FirstEnrolledAt | config/finance_helpers.php:653-657 | the result is the least enrolled_at over the student's rows of the term. It is NULL exactly when the term has no row. |
| Tables.TermPaidAppend | config/finance_helpers.php:193-196 | a new payment raises only its own term's paid total and the student's total, by its amount |
| Statement.AcceptPaymentEffect | pages/student_finance.php:15-29 | a payment is recorded only when its amount is positive. It then raises exactly its own term's paid total and the student's total by that amount. |
| Statement.SelectTermRules | pages/student_finance.php:82-102 | the all-terms key selects all terms and a known key selects its option. No key or an unknown key selects the first option (the current term, listed first). With no options, no term is selected. |
| Statement.LookupOfSpec | pages/student_finance.php:131-135 | the lookup holds every ledger term, each mapped to a ledger row of that term |
| Statement.SoaRowsFromLedger | pages/student_finance.php:137-161 | every statement row is a ledger row of an active term, and there is at most one per active term |
| Statement.SoaCoversActive | pages/student_finance.php:137-161 | every active term that has a ledger row contributes a statement row |
| Statement.SoaTotals | pages/student_finance.php:156-159 | the four grand totals are the sums of net, discount, paid and credit applied over the statement rows |
| Statement.LookupOfDistinct | pages/student_finance.php:131-135 | with distinct ledger terms, the lookup maps each row's term to that row |
| Statement.SoaOfWholeLedger | pages/student_finance.php:137-164 | when the active terms are exactly the ledger's distinct terms, the statement reproduces the ledger rows, and its balance is Σnet − Σpaid − Σcredit applied |
| Statement.SoaOf | pages/student_finance.php:137-161 | the statement foreach over the active terms; stated by Statement.SoaRowsFromLedger, Statement.SoaCoversActive, Statement.SoaTotals and Statement.SoaOfWholeLedger |
| Statement.AllTermsShowsLedger | pages/student_finance.php:105-164 | the all-terms statement shows every ledger row in ledger order, and its balance is Σnet − Σpaid − Σcredit applied |
| Statement.AllTermsDeductsCreditTwice | pages/student_finance.php:164 | the all-terms balance is the ledger's grand balance minus the credit applied, so applied credit is deducted twice |
| Statement.DoubleCountExample | pages/student_finance.php:164 | two terms whose balances sum to 16000 are shown as owing 14000 |
| Statement.OverpaymentShown | pages/student_finance.php:176-177 | an overpayment is shown exactly when the displayed balance is negative, for its magnitude |
| Statement.AvailableCredit | pages/student_finance.php:166-167 | the credit shown is the ledger's last running credit and is never negative; the persisted overpayment table is not consulted |
| Statement.BuildStatement | pages/student_finance.php:130-161 | the page's two loops build the lookup and then the statement that the lemmas above describe |
| Promotion.TrimLeftSpec | pages/edit_student.php:34-41 | the left trim removes exactly a blank prefix (space, tab, newline, carriage return, NUL, vertical tab), leaving a suffix that does not start with a blank |
| Promotion.TrimRightSpec | pages/edit_student.php:34-41 | the right trim removes exactly a blank suffix, leaving a prefix that does not end with a blank |
| Promotion.TrimIsSlice | pages/edit_student.php:34-41 | trim returns the slice of the input between a blank prefix and a blank suffix, and neither of its ends is blank |
| Promotion.ValidateMembers | pages/edit_student.php:48-58 | an error is in the list exactly when its own check failed |
| Promotion.ValidateReportsNames | pages/edit_student.php:49-50 | a missing first or last name is reported, and only then ("0" counts as missing, as in PHP's empty) |
| Promotion.ValidateReportsContact | pages/edit_student.php:51-53 | a missing email, an email filter_var rejects, and a missing date of birth are each reported, and only then |
| Promotion.ValidateReportsChoices | pages/edit_student.php:54-55 | a missing gender or a program id that is not positive is reported, and only then |
| Promotion.ValidateReportsRanges | pages/edit_student.php:56-58 | a year level outside 1..4, a semester outside 1..2 and a status other than Active, Inactive or Graduated are each reported, and only then |
| Promotion.ValidatePasses | pages/edit_student.php:48-58 | the field checks pass exactly when every field is acceptable; they never report a taken email |
| Promotion.CollectErrors | pages/edit_student.php:48-58 | appending check by check yields the validation list |
| Promotion.AllErrors | pages/edit_student.php:60-66 | the list is empty exactly when the fields pass and no other student has the email. A taken email is reported exactly when the fields pass and another student has it. |
| Promotion.FindStudent | pages/edit_student.php:15-27 | a profile is found exactly when a student row has the id |
| Promotion.LatestEnrollmentAY | pages/edit_student.php:83-89 | a year is found exactly when the student has an enrollment in a course of the current semester and year level, and it is the year of one of the enrollments |
| Promotion.SourceAY | pages/edit_student.php:82-95 | a non-empty year of the latest such enrollment is the source year; otherwise the system setting or the calendar year range is used |
| Promotion.GateForwardsWholeBalance | pages/edit_student.php:101-115 | a balance that rounds to 0 or below never gates. One that rounds above 20% of the assessment (rounded to cents) blocks. A forwarded amount is the whole positive balance, within the threshold and confirmed. |
| Promotion.CompleteTerm | pages/edit_student.php:120-122 | exactly the student's In Progress rows of the term become Completed; every other row is unchanged |
| Promotion.PassEnrolled | pages/edit_student.php:128-132 | each row is rewritten as the Enrolled-to-Passed update writes it, in place, and the table keeps its length |
| Promotion.PassEnrolledKeepsUnits | pages/edit_student.php:128-132 | turning Enrolled rows into Passed rows keeps every term's assessed units, since both statuses are counted |
| Promotion.SetProgramSame | pages/edit_student.php:138-142 | rewriting the program a student already has keeps the program the finance code resolves |
| Promotion.UpdateProfile | pages/edit_student.php:138-147 | exactly the student's row gets the new profile; every other row is unchanged |
| Promotion.TargetAYRule | pages/edit_student.php:155-165 | a rise in year level or a move from semester 2 to 1 lands one academic year after a well-formed system year. Any other move stays in the system year. |
| Promotion.RefusalsWriteNothing | pages/edit_student.php:21-137 | an unknown student, a failed check, a blocked move and a move awaiting confirmation leave every table as it was |
| Promotion.RejectedExactly | pages/edit_student.php:48-115 | a known student's edit is rejected exactly when a field check fails, the email is taken, or a change of year level or semester is over the threshold |
| Promotion.MoveRefusals | pages/edit_student.php:101-133 | only a blocked or unconfirmed move writes nothing, and only a blocked one is rejected. A clear or forwarded move completes the source term and passes its Enrolled rows. |
| Promotion.NoMoveNoGate | pages/edit_student.php:74-79 | with neither year level nor semester changed the profile is written and no payment, status, enrollment or overpayment changes |
| Promotion.MoveCompletesSourceTerm | pages/edit_student.php:117-133 | an error-free, ungated move completes the source term and turns its Enrolled rows into Passed |
| Promotion.ForwardingPairConserves | pages/edit_student.php:172-177 | the pair leaves the student's total payments unchanged; the source term's paid total rises by the amount and the target term's falls by it |
| Promotion.AssessmentFromInputs | config/finance_helpers.php:321-351 | two databases that agree on rates, fees, the student's program and the term's units assess the term alike |
| Promotion.CompleteApplyKeepBalance | pages/edit_student.php:117-147 | completing the term and rewriting the profile with the same program change no term balance |
| Promotion.ForwardSettlesSource | pages/edit_student.php:152-177 | a confirmed forward with the program unchanged and a distinct target term reports the whole positive source balance, leaves the source term's balance at 0, and keeps the student's total payments |
| Promotion.ForwardKeepsAssessment | pages/edit_student.php:172-177 | the pair changes no assessment |
| Promotion.ForwardOntoSourceCancels | pages/edit_student.php:155-177 | when the target term is the source term, the pair cancels out, although the page reports the balance as forwarded |
| Promotion.BoundAsInt | pages/edit_student.php:172-177 | the academic year as the INSERT binds it is a string of digits |
| Promotion.BoundAsIntOfAY | pages/edit_student.php:172-177 | a well-formed academic year is stored as its first year |
| Promotion.BoundAsIntExample | pages/edit_student.php:173 | "2025-2026" is stored as "2025" |
| Promotion.ForwardAsBoundMissesSource | pages/edit_student.php:172-177 | as the page binds it, the pair never lands on a well-formed source term: that term's payments and balance stay what they were |
| Promotion.HandlePost | pages/edit_student.php:33-198 | the handler's statements compute the POST function whose refusals, rejections and writes are stated above |
| Promotion.HandleMove | pages/edit_student.php:68-177 | the gate and writes of a move compute the move function |
| FinanceList.PageOf | pages/finance.php:11 | the page is at least 1, and is the requested page when that is at least 1 |
| FinanceList.TotalPages | pages/finance.php:42 | the page count is the least n with total ≤ 10n, so the last page is not empty |
| FinanceList.PagesPartition | pages/finance.php:11-56 | row k of the ordered list is on page k / 10 + 1 at position k mod 10. A page holds at most ten rows, and every row's page is within the page count. |
| FinanceList.WindowBounds | pages/finance.php:577-578 | the links run from max(1, page − 2) to min(last, page + 2): at most five, all existing, and an existing page is among its own links |
| FinanceList.ClassifyExactly | pages/finance.php:68-75 | Unpaid exactly when something is owed. Overpaid exactly when nothing is owed and the balance is negative or a credit is held. Clear exactly when the balance is 0 and no credit is held. |
| FinanceList.AnnotateRows | pages/finance.php:59-76 | each row of the array, in place, gets the student's balance, the unapplied credit and the status derived from them; nothing else changes |
| FinanceList.FilterKeepsMatching | pages/finance.php:80-85 | a status filter keeps exactly the rows with that status |
| FinanceList.FilterKeepsOrder | pages/finance.php:80-85 | the filter keeps the rows' order: filtering a concatenation concatenates the filtered parts |
| FinanceList.CountsCoverRows | pages/finance.php:88-93 | the three badges together count every listed row |
| FinanceList.StatusNameInjective | pages/finance.php:69-74 | the three status names are distinct, and none of them is a value that turns the filter off |
| FinanceList.FilteredCountsOneStatus | pages/finance.php:80-93 | with a status filter in force only that status's badge counts anything, and it counts every row shown |
| FinanceList.CountStatuses | pages/finance.php:88-93 | the badge loop yields the count of each status |
| Academics.CourseStatusExactly | config/academic_helpers.php:57 | a course is Passed exactly at grades up to 3.00, Conditional exactly above 3.00 up to 4.00, and Failed exactly above 4.00 |
| Academics.TermGraded | config/academic_helpers.php:32-41 | every selected row belongs to the requested term |
| Academics.TermGradedFrom | config/academic_helpers.php:32-38 | every selected row comes from an enrolment of the student in that term with a grade, joined to its course's units and code |
| Academics.TermStep | config/academic_helpers.php:48-66 | one more row adds its points to the weighted sum, its units to the total, its units to the passed units when graded 3.00 or better, and its line to the report |
| Academics.UnitsSplit | config/academic_helpers.php:61-74 | passed units plus the units above 3.00 make up the total, so failed_units is never negative |
| Academics.LinesFollowRows | config/academic_helpers.php:52-58 | the report has one line per graded row, in row order, carrying the row's code, units, grade and status |
| Academics.WeightedSumBounds | config/academic_helpers.php:60-61 | with every grade between two bounds the weighted sum lies between the bounds times the unit total |
| Academics.GpaWithinGrades | config/academic_helpers.php:68 | a GPA over positive units lies between the rounded lowest and highest grades |
| Academics.TermGpaOnScale | config/academic_helpers.php:68 | with grades on the 1.00 to 5.00 scale the term GPA is 0 with no units and lies on the scale otherwise |
| Academics.CalculateTermGPA | config/academic_helpers.php:31-77 | the loop's report equals the specification over the term's graded rows |
| Academics.InsertBySorted | config/academic_helpers.php:92 | inserting into an ordered list keeps it ordered |
| Academics.SortBySorted | config/academic_helpers.php:92 | the ORDER BY sort yields an ordered list |
| Academics.SortBy | config/academic_helpers.php:92 | sorting keeps exactly the same rows |
| Academics.EarlierTermIsStrictWeakOrder | config/academic_helpers.php:92 | ordering by academic year then semester is a strict weak order |
| Academics.CumulativeRowsOrdered | config/academic_helpers.php:86-95 | the cumulative rows are the selected Passed or Failed graded rows, reordered so that no row precedes a row of an earlier term |
| Academics.IndexOfTermSpec | config/academic_helpers.php:105-107 | a term's slot is the first entry with that key, or the end when no entry has it |
| Academics.AddToShape | config/academic_helpers.php:107-120 | adding a row creates the term's entry when missing and adds the points and units to that entry only |
| Academics.AddRowStep | config/academic_helpers.php:107-120 | after a row the term's entry exists and holds its previous sums plus the row |
| Academics.AccumulateTerms | config/academic_helpers.php:100-125 | the per-term list has an entry exactly for each term that occurs in the rows, and no term twice |
| Academics.AccumulateSumsAt | config/academic_helpers.php:119-120 | each term's entry holds the weighted sum and the units of exactly that term's rows |
| Academics.AccumulateSums | config/academic_helpers.php:119-120 | every entry of the per-term list holds its own term's sums |
| Academics.TermUnitsAddUp | config/academic_helpers.php:118-140 | the per-term unit sums add up to total_units, before and after the per-term GPA pass |
| Academics.CompletionRateBounds | config/academic_helpers.php:139 | the completion rate is a percentage, and 100 when every unit passed |
| Academics.SumByTerm | config/academic_helpers.php:97-125 | the loop's totals equal the weighted sum, units and passed units of the rows, and its per-term list equals the specification |
| Academics.SetTermGpas | config/academic_helpers.php:128-130 | the by-reference pass gives each term the GPA of its own sums |
| Academics.CalculateCumulativeGPA | config/academic_helpers.php:85-142 | the result equals the specification over the ordered cumulative rows |
| Academics.ActiveOnlySpec | config/academic_helpers.php:153-155 | the configurations read are exactly the active ones |
| Academics.ActiveConfigsSpec | config/academic_helpers.php:153-155 | the configurations read are the active ones in non-increasing priority |
| Academics.FirstMeeting | config/academic_helpers.php:171-188 | the loop stops at the first configuration whose GPA range and unit minimum are met, all earlier ones fail |
| Academics.FirstMeetingHighest | config/academic_helpers.php:171-188 | no configuration of strictly higher priority than the chosen one is met |
| Academics.StandingRule | config/academic_helpers.php:163-204 | with a non-zero GPA and a met active configuration, the standing is a met active configuration with no met configuration of higher priority |
| Academics.StandingDefault | config/academic_helpers.php:159-169 | GPA 0 yields Pending, and a non-zero GPA meeting no active configuration yields Good Standing |
| Academics.CssClassDefault | config/academic_helpers.php:191-203 | the default display class goes exactly to the standings outside the six known ones |
| Academics.DetermineAcademicStanding | config/academic_helpers.php:151-205 | the loop's standing equals the specification |
| Academics.UpsertRule | config/academic_helpers.php:227-253 | after the upsert a row with the key exists, every row with the key holds the new values, rows with other keys are untouched, and a row is added exactly when none had the key |
| Academics.UpdateAcademicStandingRule | config/academic_helpers.php:215-261 | no graded units returns false and writes nothing; otherwise the term's rows hold the term figures and the standing they earn, other students are untouched, and the student's record holds the cumulative GPA |
| Academics.UpdateAcademicStanding | config/academic_helpers.php:215-261 | updateAcademicStanding; stated by Academics.UpdateAcademicStandingRule: false and no write without graded units, otherwise the term's standing row is upserted and the student's row gets the cumulative GPA and the term's standing |
| Academics.UnmetSpec | config/academic_helpers.php:305-331 | the missing list holds exactly the unmet prerequisites |
| Academics.PrerequisiteRule | config/academic_helpers.php:294-341 | can_enroll holds exactly when every prerequisite is met, and the missing list holds exactly the unmet ones |
| Academics.RefusalCountsMissing | config/academic_helpers.php:333-335 | a refusal's message starts with the count of missing prerequisites |
| Academics.CheckPrerequisites | config/academic_helpers.php:284-342 | the loop's result equals the specification over the course's prerequisites |
| Academics.InterpretationOrdered | config/academic_helpers.php:381-399 | N/A exactly at 0, ratings never improve as the GPA grows, and the ratings agree with the course status thresholds |
| AcademicYear.NextAcademicYear | config/db_helpers.php:157-163 | a matching year advances both halves by one, anything else falls back to the current year and the next |
| AcademicYear.RenderParses | config/db_helpers.php:158-162 | two four-digit years rendered as a pair parse back to themselves |
| AcademicYear.ParseLeadingZeros | config/db_helpers.php:161 | the integer cast reads "0099-0100" as the years 99 and 100 |
| AcademicYear.DigitsValueInjective | config/db_helpers.php:161 | two equal-length digit strings with the same value are the same string |
| Common.StrLessIrreflexive | config/finance_helpers.php:160 | no string sorts before itself |
| Common.StrLessTransitive | config/finance_helpers.php:160 | the string order is transitive |
| Common.StrLessTotal | config/finance_helpers.php:160 | of two different strings one sorts first |
| Common.TermLessTransitive | config/finance_helpers.php:160 | ordering terms by academic year then semester is transitive |
| Common.TermLessTotal | config/finance_helpers.php:160 | of two different terms one comes first |
| Common.InsertTerm | config/finance_helpers.php:156-160 | inserting a term into a strictly ascending list keeps it strictly ascending and adds exactly that term |
| Common.SortedDistinct | config/finance_helpers.php:156-160 | SELECT DISTINCT with ORDER BY yields a strictly ascending list of exactly the terms present |
| Common.AscendingIsDistinct | pages/student_finance.php:108-112 | a strictly ascending list holds no term twice |
| Common.NatToString | config/academic_helpers.php:335 | PHP's rendering of a count is a non-empty digit string |
| Common.DigitsValueOfNatToString | config/db_helpers.php:161-162 | reading back the rendering of a number gives the number |
| Common.NatToStringLength | config/db_helpers.php:162 | a number between 10^k and 10^(k+1) renders with k + 1 digits |
| Money.Round2Close | config/finance_helpers.php:698 | round to two decimals moves an amount by at most half a centavo |
| Money.Round2Sign | config/finance_helpers.php:698 | rounding keeps the sign of an amount |
| Money.Round2Monotone | config/academic_helpers.php:68 | rounding preserves order |
| Money.Round2OfCents | config/finance_helpers.php:698 | an amount already in whole centavos is unchanged by rounding |
| Money.CeilDiv | config/finance_helpers.php:680-682 | ceil of a quotient by a positive divisor is the least integer whose multiple reaches the dividend |
| Enrollment.SchedulesOfSpec | pages/student_schedule_grades.php:52-53 | the course's schedule rows are exactly the rows with its curriculum id |
| Enrollment.FirstRecordSpec | pages/student_schedule_grades.php:78-79 | a record is found exactly when the student holds the course, and it is the first such row |
| Enrollment.SlotsOf | pages/student_schedule_grades.php:113-119 | the meetings list has one entry per schedule row, in order |
| Enrollment.TermSlotsSpec | pages/student_schedule_grades.php:113-119 | the current meetings are exactly those of the student's Enrolled courses of that academic year and semester |
| Enrollment.FirstFullSpec | pages/student_schedule_grades.php:102-109 | no full row is found exactly when no row is full, and a found row is a full row of the course |
| Enrollment.FindFull | pages/student_schedule_grades.php:102-109 | the capacity loop with its break finds the first full row |
| Enrollment.FirstClashSpec | pages/student_schedule_grades.php:121-132 | no clash is found exactly when no new meeting overlaps a current one, and a found clash names the day of an overlapping pair |
| Enrollment.FindClash | pages/student_schedule_grades.php:121-132 | the nested loop with its break 2 finds the first clash |
| Enrollment.FullIffNoSeats | pages/student_schedule_grades.php:102-108 | the capacity check passes exactly when every row of the course has a seat left |
| Enrollment.ClashIffTimeClash | pages/student_schedule_grades.php:111-132 | the clash scan finds something exactly when a meeting of the course overlaps a current meeting of its semester |
| Enrollment.AdmissionRule | pages/student_schedule_grades.php:42-138 | a course is admitted exactly when it is not yet held, its year level is reached, its prerequisite is passed, it has seats and it clashes with nothing |
| Enrollment.AdmissionOrder | pages/student_schedule_grades.php:46-135 | each refusal reason is reported only when every earlier check passed and its own check failed |
| Enrollment.EnrollAction | pages/student_schedule_grades.php:38-163 | the enroll action; stated by Enrollment.AdmissionRule, Enrollment.AdmissionOrder, Enrollment.InProgressRule and Enrollment.RefusalWritesNothing |
| Enrollment.InProgressRule | pages/student_schedule_grades.php:144-154 | afterwards the term's status row exists and every row with the key is In Progress; a row is added exactly when none had the key, and other rows are untouched |
| Enrollment.WithoutSpec | pages/student_schedule_grades.php:30-31 | the delete keeps exactly the rows that are not the student's records of the course |
| Enrollment.DropRule | pages/student_schedule_grades.php:23-37 | a drop keeps seat counts non-negative and leaves the student without the course |
| Enrollment.DropUndoesEnroll | pages/student_schedule_grades.php:23-31 | dropping a course just admitted restores the enrollments and the seat counts |
| Enrollment.DropAction | pages/student_schedule_grades.php:23-37 | the drop action; stated by Enrollment.DropRule and Enrollment.DropUndoesEnroll |
| Enrollment.RefusalWritesNothing | pages/student_schedule_grades.php:46-138 | a refused enroll request leaves every table unchanged |
| Enrollment.CodeBeforeIsStrictWeakOrder | pages/student_schedule_grades.php:181 | ordering by course code is a strict weak order |
| Enrollment.OfferedSpec | pages/student_schedule_grades.php:172-180 | the available courses are exactly the program's courses of that year level and semester the student does not hold |
| Enrollment.AvailableSpec | pages/student_schedule_grades.php:172-182 | the available courses are exactly those, in course-code order |
| Enrollment.RunBatchSnoc | pages/student_schedule_grades.php:188-272 | one more course of the batch is one more step of the batch |
| Enrollment.BatchAccounts | pages/student_schedule_grades.php:184-272 | every course of the batch is counted as enrolled or failed, every failure leaves exactly one reason, and the rows added are Enrolled rows of the student and year for courses of the batch |
| Enrollment.BatchSeesEarlierCourses | pages/student_schedule_grades.php:207-247 | a batch of two clashing courses enrols the first and refuses the second as a conflict, because the checks re-read the table |
| Enrollment.BatchAdmitsFirst | pages/student_schedule_grades.php:251-264 | the first course of the demo batch is admitted into empty tables |
| Enrollment.BatchRefusesSecond | pages/student_schedule_grades.php:228-247 | with the first course admitted the second is refused as a conflict |
| Enrollment.EnrollAllAction | pages/student_schedule_grades.php:164-288 | the enroll_all action; stated by Enrollment.BatchAccounts and Enrollment.BatchSeesEarlierCourses |
| Enrollment.LoweredAllCounts | pages/student_schedule_grades.php:315-317 | each schedule row loses one seat per occurrence of its course among the targets, floored at 0 |
| Enrollment.WithoutAllSpec | pages/student_schedule_grades.php:325-328 | the deletes keep exactly the rows that are not the student's records of a target course |
| Enrollment.DropAllRule | pages/student_schedule_grades.php:290-330 | with valid parameters the remaining enrollments are exactly those outside the term's Enrolled targets |
| Enrollment.DropAllAction | pages/student_schedule_grades.php:290-335 | the drop_all action; stated by Enrollment.DropAllRule and Enrollment.WithoutAllSpec |
| Enrollment.Registrar.Decide | pages/student_schedule_grades.php:42-136 | the checks of the enroll action reach the admission verdict |
| Enrollment.Registrar.Enroll | pages/student_schedule_grades.php:38-163 | the enroll action's new tables and message are the specification's |
| Enrollment.Registrar.Drop | pages/student_schedule_grades.php:23-37 | the drop action's new tables are the specification's |
| Enrollment.Registrar.CheckCourse | pages/student_schedule_grades.php:193-249 | the batch's checks of one course reach the batch verdict |
| Enrollment.Registrar.BatchCourse | pages/student_schedule_grades.php:188-271 | one iteration of the batch performs one batch step |
| Enrollment.Registrar.EnrollAll | pages/student_schedule_grades.php:164-288 | the enroll_all action's tables, counters, reasons and message are the specification's |
| Enrollment.Registrar.DropAll | pages/student_schedule_grades.php:290-335 | the drop_all action's tables and message are the specification's |
| ReEnroll.AboveTransitive | pages/enroll_student.php:32 | ordering history rows by academic year then year level, both descending, is transitive |
| ReEnroll.LatestSpec | pages/enroll_student.php:28-33 | a latest row exists exactly when the history is non-empty, and no history row sorts before it |
| ReEnroll.ProposeAY | pages/enroll_student.php:24-42 | the for loop's year equals the proposed year |
| ReEnroll.ProposedAYDefaults | pages/enroll_student.php:24-42 | with no history, or no history row below the student's year level, the proposal is the system year |
| ReEnroll.ProposedAYAdvances | pages/enroll_student.php:35-40 | a student n year levels above the latest enrolment is proposed the system year with both halves advanced by n |
| ReEnroll.ProposedAYIsAdvance | pages/enroll_student.php:35-40 | above the latest year level the proposal is the system year advanced once per level |
| ReEnroll.CheckCapacity | pages/enroll_student.php:67-77 | the capacity loop reports a full course exactly when some submitted course has a full schedule row |
| ReEnroll.NewRowsSnoc | pages/enroll_student.php:110-118 | one more submitted course appends its Enrolled row |
| ReEnroll.ConfirmEnrollment | pages/enroll_student.php:56-151 | the transaction's outcome, new tables and message are the specification's |
| ReEnroll.YearRowsAppend | pages/enroll_student.php:86-100 | selecting and deleting the year's rows distribute over concatenation |
| ReEnroll.WithoutYearSpec | pages/enroll_student.php:100 | after the delete no row of the student and year is left, and deleting again changes nothing |
| ReEnroll.NewRowsOfYear | pages/enroll_student.php:104-113 | every inserted row is a row of the student and year |
| ReEnroll.BumpedAllCounts | pages/enroll_student.php:107-117 | each schedule row gains one seat per occurrence of its course among the submitted ones |
| ReEnroll.ConfirmRollsBack | pages/enroll_student.php:56-150 | anything but a commit leaves every table unchanged, and the rollback happens exactly when some submitted course has a full row |
| ReEnroll.ConfirmReplaces | pages/enroll_student.php:79-118 | with no full course the transaction commits, the year's rows are exactly the submitted courses, and other rows are kept |
| ReEnroll.ReplacedYearRows | pages/enroll_student.php:100-113 | after the delete and the inserts the year's rows are the new ones |
| ReEnroll.ReplacedOtherRows | pages/enroll_student.php:100-113 | rows of other years and students survive the replacement |
| ReEnroll.CommittedEnrollments | pages/enroll_student.php:93-118 | the committed enrollments are the kept rows followed by the new ones |
| ReEnroll.ExistingIdsEmpty | pages/enroll_student.php:93-101 | with no rows of the year nothing is deleted |
| ReEnroll.ExistingIdsSpec | pages/enroll_student.php:86-91 | the existing ids are exactly the courses of the student's rows of the year |
| ReEnroll.ConfirmCounts | pages/enroll_student.php:93-117 | on commit each schedule row loses one seat, floored at 0, when the year held its course, and then gains one per submitted occurrence |
| ReEnroll.Confirm | pages/enroll_student.php:56-150 | the confirmation POST handler; stated by ReEnroll.ConfirmRollsBack, ReEnroll.ConfirmReplaces, ReEnroll.ReplacedOtherRows and ReEnroll.ConfirmCounts |
| ReEnroll.PrereqIssuesSnoc | pages/enroll_student.php:170-181 | one more course adds its prerequisite message exactly when it cannot be enrolled |
| ReEnroll.CheckCourses | pages/enroll_student.php:170-181 | the prerequisite loop's issues equal the specification |
| ReEnroll.ScanCourseSnoc | pages/enroll_student.php:205-218 | one more meeting adds a full note exactly when it is full, and always adds its block |
| ReEnroll.ScanCourse | pages/enroll_student.php:205-218 | the inner loop's notes and blocks equal the specification |
| ReEnroll.CollectBlocks | pages/enroll_student.php:203-222 | the outer loop's notes and blocks equal the specification |
| ReEnroll.BuildView | pages/enroll_student.php:161-247 | the page's view equals the specification |
| ReEnroll.UniqueSpec | pages/enroll_student.php:244 | array_unique keeps every conflict text once and nothing else |
| ReEnroll.CourseNotesSpec | pages/enroll_student.php:207-210 | a course's notes are exactly one per full meeting |
| ReEnroll.FullNotesSpec | pages/enroll_student.php:203-222 | there is a note for exactly each full meeting of a shown course |
| ReEnroll.BlocksSpec | pages/enroll_student.php:212-217 | there is a block for exactly each meeting of a shown course |
| ReEnroll.ConflictsRule | pages/enroll_student.php:203-244 | the conflicts are exactly the full notes and the overlaps of pairs i < j of different course codes, each once |
| ReEnroll.EnrollableSpec | pages/enroll_student.php:370-376 | the submitted courses are exactly the shown courses whose prerequisites are met |
| ReEnroll.EnrollableNonEmpty | pages/enroll_student.php:414 | something is submitted exactly when some shown course has its prerequisites met |
| ReEnroll.GateRule | pages/enroll_student.php:413-417 | enrolment is offered exactly when there are no conflicts and some course can be enrolled |
| ReEnroll.FullCourseReported | pages/enroll_student.php:207-210 | a full meeting of a submitted course always shows up as a conflict |
| ReEnroll.ViewOf | pages/enroll_student.php:161-247 | the page's courses, issues, conflicts, submitted courses and confirm button; stated by ReEnroll.ConflictsRule, ReEnroll.EnrollableSpec, ReEnroll.GateRule and ReEnroll.FullCourseReported |
| ReEnroll.OfferCommits | pages/enroll_student.php:56-118 | when the page offers enrolment, confirming it commits and the year's rows become the submitted courses |
| ScheduleView.IndexOfGroup | pages/student_schedule_grades.php:493-494 | a course's group is the first entry with its id, or the end when it has none yet |
| ScheduleView.FirstRowOfSome | pages/student_schedule_grades.php:492-506 | a course has a first row exactly when some row is of that course |
| ScheduleView.GroupedSnoc | pages/student_schedule_grades.php:492-517 | one more row appends its meeting to its course's group, or opens a new group with the row's header |
| ScheduleView.GroupedDistinct | pages/student_schedule_grades.php:494-506 | no two groups are of the same course |
| ScheduleView.GroupedCovers | pages/student_schedule_grades.php:492-506 | every course with a row has a group |
| ScheduleView.GroupedHeaders | pages/student_schedule_grades.php:492-517 | each group's header is that of its course's first row and its meetings are those of all its course's rows, in order |
| ScheduleView.MeetingsOfAbsent | pages/student_schedule_grades.php:510-516 | a course without rows has no meetings |
| ScheduleView.GroupSchedules | pages/student_schedule_grades.php:490-522 | the loop's groups equal the specification, and total_units sums each course once, or the course list's units when no schedule row exists |
| ScheduleView.GroupUnitsUpdate | pages/student_schedule_grades.php:510 | adding a meeting to a group leaves the unit total unchanged |
| ScheduleView.AgainstMeetingsSpec | pages/student_schedule_grades.php:536-548 | the innermost loop lists exactly the meetings of the second course that overlap the first course's meeting |
| ScheduleView.AgainstGroupsSpec | pages/student_schedule_grades.php:527-549 | one meeting is listed against exactly the overlapping meetings of the courses it is compared with |
| ScheduleView.FromMeetingsSpec | pages/student_schedule_grades.php:526-550 | a course's entries are exactly the listed clashes of its meetings |
| ScheduleView.ConflictListSpec | pages/student_schedule_grades.php:525-551 | the conflict list holds exactly the listed clashes of every pair of compared courses |
| ScheduleView.ConflictsRule | pages/student_schedule_grades.php:525-551 | every conflict pairs a lower course id with a higher one of the same academic year and semester, on one day |
| ScheduleView.ScanMeetings | pages/student_schedule_grades.php:536-548 | the innermost loop's entries equal the specification |
| ScheduleView.ScanGroups | pages/student_schedule_grades.php:527-549 | the third loop's entries equal the specification |
| ScheduleView.ScanCourse | pages/student_schedule_grades.php:526-550 | the second loop's entries equal the specification |
| ScheduleView.ListConflicts | pages/student_schedule_grades.php:525-551 | the four nested loops produce the specification's conflict list |
| ScheduleView.CountedStep | pages/student_schedule_grades.php:618-623 | one more row adds its units, points and one completion exactly when it is Passed with a grade |
| ScheduleView.CountedSpec | pages/student_schedule_grades.php:619 | the counted rows are exactly the Passed rows with a grade |
| ScheduleView.GwaWithinGrades | pages/student_schedule_grades.php:634 | the GWA is null exactly when no units are counted, and otherwise lies between the rounded lowest and highest grades |
| ScheduleView.GwaOfSums | pages/student_schedule_grades.php:634 | the rounded quotient of the counted sums is the GWA |
| ScheduleView.Gwa | pages/student_schedule_grades.php:616-634 | the loop's GWA and completed count are those of the counted rows |
| ConflictCheck.RowsOf | api/check_student_conflicts.php:16-21 | one fetched row per schedule row of a course, carrying its code and meeting |
| ConflictCheck.RowBeforeIsStrictWeakOrder | api/check_student_conflicts.php:21 | ordering by day then start time is a strict weak order |
| ConflictCheck.FetchedRows | api/check_student_conflicts.php:16-23 | the fetched rows are exactly the joined rows of the student's Enrolled courses of the year, ordered by day then start time |
| ConflictCheck.CheckStudentConflicts | api/check_student_conflicts.php:6-46 | the endpoint's loops produce the specified response |
| ConflictCheck.ResponseRule | api/check_student_conflicts.php:6-44 | a missing student id or year gives the error and nothing else; otherwise an entry is listed exactly for each overlapping pair i < j, and there are at most n(n-1)/2 entries |
| ConflictCheck.OverlapsListed | api/check_student_conflicts.php:31-44 | the scan lists exactly the overlapping pairs i < j |
| ConflictCheck.OverlapsCounted | api/check_student_conflicts.php:31-44 | the scan lists at most n(n-1)/2 entries |
| ConflictCheck.SameCourseReported | api/check_student_conflicts.php:31-44 | two identical meetings of the same course are reported as a conflict, because the endpoint does not compare course codes |
| ConflictCheck.Respond | api/check_student_conflicts.php:6-44 | the endpoint's JSON response; stated by ConflictCheck.ResponseRule, ConflictCheck.OverlapsListed, ConflictCheck.OverlapsCounted and ConflictCheck.SameCourseReported |
| Timetable.ClashRule | api/check_student_conflicts.php:26-29 | meetings on different days never clash, clashing is symmetric, and touching meetings do not clash |
| Timetable.ClashContained | api/check_student_conflicts.php:26-29 | a non-empty meeting clashes with itself and with any meeting of the same day that contains it |
| Timetable.HitsAfterSpec | api/check_student_conflicts.php:33-43 | the inner loop finds exactly the later rows that hit row i |
| Timetable.HitsSpec | api/check_student_conflicts.php:32-44 | the scan finds exactly the pairs i < j whose rows hit |
| Timetable.ReportedSpec | api/check_student_conflicts.php:32-44 | the scan reports exactly one entry built from each hit pair i < j |
| Timetable.ReportedAppend | api/check_student_conflicts.php:35-41 | the reported entries of two runs of pairs are the two runs' entries in turn |
| Timetable.HitsAfterOrdered | api/check_student_conflicts.php:33 | the inner loop's pairs come out by increasing j |
| Timetable.HitsOrdered | api/check_student_conflicts.php:32-33 | the pairs come out in strictly increasing (i, j) order |
| Timetable.HitsOnce | api/check_student_conflicts.php:32-33 | no pair is reported twice, nor once in each orientation |
| Timetable.HitsLength | api/check_student_conflicts.php:32-33 | at most one entry per unordered pair of rows |
| Timetable.ScanAfter | api/check_student_conflicts.php:33-43 | the inner loop's entries equal the specification |
| Timetable.ScanPairs | api/check_student_conflicts.php:31-44 | the two nested loops' entries equal the specification |
| Validator.CleanConcat | js/app.js:56 | a concatenation has only `[^\s@]` characters exactly when both parts do |
| Validator.IndexOf | js/app.js:56 | the first position of a character, or the end when it does not occur |
| Validator.DomainMatchesPattern | js/app.js:56 | the domain check holds exactly when the domain is a run, a dot and a run |
| Validator.EmailValidMatches | js/app.js:55-58 | an accepted email matches `^[^\s@]+@[^\s@]+\.[^\s@]+$` |
| Validator.EmailPatternValid | js/app.js:55-58 | an email matching the pattern is accepted |
| Validator.EmailMatchesPattern | js/app.js:55-58 | an email is accepted exactly when the whole string matches the pattern |
| Validator.IsValidEmail | js/app.js:55-58 | isValidEmail; its properties are stated by Validator.EmailMatchesPattern: accepted exactly when the whole string matches `^[^\s@]+@[^\s@]+\.[^\s@]+$` |
| Validator.Strip | js/app.js:68 | the stripped phone holds no whitespace and no hyphen |
| Validator.StripAppend | js/app.js:68 | stripping distributes over concatenation |
| Validator.PhoneRule | js/app.js:65-69 | a phone is valid exactly when it is missing or empty, or stripped of whitespace and hyphens it is 09 or +639 followed by nine digits |
| Validator.SeparatorsIgnored | js/app.js:68 | a space or hyphen typed into a non-empty phone makes no difference |
| Validator.IsValidPhone | js/app.js:65-69 | isValidPhone; stated by Validator.PhoneRule (missing or empty, or 09 / +639 plus nine digits once whitespace and hyphens are stripped) and Validator.SeparatorsIgnored |
| Validator.TrimStart | js/app.js:77 | trimming the start removes exactly the leading whitespace |
| Validator.TrimEnd | js/app.js:77 | trimming the end removes exactly the trailing whitespace |
| Validator.RequiredRule | js/app.js:76-78 | a value is required-valid exactly when it is present and holds a non-whitespace character |
| Validator.IsRequired | js/app.js:76-78 | isRequired; stated by Validator.RequiredRule: present and holding a non-whitespace character |
| Validator.BirthDateBounds | js/app.js:85-95 | read as calendar dates, a birth date is accepted exactly when it is at most the date 15 years back and at least the date 100 years back, and it equals the latter only when the clock reads midnight |
| Validator.BirthDateAges | js/app.js:85-95 | away from a leap day, an accepted birth date gives an age of 15 to 100 years |
| Validator.HundredthBirthdayAfterMidnight | js/app.js:87-94 | "1924-06-10" is accepted at midnight on 10 June 2024 and refused at 10:00 the same day |
| Validator.IsValidBirthDate | js/app.js:85-95 | isValidBirthDate, comparing Date instants: the parsed date at midnight against the clock's instant moved back 15 and 100 years with its time of day kept; stated by Validator.BirthDateBounds, Validator.BirthDateAges, Validator.LeapDayAdmitsFourteen and Validator.HundredthBirthdayAfterMidnight |
| Validator.LeapDayAdmitsFourteen | js/app.js:89-94 | on 29 February setFullYear rolls over to 1 March, so a 14-year-old is accepted |
| Performance.LastN | js/app.js:397-398 | the last n entries of a history, or all of them when there are fewer |
| Performance.PushedKeepsLast | js/app.js:391-398 | a push onto a history of at most ten keeps the last ten entries of the history and the new one, ending with the new one |
| Performance.LastNSnoc | js/app.js:391-398 | trimming before a push gives the same as trimming after it |
| Performance.ReplayKeepsLast | js/app.js:383-399 | any sequence of loads leaves the last ten entries of everything recorded |
| Performance.Pushed | js/app.js:391-398 | one page load pushed onto the stored list with the oldest shifted off past ten; stated by Performance.PushedKeepsLast and Performance.ReplayKeepsLast |
| Performance.PageTimeLog.Record | js/app.js:386-399 | one load stores the time loadEventEnd minus navigationStart and keeps the last ten entries |

## Left out

- Database plumbing: connections, prepared statements, `db_query` failures (a failed query is modelled as never happening; the source's `$result ? ... : []` fallbacks are not), `logError`, and transactions other than the rollback of `pages/enroll_student.php`.
- Concurrency and isolation: every page is one sequential step over the tables; two requests never interleave.
- Clocks: `date('Y')`, `time()`, `new DateTime()`, `new Date()` and `NOW()` are parameters; `created_at`, `applied_date` and `updated_at` timestamps carry no meaning in the model.
- Binary floating point: money and grades are exact `real`s with PHP's `round` written out; IEEE rounding and float `==` are not modelled.
- Request parsing: `intval`, `floatval`, `trim` of POST fields and PHP's loose comparisons are modelled only where a branch depends on them (`empty("0")`, the `(int)` cast of a year); form fields arrive already typed.
- Rendering: HTML, messages' surrounding markup, `formatDay`/`formatTime`, redirects and JSON encoding; message texts are modelled where the source's logic builds them.
- `js/app.js` beyond the validators and the page-time buffer: DOM handling, `Toast`, `debounce`/`throttle`, `fetch`, and the JSON round trip through `sessionStorage` (the buffer is kept as a sequence).
- Validator.IsValidBirthDate: the browser's time zone is taken as UTC. In another zone `new Date("YYYY-MM-DD")` (midnight UTC) falls on a different local time, which moves both age edges by up to a day; the model does not capture this.
- SQL ordering: `ORDER BY` on strings (course codes in `Enrollment.AvailableSpec`, day and start time in `ConflictCheck.FetchedRows`) and string comparison are modelled as code-point order (`Common.StrLess`). MySQL collations (case-insensitive, accent-folding) are not captured, and neither is the declaration order an ENUM `day_of_week` column would sort by. No schema is part of this model to settle which applies.
- Validator.BirthDateAges: stated for every day but 29 February, because on that day `setFullYear` rolls over to 1 March and a 14-year-old is accepted (`Validator.LeapDayAdmitsFourteen`); `new Date(dateStr)` parsing is a parameter.
- pages/finance.php search and program filters: the `LIKE` search and program filter are applied by the database before `LIMIT`; the model takes the filtered, ordered list as input. The status filter runs after `LIMIT`, on the ten rows of the page, and the counts cover only those rows, which is what the model states.
- pages/enroll_student.php `has_conflicts` and the `total_units` POST field: the flag only feeds the page's markup, and the posted unit total is stored unvalidated in a new semester-status row.
- Promotion.BoundAsInt: reads the leading decimal digits of the string, as PHP's integer cast does for these inputs; leading whitespace, signs and overflow are not modelled.
- `getStudentOverpayments`, `getAcademicStandingHistory`, `getCoursePrerequisites`, `getDependentCourses` and `getClassGradeDistribution`: plain listing or aggregate queries with no decision of their own; checkPrerequisites' own join is modelled.

## Findings

| source | as written | input that shows it | evidently intended | confidence | as-written member | corrected member |
|---|---|---|---|---|---|---|
| pages/edit_student.php:172-177 | the forwarding INSERTs bind the academic year with type `i`, so "2025-2026" is stored as "2025" | a confirmed promotion that forwards a balance of a student whose source term is 2025-2026 | the +amount payment stored under the full source academic year and the -amount payment under the full target academic year, settling the source term and charging the target term | high (mysqli casts an `i` parameter to an integer); not executed | Promotion.ForwardAsBoundMissesSource | Promotion.ForwardSettlesSource |
