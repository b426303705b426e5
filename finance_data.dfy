/** The tables the finance functions read, bundled, and the lookups every
    one of them starts with: the student's program, the resolved rates and
    the per-term fixed-fee total. */
module FinanceData {
  import opened Common
  import opened Tables
  import opened Fees
  import opened Scholarship
  import opened LateFee

  /** A students row, reduced to what the finance code reads. */
  datatype StudentRow = StudentRow(id: int, programId: Option<int>)

  datatype Db = Db(
    students: seq<StudentRow>,
    rates: seq<ProgramRate>,
    fees: seq<Fee>,
    courses: seq<Course>,
    enrollments: seq<Enrollment>,
    payments: seq<Payment>,
    awards: seq<AwardRow>,
    lateFees: seq<LateFeeRow>,
    lateFeeConfigs: seq<Config>)

  /** getStudentProgramId: the first matching student's program, with a
      NULL program read as 0 by intval; no student gives no program. */
  function ProgramOf(students: seq<StudentRow>, sid: int): (r: Option<int>)
    ensures r.None? <==> forall s :: s in students ==> s.id != sid
    decreases |students|
  {
    if students == [] then None
    else if students[0].id == sid then
      Some(if students[0].programId.Some? then students[0].programId.value else 0)
    else ProgramOf(students[1..], sid)
  }

  function StudentRates(db: Db, sid: int): Rates {
    ProgramTuitionRate(db.rates, db.fees, ProgramOf(db.students, sid))
  }

  /** The non-LAB fixed fees plus the program lab fee. */
  function FixedTotal(db: Db, sid: int): real {
    FixedNonLab(db.fees) + StudentRates(db, sid).labFee
  }
}
