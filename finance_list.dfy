/** The finance list page (pages/finance.php, lines 10-93 and 577-578):
    pagination, the Unpaid / Clear / Overpaid classification written into
    each listed row, the status filter, the status counts and the window of
    page links. */
module FinanceList {
  import opened Common
  import opened Money
  import opened Tables
  import opened FinanceData
  import Assessment

  // ---------------------------------------------------------------
  // Pagination
  // ---------------------------------------------------------------

  const PageSize: int := 10

  /** The requested page, at least 1; page 1 when none is given. */
  function PageOf(requested: Option<int>): (page: int)
    ensures page >= 1
    ensures requested.Some? && requested.value >= 1 ==> page == requested.value
  {
    if requested.Some? then (if requested.value > 1 then requested.value else 1) else 1
  }

  function Offset(page: int): int {
    (page - 1) * PageSize
  }

  function TotalPages(total: nat): (n: int)
    ensures n >= 0
    ensures (n - 1) * PageSize < total <= n * PageSize
  {
    CeilDiv(total, PageSize)
  }

  /** The rows LIMIT 10 OFFSET offset returns from the filtered, ordered
      student list. */
  function PageRows<T>(rows: seq<T>, page: int): seq<T>
    requires page >= 1
  {
    var lo := if Offset(page) < |rows| then Offset(page) else |rows|;
    var hi := if Offset(page) + PageSize < |rows| then Offset(page) + PageSize else |rows|;
    rows[lo..hi]
  }

  /** Every row of the ordered list is on exactly the page its position
      says, at most ten rows are on a page, and the pages up to the last
      one cover the whole list. */
  lemma PagesPartition<T>(rows: seq<T>, page: int, k: int)
    requires page >= 1 && 0 <= k < |rows|
    ensures page == k / PageSize + 1 ==> rows[k] == PageRows(rows, page)[k - Offset(page)]
    ensures |PageRows(rows, page)| <= PageSize
    ensures k / PageSize + 1 <= TotalPages(|rows|)
    ensures Offset(page) >= 0 && Offset(page) % PageSize == 0
  {
    var n := TotalPages(|rows|);
    assert k / PageSize < n by {
      assert k < n * PageSize;
    }
  }

  /** The page links: two either side of the current page, clipped to the
      existing pages. */
  function Window(page: int, totalPages: int): (int, int) {
    (if page - 2 > 1 then page - 2 else 1, if totalPages < page + 2 then totalPages else page + 2)
  }

  /** Every link names an existing page and at most five are shown; a page
      that exists is among its own links. */
  lemma WindowBounds(page: int, totalPages: int)
    requires page >= 1
    ensures var (lo, hi) := Window(page, totalPages);
      lo >= 1 && hi <= totalPages && hi - lo <= 4
      && (page <= totalPages ==> lo <= page <= hi)
      && (page <= totalPages ==> (hi == totalPages || hi == page + 2) && (lo == 1 || lo == page - 2))
  {
  }

  // ---------------------------------------------------------------
  // Classification
  // ---------------------------------------------------------------

  datatype Status = Unpaid | Clear | Overpaid

  function StatusName(s: Status): string {
    match s
    case Unpaid => "Unpaid"
    case Clear => "Clear"
    case Overpaid => "Overpaid"
  }

  /** The status from the balance and the persisted unapplied credit. */
  function Classify(balance: real, credits: real): Status {
    if balance > 0.0 then Unpaid
    else if balance < 0.0 || credits > 0.0 then Overpaid
    else Clear
  }

  /** Each student gets exactly one status: Unpaid iff something is owed,
      Overpaid iff nothing is owed and there is a negative balance or a
      credit, Clear iff the balance is zero and there is no credit. */
  lemma ClassifyExactly(balance: real, credits: real)
    ensures Classify(balance, credits) == Unpaid <==> balance > 0.0
    ensures Classify(balance, credits) == Overpaid <==> balance <= 0.0 && (balance < 0.0 || credits > 0.0)
    ensures Classify(balance, credits) == Clear <==> balance == 0.0 && credits <= 0.0
  {
  }

  /** A listed row: the student and the figures the page writes into it. */
  datatype Listed = Listed(sid: int, lastName: string, balance: real, credits: real, status: Status)

  /** The row as the classification loop leaves it. */
  function Annotated(r: Listed, db: Db, ops: seq<Overpayment>): Listed {
    var balance := Assessment.StudentBalance(db, r.sid);
    var credits := UnappliedCredit(ops, r.sid);
    r.(balance := balance, credits := credits, status := Classify(balance, credits))
  }

  /** The foreach by reference: each row gets the student's balance, the
      unapplied credit and the status derived from them, in place. */
  method AnnotateRows(rows: array<Listed>, db: Db, ops: seq<Overpayment>)
    modifies rows
    ensures forall i :: 0 <= i < rows.Length ==> rows[i] == Annotated(old(rows[i]), db, ops)
  {
    var i := 0;
    while i < rows.Length
      invariant 0 <= i <= rows.Length
      invariant forall j :: 0 <= j < i ==> rows[j] == Annotated(old(rows[j]), db, ops)
      invariant forall j :: i <= j < rows.Length ==> rows[j] == old(rows[j])
    {
      var row := rows[i];
      var balance := Assessment.GetStudentBalance(db, row.sid);
      var credits := UnappliedCredit(ops, row.sid);
      var status: Status;
      if balance > 0.0 {
        status := Unpaid;
      } else if balance < 0.0 || credits > 0.0 {
        status := Overpaid;
      } else {
        status := Clear;
      }
      rows[i] := row.(balance := balance, credits := credits, status := status);
      assert rows[i] == Annotated(row, db, ops);
      i := i + 1;
    }
  }

  // ---------------------------------------------------------------
  // Status filter and counts
  // ---------------------------------------------------------------

  /** array_filter on the status then array_values; an empty or "0"
      filter (falsy in PHP) keeps every row. */
  function FilterStatus(rows: seq<Listed>, filter: string): (r: seq<Listed>)
    decreases |rows|
  {
    if filter == "" || filter == "0" then rows
    else if rows == [] then []
    else
      FilterStatus(rows[..|rows| - 1], filter)
      + (if StatusName(rows[|rows| - 1].status) == filter then [rows[|rows| - 1]] else [])
  }

  /** The filter keeps exactly the rows with the requested status... */
  lemma {:induction false} FilterKeepsMatching(rows: seq<Listed>, filter: string)
    requires filter != "" && filter != "0"
    ensures forall x :: x in FilterStatus(rows, filter) <==> x in rows && StatusName(x.status) == filter
    decreases |rows|
  {
    if rows != [] {
      var init := rows[..|rows| - 1];
      FilterKeepsMatching(init, filter);
      assert rows == init + [rows[|rows| - 1]];
    }
  }

  /** ...in their original order: filtering a concatenation concatenates
      the filtered parts. */
  lemma {:induction false} FilterKeepsOrder(a: seq<Listed>, b: seq<Listed>, filter: string)
    ensures FilterStatus(a + b, filter) == FilterStatus(a, filter) + FilterStatus(b, filter)
    decreases |b|
  {
    if b == [] {
      assert a + b == a;
    } else if filter != "" && filter != "0" {
      var n := |b| - 1;
      assert (a + b)[..|a + b| - 1] == a + b[..n];
      FilterKeepsOrder(a, b[..n], filter);
    }
  }

  function CountStatus(rows: seq<Listed>, s: Status): (n: nat)
    ensures n <= |rows|
    decreases |rows|
  {
    if rows == [] then 0
    else CountStatus(rows[..|rows| - 1], s) + (if rows[|rows| - 1].status == s then 1 else 0)
  }

  /** The three badges together count every listed row. */
  lemma {:induction false} CountsCoverRows(rows: seq<Listed>)
    ensures CountStatus(rows, Unpaid) + CountStatus(rows, Clear) + CountStatus(rows, Overpaid) == |rows|
    decreases |rows|
  {
    if rows != [] {
      CountsCoverRows(rows[..|rows| - 1]);
    }
  }

  /** The three names are distinct, and none is a "no filter" value. */
  lemma StatusNameInjective(a: Status, b: Status)
    ensures StatusName(a) == StatusName(b) <==> a == b
    ensures StatusName(a) != "" && StatusName(a) != "0"
  {
    if a != b {
      assert StatusName(a)[0] != StatusName(b)[0] || |StatusName(a)| != |StatusName(b)|;
    }
  }

  lemma CountStatusSnoc(rows: seq<Listed>, x: Listed, s: Status)
    ensures CountStatus(rows + [x], s) == CountStatus(rows, s) + (if x.status == s then 1 else 0)
  {
    assert (rows + [x])[..|rows|] == rows;
  }

  /** With a status filter in force only that status's badge counts
      anything. */
  lemma {:induction false} FilteredCountsOneStatus(rows: seq<Listed>, s: Status)
    ensures CountStatus(FilterStatus(rows, StatusName(s)), s) == |FilterStatus(rows, StatusName(s))|
    decreases |rows|
  {
    StatusNameInjective(s, s);
    if rows != [] {
      var init := rows[..|rows| - 1];
      var last := rows[|rows| - 1];
      FilteredCountsOneStatus(init, s);
      var fi := FilterStatus(init, StatusName(s));
      StatusNameInjective(last.status, s);
      if last.status == s {
        assert FilterStatus(rows, StatusName(s)) == fi + [last];
        CountStatusSnoc(fi, last, s);
      } else {
        assert FilterStatus(rows, StatusName(s)) == fi;
      }
    }
  }

  /** The badge loop. */
  method CountStatuses(rows: seq<Listed>) returns (unpaid: nat, clear: nat, overpaid: nat)
    ensures unpaid == CountStatus(rows, Unpaid)
    ensures clear == CountStatus(rows, Clear)
    ensures overpaid == CountStatus(rows, Overpaid)
  {
    unpaid, clear, overpaid := 0, 0, 0;
    var i := 0;
    while i < |rows|
      invariant 0 <= i <= |rows|
      invariant unpaid == CountStatus(rows[..i], Unpaid)
      invariant clear == CountStatus(rows[..i], Clear)
      invariant overpaid == CountStatus(rows[..i], Overpaid)
    {
      assert rows[..i + 1][..i] == rows[..i];
      match rows[i].status {
        case Unpaid => unpaid := unpaid + 1;
        case Clear => clear := clear + 1;
        case Overpaid => overpaid := overpaid + 1;
      }
      i := i + 1;
    }
    assert rows[..i] == rows;
  }
}
