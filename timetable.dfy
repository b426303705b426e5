/** Weekly meeting slots and the same-day overlap test that every schedule
    check of the system applies. Times are the 'HH:MM:SS' strings the
    schedules table stores, and PHP compares them as strings. */
module Timetable {
  import opened Common

  /** One weekly meeting: day_of_week, start_time and end_time. */
  datatype Slot = Slot(day: string, start: string, end: string)

  /** Two meetings clash when they fall on the same day and each starts
      before the other ends. */
  predicate Clash(a: Slot, b: Slot) {
    a.day == b.day && StrLess(a.start, b.end) && StrLess(b.start, a.end)
  }

  /** The test ignores meetings on other days, does not depend on the
      order of its arguments, and is strict: a meeting that ends exactly
      when the other starts does not clash with it. */
  lemma ClashRule(a: Slot, b: Slot)
    ensures a.day != b.day ==> !Clash(a, b)
    ensures Clash(a, b) <==> Clash(b, a)
    ensures a.end == b.start ==> !Clash(a, b)
    ensures b.end == a.start ==> !Clash(a, b)
  {
    StrLessIrreflexive(a.end);
    StrLessIrreflexive(b.end);
  }

  /** A meeting that starts before it ends clashes with itself, and a
      meeting on the same day that lies strictly inside another clashes
      with it. */
  lemma ClashContained(a: Slot, b: Slot)
    requires StrLess(a.start, a.end)
    requires a.day == b.day && (a.start == b.start || StrLess(b.start, a.start))
    requires a.end == b.end || StrLess(a.end, b.end)
    ensures Clash(a, a) && Clash(a, b)
  {
    if a.start != b.start {
      StrLessTransitive(b.start, a.start, a.end);
    }
    if a.end != b.end {
      StrLessTransitive(a.start, a.end, b.end);
    }
  }

  // ---------------------------------------------------------------
  // The pairwise scan: every row i against every later row j
  // ---------------------------------------------------------------

  /** The pairs (i, j) with i < j < n whose rows hit, by increasing j. */
  function HitsAfter<T>(xs: seq<T>, hit: (T, T) -> bool, i: nat, n: nat): (r: seq<(nat, nat)>)
    requires n <= |xs|
    ensures forall p :: p in r ==> p.0 == i && i < p.1 < n
    decreases n
  {
    if n <= i + 1 then []
    else HitsAfter(xs, hit, i, n - 1) + (if hit(xs[i], xs[n - 1]) then [(i, n - 1)] else [])
  }

  /** The hits of the rows before m against all later rows, by increasing i. */
  function HitsBefore<T>(xs: seq<T>, hit: (T, T) -> bool, m: nat): (r: seq<(nat, nat)>)
    requires m <= |xs|
    ensures forall p :: p in r ==> p.0 < m && p.0 < p.1 < |xs|
    decreases m
  {
    if m == 0 then [] else HitsBefore(xs, hit, m - 1) + HitsAfter(xs, hit, m - 1, |xs|)
  }

  /** The two nested for loops over i < j. */
  function Hits<T>(xs: seq<T>, hit: (T, T) -> bool): seq<(nat, nat)> {
    HitsBefore(xs, hit, |xs|)
  }

  /** What the scan appends for each hit pair. */
  function Reported<T, R>(xs: seq<T>, report: (T, T) -> R, ps: seq<(nat, nat)>): (r: seq<R>)
    requires forall p :: p in ps ==> p.0 < |xs| && p.1 < |xs|
    ensures |r| == |ps|
  {
    seq(|ps|, k requires 0 <= k < |ps| => report(xs[ps[k].0], xs[ps[k].1]))
  }

  lemma ReportedAppend<T, R>(xs: seq<T>, report: (T, T) -> R, a: seq<(nat, nat)>, b: seq<(nat, nat)>)
    requires forall p :: p in a + b ==> p.0 < |xs| && p.1 < |xs|
    ensures Reported(xs, report, a + b) == Reported(xs, report, a) + Reported(xs, report, b)
  {
    assert forall p :: p in a ==> p in a + b;
    assert forall p :: p in b ==> p in a + b;
    var l := Reported(xs, report, a + b);
    var r := Reported(xs, report, a) + Reported(xs, report, b);
    forall k | 0 <= k < |l| ensures l[k] == r[k] {
      if k >= |a| { assert (a + b)[k] == b[k - |a|]; }
    }
  }

  lemma {:induction false} HitsAfterSpec<T>(xs: seq<T>, hit: (T, T) -> bool, i: nat, n: nat)
    requires n <= |xs|
    ensures forall p: (nat, nat) :: p in HitsAfter(xs, hit, i, n) <==> p.0 == i && i < p.1 < n && hit(xs[p.0], xs[p.1])
    decreases n
  {
    if n > i + 1 {
      HitsAfterSpec(xs, hit, i, n - 1);
    }
  }

  /** A pair is reported exactly when i < j and its rows hit. */
  lemma {:induction false} HitsSpec<T>(xs: seq<T>, hit: (T, T) -> bool, m: nat)
    requires m <= |xs|
    ensures forall p: (nat, nat) :: p in HitsBefore(xs, hit, m) <==> p.0 < m && p.0 < p.1 < |xs| && hit(xs[p.0], xs[p.1])
    decreases m
  {
    if m > 0 {
      HitsSpec(xs, hit, m - 1);
      HitsAfterSpec(xs, hit, m - 1, |xs|);
    }
  }

  /** The scan reports exactly the pairs i < j whose rows hit. */
  lemma ReportedSpec<T, R>(xs: seq<T>, hit: (T, T) -> bool, report: (T, T) -> R)
    ensures forall x :: x in Reported(xs, report, Hits(xs, hit)) <==>
      exists i, j :: 0 <= i < j < |xs| && hit(xs[i], xs[j]) && x == report(xs[i], xs[j])
  {
    var hs := Hits(xs, hit);
    var es := Reported(xs, report, hs);
    HitsSpec(xs, hit, |xs|);
    forall x ensures x in es <==> exists i, j :: 0 <= i < j < |xs| && hit(xs[i], xs[j]) && x == report(xs[i], xs[j]) {
      if x in es {
        var k :| 0 <= k < |es| && es[k] == x;
        assert hs[k] in hs;
      }
      if exists i, j :: 0 <= i < j < |xs| && hit(xs[i], xs[j]) && x == report(xs[i], xs[j]) {
        var i, j :| 0 <= i < j < |xs| && hit(xs[i], xs[j]) && x == report(xs[i], xs[j]);
        assert (i, j) in hs;
        var k :| 0 <= k < |hs| && hs[k] == (i, j);
        assert es[k] == x;
      }
    }
  }

  lemma {:induction false} HitsAfterOrdered<T>(xs: seq<T>, hit: (T, T) -> bool, i: nat, n: nat)
    requires n <= |xs|
    ensures forall a, b :: 0 <= a < b < |HitsAfter(xs, hit, i, n)| ==> HitsAfter(xs, hit, i, n)[a].1 < HitsAfter(xs, hit, i, n)[b].1
    decreases n
  {
    if n > i + 1 {
      HitsAfterOrdered(xs, hit, i, n - 1);
      var r0 := HitsAfter(xs, hit, i, n - 1);
      var r := HitsAfter(xs, hit, i, n);
      assert r == r0 + (if hit(xs[i], xs[n - 1]) then [(i, n - 1)] else []);
      forall a, b | 0 <= a < b < |r| ensures r[a].1 < r[b].1 {
        if b >= |r0| {
          assert r[a] == r0[a] && r0[a] in r0;
          assert r[b] == (i, n - 1);
        } else {
          assert r[a] == r0[a] && r[b] == r0[b];
        }
      }
    }
  }

  /** Strictly before in (i, j) order. */
  predicate PairBefore(p: (nat, nat), q: (nat, nat)) {
    p.0 < q.0 || (p.0 == q.0 && p.1 < q.1)
  }

  /** The pairs come out in strictly increasing (i, j) order. */
  lemma {:induction false} HitsOrdered<T>(xs: seq<T>, hit: (T, T) -> bool, m: nat)
    requires m <= |xs|
    ensures forall a, b :: 0 <= a < b < |HitsBefore(xs, hit, m)| ==> PairBefore(HitsBefore(xs, hit, m)[a], HitsBefore(xs, hit, m)[b])
    decreases m
  {
    if m > 0 {
      HitsOrdered(xs, hit, m - 1);
      HitsAfterOrdered(xs, hit, m - 1, |xs|);
      var r0 := HitsBefore(xs, hit, m - 1);
      var s := HitsAfter(xs, hit, m - 1, |xs|);
      assert HitsBefore(xs, hit, m) == r0 + s;
      OrderedAppend(r0, s, m - 1);
    }
  }

  /** Row i's pairs, all with first index i and in increasing second index,
      follow earlier rows' ordered pairs in order. */
  lemma OrderedAppend(r0: seq<(nat, nat)>, s: seq<(nat, nat)>, i: nat)
    requires forall a, b :: 0 <= a < b < |r0| ==> PairBefore(r0[a], r0[b])
    requires forall p :: p in r0 ==> p.0 < i
    requires forall p :: p in s ==> p.0 == i
    requires forall a, b :: 0 <= a < b < |s| ==> s[a].1 < s[b].1
    ensures forall a, b :: 0 <= a < b < |r0 + s| ==> PairBefore((r0 + s)[a], (r0 + s)[b])
  {
    var r := r0 + s;
    forall a, b | 0 <= a < b < |r| ensures PairBefore(r[a], r[b]) {
      if a >= |r0| {
        assert r[a] == s[a - |r0|] && r[b] == s[b - |r0|];
        assert s[a - |r0|] in s && s[b - |r0|] in s;
      } else if b >= |r0| {
        assert r[a] == r0[a] && r0[a] in r0;
        assert r[b] == s[b - |r0|] && s[b - |r0|] in s;
      } else {
        assert r[a] == r0[a] && r[b] == r0[b];
      }
    }
  }

  /** So no pair is reported twice, nor once in each orientation. */
  lemma HitsOnce<T>(xs: seq<T>, hit: (T, T) -> bool)
    ensures forall a, b :: 0 <= a < b < |Hits(xs, hit)| ==>
      Hits(xs, hit)[a] != Hits(xs, hit)[b] && Hits(xs, hit)[a] != (Hits(xs, hit)[b].1, Hits(xs, hit)[b].0)
  {
    HitsOrdered(xs, hit, |xs|);
    var r := Hits(xs, hit);
    forall a, b | 0 <= a < b < |r| ensures r[a] != r[b] && r[a] != (r[b].1, r[b].0) {
      assert PairBefore(r[a], r[b]);
      assert r[a] in r && r[b] in r;
    }
  }

  lemma {:induction false} HitsAfterLength<T>(xs: seq<T>, hit: (T, T) -> bool, i: nat, n: nat)
    requires n <= |xs|
    ensures |HitsAfter(xs, hit, i, n)| <= if n > i then n - 1 - i else 0
    decreases n
  {
    if n > i + 1 {
      HitsAfterLength(xs, hit, i, n - 1);
    }
  }

  /** At most one entry per unordered pair of rows: n(n-1)/2 in all. */
  lemma {:induction false} HitsLength<T>(xs: seq<T>, hit: (T, T) -> bool, m: nat)
    requires m <= |xs|
    ensures 2 * |HitsBefore(xs, hit, m)| <= m * (2 * |xs| - 1 - m)
    decreases m
  {
    if m > 0 {
      HitsLength(xs, hit, m - 1);
      HitsAfterLength(xs, hit, m - 1, |xs|);
      assert HitsBefore(xs, hit, m) == HitsBefore(xs, hit, m - 1) + HitsAfter(xs, hit, m - 1, |xs|);
      PairCountStep(m, |xs|, |HitsBefore(xs, hit, m - 1)|, |HitsAfter(xs, hit, m - 1, |xs|)|);
    }
  }

  lemma PairCountStep(m: int, n: int, prev: int, added: int)
    requires 1 <= m <= n
    requires 2 * prev <= (m - 1) * (2 * n - m) && added <= n - m
    ensures 2 * (prev + added) <= m * (2 * n - 1 - m)
  {
    assert (m - 1) * (2 * n - m) + 2 * (n - m) == m * (2 * n - 1 - m);
  }

  /** The inner for loop: row i against every later row. */
  method ScanAfter<T, R>(xs: seq<T>, hit: (T, T) -> bool, report: (T, T) -> R, i: nat) returns (out: seq<R>)
    requires i < |xs|
    ensures out == Reported(xs, report, HitsAfter(xs, hit, i, |xs|))
  {
    out := [];
    var j := i + 1;
    while j < |xs|
      invariant i + 1 <= j <= |xs|
      invariant out == Reported(xs, report, HitsAfter(xs, hit, i, j))
    {
      var step := if hit(xs[i], xs[j]) then [(i, j)] else [];
      ReportedAppend(xs, report, HitsAfter(xs, hit, i, j), step);
      if hit(xs[i], xs[j]) {
        out := out + [report(xs[i], xs[j])];
      }
      j := j + 1;
    }
  }

  /** for ($i = 0; $i < $count; $i++) for ($j = $i + 1; $j < $count; $j++):
      append a report for every pair that hits. */
  method ScanPairs<T, R>(xs: seq<T>, hit: (T, T) -> bool, report: (T, T) -> R) returns (out: seq<R>)
    ensures out == Reported(xs, report, Hits(xs, hit))
  {
    out := [];
    var i := 0;
    while i < |xs|
      invariant 0 <= i <= |xs|
      invariant out == Reported(xs, report, HitsBefore(xs, hit, i))
    {
      var part := ScanAfter(xs, hit, report, i);
      ReportedAppend(xs, report, HitsBefore(xs, hit, i), HitsAfter(xs, hit, i, |xs|));
      out := out + part;
      i := i + 1;
    }
  }
}
