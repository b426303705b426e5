/** Shared vocabulary of the model: optional values, academic terms and
    their chronological order, and decimal renderings of numbers. */
module Common {

  datatype Option<T> = None | Some(value: T)

  /** A billing / academic period: an academic-year string such as
      "2025-2026" and a semester number. */
  datatype Term = Term(ay: string, sem: int)

  // ---------------------------------------------------------------
  // Byte-wise (collation-free) string order, as MySQL and PHP's strcmp
  // order the ASCII strings the system stores.
  // ---------------------------------------------------------------

  predicate StrLess(a: string, b: string)
    decreases |a|
  {
    if |a| == 0 then |b| > 0
    else if |b| == 0 then false
    else if a[0] != b[0] then a[0] < b[0]
    else StrLess(a[1..], b[1..])
  }

  lemma {:induction false} StrLessIrreflexive(a: string)
    ensures !StrLess(a, a)
    decreases |a|
  {
    if |a| > 0 {
      StrLessIrreflexive(a[1..]);
    }
  }

  lemma {:induction false} StrLessTransitive(a: string, b: string, c: string)
    requires StrLess(a, b) && StrLess(b, c)
    ensures StrLess(a, c)
    decreases |a|
  {
    if |a| > 0 && |b| > 0 && |c| > 0 && a[0] == b[0] && b[0] == c[0] {
      StrLessTransitive(a[1..], b[1..], c[1..]);
    }
  }

  lemma {:induction false} StrLessTotal(a: string, b: string)
    requires a != b
    ensures StrLess(a, b) || StrLess(b, a)
    decreases |a|
  {
    if |a| > 0 && |b| > 0 && a[0] == b[0] {
      assert a == [a[0]] + a[1..] && b == [b[0]] + b[1..];
      StrLessTotal(a[1..], b[1..]);
    }
  }

  lemma {:induction false} StrLessAsymmetric(a: string, b: string)
    requires StrLess(a, b)
    ensures !StrLess(b, a)
    decreases |a|
  {
    if |a| > 0 && |b| > 0 && a[0] == b[0] {
      StrLessAsymmetric(a[1..], b[1..]);
    }
  }

  /** "Not before" is transitive: the order is total. */
  lemma StrNotLessTransitive(x: string, y: string, z: string)
    requires !StrLess(x, y) && !StrLess(y, z)
    ensures !StrLess(x, z)
  {
    if x != y {
      StrLessTotal(x, y);
      if y != z {
        StrLessTotal(y, z);
        StrLessTransitive(z, y, x);
      }
      StrLessAsymmetric(z, x);
    }
  }

  /** Chronological order of terms: academic year first, then semester. */
  predicate TermLess(t: Term, u: Term) {
    StrLess(t.ay, u.ay) || (t.ay == u.ay && t.sem < u.sem)
  }

  lemma TermLessIrreflexive(t: Term)
    ensures !TermLess(t, t)
  {
    StrLessIrreflexive(t.ay);
  }

  lemma TermLessTransitive(t: Term, u: Term, v: Term)
    requires TermLess(t, u) && TermLess(u, v)
    ensures TermLess(t, v)
  {
    if StrLess(t.ay, u.ay) && StrLess(u.ay, v.ay) {
      StrLessTransitive(t.ay, u.ay, v.ay);
    }
  }

  lemma TermLessTotal(t: Term, u: Term)
    requires t != u
    ensures TermLess(t, u) || TermLess(u, t)
  {
    if t.ay != u.ay {
      StrLessTotal(t.ay, u.ay);
    }
  }

  ghost predicate StrictlyAscending(s: seq<Term>) {
    forall i, j :: 0 <= i < j < |s| ==> TermLess(s[i], s[j])
  }

  /** Inserts `t` into a strictly ascending list, dropping it when it is
      already present (the DISTINCT of the term queries). */
  function InsertTerm(t: Term, s: seq<Term>): (r: seq<Term>)
    requires StrictlyAscending(s)
    ensures StrictlyAscending(r)
    ensures forall u :: u in r <==> u == t || u in s
    decreases |s|
  {
    if s == [] then [t]
    else if t == s[0] then s
    else if TermLess(t, s[0]) then
      forall j | 0 <= j < |s| ensures TermLess(t, s[j]) {
        if j > 0 { TermLessTransitive(t, s[0], s[j]); }
      }
      [t] + s
    else
      TermLessTotal(t, s[0]);
      var rest := InsertTerm(t, s[1..]);
      assert forall u :: u in s[1..] ==> TermLess(s[0], u);
      [s[0]] + rest
  }

  /** "SELECT DISTINCT academic_year, semester ... ORDER BY academic_year,
      semester": the distinct terms of `ts` in chronological order. */
  function SortedDistinct(ts: seq<Term>): (r: seq<Term>)
    ensures StrictlyAscending(r)
    ensures forall u :: u in r <==> u in ts
    decreases |ts|
  {
    if ts == [] then [] else InsertTerm(ts[|ts| - 1], SortedDistinct(ts[..|ts| - 1]))
  }

  lemma AscendingIsDistinct(s: seq<Term>, i: int, j: int)
    requires StrictlyAscending(s)
    requires 0 <= i < |s| && 0 <= j < |s| && i != j
    ensures s[i] != s[j]
  {
    if i < j { TermLessIrreflexive(s[i]); } else { TermLessIrreflexive(s[j]); }
  }

  // ---------------------------------------------------------------
  // Decimal digits
  // ---------------------------------------------------------------

  predicate IsDigit(c: char) { '0' <= c <= '9' }

  function DigitChar(d: nat): (c: char)
    requires d < 10
    ensures IsDigit(c) && c as int - '0' as int == d
  {
    (d + '0' as int) as char
  }

  /** PHP's string rendering of a non-negative integer. */
  function NatToString(n: nat): (s: string)
    ensures |s| >= 1 && forall i :: 0 <= i < |s| ==> IsDigit(s[i])
    decreases n
  {
    if n < 10 then [DigitChar(n)] else NatToString(n / 10) + [DigitChar(n % 10)]
  }

  /** Value of a string of decimal digits, as PHP's (int) cast reads it. */
  function DigitsValue(s: string): nat
    requires forall i :: 0 <= i < |s| ==> IsDigit(s[i])
    decreases |s|
  {
    if s == [] then 0
    else
      assert IsDigit(s[|s| - 1]);
      10 * DigitsValue(s[..|s| - 1]) + (s[|s| - 1] as int - '0' as int)
  }

  lemma {:induction false} DigitsValueOfNatToString(n: nat)
    ensures DigitsValue(NatToString(n)) == n
    decreases n
  {
    if n >= 10 {
      var s := NatToString(n);
      assert s[..|s| - 1] == NatToString(n / 10);
      DigitsValueOfNatToString(n / 10);
    }
  }

  lemma {:induction false} NatToStringLength(n: nat, k: nat)
    requires Pow10(k) <= n < Pow10(k + 1)
    ensures |NatToString(n)| == k + 1
    decreases n
  {
    if k > 0 {
      NatToStringLength(n / 10, k - 1);
    }
  }

  function Pow10(k: nat): (p: nat)
    ensures p >= 1
  {
    if k == 0 then 1 else 10 * Pow10(k - 1)
  }

  /** PHP's string rendering of an integer. */
  function IntToString(n: int): (s: string)
    ensures |s| >= 1
  {
    if n < 0 then "-" + NatToString(-n) else NatToString(n)
  }
}
