/** Money and rounding. Amounts are exact decimals (Dafny `real`); the
    source's PHP `round($x, n)` (half away from zero) and `ceil` are
    written out explicitly. */
module Money {

  function Min(a: real, b: real): (r: real)
    ensures r <= a && r <= b && (r == a || r == b)
  {
    if a <= b then a else b
  }

  function Max(a: real, b: real): (r: real)
    ensures r >= a && r >= b && (r == a || r == b)
  {
    if a >= b then a else b
  }

  function Abs(a: real): (r: real)
    ensures r >= 0.0 && (r == a || r == -a)
  {
    if a < 0.0 then -a else a
  }

  /** Whole hundredths of a non-negative amount, halves rounded up. */
  function HalfUpCents(x: real): int
  {
    (x * 100.0 + 0.5).Floor
  }

  /** PHP round($x, 2): the nearest multiple of 0.01, halves rounded away
      from zero. */
  function Round2(x: real): real
  {
    if x >= 0.0 then HalfUpCents(x) as real / 100.0 else -(HalfUpCents(-x) as real / 100.0)
  }

  /** PHP round($x, 1): the nearest multiple of 0.1, halves rounded away
      from zero. */
  function Round1(x: real): (r: real)
    ensures x >= 0.0 ==> r >= 0.0
  {
    if x >= 0.0 then (x * 10.0 + 0.5).Floor as real / 10.0
    else -((-x * 10.0 + 0.5).Floor as real / 10.0)
  }

  lemma HalfUpCentsClose(x: real)
    ensures x * 100.0 - 0.5 < HalfUpCents(x) as real <= x * 100.0 + 0.5
  {
  }

  /** Rounding moves an amount by at most half a centavo. */
  lemma Round2Close(x: real)
    ensures -0.005 <= Round2(x) - x <= 0.005
  {
    if x >= 0.0 { HalfUpCentsClose(x); } else { HalfUpCentsClose(-x); }
  }

  lemma Round2Sign(x: real)
    ensures x >= 0.0 ==> Round2(x) >= 0.0
    ensures x <= 0.0 ==> Round2(x) <= 0.0
  {
    if x >= 0.0 { HalfUpCentsClose(x); } else { HalfUpCentsClose(-x); }
  }

  lemma {:induction false} FloorMonotone(a: real, b: real)
    requires a <= b
    ensures a.Floor <= b.Floor
  {
    assert a.Floor as real <= a <= b < b.Floor as real + 1.0;
  }

  lemma HalfUpCentsMonotone(x: real, y: real)
    requires x <= y
    ensures HalfUpCents(x) <= HalfUpCents(y)
  {
    FloorMonotone(x * 100.0 + 0.5, y * 100.0 + 0.5);
  }

  /** Rounding preserves order (not necessarily strictly). */
  lemma Round2Monotone(x: real, y: real)
    requires x <= y
    ensures Round2(x) <= Round2(y)
  {
    if x >= 0.0 {
      HalfUpCentsMonotone(x, y);
    } else if y < 0.0 {
      HalfUpCentsMonotone(-y, -x);
    } else {
      Round2Sign(x);
      Round2Sign(y);
    }
  }

  /** A value that already has at most two decimals is left unchanged. */
  lemma Round2OfCents(c: int)
    ensures Round2(c as real / 100.0) == c as real / 100.0
  {
    var x := c as real / 100.0;
    if c >= 0 {
      assert x * 100.0 + 0.5 == c as real + 0.5;
      assert HalfUpCents(x) == c;
    } else {
      assert -x * 100.0 + 0.5 == -c as real + 0.5;
      assert HalfUpCents(-x) == -c;
    }
  }

  /** PHP ceil() of an integer quotient a / b for b > 0. */
  function CeilDiv(a: int, b: int): (q: int)
    requires b > 0
    ensures (q - 1) * b < a <= q * b
  {
    if a % b == 0 then a / b else a / b + 1
  }
}
