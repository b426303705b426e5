/** The debugging log of page-load times kept in session storage: each
    load appends one measurement and the log keeps the last ten. */
module Performance {
  /** One stored measurement: the page path, the load time in
      milliseconds and when it was taken. */
  datatype PageTime = PageTime(url: string, time: int, timestamp: string)

  const Kept: nat := 10

  /** The last `n` elements of `s` (all of them when there are fewer). */
  function LastN<T>(s: seq<T>, n: nat): (r: seq<T>)
    ensures |r| == if |s| < n then |s| else n
    ensures forall k :: 0 <= k < |r| ==> r[k] == s[|s| - |r| + k]
  {
    if |s| <= n then s else s[|s| - n..]
  }

  /** One load: push, then drop the oldest when there are more than ten. */
  function Pushed(log: seq<PageTime>, t: PageTime): seq<PageTime> {
    var s := log + [t];
    if |s| > Kept then s[1..] else s
  }

  /** A log of at most ten entries keeps the last ten of everything. */
  lemma PushedKeepsLast(log: seq<PageTime>, t: PageTime)
    requires |log| <= Kept
    ensures Pushed(log, t) == LastN(log + [t], Kept)
    ensures |Pushed(log, t)| <= Kept
    ensures Pushed(log, t)[|Pushed(log, t)| - 1] == t
  {
  }

  /** The loads in order, starting from `log`. */
  function Replay(log: seq<PageTime>, ts: seq<PageTime>): seq<PageTime>
    decreases |ts|
  {
    if ts == [] then log else Pushed(Replay(log, ts[..|ts| - 1]), ts[|ts| - 1])
  }

  lemma LastNSnoc<T>(s: seq<T>, t: T, n: nat)
    requires n > 0
    ensures LastN(LastN(s, n) + [t], n) == LastN(s + [t], n)
  {
    var l := LastN(s, n);
    var lhs, rhs := LastN(l + [t], n), LastN(s + [t], n);
    assert |lhs| == |rhs|;
    forall k | 0 <= k < |lhs| ensures lhs[k] == rhs[k] {
      if k == |lhs| - 1 {
      } else {
        assert lhs[k] == (l + [t])[|l| + 1 - |lhs| + k];
        assert rhs[k] == (s + [t])[|s| + 1 - |rhs| + k];
      }
    }
  }

  /** Starting from the empty log (or any log of at most ten), the log
      after any number of loads holds the last ten measurements, oldest
      first. */
  lemma {:induction false} ReplayKeepsLast(log: seq<PageTime>, ts: seq<PageTime>)
    requires |log| <= Kept
    ensures Replay(log, ts) == LastN(log + ts, Kept)
    decreases |ts|
  {
    if ts != [] {
      var init, t := ts[..|ts| - 1], ts[|ts| - 1];
      var r := Replay(log, init);
      assert ts == init + [t];
      assert log + ts == (log + init) + [t];
      assert Replay(log, ts) == Pushed(r, t);
      ReplayKeepsLast(log, init);
      PushedKeepsLast(r, t);
      LastNSnoc(log + init, t, Kept);
    } else {
      assert log + ts == log;
    }
  }

  /** The stored list; an absent entry reads as the empty list. */
  class PageTimeLog {
    var times: seq<PageTime>

    constructor ()
      ensures times == []
    {
      times := [];
    }

    /** Records one load: the time is loadEventEnd minus navigationStart. */
    method Record(url: string, navigationStart: int, loadEventEnd: int, timestamp: string)
      modifies this
      ensures times == Pushed(old(times), PageTime(url, loadEventEnd - navigationStart, timestamp))
    {
      times := times + [PageTime(url, loadEventEnd - navigationStart, timestamp)];
      if |times| > Kept {
        times := times[1..];
      }
    }
  }
}
