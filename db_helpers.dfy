/** The session-cached program list and the existence query of
    config/db_helpers.php (getCachedPrograms, clearCache, db_exists). The
    session is an object whose two entries the functions set and unset;
    the clock and the programs table are inputs. */
module DbHelpers {
  import opened Common

  /** A programs row as the cache stores it. */
  datatype Program = Program(id: int, code: string, name: string, description: string)

  /** The cache lifetime in seconds. */
  const CacheExpiry: int := 3600

  /** The two session entries: the cached list and the time it was stored. */
  datatype CacheState = CacheState(programs: Option<seq<Program>>, stampedAt: Option<int>)

  /** The cached list is returned as is. */
  predicate CacheHit(s: CacheState, forceRefresh: bool, now: int) {
    !forceRefresh && s.programs.Some? && s.stampedAt.Some? && now - s.stampedAt.value < CacheExpiry
  }

  /** getCachedPrograms: the cached list while it is younger than an hour
      and no refresh is forced; otherwise the table, stored and stamped. */
  function CachedPrograms(s: CacheState, table: seq<Program>, forceRefresh: bool, now: int): (seq<Program>, CacheState) {
    if CacheHit(s, forceRefresh, now) then (s.programs.value, s)
    else (table, CacheState(Some(table), Some(now)))
  }

  /** After a fetch, every unforced call within the hour returns the list
      fetched then, whatever the table holds now; from the hour on, the
      table is read again. */
  lemma CacheServesWithinHour(s: CacheState, table: seq<Program>, later: seq<Program>, force: bool, t: int, t': int)
    requires !CacheHit(s, force, t)
    ensures t' - t < CacheExpiry ==>
      CachedPrograms(CachedPrograms(s, table, force, t).1, later, false, t').0 == table
    ensures t' - t >= CacheExpiry ==>
      CachedPrograms(CachedPrograms(s, table, force, t).1, later, false, t') == (later, CacheState(Some(later), Some(t')))
  {
  }

  /** A forced refresh always reads the table. */
  lemma ForcedRefreshReads(s: CacheState, table: seq<Program>, now: int)
    ensures CachedPrograms(s, table, true, now) == (table, CacheState(Some(table), Some(now)))
  {
  }

  /** The PHP session, holding the two cache entries. */
  class Session {
    var cachedPrograms: Option<seq<Program>>
    var cachedProgramsTime: Option<int>

    function State(): CacheState
      reads this
    {
      CacheState(cachedPrograms, cachedProgramsTime)
    }

    constructor ()
      ensures cachedPrograms.None? && cachedProgramsTime.None?
    {
      cachedPrograms := None;
      cachedProgramsTime := None;
    }

    method GetCachedPrograms(table: seq<Program>, forceRefresh: bool, now: int) returns (r: seq<Program>)
      modifies this
      ensures (r, State()) == CachedPrograms(old(State()), table, forceRefresh, now)
    {
      if !forceRefresh && cachedPrograms.Some? && cachedProgramsTime.Some?
         && now - cachedProgramsTime.value < CacheExpiry {
        return cachedPrograms.value;
      }
      cachedPrograms := Some(table);
      cachedProgramsTime := Some(now);
      r := table;
    }

    /** clearCache: both entries are removed, so the next call reads the
        table. */
    method ClearCache()
      modifies this
      ensures cachedPrograms.None? && cachedProgramsTime.None?
      ensures forall table, force, now :: CachedPrograms(State(), table, force, now).0 == table
    {
      cachedPrograms := None;
      cachedProgramsTime := None;
    }
  }

  /** SELECT COUNT(*) ... WHERE `where`. */
  function Count<T>(rows: seq<T>, where: T -> bool): (n: nat)
    ensures n <= |rows|
    decreases |rows|
  {
    if rows == [] then 0
    else Count(rows[..|rows| - 1], where) + (if where(rows[|rows| - 1]) then 1 else 0)
  }

  /** db_exists. */
  function DbExists<T>(rows: seq<T>, where: T -> bool): bool {
    Count(rows, where) > 0
  }

  /** A record exists iff some row satisfies the condition. */
  lemma {:induction false} DbExistsIff<T>(rows: seq<T>, where: T -> bool)
    ensures DbExists(rows, where) <==> exists i :: 0 <= i < |rows| && where(rows[i])
    decreases |rows|
  {
    if rows != [] {
      var init := rows[..|rows| - 1];
      DbExistsIff(init, where);
      if exists i :: 0 <= i < |init| && where(init[i]) {
        var i :| 0 <= i < |init| && where(init[i]);
        assert rows[i] == init[i];
      }
      if exists i :: 0 <= i < |rows| && where(rows[i]) {
        var i :| 0 <= i < |rows| && where(rows[i]);
        if i < |init| { assert init[i] == rows[i]; }
      }
    }
  }
}
