/** The fixed-window decision engine behind the admission endpoint
    (routes/check.js): a table of counters keyed by (ip, endpoint), each
    counting the requests of the window that started at `windowStart`.

    One call of the engine is one database transaction; the row lock taken by
    `SELECT ... FOR UPDATE` serialises calls on the same key, so each call is
    modelled as one atomic step on the table. Times are integer milliseconds. */
module FixedWindow {

  /** A (client address, endpoint) pair; at most one record per key, as the
      table's uniqueness constraint demands. */
  type Key = (string, string)

  /** The largest value of the table's 32-bit `INT` count column; storing a
      larger count fails with "integer out of range". */
  const MaxStoredCount: int := 2147483647

  /** One row of the `rate_limits` table. */
  datatype Record = Record(count: int, windowStart: int, lastUpdated: int)

  /** The outcome of one call: allowed, denied with the time to wait, or the
      transaction failed and was rolled back ("Database unavailable"). */
  datatype Decision = Allowed | Denied(retryAfterMs: int) | StoreError

  /** The new state of the table together with the decision. */
  datatype StepResult = StepResult(decision: Decision, rows: map<Key, Record>)

  /** The wait reported on a denial: the time left until the window ends,
      clamped at zero (`Math.max(0, windowEnd - now)`). */
  function RetryAfter(windowStart: int, windowMs: int, now: int): (r: int)
    ensures r >= 0
    ensures r == 0 <==> windowStart + windowMs <= now
    ensures r > 0 ==> now + r == windowStart + windowMs
  {
    var remaining := windowStart + windowMs - now;
    if remaining > 0 then remaining else 0
  }

  /** The record's window has elapsed: its start is at or before
      `now - windowMs`, that is, its end `windowStart + windowMs` is not
      after `now`. */
  predicate Expired(rec: Record, windowMs: int, now: int)
    ensures Expired(rec, windowMs, now) <==> rec.windowStart + windowMs <= now
  {
    rec.windowStart <= now - windowMs
  }

  /** One call of the engine on `key` at time `now`, as a function of the
      table before the call. `fault` says that some statement of the
      transaction failed, in which case the transaction is rolled back. An
      increment past the count column's range fails the same way. Only an
      allowed call writes, and it writes only the row of `key`. */
  function Step(rows: map<Key, Record>, key: Key, max: int, windowMs: int, now: int, fault: bool): (r: StepResult)
    ensures r.decision != Allowed ==> r.rows == rows
    ensures r.rows.Keys == rows.Keys + {key} || r.rows == rows
    ensures forall k :: k in rows && k != key ==> k in r.rows && r.rows[k] == rows[k]
  {
    if fault then StepResult(StoreError, rows)
    else if key !in rows then StepResult(Allowed, rows[key := Record(1, now, now)])
    else
      var rec := rows[key];
      if Expired(rec, windowMs, now) then StepResult(Allowed, rows[key := Record(1, now, now)])
      else if rec.count < max then
        if rec.count + 1 > MaxStoredCount then StepResult(StoreError, rows)
        else StepResult(Allowed, rows[key := Record(rec.count + 1, rec.windowStart, now)])
      else StepResult(Denied(RetryAfter(rec.windowStart, windowMs, now)), rows)
  }

  /** Every stored count is at least one and fits the count column. */
  ghost predicate CountsInColumn(rows: map<Key, Record>)
  {
    forall k :: k in rows ==> 1 <= rows[k].count <= MaxStoredCount
  }

  /** The `rate_limits` table. */
  class RateLimitTable {
    var rows: map<Key, Record>

    ghost predicate Valid()
      reads this
    {
      CountsInColumn(rows)
    }

    constructor ()
      ensures Valid() && rows == map[]
    {
      rows := map[];
    }

    /** The `/check` handler after validation: read the key's record under a
        row lock, then insert, reset, increment or deny, and commit; on any
        failure (including an increment out of the count column's range)
        roll back to the state at BEGIN. */
    method Decide(ip: string, endpoint: string, max: int, windowMs: int, now: int, fault: bool)
      returns (d: Decision)
      requires Valid()
      requires max >= 1 && windowMs >= 1000
      modifies this
      ensures Valid()
      ensures d == Step(old(rows), (ip, endpoint), max, windowMs, now, fault).decision
      ensures rows == Step(old(rows), (ip, endpoint), max, windowMs, now, fault).rows
    {
      var atBegin := rows;
      var key := (ip, endpoint);
      var cutoff := now - windowMs;
      var outOfRange := false;
      if key !in rows {
        rows := rows[key := Record(1, now, now)];
        d := Allowed;
      } else {
        var record := rows[key];
        if record.windowStart <= cutoff {
          rows := rows[key := Record(1, now, now)];
          d := Allowed;
        } else if record.count < max {
          if record.count + 1 > MaxStoredCount {
            outOfRange := true;
            d := StoreError;
          } else {
            rows := rows[key := Record(record.count + 1, record.windowStart, now)];
            d := Allowed;
          }
        } else {
          d := Denied(RetryAfter(record.windowStart, windowMs, now));
        }
      }
      if fault || outOfRange {
        rows := atBegin;
        d := StoreError;
      }
    }
  }

  // ---------------------------------------------------------------------
  // Properties of one step

  /** A failed transaction leaves the table as it was and reports the error. */
  lemma StepRollsBackOnFault(rows: map<Key, Record>, key: Key, max: int, windowMs: int, now: int)
    ensures Step(rows, key, max, windowMs, now, true) == StepResult(StoreError, rows)
  {
  }

  /** Only the addressed key is written: every other key keeps its record,
      or stays absent. */
  lemma StepOnlyTouchesKey(rows: map<Key, Record>, key: Key, max: int, windowMs: int, now: int, fault: bool)
    ensures var after := Step(rows, key, max, windowMs, now, fault).rows;
      && after.Keys <= rows.Keys + {key}
      && rows.Keys <= after.Keys
      && forall k :: k in rows && k != key ==> after[k] == rows[k]
  {
  }

  /** A key without a record is allowed whatever `max` is, and gains exactly
      one record, counting one request in a window that starts now. */
  lemma StepFirstRequest(rows: map<Key, Record>, key: Key, max: int, windowMs: int, now: int)
    requires key !in rows
    ensures var r := Step(rows, key, max, windowMs, now, false);
      && r.decision == Allowed
      && r.rows.Keys == rows.Keys + {key}
      && |r.rows| == |rows| + 1
      && r.rows[key] == Record(1, now, now)
  {
  }

  /** Once `windowStart + windowMs <= now`, the call is allowed and opens a new
      window at `now` with a count of one, however many requests the old
      window had. */
  lemma StepResetsExpiredWindow(rows: map<Key, Record>, key: Key, max: int, windowMs: int, now: int)
    requires key in rows && rows[key].windowStart + windowMs <= now
    ensures var r := Step(rows, key, max, windowMs, now, false);
      && r.decision == Allowed
      && r.rows.Keys == rows.Keys
      && r.rows[key] == Record(1, now, now)
  {
  }

  /** In an active window below the quota, and with room left in the count
      column, the call is allowed, the count goes up by exactly one and the
      window start is kept. */
  lemma StepIncrementsActiveWindow(rows: map<Key, Record>, key: Key, max: int, windowMs: int, now: int)
    requires key in rows && now < rows[key].windowStart + windowMs && rows[key].count < max
    requires rows[key].count < MaxStoredCount
    ensures var r := Step(rows, key, max, windowMs, now, false);
      && r.decision == Allowed
      && r.rows.Keys == rows.Keys
      && r.rows[key].count == rows[key].count + 1
      && r.rows[key].windowStart == rows[key].windowStart
      && r.rows[key].lastUpdated == now
  {
  }

  /** A call is denied exactly when the key's window is active and its count
      has reached `max`; a denial writes nothing and reports a strictly
      positive wait that ends with the window. A fault-free call that is
      neither allowed nor denied is an increment out of the count column's
      range, which writes nothing either. */
  lemma StepDeniesExactlyAtQuota(rows: map<Key, Record>, key: Key, max: int, windowMs: int, now: int)
    ensures var r := Step(rows, key, max, windowMs, now, false);
      && (r.decision.Denied? <==>
           key in rows && now < rows[key].windowStart + windowMs && rows[key].count >= max)
      && (r.decision.Denied? ==>
           && r.rows == rows
           && r.decision.retryAfterMs > 0
           && now + r.decision.retryAfterMs == rows[key].windowStart + windowMs)
      && (r.decision == StoreError <==>
           && key in rows && now < rows[key].windowStart + windowMs
           && rows[key].count < max && rows[key].count >= MaxStoredCount)
      && (r.decision == StoreError ==> r.rows == rows)
  {
  }

  /** For a fixed record, later denials report strictly shorter waits. */
  lemma DenialWaitDecreases(rows: map<Key, Record>, key: Key, max: int, windowMs: int, t1: int, t2: int)
    requires t1 < t2
    requires Step(rows, key, max, windowMs, t1, false).decision.Denied?
    requires Step(rows, key, max, windowMs, t2, false).decision.Denied?
    ensures Step(rows, key, max, windowMs, t2, false).decision.retryAfterMs
          < Step(rows, key, max, windowMs, t1, false).decision.retryAfterMs
  {
  }

  /** Every step keeps the stored counts positive and within the count column. */
  lemma StepKeepsCountsInColumn(rows: map<Key, Record>, key: Key, max: int, windowMs: int, now: int, fault: bool)
    requires CountsInColumn(rows)
    ensures CountsInColumn(Step(rows, key, max, windowMs, now, fault).rows)
  {
  }

  /** A step never raises a count above `max`: a record whose count exceeds
      `max` afterwards was already there, untouched. So, with a fixed `max`,
      a key whose count starts within the quota stays within it. */
  lemma StepNeverExceedsMax(rows: map<Key, Record>, key: Key, max: int, windowMs: int, now: int, fault: bool)
    requires max >= 1
    ensures var after := Step(rows, key, max, windowMs, now, fault).rows;
      key in after && after[key].count > max ==> key in rows && after[key] == rows[key]
  {
  }

  // ---------------------------------------------------------------------
  // Runs of calls on one key

  /** The decisions and the final table of successive fault-free calls on one
      key at the given times. */
  datatype Run = Run(decisions: seq<Decision>, rows: map<Key, Record>)

  function Replay(rows: map<Key, Record>, key: Key, max: int, windowMs: int, times: seq<int>): (r: Run)
    ensures |r.decisions| == |times|
    decreases |times|
  {
    if times == [] then Run([], rows)
    else
      var first := Step(rows, key, max, windowMs, times[0], false);
      var rest := Replay(first.rows, key, max, windowMs, times[1..]);
      Run([first.decision] + rest.decisions, rest.rows)
  }

  /** A run of calls on one key leaves every other key's record as it was and
      adds no other key. */
  lemma {:induction false} ReplayOnlyTouchesKey(rows: map<Key, Record>, key: Key, max: int, windowMs: int, times: seq<int>)
    ensures var after := Replay(rows, key, max, windowMs, times).rows;
      && after.Keys <= rows.Keys + {key}
      && forall k :: k in rows && k != key ==> k in after && after[k] == rows[k]
    decreases |times|
  {
    if times != [] {
      var first := Step(rows, key, max, windowMs, times[0], false);
      ReplayOnlyTouchesKey(first.rows, key, max, windowMs, times[1..]);
    }
  }

  /** The number of Allowed decisions. */
  function AllowedCount(ds: seq<Decision>): nat
  {
    if ds == [] then 0 else (if ds[0] == Allowed then 1 else 0) + AllowedCount(ds[1..])
  }

  function Min(a: int, b: int): int
  {
    if a <= b then a else b
  }

  /** One fault-free call inside the key's current window: it is allowed
      exactly while the count is below both `max` and the count column's
      limit, which raises the count by one; otherwise it writes nothing. */
  lemma ActiveWindowStep(rows: map<Key, Record>, key: Key, max: int, windowMs: int, now: int)
    requires key in rows && now < rows[key].windowStart + windowMs
    ensures var r := Step(rows, key, max, windowMs, now, false);
      && (r.decision == Allowed <==> rows[key].count < Min(max, MaxStoredCount))
      && key in r.rows
      && r.rows[key].windowStart == rows[key].windowStart
      && r.rows[key].count == rows[key].count + (if r.decision == Allowed then 1 else 0)
      && (r.decision == Allowed ==>
            r.rows == rows[key := Record(rows[key].count + 1, rows[key].windowStart, now)])
      && (r.decision != Allowed ==>
            r.rows == rows
            && r.decision == if rows[key].count < max then StoreError
                             else Denied(rows[key].windowStart + windowMs - now))
  {
  }

  /** A sequence of decisions whose allowed ones are exactly its first `q`
      has `min(|ds|, q)` of them. */
  lemma {:induction false} AllowedPrefixCount(ds: seq<Decision>, q: int)
    requires q >= 0
    requires forall i :: 0 <= i < |ds| ==> (ds[i] == Allowed <==> i < q)
    ensures AllowedCount(ds) == Min(|ds|, q)
    decreases |ds|
  {
    if ds != [] {
      var q' := if q > 0 then q - 1 else 0;
      forall i | 0 <= i < |ds[1..]| ensures ds[1..][i] == Allowed <==> i < q' {
        assert ds[1..][i] == ds[i + 1];
      }
      AllowedPrefixCount(ds[1..], q');
    }
  }

  /** The key's record after the first `min(|times|, quota)` calls of `times`
      each counted one request in its window, stamping its own time. */
  function EndOfAllowed(rec: Record, times: seq<int>, quota: int): Record
  {
    var m := Min(|times|, quota);
    if m <= 0 then rec
    else Record(rec.count + m, rec.windowStart, times[m - 1])
  }

  /** Counting the first allowed call and then the rest of the quota over the
      remaining times ends in the same record as counting the whole quota. */
  lemma EndOfAllowedShift(rec: Record, times: seq<int>, quota: int)
    requires |times| > 0 && quota > 0
    ensures EndOfAllowed(Record(rec.count + 1, rec.windowStart, times[0]), times[1..], quota - 1)
      == EndOfAllowed(rec, times, quota)
  {
    var m := Min(|times|, quota);
    if m > 1 {
      assert times[1..][m - 2] == times[m - 1];
    }
  }

  /** The decisions of a run inside the key's current window: the first
      `quota` calls are allowed, and every later one is denied with the time
      left or fails as out of range. */
  lemma {:induction false} ActiveWindowRun(rows: map<Key, Record>, key: Key, max: int, windowMs: int, times: seq<int>)
    requires key in rows && rows[key].count <= max && rows[key].count <= MaxStoredCount
    requires forall i :: 0 <= i < |times| ==> times[i] < rows[key].windowStart + windowMs
    ensures var r := Replay(rows, key, max, windowMs, times);
      var quota := Min(max, MaxStoredCount) - rows[key].count;
      && (forall i :: 0 <= i < |times| ==> (r.decisions[i] == Allowed <==> i < quota))
      && forall i :: 0 <= i < |times| && r.decisions[i] != Allowed ==>
           r.decisions[i] == if max <= MaxStoredCount
                             then Denied(rows[key].windowStart + windowMs - times[i])
                             else StoreError
    decreases |times|
  {
    if times != [] {
      var rec := rows[key];
      var quota := Min(max, MaxStoredCount) - rec.count;
      var first := Step(rows, key, max, windowMs, times[0], false);
      var r := Replay(rows, key, max, windowMs, times);
      var rest := Replay(first.rows, key, max, windowMs, times[1..]);
      assert r.decisions == [first.decision] + rest.decisions;
      assert r.rows == rest.rows;
      ActiveWindowStep(rows, key, max, windowMs, times[0]);
      var rec' := first.rows[key];
      forall i | 0 <= i < |times[1..]|
        ensures times[1..][i] < rec'.windowStart + windowMs
      {
        assert times[1..][i] == times[i + 1];
      }
      ActiveWindowRun(first.rows, key, max, windowMs, times[1..]);
      forall i | 0 <= i < |times|
        ensures r.decisions[i] == Allowed <==> i < quota
        ensures r.decisions[i] != Allowed ==>
          r.decisions[i] == if max <= MaxStoredCount then Denied(rec.windowStart + windowMs - times[i]) else StoreError
      {
        if i > 0 {
          assert r.decisions[i] == rest.decisions[i - 1];
          assert times[i] == times[1..][i - 1];
        }
      }
    }
  }

  /** The key's record after a run inside its current window is as the last
      allowed call left it: the calls after the quota is used up write
      nothing to it. */
  lemma {:induction false} ActiveWindowRecord(rows: map<Key, Record>, key: Key, max: int, windowMs: int, times: seq<int>)
    requires key in rows && rows[key].count <= max && rows[key].count <= MaxStoredCount
    requires forall i :: 0 <= i < |times| ==> times[i] < rows[key].windowStart + windowMs
    ensures var after := Replay(rows, key, max, windowMs, times).rows;
      key in after && after[key] == EndOfAllowed(rows[key], times, Min(max, MaxStoredCount) - rows[key].count)
    decreases |times|
  {
    if times != [] {
      var rec := rows[key];
      var quota := Min(max, MaxStoredCount) - rec.count;
      var first := Step(rows, key, max, windowMs, times[0], false);
      ActiveWindowStep(rows, key, max, windowMs, times[0]);
      var rec' := first.rows[key];
      forall i | 0 <= i < |times[1..]|
        ensures times[1..][i] < rec'.windowStart + windowMs
      {
        assert times[1..][i] == times[i + 1];
      }
      ActiveWindowRecord(first.rows, key, max, windowMs, times[1..]);
      if first.decision == Allowed {
        EndOfAllowedShift(rec, times, quota);
      } else {
        assert quota == 0;
      }
    }
  }

  /** The table after a run inside the key's current window: only the key's
      record changed, and it is as the last allowed call left it. */
  lemma ActiveWindowRows(rows: map<Key, Record>, key: Key, max: int, windowMs: int, times: seq<int>)
    requires key in rows && rows[key].count <= max && rows[key].count <= MaxStoredCount
    requires forall i :: 0 <= i < |times| ==> times[i] < rows[key].windowStart + windowMs
    ensures Replay(rows, key, max, windowMs, times).rows
      == rows[key := EndOfAllowed(rows[key], times, Min(max, MaxStoredCount) - rows[key].count)]
  {
    ActiveWindowRecord(rows, key, max, windowMs, times);
    ReplayOnlyTouchesKey(rows, key, max, windowMs, times);
  }

  /** Quota bound inside one window: while every call falls before the end of
      the key's current window, exactly the first `quota` calls are allowed,
      where `quota` is what is left of `max` (or of the count column, when
      `max` exceeds it), and the count grows by that much. Every later call
      writes nothing: it is denied with the time left until the window ends,
      or, when `max` exceeds the count column, fails as out of range. */
  lemma ActiveWindowQuota(rows: map<Key, Record>, key: Key, max: int, windowMs: int, times: seq<int>)
    requires key in rows && rows[key].count <= max && rows[key].count <= MaxStoredCount
    requires forall i :: 0 <= i < |times| ==> times[i] < rows[key].windowStart + windowMs
    ensures var r := Replay(rows, key, max, windowMs, times);
      var quota := Min(max, MaxStoredCount) - rows[key].count;
      && (forall i :: 0 <= i < |times| ==> (r.decisions[i] == Allowed <==> i < quota))
      && AllowedCount(r.decisions) == Min(|times|, quota)
      && key in r.rows
      && r.rows[key].windowStart == rows[key].windowStart
      && r.rows[key].count == rows[key].count + AllowedCount(r.decisions)
      && r.rows == rows[key := EndOfAllowed(rows[key], times, quota)]
      && forall i :: 0 <= i < |times| && r.decisions[i] != Allowed ==>
           r.decisions[i] == if max <= MaxStoredCount
                             then Denied(rows[key].windowStart + windowMs - times[i])
                             else StoreError
  {
    ActiveWindowRun(rows, key, max, windowMs, times);
    ActiveWindowRows(rows, key, max, windowMs, times);
    AllowedPrefixCount(Replay(rows, key, max, windowMs, times).decisions, Min(max, MaxStoredCount) - rows[key].count);
  }

  /** Quota bound for a new key: of calls that all fall before the end of the
      window opened by the first of them, exactly `min(n, max)` are allowed
      (with `max` capped by the count column's range). */
  lemma FreshKeyQuota(rows: map<Key, Record>, key: Key, max: int, windowMs: int, times: seq<int>)
    requires key !in rows && max >= 1 && |times| > 0
    requires forall i :: 0 <= i < |times| ==> times[i] < times[0] + windowMs
    ensures AllowedCount(Replay(rows, key, max, windowMs, times).decisions) == Min(|times|, Min(max, MaxStoredCount))
  {
    var first := Step(rows, key, max, windowMs, times[0], false);
    var r := Replay(rows, key, max, windowMs, times);
    var rest := Replay(first.rows, key, max, windowMs, times[1..]);
    assert first.rows[key] == Record(1, times[0], times[0]);
    forall i | 0 <= i < |times[1..]|
      ensures times[1..][i] < first.rows[key].windowStart + windowMs
    {
      assert times[1..][i] == times[i + 1];
    }
    ActiveWindowQuota(first.rows, key, max, windowMs, times[1..]);
    assert r.decisions[1..] == rest.decisions;
  }

  /** Three requests per ten seconds: calls at 0, 1 and 2 ms are allowed, the
      call at 3 ms is denied with 9997 ms to wait, and the call at 10001 ms
      opens a new window. */
  lemma ThreePerTenSecondsScenario(key: Key)
    ensures var r := Replay(map[], key, 3, 10000, [0, 1, 2, 3, 10001]);
      && r.decisions == [Allowed, Allowed, Allowed, Denied(9997), Allowed]
      && r.rows == map[key := Record(1, 10001, 10001)]
  {
  }
}
