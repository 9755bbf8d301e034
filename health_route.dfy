/** The self-throttling of the `/health` route (routes/health.js): an
    in-memory sliding log of request times per client address, admitting at
    most 60 requests in any 60-second window. Times are integer milliseconds. */
module HealthRoute {

  const WindowMs: int := 60000
  const MaxRequests: int := 60

  /** `s.filter(time => time > cutoff)`: exactly the entries above the cutoff,
      each as often as in `s`. */
  function KeepAfter(s: seq<int>, cutoff: int): (r: seq<int>)
    ensures |r| <= |s|
    ensures forall i :: 0 <= i < |r| ==> r[i] > cutoff
    ensures forall x :: multiset(r)[x] == if x > cutoff then multiset(s)[x] else 0
    decreases |s|
  {
    if s == [] then []
    else
      assert s == [s[0]] + s[1..];
      if s[0] > cutoff then [s[0]] + KeepAfter(s[1..], cutoff) else KeepAfter(s[1..], cutoff)
  }

  /** The entries of a client's log that are still inside the window at `now`. */
  function Recent(log: seq<int>, now: int): seq<int>
  {
    KeepAfter(log, now - WindowMs)
  }

  /** `healthRequests.get(ip) || []`: a client without an entry has an empty log. */
  function Lookup(requests: map<string, seq<int>>, ip: string): seq<int>
  {
    if ip in requests then requests[ip] else []
  }

  /** What one request does to a client's log: whether it is admitted, and
      the log the client has afterwards. */
  datatype Admission = Admission(accepted: bool, log: seq<int>)

  /** The admission rule on one client's log: admitted exactly when fewer than
      60 logged times are inside the window, and then the log becomes those
      times followed by `now`; otherwise the log is kept as it was. */
  function AdmitStep(log: seq<int>, now: int): (a: Admission)
    ensures a.accepted <==> |Recent(log, now)| < MaxRequests
    ensures a.accepted ==> a.log == Recent(log, now) + [now] && |a.log| <= MaxRequests
    ensures !a.accepted ==> a.log == log
  {
    var recent := Recent(log, now);
    if |recent| < MaxRequests then Admission(true, recent + [now]) else Admission(false, log)
  }

  ghost predicate Sorted(s: seq<int>)
  {
    forall i, j :: 0 <= i < j < |s| ==> s[i] <= s[j]
  }

  /** The module-level `healthRequests` map. */
  class HealthRequestLog {
    var requests: map<string, seq<int>>

    /** No client's stored log is longer than the quota. */
    ghost predicate Valid()
      reads this
    {
      forall ip :: ip in requests ==> |requests[ip]| <= MaxRequests
    }

    constructor ()
      ensures Valid() && requests == map[]
    {
      requests := map[];
    }

    /** The limiter of the `/health` handler: a request is admitted exactly
        when fewer than 60 of the client's logged times are inside the
        window; then the client's log becomes those times followed by `now`.
        A rejected request changes nothing, not even by pruning. */
    method Admit(clientIp: string, now: int) returns (accepted: bool)
      requires Valid()
      modifies this
      ensures Valid()
      ensures accepted <==> |Recent(Lookup(old(requests), clientIp), now)| < MaxRequests
      ensures accepted ==>
        requests == old(requests)[clientIp := Recent(Lookup(old(requests), clientIp), now) + [now]]
      ensures !accepted ==> requests == old(requests)
      ensures var a := AdmitStep(Lookup(old(requests), clientIp), now);
        accepted == a.accepted && (accepted ==> requests[clientIp] == a.log)
    {
      var cutoff := now - WindowMs;
      var clientRequests := if clientIp in requests then requests[clientIp] else [];
      var recentRequests := KeepAfter(clientRequests, cutoff);
      if |recentRequests| >= MaxRequests {
        return false;
      }
      recentRequests := recentRequests + [now];
      requests := requests[clientIp := recentRequests];
      accepted := true;
    }
  }

  // ---------------------------------------------------------------------
  // Properties of the filter

  lemma {:induction false} KeepAfterConcat(a: seq<int>, b: seq<int>, cutoff: int)
    ensures KeepAfter(a + b, cutoff) == KeepAfter(a, cutoff) + KeepAfter(b, cutoff)
    decreases |a|
  {
    if a == [] {
      assert a + b == b;
    } else {
      assert (a + b)[0] == a[0];
      assert (a + b)[1..] == a[1..] + b;
      KeepAfterConcat(a[1..], b, cutoff);
    }
  }

  /** Filtering twice keeps what the stricter cutoff keeps. */
  lemma {:induction false} KeepAfterTwice(s: seq<int>, c1: int, c2: int)
    requires c1 <= c2
    ensures KeepAfter(KeepAfter(s, c1), c2) == KeepAfter(s, c2)
    decreases |s|
  {
    if s != [] {
      KeepAfterTwice(s[1..], c1, c2);
      if s[0] > c1 {
        assert ([s[0]] + KeepAfter(s[1..], c1))[1..] == KeepAfter(s[1..], c1);
      }
    }
  }

  /** Filtering keeps the relative order of the entries. */
  lemma {:induction false} KeepAfterSorted(s: seq<int>, cutoff: int)
    requires Sorted(s)
    ensures Sorted(KeepAfter(s, cutoff))
    decreases |s|
  {
    if s != [] {
      var tail := KeepAfter(s[1..], cutoff);
      KeepAfterSorted(s[1..], cutoff);
      forall j | 0 <= j < |tail| ensures s[0] <= tail[j] {
        assert multiset(tail)[tail[j]] > 0;
        assert tail[j] in s[1..];
      }
    }
  }

  // ---------------------------------------------------------------------
  // Properties of one admission

  /** A client without an entry is admitted. */
  lemma FirstRequestAdmitted(requests: map<string, seq<int>>, ip: string, now: int)
    requires ip !in requests
    ensures |Recent(Lookup(requests, ip), now)| < MaxRequests
  {
  }

  /** The log stored on admission holds at most 60 times, all after
      `now - 60000`, and ends with `now`; if no logged time is later than
      `now`, all of them lie in `(now - 60000, now]`. */
  lemma AdmittedLogInWindow(log: seq<int>, now: int)
    requires |Recent(log, now)| < MaxRequests
    ensures var stored := Recent(log, now) + [now];
      && |stored| <= MaxRequests
      && stored[|stored| - 1] == now
      && (forall i :: 0 <= i < |stored| ==> now - WindowMs < stored[i])
      && ((forall i :: 0 <= i < |log| ==> log[i] <= now) ==>
            forall i :: 0 <= i < |stored| ==> stored[i] <= now)
  {
    var recent := Recent(log, now);
    if forall i :: 0 <= i < |log| ==> log[i] <= now {
      forall i | 0 <= i < |recent| ensures recent[i] <= now {
        assert multiset(recent)[recent[i]] > 0;
        assert recent[i] in log;
      }
    }
  }

  /** With a clock that does not go backwards, a sorted log stays sorted. */
  lemma AdmittedLogSorted(log: seq<int>, now: int)
    requires Sorted(log)
    requires forall i :: 0 <= i < |log| ==> log[i] <= now
    ensures Sorted(Recent(log, now) + [now])
  {
    var recent := Recent(log, now);
    KeepAfterSorted(log, now - WindowMs);
    forall i | 0 <= i < |recent| ensures recent[i] <= now {
      assert multiset(recent)[recent[i]] > 0;
      assert recent[i] in log;
    }
  }

  // ---------------------------------------------------------------------
  // Runs of requests from one client

  /** The admitted times and the final log of successive requests from one
      client at the given times. */
  datatype LogRun = LogRun(accepted: seq<int>, log: seq<int>)

  function RunLog(log: seq<int>, times: seq<int>): (r: LogRun)
    ensures |r.accepted| <= |times|
    decreases |times|
  {
    if times == [] then LogRun([], log)
    else
      var a := AdmitStep(log, times[0]);
      var rest := RunLog(a.log, times[1..]);
      if a.accepted then LogRun([times[0]] + rest.accepted, rest.log)
      else rest
  }

  /** Every admitted time is one of the request times, taken at most as often
      as it was requested. */
  lemma {:induction false} RunLogAdmitsOnlyRequests(log: seq<int>, times: seq<int>)
    ensures multiset(RunLog(log, times).accepted) <= multiset(times)
    decreases |times|
  {
    if times != [] {
      assert times == [times[0]] + times[1..];
      RunLogAdmitsOnlyRequests(AdmitStep(log, times[0]).log, times[1..]);
    }
  }

  /** For each admitted time `accepted[i]`, the admitted times up to it
      (after the earlier `history`) that fall in the 60 seconds ending at it
      number at most 60. */
  ghost predicate WindowsWithinQuota(history: seq<int>, accepted: seq<int>)
  {
    forall i :: 0 <= i < |accepted| ==>
      |KeepAfter(history + accepted[..i + 1], accepted[i] - WindowMs)| <= MaxRequests
  }

  lemma WindowsWithinQuotaCons(history: seq<int>, now: int, rest: seq<int>)
    requires |KeepAfter(history + [now], now - WindowMs)| <= MaxRequests
    requires WindowsWithinQuota(history + [now], rest)
    ensures WindowsWithinQuota(history, [now] + rest)
  {
    var accepted := [now] + rest;
    forall i | 0 <= i < |accepted|
      ensures |KeepAfter(history + accepted[..i + 1], accepted[i] - WindowMs)| <= MaxRequests
    {
      if i == 0 {
        assert history + accepted[..1] == history + [now];
      } else {
        assert history + accepted[..i + 1] == (history + [now]) + rest[..i];
        assert accepted[i] == rest[i - 1];
      }
    }
  }

  /** One admission against a log that is the history cut at `cutoff`, with
      `now` at least a window after the cutoff: an admitted request leaves the
      history extended by `now`, cut at `now - 60000`, holding at most 60
      times; a rejected one leaves the log as it was. */
  lemma AdmitStepOnHistory(history: seq<int>, cutoff: int, now: int)
    requires cutoff + WindowMs <= now
    ensures var a := AdmitStep(KeepAfter(history, cutoff), now);
      && (a.accepted ==>
            a.log == KeepAfter(history + [now], now - WindowMs)
            && |KeepAfter(history + [now], now - WindowMs)| <= MaxRequests)
      && (!a.accepted ==> a.log == KeepAfter(history, cutoff))
  {
    KeepAfterTwice(history, cutoff, now - WindowMs);
    KeepAfterConcat(history, [now], now - WindowMs);
    assert KeepAfter([now], now - WindowMs) == [now];
  }

  /** The sliding-window guarantee. Start from a log that is the client's
      past admitted times `history` cut at `cutoff`, and let the requests come
      in time order, none earlier than `cutoff + 60000`. Then for each
      admitted request, the admitted requests (past ones included) in the
      60 seconds up to and including it number at most 60. */
  lemma {:induction false} SlidingWindowQuota(history: seq<int>, cutoff: int, times: seq<int>)
    requires Sorted(times)
    requires forall i :: 0 <= i < |times| ==> cutoff + WindowMs <= times[i]
    ensures WindowsWithinQuota(history, RunLog(KeepAfter(history, cutoff), times).accepted)
    decreases |times|
  {
    if times != [] {
      var now := times[0];
      var log := KeepAfter(history, cutoff);
      var a := AdmitStep(log, now);
      var rest := RunLog(a.log, times[1..]);
      assert RunLog(log, times).accepted == if a.accepted then [now] + rest.accepted else rest.accepted;
      AdmitStepOnHistory(history, cutoff, now);
      var later := times[1..];
      forall i | 0 <= i < |later|
        ensures cutoff + WindowMs <= later[i] && now - WindowMs + WindowMs <= later[i]
      {
        assert later[i] == times[i + 1];
      }
      assert Sorted(later) by {
        forall i, j | 0 <= i < j < |later| ensures later[i] <= later[j] {
          assert later[i] == times[i + 1] && later[j] == times[j + 1];
        }
      }
      if a.accepted {
        SlidingWindowQuota(history + [now], now - WindowMs, later);
        WindowsWithinQuotaCons(history, now, rest.accepted);
      } else {
        SlidingWindowQuota(history, cutoff, later);
      }
    }
  }

  /** For a client with no log and requests in time order: in the 60 seconds
      up to and including any admitted request, at most 60 requests were
      admitted. */
  lemma FreshClientSlidingWindow(times: seq<int>)
    requires Sorted(times)
    ensures var r := RunLog([], times);
      forall i :: 0 <= i < |r.accepted| ==>
        |KeepAfter(r.accepted[..i + 1], r.accepted[i] - WindowMs)| <= MaxRequests
  {
    if times != [] {
      assert KeepAfter([], times[0] - WindowMs) == [];
      SlidingWindowQuota([], times[0] - WindowMs, times);
      var r := RunLog([], times);
      forall i | 0 <= i < |r.accepted|
        ensures |KeepAfter(r.accepted[..i + 1], r.accepted[i] - WindowMs)| <= MaxRequests
      {
        assert [] + r.accepted[..i + 1] == r.accepted[..i + 1];
      }
    }
  }
}
