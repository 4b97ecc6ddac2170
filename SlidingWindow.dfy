/**
 * The sliding-window-log rate limiter of rate-limiter/sliding-window-ratelimiter.go.
 *
 * The log holds the times of admitted requests. Every call first drops the
 * entries that are not strictly after `now - interval` and commits that,
 * then appends `now` if fewer than `limit` entries remain.
 */
module SlidingWindow {

  import opened Time

  /** The entries of `log` strictly after `threshold`, in their original order. */
  function Prune(log: seq<int>, threshold: int): (r: seq<int>)
    ensures |r| <= |log|
    ensures forall t :: t in r <==> t in log && t > threshold
    decreases |log|
  {
    if log == [] then []
    else
      var init := Prune(log[..|log| - 1], threshold);
      var last := log[|log| - 1];
      assert log == log[..|log| - 1] + [last];
      if last > threshold then init + [last] else init
  }

  /** The decision of one `Allow` call and the log it leaves behind. */
  datatype Step = Step(next: seq<int>, admitted: bool)

  /** One call of `Allow` at time `now`. */
  function AllowStep(limit: int, interval: int, log: seq<int>, now: int): (s: Step)
    ensures s.admitted <==> |Prune(log, now - interval)| < limit
    ensures s.admitted ==> |s.next| <= limit
    ensures forall t :: t in s.next <==> (t in log && t > now - interval) || (s.admitted && t == now)
  {
    var kept := Prune(log, now - interval);
    if |kept| < limit then Step(kept + [now], true) else Step(kept, false)
  }

  /** The log after a sequence of calls on a new limiter, and the times of the admitted calls. */
  datatype Trace = Trace(log: seq<int>, admitted: seq<int>)

  /** One more call of `Allow` at `now`, recorded in the trace. */
  function Extend(limit: int, interval: int, before: Trace, now: int): Trace
  {
    var s := AllowStep(limit, interval, before.log, now);
    Trace(s.next, before.admitted + if s.admitted then [now] else [])
  }

  /** Calls of `Allow` at the given times, in order, starting from an empty log. */
  function Run(limit: int, interval: int, times: seq<int>): Trace
    decreases |times|
  {
    if times == [] then Trace([], [])
    else Extend(limit, interval, Run(limit, interval, times[..|times| - 1]), times[|times| - 1])
  }

  /** The log holds exactly the admitted times strictly after `now - interval`, and at most `limit` of them. */
  predicate Recent(limit: int, interval: int, t: Trace, now: int)
  {
    t.log == Prune(t.admitted, now - interval) && |t.log| <= limit
  }

  /**
   * `Allow` admits exactly when the pruned log has room; it then appends
   * `now` at the end, and otherwise leaves the pruned log (the pruning is
   * kept even on rejection).
   */
  lemma AllowOutcomes(limit: int, interval: int, log: seq<int>, now: int)
    ensures var s := AllowStep(limit, interval, log, now);
      var kept := Prune(log, now - interval);
      && (s.admitted <==> |kept| < limit)
      && s.next == if s.admitted then kept + [now] else kept
  {
  }

  /** On a sorted log, pruning drops a prefix: what is kept is a suffix of the log. */
  lemma {:induction false} PruneSortedIsSuffix(log: seq<int>, threshold: int)
    requires NonDecreasing(log)
    ensures var r := Prune(log, threshold); r == log[|log| - |r|..]
    decreases |log|
  {
    if log != [] {
      var n := |log|;
      PruneSortedIsSuffix(log[..n - 1], threshold);
      if log[n - 1] <= threshold {
        PruneNothingAfter(log[..n - 1], threshold);
      }
    }
  }

  /** When no entry is after `threshold`, pruning leaves nothing. */
  lemma {:induction false} PruneNothingAfter(log: seq<int>, threshold: int)
    requires forall i :: 0 <= i < |log| ==> log[i] <= threshold
    ensures Prune(log, threshold) == []
    decreases |log|
  {
    if log != [] {
      PruneNothingAfter(log[..|log| - 1], threshold);
    }
  }

  /** Pruning at `a` and then at a later threshold `b` is pruning at `b`. */
  lemma {:induction false} PruneTwice(log: seq<int>, a: int, b: int)
    requires a <= b
    ensures Prune(Prune(log, a), b) == Prune(log, b)
    decreases |log|
  {
    if log != [] {
      var n := |log|;
      PruneTwice(log[..n - 1], a, b);
      var init := Prune(log[..n - 1], a);
      if log[n - 1] > a {
        assert (init + [log[n - 1]])[..|init|] == init;
      }
    }
  }

  /** For a call no earlier than every logged entry, `Allow` keeps the log sorted. */
  lemma AllowKeepsLogSorted(limit: int, interval: int, log: seq<int>, now: int)
    requires NonDecreasing(log)
    requires forall i :: 0 <= i < |log| ==> log[i] <= now
    ensures NonDecreasing(AllowStep(limit, interval, log, now).next)
  {
    PruneSortedIsSuffix(log, now - interval);
  }

  /** `Allow` never leaves more than `limit` entries if it found at most `limit`. */
  lemma AllowKeepsLogInLimit(limit: int, interval: int, log: seq<int>, now: int)
    requires |log| <= limit
    ensures |AllowStep(limit, interval, log, now).next| <= limit
  {
  }

  /**
   * For nondecreasing call times and `interval > 0`, the log after the last
   * call is exactly the admitted times strictly after `now - interval`, and
   * there are at most `limit` of them: the limit holds over every trailing
   * interval that ends at a call.
   */
  lemma {:induction false} LogIsRecentAdmissions(limit: int, interval: int, times: seq<int>)
    requires 0 <= limit && 0 < interval
    requires |times| > 0 && NonDecreasing(times)
    ensures Recent(limit, interval, Run(limit, interval, times), times[|times| - 1])
    decreases |times|
  {
    var n := |times|;
    var now := times[n - 1];
    var prefix := times[..n - 1];
    if n == 1 {
      RecentAdmissionsStep(limit, interval, Trace([], []), now, now);
    } else {
      assert NonDecreasing(prefix);
      LogIsRecentAdmissions(limit, interval, prefix);
      assert prefix[n - 2] <= now;
      RecentAdmissionsStep(limit, interval, Run(limit, interval, prefix), prefix[n - 2], now);
    }
  }

  /** One step of the induction above: a log that is the recent admissions stays so. */
  lemma RecentAdmissionsStep(limit: int, interval: int, before: Trace, prev: int, now: int)
    requires 0 <= limit && 0 < interval && prev <= now
    requires Recent(limit, interval, before, prev)
    ensures Recent(limit, interval, Extend(limit, interval, before, now), now)
  {
    var admitted := before.admitted;
    PruneTwice(admitted, prev - interval, now - interval);
    var kept := Prune(before.log, now - interval);
    assert kept == Prune(admitted, now - interval);
    assert Prune(admitted + [now], now - interval) == kept + [now] by {
      assert (admitted + [now])[..|admitted|] == admitted;
    }
    assert admitted + [] == admitted;
  }

  /** The filtering loop of `Allow`: keeps the entries strictly after `threshold`. */
  method PruneLog(log: seq<int>, threshold: int) returns (kept: seq<int>)
    ensures kept == Prune(log, threshold)
  {
    kept := [];
    var i := 0;
    while i < |log|
      invariant 0 <= i <= |log|
      invariant kept == Prune(log[..i], threshold)
    {
      assert log[..i + 1][..i] == log[..i];
      if log[i] > threshold {
        kept := kept + [log[i]];
      }
      i := i + 1;
    }
    assert log[..|log|] == log;
  }

  /** The limiter object: `limit` and `interval` are fixed; the request log changes. */
  class SlidingWindowRateLimiter {
    const limit: int
    const interval: int
    var requests: seq<int>

    ghost predicate Valid()
      reads this
    {
      0 <= limit && |requests| <= limit
    }

    /** `NewSlidingWindowRateLimiter`: the log starts empty. */
    constructor (limit: int, interval: int)
      requires limit >= 0
      ensures this.limit == limit && this.interval == interval
      ensures requests == []
      ensures Valid()
    {
      this.limit := limit;
      this.interval := interval;
      requests := [];
    }

    method Allow(now: int) returns (ok: bool)
      requires Valid()
      modifies this
      ensures Valid()
      ensures Step(requests, ok) == AllowStep(limit, interval, old(requests), now)
    {
      var kept := PruneLog(requests, now - interval);
      requests := kept;
      if |requests| < limit {
        kept := kept + [now];
        requests := kept;
        return true;
      }
      return false;
    }
  }
}
