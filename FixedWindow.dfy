/**
 * The fixed-window rate limiter of fixed-window-ratelimiter.go.
 *
 * Time is an integer `now` (the clock is a parameter); `interval` is in the
 * same unit. The window is anchored at the first request after a reset, not
 * at clock boundaries, which is what allows the documented boundary burst.
 */
module FixedWindow {

  import opened Time

  /** The two fields `Allow` updates: admissions counted in the current window, and its start. */
  datatype Window = Window(count: int, start: int)

  /** The decision of one `Allow` call and the fields it leaves behind. */
  datatype Step = Step(next: Window, admitted: bool)

  /** The fields after a sequence of calls, and how many of those calls were admitted. */
  datatype Trace = Trace(last: Window, admitted: nat)

  /** The window that began at `start` still covers `now` (`start + interval` is strictly after `now`). */
  predicate Covers(interval: int, start: int, now: int)
  {
    start + interval > now
  }

  /** One call of `Allow` at time `now`. */
  function AllowStep(limit: int, interval: int, w: Window, now: int): (s: Step)
    ensures s.admitted <==> !Covers(interval, w.start, now) || w.count < limit
    ensures !s.admitted ==> s.next == w
    ensures s.admitted && interval > 0 ==> Covers(interval, s.next.start, now)
  {
    if Covers(interval, w.start, now) then
      if w.count < limit then Step(Window(w.count + 1, w.start), true)
      else Step(w, false)
    else
      Step(Window(1, now), true)
  }

  /** Calls of `Allow` at the given times, in order. */
  function Run(limit: int, interval: int, w: Window, times: seq<int>): Trace
    decreases |times|
  {
    if times == [] then Trace(w, 0)
    else
      var s := AllowStep(limit, interval, w, times[0]);
      var t := Run(limit, interval, s.next, times[1..]);
      Trace(t.last, t.admitted + if s.admitted then 1 else 0)
  }

  /** `k` calls at the same instant `t`. */
  function Repeat(t: int, k: nat): (r: seq<int>)
    ensures |r| == k && forall i :: 0 <= i < k ==> r[i] == t
  {
    if k == 0 then [] else [t] + Repeat(t, k - 1)
  }

  /**
   * The three outcomes of one call: inside the window it admits and counts
   * while `count < limit`, and otherwise rejects without touching any field;
   * once the window has run out it admits, restarts the window at `now` and
   * sets the count to 1, whatever the count was.
   */
  lemma AllowOutcomes(limit: int, interval: int, w: Window, now: int)
    ensures var s := AllowStep(limit, interval, w, now);
      && (w.start + interval > now && w.count < limit ==> s == Step(Window(w.count + 1, w.start), true))
      && (w.start + interval > now && w.count >= limit ==> s == Step(w, false))
      && (w.start + interval <= now ==> s == Step(Window(1, now), true))
  {
  }

  /** With `limit >= 1`, `0 <= count <= limit` holds after every call that found it. */
  lemma AllowKeepsCountInLimit(limit: int, interval: int, w: Window, now: int)
    requires 1 <= limit && 0 <= w.count <= limit
    ensures var s := AllowStep(limit, interval, w, now);
      0 <= s.next.count <= limit && (s.admitted ==> s.next.count >= 1)
  {
  }

  /**
   * Within one window instance (no call reaches `start + interval`) at most
   * `limit - count` further calls are admitted, and the window does not move.
   */
  lemma {:induction false} OneWindowAdmitsAtMostLimit(limit: int, interval: int, w: Window, times: seq<int>)
    requires 0 <= w.count <= limit
    requires forall i :: 0 <= i < |times| ==> Covers(interval, w.start, times[i])
    ensures var t := Run(limit, interval, w, times);
      t.last.start == w.start && t.last.count == w.count + t.admitted && t.admitted <= limit - w.count
    decreases |times|
  {
    if times != [] {
      var s := AllowStep(limit, interval, w, times[0]);
      OneWindowAdmitsAtMostLimit(limit, interval, s.next, times[1..]);
    }
  }

  /** For nondecreasing call times, the window start never moves backward. */
  lemma {:induction false} WindowNeverMovesBack(limit: int, interval: int, w: Window, times: seq<int>)
    requires NonDecreasing(times)
    requires |times| > 0 ==> w.start <= times[0]
    ensures w.start <= Run(limit, interval, w, times).last.start
    decreases |times|
  {
    if times != [] {
      var s := AllowStep(limit, interval, w, times[0]);
      assert s.next.start == w.start || s.next.start == times[0];
      assert |times| > 1 ==> times[0] <= times[1];
      WindowNeverMovesBack(limit, interval, s.next, times[1..]);
    }
  }

  /** Running two batches of calls one after the other. */
  lemma {:induction false} RunAppend(limit: int, interval: int, w: Window, a: seq<int>, b: seq<int>)
    ensures var ta := Run(limit, interval, w, a);
      var tb := Run(limit, interval, ta.last, b);
      Run(limit, interval, w, a + b) == Trace(tb.last, ta.admitted + tb.admitted)
    decreases |a|
  {
    if a != [] {
      assert (a + b)[1..] == a[1..] + b;
      var s := AllowStep(limit, interval, w, a[0]);
      RunAppend(limit, interval, s.next, a[1..], b);
    } else {
      assert a + b == b;
    }
  }

  /** `k` calls at one instant inside the window, with room for all of them, are all admitted. */
  lemma {:induction false} SameInstantAllAdmitted(limit: int, interval: int, w: Window, t: int, k: nat)
    requires Covers(interval, w.start, t) && w.count + k <= limit
    ensures Run(limit, interval, w, Repeat(t, k)) == Trace(Window(w.count + k, w.start), k)
    decreases k
  {
    if k > 0 {
      var s := AllowStep(limit, interval, w, t);
      assert Repeat(t, k)[1..] == Repeat(t, k - 1);
      SameInstantAllAdmitted(limit, interval, s.next, t, k - 1);
    }
  }

  /**
   * The boundary burst: starting a fresh window at `s`, `limit` calls one
   * time unit before the window runs out and `limit` calls at the instant it
   * runs out are all admitted, that is `2 * limit` admissions within one unit.
   */
  lemma {:induction false} BoundaryBurst(limit: int, interval: int, s: int)
    requires limit >= 1 && interval >= 1
    ensures Run(limit, interval, Window(0, s), Repeat(s + interval - 1, limit) + Repeat(s + interval, limit)).admitted
            == 2 * limit
  {
    var before := Repeat(s + interval - 1, limit);
    var after := Repeat(s + interval, limit);
    SameInstantAllAdmitted(limit, interval, Window(0, s), s + interval - 1, limit);
    var mid := Window(limit, s);
    RunAppend(limit, interval, Window(0, s), before, after);
    // The first call at `s + interval` finds the window run out and restarts it.
    var reset := AllowStep(limit, interval, mid, s + interval);
    assert reset == Step(Window(1, s + interval), true);
    assert after[1..] == Repeat(s + interval, limit - 1);
    SameInstantAllAdmitted(limit, interval, reset.next, s + interval, limit - 1);
  }

  /** The limiter object: `limit` and `interval` are fixed at construction; `count` and `window` change. */
  class FixedWindowLimiter {
    const limit: int
    const interval: int
    var count: int
    var window: int

    /** The count never exceeds the limit, except for the 1 that a window reset sets when `limit < 1`. */
    ghost predicate Valid()
      reads this
    {
      0 <= count && (count <= limit || count <= 1)
    }

    /** `NewFixedWindowLimiter`: the window starts at the construction time with nothing counted. */
    constructor (interval: int, limit: int, now: int)
      ensures this.interval == interval && this.limit == limit
      ensures count == 0 && window == now
      ensures Valid()
    {
      this.limit := limit;
      this.interval := interval;
      count := 0;
      window := now;
    }

    method Allow(now: int) returns (ok: bool)
      requires Valid()
      modifies this
      ensures Valid()
      ensures Step(Window(count, window), ok) == AllowStep(limit, interval, old(Window(count, window)), now)
      ensures now >= old(window) ==> window >= old(window)
    {
      if window + interval > now {
        if count < limit {
          count := count + 1;
          return true;
        } else {
          return false;
        }
      } else {
        count := 1;
        window := now;
        return true;
      }
    }
  }
}
