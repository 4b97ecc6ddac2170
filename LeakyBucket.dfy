/**
 * The leaky-bucket rate limiter of rate-limiter/leaky-bucket-ratelimiter.go.
 *
 * The buffered channel `queue` holds anonymous tokens, so only its
 * occupancy matters. `Allow` is a non-blocking send into it; each fire of
 * the ticker in the `leak` goroutine is a non-blocking receive, modelled as
 * an explicit `Tick`; a value on the `stop` channel ends the goroutine,
 * after which ticks drain nothing.
 */
module LeakyBucket {

  import opened Time

  /** What can happen to the bucket: a caller's `Allow`, a ticker fire, or the stop signal. */
  datatype Event = Arrive | Tick | Stop

  /** The channel's occupancy and whether the leak goroutine has returned. */
  datatype Queue = Queue(occupancy: int, stopped: bool)

  /** The outcome of one `Allow`: the queue afterwards and whether the send went through. */
  datatype Offered = Offered(next: Queue, admitted: bool)

  /** `Allow`: the send succeeds exactly when the channel has room. */
  function Offer(cap: int, q: Queue): (o: Offered)
    ensures o.admitted <==> q.occupancy < cap
    ensures 0 <= q.occupancy <= cap ==> 0 <= o.next.occupancy <= cap
    ensures !o.admitted ==> o.next == q
  {
    if q.occupancy < cap then Offered(Queue(q.occupancy + 1, q.stopped), true)
    else Offered(q, false)
  }

  /** One ticker fire in the leak loop: receive one token if there is one, while the loop still runs. */
  function Leak(q: Queue): (r: Queue)
    ensures r.stopped == q.stopped
    ensures q.occupancy >= 0 ==> 0 <= r.occupancy <= q.occupancy
    ensures q.stopped ==> r == q
  {
    if !q.stopped && q.occupancy > 0 then Queue(q.occupancy - 1, q.stopped) else q
  }

  /** The queue after a sequence of events, the sends admitted and the tokens drained. */
  datatype Trace = Trace(last: Queue, admitted: nat, drained: nat)

  function Run(cap: int, q: Queue, events: seq<Event>): Trace
    decreases |events|
  {
    if events == [] then Trace(q, 0, 0)
    else
      match events[0]
      case Arrive =>
        var o := Offer(cap, q);
        var t := Run(cap, o.next, events[1..]);
        Trace(t.last, t.admitted + (if o.admitted then 1 else 0), t.drained)
      case Tick =>
        var next := Leak(q);
        var t := Run(cap, next, events[1..]);
        Trace(t.last, t.admitted, t.drained + (if next == q then 0 else 1))
      case Stop =>
        Run(cap, Queue(q.occupancy, true), events[1..])
  }

  /** The number of ticker fires among the events. */
  function Ticks(events: seq<Event>): nat
    decreases |events|
  {
    if events == [] then 0 else (if events[0] == Tick then 1 else 0) + Ticks(events[1..])
  }

  /** `Allow` admits and adds one token exactly when the channel has room, and otherwise changes nothing. */
  lemma OfferOutcomes(cap: int, q: Queue)
    ensures var o := Offer(cap, q);
      && (o.admitted <==> q.occupancy < cap)
      && o.next.stopped == q.stopped
      && o.next.occupancy == q.occupancy + (if o.admitted then 1 else 0)
  {
  }

  /** A running loop's tick removes exactly one token when there is one; it never goes below zero. */
  lemma LeakOutcomes(q: Queue)
    requires q.occupancy >= 0
    ensures var n := Leak(q);
      && n.stopped == q.stopped && n.occupancy >= 0
      && n.occupancy == (if !q.stopped && q.occupancy > 0 then q.occupancy - 1 else q.occupancy)
  {
  }

  /**
   * Conservation over any run: the occupancy stays in `[0, cap]`, it is the
   * starting occupancy plus the admitted sends minus the drained tokens, and
   * at most one token drains per tick.
   */
  lemma {:induction false} RunConserves(cap: int, q: Queue, events: seq<Event>)
    requires 0 <= q.occupancy <= cap
    ensures var t := Run(cap, q, events);
      && 0 <= t.last.occupancy <= cap
      && t.last.occupancy == q.occupancy + t.admitted - t.drained
      && t.drained <= Ticks(events)
    decreases |events|
  {
    if events != [] {
      match events[0]
      case Arrive => RunConserves(cap, Offer(cap, q).next, events[1..]);
      case Tick => RunConserves(cap, Leak(q), events[1..]);
      case Stop => RunConserves(cap, Queue(q.occupancy, true), events[1..]);
    }
  }

  /** Throughput: a run admits at most the room left at its start plus one per tick. */
  lemma AdmissionsBoundedByTicks(cap: int, q: Queue, events: seq<Event>)
    requires 0 <= q.occupancy <= cap
    ensures Run(cap, q, events).admitted <= cap - q.occupancy + Ticks(events)
  {
    RunConserves(cap, q, events);
  }

  /** Once the leak loop has stopped, nothing drains any more. */
  lemma {:induction false} StoppedNeverDrains(cap: int, q: Queue, events: seq<Event>)
    requires q.stopped
    ensures Run(cap, q, events).drained == 0
    ensures Run(cap, q, events).last.stopped
    decreases |events|
  {
    if events != [] {
      match events[0]
      case Arrive => StoppedNeverDrains(cap, Offer(cap, q).next, events[1..]);
      case Tick => StoppedNeverDrains(cap, Leak(q), events[1..]);
      case Stop => StoppedNeverDrains(cap, Queue(q.occupancy, true), events[1..]);
    }
  }

  /**
   * With capacity 5, five immediate calls are all admitted and a sixth is
   * not; after one tick exactly one of two more calls is admitted.
   */
  lemma QueueBoundExample()
    ensures Run(5, Queue(0, false), [Arrive, Arrive, Arrive, Arrive, Arrive]).admitted == 5
    ensures Run(5, Queue(0, false), [Arrive, Arrive, Arrive, Arrive, Arrive, Arrive]).admitted == 5
    ensures Run(5, Queue(5, false), [Tick, Arrive, Arrive]).admitted == 1
    ensures Run(5, Queue(0, false), [Arrive, Arrive, Arrive, Arrive, Arrive, Arrive, Tick, Arrive, Arrive]).admitted == 6
  {
    var e := [Arrive, Arrive, Arrive, Arrive, Arrive, Arrive, Tick, Arrive, Arrive];
    assert Run(5, Queue(5, false), e[8..]).admitted == 0;
    assert Run(5, Queue(4, false), e[7..]).admitted == 1;
    assert Run(5, Queue(5, false), e[6..]).admitted == 1;
    assert Run(5, Queue(5, false), e[5..]).admitted == 1;
    assert Run(5, Queue(4, false), e[4..]).admitted == 2;
    assert Run(5, Queue(3, false), e[3..]).admitted == 3;
    assert Run(5, Queue(2, false), e[2..]).admitted == 4;
    assert Run(5, Queue(1, false), e[1..]).admitted == 5;
  }

  /** The limiter object: the channel capacity and the ticker period are fixed; the occupancy and the loop's state change. */
  class LeakyBucketRateLimiter {
    const capacity: int
    const period: int
    var queued: int
    var stopped: bool

    ghost predicate Valid()
      reads this
    {
      0 <= queued <= capacity && period > 0
    }

    /**
     * `NewLeakyBucketRateLimiter`: an empty channel of the given capacity and
     * a ticker firing every `time.Second / leakedRate` nanoseconds, with the
     * leak loop running. A negative capacity, a zero rate (division by zero)
     * and a period that is not positive all make Go panic, so they are excluded.
     */
    constructor (leakedRate: int, capacity: int)
      requires capacity >= 0 && 0 < leakedRate <= NanosPerSecond
      ensures this.capacity == capacity && queued == 0 && !stopped
      ensures period == NanosPerSecond / leakedRate && period >= 1
      ensures Valid()
    {
      this.capacity := capacity;
      period := NanosPerSecond / leakedRate;
      queued := 0;
      stopped := false;
    }

    /** The non-blocking send of `Allow`. */
    method Allow() returns (ok: bool)
      requires Valid()
      modifies this
      ensures Valid()
      ensures Offered(Queue(queued, stopped), ok) == Offer(capacity, old(Queue(queued, stopped)))
    {
      if queued < capacity {
        queued := queued + 1;
        return true;
      }
      return false;
    }

    /** One iteration of the `leak` loop on a ticker fire: a non-blocking receive. */
    method Tick()
      requires Valid()
      modifies this
      ensures Valid()
      ensures Queue(queued, stopped) == Leak(old(Queue(queued, stopped)))
    {
      if !stopped && queued > 0 {
        queued := queued - 1;
      }
    }

    /** The `leak` loop receiving on `stop` and returning. */
    method Stop()
      requires Valid()
      modifies this
      ensures Valid()
      ensures stopped && queued == old(queued)
    {
      stopped := true;
    }
  }
}
