/** `rateLimitedFetch` (src/lib/github.ts): at most one request per second
    process-wide, and one retry after a quota-exhausted 403 whose reset is
    less than five minutes away. Time is an explicit integer clock in
    milliseconds; timers are taken to fire exactly on time. */
module Transport {
  import opened Wrappers
  import opened Numerals
  import opened GitHubTypes

  const MinRequestInterval := 1000
  const MaxRateLimitWait := 300000
  const RetryMargin := 1000

  /** The sleep before dispatch: whatever is left of the minimum interval
      since the last dispatch, or nothing. */
  function ThrottleDelay(now: int, last: int): (d: nat)
    ensures now - last < MinRequestInterval ==> d == MinRequestInterval - (now - last)
    ensures now - last >= MinRequestInterval ==> d == 0
    ensures now + d >= last + MinRequestInterval
  {
    var elapsed := now - last;
    if elapsed < MinRequestInterval then MinRequestInterval - elapsed else 0
  }

  /** The wait before the retry of a quota-exhausted 403, read at clock
      `now`: `None` when no retry happens (another status, quota left, no
      or unparsable reset header, or a reset five minutes or more away). */
  function RetryWait<T>(response: Response<T>, now: int): (w: Option<nat>)
    ensures w.Some? ==> response.status == 403 && response.rateLimitRemaining == Some("0")
    ensures w.Some? ==> response.rateLimitReset.Some? && response.rateLimitReset.value != ""
    ensures w.Some? ==> w.value < MaxRateLimitWait
    ensures w.Some? ==>
      var reset := ParseIntPrefix(response.rateLimitReset.value);
      reset.Some? && w.value == (if reset.value * 1000 - now > 0 then reset.value * 1000 - now else 0)
    ensures
      && response.status == 403 && response.rateLimitRemaining == Some("0")
      && response.rateLimitReset.Some? && response.rateLimitReset.value != ""
      && ParseIntPrefix(response.rateLimitReset.value).Some?
      && (var resetTime := ParseIntPrefix(response.rateLimitReset.value).value * 1000;
          (if resetTime - now > 0 then resetTime - now else 0) < MaxRateLimitWait)
      ==> w.Some?
  {
    if response.status == 403 && response.rateLimitRemaining == Some("0")
       && response.rateLimitReset.Some? && response.rateLimitReset.value != ""
    then
      match ParseIntPrefix(response.rateLimitReset.value)
      case None => None
      case Some(seconds) =>
        var resetTime := seconds * 1000;
        var wait: nat := if resetTime - now > 0 then resetTime - now else 0;
        if wait < MaxRateLimitWait then Some(wait) else None
    else None
  }

  /** One call through the transport: the response handed back, the new
      "time of last request", every dispatch instant and every sleep. */
  datatype Exchange<T> = Exchange(response: Response<T>, last: int, dispatches: seq<int>, sleeps: seq<nat>)

  /** A call entering at clock `now` with `last` the previous dispatch
      instant. `first` is what the server answers to the first dispatch,
      `latency` milliseconds later; `retry` is its answer to the retry. */
  function RateLimitedFetch<T>(last: int, now: int, latency: nat, first: Response<T>, retry: Response<T>): (x: Exchange<T>)
    ensures 1 <= |x.dispatches| <= 2 && x.last == x.dispatches[|x.dispatches| - 1]
    ensures x.dispatches[0] >= last + MinRequestInterval
    ensures x.dispatches[0] == now + ThrottleDelay(now, last)
    ensures |x.dispatches| == 2 <==> RetryWait(first, x.dispatches[0] + latency).Some?
    ensures |x.dispatches| == 1 ==> x.response == first
    ensures |x.dispatches| == 2 ==> x.response == retry
    ensures |x.dispatches| == 2 ==>
      x.dispatches[1] == x.dispatches[0] + latency + RetryWait(first, x.dispatches[0] + latency).value + RetryMargin
    ensures |x.dispatches| == 2 ==> x.dispatches[1] >= x.dispatches[0] + MinRequestInterval
    ensures x.sleeps == (if now - last < MinRequestInterval then [ThrottleDelay(now, last)] else [])
      + (if |x.dispatches| == 2 then [x.dispatches[1] - x.dispatches[0] - latency] else [])
  {
    var delay := ThrottleDelay(now, last);
    var throttle := if delay > 0 then [delay] else [];
    var dispatched := now + delay;
    var answered := dispatched + latency;
    match RetryWait(first, answered)
    case None => Exchange(first, dispatched, [dispatched], throttle)
    case Some(wait) =>
      var redispatched := answered + wait + RetryMargin;
      Exchange(retry, redispatched, [dispatched, redispatched], throttle + [wait + RetryMargin])
  }

  /** A quota-exhausted 403 whose reset is ten seconds away is retried
      once, eleven seconds after it arrived, and the retry's answer is
      returned as it is. */
  lemma ResetSoonIsRetried<T>(last: int, now: int, latency: nat, first: Response<T>, retry: Response<T>, resetSeconds: int)
    requires first.status == 403 && first.rateLimitRemaining == Some("0")
    requires first.rateLimitReset == Some(IntToString(resetSeconds))
    requires resetSeconds * 1000 == now + ThrottleDelay(now, last) + latency + 10000
    ensures var x := RateLimitedFetch(last, now, latency, first, retry);
      |x.dispatches| == 2 && x.response == retry &&
      x.dispatches[1] == x.dispatches[0] + latency + 11000
  {
    ParseIntOfIntToString(resetSeconds);
  }

  /** A quota-exhausted 403 whose reset is twenty minutes away is handed
      back at once, without waiting. */
  lemma ResetFarIsReturned<T>(last: int, now: int, latency: nat, first: Response<T>, retry: Response<T>, resetSeconds: int)
    requires first.status == 403 && first.rateLimitRemaining == Some("0")
    requires first.rateLimitReset == Some(IntToString(resetSeconds))
    requires resetSeconds * 1000 == now + ThrottleDelay(now, last) + latency + 1200000
    ensures var x := RateLimitedFetch(last, now, latency, first, retry);
      |x.dispatches| == 1 && x.response == first
  {
    ParseIntOfIntToString(resetSeconds);
  }

  /** What the server and the clock do for one call. */
  datatype Call<T> = Call(now: int, latency: nat, first: Response<T>, retry: Response<T>)

  /** The dispatch instants of calls made one after the other, each
      starting after the previous one returned. */
  function SequentialDispatches<T>(last: int, calls: seq<Call<T>>): seq<int>
    decreases |calls|
  {
    if |calls| == 0 then []
    else
      var c := calls[0];
      var x := RateLimitedFetch(last, c.now, c.latency, c.first, c.retry);
      x.dispatches + SequentialDispatches(x.last, calls[1..])
  }

  /** Consecutive dispatch instants are at least the minimum interval apart. */
  ghost predicate Spaced(last: int, ds: seq<int>)
  {
    && (|ds| > 0 ==> ds[0] >= last + MinRequestInterval)
    && forall k :: 0 <= k < |ds| - 1 ==> ds[k + 1] >= ds[k] + MinRequestInterval
  }

  /** Calls made one after another are never dispatched less than a second
      apart, retries included, whatever the clock readings. */
  lemma {:induction false} SequentialCallsSpaced<T>(last: int, calls: seq<Call<T>>)
    ensures Spaced(last, SequentialDispatches(last, calls))
    decreases |calls|
  {
    if |calls| > 0 {
      var c := calls[0];
      var x := RateLimitedFetch(last, c.now, c.latency, c.first, c.retry);
      var rest := SequentialDispatches(x.last, calls[1..]);
      SequentialCallsSpaced(x.last, calls[1..]);
      var ds := x.dispatches + rest;
      assert ds == SequentialDispatches(last, calls);
      forall k | 0 <= k < |ds| - 1
        ensures ds[k + 1] >= ds[k] + MinRequestInterval
      {
        if k + 1 < |x.dispatches| {
        } else if k + 1 == |x.dispatches| {
          assert ds[k] == x.last && ds[k + 1] == rest[0];
        } else {
          assert ds[k] == rest[k - |x.dispatches|] && ds[k + 1] == rest[k + 1 - |x.dispatches|];
        }
      }
    }
  }

  /** Callers that all enter less than the interval after the last
      recorded request, as the source runs them: each reads the same "time
      of last request", sleeps, and only then records its own dispatch. As
      every one of them sleeps until at least `last + MinRequestInterval`,
      all of them enter before any of them writes. */
  function ConcurrentDispatchesAsWritten(last: int, nows: seq<int>): (ds: seq<int>)
    requires forall k :: 0 <= k < |nows| ==> nows[k] - last < MinRequestInterval
    ensures |ds| == |nows|
    ensures forall k :: 0 <= k < |nows| ==> ds[k] == nows[k] + ThrottleDelay(nows[k], last)
    ensures forall k :: 0 <= k < |nows| ==> ds[k] == last + MinRequestInterval
  {
    seq(|nows|, k requires 0 <= k < |nows| => nows[k] + ThrottleDelay(nows[k], last))
  }

  /** Two searches started together less than a second after the previous
      request (as right after a release fetch) are dispatched at the same
      instant. */
  lemma ConcurrentCallsCollide(last: int, now: int)
    requires last <= now < last + MinRequestInterval
    ensures var ds := ConcurrentDispatchesAsWritten(last, [now, now]);
      ds[0] == ds[1] == last + MinRequestInterval
  {
  }

  /** The slot a caller entering at `now` takes when the "time of last
      request" is advanced before sleeping rather than after. */
  function ReserveSlot(now: int, last: int): (slot: int)
    ensures slot >= last + MinRequestInterval && slot >= now
    ensures slot == now + ThrottleDelay(now, last)
  {
    if now - last < MinRequestInterval then last + MinRequestInterval else now
  }

  /** Concurrent callers with slot reservation: each reads the slot its
      predecessor reserved. */
  function ConcurrentDispatchesReserved(last: int, nows: seq<int>): (ds: seq<int>)
    ensures |ds| == |nows|
    decreases |nows|
  {
    if |nows| == 0 then []
    else
      var slot := ReserveSlot(nows[0], last);
      [slot] + ConcurrentDispatchesReserved(slot, nows[1..])
  }

  /** With reservation, concurrent callers are spaced like sequential ones. */
  lemma {:induction false} ReservedCallsSpaced(last: int, nows: seq<int>)
    ensures Spaced(last, ConcurrentDispatchesReserved(last, nows))
    decreases |nows|
  {
    if |nows| > 0 {
      var slot := ReserveSlot(nows[0], last);
      ReservedCallsSpaced(slot, nows[1..]);
      var ds := ConcurrentDispatchesReserved(last, nows);
      var rest := ConcurrentDispatchesReserved(slot, nows[1..]);
      assert ds == [slot] + rest;
      forall k | 0 <= k < |ds| - 1
        ensures ds[k + 1] >= ds[k] + MinRequestInterval
      {
        if k > 0 {
          assert ds[k] == rest[k - 1] && ds[k + 1] == rest[k];
        }
      }
    }
  }
}
