/** `fetchReactNativeReleases` and `getReactNativeReleases`
    (src/lib/github.ts): the release list, memoised for an hour, with
    concurrent callers sharing one in-flight request. Promises are
    modelled as a flag and an outcome supplied by the caller. */
module ReleaseCache {
  import opened Wrappers
  import opened GitHubTypes

  const CacheDuration := 1000 * 60 * 60

  const RateLimitMessage := "GitHub API rate limit exceeded. Please wait a moment and try again, or add a GITHUB_TOKEN environment variable to increase your rate limit."
  const ForbiddenMessage := "GitHub API access forbidden. Consider adding a GITHUB_TOKEN environment variable."

  /** The release list, or the error thrown, for the response of
      `GET /repos/facebook/react-native/releases?per_page=100`. */
  function FetchReactNativeReleases(response: Response<seq<Release>>): (r: Result<seq<Release>>)
    ensures r.Ok? <==> response.Ok()
    ensures r.Ok? ==> r.value == response.body
    ensures !response.Ok() && response.status == 403 ==>
      r.message == (if response.rateLimitRemaining == Some("0") then RateLimitMessage else ForbiddenMessage)
    ensures !response.Ok() && response.status != 403 ==>
      r.message == ApiErrorMessage(response.status, response.statusText)
  {
    if !response.Ok() then
      if response.status == 403 then
        if response.rateLimitRemaining == Some("0") then Err(RateLimitMessage)
        else Err(ForbiddenMessage)
      else Err(ApiErrorMessage(response.status, response.statusText))
    else Ok(response.body)
  }

  /** The three process-wide variables: the cached list (`null` when
      absent), when it was captured, and whether a fetch is in flight. */
  datatype CacheState = CacheState(cache: Option<seq<Release>>, cacheTime: int, inFlight: bool)

  const Initial := CacheState(None, 0, false)

  /** The cache holds a list captured less than an hour before `now`. */
  predicate Fresh(st: CacheState, now: int)
  {
    st.cache.Some? && now - st.cacheTime < CacheDuration
  }

  /** How a call to `getReactNativeReleases` at clock `now` proceeds. */
  datatype Path = ServeCached(releases: seq<Release>) | JoinInFlight | StartFetch

  /** The synchronous part of a call: serve the fresh cache, else join the
      in-flight request, else start one and mark it in flight. */
  function Begin(st: CacheState, now: int): (r: (Path, CacheState))
    ensures Fresh(st, now) ==> r.0 == ServeCached(st.cache.value) && r.1 == st
    ensures !Fresh(st, now) && st.inFlight ==> r.0 == JoinInFlight && r.1 == st
    ensures r.0 == StartFetch <==> !Fresh(st, now) && !st.inFlight
    ensures r.0 == StartFetch ==> r.1 == st.(inFlight := true)
  {
    if Fresh(st, now) then (ServeCached(st.cache.value), st)
    else if st.inFlight then (JoinInFlight, st)
    else (StartFetch, st.(inFlight := true))
  }

  /** The caller that started the fetch settles it: on success the list is
      cached with the clock read when that call began; on failure only the
      in-flight mark is cleared. */
  function Settle(st: CacheState, startedAt: int, outcome: Result<seq<Release>>): (st': CacheState)
    ensures !st'.inFlight
    ensures outcome.Ok? ==> st'.cache == Some(outcome.value) && st'.cacheTime == startedAt
    ensures outcome.Err? ==> st'.cache == st.cache && st'.cacheTime == st.cacheTime
  {
    match outcome
    case Ok(releases) => CacheState(Some(releases), startedAt, false)
    case Err(_) => st.(inFlight := false)
  }

  /** A whole call at clock `now` that runs to completion before the next
      one starts; `outcome` is the result of the request that is (or is
      already) in flight. Returns what the caller receives and the state
      afterwards. */
  function GetReactNativeReleases(st: CacheState, now: int, outcome: Result<seq<Release>>): (r: (Result<seq<Release>>, CacheState))
    ensures Fresh(st, now) ==> r == (Ok(st.cache.value), st)
    ensures !Fresh(st, now) ==> r.0 == outcome
    ensures !Fresh(st, now) && st.inFlight ==> r.1 == st
    ensures !Fresh(st, now) && !st.inFlight ==> r.1 == Settle(st, now, outcome)
  {
    var (path, st1) := Begin(st, now);
    match path
    case ServeCached(releases) => (Ok(releases), st1)
    case JoinInFlight => (outcome, st1)
    case StartFetch => (outcome, Settle(st1, now, outcome))
  }

  /** How many of a run of calls starting before any completes would
      start a request. */
  function StartsAmong(st: CacheState, nows: seq<int>): nat
    decreases |nows|
  {
    if |nows| == 0 then 0
    else
      var (path, st1) := Begin(st, nows[0]);
      (if path == StartFetch then 1 else 0) + StartsAmong(st1, nows[1..])
  }

  /** Single flight: however many calls arrive before the request
      completes, at most one request is started, and none when one is
      already in flight. */
  lemma {:induction false} AtMostOneFetchInFlight(st: CacheState, nows: seq<int>)
    ensures StartsAmong(st, nows) <= 1
    ensures st.inFlight ==> StartsAmong(st, nows) == 0
    decreases |nows|
  {
    if |nows| > 0 {
      var (path, st1) := Begin(st, nows[0]);
      AtMostOneFetchInFlight(st1, nows[1..]);
      assert path == StartFetch ==> st1.inFlight;
    }
  }

  /** After a successful fetch started at `startedAt`, every call in the
      following hour is served the fetched list without a request. */
  lemma ServedFromCacheWithinHour(st: CacheState, startedAt: int, releases: seq<Release>, now: int)
    requires startedAt <= now < startedAt + CacheDuration
    ensures Begin(Settle(st, startedAt, Ok(releases)), now).0 == ServeCached(releases)
  {
  }

  /** A failed fetch leaves the next stale call free to try again. */
  lemma RetryAfterFailure(st: CacheState, startedAt: int, message: string, now: int)
    requires !Fresh(st, now)
    ensures Begin(Settle(st, startedAt, Err(message)), now).0 == StartFetch
  {
  }
}
