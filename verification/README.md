# rn-bug-tracker search core in Dafny

This project models the search core of rn-bug-tracker, a web app that shows GitHub issues mentioning a chosen React Native version. The parts modelled are:

- the GitHub access layer (`src/lib/github.ts`):
  - the throttled transport with its one-shot retry after a quota-exhausted 403;
  - the one-hour release cache with single-flight fetching;
  - the release resolver (exact match first, then partial match);
  - the two issue searches and the combined search;
  - the repository-name extractor;
- the two operations the interface calls (`src/lib/api.ts`): the version list (filter, map, sort) and the bug-report search in its `{data}`/`{error}` envelope;
- `calculateSearchAfterDate` (`src/lib/date-utils.ts`);
- `formatRelativeTime` as a function of the whole-day difference (`src/lib/utils.ts`);
- the highlighted-fragment extractor and the issue-card text logic (`src/components/shared/issue-card.tsx`);
- the pagination arithmetic of the results view (`src/components/shared/search-results-with-pagination.tsx`).

Everything is a pure function over immutable datatypes. Where the source has state, the model passes it in and returns it:

- Time is an explicit integer clock in milliseconds.
- A timer fires exactly when it is due.
- How long the server takes to answer is a parameter.
- What the server answers is a parameter: a `Response` record for each dispatch, or a `transport` function from request to response.
- Promise outcomes are `Result` values supplied by the caller.

Files, one module each:

- `wrappers.dfy`: `Option` and `Result`.
- `text.dfy`: substring search, ASCII lower-casing, case-insensitive search and first-occurrence replacement.
- `numerals.dfy`: decimal rendering of integers, and `parseInt` on an optional sign followed by leading digits.
- `github_types.dfy`: the API records.
- `transport.dfy`: `rateLimitedFetch`.
- `release_cache.dfy`: the release fetch and its cache.
- `resolver.dfy`: `findReleaseByVersion`.
- `search.dfy`: the searches and `calculateSearchAfterDate`.
- `repo_name.dfy`: `getRepositoryName`.
- `api.dfy`: `fetchVersions` and `fetchBugReports`.
- `relative_time.dfy`: `formatRelativeTime`.
- `highlight.dfy`: `getHighlightedTextFragment`.
- `highlight_scenarios.dfy`: worked examples of the highlighter on concrete texts.
- `issue_card.dfy`: the card's label, teaser and highlight box.
- `pagination.dfy`: the pagination list, page count, navigation guards and link parameters.

The highlighted fragment has no fixed length cap:

- The code keeps `floor(maxLength / 2)` characters on each side of the whole match, so a fragment can reach the match length plus `2 * floor(maxLength / 2)` plus two ellipses.
- `Highlight.FragmentLengthBound` proves that bound.
- `HighlightScenarios.ShortFragmentExceedsBudget` exhibits a 12-character fragment for `maxLength = 2`.

## Model

| member | source | states |
|---|---|---|
| Transport.ThrottleDelay | src/lib/github.ts:38-45 | The sleep is whatever remains of the 1000 ms interval since the last dispatch, else 0. The dispatch instant is always at least 1000 ms after the last one. |
| Transport.RetryWait | src/lib/github.ts:66-79 | A retry is scheduled exactly when the status is 403 with `x-ratelimit-remaining` equal to "0" and a non-empty reset header that `parseInt` reads, and the wait is under 300000 ms. The wait is the reset instant minus now, floored at 0. |
| Transport.RateLimitedFetch | src/lib/github.ts:34-88 | One or two dispatches. The first is throttled to at least 1000 ms after the previous one. The second happens iff the retry rule fires, `wait + 1000` ms after the first answer, and its answer is returned. Otherwise the first answer is returned as it is. The recorded last-request time is the last dispatch, and the sleeps are exactly the throttle and the retry wait. |
| Transport.ResetSoonIsRetried | src/lib/github.ts:70-83 | A quota-exhausted 403 whose reset is 10 s away is retried exactly once, 11 s after it arrived, and the retry's answer is returned. |
| Transport.ResetFarIsReturned | src/lib/github.ts:78-87 | A quota-exhausted 403 whose reset is 20 minutes away is returned at once, with no second dispatch. |
| Transport.SequentialCallsSpaced | src/lib/github.ts:30-47 | Calls made one after another, retries included, are never dispatched less than 1000 ms apart, whatever the clock readings and latencies. |
| Transport.ConcurrentDispatchesAsWritten | src/lib/github.ts:38-47 | Callers that all enter less than 1000 ms after the last recorded request, before any of them dispatches, each sleep relative to that same stale time and are all dispatched at last + 1000. |
| Transport.ConcurrentCallsCollide | src/lib/github.ts:38-47 | Two searches started together less than 1 s after the previous request are dispatched at the same instant. |
| Transport.ReserveSlot | src/lib/github.ts:38-47 | With the slot reserved before sleeping, the dispatch is no earlier than entry and at least 1000 ms after the previous slot. It coincides with the source's dispatch instant for a single caller. |
| Transport.ReservedCallsSpaced | src/lib/github.ts:30-47 | With slot reservation, concurrent callers are spaced at least 1000 ms apart, like sequential ones. |
| ReleaseCache.FetchReactNativeReleases | src/lib/github.ts:97-120 | A 2xx response yields its body. A 403 with no quota left yields the rate-limit message. Any other 403 yields the forbidden message. Any other status yields "GitHub API error: status statusText". |
| ReleaseCache.Begin | src/lib/github.ts:122-141 | A fresh cache (younger than one hour) is served unchanged. Otherwise the in-flight request is joined. A request is started, and marked in flight, iff the cache is stale and none is in flight. |
| ReleaseCache.Settle | src/lib/github.ts:143-156 | Settling clears the in-flight mark. Success caches the list with the clock read when the call began. Failure leaves the cache as it was. |
| ReleaseCache.GetReactNativeReleases | src/lib/github.ts:122-157 | The caller receives the fresh cache, else the in-flight outcome. Only the caller that started the request updates the state. |
| ReleaseCache.AtMostOneFetchInFlight | src/lib/github.ts:132-141 | However many calls arrive before the request completes, at most one request starts, and none if one is already in flight. |
| ReleaseCache.ServedFromCacheWithinHour | src/lib/github.ts:124-130 | For one hour after a successful fetch, every call is served the fetched list without a request. |
| ReleaseCache.RetryAfterFailure | src/lib/github.ts:151-153 | After a failed fetch, the next stale call starts a new request. |
| GitHubTypes.ApiErrorMessage | src/lib/github.ts:114-116 | The generic failure message starts with "GitHub API error: ". |
| GitHubTypes.ApiErrorMessageCarriesStatus | src/lib/github.ts:114-116 | The status code can be read back from the generic failure message with `parseInt`. |
| Resolver.FirstIndex | src/lib/github.ts:166-172 | Returns the first position satisfying the predicate, and none iff no position does. |
| Resolver.Find | src/lib/github.ts:166-172 | `Array.prototype.find`: the first release satisfying the predicate, or none iff none does. |
| Resolver.FindIn | src/lib/github.ts:165-182 | If some release matches exactly (tag or name equals the version or `v` + version), the first such release is returned. Otherwise the result is the first release whose tag, or non-empty name, contains the version, and none iff there is no such release. |
| Resolver.FindReleaseByVersion | src/lib/github.ts:159-187 | A failure to obtain the release list yields `null`. Otherwise the result is the two-pass search. |
| Resolver.ExactBeatsEarlierPartial | src/lib/github.ts:165-180 | The first exact match is returned even when a partial match comes before it. |
| Resolver.FoundMatchesVersion | src/lib/github.ts:166-179 | The release returned is in the list and matches the version exactly or partially. |
| Search.QueryTemplate | src/lib/github.ts:197-238 | The main-repository query starts with `repo:facebook/react-native is:issue`, the ecosystem one with `is:issue -repo:facebook/react-native`, and the version follows right after that opening piece. |
| Search.QuerySpellings | src/lib/github.ts:197-238 | The main-repository query contains the quoted spellings `"v"`, `"react-native@v"` and `"React Native v"`. The ecosystem query contains `"react native v"`, `"react-native@v"` and `"RN v"`. |
| Search.DatedQuery | src/lib/github.ts:199-201 | The template is kept as a prefix. ` created:>date` is appended iff the date is non-empty, and otherwise the query is the template. |
| Search.BuildSearch | src/lib/github.ts:196-208 | The request sorts by `created`, descending, 20 per page, and its page parameter reads back as the page number. The query starts with the scope's template, and ` created:>date` is appended iff the date is non-empty. |
| Search.Around | src/lib/github.ts:197-197 | Splicing the version into the fixed pieces puts it right after the opening piece, and adds three times its length. |
| Search.TemplateInjective | src/lib/github.ts:197-238 | Different versions never produce the same query in either scope. |
| Search.TemplateLength | src/lib/github.ts:197-238 | The main-repository query is 78 + 3·\|version\| characters long, and the ecosystem query is 82 + 3·\|version\|. |
| Search.SearchOutcome | src/lib/github.ts:210-264 | A 2xx response yields its page. A 403 yields the scope's own rate-limit message, the ecosystem one mentioning GITHUB_TOKEN. Any other status yields the generic API error. |
| Search.SearchIssues | src/lib/github.ts:190-269 | The request is the one `BuildSearch` describes. The result is Ok iff the response is 2xx, and then holds the response body. A 403 gives the scope's rate-limit message, and any other failure the generic API error. |
| Search.SearchAfterDate | src/lib/date-utils.ts:8-12 | The day is a prefix of the timestamp, contains no `T`, and is followed by the `T` when shorter than the timestamp. |
| Search.DayOfTimestamp | src/lib/date-utils.ts:8-12 | The day of `day` + "T" + `time` is `day`. |
| Search.EffectiveAfterDate | src/lib/github.ts:292-297 | An explicit non-empty date wins, else the day of the release's non-empty publish timestamp. The result is none iff neither exists. |
| Search.SearchBugReportsForVersion | src/lib/github.ts:282-323 | The result is Ok iff both searches succeed, and then holds the version, the resolved release, both pages and the date used. A main-search failure is reported, else an ecosystem failure. |
| Search.UnknownVersionSearchesUnfiltered | src/lib/github.ts:289-303 | A version no release matches searches without a date bound and reports no release. |
| Search.ReleaseDayBoundsSearch | src/lib/github.ts:289-303 | Searching a released version bounds both queries by the release's publish day, and reports that day. |
| RepoName.SegmentLength | src/lib/github.ts:274-274 | The greedy `[^/]+` run stops exactly at the next slash or at the end. |
| RepoName.CaptureAt | src/lib/github.ts:274-274 | A capture at an offset is spelled there right after `repos/`, and ends at a slash or at the end of the URL. |
| RepoName.CaptureIsRegexMatch | src/lib/github.ts:274-274 | There is a capture at an offset iff `repos\/([^/]+\/[^/]+)` matches there with some non-empty slash-free owner and name. The capture is an `owner/name` pair. |
| RepoName.FirstMatch | src/lib/github.ts:274-275 | Returns the leftmost offset at or after the start where the expression matches, and none iff it matches at no such offset. |
| RepoName.GetRepositoryName | src/lib/github.ts:272-279 | The result is "Unknown" iff the expression matches nowhere. Otherwise it is the capture at the leftmost offset where the expression matches, an `owner/name` pair that the URL spells right after `repos/`. |
| RepoName.CaptureShape | src/lib/github.ts:274-275 | Every capture is two non-empty slash-free parts joined by one slash, spelled after `repos/`, and never "Unknown". |
| RepoName.ApiUrlRoundTrip | src/lib/github.ts:272-279 | The repository URL `https://api.github.com/repos/owner/name` yields back `owner/name`. |
| RepoName.FirstMatchSkips | src/lib/github.ts:274-275 | A scan started anywhere before the leftmost matching offset stops exactly there. |
| Api.StripV | src/lib/api.ts:44-44 | Removes exactly one leading `v` when present, and otherwise leaves the tag unchanged. |
| Api.ToEntry | src/lib/api.ts:41-46 | `tag`, `name` and `published_at` are copied unchanged, and `version` is the tag without its leading `v`. |
| Api.IsReleaseCandidate | src/lib/api.ts:27-36 | True iff the lower-cased tag contains "rc", "alpha", "beta", "canary" or "next" at some offset. A tag of only `v`, digits and dots is never one. |
| Api.Kept | src/lib/api.ts:39-40 | A release is dropped iff `IsReleaseCandidate` holds for its tag, that is iff the lower-cased tag contains rc, alpha, beta, canary or next, and otherwise kept as it is. |
| Api.KeepFinal | src/lib/api.ts:39-40 | No more releases than the input, and none of those kept is a release candidate. |
| Api.KeepFinalCounts | src/lib/api.ts:39-40 | After the filter, each pre-release occurs zero times. Every other release occurs exactly as often as in the input. |
| Api.KeepFinalPreservesOrder | src/lib/api.ts:39-40 | The filter distributes over concatenation, so the kept releases stay in their original order. |
| Api.Insert | src/lib/api.ts:47-51 | Inserting into a newest-first list keeps it newest-first and adds exactly that entry. |
| Api.NewerPrefix | src/lib/api.ts:47-51 | In a newest-first list, the entries strictly newer than a given one form a prefix, and everything after it is not newer. |
| Api.InsertPosition | src/lib/api.ts:47-51 | The new entry lands after every strictly newer entry and before every entry that is not newer, equal times included. The other entries keep their order. |
| Api.InsertKeepsTimeOrder | src/lib/api.ts:47-51 | Among the entries of any one publish time, the inserted entry comes first and the others keep their order. |
| Api.SortIsStable | src/lib/api.ts:47-51 | For every publish time, the entries with that time appear in the sorted list in their input order. This is the stability of `Array.prototype.sort`. |
| Api.SortNewestFirst | src/lib/api.ts:47-51 | The result is ordered by publish time, non-increasing (a missing date counts as the epoch), and is a permutation of the input. |
| Api.Entries | src/lib/api.ts:41-46 | One picker entry per release, in order. |
| Api.FetchVersions | src/lib/api.ts:23-61 | A release-list failure becomes `{error: message}`. Otherwise the result is `{data}`, sorted newest first, and a permutation of the entries of the non-pre-release releases. |
| Api.VersionsAreFinalReleases | src/lib/api.ts:27-46 | No listed version has a pre-release tag, and every non-pre-release release is listed. |
| Api.FetchBugReports | src/lib/api.ts:65-92 | An empty version gives `{error: "Parameter 'version' is required"}`. Otherwise the combined search runs without a date, and Ok becomes `{data}` while a failure becomes `{error}` with the same message. |
| Api.EmptyVersionMakesNoRequest | src/lib/api.ts:71-73 | With an empty version the answer depends neither on the release list nor on any server response. |
| Api.PagesPassThrough | src/lib/api.ts:76-81 | Both page numbers reach their searches unchanged. |
| RelativeTime.FormatRelativeTime | src/lib/utils.ts:31-32 | "today" iff the difference is 0 days, and "yesterday" iff it is 1 day. |
| RelativeTime.DaysBucket | src/lib/utils.ts:33-34 | Every other difference below 7, negative ones included, reads "N days ago". The singular "day" branch is never taken. |
| RelativeTime.UnitBucket | src/lib/utils.ts:35-44 | From 7 days on, the label counts whole weeks, months (30 days) or years (365 days), and is singular exactly when that count is 1. |
| Highlight.Patterns | src/components/shared/issue-card.tsx:32-40 | Seven spellings, the first and third both the bare term, each at least as long as the term and at most 21 characters longer. |
| Highlight.BestMatch | src/components/shared/issue-card.tsx:42-61 | The match kept is the leftmost occurrence of any spelling, ties going to the earliest spelling. It is none iff no spelling occurs. |
| Highlight.LastWins | src/components/shared/issue-card.tsx:51-59 | A spelling found strictly left of the best so far replaces it. |
| Highlight.PrevStays | src/components/shared/issue-card.tsx:51-59 | A spelling found at or right of the best so far does not replace it. |
| Highlight.ClampedWindow | src/components/shared/issue-card.tsx:77-80 | The window holds the match and stays inside the text. Each side is exactly floor(maxLength/2) wide, unless it reaches that end of the text, which happens only when the match is no more than floor(maxLength/2) from that end. |
| Highlight.FragmentWindow | src/components/shared/issue-card.tsx:74-89 | The window contains the match and the clamped window. It is the clamped window when that is already maxLength wide or touches neither end of the text. Otherwise it keeps one end of the clamped window. For a non-empty match a narrower clamped window is widened to exactly min(text length, maxLength). It never spans more than max(maxLength, match + 2·floor(maxLength/2)). |
| Highlight.Truncate | src/components/shared/issue-card.tsx:21-28 | The text itself when it fits, else its first maxLength characters followed by "...". |
| Highlight.HighlightFragment | src/components/shared/issue-card.tsx:13-121 | The fragment is the concatenation of the pieces. The result is plain text iff the term or text is empty or no spelling occurs, and then it is the truncation. Otherwise it is marked around the best match. |
| Highlight.MarkAround | src/components/shared/issue-card.tsx:91-118 | The marked text is the occurrence. Before, mark and after form the contiguous window. Each ellipsis appears iff the window stops short of that end. The window is exactly the one `FragmentWindow` computes around the match, so it respects its width bounds. |
| Highlight.Cut | src/components/shared/issue-card.tsx:92-103 | The window splits into before, mark and after at the match offsets, with the ellipses where it stops short. |
| Highlight.MarkIsLeftmostSpelling | src/components/shared/issue-card.tsx:42-72 | The marked text equals one of the spellings case-insensitively, sits at the best offset, and no spelling occurs further left. |
| Highlight.BestIsUnique | src/components/shared/issue-card.tsx:45-61 | The leftmost-then-earliest occurrence is unique. |
| Highlight.DuplicateSpellingNeverWins | src/components/shared/issue-card.tsx:32-61 | The third spelling duplicates the first, so it never wins. |
| Highlight.FragmentLengthBound | src/components/shared/issue-card.tsx:74-118 | A plain fragment is at most maxLength + 3 characters. A marked one is at most \|term\| + 21 + 2·floor(maxLength/2) + 6. |
| HighlightScenarios.ScenarioFragment | src/components/shared/issue-card.tsx:13-121 | For "Crash seen on React Native 0.72 after upgrade", term "0.72" and maxLength 20, the "React Native 0.72" spelling at offset 14 is marked, with ten characters of context and an ellipsis on each side. |
| HighlightScenarios.ShortFragmentExceedsBudget | src/components/shared/issue-card.tsx:74-118 | For "xxRN 1xx", term "1" and maxLength 2, the fragment is "...xRN 1x...", longer than maxLength + 6. |
| IssueCard.RepoDisplayName | src/components/shared/issue-card.tsx:135-144 | facebook/react-native reads "React Native". The react-native-community/ owner becomes "RN Community: ". The software-mansion/ owner is dropped. Anything else is unchanged. |
| IssueCard.CommunityLabelRoundTrip | src/components/shared/issue-card.tsx:137-139 | The community label keeps the repository name, which can be read back from it. |
| IssueCard.Teaser | src/components/shared/issue-card.tsx:152-155 | The first 200 characters of the body, with "..." when longer. Empty without a body. |
| IssueCard.CardFragment | src/components/shared/issue-card.tsx:146-150 | The highlighter's fragment with budget 200, and empty without a body. |
| IssueCard.TeaserIsTruncation | src/components/shared/issue-card.tsx:152-155 | The teaser is the highlighter's truncation branch. |
| IssueCard.ShowSeparateHighlight | src/components/shared/issue-card.tsx:157-162 | The box is shown only with a non-empty term and a body in which the highlighter marks a match, and the fragment shown then contains the term. |
| IssueCard.ShownWhenTermMarkedInside | src/components/shared/issue-card.tsx:157-162 | Conversely, the box is shown when the term is non-empty, the body does not start with "...", and the highlighter marks the term as typed behind a leading ellipsis: the fragment then contains the term and differs from the teaser. |
| IssueCard.NoTermNoSeparateHighlight | src/components/shared/issue-card.tsx:157-162 | Without a search term the fragment equals the teaser, so no separate box is shown. |
| IssueCard.SeparateHighlightNeedsMatch | src/components/shared/issue-card.tsx:157-162 | A separate box is shown only when some spelling of the term occurs in the body. |
| Pagination.Range | src/components/shared/search-results-with-pagination.tsx:38-42 | The pages lo..hi in order, empty when hi < lo. |
| Pagination.PushRangeAppends | src/components/shared/search-results-with-pagination.tsx:55-59 | While every listed page is below the range, the `includes` check never fires, and the loop appends exactly the range. |
| Pagination.GeneratePaginationItems | src/components/shared/search-results-with-pagination.tsx:34-72 | With more than five pages the list is exactly: 1, an ellipsis iff current > 3, the pages max(2, cur−1)..min(total−1, cur+1), an ellipsis iff current < total − 2, then total. |
| Pagination.PaginationItemsShape | src/components/shared/search-results-with-pagination.tsx:34-72 | At most five pages lists 1..total, and none when total is 0. Otherwise the list starts at 1, ends at total, has each ellipsis iff current > 3 (start) and current < total − 2 (end), and has at most 7 items. Pages are strictly increasing within [1, total], and a valid current page is always listed. |
| Pagination.LayoutPages | src/components/shared/search-results-with-pagination.tsx:52-68 | The reference layout has at most 7 items, with strictly increasing pages in [1, total]. |
| Pagination.LayoutMarks | src/components/shared/search-results-with-pagination.tsx:44-68 | In the reference layout the ends are 1 and total, and each ellipsis is present iff its condition holds. |
| Pagination.TotalPages | src/components/shared/search-results-with-pagination.tsx:246-249 | The page count p satisfies 20(p−1) < count ≤ 20p, or is 0 for no results. |
| Pagination.TotalPagesIsLeast | src/components/shared/search-results-with-pagination.tsx:246-249 | No smaller number of 20-result pages holds all results. |
| Pagination.ShowPagination | src/components/shared/search-results-with-pagination.tsx:396-396 | The bar is rendered iff there are more than 20 results. |
| Pagination.PreviousDisabled | src/components/shared/search-results-with-pagination.tsx:403-476 | Previous is disabled exactly when the page is at most 1, so an enabled Previous leads to a page of at least 1. |
| Pagination.NextDisabled | src/components/shared/search-results-with-pagination.tsx:435-514 | Next is disabled exactly when the page has reached the page count, so an enabled Next leads to a page within it. |
| Pagination.NavigationStaysInRange | src/components/shared/search-results-with-pagination.tsx:400-436 | From a valid page, an enabled Previous or Next leads to a valid page. With more than one page, at least one of them is enabled. |
| Pagination.CreatePaginationSearch | src/components/shared/search-results-with-pagination.tsx:252-261 | Keeps version and tab, and sets search to "true". The selected scope's page reads back as the new page, and the other scope's page reads back as before. |
| Pagination.PaginationLeavesOtherScope | src/components/shared/search-results-with-pagination.tsx:252-261 | The other scope's page string is unchanged. Re-selecting either scope's current page gives the same parameters. |
| Numerals.ParseIntPrefix | src/lib/github.ts:71-71 | `parseInt` gives NaN (none) iff no digit follows the optional sign. Otherwise its magnitude is the value of the leading digits, and it is negative only after a `-`. |
| Numerals.ParseIntStopsAtNonDigit | src/lib/github.ts:71-71 | A rendered integer followed by text that starts with a non-digit reads back as that integer. |
| Numerals.ParseIntOfIntToString | src/lib/github.ts:71-71 | `parseInt` reads back the decimal rendering of every integer. |
| Text.IndexOfCI | src/components/shared/issue-card.tsx:46-50 | The case-insensitive regular-expression match of an escaped literal: the leftmost offset where the text equals the pattern ignoring ASCII case, and none iff there is no such offset. |
| Text.ReplaceFirst | src/components/shared/issue-card.tsx:138-141 | With no occurrence the string is unchanged. Otherwise the text before the first occurrence is kept, the replacement stands at its offset, and the text after the target follows unchanged. |
| Text.ReplacePrefix | src/components/shared/issue-card.tsx:137-142 | Replacing the first occurrence of a prefix the string starts with swaps exactly that prefix. |

## Left out

- JSX rendering, the UI components, the theme toggle, the routes and the search form: they are presentation with no logic of their own.
- The React Query hooks (`src/hooks/*`): thin wrappers over a library.
- `fetch`, request headers, the environment token, JSON decoding and console logging. A response is a status, status text, the two rate-limit headers and an already decoded body.
- Real timers, Promises and `Promise.all`. The throttle and the cache are sequential state transitions with an explicit clock, in-flight sharing is a flag, and timers fire exactly on time.
- When a joining caller's answer arrives (src/lib/github.ts:132-135). Such a caller returns the shared promise without awaiting it and never touches the cache variables, so `ReleaseCache.GetReactNativeReleases` hands it the request's outcome and leaves the state unchanged. The order in which that outcome reaches the waiting callers is not modelled.
- Search.SearchBugReportsForVersion: when both searches fail, the model reports the main search's error. Under `Promise.all` the first rejection to settle wins, which depends on timing.
- JS `Date` and locale formatting: `formatDate`, and the local-midnight day difference of `formatRelativeTime` (src/lib/utils.ts:17-29). `RelativeTime.FormatRelativeTime` takes the day difference as its input.
- Search.SearchAfterDate: only the prefix before `T` of a canonical UTC ISO timestamp is modelled; the day is read from the timestamp's own text. A timestamp `new Date` cannot parse, which makes `toISOString` throw, is not modelled.
- Api.SortNewestFirst: publish times are integers. A missing `published_at` counts as the epoch, as `new Date(null)` does. Unparsable dates (NaN comparisons) are not modelled.
- `Number()` coercion of the page parameters in the route: it depends on JS numeric parsing. Pages are integers throughout.
- Transport.ConcurrentDispatchesAsWritten: covers only callers that all enter less than 1000 ms after the last recorded request, so that every one of them sleeps. A caller that needs no sleep writes `lastRequestTime` synchronously before any later caller reads it, and is covered by the sequential model (`Transport.SequentialCallsSpaced`).
- Highlight.Truncate / IssueCard.Teaser: the source measures lengths and offsets in UTF-16 code units (src/components/shared/issue-card.tsx:21-28, 74-103, 152-155), while a Dafny string counts Unicode scalar values. For text outside the Basic Multilingual Plane, such as emoji, the source's truncation, fragment window offsets and 200-character teaser can differ from the model's and can split a surrogate pair; the model never does.
- Text.Lower: case-insensitive matching and `toLowerCase` are restricted to ASCII letters, with no Unicode case folding.
- Numerals.ParseIntPrefix: models `parseInt` on an optional sign followed by digits. Leading whitespace, radix prefixes and numbers beyond the double range are not modelled.
- Search.BuildSearch: the query string is the parameter value before URL encoding. `URLSearchParams` encoding is not modelled.
- The release projection in the combined result (src/lib/github.ts:307-314) is the identity here, because `Release` holds exactly the four projected fields.
- `cn`/`twMerge` and the build configuration: library and tooling wrappers.

## Findings

| source | as written | input that shows it | evidently intended | confidence | as-written member | corrected member |
|---|---|---|---|---|---|---|
| src/lib/github.ts:38-47 | `rateLimitedFetch` reads `lastRequestTime`, sleeps, and only then writes it. Callers that overlap, like the two searches of `Promise.all` (src/lib/github.ts:300-303), all sleep relative to the same old value. | Two searches entering at `now`, with `lastRequestTime <= now < lastRequestTime + 1000` (for example right after the release fetch on a cache miss): both are dispatched at `lastRequestTime + 1000`. | At most one request per second process-wide, as the 1-second interval states. Reserving the slot before sleeping gives that. | medium (not executed) | Transport.ConcurrentCallsCollide | Transport.ReservedCallsSpaced |
