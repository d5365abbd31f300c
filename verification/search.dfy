/** The two issue searches and their combination (src/lib/github.ts):
    `searchMainRepoIssues`, `searchEcosystemIssues` and
    `searchBugReportsForVersion`. The transport is a function from the
    request to the response it finally hands back. */
module Search {
  import opened Wrappers
  import opened Text
  import opened Numerals
  import opened GitHubTypes
  import opened Resolver

  /** The project's own repository, or everything else. */
  datatype Scope = MainRepo | Ecosystem

  /** The query parameters of one `GET /search/issues` request. */
  datatype SearchRequest = SearchRequest(q: string, sort: string, order: string, page: string, perPage: string)

  const PageSize := 20
  const MainRateLimitMessage := "GitHub API rate limit exceeded. Please try again in a moment."
  const EcosystemRateLimitMessage := "GitHub API rate limit exceeded. Please wait a moment and try again, or add a GITHUB_TOKEN environment variable to increase your rate limit."
  const DateFilter := " created:>"

  /** The fixed query of a scope for a version, before any date filter:
      three quoted spellings of the version joined by `OR`. */
  function QueryTemplate(scope: Scope, version: string): (q: string)
    ensures scope == MainRepo ==> StartsWith(q, "repo:facebook/react-native is:issue")
    ensures scope == Ecosystem ==> StartsWith(q, "is:issue -repo:facebook/react-native")
    ensures var open := Opening(scope);
      |open| + |version| <= |q| && q[|open|..|open| + |version|] == version
  {
    match scope
    case MainRepo => Spelled(MainHead, "", "react-native@", "React Native ", version)
    case Ecosystem => Spelled(EcosystemHead, "react native ", "react-native@", "RN ", version)
  }

  const MainHead := "repo:facebook/react-native is:issue ("
  const EcosystemHead := "is:issue -repo:facebook/react-native ("
  const Quote := "\""
  const Or := " OR "

  /** The text of a scope's query up to its first version. */
  function Opening(scope: Scope): string
  {
    match scope
    case MainRepo => MainHead + Quote + ""
    case Ecosystem => EcosystemHead + Quote + "react native "
  }

  /** A query opening with `head`, then the version after each of the
      prefixes `p1`, `p2`, `p3`, every spelling quoted, joined by `OR` and
      closed by a parenthesis. */
  function Spelled(head: string, p1: string, p2: string, p3: string, version: string): string
  {
    Around(version, head + Quote + p1, Quote + Or + Quote + p2, Quote + Or + Quote + p3, Quote + ")")
  }

  /** `version` spliced into four pieces of fixed text. */
  function Around(version: string, a: string, b: string, c: string, d: string): (r: string)
    ensures |r| == |a| + |b| + |c| + |d| + 3 * |version|
    ensures r[|a|..|a| + |version|] == version
  {
    var r := a + version + b + version + c + version + d;
    assert r[|a|..|a| + |version|] == (a + version)[|a|..];
    r
  }

  /** `s` ends `x + s`. */
  lemma OccursAsSuffix(x: string, s: string)
    ensures OccursAt(x + s, s, |x|)
  {
    assert (x + s)[|x|..|x| + |s|] == s;
  }

  /** An occurrence ending `x` followed by `y`, which starts with `t`,
      is an occurrence of the joined text. */
  lemma OccursJoined(x: string, s: string, i: nat, y: string, t: string)
    requires OccursAt(x, s, i) && i + |s| == |x|
    requires |t| <= |y| && y[..|t|] == t
    ensures OccursAt(x + y, s + t, i)
  {
    assert (x + y)[i..i + |s| + |t|] == x[i..] + y[..|t|];
  }

  /** An occurrence survives appending text. */
  lemma OccursExtended(x: string, s: string, i: nat, y: string)
    requires OccursAt(x, s, i)
    ensures OccursAt(x + y, s, i)
  {
    assert (x + y)[i..i + |s|] == x[i..i + |s|];
  }

  /** An occurrence moves right by the length of prepended text. */
  lemma OccursPrepended(x: string, y: string, s: string, i: nat)
    requires OccursAt(y, s, i)
    ensures OccursAt(x + y, s, |x| + i)
  {
    assert (x + y)[|x| + i..|x| + i + |s|] == y[i..i + |s|];
  }

  /** The query contains each of its three quoted spellings. */
  lemma SpelledContainsEach(head: string, p1: string, p2: string, p3: string, v: string)
    ensures Contains(Spelled(head, p1, p2, p3, v), Quote + p1 + v + Quote)
    ensures Contains(Spelled(head, p1, p2, p3, v), Quote + p2 + v + Quote)
    ensures Contains(Spelled(head, p1, p2, p3, v), Quote + p3 + v + Quote)
  {
    var a, b, c, d := head + Quote + p1, Quote + Or + Quote + p2, Quote + Or + Quote + p3, Quote + ")";
    var q := Spelled(head, p1, p2, p3, v);
    FirstSpelling(head, p1, v, b, c, d);
    MiddleSpelling(a, v, p2, c, d);
    LastSpelling(a + v + b + v, p3, v, d);
    ContainsIff(q, Quote + p1 + v + Quote);
    ContainsIff(q, Quote + p2 + v + Quote);
    ContainsIff(q, Quote + p3 + v + Quote);
  }

  /** The first spelling closes the opening text. */
  lemma FirstSpelling(head: string, p1: string, v: string, b: string, c: string, d: string)
    requires |Quote| <= |b| && b[..|Quote|] == Quote
    ensures OccursAt(head + Quote + p1 + v + b + v + c + v + d, Quote + p1 + v + Quote, |head|)
  {
    var a := head + Quote + p1;
    var s := Quote + p1 + v + Quote;
    ConcatAssoc(head, Quote, p1);
    OccursAsSuffix(head, Quote + p1);
    assert v[..|v|] == v;
    OccursJoined(a, Quote + p1, |head|, v, v);
    OccursJoined(a + v, Quote + p1 + v, |head|, b, Quote);
    OccursExtended(a + v + b, s, |head|, v);
    OccursExtended(a + v + b + v, s, |head|, c);
    OccursExtended(a + v + b + v + c, s, |head|, v);
    OccursExtended(a + v + b + v + c + v, s, |head|, d);
  }

  /** The second spelling follows the first `OR`. */
  lemma MiddleSpelling(a: string, v: string, p2: string, c: string, d: string)
    requires |Quote| <= |c| && c[..|Quote|] == Quote
    ensures OccursAt(a + v + (Quote + Or + Quote + p2) + v + c + v + d, Quote + p2 + v + Quote, |a + v| + |Quote + Or|)
  {
    var b := Quote + Or + Quote + p2;
    var s := Quote + p2 + v + Quote;
    var i := |a + v| + |Quote + Or|;
    ConcatAssoc(Quote + Or, Quote, p2);
    OccursAsSuffix(Quote + Or, Quote + p2);
    OccursPrepended(a + v, b, Quote + p2, |Quote + Or|);
    assert v[..|v|] == v;
    OccursJoined(a + v + b, Quote + p2, i, v, v);
    OccursJoined(a + v + b + v, Quote + p2 + v, i, c, Quote);
    OccursExtended(a + v + b + v + c, s, i, v);
    OccursExtended(a + v + b + v + c + v, s, i, d);
  }

  /** The third spelling ends right before the closing parenthesis. */
  lemma LastSpelling(x: string, p3: string, v: string, d: string)
    requires |Quote| <= |d| && d[..|Quote|] == Quote
    ensures OccursAt(x + (Quote + Or + Quote + p3) + v + d, Quote + p3 + v + Quote, |x| + |Quote + Or|)
  {
    var c := Quote + Or + Quote + p3;
    var i := |x| + |Quote + Or|;
    ConcatAssoc(Quote + Or, Quote, p3);
    OccursAsSuffix(Quote + Or, Quote + p3);
    OccursPrepended(x, c, Quote + p3, |Quote + Or|);
    assert v[..|v|] == v;
    OccursJoined(x + c, Quote + p3, i, v, v);
    OccursJoined(x + c + v, Quote + p3 + v, i, d, Quote);
  }

  /** The main-repository query searches for `"v"`, `"react-native@v"` and
      `"React Native v"`; the ecosystem query for `"react native v"`,
      `"react-native@v"` and `"RN v"`. */
  lemma QuerySpellings(version: string)
    ensures Contains(QueryTemplate(MainRepo, version), Quote + version + Quote)
    ensures Contains(QueryTemplate(MainRepo, version), Quote + "react-native@" + version + Quote)
    ensures Contains(QueryTemplate(MainRepo, version), Quote + "React Native " + version + Quote)
    ensures Contains(QueryTemplate(Ecosystem, version), Quote + "react native " + version + Quote)
    ensures Contains(QueryTemplate(Ecosystem, version), Quote + "react-native@" + version + Quote)
    ensures Contains(QueryTemplate(Ecosystem, version), Quote + "RN " + version + Quote)
  {
    SpelledContainsEach(MainHead, "", "react-native@", "React Native ", version);
    SpelledContainsEach(EcosystemHead, "react native ", "react-native@", "RN ", version);
    assert Quote + "" == Quote;
  }

  /** A non-empty (truthy) date. */
  predicate HasDate(afterDate: Option<string>)
  {
    afterDate.Some? && afterDate.value != ""
  }

  /** The request a scope sends for a version, date bound and page. */
  function BuildSearch(scope: Scope, version: string, afterDate: Option<string>, page: int): (r: SearchRequest)
    ensures r.sort == "created" && r.order == "desc" && r.perPage == "20"
    ensures ParseIntPrefix(r.page) == Some(page)
    ensures r.page == IntToString(page)
    ensures StartsWith(r.q, QueryTemplate(scope, version))
    ensures HasDate(afterDate) ==> r.q[|QueryTemplate(scope, version)|..] == DateFilter + afterDate.value
    ensures !HasDate(afterDate) ==> r.q == QueryTemplate(scope, version)
  {
    ParseIntOfIntToString(page);
    SearchRequest(DatedQuery(QueryTemplate(scope, version), afterDate), "created", "desc", IntToString(page), "20")
  }

  /** A query with ` created:>date` appended when the date is non-empty. */
  function DatedQuery(query: string, afterDate: Option<string>): (q: string)
    ensures StartsWith(q, query)
    ensures HasDate(afterDate) ==> q[|query|..] == DateFilter + afterDate.value
    ensures !HasDate(afterDate) ==> q == query
  {
    var q := if HasDate(afterDate) then query + DateFilter + afterDate.value else query;
    assert q[..|query|] == query;
    q
  }

  /** Different versions never share a query. */
  lemma TemplateInjective(scope: Scope, v1: string, v2: string)
    requires QueryTemplate(scope, v1) == QueryTemplate(scope, v2)
    ensures v1 == v2
  {
    var head := Opening(scope);
    TemplateLength(scope, v1);
    TemplateLength(scope, v2);
    assert QueryTemplate(scope, v1)[|head|..|head| + |v1|] == v1;
  }

  /** Each template spells the version three times around fixed text. */
  lemma TemplateLength(scope: Scope, version: string)
    ensures scope == MainRepo ==> |QueryTemplate(scope, version)| == 78 + 3 * |version|
    ensures scope == Ecosystem ==> |QueryTemplate(scope, version)| == 82 + 3 * |version|
  {
    assert |MainHead| == 37 && |EcosystemHead| == 38;
  }

  /** The page of results, or the error thrown, for a scope's response. */
  function SearchOutcome(scope: Scope, response: Response<SearchPage>): (r: Result<SearchPage>)
    ensures r.Ok? <==> response.Ok()
    ensures r.Ok? ==> r.value == response.body
    ensures !response.Ok() && response.status == 403 ==>
      r.message == (if scope == MainRepo then MainRateLimitMessage else EcosystemRateLimitMessage)
    ensures !response.Ok() && response.status != 403 ==>
      r.message == ApiErrorMessage(response.status, response.statusText)
  {
    if !response.Ok() then
      if response.status == 403 then
        Err(if scope == MainRepo then MainRateLimitMessage else EcosystemRateLimitMessage)
      else Err(ApiErrorMessage(response.status, response.statusText))
    else Ok(response.body)
  }

  /** One scope's search: build the request, send it, classify the answer. */
  function SearchIssues(scope: Scope, version: string, afterDate: Option<string>, page: int,
                        transport: SearchRequest -> Response<SearchPage>): (r: Result<SearchPage>)
    ensures var response := transport(BuildSearch(scope, version, afterDate, page));
      && (r.Ok? <==> response.Ok())
      && (r.Ok? ==> r.value == response.body)
      && (!response.Ok() && response.status == 403 ==>
            r.message == (if scope == MainRepo then MainRateLimitMessage else EcosystemRateLimitMessage))
      && (!response.Ok() && response.status != 403 ==>
            r.message == ApiErrorMessage(response.status, response.statusText))
  {
    SearchOutcome(scope, transport(BuildSearch(scope, version, afterDate, page)))
  }

  /** `calculateSearchAfterDate` for a canonical UTC ISO 8601 timestamp:
      the calendar day, the text before the `T`. */
  function SearchAfterDate(iso: string): (d: string)
    ensures StartsWith(iso, d)
    ensures !Contains(d, "T")
    ensures |d| < |iso| ==> iso[|d|] == 'T'
  {
    match IndexOf(iso, "T")
    case None =>
      NoTInside(iso, iso);
      iso
    case Some(i) =>
      NoTInside(iso, iso[..i]);
      assert iso[i..i + 1] == "T";
      iso[..i]
  }

  lemma NoTInside(iso: string, d: string)
    requires StartsWith(iso, d)
    requires forall j :: 0 <= j < |d| ==> !OccursAt(iso, "T", j)
    ensures !Contains(d, "T")
  {
    forall j | 0 <= j < |d| ensures !OccursAt(d, "T", j) {
      assert !OccursAt(iso, "T", j);
      assert d[j..j + 1] == iso[j..j + 1];
    }
  }

  /** The date bound actually used: an explicit non-empty date, else the
      day of the release's non-empty publish timestamp, else none. */
  function EffectiveAfterDate(afterDate: Option<string>, release: Option<Release>): (d: Option<string>)
    ensures HasDate(afterDate) ==> d == afterDate
    ensures !HasDate(afterDate) && release.Some? && release.value.publishedAt.Some?
            && release.value.publishedAt.value.iso != "" ==>
      d == Some(SearchAfterDate(release.value.publishedAt.value.iso))
    ensures d.None? <==>
      && !HasDate(afterDate)
      && (release.None? || release.value.publishedAt.None? || release.value.publishedAt.value.iso == "")
  {
    if HasDate(afterDate) then afterDate
    else if release.Some? && release.value.publishedAt.Some? && release.value.publishedAt.value.iso != "" then
      Some(SearchAfterDate(release.value.publishedAt.value.iso))
    else None
  }

  /** The combined answer for a version. */
  datatype CombinedSearchResult = CombinedSearchResult(
    version: string,
    release: Option<Release>,
    mainRepoIssues: SearchPage,
    ecosystemIssues: SearchPage,
    searchedAfterDate: Option<string>)

  /** Both searches for a version, over the release list outcome
      `releases` and the transport. Either search failing fails the whole
      call; when both fail the main search's error is reported. */
  function SearchBugReportsForVersion(version: string, afterDate: Option<string>, mainRepoPage: int, ecosystemPage: int,
                                      releases: Result<seq<Release>>, transport: SearchRequest -> Response<SearchPage>)
    : (r: Result<CombinedSearchResult>)
    ensures var date := EffectiveAfterDate(afterDate, FindReleaseByVersion(releases, version));
      var main := transport(BuildSearch(MainRepo, version, date, mainRepoPage));
      var eco := transport(BuildSearch(Ecosystem, version, date, ecosystemPage));
      && (r.Ok? <==> main.Ok() && eco.Ok())
      && (r.Ok? ==> r.value == CombinedSearchResult(version, FindReleaseByVersion(releases, version),
                                                    main.body, eco.body, date))
      && (!main.Ok() ==> r == Err(SearchOutcome(MainRepo, main).message))
      && (main.Ok() && !eco.Ok() ==> r == Err(SearchOutcome(Ecosystem, eco).message))
  {
    var release := FindReleaseByVersion(releases, version);
    var searchAfterDate := EffectiveAfterDate(afterDate, release);
    var mainIssues := SearchIssues(MainRepo, version, searchAfterDate, mainRepoPage, transport);
    var ecosystemIssues := SearchIssues(Ecosystem, version, searchAfterDate, ecosystemPage, transport);
    if mainIssues.Err? then Err(mainIssues.message)
    else if ecosystemIssues.Err? then Err(ecosystemIssues.message)
    else Ok(CombinedSearchResult(version, release, mainIssues.value, ecosystemIssues.value, searchAfterDate))
  }

  /** A version no release matches still yields a result when both
      searches succeed: no release, no date bound, unfiltered queries. */
  lemma UnknownVersionSearchesUnfiltered(version: string, mainRepoPage: int, ecosystemPage: int,
                                         rs: seq<Release>, transport: SearchRequest -> Response<SearchPage>)
    requires forall i :: 0 <= i < |rs| ==> !ExactMatch(rs[i], version) && !PartialMatch(rs[i], version)
    ensures var main := BuildSearch(MainRepo, version, None, mainRepoPage);
      var eco := BuildSearch(Ecosystem, version, None, ecosystemPage);
      && main.q == QueryTemplate(MainRepo, version)
      && eco.q == QueryTemplate(Ecosystem, version)
      && (transport(main).Ok() && transport(eco).Ok() ==>
          var r := SearchBugReportsForVersion(version, None, mainRepoPage, ecosystemPage, Ok(rs), transport);
          r.Ok? && r.value.release.None? && r.value.searchedAfterDate.None?)
  {
  }

  /** The day of a timestamp `day` + "T" + `time` is `day`. */
  lemma DayOfTimestamp(day: string, time: string)
    requires forall k :: 0 <= k < |day| ==> day[k] != 'T'
    ensures SearchAfterDate(day + "T" + time) == day
  {
    var iso := day + "T" + time;
    assert OccursAt(iso, "T", |day|);
    forall j | 0 <= j < |day| ensures !OccursAt(iso, "T", j) {
      assert iso[j] == day[j];
    }
    assert IndexOf(iso, "T") == Some(|day|);
  }

  /** Searching for a released version bounds both queries by the
      release's publish day and reports that day, e.g. `0.74.0` released
      as `v0.74.0` on 2024-04-22 searches `created:>2024-04-22`. */
  lemma ReleaseDayBoundsSearch(version: string, rs: seq<Release>, day: string, time: string, millis: int,
                               mainRepoPage: int, ecosystemPage: int, transport: SearchRequest -> Response<SearchPage>)
    requires |rs| > 0 && rs[0].tagName == "v" + version
    requires rs[0].publishedAt == Some(Instant(day + "T" + time, millis))
    requires forall k :: 0 <= k < |day| ==> day[k] != 'T'
    ensures var main := BuildSearch(MainRepo, version, Some(day), mainRepoPage);
      var eco := BuildSearch(Ecosystem, version, Some(day), ecosystemPage);
      && EffectiveAfterDate(None, FindReleaseByVersion(Ok(rs), version)) == Some(day)
      && (day != "" ==> main.q == QueryTemplate(MainRepo, version) + DateFilter + day)
      && (day != "" ==> eco.q == QueryTemplate(Ecosystem, version) + DateFilter + day)
      && (transport(main).Ok() && transport(eco).Ok() ==>
          SearchBugReportsForVersion(version, None, mainRepoPage, ecosystemPage, Ok(rs), transport).value.searchedAfterDate
            == Some(day))
  {
    assert ExactMatch(rs[0], version);
    ExactBeatsEarlierPartial(rs, version, 0);
    DayOfTimestamp(day, time);
    assert (day + "T" + time) != "";
  }
}
