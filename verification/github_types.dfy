/** The records exchanged with the GitHub REST API, reduced to the fields
    the search layer reads. */
module GitHubTypes {
  import opened Wrappers
  import opened Numerals

  /** A publish timestamp: its ISO 8601 text as the API sends it and the
      milliseconds since the epoch that `new Date(text).getTime()` gives. */
  datatype Instant = Instant(iso: string, millis: int)

  /** A release of the tracked project. */
  datatype Release = Release(
    tagName: string,
    name: Option<string>,
    publishedAt: Option<Instant>,
    htmlUrl: string)

  /** An issue returned by the search endpoint; consumed read-only. */
  datatype Issue = Issue(
    number: nat,
    title: string,
    body: Option<string>,
    repositoryUrl: string,
    state: string,
    createdAt: string)

  /** One page of search results with the total number of matches. */
  datatype SearchPage = SearchPage(totalCount: nat, items: seq<Issue>)

  /** An HTTP response: status line, the two rate-limit headers the code
      inspects (`x-ratelimit-remaining`, `x-ratelimit-reset`) and the
      decoded JSON body. */
  datatype Response<T> = Response(
    status: int,
    statusText: string,
    rateLimitRemaining: Option<string>,
    rateLimitReset: Option<string>,
    body: T)
  {
    /** `response.ok`: a 2xx status. */
    predicate Ok()
    {
      200 <= status <= 299
    }
  }

  const ApiErrorPrefix := "GitHub API error: "

  /** The message of a failed request that no other rule classifies:
      the status code and status text. */
  function ApiErrorMessage(status: int, statusText: string): (m: string)
    ensures |m| > |ApiErrorPrefix| && m[..|ApiErrorPrefix|] == ApiErrorPrefix
  {
    ApiErrorPrefix + IntToString(status) + " " + statusText
  }

  /** The status code can be read back from the message. */
  lemma ApiErrorMessageCarriesStatus(status: int, statusText: string)
    ensures ParseIntPrefix(ApiErrorMessage(status, statusText)[|ApiErrorPrefix|..]) == Some(status)
  {
    var m := ApiErrorMessage(status, statusText);
    var digits := IntToString(status);
    assert m[|ApiErrorPrefix|..] == digits + (" " + statusText);
    ParseIntOfIntToString(status);
    ParseIgnoresTail(digits, " " + statusText);
    assert ParseIntPrefix(digits + (" " + statusText)) == Some(status);
  }

  /** `parseInt` stops at the first character that is not a digit. */
  lemma ParseIgnoresTail(digits: string, tail: string)
    requires |digits| > 0 && (digits[0] == '-' || IsDigit(digits[0]))
    requires AllDigits(digits[1..])
    requires |tail| > 0 && !IsDigit(tail[0])
    ensures ParseIntPrefix(digits + tail) == ParseIntPrefix(digits)
  {
    var s := digits + tail;
    var body := if s[0] == '-' || s[0] == '+' then s[1..] else s;
    var bodyD := if digits[0] == '-' || digits[0] == '+' then digits[1..] else digits;
    assert body == bodyD + tail;
    LeadingDigitsStop(bodyD, tail);
  }

  lemma {:induction false} LeadingDigitsStop(digits: string, tail: string)
    requires AllDigits(digits)
    requires |tail| > 0 && !IsDigit(tail[0])
    ensures LeadingDigits(digits + tail) == LeadingDigits(digits) == digits
    decreases |digits|
  {
    LeadingDigitsOfDigits(digits);
    if |digits| > 0 {
      assert (digits + tail)[1..] == digits[1..] + tail;
      LeadingDigitsStop(digits[1..], tail);
    }
  }
}
