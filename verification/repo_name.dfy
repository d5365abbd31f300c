/** `getRepositoryName` (src/lib/github.ts): the `owner/name` pair that
    follows `repos/` in an issue's API repository URL, as found by the
    regular expression `repos\/([^/]+\/[^/]+)`. */
module RepoName {
  import opened Wrappers
  import opened Text

  const Unknown := "Unknown"
  const ReposSegment := "repos/"

  /** Length of the longest run of characters other than `/` starting at
      `from` (what a greedy `[^/]+` consumes). */
  function SegmentLength(s: string, from: nat): (n: nat)
    requires from <= |s|
    ensures from + n <= |s|
    ensures forall k :: from <= k < from + n ==> s[k] != '/'
    ensures from + n < |s| ==> s[from + n] == '/'
    decreases |s| - from
  {
    if from == |s| || s[from] == '/' then 0 else 1 + SegmentLength(s, from + 1)
  }

  /** The expression `repos\/([^/]+\/[^/]+)` matches at offset `p` with an
      owner of `a` characters and a name of `b`: `repos/`, `a` characters
      other than `/`, a `/`, then `b` characters other than `/`. */
  predicate MatchesAt(url: string, p: nat, a: nat, b: nat)
  {
    var s := p + |ReposSegment|;
    && OccursAt(url, ReposSegment, p)
    && 0 < a && 0 < b && s + a + 1 + b <= |url|
    && (forall k :: s <= k < s + a ==> url[k] != '/')
    && url[s + a] == '/'
    && (forall k :: s + a + 1 <= k < s + a + 1 + b ==> url[k] != '/')
  }

  /** The captured group when the expression matches at offset `p`:
      `repos/`, a non-empty owner, `/`, and the longest non-empty run of
      non-slash characters after it. A capture follows `repos/` in the URL
      and is greedy: it runs up to the next slash or the end of the URL
      (`CaptureIsRegexMatch` relates it to the expression itself). */
  function CaptureAt(url: string, p: nat): (r: Option<string>)
    ensures r.Some? ==> OccursAt(url, ReposSegment + r.value, p)
    ensures r.Some? ==>
      var end := p + |ReposSegment| + |r.value|;
      end == |url| || url[end] == '/'
  {
    if !OccursAt(url, ReposSegment, p) then None
    else
      var ownerStart := p + |ReposSegment|;
      var ownerLength := SegmentLength(url, ownerStart);
      var slash := ownerStart + ownerLength;
      if ownerLength == 0 || slash == |url| then None
      else
        var nameLength := SegmentLength(url, slash + 1);
        if nameLength == 0 then None
        else
          var name := url[ownerStart..slash + 1 + nameLength];
          SpelledAfterSegment(url, p, name);
          Some(name)
  }

  /** There is a capture at `p` exactly when the expression matches there,
      and the capture is an `owner/name` pair. */
  lemma CaptureIsRegexMatch(url: string, p: nat)
    ensures CaptureAt(url, p).Some? <==> exists a: nat, b: nat :: MatchesAt(url, p, a, b)
    ensures CaptureAt(url, p).Some? ==> IsOwnerSlashName(CaptureAt(url, p).value)
  {
    CaptureIffMatch(url, p);
    CaptureIsPair(url, p);
  }

  lemma CaptureIffMatch(url: string, p: nat)
    ensures CaptureAt(url, p).Some? <==> exists a: nat, b: nat :: MatchesAt(url, p, a, b)
  {
    if OccursAt(url, ReposSegment, p) {
      MatchIff(url, p);
    }
  }

  lemma CaptureIsPair(url: string, p: nat)
    ensures CaptureAt(url, p).Some? ==> IsOwnerSlashName(CaptureAt(url, p).value)
  {
    if CaptureAt(url, p).Some? {
      var ownerStart := p + |ReposSegment|;
      var ownerLength := SegmentLength(url, ownerStart);
      SegmentsArePair(url, ownerStart, ownerLength, SegmentLength(url, ownerStart + ownerLength + 1));
    }
  }

  /** The expression matches at `p` exactly when the segment after
      `repos/` is non-empty, is followed by a slash, and the segment after
      that slash is non-empty. */
  lemma MatchIff(url: string, p: nat)
    requires OccursAt(url, ReposSegment, p)
    ensures var s := p + |ReposSegment|;
      var n := SegmentLength(url, s);
      (exists a: nat, b: nat :: MatchesAt(url, p, a, b))
        <==> 0 < n && s + n < |url| && 0 < SegmentLength(url, s + n + 1)
  {
    var s := p + |ReposSegment|;
    var n := SegmentLength(url, s);
    MatchUsesSegments(url, p);
    if 0 < n && s + n < |url| && 0 < SegmentLength(url, s + n + 1) {
      assert MatchesAt(url, p, n, SegmentLength(url, s + n + 1));
    }
  }

  /** Any match at `p` has the owner segment as its owner and a name no
      longer than the segment after its slash. */
  lemma MatchUsesSegments(url: string, p: nat)
    requires OccursAt(url, ReposSegment, p)
    ensures forall a: nat, b: nat :: MatchesAt(url, p, a, b) ==>
      var s := p + |ReposSegment|;
      && a == SegmentLength(url, s)
      && b <= SegmentLength(url, s + a + 1)
  {
    var s := p + |ReposSegment|;
    forall a: nat, b: nat | MatchesAt(url, p, a, b)
      ensures a == SegmentLength(url, s) && b <= SegmentLength(url, s + a + 1)
    {
    }
  }

  lemma SegmentIsSlashFree(url: string, from: nat)
    requires from <= |url|
    ensures SlashFree(url[from..from + SegmentLength(url, from)])
  {
    var n := SegmentLength(url, from);
    var seg := url[from..from + n];
    forall k | 0 <= k < n ensures seg[k] != '/' {
      assert seg[k] == url[from + k];
    }
  }

  /** Two non-empty segments joined by a slash form an `owner/name` pair. */
  lemma SegmentsArePair(url: string, ownerStart: nat, ownerLength: nat, nameLength: nat)
    requires 0 < ownerLength && 0 < nameLength
    requires ownerStart + ownerLength + 1 + nameLength <= |url|
    requires ownerLength == SegmentLength(url, ownerStart)
    requires nameLength == SegmentLength(url, ownerStart + ownerLength + 1)
    ensures IsOwnerSlashName(url[ownerStart..ownerStart + ownerLength + 1 + nameLength])
  {
    var slash := ownerStart + ownerLength;
    var name := url[ownerStart..slash + 1 + nameLength];
    SegmentIsSlashFree(url, ownerStart);
    SegmentIsSlashFree(url, slash + 1);
    assert name[ownerLength] == '/';
    assert name[..ownerLength] == url[ownerStart..slash];
    assert name[ownerLength + 1..] == url[slash + 1..slash + 1 + nameLength];
  }

  /** Text that follows `repos/` at `p` is spelled, with it, at `p`. */
  lemma SpelledAfterSegment(url: string, p: nat, name: string)
    requires OccursAt(url, ReposSegment, p)
    requires p + |ReposSegment| + |name| <= |url|
    requires url[p + |ReposSegment|..p + |ReposSegment| + |name|] == name
    ensures OccursAt(url, ReposSegment + name, p)
  {
    var ownerStart := p + |ReposSegment|;
    assert url[p..p + |ReposSegment + name|] == url[p..ownerStart] + url[ownerStart..ownerStart + |name|];
  }

  /** The leftmost offset at or after `p` where the expression matches
      (the offset `String.prototype.match` reports), or none. */
  function FirstMatch(url: string, p: nat): (r: Option<nat>)
    ensures r.Some? ==> p <= r.value && CaptureAt(url, r.value).Some?
    ensures r.Some? ==> forall k: nat :: p <= k < r.value ==> CaptureAt(url, k).None?
    ensures r.None? ==> forall q: nat :: p <= q ==> CaptureAt(url, q).None?
    decreases |url| - p
  {
    if p + |ReposSegment| > |url| then None
    else if CaptureAt(url, p).Some? then Some(p)
    else FirstMatch(url, p + 1)
  }

  /** `owner/name` is two non-empty parts without slashes joined by one. */
  predicate IsOwnerSlashName(r: string)
  {
    exists k :: 0 < k < |r| - 1 && r[k] == '/' && SlashFree(r[..k]) && SlashFree(r[k + 1..])
  }

  predicate SlashFree(s: string)
  {
    forall k :: 0 <= k < |s| ==> s[k] != '/'
  }

  /** The repository an API URL points to, or "Unknown": the capture at
      the leftmost offset where the expression matches. */
  function GetRepositoryName(url: string): (r: string)
    ensures r == Unknown <==> forall q: nat :: CaptureAt(url, q).None?
    ensures r != Unknown ==>
      exists q: nat :: CaptureAt(url, q) == Some(r) && forall k: nat :: k < q ==> CaptureAt(url, k).None?
    ensures r != Unknown ==> IsOwnerSlashName(r) && Contains(url, ReposSegment + r)
  {
    match FirstMatch(url, 0)
    case None => Unknown
    case Some(q) =>
      var name := CaptureAt(url, q).value;
      CaptureShape(url, name);
      name
  }

  /** Every capture is an `owner/name` pair that the URL spells out right
      after `repos/`. */
  lemma CaptureShape(url: string, name: string)
    requires exists q: nat :: CaptureAt(url, q) == Some(name)
    ensures IsOwnerSlashName(name) && Contains(url, ReposSegment + name) && name != Unknown
  {
    var q: nat :| CaptureAt(url, q) == Some(name);
    CaptureIsRegexMatch(url, q);
    assert OccursAt(url, ReposSegment + name, q);
    ContainsIff(url, ReposSegment + name);
    UnknownIsNoPair();
  }

  /** The fallback text contains no slash, so no capture spells it. */
  lemma UnknownIsNoPair()
    ensures !IsOwnerSlashName(Unknown)
  {
    assert SlashFree(Unknown);
  }

  /** The API base of repository URLs. */
  const ApiRepos := "https://api.github.com/repos/"

  /** An API repository URL yields back its owner and name. */
  lemma ApiUrlRoundTrip(owner: string, name: string)
    requires |owner| > 0 && |name| > 0 && SlashFree(owner) && SlashFree(name)
    ensures GetRepositoryName(ApiRepos + owner + "/" + name) == owner + "/" + name
  {
    var url := ApiRepos + owner + "/" + name;
    var base := |ApiRepos| - |ReposSegment|;
    NoCaptureInHost(url);
    CaptureAfterHost(owner, name);
    FirstMatchSkips(url, 0, base);
  }

  /** No `repos/` starts inside the `https://api.github.com/` host part. */
  lemma NoCaptureInHost(url: string)
    requires StartsWith(url, ApiRepos)
    ensures forall q: nat :: q < |ApiRepos| - |ReposSegment| ==> CaptureAt(url, q).None?
  {
    forall q: nat | q < |ApiRepos| - |ReposSegment| ensures CaptureAt(url, q).None? {
      assert url[q] == ApiRepos[q] != 'r';
      assert q + |ReposSegment| <= |url| ==> url[q..q + |ReposSegment|][0] == url[q];
    }
  }

  lemma CaptureAfterHost(owner: string, name: string)
    requires |owner| > 0 && |name| > 0 && SlashFree(owner) && SlashFree(name)
    ensures CaptureAt(ApiRepos + owner + "/" + name, |ApiRepos| - |ReposSegment|) == Some(owner + "/" + name)
  {
    var url := ApiRepos + owner + "/" + name;
    var base := |ApiRepos| - |ReposSegment|;
    assert url[base..base + |ReposSegment|] == ReposSegment;
    assert SegmentLength(url, |ApiRepos|) == |owner| by {
      assert url[|ApiRepos|..|ApiRepos| + |owner|] == owner;
      SegmentOf(url, |ApiRepos|, owner);
    }
    assert SegmentLength(url, |ApiRepos| + |owner| + 1) == |name| by {
      assert url[|ApiRepos| + |owner| + 1..] == name;
      SegmentOf(url, |ApiRepos| + |owner| + 1, name);
    }
    assert url[|ApiRepos| + |owner|] == '/';
    assert url[|ApiRepos|..|ApiRepos| + |owner| + 1 + |name|] == owner + "/" + name;
  }

  /** A slash-free stretch followed by a slash or the end is one segment. */
  lemma {:induction false} SegmentOf(s: string, from: nat, seg: string)
    requires from + |seg| <= |s| && s[from..from + |seg|] == seg && SlashFree(seg)
    requires from + |seg| == |s| || s[from + |seg|] == '/'
    ensures SegmentLength(s, from) == |seg|
    decreases |seg|
  {
    if |seg| > 0 {
      assert s[from] == seg[0];
      assert s[from + 1..from + 1 + |seg[1..]|] == seg[1..];
      SegmentOf(s, from + 1, seg[1..]);
    }
  }

  /** The scan stops at the first matching offset. */
  lemma FirstMatchSkips(url: string, p: nat, q: nat)
    requires p <= q && CaptureAt(url, q).Some?
    requires forall k: nat :: p <= k < q ==> CaptureAt(url, k).None?
    ensures FirstMatch(url, p) == Some(q)
  {
  }
}
