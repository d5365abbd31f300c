/** The two operations the interface calls (src/lib/api.ts): the version
    list for the picker and the combined search wrapped in a
    `{data}` / `{error}` envelope. */
module Api {
  import opened Wrappers
  import opened Text
  import opened GitHubTypes
  import opened Search

  /** `{ data }` or `{ error }`. */
  datatype ApiResponse<T> = Data(data: T) | Error(error: string)

  /** One entry of the version picker. */
  datatype VersionEntry = VersionEntry(tag: string, name: Option<string>, version: string, publishedAt: Option<Instant>)

  const VersionRequiredMessage := "Parameter 'version' is required"

  /** A tag naming a pre-release: its lower-cased form mentions `rc`,
      `alpha`, `beta`, `canary` or `next`. Equivalently, one of the five
      markers occurs in the tag in any letter case; a tag made only of
      `v`, digits and dots never names one. */
  function IsReleaseCandidate(tagName: string): (r: bool)
    ensures r <==> exists i :: MarkerAt(tagName, i)
    ensures PlainVersionTag(tagName) ==> !r
  {
    var normalized := Lower(tagName);
    MarkersIff(tagName);
    PlainTagHasNoMarker(tagName);
    || Contains(normalized, "rc")
    || Contains(normalized, "alpha")
    || Contains(normalized, "beta")
    || Contains(normalized, "canary")
    || Contains(normalized, "next")
  }

  /** One of the pre-release markers occurs at offset `i`, in any case. */
  predicate MarkerAt(tag: string, i: int)
  {
    || OccursAtCI(tag, "rc", i)
    || OccursAtCI(tag, "alpha", i)
    || OccursAtCI(tag, "beta", i)
    || OccursAtCI(tag, "canary", i)
    || OccursAtCI(tag, "next", i)
  }

  /** A tag such as `v0.74.3`: only `v`, digits and dots. */
  predicate PlainVersionTag(tag: string)
  {
    forall k :: 0 <= k < |tag| ==> tag[k] == 'v' || tag[k] == '.' || '0' <= tag[k] <= '9'
  }

  /** The five `includes` tests on the lower-cased tag hold together
      exactly when some marker occurs case-insensitively. */
  lemma MarkersIff(tag: string)
    ensures (|| Contains(Lower(tag), "rc") || Contains(Lower(tag), "alpha") || Contains(Lower(tag), "beta")
             || Contains(Lower(tag), "canary") || Contains(Lower(tag), "next"))
        <==> exists i :: MarkerAt(tag, i)
  {
    LowerOfMarker("rc");
    LowerOfMarker("alpha");
    LowerOfMarker("beta");
    LowerOfMarker("canary");
    LowerOfMarker("next");
    ContainsLowerIff(tag, "rc");
    ContainsLowerIff(tag, "alpha");
    ContainsLowerIff(tag, "beta");
    ContainsLowerIff(tag, "canary");
    ContainsLowerIff(tag, "next");
    if exists i :: MarkerAt(tag, i) {
      var i :| MarkerAt(tag, i);
      assert OccursAtCI(tag, "rc", i) || OccursAtCI(tag, "alpha", i) || OccursAtCI(tag, "beta", i)
          || OccursAtCI(tag, "canary", i) || OccursAtCI(tag, "next", i);
    }
    if exists i :: OccursAtCI(tag, "rc", i) {
      var i :| OccursAtCI(tag, "rc", i);
      assert MarkerAt(tag, i);
    }
    if exists i :: OccursAtCI(tag, "alpha", i) {
      var i :| OccursAtCI(tag, "alpha", i);
      assert MarkerAt(tag, i);
    }
    if exists i :: OccursAtCI(tag, "beta", i) {
      var i :| OccursAtCI(tag, "beta", i);
      assert MarkerAt(tag, i);
    }
    if exists i :: OccursAtCI(tag, "canary", i) {
      var i :| OccursAtCI(tag, "canary", i);
      assert MarkerAt(tag, i);
    }
    if exists i :: OccursAtCI(tag, "next", i) {
      var i :| OccursAtCI(tag, "next", i);
      assert MarkerAt(tag, i);
    }
  }

  /** The markers are already lower case. */
  lemma LowerOfMarker(marker: string)
    requires forall k :: 0 <= k < |marker| ==> 'a' <= marker[k] <= 'z'
    ensures Lower(marker) == marker
  {
  }

  /** For a lower-case marker, `includes` on the lower-cased tag is a
      case-insensitive occurrence. */
  lemma ContainsLowerIff(tag: string, marker: string)
    requires Lower(marker) == marker
    ensures Contains(Lower(tag), marker) <==> exists i :: OccursAtCI(tag, marker, i)
  {
    ContainsIff(Lower(tag), marker);
    LowerOccursIff(tag, marker);
  }

  /** No pre-release marker occurs in a plain version tag. */
  lemma PlainTagHasNoMarker(tag: string)
    ensures PlainVersionTag(tag) ==> forall i :: !MarkerAt(tag, i)
  {
    if PlainVersionTag(tag) {
      PlainTagLacks(tag, "rc");
      PlainTagLacks(tag, "alpha");
      PlainTagLacks(tag, "beta");
      PlainTagLacks(tag, "canary");
      PlainTagLacks(tag, "next");
    }
  }

  /** A marker that starts with a letter other than `v` occurs nowhere in
      a plain version tag. */
  lemma PlainTagLacks(tag: string, marker: string)
    requires PlainVersionTag(tag)
    requires |marker| > 0 && 'a' <= marker[0] <= 'z' && marker[0] != 'v'
    ensures forall i :: !OccursAtCI(tag, marker, i)
  {
    forall i | OccursAtCI(tag, marker, i) ensures false {
    }
  }

  /** The tag with one leading lower-case `v` removed (`replace(/^v/, "")`). */
  function StripV(tag: string): (r: string)
    ensures tag == "v" + r || (tag == r && !StartsWith(tag, "v"))
  {
    if |tag| > 0 && tag[0] == 'v' then tag[1..] else tag
  }

  /** The picker entry of a release. */
  function ToEntry(r: Release): (e: VersionEntry)
    ensures e.tag == r.tagName && e.name == r.name && e.publishedAt == r.publishedAt
    ensures e.version == StripV(r.tagName)
  {
    VersionEntry(r.tagName, r.name, StripV(r.tagName), r.publishedAt)
  }

  /** The releases kept, in their original order. */
  function KeepFinal(rs: seq<Release>): (r: seq<Release>)
    ensures |r| <= |rs|
    ensures forall k :: 0 <= k < |r| ==> !IsReleaseCandidate(r[k].tagName)
    decreases |rs|
  {
    if |rs| == 0 then [] else Kept(rs[0]) + KeepFinal(rs[1..])
  }

  /** Each pre-release occurs zero times in the filtered list; every other
      release occurs exactly as often as in the input. */
  lemma {:induction false} KeepFinalCounts(rs: seq<Release>)
    ensures forall x :: multiset(KeepFinal(rs))[x] == if IsReleaseCandidate(x.tagName) then 0 else multiset(rs)[x]
    decreases |rs|
  {
    if |rs| > 0 {
      KeepFinalCounts(rs[1..]);
      assert multiset(rs) == multiset{rs[0]} + multiset(rs[1..]) by {
        assert rs == [rs[0]] + rs[1..];
      }
      assert multiset(KeepFinal(rs)) == multiset(Kept(rs[0])) + multiset(KeepFinal(rs[1..]));
    }
  }

  /** A release as the filter passes it on: itself, or nothing for a
      pre-release. */
  function Kept(x: Release): (r: seq<Release>)
    ensures r == [] <==> IsReleaseCandidate(x.tagName)
    ensures r != [] ==> r == [x]
  {
    if IsReleaseCandidate(x.tagName) then [] else [x]
  }

  /** Filtering distributes over concatenation: the final releases of a
      list are those of its first part followed by those of the rest. */
  lemma {:induction false} KeepFinalPreservesOrder(a: seq<Release>, b: seq<Release>)
    ensures KeepFinal(a + b) == KeepFinal(a) + KeepFinal(b)
    decreases |a|
  {
    if |a| == 0 {
      assert a + b == b;
    } else {
      assert (a + b)[1..] == a[1..] + b;
      KeepFinalPreservesOrder(a[1..], b);
      KeepFinalStep(a, b);
    }
  }

  /** The inductive step: with the claim for the tail of `a`, it holds for `a`. */
  lemma KeepFinalStep(a: seq<Release>, b: seq<Release>)
    requires |a| > 0
    requires KeepFinal(a[1..] + b) == KeepFinal(a[1..]) + KeepFinal(b)
    ensures KeepFinal(a + b) == KeepFinal(a) + KeepFinal(b)
  {
    var ab := a + b;
    assert ab[0] == a[0] && ab[1..] == a[1..] + b;
    var x, ka, kb := Kept(a[0]), KeepFinal(a[1..]), KeepFinal(b);
    calc {
      KeepFinal(ab);
      { KeepFinalCons(ab); }
      x + KeepFinal(a[1..] + b);
      x + (ka + kb);
      { ConcatAssoc(x, ka, kb); }
      (x + ka) + kb;
      { KeepFinalCons(a); }
      KeepFinal(a) + kb;
    }
  }

  /** One step of the filter: the first release, if kept, then the rest. */
  lemma KeepFinalCons(rs: seq<Release>)
    requires |rs| > 0
    ensures KeepFinal(rs) == Kept(rs[0]) + KeepFinal(rs[1..])
  {
  }

  /** A single release is kept exactly when it is not a pre-release. */
  lemma KeepFinalSingle(x: Release)
    ensures KeepFinal([x]) == if IsReleaseCandidate(x.tagName) then [] else [x]
  {
    assert [x][1..] == [];
    KeepFinalCons([x]);
  }

  /** The publish time in milliseconds, with a missing date read as the
      epoch (`new Date(null)`). */
  function Millis(e: VersionEntry): int
  {
    match e.publishedAt
    case None => 0
    case Some(t) => t.millis
  }

  /** Newest first. */
  ghost predicate NewestFirst(s: seq<VersionEntry>)
  {
    forall i, j :: 0 <= i < j < |s| ==> Millis(s[i]) >= Millis(s[j])
  }

  /** Insert `e` into a newest-first list, before every entry not newer
      than it. */
  function Insert(e: VersionEntry, s: seq<VersionEntry>): (r: seq<VersionEntry>)
    requires NewestFirst(s)
    ensures NewestFirst(r)
    ensures multiset(r) == multiset(s) + multiset{e}
    ensures |r| > 0 && (Millis(r[0]) == Millis(e) || (|s| > 0 && r[0] == s[0]))
    decreases |s|
  {
    if |s| == 0 || Millis(e) >= Millis(s[0]) then [e] + s
    else
      var rest := Insert(e, s[1..]);
      assert s == [s[0]] + s[1..];
      [s[0]] + rest
  }

  /** The number of leading entries of `s` strictly newer than `e`. */
  function NewerPrefix(e: VersionEntry, s: seq<VersionEntry>): (i: nat)
    requires NewestFirst(s)
    ensures i <= |s|
    ensures forall k :: 0 <= k < i ==> Millis(s[k]) > Millis(e)
    ensures forall k :: i <= k < |s| ==> Millis(s[k]) <= Millis(e)
    decreases |s|
  {
    if |s| == 0 || Millis(e) >= Millis(s[0]) then 0
    else 1 + NewerPrefix(e, s[1..])
  }

  /** Where `Insert` puts the new entry: after every strictly newer entry
      and before every entry that is not newer, equal times included. */
  lemma {:induction false} InsertPosition(e: VersionEntry, s: seq<VersionEntry>)
    requires NewestFirst(s)
    ensures var i := NewerPrefix(e, s); Insert(e, s) == s[..i] + [e] + s[i..]
    decreases |s|
  {
    if |s| == 0 || Millis(e) >= Millis(s[0]) {
      assert s[..0] == [] && s[0..] == s;
    } else {
      var tail := s[1..];
      InsertPosition(e, tail);
      var i := NewerPrefix(e, tail);
      assert NewerPrefix(e, s) == i + 1;
      assert s[..i + 1] == [s[0]] + tail[..i];
      assert s[i + 1..] == tail[i..];
      assert Insert(e, s) == [s[0]] + Insert(e, tail);
      ConcatAssoc([s[0]], tail[..i] + [e], tail[i..]);
      ConcatAssoc([s[0]], tail[..i], [e]);
    }
  }

  /** An insertion sort by publish time, newest first (the comparator
      `b - a` of `Array.prototype.sort`). Each entry is inserted ahead of
      the entries after it that share its time (`InsertPosition`), so the
      sort is stable (`SortIsStable`). */
  function SortNewestFirst(s: seq<VersionEntry>): (r: seq<VersionEntry>)
    ensures NewestFirst(r)
    ensures multiset(r) == multiset(s)
    decreases |s|
  {
    if |s| == 0 then []
    else
      assert s == [s[0]] + s[1..];
      Insert(s[0], SortNewestFirst(s[1..]))
  }

  /** The entries of `s` published at time `t`, in list order. */
  function AtTime(s: seq<VersionEntry>, t: int): (r: seq<VersionEntry>)
    ensures forall k :: 0 <= k < |r| ==> Millis(r[k]) == t
    ensures |r| <= |s|
    decreases |s|
  {
    if |s| == 0 then [] else (if Millis(s[0]) == t then [s[0]] else []) + AtTime(s[1..], t)
  }

  /** Selecting one time distributes over concatenation. */
  lemma {:induction false} AtTimeConcat(a: seq<VersionEntry>, b: seq<VersionEntry>, t: int)
    ensures AtTime(a + b, t) == AtTime(a, t) + AtTime(b, t)
    decreases |a|
  {
    if |a| == 0 {
      assert a + b == b;
    } else {
      assert (a + b)[1..] == a[1..] + b;
      AtTimeConcat(a[1..], b, t);
      var x := if Millis(a[0]) == t then [a[0]] else [];
      ConcatAssoc(x, AtTime(a[1..], t), AtTime(b, t));
    }
  }

  /** No entry of a list published at another time is selected. */
  lemma {:induction false} AtTimeAbsent(s: seq<VersionEntry>, t: int)
    requires forall k :: 0 <= k < |s| ==> Millis(s[k]) != t
    ensures AtTime(s, t) == []
    decreases |s|
  {
    if |s| > 0 {
      AtTimeAbsent(s[1..], t);
    }
  }

  /** Inserting an entry puts it ahead of the entries that share its time
      and leaves every other time's entries in their order. */
  lemma InsertKeepsTimeOrder(e: VersionEntry, s: seq<VersionEntry>, t: int)
    requires NewestFirst(s)
    ensures AtTime(Insert(e, s), t) == AtTime([e], t) + AtTime(s, t)
  {
    InsertPosition(e, s);
    var i := NewerPrefix(e, s);
    var x, y := s[..i], s[i..];
    assert x + y == s;
    assert forall k :: 0 <= k < |x| ==> Millis(x[k]) > Millis(e);
    SpliceKeepsTimeOrder(x, e, y, t);
  }

  /** An entry placed after entries strictly newer than it comes first
      among those of its time. */
  lemma SpliceKeepsTimeOrder(x: seq<VersionEntry>, e: VersionEntry, y: seq<VersionEntry>, t: int)
    requires forall k :: 0 <= k < |x| ==> Millis(x[k]) > Millis(e)
    ensures AtTime(x + [e] + y, t) == AtTime([e], t) + AtTime(x + y, t)
  {
    var before, at, after := AtTime(x, t), AtTime([e], t), AtTime(y, t);
    assert AtTime(x + [e] + y, t) == before + at + after by {
      AtTimeConcat(x + [e], y, t);
      AtTimeConcat(x, [e], t);
    }
    assert AtTime(x + y, t) == before + after by {
      AtTimeConcat(x, y, t);
    }
    if Millis(e) == t {
      assert before == [] by { AtTimeAbsent(x, t); }
    } else {
      assert at == [] by { AtTimeAbsent([e], t); }
    }
  }

  /** The sort is stable: the entries published at any one time come out
      in the order they went in, as the stable `Array.prototype.sort` of
      ECMAScript 2019 and later leaves them. */
  lemma {:induction false} SortIsStable(s: seq<VersionEntry>, t: int)
    ensures AtTime(SortNewestFirst(s), t) == AtTime(s, t)
    decreases |s|
  {
    if |s| > 0 {
      SortIsStable(s[1..], t);
      InsertKeepsTimeOrder(s[0], SortNewestFirst(s[1..]), t);
      assert [s[0]][1..] == [];
      assert AtTime([s[0]], t) == (if Millis(s[0]) == t then [s[0]] else []);
    }
  }

  /** The picker entries of the final releases. */
  function Entries(rs: seq<Release>): (es: seq<VersionEntry>)
    ensures |es| == |rs| && forall k :: 0 <= k < |rs| ==> es[k] == ToEntry(rs[k])
  {
    seq(|rs|, k requires 0 <= k < |rs| => ToEntry(rs[k]))
  }

  /** `fetchVersions`, given the outcome of fetching the release list. */
  function FetchVersions(releases: Result<seq<Release>>): (r: ApiResponse<seq<VersionEntry>>)
    ensures releases.Err? ==> r == Error(releases.message)
    ensures releases.Ok? ==> r.Data?
    ensures r.Data? ==> NewestFirst(r.data)
    ensures r.Data? ==> multiset(r.data) == multiset(Entries(KeepFinal(releases.value)))
  {
    match releases
    case Err(message) => Error(message)
    case Ok(rs) => Data(SortNewestFirst(Entries(KeepFinal(rs))))
  }

  /** No pre-release tag reaches the picker, and every other release
      appears in it as many times as in the release list. */
  lemma VersionsAreFinalReleases(rs: seq<Release>)
    ensures var vs := FetchVersions(Ok(rs)).data;
      forall k :: 0 <= k < |vs| ==> !IsReleaseCandidate(vs[k].tag)
    ensures var vs := FetchVersions(Ok(rs)).data;
      forall x :: x in rs && !IsReleaseCandidate(x.tagName) ==> ToEntry(x) in vs
  {
    var kept := KeepFinal(rs);
    KeepFinalCounts(rs);
    var es := Entries(kept);
    var vs := FetchVersions(Ok(rs)).data;
    assert multiset(vs) == multiset(es);
    forall k | 0 <= k < |vs| ensures !IsReleaseCandidate(vs[k].tag) {
      assert vs[k] in multiset(es);
      EntryOfKept(kept, vs[k]);
    }
    forall x | x in rs && !IsReleaseCandidate(x.tagName) ensures ToEntry(x) in vs {
      assert multiset(kept)[x] == multiset(rs)[x];
      KeptHasEntry(kept, x);
      assert ToEntry(x) in multiset(vs);
    }
  }

  /** Every picker entry comes from a kept release. */
  lemma EntryOfKept(kept: seq<Release>, e: VersionEntry)
    requires e in Entries(kept)
    ensures exists i :: 0 <= i < |kept| && e == ToEntry(kept[i]) && e.tag == kept[i].tagName
  {
    var i :| 0 <= i < |kept| && Entries(kept)[i] == e;
  }

  /** A release kept contributes its entry. */
  lemma KeptHasEntry(kept: seq<Release>, x: Release)
    requires x in kept
    ensures ToEntry(x) in Entries(kept)
  {
    var i :| 0 <= i < |kept| && kept[i] == x;
    assert Entries(kept)[i] == ToEntry(x);
  }

  /** `fetchBugReports`: an empty version is refused before any search;
      otherwise the combined search without an explicit date, with any
      thrown error turned into `{error}`. */
  function FetchBugReports(version: string, mainRepoPage: int, ecosystemPage: int,
                           releases: Result<seq<Release>>, transport: SearchRequest -> Response<SearchPage>)
    : (r: ApiResponse<CombinedSearchResult>)
    ensures version == "" ==> r == Error(VersionRequiredMessage)
    ensures version != "" ==>
      var s := SearchBugReportsForVersion(version, None, mainRepoPage, ecosystemPage, releases, transport);
      (r.Data? <==> s.Ok?) && (s.Ok? ==> r.data == s.value) && (s.Err? ==> r.error == s.message)
  {
    if version == "" then Error(VersionRequiredMessage)
    else
      match SearchBugReportsForVersion(version, None, mainRepoPage, ecosystemPage, releases, transport)
      case Ok(result) => Data(result)
      case Err(message) => Error(message)
  }

  /** An empty version makes no request: the answer does not depend on
      the release list or on the transport. */
  lemma EmptyVersionMakesNoRequest(mainRepoPage: int, ecosystemPage: int,
                                   releases1: Result<seq<Release>>, transport1: SearchRequest -> Response<SearchPage>,
                                   releases2: Result<seq<Release>>, transport2: SearchRequest -> Response<SearchPage>)
    ensures FetchBugReports("", mainRepoPage, ecosystemPage, releases1, transport1)
         == FetchBugReports("", mainRepoPage, ecosystemPage, releases2, transport2)
  {
  }

  /** The page numbers reach the two searches unchanged. */
  lemma PagesPassThrough(version: string, mainRepoPage: int, ecosystemPage: int,
                         releases: Result<seq<Release>>, transport: SearchRequest -> Response<SearchPage>)
    requires version != ""
    requires FetchBugReports(version, mainRepoPage, ecosystemPage, releases, transport).Data?
    ensures var r := FetchBugReports(version, mainRepoPage, ecosystemPage, releases, transport).data;
      && r.mainRepoIssues == transport(BuildSearch(MainRepo, version, r.searchedAfterDate, mainRepoPage)).body
      && r.ecosystemIssues == transport(BuildSearch(Ecosystem, version, r.searchedAfterDate, ecosystemPage)).body
  {
  }
}
