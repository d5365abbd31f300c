/** `findReleaseByVersion` (src/lib/github.ts): the first release whose
    tag or name is the version (with or without a leading `v`), else the
    first whose tag or name contains it; `null` when neither exists or the
    release list could not be obtained. */
module Resolver {
  import opened Wrappers
  import opened Text
  import opened GitHubTypes

  /** The exact rule: tag or name equals `version` or `v` + `version`. */
  predicate ExactMatch(r: Release, version: string)
  {
    || r.tagName == version
    || r.tagName == "v" + version
    || r.name == Some(version)
    || r.name == Some("v" + version)
  }

  /** The fallback rule: the tag contains `version`, or the name is
      non-empty (truthy) and contains it. */
  predicate PartialMatch(r: Release, version: string)
  {
    Contains(r.tagName, version) || (r.name.Some? && r.name.value != "" && Contains(r.name.value, version))
  }

  /** `i` is the position `Array.prototype.find` stops at: the first
      release satisfying `p`. */
  ghost predicate IsFirst(rs: seq<Release>, p: Release -> bool, i: int)
  {
    0 <= i < |rs| && p(rs[i]) && forall j :: 0 <= j < i ==> !p(rs[j])
  }

  /** The first position at or after `from` whose release satisfies `p`. */
  function FirstIndex(rs: seq<Release>, p: Release -> bool, from: nat): (r: Option<nat>)
    requires from <= |rs|
    requires forall j :: 0 <= j < from ==> !p(rs[j])
    ensures r.Some? ==> IsFirst(rs, p, r.value)
    ensures r.None? <==> forall j :: 0 <= j < |rs| ==> !p(rs[j])
    decreases |rs| - from
  {
    if from == |rs| then None
    else if p(rs[from]) then Some(from)
    else FirstIndex(rs, p, from + 1)
  }

  /** `Array.prototype.find`: the first release satisfying `p`. */
  function Find(rs: seq<Release>, p: Release -> bool): (r: Option<Release>)
    ensures r.None? <==> forall j :: 0 <= j < |rs| ==> !p(rs[j])
    ensures r.Some? ==> exists i :: IsFirst(rs, p, i) && rs[i] == r.value
  {
    match FirstIndex(rs, p, 0)
    case None => None
    case Some(i) => Some(rs[i])
  }

  /** The release a version string designates, given the outcome of
      fetching the release list (a failure is swallowed into `None`). */
  function FindReleaseByVersion(releases: Result<seq<Release>>, version: string): (r: Option<Release>)
    ensures releases.Err? ==> r.None?
    ensures releases.Ok? ==> r == FindIn(releases.value, version)
  {
    match releases
    case Err(_) => None
    case Ok(rs) => FindIn(rs, version)
  }

  /** `i` is the first release matching `version` exactly. */
  ghost predicate FirstExact(rs: seq<Release>, version: string, i: int)
  {
    0 <= i < |rs| && ExactMatch(rs[i], version) && forall j :: 0 <= j < i ==> !ExactMatch(rs[j], version)
  }

  /** `i` is the first release matching `version` partially. */
  ghost predicate FirstPartial(rs: seq<Release>, version: string, i: int)
  {
    0 <= i < |rs| && PartialMatch(rs[i], version) && forall j :: 0 <= j < i ==> !PartialMatch(rs[j], version)
  }

  /** The exact pass over the list in order, then the partial pass. */
  function FindIn(rs: seq<Release>, version: string): (r: Option<Release>)
    ensures (exists i :: 0 <= i < |rs| && ExactMatch(rs[i], version)) ==>
      r.Some? && exists i :: FirstExact(rs, version, i) && rs[i] == r.value
    ensures (forall i :: 0 <= i < |rs| ==> !ExactMatch(rs[i], version)) ==>
      && (r.None? <==> forall i :: 0 <= i < |rs| ==> !PartialMatch(rs[i], version))
      && (r.Some? ==> exists i :: FirstPartial(rs, version, i) && rs[i] == r.value)
  {
    var exact := Find(rs, x => ExactMatch(x, version));
    if exact.Some? then exact else Find(rs, x => PartialMatch(x, version))
  }

  /** An exact match always wins over an earlier partial match. */
  lemma ExactBeatsEarlierPartial(rs: seq<Release>, version: string, i: nat)
    requires i < |rs| && ExactMatch(rs[i], version)
    requires forall j :: 0 <= j < i ==> !ExactMatch(rs[j], version)
    ensures FindIn(rs, version) == Some(rs[i])
  {
    assert exists j :: 0 <= j < |rs| && ExactMatch(rs[j], version);
    var r := FindIn(rs, version);
    assert r.Some?;
    var k :| FirstExact(rs, version, k) && rs[k] == r.value;
    assert FirstExact(rs, version, k);
    assert 0 <= k < |rs|;
    assert k == i;
  }

  /** Whatever is returned satisfies one of the two rules; an exact match
      is in particular a partial one only through the tag or name. */
  lemma FoundMatchesVersion(rs: seq<Release>, version: string)
    requires FindIn(rs, version).Some?
    ensures var r := FindIn(rs, version).value;
      r in rs && (ExactMatch(r, version) || PartialMatch(r, version))
  {
  }
}
