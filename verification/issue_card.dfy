/** The text logic of an issue card (src/components/shared/issue-card.tsx):
    the short repository label, the 200-character teaser of the body and
    whether the highlighted fragment is shown beside it. */
module IssueCard {
  import opened Wrappers
  import opened Text
  import opened Highlight

  const MainRepo := "facebook/react-native"
  const CommunityOwner := "react-native-community/"
  const CommunityLabel := "RN Community: "
  const MansionOwner := "software-mansion/"

  /** The characters of the body shown on every card. */
  const TeaserLength := 200

  /** The shorter label shown for a repository `owner/name`. */
  function RepoDisplayName(repo: string): (r: string)
    ensures repo == MainRepo ==> r == "React Native"
    ensures repo != MainRepo && StartsWith(repo, CommunityOwner) ==>
      r == CommunityLabel + repo[|CommunityOwner|..]
    ensures repo != MainRepo && !StartsWith(repo, CommunityOwner) && StartsWith(repo, MansionOwner) ==>
      r == repo[|MansionOwner|..]
    ensures repo != MainRepo && !StartsWith(repo, CommunityOwner) && !StartsWith(repo, MansionOwner) ==>
      r == repo
  {
    if repo == MainRepo then "React Native"
    else if StartsWith(repo, CommunityOwner) then
      ReplacePrefix(repo, CommunityOwner, CommunityLabel);
      ReplaceFirst(repo, CommunityOwner, CommunityLabel)
    else if StartsWith(repo, MansionOwner) then
      ReplacePrefix(repo, MansionOwner, "");
      ReplaceFirst(repo, MansionOwner, "")
    else repo
  }

  /** A community repository's label names the repository without its
      owner, so the repository can be read back from it. */
  lemma CommunityLabelRoundTrip(name: string)
    ensures RepoDisplayName(CommunityOwner + name) == CommunityLabel + name
    ensures var r := RepoDisplayName(CommunityOwner + name);
      CommunityOwner + r[|CommunityLabel|..] == CommunityOwner + name
  {
    var repo := CommunityOwner + name;
    assert StartsWith(repo, CommunityOwner);
    assert repo[|CommunityOwner|..] == name;
    assert repo[0] == 'r' && MainRepo[0] == 'f';
  }

  /** The body is present and non-empty (a truthy `issue.body`). */
  predicate HasBody(body: Option<string>)
  {
    body.Some? && body.value != ""
  }

  /** The teaser: the first 200 characters of the body, with an ellipsis
      when the body is longer; empty when there is no body. */
  function Teaser(body: Option<string>): (r: string)
    ensures !HasBody(body) ==> r == ""
    ensures HasBody(body) && |body.value| <= TeaserLength ==> r == body.value
    ensures HasBody(body) && |body.value| > TeaserLength ==>
      r == body.value[..TeaserLength] + Ellipsis
  {
    if HasBody(body) then
      var b := body.value;
      b[..if |b| < TeaserLength then |b| else TeaserLength] + (if |b| > TeaserLength then Ellipsis else "")
    else ""
  }

  /** The highlighted fragment of the body for the search term, empty when
      there is no body. */
  function CardFragment(body: Option<string>, term: string): (r: string)
    ensures !HasBody(body) ==> r == ""
    ensures HasBody(body) ==> r == HighlightFragment(body.value, term, TeaserLength).fragment
  {
    if HasBody(body) then HighlightFragment(body.value, term, TeaserLength).fragment else ""
  }

  /** Whether the card shows the fragment in a separate box: a term was
      given, the body is present, the fragment differs from the teaser and
      contains the term verbatim. It is shown only when the highlighter
      found a spelling of a non-empty term in the body, and then the box
      holds the term as typed. */
  function ShowSeparateHighlight(body: Option<string>, term: string): (r: bool)
    ensures r ==> term != "" && HasBody(body) && HighlightFragment(body.value, term, TeaserLength).highlighted.Marked?
    ensures r ==> Contains(HighlightFragment(body.value, term, TeaserLength).fragment, term)
  {
    var fragment := CardFragment(body, term);
    assert HasBody(body) ==> Teaser(body) == Truncate(body.value, TeaserLength) by {
      if HasBody(body) { TeaserIsTruncation(body); }
    }
    term != "" && HasBody(body) && fragment != Teaser(body) && Contains(fragment, term)
  }

  /** Conversely, the box is shown when the highlighter marks the term as
      typed behind a leading ellipsis in a body that does not itself start
      with one: the fragment then contains the term and cannot be the
      teaser, whose first characters are the body's. */
  lemma ShownWhenTermMarkedInside(body: Option<string>, term: string)
    requires term != "" && HasBody(body) && !StartsWith(body.value, Ellipsis)
    requires var h := HighlightFragment(body.value, term, TeaserLength).highlighted;
      h.Marked? && h.prefix == Ellipsis && h.mark == term
    ensures ShowSeparateHighlight(body, term)
  {
    var h := HighlightFragment(body.value, term, TeaserLength).highlighted;
    MarkedHoldsTerm(h);
    TeaserIsTruncation(body);
    EllipsisStartNotTruncation(h.Flatten(), body.value);
  }

  /** A marked excerpt contains its mark. */
  lemma MarkedHoldsTerm(h: Highlighted)
    requires h.Marked?
    ensures Contains(h.Flatten(), h.mark)
  {
    var f := h.Flatten();
    var at := |h.prefix| + |h.before|;
    assert f[at..at + |h.mark|] == h.mark;
    assert OccursAt(f, h.mark, at);
    ContainsIff(f, h.mark);
  }

  /** A text opening with an ellipsis is not the teaser of a body that
      does not. */
  lemma EllipsisStartNotTruncation(f: string, b: string)
    requires StartsWith(f, Ellipsis) && !StartsWith(b, Ellipsis)
    ensures f != Truncate(b, TeaserLength)
  {
    var t := Truncate(b, TeaserLength);
    if |t| >= |Ellipsis| {
      assert t[..|Ellipsis|] == b[..|Ellipsis|];
    }
  }

  /** The teaser is the truncation branch of the highlighter. */
  lemma TeaserIsTruncation(body: Option<string>)
    requires HasBody(body)
    ensures Teaser(body) == Truncate(body.value, TeaserLength)
  {
  }

  /** Without a search term (the only way the result lists render cards)
      the fragment is exactly the teaser, so no separate box is shown. */
  lemma NoTermNoSeparateHighlight(body: Option<string>)
    ensures CardFragment(body, "") == Teaser(body)
    ensures !ShowSeparateHighlight(body, "")
  {
  }

  /** A separate box is only ever shown when one of the spellings of the
      term was found in the body: otherwise the fragment is the teaser. */
  lemma SeparateHighlightNeedsMatch(body: Option<string>, term: string)
    requires ShowSeparateHighlight(body, term)
    ensures HighlightFragment(body.value, term, TeaserLength).highlighted.Marked?
    ensures !NoneOccurs(body.value, Patterns(term))
  {
    var r := HighlightFragment(body.value, term, TeaserLength);
    if r.highlighted.Plain? {
      TeaserIsTruncation(body);
    }
  }
}
