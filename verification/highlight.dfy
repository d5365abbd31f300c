/** `getHighlightedTextFragment` (src/components/shared/issue-card.tsx):
    locate the leftmost case-insensitive occurrence of any of seven
    version spellings in an issue body and cut a window of text around it.
    The rendered markup is modelled by its text pieces only. */
module Highlight {
  import opened Wrappers
  import opened Text

  /** The winning occurrence: its offset in the text, which spelling
      produced it (by position in the candidate list) and the text it
      covers. */
  datatype Match = Match(index: nat, patternIndex: nat, pattern: string, actual: string)

  /** The cut of the text shown to the user. */
  datatype Window = Window(start: nat, end: nat)

  /** The pieces of the rendered excerpt: either plain text, or an
      ellipsis prefix, the text before the match, the marked match, the
      text after it and an ellipsis suffix. */
  datatype Highlighted =
    | Plain(text: string)
    | Marked(prefix: string, before: string, mark: string, after: string, suffix: string)
  {
    /** The text the excerpt displays, pieces concatenated. */
    function Flatten(): string
    {
      match this
      case Plain(t) => t
      case Marked(p, b, m, a, s) => p + b + m + a + s
    }
  }

  datatype HighlightResult = HighlightResult(fragment: string, highlighted: Highlighted)

  const Ellipsis := "..."

  /** The candidate spellings of a version, in the order they are tried.
      The third repeats the first and so can never win a tie. */
  function Patterns(term: string): (ps: seq<string>)
    ensures |ps| == 7
    ensures forall k :: 0 <= k < |ps| ==> |term| <= |ps[k]| <= |term| + 21
    ensures ps[0] == ps[2] == term
  {
    [ term,
      "v" + term,
      term,
      "react-native@" + term,
      "React Native " + term,
      "RN " + term,
      "React Native Version " + term ]
  }

  /** `m` is the occurrence the left-to-right scan over `pats` keeps: no
      candidate occurs further left, and among the candidates occurring at
      `m.index` it is the first in list order. */
  ghost predicate IsBest(text: string, pats: seq<string>, m: Match)
  {
    && m.patternIndex < |pats|
    && m.pattern == pats[m.patternIndex]
    && OccursAtCI(text, m.pattern, m.index)
    && m.actual == text[m.index..m.index + |m.pattern|]
    && (forall j, i :: 0 <= j < |pats| && 0 <= i < m.index ==> !OccursAtCI(text, pats[j], i))
    && (forall j :: 0 <= j < m.patternIndex ==> !OccursAtCI(text, pats[j], m.index))
  }

  /** No candidate occurs anywhere in the text. */
  ghost predicate NoneOccurs(text: string, pats: seq<string>)
  {
    forall j, i :: 0 <= j < |pats| ==> !OccursAtCI(text, pats[j], i)
  }

  /** The scan over the candidates with a "best so far" accumulator that
      only a strictly smaller offset replaces. */
  function BestMatch(text: string, pats: seq<string>): (r: Option<Match>)
    ensures r.Some? ==> IsBest(text, pats, r.value)
    ensures r.None? <==> NoneOccurs(text, pats)
    decreases |pats|
  {
    if |pats| == 0 then None
    else
      var k := |pats| - 1;
      var prev := BestMatch(text, pats[..k]);
      match IndexOfCI(text, pats[k])
      case None =>
        LastNeverOccurs(text, pats, prev, pats[k]);
        prev
      case Some(i) =>
        if prev.None? || i < prev.value.index then
          var m := Match(i, k, pats[k], text[i..i + |pats[k]|]);
          LastWins(text, pats, prev, m);
          Some(m)
        else
          PrevStays(text, pats, prev.value, i, pats[k]);
          prev
  }

  /** The last candidate occurs nowhere: the best match over all candidates
      is the best match over the others. */
  lemma LastNeverOccurs(text: string, pats: seq<string>, prev: Option<Match>, last: string)
    requires |pats| > 0 && last == pats[|pats| - 1]
    requires forall j :: !OccursAtCI(text, last, j)
    requires prev.Some? ==> IsBest(text, pats[..|pats| - 1], prev.value)
    requires prev.None? <==> NoneOccurs(text, pats[..|pats| - 1])
    ensures prev.Some? ==> IsBest(text, pats, prev.value)
    ensures prev.None? <==> NoneOccurs(text, pats)
  {
    var init := pats[..|pats| - 1];
    assert forall j :: 0 <= j < |init| ==> init[j] == pats[j];
  }

  /** The last candidate first occurs strictly left of every other
      candidate: its occurrence becomes the best match. */
  lemma LastWins(text: string, pats: seq<string>, prev: Option<Match>, m: Match)
    requires |pats| > 0 && m.patternIndex == |pats| - 1 && m.pattern == pats[m.patternIndex]
    requires OccursAtCI(text, m.pattern, m.index) && m.actual == text[m.index..m.index + |m.pattern|]
    requires forall j :: 0 <= j < m.index ==> !OccursAtCI(text, m.pattern, j)
    requires prev.Some? ==> IsBest(text, pats[..|pats| - 1], prev.value) && m.index < prev.value.index
    requires prev.None? ==> NoneOccurs(text, pats[..|pats| - 1])
    ensures IsBest(text, pats, m)
  {
    var init := pats[..|pats| - 1];
    assert forall j :: 0 <= j < |init| ==> init[j] == pats[j];
  }

  /** The last candidate first occurs at or right of the best match of the
      others: that match stays. */
  lemma PrevStays(text: string, pats: seq<string>, prev: Match, i: nat, last: string)
    requires |pats| > 0 && last == pats[|pats| - 1] && IsBest(text, pats[..|pats| - 1], prev) && prev.index <= i
    requires forall j :: 0 <= j < i ==> !OccursAtCI(text, last, j)
    ensures IsBest(text, pats, prev)
    ensures !NoneOccurs(text, pats)
  {
    var init := pats[..|pats| - 1];
    assert forall j :: 0 <= j < |init| ==> init[j] == pats[j];
    assert OccursAtCI(text, pats[prev.patternIndex], prev.index);
  }

  /** The window of half the budget on each side of `[matchStart,
      matchEnd)`, clamped to the text, before any widening. */
  function ClampedWindow(len: nat, matchStart: nat, matchEnd: nat, maxLength: nat): (w: Window)
    requires matchStart <= matchEnd <= len
    ensures w.start <= matchStart && matchEnd <= w.end <= len
    ensures w.start == 0 || matchStart - w.start == maxLength / 2
    ensures w.end == len || w.end - matchEnd == maxLength / 2
    ensures w.start == 0 ==> matchStart <= maxLength / 2
    ensures w.end == len ==> len - matchEnd <= maxLength / 2
  {
    var half := maxLength / 2;
    Window(if matchStart < half then 0 else matchStart - half,
           if len < matchEnd + half then len else matchEnd + half)
  }

  /** The window around the match `[matchStart, matchEnd)`: the clamped
      window, widened to the full budget from the side that did not hit a
      clamp when it came out narrower than `maxLength`. */
  function FragmentWindow(len: nat, matchStart: nat, matchEnd: nat, maxLength: nat): (w: Window)
    requires matchStart <= matchEnd <= len
    ensures w.start <= matchStart && matchEnd <= w.end <= len
    ensures var c := ClampedWindow(len, matchStart, matchEnd, maxLength);
      w.start <= c.start && c.end <= w.end
    ensures var natural := matchEnd - matchStart + 2 * (maxLength / 2);
      w.end - w.start <= if natural < maxLength then maxLength else natural
    ensures matchStart < matchEnd ==> w.end - w.start >= if len < maxLength then len else maxLength
    ensures var c := ClampedWindow(len, matchStart, matchEnd, maxLength);
      c.end - c.start >= maxLength ==> w == c
    ensures var c := ClampedWindow(len, matchStart, matchEnd, maxLength);
      c.start > 0 && c.end < len ==> w == c
    ensures var c := ClampedWindow(len, matchStart, matchEnd, maxLength);
      w.start == c.start || w.end == c.end
    ensures var c := ClampedWindow(len, matchStart, matchEnd, maxLength);
      c.end - c.start < maxLength && matchStart < matchEnd ==>
        w.end - w.start == if len < maxLength then len else maxLength
  {
    var c := ClampedWindow(len, matchStart, matchEnd, maxLength);
    if c.end - c.start < maxLength then
      if c.start == 0 then Window(0, if len < maxLength then len else maxLength)
      else if c.end == len then Window(if len < maxLength then 0 else len - maxLength, c.end)
      else c
    else c
  }

  /** The first `maxLength` characters of `text`, with an ellipsis when
      something was cut off. */
  function Truncate(text: string, maxLength: nat): (r: string)
    ensures |text| <= maxLength ==> r == text
    ensures |text| > maxLength ==> r == text[..maxLength] + Ellipsis
  {
    if |text| > maxLength then text[..maxLength] + Ellipsis else text
  }

  function TruncatedResult(text: string, maxLength: nat): HighlightResult
  {
    var t := Truncate(text, maxLength);
    HighlightResult(t, Plain(t))
  }

  /** The excerpt of `text` shown for `term`, at most about `maxLength`
      characters around the best match. */
  function HighlightFragment(text: string, term: string, maxLength: nat): (r: HighlightResult)
    ensures r.fragment == r.highlighted.Flatten()
    ensures r.highlighted.Plain? <==> term == "" || text == "" || NoneOccurs(text, Patterns(term))
    ensures r.highlighted.Plain? ==> r.fragment == Truncate(text, maxLength)
    ensures r.highlighted.Marked? ==>
      && BestMatch(text, Patterns(term)).Some?
      && MarkedAround(text, BestMatch(text, Patterns(term)).value, maxLength, r.highlighted)
  {
    if term == "" || text == "" then TruncatedResult(text, maxLength)
    else
      match BestMatch(text, Patterns(term))
      case None => TruncatedResult(text, maxLength)
      case Some(m) =>
        var h := MarkAround(text, m, maxLength);
        HighlightResult(h.Flatten(), h)
  }

  /** The marked excerpt around the occurrence `m`. */
  function MarkAround(text: string, m: Match, maxLength: nat): (h: Highlighted)
    requires m.index + |m.actual| <= |text|
    requires text[m.index..m.index + |m.actual|] == m.actual
    ensures h.Marked? && MarkedAround(text, m, maxLength, h)
  {
    var matchStart := m.index;
    var matchEnd := matchStart + |m.actual|;
    var w := FragmentWindow(|text|, matchStart, matchEnd, maxLength);
    var h := Cut(text, w, matchStart, matchEnd);
    CutIsMarkedAround(text, m, maxLength, w, h);
    h
  }

  /** A cut at the window `FragmentWindow` picks is marked around the match. */
  lemma CutIsMarkedAround(text: string, m: Match, maxLength: nat, w: Window, h: Highlighted)
    requires m.index + |m.actual| <= |text|
    requires w == FragmentWindow(|text|, m.index, m.index + |m.actual|, maxLength)
    requires h.Marked? && h.mark == m.actual
    requires |h.before| == m.index - w.start && |h.after| == w.end - (m.index + |m.actual|)
    requires text[w.start..w.end] == h.before + h.mark + h.after
    requires h.prefix == (if w.start > 0 then Ellipsis else "")
    requires h.suffix == (if w.end < |text| then Ellipsis else "")
    ensures MarkedAround(text, m, maxLength, h)
  {
    CutIsSpliced(text, m, w, h);
    if |h.mark| > 0 {
      WindowWithinHalves(|text|, m.index, m.index + |h.mark|, maxLength);
    }
  }

  /** The cut pieces, laid around the match, spell out the window. */
  lemma CutIsSpliced(text: string, m: Match, w: Window, h: Highlighted)
    requires w.start <= m.index && m.index + |m.actual| <= w.end <= |text|
    requires h.Marked? && h.mark == m.actual
    requires |h.before| == m.index - w.start && |h.after| == w.end - (m.index + |m.actual|)
    requires text[w.start..w.end] == h.before + h.mark + h.after
    requires h.prefix == (if w.start > 0 then Ellipsis else "")
    requires h.suffix == (if w.end < |text| then Ellipsis else "")
    ensures SplicedAround(text, m, h)
    ensures Window(m.index - |h.before|, m.index + |h.mark| + |h.after|) == w
  {
  }

  /** Around a non-empty match the window never takes more than half the
      budget on either side. */
  lemma WindowWithinHalves(len: nat, matchStart: nat, matchEnd: nat, maxLength: nat)
    requires matchStart < matchEnd <= len
    ensures var w := FragmentWindow(len, matchStart, matchEnd, maxLength);
      w.end - w.start <= matchEnd - matchStart + 2 * (maxLength / 2)
  {
  }

  /** The window `w` of the text split at the match offsets, with an
      ellipsis on each side where the window stops short of the text. */
  function Cut(text: string, w: Window, matchStart: nat, matchEnd: nat): (h: Highlighted)
    requires w.start <= matchStart <= matchEnd <= w.end <= |text|
    ensures h.Marked?
    ensures |h.before| == matchStart - w.start && |h.mark| == matchEnd - matchStart && |h.after| == w.end - matchEnd
    ensures text[w.start..w.end] == h.before + h.mark + h.after
    ensures h.mark == text[matchStart..matchEnd]
    ensures h.prefix == (if w.start > 0 then Ellipsis else "")
    ensures h.suffix == (if w.end < |text| then Ellipsis else "")
  {
    var h := Marked(if w.start > 0 then Ellipsis else "", text[w.start..matchStart], text[matchStart..matchEnd],
                    text[matchEnd..w.end], if w.end < |text| then Ellipsis else "");
    assert text[w.start..w.end] == text[w.start..matchStart] + text[matchStart..matchEnd] + text[matchEnd..w.end];
    h
  }

  /** What a marked excerpt around the occurrence `m` promises: the marked
      text is the occurrence; before + mark + after is the contiguous
      window of the text around it; the ellipses appear exactly where the
      window stops short of an end of the text; the window is the one
      `FragmentWindow` computes around the match, so it uses the whole
      budget when the text is long enough but no more than half the budget
      on each side of a non-empty match. */
  ghost predicate MarkedAround(text: string, m: Match, maxLength: nat, h: Highlighted)
    requires h.Marked?
  {
    var start := m.index - |h.before|;
    var end := m.index + |h.mark| + |h.after|;
    && SplicedAround(text, m, h)
    && Window(start, end) == FragmentWindow(|text|, m.index, m.index + |h.mark|, maxLength)
    && (|h.mark| > 0 ==> end - start <= |h.mark| + 2 * (maxLength / 2))
    && (|h.mark| > 0 ==> end - start >= if |text| < maxLength then |text| else maxLength)
  }

  /** The text-level half of `MarkedAround`: the marked text is the
      occurrence, before + mark + after is the text between `start` and
      `end`, and an ellipsis stands exactly where that stops short of an
      end of the text. */
  ghost predicate SplicedAround(text: string, m: Match, h: Highlighted)
    requires h.Marked?
  {
    var start := m.index - |h.before|;
    var end := m.index + |h.mark| + |h.after|;
    && 0 <= start && end <= |text|
    && text[start..end] == h.before + h.mark + h.after
    && h.mark == m.actual
    && (h.prefix == (if start > 0 then Ellipsis else ""))
    && (h.suffix == (if end < |text| then Ellipsis else ""))
  }

  /** The marked text of an excerpt is, case-insensitively, one of the
      candidate spellings of the term, and no spelling occurs further left
      in the text. */
  lemma MarkIsLeftmostSpelling(text: string, term: string, maxLength: nat)
    requires HighlightFragment(text, term, maxLength).highlighted.Marked?
    ensures var h := HighlightFragment(text, term, maxLength).highlighted;
      var pats := Patterns(term);
      var at := BestMatch(text, pats).value.index;
      && (exists k :: 0 <= k < |pats| && Lower(h.mark) == Lower(pats[k]))
      && text[at..at + |h.mark|] == h.mark
      && forall j, i :: 0 <= j < |pats| && 0 <= i < at ==> !OccursAtCI(text, pats[j], i)
  {
    var pats := Patterns(term);
    var m := BestMatch(text, pats).value;
    var h := HighlightFragment(text, term, maxLength).highlighted;
    assert h.mark == m.actual;
    BestIsLeftmostSpelling(text, pats, m);
  }

  /** The best match's text is one of the spellings, and no spelling occurs
      further left. */
  lemma BestIsLeftmostSpelling(text: string, pats: seq<string>, m: Match)
    requires IsBest(text, pats, m)
    ensures exists k :: 0 <= k < |pats| && Lower(m.actual) == Lower(pats[k])
    ensures text[m.index..m.index + |m.actual|] == m.actual
    ensures forall j, i :: 0 <= j < |pats| && 0 <= i < m.index ==> !OccursAtCI(text, pats[j], i)
  {
    MatchIsSpelling(text, pats, m);
  }

  /** The text the best match covers is, case-insensitively, its spelling. */
  lemma MatchIsSpelling(text: string, pats: seq<string>, m: Match)
    requires IsBest(text, pats, m)
    ensures Lower(m.actual) == Lower(pats[m.patternIndex])
    ensures text[m.index..m.index + |m.actual|] == m.actual
  {
  }

  /** The leftmost-then-earliest occurrence is unique. */
  lemma BestIsUnique(text: string, pats: seq<string>, m1: Match, m2: Match)
    requires IsBest(text, pats, m1) && IsBest(text, pats, m2)
    ensures m1 == m2
  {
    assert OccursAtCI(text, pats[m1.patternIndex], m1.index);
    assert OccursAtCI(text, pats[m2.patternIndex], m2.index);
    assert m1.index == m2.index;
  }

  /** The third candidate repeats the first, so it never wins: at any
      offset where it occurs, the first candidate occurs too and was tried
      earlier. */
  lemma DuplicateSpellingNeverWins(text: string, term: string)
    requires BestMatch(text, Patterns(term)).Some?
    ensures BestMatch(text, Patterns(term)).value.patternIndex != 2
  {
    var m := BestMatch(text, Patterns(term)).value;
    var pats := Patterns(term);
    assert OccursAtCI(text, pats[m.patternIndex], m.index);
    assert pats[0] == pats[2];
  }

  /** The excerpt is at most the marked text plus half the budget on each
      side plus two ellipses; a plain excerpt is at most the budget plus
      one ellipsis. The longest spelling adds 21 characters to the term. */
  lemma FragmentLengthBound(text: string, term: string, maxLength: nat)
    ensures var r := HighlightFragment(text, term, maxLength);
      r.highlighted.Plain? ==> |r.fragment| <= maxLength + 3
    ensures var r := HighlightFragment(text, term, maxLength);
      r.highlighted.Marked? ==>
        |r.highlighted.mark| <= |term| + 21 &&
        |r.fragment| <= |term| + 21 + 2 * (maxLength / 2) + 6
  {
    var r := HighlightFragment(text, term, maxLength);
    var h := r.highlighted;
    if h.Marked? {
      var pats := Patterns(term);
      var m := BestMatch(text, pats).value;
      assert h.mark == m.actual && term != "";
      assert |m.actual| == |pats[m.patternIndex]|;
      assert |r.fragment| == |h.prefix| + |h.before| + |h.mark| + |h.after| + |h.suffix|;
    }
  }
}
