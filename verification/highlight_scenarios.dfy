/** Worked examples of the fragment highlighter on concrete issue texts. */
module HighlightScenarios {
  import opened Text
  import opened Highlight
  import opened Wrappers

  /** "Crash seen on React Native 0.72 after upgrade", in three parts. */
  const Head := "Crash seen on "
  const Spelled := "React Native 0.72"
  const Tail := " after upgrade"

  /** One differing character (after ASCII lower-casing) rules out an
      occurrence. */
  lemma NotOccursByChar(text: string, pat: string, i: nat, k: nat)
    requires k < |pat| && i + k < |text| && LowerChar(text[i + k]) != LowerChar(pat[k])
    ensures !OccursAtCI(text, pat, i)
  {
    if i + |pat| <= |text| {
      assert Lower(text[i..i + |pat|])[k] != Lower(pat)[k];
    }
  }

  lemma SpelledAt()
    ensures (Head + Spelled + Tail)[14..31] == Spelled
  {
    var t := Head + Spelled + Tail;
    assert |Head| == 14 && |Spelled| == 17;
    assert t[|Head|..|Head| + |Spelled|] == Spelled;
  }

  lemma NothingBefore()
    ensures forall j, i :: 0 <= j < 7 && 0 <= i < 14 ==> !OccursAtCI(Head + Spelled + Tail, Patterns("0.72")[j], i)
  {
    var text := Head + Spelled + Tail;
    var pats := Patterns("0.72");
    forall j, i | 0 <= j < 7 && 0 <= i < 14
      ensures !OccursAtCI(text, pats[j], i)
    {
      assert text[i] == Head[i];
      if i == 1 {
        assert text[2] == 'a';
        NotOccursByChar(text, pats[j], 1, 1);
      } else {
        NotOccursByChar(text, pats[j], i, 0);
      }
    }
  }

  lemma EarlierSpellingsMissAt14()
    ensures forall j :: 0 <= j < 4 ==> !OccursAtCI(Head + Spelled + Tail, Patterns("0.72")[j], 14)
  {
    var text := Head + Spelled + Tail;
    var pats := Patterns("0.72");
    assert text[14] == 'R';
    forall j | 0 <= j < 4 ensures !OccursAtCI(text, pats[j], 14) {
      if j == 3 {
        assert text[19] == ' ';
        NotOccursByChar(text, pats[j], 14, 5);
      } else {
        NotOccursByChar(text, pats[j], 14, 0);
      }
    }
  }

  lemma ScenarioIsBest()
    ensures IsBest(Head + Spelled + Tail, Patterns("0.72"), Match(14, 4, Spelled, Spelled))
  {
    var text := Head + Spelled + Tail;
    var pats := Patterns("0.72");
    SpelledAt();
    NothingBefore();
    EarlierSpellingsMissAt14();
    assert pats[4] == Spelled;
    assert Lower(text[14..31]) == Lower(pats[4]);
  }

  lemma ScenarioBest()
    ensures BestMatch(Head + Spelled + Tail, Patterns("0.72")) == Some(Match(14, 4, Spelled, Spelled))
  {
    var text := Head + Spelled + Tail;
    var pats := Patterns("0.72");
    var m := Match(14, 4, Spelled, Spelled);
    ScenarioIsBest();
    var r := BestMatch(text, pats);
    assert !NoneOccurs(text, pats);
    BestIsUnique(text, pats, m, r.value);
  }

  lemma ScenarioWindow()
    ensures MarkAround(Head + Spelled + Tail, Match(14, 4, Spelled, Spelled), 20)
         == Marked("...", "h seen on ", Spelled, " after upg", "...")
  {
    var text := Head + Spelled + Tail;
    SpelledAt();
    assert |text| == 45;
    assert FragmentWindow(45, 14, 31, 20) == Window(4, 41);
    assert text[4..14] == Head[4..];
    assert text[31..41] == Tail[..10];
  }

  /** Searching "0.72" in the crash report marks the "React Native 0.72"
      spelling, which starts further left than the bare version, and cuts
      ten characters of context on each side. */
  lemma ScenarioFragment()
    ensures HighlightFragment(Head + Spelled + Tail, "0.72", 20).highlighted
         == Marked("...", "h seen on ", Spelled, " after upg", "...")
  {
    ScenarioBest();
    ScenarioWindow();
  }

  /** A text where the window exceeds the budget plus two ellipses. */
  const Short := "xxRN 1xx"

  lemma ShortBest()
    ensures BestMatch(Short, Patterns("1")) == Some(Match(2, 5, "RN 1", "RN 1"))
  {
    var pats := Patterns("1");
    var m := Match(2, 5, "RN 1", "RN 1");
    assert Short[2..6] == "RN 1";
    forall j, i | 0 <= j < 7 && 0 <= i < 2
      ensures !OccursAtCI(Short, pats[j], i)
    {
      NotOccursByChar(Short, pats[j], i, 0);
    }
    forall j | 0 <= j < 5 ensures !OccursAtCI(Short, pats[j], 2) {
      if j < 3 {
        NotOccursByChar(Short, pats[j], 2, 0);
      } else {
        NotOccursByChar(Short, pats[j], 2, 1);
      }
    }
    assert IsBest(Short, pats, m);
    BestIsUnique(Short, pats, m, BestMatch(Short, pats).value);
  }

  lemma ShortWindow()
    ensures MarkAround(Short, Match(2, 5, "RN 1", "RN 1"), 2) == Marked("...", "x", "RN 1", "x", "...")
  {
    assert Short[2..6] == "RN 1";
    assert FragmentWindow(8, 2, 6, 2) == Window(1, 7);
    assert Short[1..2] == "x" && Short[6..7] == "x";
  }

  lemma ShortHighlighted()
    ensures HighlightFragment(Short, "1", 2).highlighted == Marked("...", "x", "RN 1", "x", "...")
  {
    ShortBest();
    ShortWindow();
  }

  /** With a budget of 2 the excerpt is 12 characters long: the window
      keeps half the budget on each side of the whole match, so its
      length is bounded by the match length plus the budget, not by the
      budget alone. */
  lemma ShortFragmentExceedsBudget()
    ensures HighlightFragment(Short, "1", 2).fragment == "...xRN 1x..."
    ensures |HighlightFragment(Short, "1", 2).fragment| > 2 + 6
  {
    var r := HighlightFragment(Short, "1", 2);
    ShortHighlighted();
    assert r.fragment == r.highlighted.Flatten();
    FlattenShort();
  }

  lemma FlattenShort()
    ensures Marked("...", "x", "RN 1", "x", "...").Flatten() == "...xRN 1x..."
  {
  }
}
