/** String helpers over `seq<char>`: substring search, prefixes and ASCII
    lower-casing, the only case folding the model uses. */
module Text {
  import opened Wrappers

  /** `sub` occurs in `s` starting at offset `i`. */
  predicate OccursAt(s: string, sub: string, i: int)
  {
    0 <= i && i + |sub| <= |s| && s[i..i + |sub|] == sub
  }

  /** `p` is a prefix of `s` (JavaScript `s.startsWith(p)`). */
  predicate StartsWith(s: string, p: string)
  {
    |p| <= |s| && s[..|p|] == p
  }

  /** The first offset at or after `from` where `sub` occurs in `s`. */
  function IndexFrom(s: string, sub: string, from: nat): (r: Option<nat>)
    ensures r.Some? ==> from <= r.value && OccursAt(s, sub, r.value)
    ensures r.Some? ==> forall j :: from <= j < r.value ==> !OccursAt(s, sub, j)
    ensures r.None? ==> forall j :: from <= j ==> !OccursAt(s, sub, j)
    decreases |s| - from
  {
    if from + |sub| > |s| then None
    else if s[from..from + |sub|] == sub then Some(from)
    else IndexFrom(s, sub, from + 1)
  }

  /** The first offset where `sub` occurs in `s` (JavaScript `indexOf`). */
  function IndexOf(s: string, sub: string): (r: Option<nat>)
    ensures r.Some? ==> OccursAt(s, sub, r.value)
    ensures r.Some? ==> forall j :: 0 <= j < r.value ==> !OccursAt(s, sub, j)
    ensures r.None? <==> forall j :: !OccursAt(s, sub, j)
  {
    IndexFrom(s, sub, 0)
  }

  /** JavaScript `s.includes(sub)`. */
  predicate Contains(s: string, sub: string)
  {
    IndexOf(s, sub).Some?
  }

  /** Concatenation is associative. */
  lemma ConcatAssoc<T>(h: seq<T>, x: seq<T>, y: seq<T>)
    ensures h + (x + y) == (h + x) + y
  {
  }

  /** `Contains` holds exactly when some offset carries an occurrence. */
  lemma ContainsIff(s: string, sub: string)
    ensures Contains(s, sub) <==> exists i :: OccursAt(s, sub, i)
  {
    if Contains(s, sub) {
      assert OccursAt(s, sub, IndexOf(s, sub).value);
    }
  }

  /** ASCII lower-casing of one character. */
  function LowerChar(c: char): (r: char)
    ensures 'A' <= c <= 'Z' ==> 'a' <= r <= 'z'
    ensures !('A' <= c <= 'Z') ==> r == c
  {
    if 'A' <= c <= 'Z' then (c as int + 32) as char else c
  }

  /** ASCII lower-casing of a string (`toLowerCase` restricted to ASCII). */
  function Lower(s: string): (r: string)
    ensures |r| == |s|
    ensures forall i :: 0 <= i < |s| ==> r[i] == LowerChar(s[i])
  {
    seq(|s|, i requires 0 <= i < |s| => LowerChar(s[i]))
  }

  /** Lower-casing commutes with slicing. */
  lemma LowerSlice(s: string, i: nat, j: nat)
    requires i <= j <= |s|
    ensures Lower(s)[i..j] == Lower(s[i..j])
  {
  }

  /** Case-insensitive occurrence of `pat` in `text` at offset `i`. */
  predicate OccursAtCI(text: string, pat: string, i: int)
  {
    0 <= i && i + |pat| <= |text| && Lower(text[i..i + |pat|]) == Lower(pat)
  }

  /** The leftmost case-insensitive occurrence of the literal `pat` in
      `text` (a regular expression built from the escaped literal with the
      `i` flag). */
  function IndexOfCI(text: string, pat: string): (r: Option<nat>)
    ensures r.Some? ==> OccursAtCI(text, pat, r.value)
    ensures r.Some? ==> forall j :: 0 <= j < r.value ==> !OccursAtCI(text, pat, j)
    ensures r.None? ==> forall j :: !OccursAtCI(text, pat, j)
  {
    var r := IndexOf(Lower(text), Lower(pat));
    LowerOccursIff(text, pat);
    r
  }

  /** An occurrence in the lower-cased strings is exactly a case-insensitive
      occurrence in the originals. */
  lemma LowerOccursIff(text: string, pat: string)
    ensures forall i :: OccursAt(Lower(text), Lower(pat), i) <==> OccursAtCI(text, pat, i)
  {
    forall i
      ensures OccursAt(Lower(text), Lower(pat), i) <==> OccursAtCI(text, pat, i)
    {
      if 0 <= i && i + |pat| <= |text| {
        LowerSlice(text, i, i + |pat|);
      }
    }
  }

  /** JavaScript `s.replace(target, replacement)` with a string pattern: only the
      first occurrence is replaced; no occurrence leaves `s` unchanged. */
  function ReplaceFirst(s: string, target: string, replacement: string): (r: string)
    ensures (forall j :: !OccursAt(s, target, j)) ==> r == s
    ensures IndexOf(s, target).Some? ==>
      var i := IndexOf(s, target).value;
      && |r| == |s| - |target| + |replacement|
      && r[..i] == s[..i]
      && OccursAt(r, replacement, i)
      && r[i + |replacement|..] == s[i + |target|..]
  {
    match IndexOf(s, target)
    case None => s
    case Some(i) => s[..i] + replacement + s[i + |target|..]
  }

  /** Replacing a prefix of `s` swaps that prefix and keeps the rest. */
  lemma ReplacePrefix(s: string, target: string, replacement: string)
    requires StartsWith(s, target)
    ensures ReplaceFirst(s, target, replacement) == replacement + s[|target|..]
  {
    assert OccursAt(s, target, 0);
  }
}
