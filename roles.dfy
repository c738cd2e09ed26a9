/** Job-title tidying from app/chains.py: `_clean_role_text` and the
    normalised title key `extract_jobs` deduplicates on. */
module RoleText {
  import opened TextUtil

  /** Every run of whitespace becomes one space, in the sense of
      `re.sub(r"\s+", " ", s).strip()`. */
  function CollapseSpace(s: string): (r: string)
    ensures NoEdgeSpace(r)
    ensures NoAdjacent(r, IsSpace)
    ensures forall k :: 0 <= k < |r| && IsSpace(r[k]) ==> r[k] == ' '
  {
    var c := ReplaceRuns(s, IsSpace, 1, " ");
    ReplaceRunsNoAdjacent(s, IsSpace, 1, " ");
    ReplaceRunsClassOnlyRepl(s, IsSpace, " ");
    StripKeepsSingles(c, IsSpace);
    Strip(c)
  }

  /** Collapsed text is left as it is, so collapsing twice is collapsing once. */
  lemma CollapseSpaceFixpoint(s: string)
    requires Collapsed(s)
    ensures CollapseSpace(s) == s
    ensures CollapseSpace(CollapseSpace(s)) == CollapseSpace(s)
  {
    assert " " == [' '];
    ReplaceRunsSingleFixpoint(s, IsSpace, ' ');
    StripOfStripped(s);
  }

  /** With `minLen == 1` every class character of the result comes from `repl`. */
  lemma {:induction false} ReplaceRunsClassOnlyRepl(s: string, cls: char -> bool, repl: string)
    ensures forall k :: 0 <= k < |ReplaceRuns(s, cls, 1, repl)| && cls(ReplaceRuns(s, cls, 1, repl)[k]) ==>
              ReplaceRuns(s, cls, 1, repl)[k] in repl
    decreases |s|
  {
    if s != [] {
      var n := if cls(s[0]) then RunLength(s, cls) else 1;
      ReplaceRunsClassOnlyRepl(s[n..], cls, repl);
      var chunk := if cls(s[0]) then repl else [s[0]];
      var tail := ReplaceRuns(s[n..], cls, 1, repl);
      var r := chunk + tail;
      assert r == ReplaceRuns(s, cls, 1, repl);
      forall k | 0 <= k < |r| && cls(r[k]) ensures r[k] in repl {
        if k >= |chunk| { assert r[k] == tail[k - |chunk|]; }
      }
    }
  }

  /** A slice of text whose class characters are lone spaces is such text too. */
  lemma SliceKeepsSingleSpaces(c: string, a: nat, b: nat, cls: char -> bool)
    requires a <= b <= |c|
    requires NoAdjacent(c, cls)
    requires forall k :: 0 <= k < |c| && cls(c[k]) ==> c[k] in " "
    ensures NoAdjacent(c[a..b], cls)
    ensures forall k :: 0 <= k < b - a && cls(c[a..b][k]) ==> c[a..b][k] == ' '
  {
    var t := c[a..b];
    forall i | 1 <= i < |t| ensures !(cls(t[i - 1]) && cls(t[i])) {
      assert t[i - 1] == c[a + i - 1] && t[i] == c[a + i];
    }
    forall k | 0 <= k < |t| && cls(t[k]) ensures t[k] == ' ' {
      assert t[k] == c[a + k];
    }
  }

  /** Text of single spaces between non-space characters, trimmed. */
  predicate Collapsed(s: string) {
    NoEdgeSpace(s) && NoAdjacent(s, IsSpace) && forall k :: 0 <= k < |s| && IsSpace(s[k]) ==> s[k] == ' '
  }

  lemma CollapsedPrefix(s: string, n: nat)
    requires Collapsed(s) && n <= |s|
    ensures NoAdjacent(s[..n], IsSpace)
    ensures forall k :: 0 <= k < n && IsSpace(s[..n][k]) ==> s[..n][k] == ' '
    ensures n > 0 ==> !IsSpace(s[..n][0])
  {
    SliceKeepsSingleSpaces(s, 0, n, IsSpace);
    assert s[0..n] == s[..n];
  }

  // ---------------------------------------------------------------------------
  // re.sub(r"(?i)\b(view job|apply|learn more|see details)\b.*", "", s)

  /** A call-to-action phrase as a whole word at offset `i`, ignoring case. */
  predicate PhraseAt(s: string, i: nat, p: string) {
    WordBoundary(s, i) && MatchesAt(s, i, p) && WordBoundary(s, i + |p|)
  }

  /** The length of the first alternative of the call-to-action pattern that
      matches at `i`. */
  function CallToActionAt(s: string, i: nat): (r: Option<nat>)
    ensures r.Some? <==> (PhraseAt(s, i, "view job") || PhraseAt(s, i, "apply")
                          || PhraseAt(s, i, "learn more") || PhraseAt(s, i, "see details"))
  {
    if PhraseAt(s, i, "view job") then Some(8)
    else if PhraseAt(s, i, "apply") then Some(5)
    else if PhraseAt(s, i, "learn more") then Some(10)
    else if PhraseAt(s, i, "see details") then Some(11)
    else None
  }

  /** Cuts the text at its first call-to-action phrase. `.*` stops at a line
      break, so the cut reaches the end only because the title no longer holds one. */
  function CutCallToAction(s: string): (r: string)
    requires '\n' !in s
    ensures |r| <= |s| && r == s[..|r|]
  {
    var found := FindFirst(s, CallToActionAt, 0);
    if found.Some? then s[..found.value] else s
  }

  /** The cut is at the leftmost call-to-action phrase, and there is none before it. */
  lemma CutCallToActionLeftmost(s: string)
    requires '\n' !in s
    ensures forall j :: 0 <= j < |CutCallToAction(s)| ==> CallToActionAt(s, j).None?
    ensures |CutCallToAction(s)| < |s| ==> CallToActionAt(s, |CutCallToAction(s)|).Some?
  {
  }

  // ---------------------------------------------------------------------------
  // re.sub(r"[-—|·\|]+\s*$", "", s)

  predicate IsSeparator(c: char) {
    c == '-' || c == '\U{2014}' || c == '|' || c == '\U{00B7}'
  }

  /** Does `[-—|·\|]+\s*$` match from offset `i`? If so, the length of the match. */
  function SeparatorTailAt(s: string, i: nat): (r: Option<nat>)
    ensures r.Some? ==> i <= |s| && r.value == |s| - i
  {
    if i >= |s| then None
    else
      var k := RunLength(s[i..], IsSeparator);
      if k >= 1 && i + k + RunLength(s[i + k..], IsSpace) == |s| then Some(|s| - i) else None
  }

  function DropTrailingSeparators(s: string): (r: string)
    ensures |r| <= |s| && r == s[..|r|]
    ensures |r| < |s| ==> SeparatorTailAt(s, |r|).Some?
    ensures forall j :: 0 <= j < |r| ==> SeparatorTailAt(s, j).None?
    ensures (forall j :: 0 <= j < |s| ==> SeparatorTailAt(s, j).None?) ==> r == s
  {
    var found := FindFirst(s, SeparatorTailAt, 0);
    if found.Some? then s[..found.value] else s
  }

  // ---------------------------------------------------------------------------
  // re.sub(r"\s*\([^)]+\)\s*$", "", s)

  /** Index of the first `c` at or after `i`, or `|s|`. */
  function IndexOfFrom(s: string, c: char, i: nat): (j: nat)
    requires i <= |s|
    ensures i <= j <= |s|
    ensures forall k :: i <= k < j ==> s[k] != c
    ensures j < |s| ==> s[j] == c
    decreases |s| - i
  {
    if i == |s| || s[i] == c then i else IndexOfFrom(s, c, i + 1)
  }

  /** Does `\s*\([^)]+\)\s*$` match from offset `i`? If so, the length of the match. */
  function ParenTailAt(s: string, i: nat): (r: Option<nat>)
    ensures r.Some? ==> i <= |s| && r.value == |s| - i
  {
    if i >= |s| then None
    else
      var a := i + RunLength(s[i..], IsSpace);
      if a < |s| && s[a] == '(' then
        var c := IndexOfFrom(s, ')', a + 1);
        if a + 1 < c < |s| && c + 1 + RunLength(s[c + 1..], IsSpace) == |s| then Some(|s| - i) else None
      else None
  }

  function DropTrailingParen(s: string): (r: string)
    ensures |r| <= |s| && r == s[..|r|]
    ensures |r| < |s| ==> ParenTailAt(s, |r|).Some?
    ensures forall j :: 0 <= j < |r| ==> ParenTailAt(s, j).None?
    ensures (forall j :: 0 <= j < |s| ==> ParenTailAt(s, j).None?) ==> r == s
  {
    var found := FindFirst(s, ParenTailAt, 0);
    if found.Some? then s[..found.value] else s
  }

  // ---------------------------------------------------------------------------

  /** `_clean_role_text(s)`: the result is a prefix of the whitespace-collapsed
      input, has no whitespace at either end, and holds no whitespace but
      single spaces. */
  function CleanRoleText(s: string): (r: string)
    ensures Collapsed(r)
    ensures |r| <= |CollapseSpace(s)| && r == CollapseSpace(s)[..|r|]
  {
    var c := CollapseSpace(s);
    NoNewlineInCollapsed(c);
    var t1 := CutCallToAction(c);
    PrefixStartsClean(c, t1);
    var t2 := StripSeparators(t1);
    var r := StripParen(t2);
    TrimmedPrefixCollapsed(c, t1, t2, r);
    r
  }

  lemma PrefixStartsClean(c: string, t: string)
    requires NoEdgeSpace(c) && |t| <= |c| && t == c[..|t|]
    ensures t == [] || !IsSpace(t[0])
  {
    if t != [] { assert t[0] == c[0]; }
  }

  /** A trimmed prefix of a prefix of a prefix of collapsed text is collapsed. */
  lemma TrimmedPrefixCollapsed(c: string, t1: string, t2: string, r: string)
    requires Collapsed(c) && NoEdgeSpace(r)
    requires |t1| <= |c| && t1 == c[..|t1|]
    requires |t2| <= |t1| && t2 == t1[..|t2|]
    requires |r| <= |t2| && r == t2[..|r|]
    ensures Collapsed(r) && |r| <= |c| && r == c[..|r|]
  {
    PrefixOfPrefix(t2, t1, c);
    PrefixOfPrefix(r, t2, c);
    CollapsedPrefix(c, |r|);
  }

  /** `re.sub(r"[-—|·\|]+\s*$", "", s).strip()` on text that does not start with whitespace. */
  function StripSeparators(t: string): (r: string)
    requires t == [] || !IsSpace(t[0])
    ensures NoEdgeSpace(r) && |r| <= |t| && r == t[..|r|]
    ensures forall j :: 0 <= j < |r| ==> SeparatorTailAt(t, j).None?
    ensures exists c ::
      && |r| <= c <= |t|
      && (c == |t| || SeparatorTailAt(t, c).Some?)
      && forall k :: |r| <= k < c ==> IsSpace(t[k])
    ensures (forall j :: 0 <= j < |t| ==> SeparatorTailAt(t, j).None?) ==> r == Strip(t)
  {
    var d := DropTrailingSeparators(t);
    StripAfterCut(t, d, SeparatorTailAt);
    Strip(d)
  }

  /** `re.sub(r"\s*\([^)]+\)\s*$", "", s).strip()` on text that does not start with whitespace. */
  function StripParen(t: string): (r: string)
    requires t == [] || !IsSpace(t[0])
    ensures NoEdgeSpace(r) && |r| <= |t| && r == t[..|r|]
    ensures forall j :: 0 <= j < |r| ==> ParenTailAt(t, j).None?
    ensures exists c ::
      && |r| <= c <= |t|
      && (c == |t| || ParenTailAt(t, c).Some?)
      && forall k :: |r| <= k < c ==> IsSpace(t[k])
    ensures (forall j :: 0 <= j < |t| ==> ParenTailAt(t, j).None?) ==> r == Strip(t)
  {
    var d := DropTrailingParen(t);
    StripAfterCut(t, d, ParenTailAt);
    Strip(d)
  }

  /** Stripping a text cut at the leftmost match of `at` leaves a prefix of
      the text before every match, followed in the text by whitespace only up
      to the match or the end. */
  lemma StripAfterCut(t: string, d: string, at: (string, nat) -> Option<nat>)
    requires t == [] || !IsSpace(t[0])
    requires |d| <= |t| && d == t[..|d|]
    requires |d| < |t| ==> at(t, |d|).Some?
    requires forall j :: 0 <= j < |d| ==> at(t, j).None?
    requires (forall j :: 0 <= j < |t| ==> at(t, j).None?) ==> d == t
    ensures NoEdgeSpace(Strip(d)) && |Strip(d)| <= |t| && Strip(d) == t[..|Strip(d)|]
    ensures forall j :: 0 <= j < |Strip(d)| ==> at(t, j).None?
    ensures exists c ::
      && |Strip(d)| <= c <= |t|
      && (c == |t| || at(t, c).Some?)
      && forall k :: |Strip(d)| <= k < c ==> IsSpace(t[k])
    ensures (forall j :: 0 <= j < |t| ==> at(t, j).None?) ==> Strip(d) == Strip(t)
  {
    if d != [] { assert d[0] == t[0]; }
    StripIsPrefix(d);
    var r := Strip(d);
    PrefixOfPrefix(r, d, t);
    forall k | |r| <= k < |d| ensures IsSpace(t[k]) { assert d[k] == t[k]; }
    var c := |d|;
    var found := at(t, c);
    assert |r| <= c <= |t| && (c == |t| || at(t, c).Some?) && forall k :: |r| <= k < c ==> IsSpace(t[k]);
  }

  lemma NoNewlineInCollapsed(c: string)
    requires Collapsed(c)
    ensures '\n' !in c
  {
    forall k | 0 <= k < |c| ensures c[k] != '\n' { assert IsSpace('\n'); }
  }

  // ---------------------------------------------------------------------------
  // re.sub(r"\W+", " ", title).strip().lower()

  /** The key `extract_jobs` deduplicates titles on: runs of non-word characters
      become one space, the ends are trimmed and letters are lower-cased. The
      key consists of lower-case word characters separated by single spaces. */
  function TitleKey(title: string): (k: string)
    ensures NoUpper(k) && NoEdgeSpace(k)
    ensures forall j :: 0 <= j < |k| ==> IsWordChar(k[j]) || k[j] == ' '
    ensures NoAdjacent(k, IsNonWordChar)
  {
    StrippedRunsKeyShape(title);
    Lower(Strip(ReplaceRuns(title, IsNonWordChar, 1, " ")))
  }

  /** Collapsing non-word runs to one space and trimming leaves word characters and lone spaces. */
  lemma StrippedRunsKeyShape(title: string)
    ensures var t := Strip(ReplaceRuns(title, IsNonWordChar, 1, " "));
      NoEdgeSpace(t) && NoAdjacent(t, IsNonWordChar) &&
      (forall k :: 0 <= k < |t| && IsNonWordChar(t[k]) ==> t[k] == ' ')
    ensures var l := Lower(Strip(ReplaceRuns(title, IsNonWordChar, 1, " ")));
      NoUpper(l) && NoEdgeSpace(l) && NoAdjacent(l, IsNonWordChar) &&
      (forall j :: 0 <= j < |l| ==> IsWordChar(l[j]) || l[j] == ' ')
  {
    var c := ReplaceRuns(title, IsNonWordChar, 1, " ");
    ReplaceRunsNoAdjacent(title, IsNonWordChar, 1, " ");
    ReplaceRunsClassOnlyRepl(title, IsNonWordChar, " ");
    StripKeepsSingles(c, IsNonWordChar);
    LowerKeepsKeyShape(Strip(c));
  }

  /** Trimming text whose class characters are lone spaces keeps them lone spaces. */
  lemma StripKeepsSingles(c: string, cls: char -> bool)
    requires NoAdjacent(c, cls)
    requires forall k :: 0 <= k < |c| && cls(c[k]) ==> c[k] in " "
    ensures NoAdjacent(Strip(c), cls)
    ensures forall k :: 0 <= k < |Strip(c)| && cls(Strip(c)[k]) ==> Strip(c)[k] == ' '
  {
    var t := Strip(c);
    SliceKeepsSingleSpaces(c, LeadingSpaces(c), LeadingSpaces(c) + |t|, cls);
  }

  /** Lower-casing keeps trimmed text of word characters and lone spaces so. */
  lemma LowerKeepsKeyShape(t: string)
    requires NoEdgeSpace(t) && NoAdjacent(t, IsNonWordChar)
    requires forall k :: 0 <= k < |t| && IsNonWordChar(t[k]) ==> t[k] == ' '
    ensures NoUpper(Lower(t)) && NoEdgeSpace(Lower(t))
    ensures forall j :: 0 <= j < |Lower(t)| ==> IsWordChar(Lower(t)[j]) || Lower(t)[j] == ' '
    ensures NoAdjacent(Lower(t), IsNonWordChar)
  {
    var l := Lower(t);
    forall j | 0 <= j < |l| ensures IsWordChar(l[j]) == IsWordChar(t[j]) && (IsWordChar(l[j]) || l[j] == ' ') {
      assert l[j] == LowerChar(t[j]);
    }
  }

  /** A key is its own key: keys are already normalised. */
  lemma TitleKeyIdempotent(title: string)
    ensures TitleKey(TitleKey(title)) == TitleKey(title)
  {
    KeyIsFixpoint(TitleKey(title));
  }

  /** Text already in key form is its own key. */
  lemma KeyIsFixpoint(k: string)
    requires NoUpper(k) && NoEdgeSpace(k) && NoAdjacent(k, IsNonWordChar)
    requires forall j :: 0 <= j < |k| ==> IsWordChar(k[j]) || k[j] == ' '
    ensures TitleKey(k) == k
  {
    ReplaceRunsSingleFixpoint(k, IsNonWordChar, ' ');
    StripOfStripped(k);
    LowerOfLower(k);
  }

  /** Text whose class characters are all `c` and never neighbours is left
      alone by replacing each class run with `c`. */
  lemma {:induction false} ReplaceRunsSingleFixpoint(s: string, cls: char -> bool, c: char)
    requires cls(c) && NoAdjacent(s, cls)
    requires forall j :: 0 <= j < |s| && cls(s[j]) ==> s[j] == c
    ensures ReplaceRuns(s, cls, 1, [c]) == s
    decreases |s|
  {
    if s != [] {
      var rest := s[1..];
      assert NoAdjacent(rest, cls) by {
        forall i | 1 <= i < |rest| ensures !(cls(rest[i - 1]) && cls(rest[i])) {
          assert rest[i - 1] == s[i] && rest[i] == s[i + 1];
        }
      }
      assert forall j :: 0 <= j < |rest| && cls(rest[j]) ==> rest[j] == c by {
        forall j | 0 <= j < |rest| && cls(rest[j]) ensures rest[j] == c { assert rest[j] == s[j + 1]; }
      }
      ReplaceRunsSingleFixpoint(rest, cls, c);
      if cls(s[0]) {
        assert |s| > 1 ==> !cls(s[1]);
        assert RunLength(s, cls) == 1 by {
          if |s| > 1 { assert s[1..][0] == s[1]; }
        }
        assert ReplaceRuns(s, cls, 1, [c]) == [c] + ReplaceRuns(rest, cls, 1, [c]);
      } else {
        assert ReplaceRuns(s, cls, 1, [c]) == [s[0]] + ReplaceRuns(rest, cls, 1, [c]);
      }
      assert s == [s[0]] + rest;
    }
  }
}
