/** The text path of block segmentation in `Chain.extract_jobs`
    (app/chains.py): split the cleaned text on the job-boundary markers, fall
    back to blank lines, and keep the stripped parts that are long enough and
    are not pagination or filter chrome. */
module Segmenter {
  import opened TextUtil

  /** `SPLIT_MARKERS`, lower-cased because the split ignores case. */
  const SplitMarkers: seq<string> := ["view job", "apply", "job", "position", "openings", "role", "careers"]

  /** Separator length for `re.split(r"(?i)(?:View Job|Apply|Job|...)", text)`. */
  function MarkerLen(t: string): nat {
    FirstAlternativeLen(t, SplitMarkers)
  }

  /** Separator length for `re.split(r"\n{2,}", text)`. */
  function BlankLinesLen(t: string): (n: nat)
    ensures n == 0 || n >= 2
  {
    if |t| >= 2 && t[0] == '\n' && t[1] == '\n' then RunLength(t, IsNewline) else 0
  }

  function SplitOnMarkers(text: string): seq<string> {
    SplitWhere(text, MarkerLen)
  }

  function SplitOnBlankLines(text: string): seq<string> {
    SplitWhere(text, BlankLinesLen)
  }

  /** Some split marker occurs in the text. */
  predicate HasMarker(text: string) {
    exists i :: 0 <= i < |text| && MarkerLen(text[i..]) > 0
  }

  /** The parts of the text path: the marker split, unless it yields fewer
      than two parts, in which case the blank-line split. */
  function Parts(text: string): seq<string> {
    var parts := SplitOnMarkers(text);
    if |parts| < 2 then SplitOnBlankLines(text) else parts
  }

  /** The blank-line split is taken exactly when the text holds no split marker. */
  lemma PartsFallback(text: string)
    ensures !HasMarker(text) ==> Parts(text) == SplitOnBlankLines(text)
    ensures HasMarker(text) ==> Parts(text) == SplitOnMarkers(text)
  {
    SplitWhereSingle(text, MarkerLen);
    if HasMarker(text) {
      var i :| 0 <= i < |text| && MarkerLen(text[i..]) > 0;
      assert MarkerLen(text[i..]) <= |text| - i;
    } else {
      forall i | 0 <= i < |text| ensures !(0 < MarkerLen(text[i..]) <= |text| - i) {
      }
    }
  }

  /** `re.split` returns a single part exactly when its separator matches nowhere. */
  lemma {:induction false} SplitWhereSingle(s: string, sepLen: string -> nat)
    ensures |SplitWhere(s, sepLen)| == 1 <==> forall i :: 0 <= i < |s| ==> !(0 < sepLen(s[i..]) <= |s| - i)
    decreases |s|
  {
    if s != [] {
      assert s[0..] == s;
      var n := sepLen(s);
      if !(0 < n <= |s|) {
        SplitWhereSingle(s[1..], sepLen);
        forall i | 1 <= i < |s| ensures s[1..][i - 1..] == s[i..] {}
        if forall i :: 0 <= i < |s[1..]| ==> !(0 < sepLen(s[1..][i..]) <= |s[1..]| - i) {
          forall i | 0 <= i < |s| ensures !(0 < sepLen(s[i..]) <= |s| - i) {
            if i > 0 { assert s[1..][i - 1..] == s[i..]; }
          }
        } else {
          var i :| 0 <= i < |s[1..]| && 0 < sepLen(s[1..][i..]) <= |s[1..]| - i;
          assert s[1..][i..] == s[i + 1..];
        }
      }
    }
  }

  // ---------------------------------------------------------------------------
  // re.search(r"filter results|go to first page|go to next page|page \d+", p, flags=re.I)

  predicate NoiseAt(p: string, i: nat) {
    MatchesAt(p, i, "filter results") || MatchesAt(p, i, "go to first page")
    || MatchesAt(p, i, "go to next page") || (MatchesAt(p, i, "page ") && i + 5 < |p| && IsDigit(p[i + 5]))
  }

  /** The part looks like navigation or filter chrome. */
  predicate IsNoise(p: string) {
    exists i :: 0 <= i < |p| && NoiseAt(p, i)
  }

  /** A stripped part is kept when it has at least 30 characters and is not noise. */
  predicate Keeps(p: string) {
    |p| >= 30 && !IsNoise(p)
  }

  /** The blocks the text path keeps, in part order. */
  function KeptBlocks(parts: seq<string>): seq<string>
    decreases |parts|
  {
    if parts == [] then []
    else
      var p := Strip(parts[|parts| - 1]);
      KeptBlocks(parts[..|parts| - 1]) + (if Keeps(p) then [p] else [])
  }

  /** Every kept block is stripped, at least 30 characters long and not noise;
      every part whose stripped text qualifies is kept. */
  lemma {:induction false} KeptBlocksExactly(parts: seq<string>)
    ensures forall b :: b in KeptBlocks(parts) ==> NoEdgeSpace(b) && |b| >= 30 && !IsNoise(b)
    ensures forall p :: p in parts && Keeps(Strip(p)) ==> Strip(p) in KeptBlocks(parts)
    decreases |parts|
  {
    if parts != [] {
      var front := parts[..|parts| - 1];
      KeptBlocksExactly(front);
      assert parts == front + [parts[|parts| - 1]];
    }
  }

  /** Kept blocks come in the order of their parts. */
  lemma {:induction false} KeptBlocksInOrder(parts: seq<string>)
    ensures SubsequenceOf(KeptBlocks(parts), StripAll(parts))
    decreases |parts|
  {
    if parts != [] {
      var front := parts[..|parts| - 1];
      KeptBlocksInOrder(front);
      var p := Strip(parts[|parts| - 1]);
      StripAllSnoc(parts);
      SubsequenceExtend(KeptBlocks(front), StripAll(front), p);
      if Keeps(p) {
        assert KeptBlocks(parts) == KeptBlocks(front) + [p];
      } else {
        assert KeptBlocks(parts) == KeptBlocks(front);
      }
    }
  }

  /** The text path of `extract_jobs` (the loop over `parts`). */
  method TextBlocks(cleanedText: string) returns (blocks: seq<string>)
    ensures blocks == KeptBlocks(Parts(cleanedText))
  {
    var parts := SplitOnMarkers(cleanedText);
    if |parts| < 2 {
      parts := SplitOnBlankLines(cleanedText);
    }
    blocks := [];
    for i := 0 to |parts|
      invariant blocks == KeptBlocks(parts[..i])
    {
      var p := Strip(parts[i]);
      KeptBlocksStep(parts, i);
      if p == [] || |p| < 30 {
        continue;
      }
      if IsNoise(p) {
        continue;
      }
      blocks := blocks + [p];
    }
    assert parts[..|parts|] == parts;
  }

  lemma KeptBlocksStep(parts: seq<string>, i: nat)
    requires i < |parts|
    ensures KeptBlocks(parts[..i + 1])
      == KeptBlocks(parts[..i]) + (if Keeps(Strip(parts[i])) then [Strip(parts[i])] else [])
  {
    assert parts[..i + 1][..i] == parts[..i];
  }

  /** The filter-widget text of the noise example is never kept. */
  lemma FilterWidgetIsNoise()
    ensures !Keeps("Filter Results " + "Page 2" + " of 10 Select a language")
  {
    var b := "Page 2";
    assert b[0] == 'P' && b[1] == 'a' && b[2] == 'g' && b[3] == 'e' && b[4] == ' ' && b[5] == '2';
    PageNumberAt(b, 0);
    NoiseInside("Filter Results ", b, " of 10 Select a language");
  }

  /** "Page " followed by a digit, in any case, is noise. */
  lemma PageNumberAt(p: string, i: nat)
    requires i + 5 < |p| && IsDigit(p[i + 5])
    requires LowerChar(p[i]) == 'p' && LowerChar(p[i + 1]) == 'a' && LowerChar(p[i + 2]) == 'g'
    requires LowerChar(p[i + 3]) == 'e' && p[i + 4] == ' '
    ensures NoiseAt(p, i)
  {
    var w := Lower(p[i..i + 5]);
    assert w[0] == 'p' && w[1] == 'a' && w[2] == 'g' && w[3] == 'e' && w[4] == ' ';
    assert w == "page ";
  }

  /** Noise at the front of the middle piece is noise of the whole text. */
  lemma NoiseInside(a: string, b: string, c: string)
    requires 0 < |b| && NoiseAt(b, 0)
    ensures IsNoise(a + b + c)
  {
    var t := a + b + c;
    forall n | 0 <= n <= |b| ensures t[|a|..|a| + n] == b[..n] {
      assert forall k :: 0 <= k < n ==> t[|a|..|a| + n][k] == b[..n][k];
    }
    if |b| > 5 && IsDigit(b[5]) { assert t[|a| + 5] == b[5]; }
    assert NoiseAt(t, |a|);
  }
}
