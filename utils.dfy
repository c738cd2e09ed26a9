/** `clean_text` of app/utils.py: the canonical text form every other step
    reads. Line endings `\r\n` become `\n`, runs of two or more spaces or tabs
    become one space, runs of three or more newlines become two, and the
    result is stripped. */
module Utils {
  import opened TextUtil

  /** `re.sub(r"\r\n", "\n", s)` */
  function ReplaceCrlf(s: string): (r: string)
    ensures |r| <= |s|
    decreases |s|
  {
    if s == [] then []
    else if |s| >= 2 && s[0] == '\r' && s[1] == '\n' then "\n" + ReplaceCrlf(s[2..])
    else [s[0]] + ReplaceCrlf(s[1..])
  }

  lemma {:induction false} ReplaceCrlfWithoutCr(s: string)
    requires '\r' !in s
    ensures ReplaceCrlf(s) == s
    decreases |s|
  {
    if s != [] {
      assert s[0] != '\r';
      assert '\r' !in s[1..] by {
        forall k | 0 <= k < |s[1..]| ensures s[1..][k] != '\r' { assert s[1..][k] == s[k + 1]; }
      }
      ReplaceCrlfWithoutCr(s[1..]);
      assert s == [s[0]] + s[1..];
    }
  }

  /** `re.sub(r"[ \t]{2,}", " ", s)` */
  function CollapseBlanks(s: string): string {
    ReplaceRuns(s, IsBlank, 2, " ")
  }

  /** `re.sub(r"\n{3,}", "\n\n", s)` */
  function CollapseNewlines(s: string): string {
    ReplaceRuns(s, IsNewline, 3, "\n\n")
  }

  /** No three neighbouring characters are all in `cls`. */
  predicate NoTriple(s: string, cls: char -> bool) {
    forall i :: 2 <= i < |s| ==> !(cls(s[i - 2]) && cls(s[i - 1]) && cls(s[i]))
  }

  /** Replacing runs of three or more class characters by at most two leaves no
      three class characters in a row. */
  lemma {:induction false} ReplaceRunsNoTriple(s: string, cls: char -> bool, minLen: nat, repl: string)
    requires 1 <= minLen <= 3 && 1 <= |repl| <= 2
    requires forall c :: c in repl ==> cls(c)
    ensures NoTriple(ReplaceRuns(s, cls, minLen, repl), cls)
    decreases |s|
  {
    if s != [] {
      var n := if cls(s[0]) then RunLength(s, cls) else 1;
      var chunk := if cls(s[0]) then (if n >= minLen then repl else s[..n]) else [s[0]];
      var tail := ReplaceRuns(s[n..], cls, minLen, repl);
      ReplaceRunsNoTriple(s[n..], cls, minLen, repl);
      var r := chunk + tail;
      assert r == ReplaceRuns(s, cls, minLen, repl);
      assert 1 <= |chunk| <= 2;
      assert cls(s[0]) && tail != [] ==> !cls(tail[0]);
      forall i | 2 <= i < |r| ensures !(cls(r[i - 2]) && cls(r[i - 1]) && cls(r[i])) {
        if !cls(s[0]) {
          if i > 2 {
            assert r[i - 2] == tail[i - 3] && r[i - 1] == tail[i - 2] && r[i] == tail[i - 1];
          } else {
            assert r[0] == s[0];
          }
        } else if i >= |chunk| + 2 {
          assert r[i - 2] == tail[i - 2 - |chunk|] && r[i - 1] == tail[i - 1 - |chunk|] && r[i] == tail[i - |chunk|];
        } else if i == |chunk| + 1 {
          assert r[i - 1] == tail[0];
        } else {
          assert i == |chunk| && r[i] == tail[0];
        }
      }
    }
  }

  lemma RunLengthUnderNoTriple(s: string, cls: char -> bool, i: nat)
    requires NoTriple(s, cls) && i < |s|
    ensures RunLength(s[i..], cls) <= 2
  {
    var t := s[i..];
    if |t| > 2 {
      assert t[0] == s[i] && t[1] == s[i + 1] && t[2] == s[i + 2];
      assert !(cls(t[0]) && cls(t[1]) && cls(t[2]));
    }
  }

  lemma NoAdjacentSlice(s: string, a: nat, b: nat, cls: char -> bool)
    requires a <= b <= |s| && NoAdjacent(s, cls)
    ensures NoAdjacent(s[a..b], cls)
  {
    var t := s[a..b];
    forall i | 1 <= i < |t| ensures !(cls(t[i - 1]) && cls(t[i])) {
      assert t[i - 1] == s[a + i - 1] && t[i] == s[a + i];
    }
  }

  lemma NoTripleSlice(s: string, a: nat, b: nat, cls: char -> bool)
    requires a <= b <= |s| && NoTriple(s, cls)
    ensures NoTriple(s[a..b], cls)
  {
    var t := s[a..b];
    forall i | 2 <= i < |t| ensures !(cls(t[i - 2]) && cls(t[i - 1]) && cls(t[i])) {
      assert t[i - 2] == s[a + i - 2] && t[i - 1] == s[a + i - 1] && t[i] == s[a + i];
    }
  }

  /** `clean_text(text)`; `None` stands for Python's `None`. The result has no
      whitespace at either end, never two spaces or tabs in a row, never three
      newlines in a row, and is never longer than the input. */
  function CleanText(text: Option<string>): (r: string)
    ensures text.None? ==> r == ""
    ensures text.Some? ==> |r| <= |text.value|
    ensures NoEdgeSpace(r)
    ensures NoAdjacent(r, IsBlank)
    ensures NoTriple(r, IsNewline)
  {
    match text
    case None => ""
    case Some(t) =>
      var a := ReplaceCrlf(t);
      var b := CollapseBlanks(a);
      var c := CollapseNewlines(b);
      ReplaceRunsNoAdjacent(a, IsBlank, 2, " ");
      ReplaceRunsKeepsNoAdjacent(b, IsNewline, 3, "\n\n", IsBlank);
      ReplaceRunsNoTriple(b, IsNewline, 3, "\n\n");
      StripKeepsRuns(c);
      Strip(c)
  }

  /** Stripping keeps the two run bounds of the collapsed text. */
  lemma StripKeepsRuns(c: string)
    requires NoAdjacent(c, IsBlank) && NoTriple(c, IsNewline)
    ensures NoAdjacent(Strip(c), IsBlank) && NoTriple(Strip(c), IsNewline)
  {
    var r := Strip(c);
    NoAdjacentSlice(c, LeadingSpaces(c), LeadingSpaces(c) + |r|, IsBlank);
    NoTripleSlice(c, LeadingSpaces(c), LeadingSpaces(c) + |r|, IsNewline);
  }

  /** Cleaning twice is cleaning once, for text without carriage returns. */
  lemma CleanTextIdempotent(t: string)
    requires '\r' !in t
    ensures CleanText(Some(CleanText(Some(t)))) == CleanText(Some(t))
  {
    var a := ReplaceCrlf(t);
    var b := CollapseBlanks(a);
    var c := CollapseNewlines(b);
    var u := Strip(c);
    assert u == CleanText(Some(t));
    ReplaceCrlfWithoutCr(t);
    ReplaceRunsChars(a, IsBlank, 2, " ");
    ReplaceRunsChars(b, IsNewline, 3, "\n\n");
    assert '\r' !in c;
    assert '\r' !in u by {
      forall k | 0 <= k < |u| ensures u[k] != '\r' {
        assert u[k] == c[LeadingSpaces(c) + k];
      }
    }
    ReplaceCrlfWithoutCr(u);
    forall i | 0 <= i < |u| ensures RunLength(u[i..], IsBlank) < 2 {
      RunLengthUnderNoAdjacent(u, IsBlank, i);
    }
    RunsBelowFromAll(u, IsBlank, 2);
    ReplaceRunsFixpoint(u, IsBlank, 2, " ");
    forall i | 0 <= i < |u| ensures RunLength(u[i..], IsNewline) < 3 {
      RunLengthUnderNoTriple(u, IsNewline, i);
    }
    RunsBelowFromAll(u, IsNewline, 3);
    ReplaceRunsFixpoint(u, IsNewline, 3, "\n\n");
    StripOfStripped(u);
  }

  /** With a carriage return the cleaning is not idempotent: `\r\r\n` between
      two letters loses one character on each pass. */
  lemma CleanTextNotIdempotentWithCr()
    ensures CleanText(Some("a\r\r\nb")) == "a\r\nb"
    ensures CleanText(Some("a\r\nb")) == "a\nb"
  {
    CrlfExamples();
    CarriageReturnKept();
    LineBreakOnly();
  }

  lemma CarriageReturnKept()
    requires ReplaceCrlf("a\r\r\nb") == "a\r\nb"
    ensures CleanText(Some("a\r\r\nb")) == "a\r\nb"
  {
    var u := "a\r\nb";
    assert |u| == 4 && u[0] == 'a' && u[1] == '\r' && u[2] == '\n' && u[3] == 'b';
    assert NoAdjacent(u, IsNewline);
    CleanTextKeeps("a\r\r\nb", u);
  }

  lemma LineBreakOnly()
    requires ReplaceCrlf("a\r\nb") == "a\nb"
    ensures CleanText(Some("a\r\nb")) == "a\nb"
  {
    var u := "a\nb";
    assert |u| == 3 && u[0] == 'a' && u[1] == '\n' && u[2] == 'b';
    assert NoAdjacent(u, IsNewline);
    CleanTextKeeps("a\r\nb", u);
  }

  /** When the line-ending step already yields trimmed text with no space or
      tab and no two newlines in a row, that text is the cleaned text. */
  lemma CleanTextKeeps(t: string, u: string)
    requires ReplaceCrlf(t) == u && NoEdgeSpace(u)
    requires forall k :: 0 <= k < |u| ==> !IsBlank(u[k])
    requires NoAdjacent(u, IsNewline)
    ensures CleanText(Some(t)) == u
  {
    NoBlanksNoNewlinePairsFixpoint(u);
    StripOfStripped(u);
  }

  lemma CrlfExamples()
    ensures ReplaceCrlf("a\r\r\nb") == "a\r\nb"
    ensures ReplaceCrlf("a\r\nb") == "a\nb"
  {
    assert ReplaceCrlf("b") == "b";
    assert ReplaceCrlf("\nb") == "\nb";
    assert ReplaceCrlf("\r\nb") == "\nb";
    assert ReplaceCrlf("\r\r\nb") == "\r\nb";
  }

  /** Text without spaces or tabs and without two newlines in a row passes the
      two collapsing steps unchanged. */
  lemma NoBlanksNoNewlinePairsFixpoint(s: string)
    requires forall k :: 0 <= k < |s| ==> !IsBlank(s[k])
    requires NoAdjacent(s, IsNewline)
    ensures CollapseNewlines(CollapseBlanks(s)) == s
  {
    forall i | 0 <= i < |s| ensures RunLength(s[i..], IsBlank) < 2 {
      assert s[i..][0] == s[i];
    }
    RunsBelowFromAll(s, IsBlank, 2);
    ReplaceRunsFixpoint(s, IsBlank, 2, " ");
    forall i | 0 <= i < |s| ensures RunLength(s[i..], IsNewline) < 3 {
      RunLengthUnderNoAdjacent(s, IsNewline, i);
    }
    RunsBelowFromAll(s, IsNewline, 3);
    ReplaceRunsFixpoint(s, IsNewline, 3, "\n\n");
  }
}
