/** Character classes and string scanners shared by the model: Python's
    `str.strip`, `str.splitlines`, `str.join`, `str.lower` and the handful of
    `re.sub` / `re.split` / `re.search` shapes the application uses, written out
    as explicit scans over `seq<char>`. */
module TextUtil {

  datatype Option<T> = None | Some(value: T)

  /** Python's `str.isspace()`, which is also what `\s` matches in a `re`
      pattern over `str`. */
  predicate IsSpace(c: char) {
    c == ' ' || c == '\t' || c == '\n' || c == '\r' || c == '\U{000B}' || c == '\U{000C}'
    || ('\U{001C}' <= c <= '\U{001F}') || c == '\U{0085}' || c == '\U{00A0}'
    || c == '\U{1680}' || ('\U{2000}' <= c <= '\U{200A}') || c == '\U{2028}'
    || c == '\U{2029}' || c == '\U{202F}' || c == '\U{205F}' || c == '\U{3000}'
  }

  /** The characters at which `str.splitlines()` ends a line. */
  predicate IsLineBreak(c: char) {
    c == '\n' || c == '\r' || c == '\U{000B}' || c == '\U{000C}' || ('\U{001C}' <= c <= '\U{001E}')
    || c == '\U{0085}' || c == '\U{2028}' || c == '\U{2029}'
  }

  predicate IsNewline(c: char) { c == '\n' }

  /** `[ \t]` */
  predicate IsBlank(c: char) { c == ' ' || c == '\t' }

  /** `\d`, ASCII digits only. */
  predicate IsDigit(c: char) { '0' <= c <= '9' }

  predicate IsUpper(c: char) { 'A' <= c <= 'Z' }

  /** `\w`, ASCII letters, digits and underscore. */
  predicate IsWordChar(c: char) {
    ('a' <= c <= 'z') || IsUpper(c) || IsDigit(c) || c == '_'
  }

  predicate IsNonWordChar(c: char) { !IsWordChar(c) }

  function LowerChar(c: char): (d: char)
    ensures !IsUpper(d)
    ensures IsWordChar(d) <==> IsWordChar(c)
    ensures IsSpace(d) <==> IsSpace(c)
    ensures !IsUpper(c) ==> d == c
  {
    if IsUpper(c) then (c as int + 32) as char else c
  }

  /** `str.lower()` on ASCII letters. */
  function Lower(s: string): (r: string)
    ensures |r| == |s|
    ensures forall k :: 0 <= k < |r| ==> r[k] == LowerChar(s[k])
  {
    seq(|s|, k requires 0 <= k < |s| => LowerChar(s[k]))
  }

  predicate NoUpper(s: string) {
    forall k :: 0 <= k < |s| ==> !IsUpper(s[k])
  }

  lemma LowerHasNoUpper(s: string)
    ensures NoUpper(Lower(s))
  {
  }

  /** Text without upper-case letters is its own lower-case form. */
  lemma LowerOfLower(s: string)
    requires NoUpper(s)
    ensures Lower(s) == s
  {
    assert forall k :: 0 <= k < |s| ==> Lower(s)[k] == s[k];
  }

  /** Case-insensitive match of the lower-case literal `pat` at offset `i` of `s`,
      as `re.I` does for an ASCII pattern. */
  predicate MatchesAt(s: string, i: nat, pat: string) {
    i + |pat| <= |s| && Lower(s[i..i + |pat|]) == pat
  }

  /** Exact (case-sensitive) occurrence of `pat` at offset `i` of `s`. */
  predicate OccursAt(s: string, i: nat, pat: string) {
    i + |pat| <= |s| && s[i..i + |pat|] == pat
  }

  /** Python's `sub in s`. */
  predicate IsSubstring(sub: string, s: string) {
    exists i :: 0 <= i <= |s| - |sub| && OccursAt(s, i, sub)
  }

  /** `\b` at offset `i`: the characters on either side differ in being word characters. */
  predicate WordBoundary(s: string, i: nat) {
    (0 < i <= |s| && IsWordChar(s[i - 1])) != (i < |s| && IsWordChar(s[i]))
  }

  function Min(a: nat, b: nat): nat { if a <= b then a else b }

  /** Python's `s[:n]`. */
  function Take<T>(s: seq<T>, n: nat): (r: seq<T>)
    ensures |r| == Min(n, |s|)
    ensures r == s[..|r|]
  {
    if |s| <= n then s else s[..n]
  }

  // ---------------------------------------------------------------------------
  // str.strip()

  function LeadingSpaces(s: string): (n: nat)
    ensures n <= |s|
    ensures forall k :: 0 <= k < n ==> IsSpace(s[k])
    ensures n < |s| ==> !IsSpace(s[n])
  {
    if s != [] && IsSpace(s[0]) then 1 + LeadingSpaces(s[1..]) else 0
  }

  function TrailingSpaces(s: string): (n: nat)
    ensures n <= |s|
    ensures forall k :: |s| - n <= k < |s| ==> IsSpace(s[k])
    ensures n < |s| ==> !IsSpace(s[|s| - 1 - n])
  {
    if s != [] && IsSpace(s[|s| - 1]) then 1 + TrailingSpaces(s[..|s| - 1]) else 0
  }

  predicate NoEdgeSpace(s: string) {
    s == [] || (!IsSpace(s[0]) && !IsSpace(s[|s| - 1]))
  }

  /** Python's `str.strip()`: the result is the slice of `s` at `LeadingSpaces(s)`
      left once every whitespace character at either end is removed. */
  function Strip(s: string): (r: string)
    ensures NoEdgeSpace(r)
    ensures LeadingSpaces(s) + |r| <= |s|
    ensures r == s[LeadingSpaces(s)..LeadingSpaces(s) + |r|]
    ensures forall k :: 0 <= k < LeadingSpaces(s) ==> IsSpace(s[k])
    ensures forall k :: LeadingSpaces(s) + |r| <= k < |s| ==> IsSpace(s[k])
  {
    var t := s[LeadingSpaces(s)..];
    t[..|t| - TrailingSpaces(t)]
  }

  lemma {:induction false} StripOfStripped(s: string)
    requires NoEdgeSpace(s)
    ensures Strip(s) == s
  {
    if s != [] {
      assert LeadingSpaces(s) == 0;
      assert TrailingSpaces(s) == 0;
    }
  }

  lemma PrefixOfPrefix<T>(a: seq<T>, b: seq<T>, c: seq<T>)
    requires |a| <= |b| <= |c| && a == b[..|a|] && b == c[..|b|]
    ensures a == c[..|a|]
  {
  }

  /** Stripping a string that does not begin with whitespace leaves a prefix of it. */
  lemma StripIsPrefix(s: string)
    requires s == [] || !IsSpace(s[0])
    ensures Strip(s) == s[..|Strip(s)|]
    ensures forall k :: |Strip(s)| <= k < |s| ==> IsSpace(s[k])
  {
    assert LeadingSpaces(s) == 0;
  }

  /** First index at or after `i` that is not whitespace, or `|t|`. */
  function SpaceRunEnd(t: string, i: nat): (j: nat)
    requires i <= |t|
    ensures i <= j <= |t|
    ensures forall k :: i <= k < j ==> IsSpace(t[k])
    ensures j < |t| ==> !IsSpace(t[j])
    decreases |t| - i
  {
    if i == |t| || !IsSpace(t[i]) then i else SpaceRunEnd(t, i + 1)
  }

  // ---------------------------------------------------------------------------
  // re.sub(r"<class>{m,}", repl, s)

  /** Length of the run of `cls` characters at the front of `s`. */
  function RunLength(s: string, cls: char -> bool): (n: nat)
    ensures n <= |s|
    ensures forall k :: 0 <= k < n ==> cls(s[k])
    ensures n < |s| ==> !cls(s[n])
  {
    if s != [] && cls(s[0]) then 1 + RunLength(s[1..], cls) else 0
  }

  /** `re.sub(C{minLen,}, repl, s)` for a one-character class `C`: every maximal
      run of at least `minLen` class characters becomes `repl`, shorter runs
      and every other character are copied. */
  function ReplaceRuns(s: string, cls: char -> bool, minLen: nat, repl: string): (r: string)
    requires 1 <= minLen
    ensures |repl| <= minLen ==> |r| <= |s|
    ensures s != [] && repl != [] && (forall c :: c in repl ==> cls(c)) ==>
              r != [] && (cls(s[0]) ==> cls(r[0])) && (!cls(s[0]) ==> r[0] == s[0])
    decreases |s|
  {
    if s == [] then []
    else if cls(s[0]) then
      var n := RunLength(s, cls);
      (if n >= minLen then repl else s[..n]) + ReplaceRuns(s[n..], cls, minLen, repl)
    else [s[0]] + ReplaceRuns(s[1..], cls, minLen, repl)
  }

  /** Every character of the result comes from the input or from `repl`. */
  lemma {:induction false} ReplaceRunsChars(s: string, cls: char -> bool, minLen: nat, repl: string)
    requires 1 <= minLen
    ensures forall c :: c in ReplaceRuns(s, cls, minLen, repl) ==> c in s || c in repl
    decreases |s|
  {
    if s != [] {
      var n := if cls(s[0]) then RunLength(s, cls) else 1;
      ReplaceRunsChars(s[n..], cls, minLen, repl);
      var chunk := if cls(s[0]) then (if n >= minLen then repl else s[..n]) else [s[0]];
      assert ReplaceRuns(s, cls, minLen, repl) == chunk + ReplaceRuns(s[n..], cls, minLen, repl);
      assert s == s[..n] + s[n..];
    }
  }

  /** No two neighbouring characters are both in `cls`. */
  predicate NoAdjacent(s: string, cls: char -> bool) {
    forall i :: 1 <= i < |s| ==> !(cls(s[i - 1]) && cls(s[i]))
  }

  /** After replacing runs of two or more (or one or more) class characters by a
      single class character, no two class characters are neighbours. */
  lemma {:induction false} ReplaceRunsNoAdjacent(s: string, cls: char -> bool, minLen: nat, repl: string)
    requires 1 <= minLen <= 2 && |repl| == 1 && cls(repl[0])
    ensures NoAdjacent(ReplaceRuns(s, cls, minLen, repl), cls)
    decreases |s|
  {
    if s == [] {
    } else if cls(s[0]) {
      var n := RunLength(s, cls);
      var chunk := if n >= minLen then repl else s[..n];
      var tail := ReplaceRuns(s[n..], cls, minLen, repl);
      ReplaceRunsNoAdjacent(s[n..], cls, minLen, repl);
      assert |chunk| == 1 && cls(chunk[0]);
      assert tail != [] ==> !cls(tail[0]);
      var r := chunk + tail;
      assert r == ReplaceRuns(s, cls, minLen, repl);
      forall i | 1 <= i < |r| ensures !(cls(r[i - 1]) && cls(r[i])) {
        if i > 1 { assert r[i - 1] == tail[i - 2] && r[i] == tail[i - 1]; }
      }
    } else {
      var tail := ReplaceRuns(s[1..], cls, minLen, repl);
      ReplaceRunsNoAdjacent(s[1..], cls, minLen, repl);
      var r := [s[0]] + tail;
      forall i | 1 <= i < |r| ensures !(cls(r[i - 1]) && cls(r[i])) {
        if i > 1 { assert r[i - 1] == tail[i - 2] && r[i] == tail[i - 1]; }
      }
    }
  }

  /** Replacing runs of one class keeps "no neighbouring characters of another,
      disjoint class" true. */
  lemma {:induction false} ReplaceRunsKeepsNoAdjacent(s: string, cls: char -> bool, minLen: nat, repl: string, other: char -> bool)
    requires 1 <= minLen && repl != []
    requires forall c :: c in repl ==> cls(c)
    requires forall c :: !(cls(c) && other(c))
    requires NoAdjacent(s, other)
    ensures NoAdjacent(ReplaceRuns(s, cls, minLen, repl), other)
    decreases |s|
  {
    if s == [] {
    } else {
      var n := if cls(s[0]) then RunLength(s, cls) else 1;
      var chunk := if cls(s[0]) then (if n >= minLen then repl else s[..n]) else [s[0]];
      var tail := ReplaceRuns(s[n..], cls, minLen, repl);
      assert NoAdjacent(s[n..], other) by {
        forall i | 1 <= i < |s[n..]| ensures !(other(s[n..][i - 1]) && other(s[n..][i])) {
          assert s[n..][i - 1] == s[n + i - 1] && s[n..][i] == s[n + i];
        }
      }
      ReplaceRunsKeepsNoAdjacent(s[n..], cls, minLen, repl, other);
      var r := chunk + tail;
      assert r == ReplaceRuns(s, cls, minLen, repl);
      assert chunk != [];
      // the last character of the chunk and the first of the tail are not both `other`
      assert tail != [] ==> !(other(chunk[|chunk| - 1]) && other(tail[0])) by {
        if tail != [] {
          if cls(s[n]) {
            assert cls(tail[0]);
          } else {
            assert tail[0] == s[n];
            if !cls(s[0]) {
              assert chunk[|chunk| - 1] == s[0] && n == 1;
            } else {
              assert cls(chunk[|chunk| - 1]);
            }
          }
        }
      }
      forall i | 1 <= i < |r| ensures !(other(r[i - 1]) && other(r[i])) {
        if i < |chunk| {
          assert cls(s[0]) && cls(r[i]);
        } else if i > |chunk| {
          assert r[i - 1] == tail[i - 1 - |chunk|] && r[i] == tail[i - |chunk|];
        }
      }
    }
  }

  /** Every class run of `s` is shorter than `m`: the run at the front, and
      the runs of every suffix. */
  predicate RunsBelow(s: string, cls: char -> bool, m: nat)
    decreases |s|
  {
    s == [] || (RunLength(s, cls) < m && RunsBelow(s[1..], cls, m))
  }

  /** The run at every position is shorter than `m`. */
  lemma {:induction false} RunsBelowFromAll(s: string, cls: char -> bool, m: nat)
    requires forall i :: 0 <= i < |s| ==> RunLength(s[i..], cls) < m
    ensures RunsBelow(s, cls, m)
    decreases |s|
  {
    if s != [] {
      assert s[0..] == s;
      forall i | 0 <= i < |s[1..]| ensures RunLength(s[1..][i..], cls) < m {
        assert s[1..][i..] == s[i + 1..];
      }
      RunsBelowFromAll(s[1..], cls, m);
    }
  }

  lemma {:induction false} RunsBelowDrop(s: string, cls: char -> bool, m: nat, n: nat)
    requires RunsBelow(s, cls, m) && n <= |s|
    ensures RunsBelow(s[n..], cls, m)
    decreases n
  {
    if n > 0 {
      RunsBelowDrop(s[1..], cls, m, n - 1);
      assert s[1..][n - 1..] == s[n..];
    }
  }

  /** `re.sub` leaves `s` unchanged when every class run in it is shorter than `minLen`. */
  lemma {:induction false} ReplaceRunsFixpoint(s: string, cls: char -> bool, minLen: nat, repl: string)
    requires 1 <= minLen
    requires RunsBelow(s, cls, minLen)
    ensures ReplaceRuns(s, cls, minLen, repl) == s
    decreases |s|
  {
    if s != [] {
      var n := if cls(s[0]) then RunLength(s, cls) else 1;
      var r := ReplaceRuns(s[n..], cls, minLen, repl);
      assert r == s[n..] by {
        RunsBelowDrop(s, cls, minLen, n);
        ReplaceRunsFixpoint(s[n..], cls, minLen, repl);
      }
      assert ReplaceRuns(s, cls, minLen, repl) == s[..n] + r by {
        ReplaceRunsShortHead(s, cls, minLen, repl);
      }
      assert s[..n] + s[n..] == s;
    }
  }

  /** When the run at the front is shorter than `minLen`, the front chunk is
      copied and the rest is replaced on its own. */
  lemma ReplaceRunsShortHead(s: string, cls: char -> bool, minLen: nat, repl: string)
    requires 1 <= minLen && s != [] && RunLength(s, cls) < minLen
    ensures var n := if cls(s[0]) then RunLength(s, cls) else 1;
      ReplaceRuns(s, cls, minLen, repl) == s[..n] + ReplaceRuns(s[n..], cls, minLen, repl)
  {
    if !cls(s[0]) {
      assert [s[0]] == s[..1];
    }
  }

  lemma RunLengthUnderNoAdjacent(s: string, cls: char -> bool, i: nat)
    requires NoAdjacent(s, cls) && i < |s|
    ensures RunLength(s[i..], cls) <= 1
  {
    var t := s[i..];
    if |t| > 1 {
      assert t[0] == s[i] && t[1] == s[i + 1];
      assert !(cls(t[0]) && cls(t[1]));
    }
  }

  // ---------------------------------------------------------------------------
  // re.split(pattern, s) for a pattern that never matches the empty string

    /** Length of the first alternative in `alts` that matches (ignoring case) at
      the front of `t`, or 0; alternatives are tried in order, as `re` does. */
  function FirstAlternativeLen(t: string, alts: seq<string>): (n: nat)
    ensures n > 0 ==> n <= |t| && exists k :: 0 <= k < |alts| && |alts[k]| == n && MatchesAt(t, 0, alts[k])
    ensures n == 0 ==> forall k :: 0 <= k < |alts| && alts[k] != [] ==> !MatchesAt(t, 0, alts[k])
  {
    if alts == [] then 0
    else if alts[0] != [] && MatchesAt(t, 0, alts[0]) then |alts[0]|
    else
      var n := FirstAlternativeLen(t, alts[1..]);
      assert n > 0 ==> exists k :: 0 <= k < |alts| && |alts[k]| == n && MatchesAt(t, 0, alts[k]) by {
        if n > 0 {
          var k :| 0 <= k < |alts[1..]| && |alts[1..][k]| == n && MatchesAt(t, 0, alts[1..][k]);
          assert alts[k + 1] == alts[1..][k];
        }
      }
      assert n == 0 ==> forall k :: 0 <= k < |alts| && alts[k] != [] ==> !MatchesAt(t, 0, alts[k]) by {
        if n == 0 {
          forall k | 0 <= k < |alts| && alts[k] != [] ensures !MatchesAt(t, 0, alts[k]) {
            if k > 0 { assert alts[k] == alts[1..][k - 1]; }
          }
        }
      }
      n
  }

/** `re.split` with a separator given by `sepLen(t)`: the length of the
      separator match at the front of `t`, or 0 when there is none. Matches are
      found left to right and do not overlap. */
  function SplitWhere(s: string, sepLen: string -> nat): (parts: seq<string>)
    ensures |parts| >= 1
    decreases |s|
  {
    if s == [] then [""]
    else
      var n := sepLen(s);
      if 0 < n <= |s| then [""] + SplitWhere(s[n..], sepLen)
      else
        var rest := SplitWhere(s[1..], sepLen);
        [[s[0]] + rest[0]] + rest[1..]
  }

  /** The separator texts `SplitWhere` cut out, in order. */
  function SplitSeparators(s: string, sepLen: string -> nat): (seps: seq<string>)
    ensures |seps| == |SplitWhere(s, sepLen)| - 1
    ensures forall k :: 0 <= k < |seps| ==> seps[k] != []
    decreases |s|
  {
    if s == [] then []
    else
      var n := sepLen(s);
      if 0 < n <= |s| then [s[..n]] + SplitSeparators(s[n..], sepLen)
      else SplitSeparators(s[1..], sepLen)
  }

  /** parts[0] + seps[0] + parts[1] + ... + parts[|parts|-1] */
  function Interleave(parts: seq<string>, seps: seq<string>): string
    requires |seps| + 1 == |parts|
    decreases |seps|
  {
    if seps == [] then parts[0] else parts[0] + seps[0] + Interleave(parts[1..], seps[1..])
  }

  /** Splitting loses nothing: putting the separators back between the parts
      gives the original text. */
  lemma {:induction false} SplitWhereRoundTrip(s: string, sepLen: string -> nat)
    ensures Interleave(SplitWhere(s, sepLen), SplitSeparators(s, sepLen)) == s
    decreases |s|
  {
    if s != [] {
      var n := sepLen(s);
      if 0 < n <= |s| {
        SplitWhereRoundTrip(s[n..], sepLen);
        InterleaveConsSeparator(s[..n], SplitWhere(s[n..], sepLen), SplitSeparators(s[n..], sepLen));
        assert s == s[..n] + s[n..];
      } else {
        SplitWhereRoundTrip(s[1..], sepLen);
        var rest := SplitWhere(s[1..], sepLen);
        var seps := SplitSeparators(s[1..], sepLen);
        InterleaveConsFirst(s[0], rest, seps);
        assert s == [s[0]] + s[1..];
      }
    }
  }

  lemma InterleaveConsSeparator(sep: string, parts: seq<string>, seps: seq<string>)
    requires |seps| + 1 == |parts|
    ensures Interleave([""] + parts, [sep] + seps) == sep + Interleave(parts, seps)
  {
    var ps := [""] + parts;
    var ss := [sep] + seps;
    assert ps[0] == "" && ps[1..] == parts;
    assert ss[0] == sep && ss[1..] == seps;
    assert Interleave(ps, ss) == "" + sep + Interleave(parts, seps);
  }

  lemma InterleaveConsFirst(c: char, parts: seq<string>, seps: seq<string>)
    requires |seps| + 1 == |parts|
    ensures Interleave([[c] + parts[0]] + parts[1..], seps) == [c] + Interleave(parts, seps)
  {
    var ps := [[c] + parts[0]] + parts[1..];
    assert ps[0] == [c] + parts[0];
    if seps != [] {
      assert ps[1..] == parts[1..];
      var tail := Interleave(parts[1..], seps[1..]);
      assert Interleave(ps, seps) == ([c] + parts[0]) + seps[0] + tail;
      assert Interleave(parts, seps) == parts[0] + seps[0] + tail;
      ConcatAssoc3(c, parts[0], seps[0], tail);
    }
  }

  lemma ConcatAssoc3(c: char, a: string, b: string, t: string)
    ensures ([c] + a) + b + t == [c] + (a + b + t)
  {
  }

  /** When every character of class `bad` starts a separator, no part of the
      split holds a character of that class. */
  lemma {:induction false} SplitWhereAvoids(s: string, sepLen: string -> nat, bad: char -> bool)
    requires forall t :: t != [] && bad(t[0]) ==> 0 < sepLen(t) <= |t|
    ensures forall p :: p in SplitWhere(s, sepLen) ==> forall k :: 0 <= k < |p| ==> !bad(p[k])
    decreases |s|
  {
    if s != [] {
      var n := sepLen(s);
      if 0 < n <= |s| {
        SplitWhereAvoids(s[n..], sepLen, bad);
      } else {
        SplitWhereAvoids(s[1..], sepLen, bad);
        var rest := SplitWhere(s[1..], sepLen);
        assert !bad(s[0]);
        assert rest[0] in rest;
        assert forall p :: p in rest[1..] ==> p in rest;
      }
    }
  }

  /** Python's `s.split(",")`. */
  function CommaLen(t: string): nat { if t != [] && t[0] == ',' then 1 else 0 }

  function SplitComma(s: string): (parts: seq<string>)
    ensures |parts| >= 1
    ensures forall p :: p in parts ==> ',' !in p
    ensures Join(parts, ",") == s
  {
    SplitWhereAvoids(s, CommaLen, c => c == ',');
    SplitWhereRoundTrip(s, CommaLen);
    CommaSeparators(s);
    InterleaveSame(SplitWhere(s, CommaLen), SplitSeparators(s, CommaLen), ",");
    SplitWhere(s, CommaLen)
  }

  /** Every separator cut out by `SplitComma` is a single comma. */
  lemma {:induction false} CommaSeparators(s: string)
    ensures forall k :: 0 <= k < |SplitSeparators(s, CommaLen)| ==> SplitSeparators(s, CommaLen)[k] == ","
    decreases |s|
  {
    if s != [] {
      if 0 < CommaLen(s) <= |s| {
        CommaSeparators(s[1..]);
        assert s[..1] == ",";
        assert SplitSeparators(s, CommaLen) == [","] + SplitSeparators(s[1..], CommaLen);
      } else {
        CommaSeparators(s[1..]);
        assert SplitSeparators(s, CommaLen) == SplitSeparators(s[1..], CommaLen);
      }
    }
  }

  /** Interleaving with one separator throughout is joining with it. */
  lemma {:induction false} InterleaveSame(parts: seq<string>, seps: seq<string>, sep: string)
    requires |seps| + 1 == |parts|
    requires forall k :: 0 <= k < |seps| ==> seps[k] == sep
    ensures Interleave(parts, seps) == Join(parts, sep)
    decreases |seps|
  {
    if seps != [] {
      InterleaveSame(parts[1..], seps[1..], sep);
      assert seps[0] == sep;
    }
  }

  // ---------------------------------------------------------------------------
  // str.splitlines() and str.join()

  /** Index of the first line break at or after `i`, or `|s|`. */
  function LineBreakFrom(s: string, i: nat): (j: nat)
    requires i <= |s|
    ensures i <= j <= |s|
    ensures forall k :: i <= k < j ==> !IsLineBreak(s[k])
    ensures j < |s| ==> IsLineBreak(s[j])
    decreases |s| - i
  {
    if i == |s| || IsLineBreak(s[i]) then i else LineBreakFrom(s, i + 1)
  }

  /** Python's `str.splitlines()`: `\r\n` is one break; a final break does not
      open an empty last line. */
  function SplitLines(s: string): (lines: seq<string>)
    ensures forall l :: l in lines ==> forall k :: 0 <= k < |l| ==> !IsLineBreak(l[k])
    ensures s == [] <==> lines == []
    decreases |s|
  {
    if s == [] then []
    else
      var j := LineBreakFrom(s, 0);
      if j == |s| then [s]
      else
        var next := if s[j] == '\r' && j + 1 < |s| && s[j + 1] == '\n' then j + 2 else j + 1;
        [s[..j]] + SplitLines(s[next..])
  }

  /** Python's `sep.join(xs)`. */
  function Join(xs: seq<string>, sep: string): string
    decreases |xs|
  {
    if xs == [] then ""
    else if |xs| == 1 then xs[0]
    else xs[0] + sep + Join(xs[1..], sep)
  }

  /** Splitting text whose only line breaks are `\n`, and that does not end
      in one, into lines and joining them with `\n` gives the text back. */
  lemma {:induction false} SplitLinesJoin(s: string)
    requires OnlyNewlineBreaks(s)
    requires s == [] || s[|s| - 1] != '\n'
    ensures Join(SplitLines(s), "\n") == s
    decreases |s|
  {
    if s != [] {
      var j := LineBreakFrom(s, 0);
      if j < |s| {
        assert s[j] == '\n' && j < |s| - 1;
        var rest := s[j + 1..];
        assert SplitLines(s) == [s[..j]] + SplitLines(rest) by { SplitLinesAtNewline(s); }
        OnlyNewlineBreaksSuffix(s, j + 1);
        SplitLinesJoin(rest);
        JoinAtNewline(s, j, SplitLines(s), SplitLines(rest));
      } else {
        assert SplitLines(s) == [s];
      }
    }
  }

  /** Every line break of `s` is `\n`. */
  predicate OnlyNewlineBreaks(s: string) {
    forall k :: 0 <= k < |s| && IsLineBreak(s[k]) ==> s[k] == '\n'
  }

  lemma OnlyNewlineBreaksSuffix(s: string, i: nat)
    requires OnlyNewlineBreaks(s) && i <= |s|
    ensures OnlyNewlineBreaks(s[i..])
  {
    forall k | 0 <= k < |s[i..]| && IsLineBreak(s[i..][k]) ensures s[i..][k] == '\n' {
      assert s[i..][k] == s[i + k];
    }
  }

  lemma JoinAtNewline(s: string, j: nat, lines: seq<string>, more: seq<string>)
    requires j < |s| - 1 && s[j] == '\n'
    requires lines == [s[..j]] + more && more != []
    requires Join(more, "\n") == s[j + 1..]
    ensures Join(lines, "\n") == s
  {
    JoinCons(s[..j], more, "\n");
    assert s[j..j + 1] == "\n";
    assert s == s[..j] + s[j..j + 1] + s[j + 1..];
  }

  lemma SplitLinesAtNewline(s: string)
    requires s != [] && LineBreakFrom(s, 0) < |s| && s[LineBreakFrom(s, 0)] == '\n'
    ensures SplitLines(s) == [s[..LineBreakFrom(s, 0)]] + SplitLines(s[LineBreakFrom(s, 0) + 1..])
  {
  }

  lemma JoinCons(x: string, xs: seq<string>, sep: string)
    requires xs != []
    ensures Join([x] + xs, sep) == x + sep + Join(xs, sep)
  {
    assert ([x] + xs)[1..] == xs;
  }

  /** Where the `j`-th element starts inside `Join(xs, sep)`. */
  function JoinOffset(xs: seq<string>, sep: string, j: nat): nat
    requires j <= |xs|
  {
    if j == 0 then 0 else JoinOffset(xs, sep, j - 1) + |xs[j - 1]| + |sep|
  }

  lemma {:induction false} JoinOffsetShift(xs: seq<string>, sep: string, j: nat)
    requires 1 <= j <= |xs|
    ensures JoinOffset(xs, sep, j) == |xs[0]| + |sep| + JoinOffset(xs[1..], sep, j - 1)
  {
    if j > 1 {
      JoinOffsetShift(xs, sep, j - 1);
      assert xs[1..][j - 2] == xs[j - 1];
    }
  }

  /** Each element can be read back from its offset in the joined text. */
  lemma {:induction false} JoinElementAt(xs: seq<string>, sep: string, j: nat)
    requires j < |xs|
    ensures JoinOffset(xs, sep, j) + |xs[j]| <= |Join(xs, sep)|
    ensures OccursAt(Join(xs, sep), JoinOffset(xs, sep, j), xs[j])
    decreases |xs|
  {
    var r := Join(xs, sep);
    if |xs| == 1 {
    } else if j == 0 {
      assert r == "" + xs[0] + (sep + Join(xs[1..], sep));
      assert OccursAt(xs[0], 0, xs[0]);
      OccursInMiddle("", xs[0], sep + Join(xs[1..], sep), 0, xs[0]);
    } else {
      JoinElementAt(xs[1..], sep, j - 1);
      JoinOffsetShift(xs, sep, j);
      var tail := Join(xs[1..], sep);
      assert r == (xs[0] + sep) + tail + "";
      OccursInMiddle(xs[0] + sep, tail, "", JoinOffset(xs[1..], sep, j - 1), xs[j]);
    }
  }

  /** A piece found in the middle part is found in the whole, shifted by the
      length of the front part. */
  lemma OccursInMiddle(a: string, b: string, c: string, o: nat, x: string)
    requires OccursAt(b, o, x)
    ensures OccursAt(a + b + c, |a| + o, x)
  {
    assert (a + b + c)[|a| + o..|a| + o + |x|] == b[o..o + |x|];
  }

  // ---------------------------------------------------------------------------
  // Leftmost search (`re.search`)

  /** The leftmost offset at or after `from` at which `at` reports a match. */
  function FindFirst(s: string, at: (string, nat) -> Option<nat>, from: nat): (r: Option<nat>)
    requires from <= |s|
    ensures r.Some? ==> from <= r.value <= |s| && at(s, r.value).Some?
    ensures r.Some? ==> forall j :: from <= j < r.value ==> at(s, j).None?
    ensures r.None? ==> forall j :: from <= j <= |s| ==> at(s, j).None?
    decreases |s| - from
  {
    if at(s, from).Some? then Some(from)
    else if from == |s| then None
    else FindFirst(s, at, from + 1)
  }

  /** Every element stripped, in order. */
  function StripAll(parts: seq<string>): (r: seq<string>)
    ensures |r| == |parts|
    ensures forall k :: 0 <= k < |r| ==> r[k] == Strip(parts[k])
  {
    seq(|parts|, k requires 0 <= k < |parts| => Strip(parts[k]))
  }

  lemma StripAllSnoc(parts: seq<string>)
    requires parts != []
    ensures StripAll(parts) == StripAll(parts[..|parts| - 1]) + [Strip(parts[|parts| - 1])]
  {
  }

  // ---------------------------------------------------------------------------
  // Order of elements

  /** `xs` is `ys` with some elements left out. */
  ghost predicate SubsequenceOf<T>(xs: seq<T>, ys: seq<T>)
    decreases |ys|
  {
    if xs == [] then true
    else if ys == [] then false
    else (xs[|xs| - 1] == ys[|ys| - 1] && SubsequenceOf(xs[..|xs| - 1], ys[..|ys| - 1]))
         || SubsequenceOf(xs, ys[..|ys| - 1])
  }

  lemma SubsequenceExtend<T>(xs: seq<T>, ys: seq<T>, y: T)
    requires SubsequenceOf(xs, ys)
    ensures SubsequenceOf(xs, ys + [y]) && SubsequenceOf(xs + [y], ys + [y])
  {
    assert (ys + [y])[..|ys|] == ys;
    assert (xs + [y])[..|xs|] == xs;
  }

  lemma SubsequenceOfEmpty<T>(ys: seq<T>)
    ensures SubsequenceOf([], ys)
  {
  }

  /** One step of a filter, counted: when `kept` holds every item of `all`
      that passes `keep`, as often as it occurs there, so does `kept` extended
      by `s` if `s` passes, against `all + [s]`. */
  lemma CountsSnoc<T>(kept: seq<T>, all: seq<T>, s: T, keep: T -> bool)
    requires forall e :: multiset(kept)[e] == (if keep(e) then multiset(all)[e] else 0)
    ensures forall e ::
      multiset(kept + (if keep(s) then [s] else []))[e] == (if keep(e) then multiset(all + [s])[e] else 0)
  {
    var added := if keep(s) then [s] else [];
    forall e ensures multiset(kept + added)[e] == (if keep(e) then multiset(all + [s])[e] else 0) {
      assert multiset(kept + added) == multiset(kept) + multiset(added);
      assert multiset(all + [s]) == multiset(all) + multiset([s]);
    }
  }

  predicate NoDuplicates<T(==)>(xs: seq<T>) {
    forall i, j :: 0 <= i < j < |xs| ==> xs[i] != xs[j]
  }
}
