/** `_extract_skill_block` of app/chains.py and the keyword fallback of
    `Chain.extract_jobs`: the skills of a job block, read from a bullet list
    or phrase list under a requirements-style header, or else from a fixed
    list of known skill words. */
module SkillBlock {
  import opened TextUtil

  /** The header alternatives, in the order the pattern tries them. */
  const SkillHeaders: seq<string> := ["requirements", "qualifications", "skills", "you should have", "what we're looking for"]

  /** At most this many skills are returned. */
  const MaxSkills: nat := 20

  /** Length of the header matching (ignoring case) at offset `i`, if any. */
  function HeaderAt(text: string, i: nat): (r: Option<nat>)
    ensures r.Some? ==> i + r.value <= |text| && exists k :: 0 <= k < |SkillHeaders| && r.value == |SkillHeaders[k]| && MatchesAt(text, i, SkillHeaders[k])
    ensures r.None? ==> forall k :: 0 <= k < |SkillHeaders| ==> !MatchesAt(text, i, SkillHeaders[k])
  {
    if i > |text| then None
    else
      var n := FirstAlternativeLen(text[i..], SkillHeaders);
      assert forall k :: 0 <= k < |SkillHeaders| ==> (MatchesAt(text, i, SkillHeaders[k]) <==> MatchesAt(text[i..], 0, SkillHeaders[k])) by {
        forall k | 0 <= k < |SkillHeaders| ensures MatchesAt(text, i, SkillHeaders[k]) <==> MatchesAt(text[i..], 0, SkillHeaders[k]) {
          if i + |SkillHeaders[k]| <= |text| {
            assert text[i..][0..|SkillHeaders[k]|] == text[i..i + |SkillHeaders[k]|];
          }
        }
      }
      if n > 0 then Some(n) else None
  }

  /** Some header phrase occurs in the text, ignoring case. */
  predicate HasHeader(text: string) {
    exists i, k :: 0 <= i <= |text| && 0 <= k < |SkillHeaders| && MatchesAt(text, i, SkillHeaders[k])
  }

  /** Where the text after the header begins (`m.end(1)`): the end of the
      leftmost header phrase, and `None` exactly when no header occurs. */
  function HeaderEnd(text: string): (r: Option<nat>)
    ensures r.None? <==> !HasHeader(text)
    ensures r.Some? ==> r.value <= |text|
    ensures r.Some? ==> exists i, k ::
      && 0 <= i <= |text| && 0 <= k < |SkillHeaders| && MatchesAt(text, i, SkillHeaders[k])
      && r.value == i + |SkillHeaders[k]|
      && forall j, k' :: 0 <= j < i && 0 <= k' < |SkillHeaders| ==> !MatchesAt(text, j, SkillHeaders[k'])
  {
    match FindFirst(text, HeaderAt, 0)
    case None =>
      NoHeaderFound(text);
      None
    case Some(i) =>
      HeaderFound(text, i);
      Some(i + HeaderAt(text, i).value)
  }

  lemma NoHeaderFound(text: string)
    requires forall i :: 0 <= i <= |text| ==> HeaderAt(text, i).None?
    ensures !HasHeader(text)
  {
    forall i, k | 0 <= i <= |text| && 0 <= k < |SkillHeaders| ensures !MatchesAt(text, i, SkillHeaders[k]) {
      assert HeaderAt(text, i).None?;
    }
  }

  lemma HeaderFound(text: string, i: nat)
    requires HeaderAt(text, i).Some?
    requires forall j :: 0 <= j < i ==> HeaderAt(text, j).None?
    ensures forall j, k' :: 0 <= j < i && 0 <= k' < |SkillHeaders| ==> !MatchesAt(text, j, SkillHeaders[k'])
  {
    forall j, k' | 0 <= j < i && 0 <= k' < |SkillHeaders| ensures !MatchesAt(text, j, SkillHeaders[k']) {
      assert HeaderAt(text, j).None?;
    }
  }

  /** At most one header phrase matches at any offset: their first letters differ. */
  lemma HeadersExclusive(text: string, i: nat, k: nat, k': nat)
    requires k < |SkillHeaders| && k' < |SkillHeaders|
    requires MatchesAt(text, i, SkillHeaders[k]) && MatchesAt(text, i, SkillHeaders[k'])
    ensures k == k'
  {
    assert Lower(text[i..i + |SkillHeaders[k]|])[0] == LowerChar(text[i]);
    assert Lower(text[i..i + |SkillHeaders[k']|])[0] == LowerChar(text[i]);
    assert SkillHeaders[k][0] == SkillHeaders[k'][0];
  }

  // ---------------------------------------------------------------------------
  // re.findall(r"(?m)^[\-•\*\•]\s*(.+)$", tail)

  predicate IsBulletChar(c: char) { c == '-' || c == '•' || c == '*' }

  /** First newline at or after `i`, or `|t|`: where `.+` stops. */
  function LineEnd(t: string, i: nat): (j: nat)
    requires i <= |t|
    ensures i <= j <= |t|
    ensures forall k :: i <= k < j ==> t[k] != '\n'
    ensures j < |t| ==> t[j] == '\n'
    decreases |t| - i
  {
    if i == |t| || t[i] == '\n' then i else LineEnd(t, i + 1)
  }

  /** Largest `k` in `[lo, hi)` with `t[k]` not a newline: where `\s*` stops
      when it has to give characters back for `.+`. */
  function LastNonNewline(t: string, lo: nat, hi: nat): (r: Option<nat>)
    requires lo <= hi <= |t|
    ensures r.Some? ==> lo <= r.value < hi && t[r.value] != '\n' && forall k :: r.value < k < hi ==> t[k] == '\n'
    ensures r.None? ==> forall k :: lo <= k < hi ==> t[k] == '\n'
    decreases hi - lo
  {
    if lo == hi then None
    else if t[hi - 1] != '\n' then Some(hi - 1)
    else LastNonNewline(t, lo, hi - 1)
  }

  /** A bullet character at the start of a line. */
  predicate BulletStart(t: string, p: nat) {
    p < |t| && (p == 0 || t[p - 1] == '\n') && IsBulletChar(t[p])
  }

  /** The bullet match starting at `p`, as the bounds of its group: a bullet
      character at the start of a line, whitespace (possibly across lines),
      then the rest of a line. There is a match exactly when some character
      other than a newline follows the bullet character after nothing but
      whitespace; `\s*` takes all the whitespace it can. */
  function BulletAt(t: string, p: nat): (r: Option<(nat, nat)>)
    ensures r.Some? <==> (BulletStart(t, p) &&
      exists k :: p < k < |t| && t[k] != '\n' && forall m :: p < m < k ==> IsSpace(t[m]))
    ensures r.Some? ==> p < r.value.0 < r.value.1 <= |t|
    ensures r.Some? ==> (p == 0 || t[p - 1] == '\n') && IsBulletChar(t[p])
    ensures r.Some? ==> forall k :: r.value.0 <= k < r.value.1 ==> t[k] != '\n'
    ensures r.Some? ==> r.value.1 == |t| || t[r.value.1] == '\n'
    ensures r.Some? ==> forall k :: p < k < r.value.0 ==> IsSpace(t[k])
    ensures r.Some? ==> !IsSpace(t[r.value.0]) || forall k :: r.value.0 < k < |t| ==> t[k] == '\n'
  {
    if BulletStart(t, p) then
      var q := SpaceRunEnd(t, p + 1);
      if q < |t| then
        assert t[q] != '\n' by { assert IsSpace('\n'); }
        Some((q, LineEnd(t, q)))
      else
        match LastNonNewline(t, p + 1, q)
        case None =>
          assert forall k :: p < k < |t| ==> t[k] == '\n';
          None
        case Some(k) => Some((k, LineEnd(t, k)))
    else None
  }

  /** All bullet groups from offset `p` on, as `findall` returns them. */
  function Bullets(t: string, p: nat): (bs: seq<string>)
    requires p <= |t|
    ensures forall b :: b in bs ==> b != [] && '\n' !in b
    decreases |t| - p
  {
    if p == |t| then []
    else
      match BulletAt(t, p)
      case None => Bullets(t, p + 1)
      case Some((a, e)) =>
        var b := t[a..e];
        assert forall k :: 0 <= k < |b| ==> b[k] == t[a + k];
        [b] + Bullets(t, e)
  }

  /** `findall` from `p`: no match gives no bullets; otherwise the group of
      the leftmost match comes first, and the search resumes where that match
      ends. */
  lemma {:induction false} BulletsFindAll(t: string, p: nat)
    requires p <= |t|
    ensures (forall q :: p <= q < |t| ==> BulletAt(t, q).None?) ==> Bullets(t, p) == []
    ensures forall q :: p <= q < |t| && BulletAt(t, q).Some? && (forall j :: p <= j < q ==> BulletAt(t, j).None?) ==>
      Bullets(t, p) == [t[BulletAt(t, q).value.0..BulletAt(t, q).value.1]] + Bullets(t, BulletAt(t, q).value.1)
    decreases |t| - p
  {
    if p < |t| {
      if BulletAt(t, p).None? {
        assert Bullets(t, p) == Bullets(t, p + 1);
        BulletsFindAll(t, p + 1);
      } else {
        var (a, e) := BulletAt(t, p).value;
        assert Bullets(t, p) == [t[a..e]] + Bullets(t, e);
      }
    }
  }

  /** Every bullet found is a piece of one line of `t`. */
  lemma {:induction false} BulletsAreLineFragments(t: string, p: nat)
    requires p <= |t|
    ensures forall b :: b in Bullets(t, p) ==> LineFragment(t, b)
    decreases |t| - p
  {
    if p < |t| {
      match BulletAt(t, p)
      case None => BulletsAreLineFragments(t, p + 1);
      case Some((a, e)) =>
        BulletsAreLineFragments(t, e);
        assert LineFragmentAt(t, t[a..e], a);
    }
  }

  /** `s` is `t[a..a+|s|]`, and that piece holds no newline. */
  predicate LineFragmentAt(t: string, s: string, a: nat) {
    a + |s| <= |t| && t[a..a + |s|] == s && forall k :: a <= k < a + |s| ==> t[k] != '\n'
  }

  predicate LineFragment(t: string, s: string) {
    exists a :: 0 <= a <= |t| && LineFragmentAt(t, s, a)
  }

  // ---------------------------------------------------------------------------
  // re.split(r"[;,/]| and | or ", candidate)

  /** Separator length at the front of `t`; the alternatives are tried in
      order and compared case-sensitively. */
  function SkillSepLen(t: string): nat {
    if t != [] && (t[0] == ';' || t[0] == ',' || t[0] == '/') then 1
    else if |t| >= 5 && t[..5] == " and " then 5
    else if |t| >= 4 && t[..4] == " or " then 4
    else 0
  }

  predicate IsSkillSeparatorChar(c: char) { c == ';' || c == ',' || c == '/' }

  /** The stripped pieces longer than one character, in order. */
  function LongStripped(xs: seq<string>): (r: seq<string>)
    ensures forall e :: e in r ==> |e| > 1 && NoEdgeSpace(e)
    ensures forall x :: x in xs && |Strip(x)| > 1 ==> Strip(x) in r
    decreases |xs|
  {
    if xs == [] then []
    else
      var s := Strip(xs[|xs| - 1]);
      assert forall x :: x in xs ==> x in xs[..|xs| - 1] || x == xs[|xs| - 1];
      LongStripped(xs[..|xs| - 1]) + (if |s| > 1 then [s] else [])
  }

  /** The kept pieces appear in the order of the pieces they were stripped from. */
  lemma {:induction false} LongStrippedInOrder(xs: seq<string>)
    ensures SubsequenceOf(LongStripped(xs), StripAll(xs))
    decreases |xs|
  {
    if xs == [] {
      SubsequenceOfEmpty(StripAll(xs));
    } else {
      var front := xs[..|xs| - 1];
      var s := Strip(xs[|xs| - 1]);
      var kept := LongStripped(front);
      assert LongStripped(xs) == kept + (if |s| > 1 then [s] else []);
      assert StripAll(xs) == StripAll(front) + [s] by { StripAllSnoc(xs); }
      assert SubsequenceOf(kept, StripAll(front)) by { LongStrippedInOrder(front); }
      SubsequenceExtend(kept, StripAll(front), s);
      if |s| <= 1 {
        assert kept + [] == kept;
      }
    }
  }

  /** Repeats are kept: each text longer than one character is kept as often
      as it occurs among the stripped items, and nothing else is kept. */
  lemma {:induction false} LongStrippedCounts(xs: seq<string>)
    ensures forall e :: multiset(LongStripped(xs))[e] == (if |e| > 1 then multiset(StripAll(xs))[e] else 0)
    decreases |xs|
  {
    if xs != [] {
      var front := xs[..|xs| - 1];
      var s := Strip(xs[|xs| - 1]);
      var kept := LongStripped(front);
      assert LongStripped(xs) == kept + (if |s| > 1 then [s] else []);
      assert StripAll(xs) == StripAll(front) + [s] by { StripAllSnoc(xs); }
      LongStrippedCounts(front);
      CountsSnoc(kept, StripAll(front), s, e => |e| > 1);
    }
  }

  /** The phrases of the fallback: the first three lines after the header,
      joined by spaces and split at `;`, `,`, `/`, " and " and " or ". */
  function Phrases(tail: string): seq<string> {
    var lines := SplitLines(tail);
    if lines == [] then [] else SplitWhere(Join(Take(lines, 3), " "), SkillSepLen)
  }

  /** The pieces the skills are read from: the bullets after the header when
      there are any, else the phrases. */
  function SkillSource(tail: string): seq<string> {
    var bullets := Bullets(tail, 0);
    if bullets != [] then bullets else Phrases(tail)
  }

  /** The skills before lower-casing and truncation. */
  function RawSkills(text: string): (r: seq<string>)
    ensures forall x :: x in r ==> |x| > 1 && NoEdgeSpace(x)
    ensures !HasHeader(text) ==> r == []
  {
    match HeaderEnd(text)
    case None => []
    case Some(e) => LongStripped(SkillSource(text[e..]))
  }

  function LowerAll(xs: seq<string>): (r: seq<string>)
    ensures |r| == |xs|
    ensures forall k :: 0 <= k < |r| ==> r[k] == Lower(xs[k])
  {
    seq(|xs|, k requires 0 <= k < |xs| => Lower(xs[k]))
  }

  /** `_extract_skill_block(text)`: at most twenty lower-case skills of two or
      more characters without surrounding whitespace; none without a header. */
  function ExtractSkillBlock(text: string): (r: seq<string>)
    ensures |r| <= MaxSkills
    ensures forall s :: s in r ==> |s| > 1 && NoUpper(s) && NoEdgeSpace(s)
    ensures !HasHeader(text) ==> r == []
    ensures |r| == Min(|RawSkills(text)|, MaxSkills)
    ensures forall k :: 0 <= k < |r| ==> r[k] == Lower(RawSkills(text)[k])
  {
    CapLowered(RawSkills(text))
  }

  /** `[s.lower() for s in raw][:20]`: the first `MaxSkills` items,
      lower-cased, in order, with the shape of the items kept. */
  function CapLowered(raw: seq<string>): (r: seq<string>)
    requires forall x :: x in raw ==> |x| > 1 && NoEdgeSpace(x)
    ensures forall s :: s in r ==> |s| > 1 && NoUpper(s) && NoEdgeSpace(s)
    ensures |r| == Min(|raw|, MaxSkills)
    ensures forall k :: 0 <= k < |r| ==> r[k] == Lower(raw[k])
  {
    var r := Take(LowerAll(raw), MaxSkills);
    forall s | s in r ensures |s| > 1 && NoUpper(s) && NoEdgeSpace(s) {
      var k :| 0 <= k < |r| && r[k] == s;
      assert raw[k] in raw;
      LowerHasNoUpper(raw[k]);
      LowerKeepsEdges(raw[k]);
    }
    r
  }

  /** Nothing is lost below the cap: when at most twenty pieces survive the
      length filter, every piece after the header whose stripped text has two
      or more characters is a skill, lower-cased. */
  lemma SkillsComplete(text: string)
    requires HasHeader(text)
    ensures var src := SkillSource(text[HeaderEnd(text).value..]);
      |LongStripped(src)| <= MaxSkills ==>
        forall x :: x in src && |Strip(x)| > 1 ==> Lower(Strip(x)) in ExtractSkillBlock(text)
  {
    var src := SkillSource(text[HeaderEnd(text).value..]);
    var raw := RawSkills(text);
    var r := ExtractSkillBlock(text);
    assert raw == LongStripped(src);
    if |raw| <= MaxSkills {
      forall x | x in src && |Strip(x)| > 1 ensures Lower(Strip(x)) in r {
        assert Strip(x) in raw;
        var k :| 0 <= k < |raw| && raw[k] == Strip(x);
        assert r[k] == Lower(raw[k]);
      }
    }
  }

  /** Every skill is the lower-cased, stripped text of a piece after the
      header: of a bullet when there are bullets, of a phrase otherwise. */
  lemma SkillsFromSource(text: string)
    requires HasHeader(text)
    ensures forall s :: s in ExtractSkillBlock(text) ==>
      exists x :: x in SkillSource(text[HeaderEnd(text).value..]) && |Strip(x)| > 1 && s == Lower(Strip(x))
  {
    var src := SkillSource(text[HeaderEnd(text).value..]);
    forall s | s in ExtractSkillBlock(text)
      ensures exists x :: x in src && |Strip(x)| > 1 && s == Lower(Strip(x))
    {
      SkillFromRaw(text, s);
      var y :| y in RawSkills(text) && s == Lower(y);
      assert RawSkills(text) == LongStripped(src);
      LongStrippedFrom(src, y);
      var x :| x in src && y == Strip(x);
    }
  }

  lemma LowerKeepsEdges(s: string)
    requires NoEdgeSpace(s)
    ensures NoEdgeSpace(Lower(s))
  {
  }

  /** Every skill is the lower-cased form of one of the raw skills. */
  lemma SkillFromRaw(text: string, s: string)
    requires s in ExtractSkillBlock(text)
    ensures exists x :: x in RawSkills(text) && s == Lower(x)
  {
    LoweredFrom(ExtractSkillBlock(text), RawSkills(text), s);
  }

  lemma LoweredFrom(r: seq<string>, raw: seq<string>, s: string)
    requires |r| <= |raw| && forall k :: 0 <= k < |r| ==> r[k] == Lower(raw[k])
    requires s in r
    ensures exists x :: x in raw && s == Lower(x)
  {
    var k :| 0 <= k < |r| && r[k] == s;
    assert raw[k] in raw;
  }

  /** When bullets follow the header they alone supply the skills: each skill
      is the lower-cased text of part of one line of the block. */
  lemma BulletSkillsAreLineFragments(text: string)
    requires HeaderEnd(text).Some? && Bullets(text[HeaderEnd(text).value..], 0) != []
    ensures forall s :: s in ExtractSkillBlock(text) ==> exists f :: LineFragment(text, f) && s == Lower(f)
  {
    forall s | s in ExtractSkillBlock(text) ensures exists f :: LineFragment(text, f) && s == Lower(f) {
      SkillFromRaw(text, s);
      var x :| x in RawSkills(text) && s == Lower(x);
      BulletRawSkillIsFragment(text, x);
    }
  }

  lemma BulletRawSkillIsFragment(text: string, x: string)
    requires HeaderEnd(text).Some? && Bullets(text[HeaderEnd(text).value..], 0) != []
    requires x in RawSkills(text)
    ensures LineFragment(text, x)
  {
    var e := HeaderEnd(text).value;
    var tail := text[e..];
    assert RawSkills(text) == LongStripped(Bullets(tail, 0));
    StrippedBulletIsFragment(tail, x);
    FragmentOfSuffix(text, e, x);
  }

  lemma StrippedBulletIsFragment(tail: string, x: string)
    requires x in LongStripped(Bullets(tail, 0))
    ensures LineFragment(tail, x)
  {
    var bullets := Bullets(tail, 0);
    BulletsAreLineFragments(tail, 0);
    LongStrippedFrom(bullets, x);
    var b :| b in bullets && x == Strip(b);
    assert LineFragment(tail, b);
    var a :| 0 <= a <= |tail| && LineFragmentAt(tail, b, a);
    StripFragment(tail, b, a);
  }

  lemma FragmentOfSuffix(text: string, e: nat, x: string)
    requires e <= |text| && LineFragment(text[e..], x)
    ensures LineFragment(text, x)
  {
    var i :| 0 <= i <= |text[e..]| && LineFragmentAt(text[e..], x, i);
    FragmentShift(text, e, x, i);
  }

  lemma StripFragment(t: string, b: string, a: nat)
    requires LineFragmentAt(t, b, a)
    ensures LineFragmentAt(t, Strip(b), a + LeadingSpaces(b))
  {
    SubFragment(t, b, a, LeadingSpaces(b), Strip(b));
  }

  /** A piece of a line fragment is a line fragment. */
  lemma SubFragment(t: string, b: string, a: nat, i: nat, x: string)
    requires LineFragmentAt(t, b, a)
    requires i + |x| <= |b| && x == b[i..i + |x|]
    ensures LineFragmentAt(t, x, a + i)
  {
    SliceOfSlice(t, b, a, i, |x|);
  }

  lemma SliceOfSlice(t: string, b: string, a: nat, i: nat, m: nat)
    requires a + |b| <= |t| && t[a..a + |b|] == b && i + m <= |b|
    ensures t[a + i..a + i + m] == b[i..i + m]
  {
    var u := t[a + i..a + i + m];
    var v := b[i..i + m];
    forall k | 0 <= k < m ensures u[k] == v[k] {
      assert t[a..a + |b|][i + k] == t[a + i + k];
    }
  }

  lemma FragmentShift(text: string, e: nat, x: string, i: nat)
    requires e <= |text| && LineFragmentAt(text[e..], x, i)
    ensures LineFragmentAt(text, x, e + i)
  {
    assert text[e + i..e + i + |x|] == text[e..][i..i + |x|];
  }

  lemma {:induction false} LongStrippedFrom(xs: seq<string>, s: string)
    requires s in LongStripped(xs)
    ensures exists x :: x in xs && s == Strip(x)
    decreases |xs|
  {
    var front := xs[..|xs| - 1];
    if s in LongStripped(front) {
      LongStrippedFrom(front, s);
      var x :| x in front && s == Strip(x);
      assert x in xs;
    } else {
      assert s == Strip(xs[|xs| - 1]);
    }
  }

  /** A character that is neither a phrase separator nor a line break. */
  predicate PhraseChar(c: char) { !IsSkillSeparatorChar(c) && !IsLineBreak(c) }

  /** Without bullets the skills are phrases: none holds a `;`, `,` or `/`, and
      none crosses a line. */
  lemma PhraseSkillsHaveNoSeparators(text: string)
    requires HeaderEnd(text).Some? && Bullets(text[HeaderEnd(text).value..], 0) == []
    ensures forall s :: s in ExtractSkillBlock(text) ==> forall k :: 0 <= k < |s| ==> PhraseChar(s[k])
  {
    forall s | s in ExtractSkillBlock(text) ensures forall k :: 0 <= k < |s| ==> PhraseChar(s[k]) {
      SkillFromRaw(text, s);
      var x :| x in RawSkills(text) && s == Lower(x);
      PhraseRawSkillChars(text, x);
    }
  }

  lemma PhraseRawSkillChars(text: string, x: string)
    requires HeaderEnd(text).Some? && Bullets(text[HeaderEnd(text).value..], 0) == []
    requires x in RawSkills(text)
    ensures forall k :: 0 <= k < |Lower(x)| ==> PhraseChar(Lower(x)[k])
  {
    var tail := text[HeaderEnd(text).value..];
    assert RawSkills(text) == LongStripped(Phrases(tail));
    StrippedPhraseChars(tail, x);
  }

  lemma StrippedPhraseChars(tail: string, x: string)
    requires x in LongStripped(Phrases(tail))
    ensures forall k :: 0 <= k < |Lower(x)| ==> PhraseChar(Lower(x)[k])
  {
    var phrases := Phrases(tail);
    PhrasesAvoid(tail);
    LongStrippedFrom(phrases, x);
    var p :| p in phrases && x == Strip(p);
    PhraseCharsSurvive(p);
  }

  /** Stripping and lower-casing add no separator and no line break. */
  lemma PhraseCharsSurvive(p: string)
    requires forall k :: 0 <= k < |p| ==> PhraseChar(p[k])
    ensures forall k :: 0 <= k < |Lower(Strip(p))| ==> PhraseChar(Lower(Strip(p))[k])
  {
    var x := Strip(p);
    forall k | 0 <= k < |x| ensures PhraseChar(Lower(x)[k]) {
      assert x[k] == p[LeadingSpaces(p) + k];
    }
  }

  lemma PhrasesAvoid(tail: string)
    ensures forall p :: p in Phrases(tail) ==> forall k :: 0 <= k < |p| ==> PhraseChar(p[k])
  {
    var lines := SplitLines(tail);
    if lines != [] {
      var cand := Join(Take(lines, 3), " ");
      assert forall x :: x in Take(lines, 3) ==> x in lines;
      JoinAvoids(Take(lines, 3), " ");
      SplitWhereAvoids(cand, SkillSepLen, IsSkillSeparatorChar);
      SplitWhereKeepsOut(cand, SkillSepLen);
    }
  }

  /** Joining lines without line breaks by a space gives text without line breaks. */
  lemma {:induction false} JoinAvoids(xs: seq<string>, sep: string)
    requires forall x :: x in xs ==> forall k :: 0 <= k < |x| ==> !IsLineBreak(x[k])
    requires sep == " "
    ensures forall k :: 0 <= k < |Join(xs, sep)| ==> !IsLineBreak(Join(xs, sep)[k])
    decreases |xs|
  {
    if |xs| > 1 {
      JoinAvoids(xs[1..], sep);
      assert xs[0] in xs;
      assert forall x :: x in xs[1..] ==> x in xs;
    }
  }

  /** A part of a split holds only characters of the split text. */
  lemma {:induction false} SplitWhereKeepsOut(s: string, sepLen: string -> nat)
    ensures forall p :: p in SplitWhere(s, sepLen) ==> forall k :: 0 <= k < |p| ==> p[k] in s
    decreases |s|
  {
    if s != [] {
      var n := sepLen(s);
      if 0 < n <= |s| {
        SplitWhereKeepsOut(s[n..], sepLen);
        assert forall c :: c in s[n..] ==> c in s;
      } else {
        SplitWhereKeepsOut(s[1..], sepLen);
        var rest := SplitWhere(s[1..], sepLen);
        assert rest[0] in rest;
        assert forall p :: p in rest[1..] ==> p in rest;
        assert forall c :: c in s[1..] ==> c in s;
      }
    }
  }

  // ---------------------------------------------------------------------------
  // The inline keyword fallback of extract_jobs

  const SkillKeywords: seq<string> := ["python", "java", "javascript", "react", "aws", "sql", "docker", "kubernetes", "excel", "machine learning", "nlp", "data", "sales", "communication", "leadership"]

  /** `\bkw\b` matches at offset `i` (case-sensitively). */
  predicate KeywordAt(s: string, i: nat, kw: string) {
    OccursAt(s, i, kw) && WordBoundary(s, i) && WordBoundary(s, i + |kw|)
  }

  function KeywordMatcher(kw: string): (string, nat) -> Option<nat> {
    (s: string, i: nat) => if KeywordAt(s, i, kw) then Some(i) else None
  }

  /** `re.search(r"\b" + re.escape(kw) + r"\b", s)` finds something. */
  predicate HasKeyword(s: string, kw: string) {
    FindFirst(s, KeywordMatcher(kw), 0).Some?
  }

  /** `HasKeyword` holds exactly when the keyword occurs as a whole word. */
  lemma HasKeywordMeans(s: string, kw: string)
    ensures HasKeyword(s, kw) <==> exists i :: 0 <= i <= |s| && KeywordAt(s, i, kw)
  {
    var m := KeywordMatcher(kw);
    var r := FindFirst(s, m, 0);
    if r.Some? {
      assert KeywordAt(s, r.value, kw);
    } else {
      forall i | 0 <= i <= |s| ensures !KeywordAt(s, i, kw) {
        assert m(s, i).None?;
      }
    }
  }

  /** The keywords of `kws` found in `s`, in list order. */
  function KeywordsIn(s: string, kws: seq<string>): seq<string>
    decreases |kws|
  {
    if kws == [] then []
    else
      var kw := kws[|kws| - 1];
      KeywordsIn(s, kws[..|kws| - 1]) + (if HasKeyword(s, kw) then [kw] else [])
  }

  /** A keyword is reported exactly when it is in the list and found. */
  lemma {:induction false} KeywordsInExactly(s: string, kws: seq<string>)
    ensures forall kw :: kw in KeywordsIn(s, kws) <==> kw in kws && HasKeyword(s, kw)
    ensures SubsequenceOf(KeywordsIn(s, kws), kws)
    decreases |kws|
  {
    if kws == [] {
      SubsequenceOfEmpty(kws);
    } else {
      var front := kws[..|kws| - 1];
      var kw := kws[|kws| - 1];
      KeywordsInExactly(s, front);
      assert kws == front + [kw];
      SubsequenceExtend(KeywordsIn(s, front), front, kw);
      if HasKeyword(s, kw) {
        assert KeywordsIn(s, kws) == KeywordsIn(s, front) + [kw];
      } else {
        assert KeywordsIn(s, kws) == KeywordsIn(s, front);
      }
    }
  }

  /** The keyword loop of `extract_jobs` over the lower-cased block. */
  method KeywordSkills(b: string) returns (found: seq<string>)
    ensures found == KeywordsIn(Lower(b), SkillKeywords)
  {
    var lowerB := Lower(b);
    found := [];
    for i := 0 to |SkillKeywords|
      invariant found == KeywordsIn(lowerB, SkillKeywords[..i])
    {
      var sk := SkillKeywords[i];
      assert SkillKeywords[..i + 1][..i] == SkillKeywords[..i];
      if HasKeyword(lowerB, sk) {
        found := found + [sk];
      }
    }
    assert SkillKeywords[..|SkillKeywords|] == SkillKeywords;
  }
}
