/** The heuristic path of `Chain.extract_jobs` (app/chains.py): turn each job
    block into a record with a role, an experience phrase, skills and a
    trimmed description, keep one record per distinct normalised role, and
    fall back to a single generic record when nothing qualifies. */
module Extraction {
  import opened TextUtil
  import opened RoleText
  import opened Segmenter
  import opened SkillBlock

  datatype Job = Job(role: string, experience: string, skills: seq<string>, description: string)

  const NotSpecified: string := "Not specified"
  const UnknownRole: string := "Unknown role"

  /** Longest description kept before the ellipsis is added. */
  const MaxDescription: nat := 2000

  /** Length of the raw text kept by the generic fallback record. */
  const FallbackLength: nat := 1500

  /** Title lines are looked for among this many first lines of a block. */
  const TitleWindow: nat := 6

  // ---------------------------------------------------------------------------
  // Title line

  /** `ROLE_KEYWORDS`, lower-cased; the duplicate "engineer" is kept. */
  const RoleKeywords: seq<string> := ["engineer", "developer", "manager", "analyst", "designer", "intern", "scientist", "specialist", "consultant", "associate", "partner", "sales", "support", "engineer", "marketing", "product"]

  function RoleKeywordAt(s: string, i: nat): (r: Option<nat>)
    ensures r.Some? ==> exists k :: 0 <= k < |RoleKeywords| && MatchesAt(s, i, RoleKeywords[k])
    ensures r.None? ==> forall k :: 0 <= k < |RoleKeywords| ==> !MatchesAt(s, i, RoleKeywords[k])
  {
    if i > |s| then None
    else
      var n := FirstAlternativeLen(s[i..], RoleKeywords);
      assert forall k :: 0 <= k < |RoleKeywords| ==> (MatchesAt(s, i, RoleKeywords[k]) <==> MatchesAt(s[i..], 0, RoleKeywords[k])) by {
        forall k | 0 <= k < |RoleKeywords| ensures MatchesAt(s, i, RoleKeywords[k]) <==> MatchesAt(s[i..], 0, RoleKeywords[k]) {
          if i + |RoleKeywords[k]| <= |s| {
            assert s[i..][0..|RoleKeywords[k]|] == s[i..i + |RoleKeywords[k]|];
          }
        }
      }
      if n > 0 then Some(i) else None
  }

  /** `re.search(ROLE_KEYWORDS, ln, flags=re.I)` finds something. */
  predicate HasRoleKeyword(ln: string) {
    FindFirst(ln, RoleKeywordAt, 0).Some?
  }

  /** A role keyword is found exactly when one occurs somewhere, ignoring case. */
  lemma HasRoleKeywordMeans(ln: string)
    ensures HasRoleKeyword(ln) <==> exists i, k :: 0 <= i <= |ln| && 0 <= k < |RoleKeywords| && MatchesAt(ln, i, RoleKeywords[k])
  {
    var r := FindFirst(ln, RoleKeywordAt, 0);
    if r.Some? {
      assert RoleKeywordAt(ln, r.value).Some?;
    } else {
      forall i, k | 0 <= i <= |ln| && 0 <= k < |RoleKeywords| ensures !MatchesAt(ln, i, RoleKeywords[k]) {
        assert RoleKeywordAt(ln, i).None?;
      }
    }
  }

  /** A line preferred as a title: it names a role and has 4 to 119 characters. */
  predicate IsTitleLine(ln: string) {
    HasRoleKeyword(ln) && 3 < |ln| < 120
  }

  /** The stripped lines of a block that are not blank. */
  function NonBlankLines(b: string): (r: seq<string>)
    ensures forall ln :: ln in r ==> ln != [] && NoEdgeSpace(ln)
    ensures forall l :: l in SplitLines(b) && Strip(l) != [] ==> Strip(l) in r
    ensures forall ln :: ln in r ==> exists l :: l in SplitLines(b) && ln == Strip(l)
  {
    NonBlank(SplitLines(b))
  }

  function NonBlank(xs: seq<string>): (r: seq<string>)
    ensures forall ln :: ln in r ==> ln != [] && NoEdgeSpace(ln)
    ensures forall x :: x in xs && Strip(x) != [] ==> Strip(x) in r
    ensures forall ln :: ln in r ==> exists x :: x in xs && ln == Strip(x)
    decreases |xs|
  {
    if xs == [] then []
    else
      var front := xs[..|xs| - 1];
      var last := xs[|xs| - 1];
      var s := Strip(last);
      assert forall x :: x in xs ==> x in front || x == last;
      assert forall x :: x in front ==> x in xs;
      NonBlank(front) + (if s != [] then [s] else [])
  }

  /** The kept lines come in the order of the lines they were stripped from. */
  lemma {:induction false} NonBlankInOrder(xs: seq<string>)
    ensures SubsequenceOf(NonBlank(xs), StripAll(xs))
    decreases |xs|
  {
    if xs == [] {
      SubsequenceOfEmpty(StripAll(xs));
    } else {
      var front := xs[..|xs| - 1];
      var s := Strip(xs[|xs| - 1]);
      var kept := NonBlank(front);
      assert NonBlank(xs) == kept + (if s != [] then [s] else []);
      assert StripAll(xs) == StripAll(front) + [s] by { StripAllSnoc(xs); }
      assert SubsequenceOf(kept, StripAll(front)) by { NonBlankInOrder(front); }
      SubsequenceExtend(kept, StripAll(front), s);
      if s == [] {
        assert kept + [] == kept;
      }
    }
  }

  /** Repeats are kept: each non-empty text is kept as often as it occurs
      among the stripped items, and the empty text never. */
  lemma {:induction false} NonBlankCounts(xs: seq<string>)
    ensures forall e :: multiset(NonBlank(xs))[e] == (if e != [] then multiset(StripAll(xs))[e] else 0)
    decreases |xs|
  {
    if xs != [] {
      var front := xs[..|xs| - 1];
      var s := Strip(xs[|xs| - 1]);
      var kept := NonBlank(front);
      assert NonBlank(xs) == kept + (if s != [] then [s] else []);
      assert StripAll(xs) == StripAll(front) + [s] by { StripAllSnoc(xs); }
      NonBlankCounts(front);
      CountsSnoc(kept, StripAll(front), s, e => e != []);
    }
  }

  /** Index of the first title line of `lines` at or after `i`. */
  function FirstTitleFrom(lines: seq<string>, i: nat): (r: Option<nat>)
    requires i <= |lines|
    ensures r.Some? ==> i <= r.value < |lines| && IsTitleLine(lines[r.value])
    ensures r.Some? ==> forall j :: i <= j < r.value ==> !IsTitleLine(lines[j])
    ensures r.None? ==> forall j :: i <= j < |lines| ==> !IsTitleLine(lines[j])
    decreases |lines| - i
  {
    if i == |lines| then None
    else if IsTitleLine(lines[i]) then Some(i)
    else FirstTitleFrom(lines, i + 1)
  }

  /** The title of a block with these lines: the first title line among the
      first six lines, else the first line, else nothing. */
  function TitleOf(lines: seq<string>): (r: string)
    ensures lines == [] ==> r == ""
    ensures lines != [] ==> r in lines
    ensures IsTitleLine(r) || forall j :: 0 <= j < |lines| && j < TitleWindow ==> !IsTitleLine(lines[j])
    ensures IsTitleLine(r) ==> exists j :: 0 <= j < |lines| && j < TitleWindow && r == lines[j]
  {
    var head := Take(lines, TitleWindow);
    var found := FirstTitleFrom(head, 0);
    if found.Some? then
      var i := found.value;
      assert i < TitleWindow && head[i] == lines[i];
      head[i]
    else
      assert forall j :: 0 <= j < |lines| && j < TitleWindow ==> lines[j] == head[j];
      if lines != [] then lines[0] else ""
  }

  /** The title loop of `extract_jobs`. */
  method PickTitle(lines: seq<string>) returns (title: string)
    ensures title == TitleOf(lines)
  {
    title := "";
    var head := Take(lines, TitleWindow);
    for i := 0 to |head|
      invariant title == ""
      invariant FirstTitleFrom(head, i) == FirstTitleFrom(head, 0)
    {
      if IsTitleLine(head[i]) {
        title := head[i];
        break;
      }
    }
    if title == "" {
      title := if lines != [] then lines[0] else "";
    }
  }

  /** The cleaned role of a block. */
  function BlockRole(b: string): (r: string)
    ensures Collapsed(r)
  {
    CleanRoleText(TitleOf(NonBlankLines(b)))
  }

  // ---------------------------------------------------------------------------
  // Experience: re.search(r"(\d+\+?\s+years|\d+\s+years|mid[\- ]level|senior|junior|entry)", b, flags=re.I)

  /** First index at or after `i` that is not a digit, or `|t|`. */
  function DigitRunEnd(t: string, i: nat): (j: nat)
    requires i <= |t|
    ensures i <= j <= |t|
    ensures forall k :: i <= k < j ==> IsDigit(t[k])
    ensures j < |t| ==> !IsDigit(t[j])
    decreases |t| - i
  {
    if i == |t| || !IsDigit(t[i]) then i else DigitRunEnd(t, i + 1)
  }

  /** Length of a `\d+\+?\s+years` match at `i`. Backtracking cannot help:
      digits given back leave a digit where `+` or whitespace is needed, and
      whitespace given back leaves whitespace where `y` is needed. The second
      alternative `\d+\s+years` matches only where this one does. */
  function YearsAt(t: string, i: nat): (r: Option<nat>)
    ensures r.Some? ==> i + r.value <= |t| && r.value > 6 && IsDigit(t[i])
    ensures r.Some? ==> MatchesAt(t, i + r.value - 5, "years")
  {
    if i < |t| && IsDigit(t[i]) then
      var d := DigitRunEnd(t, i);
      var j := if d < |t| && t[d] == '+' then d + 1 else d;
      var w := SpaceRunEnd(t, j);
      if w > j && MatchesAt(t, w, "years") then Some(w + 5 - i) else None
    else None
  }

  /** `t[d..w]` splits a match of `\d+\+?\s+years` at `i` into its parts:
      digits up to `d`, an optional `+` up to `j`, whitespace up to `w`, then
      "years" in any case. */
  predicate YearsMatch(t: string, i: nat, d: nat, j: nat, w: nat) {
    && i < d <= j < w && w + 5 <= |t|
    && (forall k :: i <= k < d ==> IsDigit(t[k]))
    && (j == d || (j == d + 1 && t[d] == '+'))
    && (forall k :: j <= k < w ==> IsSpace(t[k]))
    && MatchesAt(t, w, "years")
  }

  /** `YearsAt` finds a match exactly when the text splits that way, and
      then its length is the length of that match. */
  lemma YearsAtMeans(t: string, i: nat)
    ensures YearsAt(t, i).Some? ==>
      exists d: nat, j: nat, w: nat :: YearsMatch(t, i, d, j, w) && YearsAt(t, i).value == w + 5 - i
    ensures forall d: nat, j: nat, w: nat :: YearsMatch(t, i, d, j, w) ==> YearsAt(t, i) == Some(w + 5 - i)
  {
    if YearsAt(t, i).Some? {
      var d := DigitRunEnd(t, i);
      var j := if d < |t| && t[d] == '+' then d + 1 else d;
      var w := SpaceRunEnd(t, j);
      assert YearsMatch(t, i, d, j, w);
    }
    forall d: nat, j: nat, w: nat | YearsMatch(t, i, d, j, w) ensures YearsAt(t, i) == Some(w + 5 - i) {
      YearsMatchUnique(t, i, d, j, w);
    }
  }

  lemma YearsMatchUnique(t: string, i: nat, d: nat, j: nat, w: nat)
    requires YearsMatch(t, i, d, j, w)
    ensures YearsAt(t, i) == Some(w + 5 - i)
  {
    assert !IsDigit(t[d]) by {
      if j == d { assert IsSpace(t[d]); }
    }
    var d' := DigitRunEnd(t, i);
    assert d' == d;
    assert t[w..w + 5][0] == t[w];
    assert LowerChar(t[w]) == 'y';
    assert !IsSpace(t[w]);
    var w' := SpaceRunEnd(t, j);
    assert w' == w;
  }

  /** `mid[\- ]level` at `i`, in any case. */
  predicate MidLevelAt(t: string, i: nat) {
    MatchesAt(t, i, "mid") && i + 4 < |t| && (t[i + 3] == '-' || t[i + 3] == ' ') && MatchesAt(t, i + 4, "level")
  }

  /** Length of the experience match at `i`, trying the alternatives in order. */
  function ExperienceAt(t: string, i: nat): (r: Option<nat>)
    ensures r.Some? ==> 0 < r.value && i + r.value <= |t|
    ensures r.None? <==> (YearsAt(t, i).None? && !MidLevelAt(t, i) && !MatchesAt(t, i, "senior")
                          && !MatchesAt(t, i, "junior") && !MatchesAt(t, i, "entry"))
    ensures YearsAt(t, i).Some? ==> r == YearsAt(t, i)
    ensures r.Some? && YearsAt(t, i).None? ==>
      || (MidLevelAt(t, i) && r.value == 9)
      || (MatchesAt(t, i, "senior") && r.value == 6)
      || (MatchesAt(t, i, "junior") && r.value == 6)
      || (MatchesAt(t, i, "entry") && r.value == 5)
  {
    var y := YearsAt(t, i);
    if y.Some? then y
    else if MidLevelAt(t, i) then Some(9)
    else if MatchesAt(t, i, "senior") then Some(6)
    else if MatchesAt(t, i, "junior") then Some(6)
    else if MatchesAt(t, i, "entry") then Some(5)
    else None
  }

  /** The experience phrase of a block as written there, or "Not specified":
      the leftmost match of the pattern, and "Not specified" only when nothing
      matches. */
  function Experience(b: string): (r: string)
    ensures r == NotSpecified || IsSubstring(r, b)
    ensures (forall i :: 0 <= i <= |b| ==> ExperienceAt(b, i).None?) ==> r == NotSpecified
    ensures (exists i :: 0 <= i <= |b| && ExperienceAt(b, i).Some?) ==>
      exists i :: 0 <= i <= |b| && OccursAt(b, i, r) && ExperienceAt(b, i) == Some(|r|)
        && forall j :: 0 <= j < i ==> ExperienceAt(b, j).None?
  {
    match FindFirst(b, ExperienceAt, 0)
    case None => NotSpecified
    case Some(i) =>
      var r := b[i..i + ExperienceAt(b, i).value];
      assert OccursAt(b, i, r);
      r
  }

  // ---------------------------------------------------------------------------
  // Skills and description

  /** The skills of a block: the skill block, else the inline keywords. */
  function SkillsOf(b: string): seq<string> {
    var s := ExtractSkillBlock(b);
    if s != [] then s else KeywordsIn(Lower(b), SkillKeywords)
  }

  /** At most twenty skills; each is a known keyword or a lower-case phrase of
      two or more characters without surrounding whitespace. */
  lemma SkillsOfBounds(b: string)
    ensures |SkillsOf(b)| <= MaxSkills
    ensures forall s :: s in SkillsOf(b) ==> s in SkillKeywords || (|s| > 1 && NoUpper(s) && NoEdgeSpace(s))
  {
    if ExtractSkillBlock(b) == [] {
      KeywordsInExactly(Lower(b), SkillKeywords);
      KeywordsInLength(Lower(b), SkillKeywords);
    }
  }

  lemma {:induction false} KeywordsInLength(s: string, kws: seq<string>)
    ensures |KeywordsIn(s, kws)| <= |kws|
    decreases |kws|
  {
    if kws != [] {
      KeywordsInLength(s, kws[..|kws| - 1]);
    }
  }

  /** `re.sub(r"\s{2,}", " ", b).strip()` */
  function Condense(b: string): (c: string)
    ensures NoEdgeSpace(c) && NoAdjacent(c, IsSpace)
  {
    var a := ReplaceRuns(b, IsSpace, 2, " ");
    ReplaceRunsNoAdjacent(b, IsSpace, 2, " ");
    var c := Strip(a);
    forall i | 1 <= i < |c| ensures !(IsSpace(c[i - 1]) && IsSpace(c[i])) {
      assert c[i - 1] == a[LeadingSpaces(a) + i - 1] && c[i] == a[LeadingSpaces(a) + i];
    }
    c
  }

  /** Text without edge whitespace and without two whitespace characters in a
      row is left as it is, so condensing twice is condensing once. */
  lemma CondenseFixpoint(b: string)
    requires NoEdgeSpace(b) && NoAdjacent(b, IsSpace)
    ensures Condense(b) == b
  {
    forall i | 0 <= i < |b| ensures RunLength(b[i..], IsSpace) < 2 {
      RunLengthUnderNoAdjacent(b, IsSpace, i);
    }
    RunsBelowFromAll(b, IsSpace, 2);
    ReplaceRunsFixpoint(b, IsSpace, 2, " ");
    StripOfStripped(b);
  }

  lemma CondenseIdempotent(b: string)
    ensures Condense(Condense(b)) == Condense(b)
  {
    CondenseFixpoint(Condense(b));
  }

  /** The description of a block: its condensed text, cut at 2000 characters
      with an ellipsis appended when longer. */
  function Description(b: string): (r: string)
    ensures |r| <= MaxDescription + 3
    ensures NoAdjacent(r, IsSpace)
    ensures Take(r, MaxDescription) == Take(Condense(b), MaxDescription)
    ensures |r| > MaxDescription <==> |Condense(b)| > MaxDescription
    ensures |r| > MaxDescription ==> r[MaxDescription..] == "..."
  {
    var c := Condense(b);
    if |c| > MaxDescription then
      var r := c[..MaxDescription] + "...";
      assert r[..MaxDescription] == c[..MaxDescription];
      forall i | 1 <= i < |r| ensures !(IsSpace(r[i - 1]) && IsSpace(r[i])) {
        if i < MaxDescription { assert r[i - 1] == c[i - 1] && r[i] == c[i]; }
        else { assert r[i] == '.'; }
      }
      r
    else c
  }

  // ---------------------------------------------------------------------------
  // Assembling the records

  /** The record built for a block. Each field keeps to its bounds: a
      collapsed role, an experience phrase taken from the text or "Not
      specified", at most twenty skills and a description of at most 2003
      characters. */
  function Record(b: string): (j: Job)
    ensures Collapsed(j.role)
    ensures j.experience == NotSpecified || IsSubstring(j.experience, b)
    ensures |j.skills| <= MaxSkills
    ensures |j.description| <= MaxDescription + 3
  {
    var skills := SkillsOf(b);
    assert |skills| <= MaxSkills by { SkillsOfBounds(b); }
    Job(BlockRole(b), Experience(b), skills, Description(b))
  }

  function Records(blocks: seq<string>, rec: string -> Job): (r: seq<Job>)
    ensures |r| == |blocks|
    ensures forall k :: 0 <= k < |r| ==> r[k] == rec(blocks[k])
  {
    seq(|blocks|, k requires 0 <= k < |blocks| => rec(blocks[k]))
  }

  /** The normalised roles of the records so far (`seen_titles`). */
  function KeysOf(jobs: seq<Job>, key: string -> string): set<string> {
    set j | j in jobs :: key(j.role)
  }

  /** The records `rec` gives for the blocks, skipping records without a role
      and records whose normalised role was already seen. */
  function AssembleWith(blocks: seq<string>, rec: string -> Job, key: string -> string): seq<Job>
    decreases |blocks|
  {
    if blocks == [] then []
    else
      var prev := AssembleWith(blocks[..|blocks| - 1], rec, key);
      var j := rec(blocks[|blocks| - 1]);
      if j.role == "" || key(j.role) in KeysOf(prev, key) then prev else prev + [j]
  }

  /** The record loop of `extract_jobs`. */
  function Assemble(blocks: seq<string>): seq<Job> {
    AssembleWith(blocks, Record, TitleKey)
  }

  /** The generic record returned when no block yields a record. */
  function Fallback(text: string): (j: Job)
    ensures j.role == UnknownRole && j.experience == NotSpecified && j.skills == []
    ensures |j.description| <= FallbackLength && |j.description| <= |text| && j.description == text[..|j.description|]
    ensures |j.description| == Min(FallbackLength, |text|)
  {
    Job(UnknownRole, NotSpecified, [], Take(text, FallbackLength))
  }

  /** The blocks `extract_jobs` reads: the structural candidates when there
      are any, else the kept parts of the text. */
  function Blocks(text: string, structural: seq<string>): seq<string> {
    if structural != [] then structural else KeptBlocks(Parts(text))
  }

  /** `extract_jobs` without the language model. */
  function ExtractJobsSpec(text: string, structural: seq<string>): seq<Job> {
    var jobs := Assemble(Blocks(text, structural));
    if jobs == [] then [Fallback(text)] else jobs
  }

  lemma KeysOfSnoc(jobs: seq<Job>, j: Job, key: string -> string)
    ensures KeysOf(jobs + [j], key) == KeysOf(jobs, key) + {key(j.role)}
  {
    assert forall x :: x in jobs + [j] <==> x in jobs || x == j;
  }

  /** One step of the record loop. */
  lemma AssembleStep(blocks: seq<string>, i: nat)
    requires i < |blocks|
    ensures Assemble(blocks[..i + 1]) ==
      var prev := Assemble(blocks[..i]);
      var role := BlockRole(blocks[i]);
      if role == "" || TitleKey(role) in KeysOf(prev, TitleKey) then prev else prev + [Record(blocks[i])]
  {
    assert blocks[..i + 1][..i] == blocks[..i];
  }

  /** The rest of a block's record once its role is known: experience,
      skills (with the keyword fallback) and description. */
  method FinishRecord(b: string, title: string) returns (job: Job)
    requires title == BlockRole(b)
    ensures job == Record(b)
  {
    var exp := Experience(b);
    var skills := ExtractSkillBlock(b);
    if skills == [] {
      skills := KeywordSkills(b);
    }
    var desc := Description(b);
    job := Job(title, exp, skills, desc);
  }

  /** The record loop of `extract_jobs` over the blocks. */
  method AssembleJobs(blocks: seq<string>) returns (jobs: seq<Job>)
    ensures jobs == Assemble(blocks)
  {
    jobs := [];
    var seen: set<string> := {};
    for i := 0 to |blocks|
      invariant jobs == Assemble(blocks[..i])
      invariant seen == KeysOf(jobs, TitleKey)
    {
      var b := blocks[i];
      AssembleStep(blocks, i);
      var title := PickTitle(NonBlankLines(b));
      title := CleanRoleText(title);
      var norm := TitleKey(title);
      if title == [] || norm in seen {
        continue;
      }
      seen := seen + {norm};
      var job := FinishRecord(b, title);
      KeysOfSnoc(jobs, job, TitleKey);
      jobs := jobs + [job];
    }
    assert blocks[..|blocks|] == blocks;
  }

  /** The heuristic body of `Chain.extract_jobs`. `structural` stands for the
      job-card texts an HTML parse found (none when the parser is absent). */
  method ExtractJobs(cleanedText: string, structural: seq<string>) returns (jobs: seq<Job>)
    ensures jobs == ExtractJobsSpec(cleanedText, structural)
  {
    var blocks := structural;
    if blocks == [] {
      blocks := TextBlocks(cleanedText);
    }
    jobs := AssembleJobs(blocks);
    if jobs == [] {
      jobs := [Fallback(cleanedText)];
    }
  }

  // ---------------------------------------------------------------------------
  // Properties of the assembled records

  /** Every record has a role, and no two records share a normalised role. */
  lemma {:induction false} AssembleDistinct(blocks: seq<string>, rec: string -> Job, key: string -> string)
    ensures forall j :: j in AssembleWith(blocks, rec, key) ==> j.role != ""
    ensures forall a, c :: 0 <= a < c < |AssembleWith(blocks, rec, key)| ==>
      key(AssembleWith(blocks, rec, key)[a].role) != key(AssembleWith(blocks, rec, key)[c].role)
    decreases |blocks|
  {
    if blocks != [] {
      var front := blocks[..|blocks| - 1];
      var prev := AssembleWith(front, rec, key);
      AssembleDistinct(front, rec, key);
      var j := rec(blocks[|blocks| - 1]);
      if !(j.role == "" || key(j.role) in KeysOf(prev, key)) {
        var jobs := prev + [j];
        forall a, c | 0 <= a < c < |jobs| ensures key(jobs[a].role) != key(jobs[c].role) {
          if c == |prev| {
            assert jobs[a] in prev;
          }
        }
      }
    }
  }

  /** Every record is the record of one of the blocks, and records keep the
      order of their blocks. */
  lemma {:induction false} AssembleInOrder(blocks: seq<string>, rec: string -> Job, key: string -> string)
    ensures SubsequenceOf(AssembleWith(blocks, rec, key), Records(blocks, rec))
    decreases |blocks|
  {
    if blocks == [] {
      SubsequenceOfEmpty(Records(blocks, rec));
    } else {
      var front := blocks[..|blocks| - 1];
      AssembleInOrder(front, rec, key);
      var j := rec(blocks[|blocks| - 1]);
      assert Records(blocks, rec) == Records(front, rec) + [j];
      SubsequenceExtend(AssembleWith(front, rec, key), Records(front, rec), j);
    }
  }

  /** Every block whose record has a role is represented by a record with the
      same normalised role. */
  lemma {:induction false} AssembleComplete(blocks: seq<string>, rec: string -> Job, key: string -> string)
    ensures forall b :: b in blocks && rec(b).role != "" ==> key(rec(b).role) in KeysOf(AssembleWith(blocks, rec, key), key)
    decreases |blocks|
  {
    if blocks != [] {
      var front := blocks[..|blocks| - 1];
      AssembleComplete(front, rec, key);
      var prev := AssembleWith(front, rec, key);
      var j := rec(blocks[|blocks| - 1]);
      if !(j.role == "" || key(j.role) in KeysOf(prev, key)) {
        KeysOfSnoc(prev, j, key);
      }
      assert blocks == front + [blocks[|blocks| - 1]];
    }
  }

  /** The result of `extract_jobs` is never empty: it is the generic record
      when no block yields a record, and otherwise records that all have a
      role and pairwise distinct normalised roles. */
  lemma ExtractJobsShape(text: string, structural: seq<string>)
    ensures |ExtractJobsSpec(text, structural)| >= 1
    ensures Assemble(Blocks(text, structural)) == [] ==> ExtractJobsSpec(text, structural) == [Fallback(text)]
    ensures Assemble(Blocks(text, structural)) != [] ==>
      forall a, c :: 0 <= a < c < |ExtractJobsSpec(text, structural)| ==>
        TitleKey(ExtractJobsSpec(text, structural)[a].role) != TitleKey(ExtractJobsSpec(text, structural)[c].role)
    ensures Assemble(Blocks(text, structural)) != [] ==> forall j :: j in ExtractJobsSpec(text, structural) ==> j.role != ""
  {
    AssembleDistinct(Blocks(text, structural), Record, TitleKey);
  }

  /** An empty page yields only the generic record. */
  lemma EmptyPageFallback()
    ensures ExtractJobsSpec("", []) == [Job(UnknownRole, NotSpecified, [], "")]
  {
    assert SplitWhere("", MarkerLen) == [""];
    assert SplitWhere("", BlankLinesLen) == [""];
    assert Parts("") == [""];
    assert Strip("") == "";
    assert KeptBlocks([""]) == KeptBlocks([]) + [];
  }
}
