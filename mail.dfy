/** `Chain.write_mail` (app/chains.py): a plain-text cold email naming the
    role, up to three skills and up to five portfolio links. */
module Mail {
  import opened TextUtil

  const DefaultRole: string := "the role"
  const NoSkillsPhrase: string := "relevant experience"
  const SamplesHeader: string := "Here are a few relevant work samples:"
  const ClosingLine: string := "\n" + "Would love to discuss how I can contribute to your team."
  const Closing: string := "\n\n" + "Best regards," + "\n" + "[Your Name]" + "\n" + "[Your Email]"
  const Opening: string := "Hi," + "\n\n" + "I came across the "

  /** At most this many skills are named, and at most this many links listed. */
  const MaxNamedSkills: nat := 3
  const MaxLinks: nat := 5

  /** `job.get("role", "the role")` */
  function RoleOrDefault(role: Option<string>): string {
    if role.Some? then role.value else DefaultRole
  }

  /** `job.get("skills", []) or []` */
  function SkillsOrDefault(skills: Option<seq<string>>): seq<string> {
    if skills.Some? then skills.value else []
  }

  /** The skill phrase: the first three skills joined by ", ", or
      "relevant experience" when there are none. */
  function SkillPhrase(skills: seq<string>): string {
    var top := Take(skills, MaxNamedSkills);
    if top != [] then Join(top, ", ") else NoSkillsPhrase
  }

  const IntroTail: string := " opening on your careers page and wanted to introduce myself."

  function Intro(role: string): string {
    Opening + role + IntroTail
  }

  function SkillLine(skills: seq<string>): string {
    "I have " + SkillPhrase(skills) + " and experience that aligns with this role."
  }

  function LinkLines(urls: seq<string>): (r: seq<string>)
    ensures |r| == |urls|
    ensures forall k :: 0 <= k < |r| ==> r[k] == "- " + urls[k]
  {
    seq(|urls|, k requires 0 <= k < |urls| => "- " + urls[k])
  }

  /** `body_lines` once filled. */
  function BodyLines(skills: seq<string>, links: seq<string>): seq<string> {
    [SkillLine(skills)]
    + (if links != [] then [SamplesHeader] + LinkLines(Take(links, MaxLinks)) else [])
    + [ClosingLine]
  }

  /** The email for a resolved role and skill list. */
  function Compose(role: string, skills: seq<string>, links: seq<string>): string {
    Join([Intro(role), Join(BodyLines(skills, links), "\n"), Closing], "\n\n")
  }

  /** `write_mail(job, links)`; a missing key is `None`. */
  function MailText(role: Option<string>, skills: Option<seq<string>>, links: seq<string>): string {
    Compose(RoleOrDefault(role), SkillsOrDefault(skills), links)
  }

  /** `Chain.write_mail`. */
  method WriteMail(role: Option<string>, skills: Option<seq<string>>, links: seq<string>) returns (mail: string)
    ensures mail == MailText(role, skills, links)
  {
    var r := if role.Some? then role.value else DefaultRole;
    var sk := if skills.Some? then skills.value else [];
    var intro := Intro(r);
    var first := SkillLine(sk);
    var bodyLines := [first];
    if links != [] {
      bodyLines := bodyLines + [SamplesHeader];
      var shown := Take(links, MaxLinks);
      for i := 0 to |shown|
        invariant bodyLines == [first, SamplesHeader] + LinkLines(shown[..i])
      {
        LinkLinesStep(shown, i);
        bodyLines := bodyLines + ["- " + shown[i]];
      }
      assert shown[..|shown|] == shown;
      assert bodyLines == [first] + ([SamplesHeader] + LinkLines(shown));
    } else {
      assert bodyLines == [first] + [];
    }
    bodyLines := bodyLines + [ClosingLine];
    assert bodyLines == BodyLines(sk, links);
    mail := Join([intro, Join(bodyLines, "\n"), Closing], "\n\n");
  }

  lemma LinkLinesStep(urls: seq<string>, i: nat)
    requires i < |urls|
    ensures LinkLines(urls[..i + 1]) == LinkLines(urls[..i]) + ["- " + urls[i]]
  {
  }

  // ---------------------------------------------------------------------------
  // Layout of the email

  lemma Join3(a: string, b: string, c: string, sep: string)
    ensures Join([a, b, c], sep) == a + sep + b + sep + c
  {
    var xs := [a, b, c];
    assert xs[1..] == [b, c];
    assert xs[1..][1..] == [c];
    assert Join([b, c], sep) == b + sep + c;
    assert Join(xs, sep) == a + sep + (b + sep + c);
  }

  /** The email is the introduction, the body lines and the closing, separated
      by blank lines. */
  lemma ComposeLayout(role: string, skills: seq<string>, links: seq<string>)
    ensures Compose(role, skills, links) == Intro(role) + "\n\n" + Join(BodyLines(skills, links), "\n") + "\n\n" + Closing
  {
    Join3(Intro(role), Join(BodyLines(skills, links), "\n"), Closing, "\n\n");
  }

  /** In `o + x + t + s + b + s + c`, `o` starts at 0, `x` follows it and `c`
      ends the text. */
  lemma FrameOf(o: string, x: string, t: string, s: string, b: string, c: string)
    ensures OccursAt(o + x + t + s + b + s + c, 0, o)
    ensures OccursAt(o + x + t + s + b + s + c, |o|, x)
    ensures OccursAt(o + x + t + s + b + s + c, |o + x + t + s + b + s + c| - |c|, c)
  {
    var m := o + x + t + s + b + s + c;
    var rest := t + s + b + s;
    assert m == o + x + rest + c;
    assert m[..|o|] == o;
    assert m[|o|..|o| + |x|] == x;
    assert m[|m| - |c|..] == c;
  }

  /** The email opens with the greeting, names the role right after it and
      ends with the signature block. */
  lemma ComposeFrame(role: string, skills: seq<string>, links: seq<string>)
    ensures OccursAt(Compose(role, skills, links), 0, Opening)
    ensures OccursAt(Compose(role, skills, links), |Opening|, role)
    ensures |Closing| <= |Compose(role, skills, links)|
    ensures OccursAt(Compose(role, skills, links), |Compose(role, skills, links)| - |Closing|, Closing)
  {
    ComposeLayout(role, skills, links);
    FrameOf(Opening, role, IntroTail, "\n\n", Join(BodyLines(skills, links), "\n"), Closing);
  }

  /** The body holds the skill line, then (only when there are links) the
      samples header and one line per link for the first five links, then the
      closing line. */
  lemma BodyLinesShape(skills: seq<string>, links: seq<string>)
    ensures var body := BodyLines(skills, links);
      && |body| == (if links == [] then 2 else 3 + Min(|links|, MaxLinks))
      && body[0] == SkillLine(skills)
      && body[|body| - 1] == ClosingLine
      && (links != [] ==> body[1] == SamplesHeader && forall k :: 0 <= k < Min(|links|, MaxLinks) ==> body[2 + k] == "- " + links[k])
      && (SamplesHeader in body <==> links != [])
  {
    var body := BodyLines(skills, links);
    if links == [] {
      assert body == [SkillLine(skills), ClosingLine];
      LineStarts(skills);
    } else {
      assert body[1] == SamplesHeader;
    }
  }

  lemma LineStarts(skills: seq<string>)
    ensures SkillLine(skills) != SamplesHeader && ClosingLine != SamplesHeader
  {
    assert SkillLine(skills)[0] == 'I';
    assert SamplesHeader[0] == 'H';
    assert ClosingLine[0] == "\n"[0] == '\n';
  }

  /** Each of the first three skills appears in the skill phrase, in order;
      without skills the phrase is "relevant experience". */
  lemma SkillPhraseNames(skills: seq<string>)
    ensures skills == [] ==> SkillPhrase(skills) == NoSkillsPhrase
    ensures forall k :: 0 <= k < Min(|skills|, MaxNamedSkills) ==>
      OccursAt(SkillPhrase(skills), JoinOffset(Take(skills, MaxNamedSkills), ", ", k), skills[k])
  {
    var top := Take(skills, MaxNamedSkills);
    forall k | 0 <= k < Min(|skills|, MaxNamedSkills)
      ensures OccursAt(SkillPhrase(skills), JoinOffset(top, ", ", k), skills[k])
    {
      JoinElementAt(top, ", ", k);
    }
  }

  /** Where the line of the `k`-th link starts inside the email. */
  function LinkOffset(role: string, skills: seq<string>, links: seq<string>, k: nat): nat
    requires k < Min(|links|, MaxLinks)
  {
    BodyLinesShape(skills, links);
    |Intro(role)| + 2 + JoinOffset(BodyLines(skills, links), "\n", 2 + k)
  }

  /** Each of the first five links appears in the email as a "- " line, in
      the order of the list. */
  lemma LinksInMail(role: string, skills: seq<string>, links: seq<string>)
    ensures forall k :: 0 <= k < Min(|links|, MaxLinks) ==>
      OccursAt(Compose(role, skills, links), LinkOffset(role, skills, links, k), "- " + links[k])
    ensures forall k :: 0 < k < Min(|links|, MaxLinks) ==>
      LinkOffset(role, skills, links, k - 1) < LinkOffset(role, skills, links, k)
  {
    forall k | 0 <= k < Min(|links|, MaxLinks)
      ensures OccursAt(Compose(role, skills, links), LinkOffset(role, skills, links, k), "- " + links[k])
    {
      LinkInMail(role, skills, links, k);
    }
    forall k | 0 < k < Min(|links|, MaxLinks)
      ensures LinkOffset(role, skills, links, k - 1) < LinkOffset(role, skills, links, k)
    {
      BodyLinesShape(skills, links);
    }
  }

  lemma LinkInMail(role: string, skills: seq<string>, links: seq<string>, k: nat)
    requires k < Min(|links|, MaxLinks)
    ensures OccursAt(Compose(role, skills, links), LinkOffset(role, skills, links, k), "- " + links[k])
  {
    var body := BodyLines(skills, links);
    assert 2 + k < |body| && body[2 + k] == "- " + links[k] by { BodyLinesShape(skills, links); }
    var joined := Join(body, "\n");
    var front := Intro(role) + "\n\n";
    var back := "\n\n" + Closing;
    var o := JoinOffset(body, "\n", 2 + k);
    assert OccursAt(joined, o, body[2 + k]) by { JoinElementAt(body, "\n", 2 + k); }
    assert Compose(role, skills, links) == front + joined + back by {
      ComposeLayout(role, skills, links);
      MiddleLayout(front, joined, "\n\n", Closing);
    }
    OccursInMiddle(front, joined, back, o, body[2 + k]);
  }

  lemma MiddleLayout(front: string, b: string, s: string, c: string)
    ensures front + b + s + c == front + b + (s + c)
  {
  }
}
