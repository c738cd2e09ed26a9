# Cold-email generator core, modelled in Dafny

This project models the deterministic core of a cold-email generator for job
postings. The generator reads a careers page and writes one outreach email
per job. The modelled core has four parts:

- **Text cleaning** (`clean_text`): turns CRLF into LF and collapses runs of
  spaces and tabs. It also shortens runs of three or more newlines to two and
  trims the result.
- **Job extraction** (the heuristic path of `Chain.extract_jobs`):
  - The page text is split into blocks on job-boundary markers ("View Job",
    "Apply", "Job", ...). The split falls back to blank lines when no marker
    occurs.
  - A block is dropped when it is short or looks like pagination or filter
    chrome.
  - Each remaining block becomes a record with a role, an experience phrase,
    skills and a trimmed description.
  - Records whose normalised role was already seen are dropped.
  - A single generic record is returned when nothing qualifies.
  - The role comes from `_clean_role_text` and the skills from
    `_extract_skill_block`, with a fixed keyword list as the fallback.
- **Email writing** (`Chain.write_mail`): names the role, at most three
  skills and at most five portfolio links in a fixed template.
- **Portfolio lookup** (`Portfolio.query_links`): returns the URLs of the
  portfolio rows whose skills overlap a query. The list is deduplicated in
  first-seen order and capped at ten.

Modules, one per concern:

| module | file | models |
|---|---|---|
| `TextUtil` | text.dfy | the Python string primitives the core uses: `str.strip`, `str.lower`, `re.sub` of character-class runs, `re.split`, `str.splitlines`, `str.join`, slicing |
| `Utils` | utils.dfy | `clean_text` (app/utils.py) |
| `RoleText` | roles.dfy | `_clean_role_text` and the normalised title key of `extract_jobs` |
| `SkillBlock` | skills.dfy | `_extract_skill_block` and the inline keyword fallback |
| `Segmenter` | segment.dfy | the text path of block segmentation: `SPLIT_MARKERS`, the blank-line fallback and the noise filter |
| `Extraction` | extract.dfy | `ROLE_KEYWORDS`, the record loop and the fallback record of `extract_jobs` |
| `Mail` | mail.dfy | `write_mail` |
| `PortfolioLinks` | portfolio.dfy | the `Portfolio` class and `query_links` |

Form of the model:

- The pure parts (`clean_text`, `_clean_role_text`, `_extract_skill_block`)
  are functions, with lemmas about them.
- The loops of `extract_jobs`, `write_mail` and `query_links` are methods
  with loop invariants. Each method is proved equal to a specification
  function, and the properties the code promises are proved about those
  functions.
- `Portfolio` is a class. Its table (`self.data`) is the field `rows`.
- The `Chain` object has no state besides an optional language-model client.
  That client is absent here, so `ExtractJobs` and `WriteMail` are
  module-level methods.
- The HTML parse that may supply job cards becomes the parameter
  `structural`: a non-empty sequence replaces the text split.

## Model

| member | source | states |
|---|---|---|
| `Utils.CleanText` | app/utils.py:3-10 | `None` gives `""`; otherwise the result is never longer than the input, has no leading or trailing whitespace, no two adjacent spaces or tabs and no three consecutive newlines |
| `Utils.ReplaceCrlfWithoutCr` | app/utils.py:7 | the CRLF substitution leaves text without `\r` unchanged |
| `Utils.ReplaceRunsNoTriple` | app/utils.py:9 | after newline runs of three or more become two newlines, no three consecutive newlines remain |
| `Utils.StripKeepsRuns` | app/utils.py:10 | trimming keeps both run bounds (no adjacent blanks, no newline triple) |
| `Utils.NoBlanksNoNewlinePairsFixpoint` | app/utils.py:8-9 | text with no spaces or tabs and no two adjacent newlines is unchanged by the two run substitutions |
| `Utils.CleanTextIdempotent` | app/utils.py:7-10 | on input without `\r`, cleaning the cleaned text gives it back unchanged |
| `Utils.CleanTextNotIdempotentWithCr` | app/utils.py:7-10 | with `\r` cleaning is not always idempotent: `"a\r\r\nb"` cleans to `"a\r\nb"`, which cleans to `"a\nb"` |
| `TextUtil.Lower` | app/chains.py:52 | lower-casing keeps the length and maps every character through the ASCII lower-case map |
| `TextUtil.LowerOfLower` | app/chains.py:153 | text with no upper-case letter is its own lower-case form |
| `TextUtil.Strip` | app/utils.py:10 | the result has no edge whitespace and is the slice of the input between a whitespace-only prefix and a whitespace-only suffix |
| `TextUtil.StripOfStripped` | app/chains.py:130 | trimming already-trimmed text changes nothing |
| `TextUtil.ReplaceRunsNoAdjacent` | app/chains.py:29 | replacing every run of a class by one character of that class leaves no two adjacent class characters |
| `TextUtil.ReplaceRunsKeepsNoAdjacent` | app/utils.py:8-9 | replacing runs of one class does not create adjacent characters of a disjoint class |
| `TextUtil.ReplaceRunsFixpoint` | app/utils.py:8-9 | when every run is shorter than the threshold, the substitution changes nothing |
| `TextUtil.SplitWhereRoundTrip` | app/chains.py:125 | interleaving the parts of `re.split` with the matched separators rebuilds the input exactly |
| `TextUtil.SplitWhereAvoids` | app/chains.py:50 | when every occurrence of a character starts a separator match, no part contains that character |
| `TextUtil.SplitComma` | app/portfolio.py:23 | no piece of `split(",")` contains a comma, and joining the pieces with commas gives the input back |
| `TextUtil.SplitLines` | app/chains.py:142 | no line contains a line break, and there are no lines exactly when the text is empty |
| `TextUtil.SplitLinesJoin` | app/chains.py:142 | for text whose only line breaks are `\n` and that does not end in one, joining the lines with `\n` gives the text back |
| `TextUtil.JoinElementAt` | app/chains.py:214 | each element of a join occurs in the joined string at its offset |
| `TextUtil.FindFirst` | app/chains.py:160 | the search position is the leftmost match, and `None` means no position matches |
| `RoleText.CollapseSpace` | app/chains.py:29 | after `\s+` becomes one space and the text is trimmed, no edge whitespace and no two adjacent whitespace characters remain, and every whitespace character is a plain space |
| `RoleText.CollapseSpaceFixpoint` | app/chains.py:29 | text that is already collapsed is left unchanged, so collapsing twice is collapsing once |
| `RoleText.CallToActionAt` | app/chains.py:30 | a match is found exactly when one of "view job", "apply", "learn more" or "see details" starts there, case-insensitively, on word boundaries |
| `RoleText.CutCallToAction` | app/chains.py:30 | the result is a prefix of the input |
| `RoleText.CutCallToActionLeftmost` | app/chains.py:30 | the cut is at the leftmost call-to-action phrase, and there is no cut when no phrase occurs |
| `RoleText.DropTrailingSeparators` | app/chains.py:31 | the result is a prefix that ends at the leftmost position where a run of separators followed only by whitespace reaches the end; no earlier position matches, and with no match nothing is removed |
| `RoleText.DropTrailingParen` | app/chains.py:32 | the result is a prefix that ends at the leftmost position where whitespace, a parenthesised group and whitespace reach the end; no earlier position matches, and with no match nothing is removed |
| `RoleText.StripSeparators` | app/chains.py:31 | the result is a trimmed prefix of the input lying before every separator-tail match; between its end and the leftmost match (or the end of the input) there is only whitespace; with no match it is the trimmed input |
| `RoleText.StripParen` | app/chains.py:32 | the result is a trimmed prefix of the input lying before every parenthesis-tail match; between its end and the leftmost match (or the end of the input) there is only whitespace; with no match it is the trimmed input |
| `RoleText.CleanRoleText` | app/chains.py:28-33 | the cleaned role has no edge whitespace and no whitespace run, every whitespace character is a space, and it is a prefix of the whitespace-collapsed input |
| `RoleText.TitleKey` | app/chains.py:153 | the key is lower-case and trimmed, and holds only word characters and lone spaces |
| `RoleText.KeyIsFixpoint` | app/chains.py:153 | text already in key form is its own key |
| `RoleText.TitleKeyIdempotent` | app/chains.py:153 | normalising a key again gives the same key |
| `SkillBlock.HeaderAt` | app/chains.py:37 | a header word matches at a position exactly when one of the five header phrases starts there, case-insensitively |
| `SkillBlock.HeaderEnd` | app/chains.py:37-40 | the search fails exactly when no header phrase occurs; otherwise the tail starts right after the header phrase at the leftmost position where one matches |
| `SkillBlock.HeadersExclusive` | app/chains.py:37 | at most one header phrase matches at a position, so the header end is determined by its start |
| `SkillBlock.BulletAt` | app/chains.py:42 | a bullet is found exactly when the position starts a line with `-`, `•` or `*` and a character other than a newline follows after whitespace; its text starts after that whitespace and runs to the end of the line |
| `SkillBlock.Bullets` | app/chains.py:42 | each bullet text is non-empty and stays within one line |
| `SkillBlock.BulletsFindAll` | app/chains.py:42 | with no bullet match from a position on there are no bullets; otherwise the list is the leftmost match's text followed by the bullets after it, so every match is listed, in text order |
| `SkillBlock.BulletsAreLineFragments` | app/chains.py:42 | every bullet text is a slice of a single line of the tail |
| `SkillBlock.LongStripped` | app/chains.py:44 | kept items are trimmed and longer than one character, and every item whose trimmed form is longer than one character is kept |
| `SkillBlock.LongStrippedInOrder` | app/chains.py:44 | kept items appear in the order of the items they were trimmed from |
| `SkillBlock.LongStrippedCounts` | app/chains.py:44 | repeats are kept: each text longer than one character is kept exactly as often as it occurs among the trimmed items, and no other text is kept; with `LongStrippedInOrder` this fixes the result |
| `SkillBlock.LowerAll` | app/chains.py:52 | lower-cases every item, keeping order and count |
| `SkillBlock.ExtractSkillBlock` | app/chains.py:35-52 | the skills are the first `min(20, n)` of the n raw skills, lower-cased, in order and with repeats; each is lower-case, trimmed and longer than one character; none when no header phrase occurs anywhere |
| `SkillBlock.CapLowered` | app/chains.py:52 | `[s.lower() for s in raw][:20]` keeps the first `min(20, len(raw))` items, each lower-cased, in order |
| `SkillBlock.SkillsComplete` | app/chains.py:42-52 | when at most 20 pieces survive the length filter, every bullet after the header (or every phrase, when there are no bullets) whose trimmed text is longer than one character is a skill, lower-cased |
| `SkillBlock.SkillsFromSource` | app/chains.py:42-52 | every skill is the lower-cased, trimmed text of a bullet after the header when bullets exist, and of a phrase only when there are none |
| `SkillBlock.SkillFromRaw` | app/chains.py:44-52 | every skill is the lower-cased form of a raw bullet or phrase |
| `SkillBlock.BulletSkillsAreLineFragments` | app/chains.py:42-44 | when bullets exist, every skill is a lower-cased slice of one line of the text |
| `SkillBlock.PhraseSkillsHaveNoSeparators` | app/chains.py:46-50 | without bullets, no skill contains `;`, `,`, `/` or a line break |
| `SkillBlock.HasKeywordMeans` | app/chains.py:172 | a keyword is found exactly when it occurs between word boundaries |
| `SkillBlock.KeywordsInExactly` | app/chains.py:168-174 | the found keywords are exactly the listed keywords that occur as whole words, in list order |
| `SkillBlock.KeywordSkills` | app/chains.py:167-174 | the loop returns the keywords found in the lower-cased block |
| `Segmenter.SplitWhereSingle` | app/chains.py:127 | `re.split` returns one part exactly when the separator matches nowhere |
| `Segmenter.PartsFallback` | app/chains.py:124-128 | the blank-line split is used exactly when no split marker occurs in the text |
| `Segmenter.KeptBlocksExactly` | app/chains.py:129-136 | every kept block is trimmed, at least 30 characters long and free of noise patterns; every part that passes the filter is kept |
| `Segmenter.KeptBlocksInOrder` | app/chains.py:129-136 | kept blocks appear in the order of their parts |
| `Segmenter.TextBlocks` | app/chains.py:122-136 | the loop returns the kept blocks of the parts |
| `Segmenter.FilterWidgetIsNoise` | app/chains.py:134 | a part holding "Page 2" is dropped as noise |
| `Extraction.RoleKeywordAt` | app/chains.py:25 | a role keyword matches at a position exactly when one of the `ROLE_KEYWORDS` starts there, case-insensitively |
| `Extraction.HasRoleKeywordMeans` | app/chains.py:146 | a line has a role keyword exactly when some keyword occurs somewhere in it |
| `Extraction.NonBlankLines` | app/chains.py:142 | every line is non-empty and trimmed; every line of the block that is not blank appears trimmed, and every kept line is a trimmed line of the block |
| `Extraction.NonBlank` | app/chains.py:142 | every kept item is non-empty and trimmed; every item that is not blank is kept trimmed, and every kept item comes from an item |
| `Extraction.NonBlankInOrder` | app/chains.py:142 | the kept lines appear in the order of the lines they were trimmed from |
| `Extraction.NonBlankCounts` | app/chains.py:142 | repeats are kept: each non-empty text is kept exactly as often as it occurs among the trimmed lines, and the empty text never; with `NonBlankInOrder` this fixes the result |
| `Extraction.FirstTitleFrom` | app/chains.py:145-148 | the index found is the first title line from the start index, and `None` means there is none |
| `Extraction.TitleOf` | app/chains.py:143-151 | the title is the first title line among the first six lines, or else the first line, or `""` when there are no lines |
| `Extraction.PickTitle` | app/chains.py:143-151 | the title loop returns the title of the lines |
| `Extraction.BlockRole` | app/chains.py:142-152 | a block's role is collapsed text |
| `Extraction.YearsAt` | app/chains.py:160 | a years match starts with a digit and ends with "years" |
| `Extraction.YearsAtMeans` | app/chains.py:160 | a years match is found exactly when the text splits into digits, an optional `+`, whitespace and "years" in any case, and its length is that of the split |
| `Extraction.ExperienceAt` | app/chains.py:160 | no match exactly when no alternative matches; a years phrase wins; otherwise the length is 9 for "mid-level"/"mid level", 6 for "senior" or "junior" and 5 for "entry" |
| `Extraction.Experience` | app/chains.py:159-162 | the experience is a substring of the block taken at the leftmost match with that match's length, with no match before it, and "Not specified" exactly when the pattern matches nowhere |
| `Extraction.SkillsOfBounds` | app/chains.py:164-174 | a block has at most 20 skills, each a known keyword or a lower-case trimmed phrase longer than one character |
| `Extraction.Condense` | app/chains.py:178 | the condensed block has no edge whitespace and no two adjacent whitespace characters |
| `Extraction.CondenseFixpoint` | app/chains.py:178 | text with no edge whitespace and no two adjacent whitespace characters is left unchanged |
| `Extraction.CondenseIdempotent` | app/chains.py:178 | condensing twice is condensing once |
| `Extraction.Description` | app/chains.py:176-180 | at most 2003 characters; the first 2000 agree with the condensed block; longer than 2000 exactly when the condensed block is, and then it ends with "..." |
| `Extraction.Record` | app/chains.py:158-187 | a record has a collapsed role, experience taken from the block or "Not specified", at most 20 skills and a description of at most 2003 characters |
| `Extraction.Fallback` | app/chains.py:190-196 | the generic record is "Unknown role", "Not specified", no skills, and the first `min(1500, len(text))` characters of the text |
| `Extraction.AssembleStep` | app/chains.py:140-156 | one step of the loop skips a block with an empty or already-seen role and appends its record otherwise |
| `Extraction.FinishRecord` | app/chains.py:158-187 | experience, skills with the keyword fallback, and description give the block's record |
| `Extraction.AssembleJobs` | app/chains.py:138-187 | the loop with the `seen_titles` set returns the assembled records |
| `Extraction.ExtractJobs` | app/chains.py:95-197 | the method returns the specified records for the text and the structural blocks |
| `Extraction.AssembleDistinct` | app/chains.py:139-156 | every record has a non-empty role, and no two records share a normalised role |
| `Extraction.AssembleInOrder` | app/chains.py:140-187 | records appear in block order |
| `Extraction.AssembleComplete` | app/chains.py:140-156 | every block with a non-empty role has its normalised role among the records |
| `Extraction.ExtractJobsShape` | app/chains.py:189-197 | the result is never empty; with no record it is exactly the fallback record; otherwise roles are non-empty and their normalised forms are distinct |
| `Extraction.EmptyPageFallback` | app/chains.py:189-197 | an empty page with no structural blocks yields the single record with an empty description |
| `Mail.LinkLines` | app/chains.py:210-211 | one line per link, in order, each "- " followed by the link |
| `Mail.WriteMail` | app/chains.py:199-214 | the loop-built email equals the email template for the role, the skills and the links |
| `Mail.ComposeLayout` | app/chains.py:214 | the email is intro, body and closing separated by blank lines |
| `Mail.ComposeFrame` | app/chains.py:204-214 | the email starts with the greeting followed by the role, and ends with the fixed closing |
| `Mail.BodyLinesShape` | app/chains.py:205-212 | the body is the skill line, then the samples header and at most five link lines only when links exist, then the closing sentence; the header appears exactly when links exist |
| `Mail.SkillPhraseNames` | app/chains.py:201-203 | with no skills the phrase is "relevant experience"; otherwise each of the first three skills appears in it at its join offset |
| `Mail.LinksInMail` | app/chains.py:208-214 | each of the first five links appears in the email as a "- " line, in link order |
| `Mail.LinkInMail` | app/chains.py:210-214 | one listed link appears in the email at its offset |
| `PortfolioLinks.NormalizeList` | app/portfolio.py:23 | kept pieces are non-empty, trimmed and lower-case; every piece that is not blank is kept trimmed and lower-cased, and every kept piece comes from such a piece |
| `PortfolioLinks.NormalizeListInOrder` | app/portfolio.py:23 | kept pieces appear in the order of the pieces they come from |
| `PortfolioLinks.QuerySkills` | app/portfolio.py:22-23 | a list query is used verbatim; a text query gives exactly the trimmed, lower-cased comma pieces that are not blank, none holding a comma |
| `PortfolioLinks.NormalizeListKeepsOutComma` | app/portfolio.py:23 | normalising pieces that hold no comma leaves no comma |
| `PortfolioLinks.RowSkills` | app/portfolio.py:26 | a row's skills are exactly the trimmed, lower-cased comma pieces of its skills cell that are not blank, none holding a comma |
| `PortfolioLinks.Portfolio.constructor` | app/portfolio.py:5-15 | the table is the loaded rows, or empty when loading failed |
| `PortfolioLinks.Portfolio.QueryLinks` | app/portfolio.py:17-40 | the two loops return the deduplicated, capped URLs of the contributing rows |
| `PortfolioLinks.CandidatesExactly` | app/portfolio.py:25-34 | a URL is collected exactly when some row with that URL contributes: its URL is non-empty and the query is empty or overlaps its skills |
| `PortfolioLinks.EmptyQuerySelectsAll` | app/portfolio.py:27-31 | with an empty query every non-empty row URL is collected |
| `PortfolioLinks.DedupExactly` | app/portfolio.py:36-39 | deduplication keeps exactly the same members, without repeats, as a subsequence of the input |
| `PortfolioLinks.DedupFirstOccurrenceOrder` | app/portfolio.py:36-39 | deduplicated elements keep the order of their first occurrences |
| `PortfolioLinks.LinksProperties` | app/portfolio.py:24-40 | at most 10 URLs, no duplicates, each the URL of a contributing row; when there are at most 10 distinct candidates, every contributing row's URL is returned |

## Left out

- The language-model path of `extract_jobs` (app/chains.py:74-93) and the client set-up in `Chain.__init__` (app/chains.py:55-63). They are a network call plus JSON parsing of foreign output, so the client is always absent here.
- The BeautifulSoup job-card search (app/chains.py:97-119) is not modelled. Its output is the parameter `structural`, which is used when it is non-empty. An HTML parse that throws is the same as an empty `structural`.
- CSV loading with pandas and the file checks in `Portfolio.__init__` (app/portfolio.py:5-15). These are file I/O. The constructor takes the loaded rows, or `None` for a missing or unreadable file. `self.file_path` is not kept because nothing in the core reads it.
- app/main.py is not part of this model. It is the Streamlit UI and page fetching.
- `\w`, `\d`, `str.lower` and `re.I` are modelled over ASCII only. Python applies them to all of Unicode. `\s` follows Python's `str.isspace`, with the Unicode spaces listed one by one.
- Only the regular expressions the core uses are modelled, each hand-coded as a scanner. Python's general regular-expression engine is not modelled.
- `PortfolioLinks.QuerySkills`: a query that is neither a string nor a list or tuple goes through `str()` in the source. The model takes only text or a list of strings.
- `PortfolioLinks.Portfolio.QueryLinks`: a list query with non-string items, and table cells that are not strings, are not modelled. pandas reads every cell as a string.
- `Mail.WriteMail`: a job whose `role` key is present but `None` prints "None" in the source. The model's `role` is either missing or a string.
- `Mail.WriteMail`: a present `skills` value that is empty or `None` counts as no skills, as `or []` does. Other falsy values are not modelled.
- `Extraction.ExtractJobsShape`: the fallback is proved in one direction only. An empty record list yields exactly the fallback record. A non-empty record list is returned unchanged, as `ExtractJobsSpec` states by definition.
- `Extraction.YearsAt`: the pattern `\d+\s+years` is a special case of `\d+\+?\s+years` (the split without `+` in `Extraction.YearsMatch`), so the model checks only the latter; the match is the same.

Details of the code's behaviour that the model keeps as written:

- Skills are capped at 20. They are not stripped of punctuation, and no stopwords are filtered.
- The noise filter looks only for "filter results", "go to first page", "go to next page" and "page" followed by digits.
- The description keeps the title line.
- `write_mail` takes no sender name and uses no randomness.
- `clean_text` is idempotent on text without `\r` (`Utils.CleanTextIdempotent`), and not on every text with one: `Utils.CleanTextNotIdempotentWithCr` gives an input with `\r` where cleaning twice differs from cleaning once.
