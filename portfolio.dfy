/** `Portfolio` of app/portfolio.py: a table of portfolio entries (title, URL,
    comma-separated skills) and the lookup of the URLs whose skills overlap a
    query. */
module PortfolioLinks {
  import opened TextUtil

  /** One row of the portfolio table; every cell is text, missing cells are "". */
  datatype Row = Row(title: string, url: string, skills: string)

  /** The query of `query_links`: a string (split on commas) or a list of
      skills (used as given). */
  datatype Query = Text(s: string) | Items(xs: seq<string>)

  /** At most this many URLs are returned. */
  const MaxResults: nat := 10

  /** `[s.strip().lower() for s in parts if s.strip()]` */
  function NormalizeList(parts: seq<string>): (r: seq<string>)
    ensures forall s :: s in r ==> s != [] && NoUpper(s) && NoEdgeSpace(s)
    ensures |r| <= |parts|
    ensures forall p :: p in parts && Strip(p) != [] ==> Lower(Strip(p)) in r
    ensures forall s :: s in r ==> exists p :: p in parts && Strip(p) != [] && s == Lower(Strip(p))
    decreases |parts|
  {
    if parts == [] then []
    else
      var front := parts[..|parts| - 1];
      var last := parts[|parts| - 1];
      var s := Strip(last);
      LowerHasNoUpper(s);
      var kept := NormalizeList(front);
      assert forall p :: p in parts ==> p in front || p == last;
      assert forall p :: p in front ==> p in parts;
      kept + (if s != [] then [Lower(s)] else [])
  }

  /** Each element stripped and lower-cased, in order. */
  function NormalizeAll(parts: seq<string>): (r: seq<string>)
    ensures |r| == |parts|
    ensures forall k :: 0 <= k < |r| ==> r[k] == Lower(Strip(parts[k]))
  {
    seq(|parts|, k requires 0 <= k < |parts| => Lower(Strip(parts[k])))
  }

  /** The kept pieces stay in the order of the list. */
  lemma {:induction false} NormalizeListInOrder(parts: seq<string>)
    ensures SubsequenceOf(NormalizeList(parts), NormalizeAll(parts))
    decreases |parts|
  {
    if parts == [] {
      SubsequenceOfEmpty(NormalizeAll(parts));
    } else {
      var front := parts[..|parts| - 1];
      var s := Strip(parts[|parts| - 1]);
      var kept := NormalizeList(front);
      assert NormalizeList(parts) == kept + (if s != [] then [Lower(s)] else []);
      assert NormalizeAll(parts) == NormalizeAll(front) + [Lower(s)] by { NormalizeAllSnoc(parts); }
      assert SubsequenceOf(kept, NormalizeAll(front)) by { NormalizeListInOrder(front); }
      SubsequenceExtend(kept, NormalizeAll(front), Lower(s));
      if s == [] {
        assert kept + [] == kept;
      }
    }
  }

  lemma NormalizeAllSnoc(parts: seq<string>)
    requires parts != []
    ensures NormalizeAll(parts) == NormalizeAll(parts[..|parts| - 1]) + [Lower(Strip(parts[|parts| - 1]))]
  {
  }

  /** The skills of a query: a list as given, a string split on commas and
      normalised. */
  function QuerySkills(q: Query): (r: seq<string>)
    ensures q.Items? ==> r == q.xs
    ensures q.Text? ==> forall s :: s in r ==> s != [] && NoUpper(s) && NoEdgeSpace(s) && ',' !in s
    ensures q.Text? ==> forall p :: p in SplitComma(q.s) && Strip(p) != [] ==> Lower(Strip(p)) in r
    ensures q.Text? ==> forall s :: s in r ==> exists p :: p in SplitComma(q.s) && Strip(p) != [] && s == Lower(Strip(p))
  {
    match q
    case Items(xs) => xs
    case Text(s) =>
      NormalizedPiecesAvoidComma(s);
      NormalizeList(SplitComma(s))
  }

  lemma NormalizedPiecesAvoidComma(s: string)
    ensures forall p :: p in NormalizeList(SplitComma(s)) ==> ',' !in p
  {
    var parts := SplitComma(s);
    assert forall p :: p in parts ==> forall k :: 0 <= k < |p| ==> p[k] != ',';
    NormalizeListKeepsOutComma(parts);
  }

  lemma {:induction false} NormalizeListKeepsOutComma(parts: seq<string>)
    requires forall p :: p in parts ==> forall k :: 0 <= k < |p| ==> p[k] != ','
    ensures forall p :: p in NormalizeList(parts) ==> ',' !in p
    decreases |parts|
  {
    if parts != [] {
      var front := parts[..|parts| - 1];
      NormalizeListKeepsOutComma(front);
      var p := parts[|parts| - 1];
      assert p in parts;
      var s := Strip(p);
      forall k | 0 <= k < |s| ensures Lower(s)[k] != ',' {
        assert s[k] == p[LeadingSpaces(p) + k];
        assert Lower(s)[k] == LowerChar(s[k]);
      }
    }
  }

  /** The normalised skills of a row. */
  function RowSkills(row: Row): (r: seq<string>)
    ensures forall s :: s in r ==> s != [] && NoUpper(s) && NoEdgeSpace(s) && ',' !in s
    ensures forall p :: p in SplitComma(row.skills) && Strip(p) != [] ==> Lower(Strip(p)) in r
    ensures forall s :: s in r ==> exists p :: p in SplitComma(row.skills) && Strip(p) != [] && s == Lower(Strip(p))
  {
    NormalizedPiecesAvoidComma(row.skills);
    NormalizeList(SplitComma(row.skills))
  }

  /** Some query skill is a substring of some row skill, or the reverse. */
  predicate Overlaps(query: seq<string>, rowSkills: seq<string>) {
    exists sk, rs :: sk in query && rs in rowSkills && (IsSubstring(sk, rs) || IsSubstring(rs, sk))
  }

  /** A row contributes its URL when the URL is not empty and the query is
      empty or overlaps the row's skills. */
  predicate Contributes(row: Row, query: seq<string>) {
    row.url != "" && (query == [] || Overlaps(query, RowSkills(row)))
  }

  /** `results`: the URLs of contributing rows, in row order. */
  function Candidates(rows: seq<Row>, query: seq<string>): seq<string>
    decreases |rows|
  {
    if rows == [] then []
    else
      var row := rows[|rows| - 1];
      Candidates(rows[..|rows| - 1], query) + (if Contributes(row, query) then [row.url] else [])
  }

  /** `uniq`: each element kept at its first occurrence. */
  function Dedup(xs: seq<string>): seq<string>
    decreases |xs|
  {
    if xs == [] then []
    else
      var prev := Dedup(xs[..|xs| - 1]);
      var x := xs[|xs| - 1];
      if x in prev then prev else prev + [x]
  }

  /** The URLs `query_links` returns for these rows. */
  function Links(rows: seq<Row>, q: Query): seq<string> {
    Take(Dedup(Candidates(rows, QuerySkills(q))), MaxResults)
  }

  class Portfolio {
    /** `self.data`, the loaded table. */
    var rows: seq<Row>

    /** `Portfolio(file_path)`; `loaded` is the table read from the file, or
        `None` when the file is missing or unreadable. */
    constructor(loaded: Option<seq<Row>>)
      ensures rows == (if loaded.Some? then loaded.value else [])
    {
      rows := if loaded.Some? then loaded.value else [];
    }

    /** `Portfolio.query_links`. */
    method QueryLinks(q: Query) returns (urls: seq<string>)
      ensures urls == Links(rows, q)
    {
      var skills := QuerySkills(q);
      var results: seq<string> := [];
      for i := 0 to |rows|
        invariant results == Candidates(rows[..i], skills)
      {
        var row := rows[i];
        CandidatesStep(rows, i, skills);
        var rowSkills := RowSkills(row);
        if skills == [] {
          if row.url != "" {
            results := results + [row.url];
          }
          continue;
        }
        if Overlaps(skills, rowSkills) {
          if row.url != "" {
            results := results + [row.url];
          }
        }
      }
      assert rows[..|rows|] == rows;
      var uniq: seq<string> := [];
      for i := 0 to |results|
        invariant uniq == Dedup(results[..i])
      {
        var u := results[i];
        DedupStep(results, i);
        if u !in uniq {
          uniq := uniq + [u];
        }
      }
      assert results[..|results|] == results;
      urls := Take(uniq, MaxResults);
    }
  }

  lemma CandidatesStep(rows: seq<Row>, i: nat, query: seq<string>)
    requires i < |rows|
    ensures Candidates(rows[..i + 1], query)
      == Candidates(rows[..i], query) + (if Contributes(rows[i], query) then [rows[i].url] else [])
  {
    assert rows[..i + 1][..i] == rows[..i];
  }

  lemma DedupStep(xs: seq<string>, i: nat)
    requires i < |xs|
    ensures Dedup(xs[..i + 1]) == (if xs[i] in Dedup(xs[..i]) then Dedup(xs[..i]) else Dedup(xs[..i]) + [xs[i]])
  {
    assert xs[..i + 1][..i] == xs[..i];
  }

  // ---------------------------------------------------------------------------
  // Properties

  /** Deduplication keeps exactly the elements of the list, each once, in the
      order of the list. */
  lemma DedupExactly(xs: seq<string>)
    ensures NoDuplicates(Dedup(xs))
    ensures forall x :: x in Dedup(xs) <==> x in xs
    ensures SubsequenceOf(Dedup(xs), xs)
  {
    DedupMembers(xs);
    DedupDistinct(xs);
    DedupInOrder(xs);
  }

  lemma {:induction false} DedupMembers(xs: seq<string>)
    ensures forall x :: x in Dedup(xs) <==> x in xs
    decreases |xs|
  {
    if xs != [] {
      var front := xs[..|xs| - 1];
      DedupMembers(front);
      assert xs == front + [xs[|xs| - 1]];
    }
  }

  lemma {:induction false} DedupDistinct(xs: seq<string>)
    ensures NoDuplicates(Dedup(xs))
    decreases |xs|
  {
    if xs != [] {
      DedupDistinct(xs[..|xs| - 1]);
    }
  }

  lemma {:induction false} DedupInOrder(xs: seq<string>)
    ensures SubsequenceOf(Dedup(xs), xs)
    decreases |xs|
  {
    if xs == [] {
      SubsequenceOfEmpty(xs);
    } else {
      var front := xs[..|xs| - 1];
      var x := xs[|xs| - 1];
      DedupInOrder(front);
      assert xs == front + [x];
      SubsequenceExtend(Dedup(front), front, x);
    }
  }

  /** Index of the first occurrence of `x` in `xs`. */
  function IndexOf(xs: seq<string>, x: string): (i: nat)
    requires x in xs
    ensures i < |xs| && xs[i] == x && forall k :: 0 <= k < i ==> xs[k] != x
  {
    if xs[0] == x then 0 else 1 + IndexOf(xs[1..], x)
  }

  lemma IndexOfSnoc(xs: seq<string>, x: string, y: string)
    requires y in xs
    ensures IndexOf(xs + [x], y) == IndexOf(xs, y)
  {
    var i := IndexOf(xs, y);
    var j := IndexOf(xs + [x], y);
    assert (xs + [x])[i] == y;
  }

  /** Deduplicated elements come in the order of their first occurrences. */
  lemma {:induction false} DedupFirstOccurrenceOrder(xs: seq<string>)
    ensures forall x :: x in Dedup(xs) ==> x in xs
    ensures forall i, j :: 0 <= i < j < |Dedup(xs)| ==> IndexOf(xs, Dedup(xs)[i]) < IndexOf(xs, Dedup(xs)[j])
    decreases |xs|
  {
    DedupMembers(xs);
    if xs != [] {
      var front := xs[..|xs| - 1];
      var x := xs[|xs| - 1];
      SplitLast(xs);
      DedupFirstOccurrenceOrder(front);
      DedupMembers(front);
      forall i, j | 0 <= i < j < |Dedup(xs)| ensures IndexOf(xs, Dedup(xs)[i]) < IndexOf(xs, Dedup(xs)[j]) {
        OrderSnoc(xs, front, x, i, j);
      }
    }
  }

  /** One pair of positions of the deduplicated list, from the pairs of the
      list without its last element `x`. */
  lemma OrderSnoc(xs: seq<string>, front: seq<string>, x: string, i: nat, j: nat)
    requires xs == front + [x] && i < j < |Dedup(xs)|
    requires Dedup(xs)[i] in xs && Dedup(xs)[j] in xs
    requires i < |Dedup(front)| ==> Dedup(front)[i] in front
    requires j < |Dedup(front)| ==> Dedup(front)[j] in front
    requires x !in Dedup(front) ==> x !in front
    requires j < |Dedup(front)| ==> IndexOf(front, Dedup(front)[i]) < IndexOf(front, Dedup(front)[j])
    ensures IndexOf(xs, Dedup(xs)[i]) < IndexOf(xs, Dedup(xs)[j])
  {
    assert xs[..|xs| - 1] == front;
    var d := Dedup(front);
    assert Dedup(xs)[i] == d[i];
    IndexOfSnoc(front, x, d[i]);
    if j < |d| {
      assert Dedup(xs)[j] == d[j];
      IndexOfSnoc(front, x, d[j]);
    } else {
      assert Dedup(xs)[j] == x && x !in front;
      assert xs[|front|] == x;
    }
  }

  lemma SplitLast(xs: seq<string>)
    requires xs != []
    ensures xs == xs[..|xs| - 1] + [xs[|xs| - 1]]
  {
  }

  /** A URL is a candidate exactly when some contributing row has it. */
  lemma {:induction false} CandidatesExactly(rows: seq<Row>, query: seq<string>)
    ensures forall u :: u in Candidates(rows, query) <==> exists row :: row in rows && Contributes(row, query) && row.url == u
    decreases |rows|
  {
    if rows != [] {
      var front := rows[..|rows| - 1];
      var last := rows[|rows| - 1];
      var kept := Candidates(front, query);
      CandidatesExactly(front, query);
      assert Candidates(rows, query) == kept + (if Contributes(last, query) then [last.url] else []);
      assert forall row :: row in rows <==> row in front || row == last by {
        assert rows == front + [last];
      }
      forall u ensures u in Candidates(rows, query) <==> exists row :: row in rows && Contributes(row, query) && row.url == u {
        if u in Candidates(rows, query) && u !in kept {
          assert Contributes(last, query) && last.url == u;
        }
        if exists row :: row in rows && Contributes(row, query) && row.url == u {
          var row :| row in rows && Contributes(row, query) && row.url == u;
          if row != last {
            assert u in kept;
          }
        }
      }
    }
  }

  /** With no query skills every row with a URL contributes. */
  lemma EmptyQuerySelectsAll(rows: seq<Row>)
    ensures forall u :: u in Candidates(rows, []) <==> exists row :: row in rows && row.url != "" && row.url == u
  {
    CandidatesExactly(rows, []);
  }

  /** `query_links` returns at most ten distinct URLs, each the URL of a
      contributing row; when at most ten distinct URLs qualify, all of them. */
  lemma LinksProperties(rows: seq<Row>, q: Query)
    ensures |Links(rows, q)| <= MaxResults
    ensures NoDuplicates(Links(rows, q))
    ensures forall u :: u in Links(rows, q) ==> exists row :: row in rows && Contributes(row, QuerySkills(q)) && row.url == u
    ensures |Dedup(Candidates(rows, QuerySkills(q)))| <= MaxResults ==>
      forall row :: row in rows && Contributes(row, QuerySkills(q)) ==> row.url in Links(rows, q)
  {
    var c := Candidates(rows, QuerySkills(q));
    DedupExactly(c);
    CandidatesExactly(rows, QuerySkills(q));
    var d := Dedup(c);
    var r := Links(rows, q);
    assert r == d[..|r|];
    forall u | u in r ensures u in c {
      assert u in d;
    }
  }
}
