/*
  The training-data script: PubMed search terms, the quality filter that
  decides which fetched papers are kept, and the formatters that turn the
  kept papers into instruction examples.

  Fetching one paper's details (HTTP and XML) is the function `details`
  from a PubMed id to the parsed paper, `None` when the fetch or the
  parse failed. An XML element without text is taken as an empty string.
*/
module TrainingData {
  import opened Wrappers
  import opened Text

  datatype Paper = Paper(pmid: string, title: string, abstractText: string, authors: seq<string>,
                         year: string, journal: string, keywords: seq<string>)

  /** An instruction-tuning example. */
  datatype Example = Example(instruction: string, input: string, output: string)

  /** The collector's two quality settings. */
  datatype Collector = Collector(minYear: int, filterQ1: bool)

  const Q1Journals: seq<string> := [
    "Nature", "Science", "The Lancet", "New England Journal of Medicine",
    "JAMA", "BMJ", "Nature Medicine", "Nature Biotechnology",
    "Kidney International", "Journal of the American Society of Nephrology",
    "American Journal of Kidney Diseases", "Clinical Journal of the American Society of Nephrology",
    "Nature Machine Intelligence", "Nature Methods", "Cell",
    "The Lancet Digital Health", "npj Digital Medicine",
    "Journal of Medical Internet Research", "PLOS Medicine",
    "Artificial Intelligence in Medicine", "IEEE Journal of Biomedical and Health Informatics",
    "Journal of Biomedical Informatics", "Bioinformatics"
  ]

  // ---------------------------------------------------------------------
  // Search and journal filter
  // ---------------------------------------------------------------------

  /** The PubMed term of `search_papers`: the query restricted to
      publication dates from `minYear` to 3000. */
  function SearchTerm(query: string, minYear: int): string {
    query + " AND (" + IntToString(minYear) + "[PDAT] : 3000[PDAT])"
  }

  /** The term keeps the query in front and the lower year can be read
      back from it. */
  lemma SearchTermYear(query: string, minYear: int)
    ensures var t := SearchTerm(query, minYear);
      var k := |query| + 6;
      && StartsWith(t, query + " AND (")
      && k + |IntToString(minYear)| <= |t|
      && ParseInt(t[k..k + |IntToString(minYear)|]) == Some(minYear)
      && EndsWith(t, "[PDAT] : 3000[PDAT])")
  {
    var y := IntToString(minYear);
    var t := SearchTerm(query, minYear);
    var head := query + " AND (";
    var tail := "[PDAT] : 3000[PDAT])";
    assert t == head + y + tail;
    assert t[..|head|] == head;
    assert t[|head|..|head| + |y|] == y;
    assert t[|t| - |tail|..] == tail;
    ParseIntRoundTrip(minYear);
  }

  /** `is_q1_journal`: a non-empty name that contains, ignoring case, the
      name of a listed journal. */
  predicate IsQ1Journal(name: string) {
    name != [] && exists q :: q in Q1Journals && Contains(Lower(name), Lower(q))
  }

  /** Lower-casing is the same after upper-casing. */
  lemma LowerUpper(s: string)
    ensures Lower(Upper(s)) == Lower(s)
  {
  }

  /** The journal test ignores case, and every listed journal passes it;
      an empty name never does. */
  lemma IsQ1JournalProperties(name: string)
    ensures IsQ1Journal(Upper(name)) <==> IsQ1Journal(name)
    ensures !IsQ1Journal("")
    ensures name in Q1Journals ==> IsQ1Journal(name)
  {
    LowerUpper(name);
    assert |Upper(name)| == |name|;
    if name in Q1Journals {
      var l := Lower(name);
      assert StartsWith(l[0..], l);
      assert name != [];
    }
  }

  /** The test is by substring, so a journal that merely contains a listed
      name passes: "Cellular Signalling" contains "Cell". */
  lemma SubstringMatch()
    ensures IsQ1Journal("Cellular Signalling")
  {
    var l := Lower("Cellular Signalling");
    var c := Lower("Cell");
    assert c[0] == 'c' && c[1] == 'e' && c[2] == 'l' && c[3] == 'l';
    assert l[0] == 'c' && l[1] == 'e' && l[2] == 'l' && l[3] == 'l';
    assert l[0..][..4] == c;
    assert Q1Journals[14] == "Cell";
  }

  // ---------------------------------------------------------------------
  // The batch filter
  // ---------------------------------------------------------------------

  /** Why a fetched paper is skipped, or that it is kept. */
  datatype Verdict = NoAbstract | OldYear | NotQ1 | Keep

  /** The checks of `fetch_batch`, in order: an abstract, then a year that
      either does not parse or is recent enough, then (when filtering) a
      Q1 journal. */
  function Judge(c: Collector, p: Option<Paper>): Verdict {
    if p.None? || p.value.abstractText == [] then NoAbstract
    else if ParseInt(p.value.year).Some? && ParseInt(p.value.year).value < c.minYear then OldYear
    else if c.filterQ1 && !IsQ1Journal(p.value.journal) then NotQ1
    else Keep
  }

  /** The running counts of skipped papers. */
  datatype FilterCounts = FilterCounts(noAbstract: nat, oldYear: nat, notQ1: nat)

  /** The papers `fetch_batch` keeps from the fetched ones, in order. */
  function KeptPapers(c: Collector, fetched: seq<Option<Paper>>): seq<Paper> {
    KeptBy(fetched, Passes(c))
  }

  /** The collector's test of a fetched paper, as a value. */
  function Passes(c: Collector): Option<Paper> -> bool {
    p => Judge(c, p) == Keep
  }

  /** The fetched papers that pass `pass`, in order. */
  function KeptBy(fetched: seq<Option<Paper>>, pass: Option<Paper> -> bool): seq<Paper>
    decreases |fetched|
  {
    if fetched == [] then []
    else
      var p := fetched[|fetched| - 1];
      KeptBy(fetched[..|fetched| - 1], pass) + (if p.Some? && pass(p) then [p.value] else [])
  }

  /** How many fetched papers get verdict `v`. */
  function CountVerdict(c: Collector, fetched: seq<Option<Paper>>, v: Verdict): nat
    decreases |fetched|
  {
    if fetched == [] then 0
    else
      CountVerdict(c, fetched[..|fetched| - 1], v) + (if Judge(c, fetched[|fetched| - 1]) == v then 1 else 0)
  }

  function Counts(c: Collector, fetched: seq<Option<Paper>>): FilterCounts {
    FilterCounts(CountVerdict(c, fetched, NoAbstract), CountVerdict(c, fetched, OldYear),
                 CountVerdict(c, fetched, NotQ1))
  }

  /** Every fetched paper lands in exactly one bucket: the kept papers
      and the three skip counts add up to the number of ids. */
  lemma {:induction false} BatchPartition(c: Collector, fetched: seq<Option<Paper>>)
    ensures |KeptPapers(c, fetched)| == CountVerdict(c, fetched, Keep)
    ensures var n := Counts(c, fetched);
      |KeptPapers(c, fetched)| + n.noAbstract + n.oldYear + n.notQ1 == |fetched|
    decreases |fetched|
  {
    if fetched != [] {
      BatchPartition(c, fetched[..|fetched| - 1]);
    }
  }

  /** A paper passes every check when it has an abstract, a year that is
      unparsable or at least `minYear`, and (when filtering) a Q1 journal. */
  lemma KeepMeans(c: Collector, p: Paper)
    ensures Judge(c, Some(p)) == Keep <==>
      && p.abstractText != []
      && (ParseInt(p.year).None? || ParseInt(p.year).value >= c.minYear)
      && (c.filterQ1 ==> IsQ1Journal(p.journal))
  {
  }

  /** The kept papers are exactly the fetched papers that pass every
      check (`KeepMeans`), in their fetched order: each kept paper was
      fetched and passes, and each fetched paper that passes is kept. */
  lemma KeptPapersFaithful(c: Collector, fetched: seq<Option<Paper>>)
    ensures forall p :: p in KeptPapers(c, fetched) ==> Some(p) in fetched && Judge(c, Some(p)) == Keep
    ensures forall i :: 0 <= i < |fetched| && Judge(c, fetched[i]) == Keep ==> fetched[i].value in KeptPapers(c, fetched)
  {
    var pass := Passes(c);
    KeptByFaithful(fetched, pass);
    forall p | p in KeptPapers(c, fetched) ensures Some(p) in fetched && Judge(c, Some(p)) == Keep {
      assert pass(Some(p));
    }
    forall i | 0 <= i < |fetched| && Judge(c, fetched[i]) == Keep ensures fetched[i].value in KeptPapers(c, fetched) {
      assert fetched[i].Some? && pass(fetched[i]);
    }
  }

  lemma {:induction false} KeptByFaithful(fetched: seq<Option<Paper>>, pass: Option<Paper> -> bool)
    ensures forall p :: p in KeptBy(fetched, pass) ==> Some(p) in fetched && pass(Some(p))
    ensures forall i :: 0 <= i < |fetched| && fetched[i].Some? && pass(fetched[i]) ==> fetched[i].value in KeptBy(fetched, pass)
    decreases |fetched|
  {
    if fetched != [] {
      var init, last := fetched[..|fetched| - 1], fetched[|fetched| - 1];
      KeptByFaithful(init, pass);
      var r := KeptBy(fetched, pass);
      assert r == KeptBy(init, pass) + (if last.Some? && pass(last) then [last.value] else []);
      forall i | 0 <= i < |fetched| && fetched[i].Some? && pass(fetched[i])
        ensures fetched[i].value in r
      {
        if i < |init| { assert fetched[i] == init[i]; }
      }
      forall p | p in r ensures Some(p) in fetched && pass(Some(p)) {
        if p in KeptBy(init, pass) {
          assert Some(p) in init;
        } else {
          assert Some(p) == last;
        }
      }
    }
  }

  /** One more fetched paper adds its verdict: the paper to the kept list,
      or one to its skip count. */
  lemma BatchStep(c: Collector, fetched: seq<Option<Paper>>, i: nat)
    requires i < |fetched|
    ensures KeptPapers(c, fetched[..i + 1])
         == KeptPapers(c, fetched[..i]) + (if Judge(c, fetched[i]) == Keep then [fetched[i].value] else [])
    ensures forall v :: (CountVerdict(c, fetched[..i + 1], v)
                         == CountVerdict(c, fetched[..i], v) + (if Judge(c, fetched[i]) == v then 1 else 0))
  {
    var pass := Passes(c);
    assert fetched[..i + 1][..i] == fetched[..i];
    assert KeptPapers(c, fetched[..i + 1])
        == KeptBy(fetched[..i], pass) + (if fetched[i].Some? && pass(fetched[i]) then [fetched[i].value] else []);
  }

  /** `int("")` fails, so a paper whose year is missing is never counted
      as old: it is judged by its abstract and journal alone. */
  lemma EmptyYearNotOld(c: Collector, p: Paper)
    requires p.year == []
    ensures ParseInt(p.year) == None
    ensures Judge(c, Some(p)) != OldYear
  {
    assert |Strip(p.year)| == 0;
  }

  /** `fetch_batch`: fetch each id in turn and sort it into the kept list
      or one of the skip counts. */
  method FetchBatch(c: Collector, pmids: seq<string>, details: string -> Option<Paper>)
    returns (papers: seq<Paper>, counts: FilterCounts)
    ensures var fetched := seq(|pmids|, i requires 0 <= i < |pmids| => details(pmids[i]));
      papers == KeptPapers(c, fetched) && counts == Counts(c, fetched)
  {
    var fetched := seq(|pmids|, i requires 0 <= i < |pmids| => details(pmids[i]));
    papers := [];
    counts := FilterCounts(0, 0, 0);
    for i := 0 to |pmids|
      invariant papers == KeptPapers(c, fetched[..i]) && counts == Counts(c, fetched[..i])
    {
      BatchStep(c, fetched, i);
      var paper := details(pmids[i]);
      assert paper == fetched[i];
      if paper.None? || paper.value.abstractText == [] {
        counts := counts.(noAbstract := counts.noAbstract + 1);
        continue;
      }
      var year := ParseInt(paper.value.year);
      if year.Some? && year.value < c.minYear {
        counts := counts.(oldYear := counts.oldYear + 1);
        continue;
      }
      if c.filterQ1 && !IsQ1Journal(paper.value.journal) {
        counts := counts.(notQ1 := counts.notQ1 + 1);
        continue;
      }
      papers := papers + [paper.value];
    }
    assert fetched[..|pmids|] == fetched;
  }

  // ---------------------------------------------------------------------
  // Formatters
  // ---------------------------------------------------------------------

  /** The examples a formatter builds: `make(x)` for each `x` that passes
      `keep`, in order. */
  function Filtered<T, U>(xs: seq<T>, keep: T -> bool, make: T -> U): seq<U>
    decreases |xs|
  {
    if xs == [] then []
    else
      var x := xs[|xs| - 1];
      Filtered(xs[..|xs| - 1], keep, make) + (if keep(x) then [make(x)] else [])
  }

  /** Each example comes from a paper that passes, each paper that passes
      gives its example, and when every paper passes there is one example
      per paper, in order. */
  lemma {:induction false} FilteredFaithful<T, U>(xs: seq<T>, keep: T -> bool, make: T -> U)
    ensures |Filtered(xs, keep, make)| <= |xs|
    ensures forall u :: u in Filtered(xs, keep, make) ==> exists x :: x in xs && keep(x) && u == make(x)
    ensures forall x :: x in xs && keep(x) ==> make(x) in Filtered(xs, keep, make)
    ensures (forall x :: x in xs ==> keep(x)) ==>
      |Filtered(xs, keep, make)| == |xs| && forall i :: 0 <= i < |xs| ==> Filtered(xs, keep, make)[i] == make(xs[i])
    decreases |xs|
  {
    if xs != [] {
      var init, last := xs[..|xs| - 1], xs[|xs| - 1];
      FilteredFaithful(init, keep, make);
      assert xs == init + [last];
      var r := Filtered(xs, keep, make);
      forall u | u in r ensures exists x :: x in xs && keep(x) && u == make(x) {
        if u in Filtered(init, keep, make) {
          var x :| x in init && keep(x) && u == make(x);
          assert x in xs;
        }
      }
      forall x | x in xs && keep(x) ensures make(x) in r {
        if x != last { assert x in init; }
      }
      if forall x :: x in xs ==> keep(x) {
        assert forall x :: x in init ==> keep(x) by {
          forall x | x in init ensures keep(x) { assert x in xs; }
        }
        forall i | 0 <= i < |xs| ensures r[i] == make(xs[i]) {
          if i < |init| { assert init[i] == xs[i]; }
        }
      }
    }
  }

  lemma FilteredStep<T, U>(xs: seq<T>, i: nat, keep: T -> bool, make: T -> U)
    requires i < |xs|
    ensures Filtered(xs[..i + 1], keep, make)
         == Filtered(xs[..i], keep, make) + (if keep(xs[i]) then [make(xs[i])] else [])
  {
    assert xs[..i + 1][..i] == xs[..i];
  }

  const DefaultTopics: string := "chronic kidney disease, machine learning"

  /** The topic line: the first three keywords, or the default topics
      when they join to nothing. */
  function Topics(p: Paper): string {
    var t := Join(", ", Take(p.keywords, 3));
    if t == [] then DefaultTopics else t
  }

  function AbstractExample(p: Paper): Example {
    Example("Write an abstract for a scientific paper on the given topic.",
            "Topic: " + Topics(p), Take(p.abstractText, 1000))
  }

  function Always(p: Paper): bool { true }

  /** `create_abstract_examples`: one example per paper, whose output is
      the first 1000 characters of its abstract. */
  method CreateAbstractExamples(papers: seq<Paper>) returns (examples: seq<Example>)
    ensures examples == Filtered(papers, Always, AbstractExample)
  {
    examples := [];
    for i := 0 to |papers|
      invariant examples == Filtered(papers[..i], Always, AbstractExample)
    {
      FilteredStep(papers, i, Always, AbstractExample);
      var p := papers[i];
      var topics := Join(", ", Take(p.keywords, 3));
      if topics == [] {
        topics := DefaultTopics;
      }
      examples := examples + [Example("Write an abstract for a scientific paper on the given topic.",
                                      "Topic: " + topics, Take(p.abstractText, 1000))];
    }
    assert papers[..|papers|] == papers;
  }

  /** There is one abstract example per paper; example `i` has the
      paper's topics and the abstract cut to 1000 characters. */
  lemma AbstractExamplesShape(papers: seq<Paper>)
    ensures var es := Filtered(papers, Always, AbstractExample);
      && |es| == |papers|
      && forall i :: 0 <= i < |papers| ==>
           && es[i].input == "Topic: " + Topics(papers[i])
           && |es[i].output| <= 1000 && StartsWith(papers[i].abstractText, es[i].output)
  {
    FilteredFaithful(papers, Always, AbstractExample);
  }

  /** At most three keywords reach the topic line, and without keywords
      the default topics are used. */
  lemma TopicsShape(p: Paper)
    ensures p.keywords == [] ==> Topics(p) == DefaultTopics
    ensures |p.keywords| >= 1 && p.keywords[0] != [] ==> StartsWith(Topics(p), p.keywords[0])
  {
    var ks := Take(p.keywords, 3);
    if |ks| >= 1 && ks[0] != [] {
      JoinStartsWithFirst(", ", ks);
    }
  }

  lemma JoinStartsWithFirst(sep: string, parts: seq<string>)
    requires |parts| >= 1
    ensures StartsWith(Join(sep, parts), parts[0])
  {
    if |parts| > 1 {
      assert Join(sep, parts) == parts[0] + (sep + Join(sep, parts[1..]));
    }
  }

  /** The first two ". "-separated pieces of the abstract, re-joined, with
      a final period. */
  function IntroStyle(abstractText: string): string {
    Join(". ", Take(SplitOn(abstractText, ". "), 2)) + "."
  }

  function IntroKeeps(p: Paper): bool { |IntroStyle(p.abstractText)| > 50 }

  function IntroExample(p: Paper): Example {
    Example("Write an introduction paragraph for a scientific paper.", "Topic: " + p.title,
            IntroStyle(p.abstractText))
  }

  /** The introduction text is a prefix of the abstract followed by a
      period. */
  lemma IntroStyleIsPrefix(abstractText: string)
    ensures var s := IntroStyle(abstractText);
      |s| >= 1 && s[|s| - 1] == '.' && StartsWith(abstractText, s[..|s| - 1])
  {
    JoinTakeSplitIsPrefix(abstractText, ". ", 2);
    var s := IntroStyle(abstractText);
    assert s[..|s| - 1] == Join(". ", Take(SplitOn(abstractText, ". "), 2));
  }

  /** `create_introduction_examples`: an example for each paper whose
      introduction text is longer than 50 characters. */
  method CreateIntroductionExamples(papers: seq<Paper>) returns (examples: seq<Example>)
    ensures examples == Filtered(papers, IntroKeeps, IntroExample)
  {
    examples := [];
    for i := 0 to |papers|
      invariant examples == Filtered(papers[..i], IntroKeeps, IntroExample)
    {
      FilteredStep(papers, i, IntroKeeps, IntroExample);
      var p := papers[i];
      var sentences := Take(SplitOn(p.abstractText, ". "), 2);
      var introStyle := Join(". ", sentences) + ".";
      if |introStyle| > 50 {
        examples := examples + [Example("Write an introduction paragraph for a scientific paper.",
                                        "Topic: " + p.title, introStyle)];
      }
    }
    assert papers[..|papers|] == papers;
  }

  /** Every introduction example is longer than 50 characters and is the
      start of its paper's abstract plus a period. */
  lemma IntroExamplesShape(papers: seq<Paper>)
    ensures var es := Filtered(papers, IntroKeeps, IntroExample);
      && |es| <= |papers|
      && forall e :: e in es ==> |e.output| > 50 && exists p :: p in papers && StartsWith(p.abstractText, e.output[..|e.output| - 1])
  {
    FilteredFaithful(papers, IntroKeeps, IntroExample);
    var es := Filtered(papers, IntroKeeps, IntroExample);
    forall e | e in es
      ensures |e.output| > 50 && exists p :: p in papers && StartsWith(p.abstractText, e.output[..|e.output| - 1])
    {
      var p :| p in papers && IntroKeeps(p) && e == IntroExample(p);
      IntroStyleIsPrefix(p.abstractText);
    }
  }

  /** The author list of a citation: the first three, then " et al." when
      there are more. */
  function AuthorsString(authors: seq<string>): string {
    Join(", ", Take(authors, 3)) + (if |authors| > 3 then " et al." else "")
  }

  function CitationKeeps(p: Paper): bool { p.authors != [] && p.year != [] }

  function CitationExample(p: Paper): Example {
    Example("Format this reference in IEEE citation style.",
            "Authors: " + Join(", ", Take(p.authors, 3)) + ". Title: " + p.title + ". Journal: "
              + p.journal + ". Year: " + p.year + ".",
            "[1] " + AuthorsString(p.authors) + ", \"" + p.title + "\", " + p.journal + ", " + p.year + ".")
  }

  /** " et al." is added exactly for papers with more than three authors;
      up to three, the list is all the authors. */
  lemma AuthorsStringShape(authors: seq<string>)
    ensures |authors| > 3 ==>
      (&& AuthorsString(authors) == Join(", ", authors[..3]) + " et al."
       && EndsWith(AuthorsString(authors), " et al."))
    ensures |authors| <= 3 ==> AuthorsString(authors) == Join(", ", authors)
  {
    if |authors| > 3 {
      var j := Join(", ", authors[..3]);
      var s := j + " et al.";
      assert Take(authors, 3) == authors[..3];
      assert s[|s| - 7..] == " et al.";
    } else {
      assert Take(authors, 3) == authors;
    }
  }

  /** `create_citation_examples`: an example for each paper with authors
      and a year. */
  method CreateCitationExamples(papers: seq<Paper>) returns (examples: seq<Example>)
    ensures examples == Filtered(papers, CitationKeeps, CitationExample)
  {
    examples := [];
    for i := 0 to |papers|
      invariant examples == Filtered(papers[..i], CitationKeeps, CitationExample)
    {
      FilteredStep(papers, i, CitationKeeps, CitationExample);
      var p := papers[i];
      if p.authors == [] || p.year == [] {
        continue;
      }
      var authorsStr := Join(", ", Take(p.authors, 3));
      if |p.authors| > 3 {
        authorsStr := authorsStr + " et al.";
      }
      assert authorsStr == AuthorsString(p.authors);
      var citation := "[1] " + authorsStr + ", \"" + p.title + "\", " + p.journal + ", " + p.year + ".";
      examples := examples + [Example("Format this reference in IEEE citation style.",
                                      "Authors: " + Join(", ", Take(p.authors, 3)) + ". Title: " + p.title
                                        + ". Journal: " + p.journal + ". Year: " + p.year + ".",
                                      citation)];
    }
    assert papers[..|papers|] == papers;
  }

  /** A paper without authors or without a year gives no citation
      example; every other paper gives one. */
  lemma CitationExamplesSkip(papers: seq<Paper>)
    ensures var es := Filtered(papers, CitationKeeps, CitationExample);
      && (forall p :: p in papers && p.authors != [] && p.year != [] ==> CitationExample(p) in es)
      && (forall e :: e in es ==> exists p :: p in papers && p.authors != [] && p.year != [] && e == CitationExample(p))
  {
    FilteredFaithful(papers, CitationKeeps, CitationExample);
  }

  const MethodWords: seq<string> := ["method", "approach", "model", "algorithm", "dataset"]
  const ResultWords: seq<string> := ["results", "findings", "accuracy", "performance", "significant"]

  /** Some word of `words` occurs in the lower-cased abstract. */
  predicate Mentions(abstractText: string, words: seq<string>) {
    exists w :: w in words && Contains(Lower(abstractText), w)
  }

  function MethodKeeps(p: Paper): bool { Mentions(p.abstractText, MethodWords) }

  function MethodExample(p: Paper): Example {
    Example("Describe the methodology for this research study.", "Research topic: " + p.title,
            Take(p.abstractText, 800))
  }

  function ResultKeeps(p: Paper): bool { Mentions(p.abstractText, ResultWords) }

  function ResultExample(p: Paper): Example {
    Example("Summarize the key findings and results of this study.", "Study: " + p.title,
            Take(p.abstractText, 800))
  }

  /** The keyword test of the last two formatters, as a loop over the
      words. */
  method MentionsAny(abstractText: string, words: seq<string>) returns (found: bool)
    ensures found == Mentions(abstractText, words)
  {
    var lower := Lower(abstractText);
    found := false;
    for j := 0 to |words|
      invariant found <==> exists w :: w in words[..j] && Contains(lower, w)
    {
      assert words[..j + 1] == words[..j] + [words[j]];
      if Contains(lower, words[j]) {
        found := true;
      }
    }
    assert words[..|words|] == words;
  }

  /** `create_methodology_examples`. */
  method CreateMethodologyExamples(papers: seq<Paper>) returns (examples: seq<Example>)
    ensures examples == Filtered(papers, MethodKeeps, MethodExample)
  {
    examples := [];
    for i := 0 to |papers|
      invariant examples == Filtered(papers[..i], MethodKeeps, MethodExample)
    {
      FilteredStep(papers, i, MethodKeeps, MethodExample);
      var p := papers[i];
      var mentions := MentionsAny(p.abstractText, MethodWords);
      if mentions {
        examples := examples + [Example("Describe the methodology for this research study.",
                                        "Research topic: " + p.title, Take(p.abstractText, 800))];
      }
    }
    assert papers[..|papers|] == papers;
  }

  /** `create_results_examples`. */
  method CreateResultsExamples(papers: seq<Paper>) returns (examples: seq<Example>)
    ensures examples == Filtered(papers, ResultKeeps, ResultExample)
  {
    examples := [];
    for i := 0 to |papers|
      invariant examples == Filtered(papers[..i], ResultKeeps, ResultExample)
    {
      FilteredStep(papers, i, ResultKeeps, ResultExample);
      var p := papers[i];
      var mentions := MentionsAny(p.abstractText, ResultWords);
      if mentions {
        examples := examples + [Example("Summarize the key findings and results of this study.",
                                        "Study: " + p.title, Take(p.abstractText, 800))];
      }
    }
    assert papers[..|papers|] == papers;
  }

  /** Methodology and results examples come only from abstracts that
      mention one of their words, and carry the abstract's first 800
      characters; every paper that mentions one gives its example. */
  lemma KeywordExamplesShape(papers: seq<Paper>)
    ensures forall e :: e in Filtered(papers, MethodKeeps, MethodExample) ==>
      exists p :: p in papers && Mentions(p.abstractText, MethodWords) && e.output == Take(p.abstractText, 800)
    ensures forall e :: e in Filtered(papers, ResultKeeps, ResultExample) ==>
      exists p :: p in papers && Mentions(p.abstractText, ResultWords) && e.output == Take(p.abstractText, 800)
    ensures forall p :: p in papers && Mentions(p.abstractText, MethodWords) ==>
      MethodExample(p) in Filtered(papers, MethodKeeps, MethodExample)
    ensures forall p :: p in papers && Mentions(p.abstractText, ResultWords) ==>
      ResultExample(p) in Filtered(papers, ResultKeeps, ResultExample)
  {
    FilteredFaithful(papers, MethodKeeps, MethodExample);
    FilteredFaithful(papers, ResultKeeps, ResultExample);
  }
}
