/*
  The "Local PDF Search Tool" an agent calls: it opens the saved index,
  asks it for the five passages nearest to the query and renders them as
  numbered blocks with an excerpt of at most 300 characters. The same
  tool is defined in the package and in both writer scripts. Their text
  differs in the command the "not available" message names, and in the
  search system they open: the scripts use the `RAGSystem` of
  `rag_utils.py`, the package imports one from `src/rag/rag_system.py`,
  which is not part of this model; both are modelled by `Rag.RAGSystem`.

  The two-decimal rendering of the relevance score (`{score:.2f}`) is the
  parameter `fmt2`.
*/
module RagSearchTool {
  import opened Wrappers
  import opened Text
  import opened Rag

  const Header: string := "=== LOCAL PDF LIBRARY RESULTS ===\n"
  const NoContent: string := "No relevant content found in local PDF library."
  /** The "not available" message of the package's tool. */
  const PackageUnavailable: string :=
    "Local PDF library not available. Run 'python scripts/rag_setup.py' first to index your PDFs."
  /** The "not available" message of the two writer scripts' copies. */
  const ScriptUnavailable: string :=
    "Local PDF library not available. Run 'python rag_setup.py' first to index your PDFs."
  const TopK: nat := 5
  const ExcerptChars: nat := 300

  /** `result.get('relevance_score', 0)`. */
  function Relevance(p: Passage): real {
    match p.relevance
    case None => 0.0
    case Some(v) => v
  }

  /** The label that opens block number `i`. */
  function Label(i: nat): string {
    "[Local-" + NatToString(i) + "] "
  }

  /** The block for result number `i`. */
  function LocalBlock(i: nat, p: Passage, fmt2: real -> string): string {
    Label(i) + p.chunk.filename + " (page " + NatToString(p.chunk.pageNum)
      + ", relevance: " + fmt2(Relevance(p)) + ")\n"
      + "Excerpt: " + Ellipsize(p.chunk.text, ExcerptChars) + "\n"
  }

  function LocalBlocks(results: seq<Passage>, fmt2: real -> string): (bs: seq<string>)
    ensures |bs| == |results|
  {
    seq(|results|, i requires 0 <= i < |results| => LocalBlock(i + 1, results[i], fmt2))
  }

  /** What the tool returns for a list of search results. */
  function LocalResultsText(results: seq<Passage>, fmt2: real -> string): string {
    if results == [] then NoContent
    else Join("\n", [Header] + LocalBlocks(results, fmt2))
  }

  /** The output for a non-empty list is the header, a blank line (the
      header's own newline and the separator) and then the blocks, one per
      result, separated by newlines. */
  lemma LocalResultsLayout(results: seq<Passage>, fmt2: real -> string)
    requires results != []
    ensures LocalResultsText(results, fmt2) == Header + "\n" + Join("\n", LocalBlocks(results, fmt2))
    ensures StartsWith(LocalResultsText(results, fmt2), "=== LOCAL PDF LIBRARY RESULTS ===\n\n")
  {
    var bs := LocalBlocks(results, fmt2);
    JoinCons("\n", Header, bs);
    var t := LocalResultsText(results, fmt2);
    assert t == (Header + "\n") + Join("\n", bs);
    assert t[..|Header + "\n"|] == Header + "\n";
  }

  /** Block `i` opens with its label and the file name, shows the file's
      page and ends with the excerpt: the whole text when it has at most
      300 characters, otherwise its first 300 characters and "...". A
      result without a score shows the rendering of 0. */
  lemma LocalBlockShape(i: nat, p: Passage, fmt2: real -> string)
    ensures var b := LocalBlock(i, p, fmt2);
      var x := Ellipsize(p.chunk.text, ExcerptChars);
      && StartsWith(b, "[Local-" + NatToString(i) + "] " + p.chunk.filename + " (page ")
      && EndsWith(b, "Excerpt: " + x + "\n")
      && |x| <= 303
      && (|p.chunk.text| <= 300 ==> x == p.chunk.text)
      && (|p.chunk.text| > 300 ==> x == p.chunk.text[..300] + "...")
      && (p.relevance.None? ==> Contains(b, ", relevance: " + fmt2(0.0) + ")\n"))
  {
    var x := Ellipsize(p.chunk.text, ExcerptChars);
    var b := LocalBlock(i, p, fmt2);
    var head := "[Local-" + NatToString(i) + "] " + p.chunk.filename + " (page ";
    var mid := NatToString(p.chunk.pageNum);
    var rel := ", relevance: " + fmt2(Relevance(p)) + ")\n";
    var tail := "Excerpt: " + x + "\n";
    assert b == head + mid + rel + tail;
    assert b[..|head|] == head;
    assert b[|b| - |tail|..] == tail;
    var k := |head + mid|;
    assert b[k..] == rel + tail;
    assert StartsWith(b[k..], rel);
  }

  /** Different result numbers give different labels, so the blocks are
      told apart by their labels alone. */
  lemma LabelsDistinct(i: nat, j: nat)
    requires i != j
    ensures Label(i) != Label(j)
  {
    var si, sj := NatToString(i), NatToString(j);
    if Label(i) == Label(j) {
      assert |si| == |sj|;
      assert si == Label(i)[7..7 + |si|];
      assert sj == Label(j)[7..7 + |sj|];
      NatToStringInjective(i, j);
    }
  }

  /** Results that come from a search all carry a score in (0, 1], so no
      block falls back to the default score 0. */
  lemma SearchedRelevanceInRange(chunks: seq<Chunk>, hits: seq<Hit>)
    requires NonNegativeDistances(hits)
    ensures var r := SearchResults(chunks, hits);
      forall j :: 0 <= j < |r| ==> 0.0 < Relevance(r[j]) <= 1.0
  {
    SearchResultsSound(chunks, hits);
  }

  /** Against an index holding one vector per stored chunk, the tool shows
      `min(5, number of chunks)` blocks, best score first, under the
      corrected filter. As the filter is written, the tool shows five
      blocks whenever a chunk is stored (the padding repeats the last
      chunk), and with no chunk the read of `chunks[-1]` raises. */
  lemma ToolShowsAtMostFive(chunks: seq<Chunk>, hits: seq<Hit>, fmt2: real -> string)
    requires FaissAnswer(hits, |chunks|, TopK)
    ensures var r := SearchResults(chunks, hits);
      && |r| <= 5 && |r| == Min(5, |chunks|)
      && forall i, j :: 0 <= i < j < |r| ==> Relevance(r[j]) <= Relevance(r[i])
    ensures |chunks| == 0 ==> SearchResultsAsWritten(chunks, hits).Err?
    ensures |chunks| > 0 ==>
      && SearchResultsAsWritten(chunks, hits).Ok?
      && |LocalBlocks(SearchResultsAsWritten(chunks, hits).value, fmt2)| == 5
  {
    ConsistentSearchCount(chunks, hits, TopK);
    AsWrittenSearchCount(chunks, hits, TopK);
  }

  /** The formatting loop of the tool: the header, then one block per
      result, joined by newlines. */
  method FormatLocalResults(results: seq<Passage>, fmt2: real -> string) returns (text: string)
    ensures text == LocalResultsText(results, fmt2)
  {
    if results == [] {
      return NoContent;
    }
    var formatted: seq<string> := [Header];
    for i := 0 to |results|
      invariant formatted == [Header] + LocalBlocks(results[..i], fmt2)
    {
      formatted := formatted + [LocalBlock(i + 1, results[i], fmt2)];
    }
    assert results[..|results|] == results;
    text := Join("\n", formatted);
  }

  /** `rag_search_tool`: a fresh system loads the saved index; when that
      fails the tool says the library is not available, otherwise it
      formats the top five results for the query. `unavailable` is the
      copy's own "not available" message. */
  method RagSearchTool(encode: string -> seq<real>, disk: Disk, query: string,
                       knn: (VectorIndex, seq<real>, nat) -> seq<Hit>,
                       fmt2: real -> string, unavailable: string)
    returns (out: string)
    requires forall ix, q, k :: NonNegativeDistances(knn(ix, q, k))
    ensures !LoadSucceeds(disk) ==> out == unavailable
    ensures LoadSucceeds(disk) ==>
      out == LocalResultsText(SearchResults(disk.chunksFile.value,
                                            knn(disk.indexFile.value, encode(query), TopK)), fmt2)
  {
    var rag := new RAGSystem(encode, disk);
    var ok := rag.LoadIndex();
    if !ok {
      return unavailable;
    }
    var results := rag.Search(query, TopK, knn);
    out := FormatLocalResults(results, fmt2);
  }
}
