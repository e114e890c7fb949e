/** The local retrieval core of rag_utils.py: the `RAGSystem` class that
    turns a folder of PDFs into chunk records and embedding vectors, saves
    and reloads them, and answers searches; plus `check_rag_ready`.

    The embedding model is the function `encode` the system is built
    with, the PDF reader is the list of page texts of each file (or `None`
    when reading raises), the FAISS index is a list of vectors whose
    nearest-neighbour search is an oracle answering `(slot, distance)`
    pairs, and the three files under the database folder are the `disk`
    field. */
module Rag {
  import opened Wrappers
  import opened Text
  import opened Chunking

  const EmbeddingModel: string := "all-MiniLM-L6-v2"
  const DefaultChunkSize: nat := 500
  const DefaultOverlap: nat := 50
  /** The distance FAISS reports for a padding slot (the largest float32). */
  const FltMax: real := 340282346638528859811704183484516925440.0

  /** A page kept by the PDF reader, with its 1-based page number. */
  datatype Page = Page(text: string, pageNum: nat, filename: string)

  /** A file found by the `*.pdf` glob: its name and the text of each of its
      pages, or `None` when opening or reading it raises. */
  datatype PdfFile = PdfFile(name: string, pages: Option<seq<string>>)

  /** A stored chunk record: `{'text', 'filename', 'page_num', 'chunk_idx'}`. */
  datatype Chunk = Chunk(text: string, filename: string, pageNum: nat, chunkIdx: nat)

  /** A search result: a copy of a chunk record plus its
      `relevance_score` (absent in records that did not come from a
      search). */
  datatype Passage = Passage(chunk: Chunk, relevance: Option<real>)

  /** A value of the JSON metadata file. */
  datatype MetaValue = Num(n: int) | Str(s: string) | Strs(ss: seq<string>)

  type Metadata = map<string, MetaValue>

  /** A FAISS flat L2 index: the vectors added to it, in order. */
  datatype VectorIndex = VectorIndex(vectors: seq<seq<real>>)

  /** One answer of the index: a slot (`-1` for padding) and its distance. */
  datatype Hit = Hit(slot: int, distance: real)

  /** A file under the database folder: absent, present but unreadable
      (reading it raises), or present with a value. */
  datatype Stored<T> = Missing | Unreadable | Present(value: T)

  /** `faiss_index.bin`, `chunks.pkl` and `metadata.json`. */
  datatype Disk = Disk(indexFile: Stored<VectorIndex>, chunksFile: Stored<seq<Chunk>>,
                       metadataFile: Stored<Metadata>)

  /** The dictionary `index_pdfs` returns. */
  datatype IndexOutcome = Failure(message: string) | Success(metadata: Metadata)

  // ---------------------------------------------------------------------
  // Page extraction
  // ---------------------------------------------------------------------

  /** The pages `extract_text_from_pdf` keeps from the page texts `texts`:
      the non-blank ones, each numbered by its position plus one. */
  function KeptPages(name: string, texts: seq<string>): seq<Page>
    decreases |texts|
  {
    if texts == [] then []
    else
      var n := |texts|;
      KeptPages(name, texts[..n - 1])
        + (if AllSpace(texts[n - 1]) then [] else [Page(texts[n - 1], n, name)])
  }

  /** What `extract_text_from_pdf` returns for a file; a file whose reading
      raises gives no pages. */
  function ExtractedPages(pdf: PdfFile): seq<Page> {
    match pdf.pages
    case None => []
    case Some(texts) => KeptPages(pdf.name, texts)
  }

  function CountNonBlank(texts: seq<string>): nat
    decreases |texts|
  {
    if texts == [] then 0
    else CountNonBlank(texts[..|texts| - 1]) + (if AllSpace(texts[|texts| - 1]) then 0 else 1)
  }

  /** Every kept page is a non-blank page of the file, carries the file's
      name and its own 1-based page number; page numbers strictly
      increase; and there are exactly as many kept pages as non-blank
      pages. */
  lemma {:induction false} KeptPagesFaithful(name: string, texts: seq<string>)
    ensures var ps := KeptPages(name, texts);
      && |ps| == CountNonBlank(texts)
      && (forall j :: 0 <= j < |ps| ==>
            && 1 <= ps[j].pageNum <= |texts|
            && ps[j].text == texts[ps[j].pageNum - 1]
            && !AllSpace(ps[j].text)
            && ps[j].filename == name)
      && (forall j, l :: 0 <= j < l < |ps| ==> ps[j].pageNum < ps[l].pageNum)
    decreases |texts|
  {
    if texts != [] {
      var n := |texts|;
      var init := texts[..n - 1];
      KeptPagesFaithful(name, init);
      var prev := KeptPages(name, init);
      var ps := KeptPages(name, texts);
      var tail := if AllSpace(texts[n - 1]) then [] else [Page(texts[n - 1], n, name)];
      assert ps == prev + tail;
      forall j | 0 <= j < |ps|
        ensures 1 <= ps[j].pageNum <= n && ps[j].text == texts[ps[j].pageNum - 1]
      {
        if j < |prev| {
          assert ps[j] == prev[j];
          assert init[prev[j].pageNum - 1] == texts[prev[j].pageNum - 1];
        }
      }
    }
  }

  /** A page is kept exactly when its text is not blank. */
  lemma {:induction false} KeptPagesComplete(name: string, texts: seq<string>, i: nat)
    requires i < |texts| && !AllSpace(texts[i])
    ensures exists j :: 0 <= j < |KeptPages(name, texts)| && KeptPages(name, texts)[j] == Page(texts[i], i + 1, name)
    decreases |texts|
  {
    var n := |texts|;
    var prev := KeptPages(name, texts[..n - 1]);
    var ps := KeptPages(name, texts);
    var tail := if AllSpace(texts[n - 1]) then [] else [Page(texts[n - 1], n, name)];
    assert ps == prev + tail;
    if i == n - 1 {
      assert ps[|prev|] == Page(texts[i], i + 1, name);
    } else {
      KeptPagesComplete(name, texts[..n - 1], i);
      var j :| 0 <= j < |prev| && prev[j] == Page(texts[..n - 1][i], i + 1, name);
      assert ps[j] == prev[j];
    }
  }

  // ---------------------------------------------------------------------
  // Index assembly
  // ---------------------------------------------------------------------

  /** The chunk records of one page: its chunks, numbered from 0. */
  function PageChunks(p: Page, chunkSize: nat): (cs: seq<Chunk>)
    requires DefaultOverlap < chunkSize
  {
    var texts := ChunkTexts(p.text, chunkSize, DefaultOverlap);
    seq(|texts|, i requires 0 <= i < |texts| => Chunk(texts[i], p.filename, p.pageNum, i))
  }

  function PagesChunks(pages: seq<Page>, chunkSize: nat): seq<Chunk>
    requires DefaultOverlap < chunkSize
    decreases |pages|
  {
    if pages == [] then []
    else PagesChunks(pages[..|pages| - 1], chunkSize) + PageChunks(pages[|pages| - 1], chunkSize)
  }

  /** Every chunk record `index_pdfs` builds from `files`, in order. */
  function AllChunks(files: seq<PdfFile>, chunkSize: nat): seq<Chunk>
    requires DefaultOverlap < chunkSize
    decreases |files|
  {
    if files == [] then []
    else AllChunks(files[..|files| - 1], chunkSize)
         + PagesChunks(ExtractedPages(files[|files| - 1]), chunkSize)
  }

  lemma AllChunksStep(files: seq<PdfFile>, chunkSize: nat, f: nat)
    requires DefaultOverlap < chunkSize && f < |files|
    ensures AllChunks(files[..f + 1], chunkSize)
         == AllChunks(files[..f], chunkSize) + PagesChunks(ExtractedPages(files[f]), chunkSize)
  {
    assert files[..f + 1][..f] == files[..f];
  }

  lemma PagesChunksStep(pages: seq<Page>, chunkSize: nat, p: nat)
    requires DefaultOverlap < chunkSize && p < |pages|
    ensures PagesChunks(pages[..p + 1], chunkSize)
         == PagesChunks(pages[..p], chunkSize) + PageChunks(pages[p], chunkSize)
  {
    assert pages[..p + 1][..p] == pages[..p];
  }

  lemma PageChunksStep(page: Page, chunkSize: nat, i: nat)
    requires DefaultOverlap < chunkSize && i < |ChunkTexts(page.text, chunkSize, DefaultOverlap)|
    ensures var pc := PageChunks(page, chunkSize);
      pc[..i + 1] == pc[..i]
        + [Chunk(ChunkTexts(page.text, chunkSize, DefaultOverlap)[i], page.filename, page.pageNum, i)]
  {
    var texts := ChunkTexts(page.text, chunkSize, DefaultOverlap);
    var pc := PageChunks(page, chunkSize);
    assert |pc| == |texts|;
    assert pc[i] == Chunk(texts[i], page.filename, page.pageNum, i);
    assert pc[..i + 1] == pc[..i] + [pc[i]];
  }

  lemma AppendAssoc<T>(a: seq<T>, b: seq<T>, c: seq<T>)
    ensures (a + b) + c == a + (b + c)
  {
  }

  /** The embedding of each chunk record, in the same order. */
  function Embeddings(encode: string -> seq<real>, cs: seq<Chunk>): (es: seq<seq<real>>)
    ensures |es| == |cs|
  {
    seq(|cs|, i requires 0 <= i < |cs| => encode(cs[i].text))
  }

  lemma EmbeddingsAppend(encode: string -> seq<real>, cs: seq<Chunk>, c: Chunk)
    ensures Embeddings(encode, cs + [c]) == Embeddings(encode, cs) + [encode(c.text)]
  {
    assert forall i :: 0 <= i < |cs| ==> (cs + [c])[i] == cs[i];
  }

  function FileNames(files: seq<PdfFile>): (names: seq<string>)
    ensures |names| == |files|
  {
    seq(|files|, i requires 0 <= i < |files| => files[i].name)
  }

  /** The metadata `index_pdfs` writes. */
  function IndexMetadata(files: seq<PdfFile>, chunkSize: nat, numChunks: nat): Metadata {
    map["num_pdfs" := Num(|files|), "num_chunks" := Num(numChunks),
        "pdf_files" := Strs(FileNames(files)), "chunk_size" := Num(chunkSize),
        "embedding_model" := Str(EmbeddingModel)]
  }

  /** The metadata of an index counts its files and its chunk records. */
  lemma IndexMetadataCounts(files: seq<PdfFile>, chunkSize: nat, numChunks: nat)
    ensures var m := IndexMetadata(files, chunkSize, numChunks);
      && "num_chunks" in m && m["num_chunks"] == Num(numChunks)
      && "num_pdfs" in m && m["num_pdfs"] == Num(|files|)
  {
  }

  /** Every chunk record of a page carries that page's name and number,
      is numbered by its position on the page, and holds more than 50
      characters. */
  lemma PageChunksFaithful(p: Page, chunkSize: nat)
    requires DefaultOverlap < chunkSize
    ensures var cs := PageChunks(p, chunkSize);
      forall i :: 0 <= i < |cs| ==>
        && cs[i].chunkIdx == i
        && cs[i].filename == p.filename && cs[i].pageNum == p.pageNum
        && |cs[i].text| > MinChunkChars
  {
    ChunkTextsProperties(p.text, chunkSize, DefaultOverlap);
    var texts := ChunkTexts(p.text, chunkSize, DefaultOverlap);
    assert forall i :: 0 <= i < |texts| ==> texts[i] in texts;
  }

  /** Properties shared by every chunk record of an index. */
  predicate GoodChunk(c: Chunk, files: seq<PdfFile>) {
    && |c.text| > MinChunkChars
    && c.pageNum >= 1
    && c.filename in FileNames(files)
  }

  lemma {:induction false} PagesChunksGood(pages: seq<Page>, chunkSize: nat, files: seq<PdfFile>)
    requires DefaultOverlap < chunkSize
    requires forall j :: 0 <= j < |pages| ==> pages[j].pageNum >= 1 && pages[j].filename in FileNames(files)
    ensures forall c :: c in PagesChunks(pages, chunkSize) ==> GoodChunk(c, files)
    decreases |pages|
  {
    if pages != [] {
      var init, last := pages[..|pages| - 1], pages[|pages| - 1];
      forall j | 0 <= j < |init| ensures init[j].pageNum >= 1 && init[j].filename in FileNames(files) {
        assert init[j] == pages[j];
      }
      PagesChunksGood(init, chunkSize, files);
      PageChunksFaithful(last, chunkSize);
      var before, pc := PagesChunks(init, chunkSize), PageChunks(last, chunkSize);
      assert PagesChunks(pages, chunkSize) == before + pc;
      forall c | c in before + pc ensures GoodChunk(c, files) {
        if c !in before {
          var i :| 0 <= i < |pc| && pc[i] == c;
        }
      }
    }
  }

  /** Every chunk record of an index holds more than 50 characters, comes
      from a page numbered from 1, and names one of the globbed files. */
  lemma {:induction false} AllChunksGood(files: seq<PdfFile>, chunkSize: nat, upto: nat)
    requires DefaultOverlap < chunkSize && upto <= |files|
    ensures forall c :: c in AllChunks(files[..upto], chunkSize) ==> GoodChunk(c, files)
    decreases upto
  {
    if upto > 0 {
      var f := files[upto - 1];
      assert files[..upto][..upto - 1] == files[..upto - 1];
      AllChunksGood(files, chunkSize, upto - 1);
      assert f.name == FileNames(files)[upto - 1];
      var pages := ExtractedPages(f);
      if f.pages.Some? {
        KeptPagesFaithful(f.name, f.pages.value);
      }
      PagesChunksGood(pages, chunkSize, files);
    }
  }

  /** A folder whose files are all unreadable or blank yields no chunks. */
  lemma {:induction false} NoTextNoChunks(files: seq<PdfFile>, chunkSize: nat)
    requires DefaultOverlap < chunkSize
    requires forall i :: 0 <= i < |files| ==> ExtractedPages(files[i]) == []
    ensures AllChunks(files, chunkSize) == []
    decreases |files|
  {
    if files != [] {
      NoTextNoChunks(files[..|files| - 1], chunkSize);
    }
  }

  // ---------------------------------------------------------------------
  // Loading
  // ---------------------------------------------------------------------

  /** `load_index` returns True exactly when all three files read and the
      metadata has the two counts its message prints. */
  predicate LoadSucceeds(d: Disk) {
    && d.indexFile.Present? && d.chunksFile.Present? && d.metadataFile.Present?
    && "num_chunks" in d.metadataFile.value && "num_pdfs" in d.metadataFile.value
  }

  /** What `index_pdfs` leaves on disk. */
  function SavedDisk(index: VectorIndex, chunks: seq<Chunk>, metadata: Metadata): Disk {
    Disk(Present(index), Present(chunks), Present(metadata))
  }

  /** Whatever `index_pdfs` saves, `load_index` reads back. */
  lemma SavedIndexReloads(files: seq<PdfFile>, chunkSize: nat, index: VectorIndex, chunks: seq<Chunk>)
    ensures var d := SavedDisk(index, chunks, IndexMetadata(files, chunkSize, |chunks|));
      LoadSucceeds(d) && d.indexFile.value == index && d.chunksFile.value == chunks
  {
    assert "num_chunks" in IndexMetadata(files, chunkSize, |chunks|);
  }

  /** Loading checks nothing about the agreement of the three files: an
      index of one vector can be loaded next to an empty chunk list. */
  lemma LoadAcceptsMismatchedFiles()
    ensures exists d: Disk ::
      (LoadSucceeds(d) && |d.indexFile.value.vectors| != |d.chunksFile.value|)
  {
    var m: Metadata := map["num_chunks" := Num(0), "num_pdfs" := Num(0)];
    var d := Disk(Present(VectorIndex([[0.0]])), Present([]), Present(m));
    assert LoadSucceeds(d);
  }

  // ---------------------------------------------------------------------
  // Search
  // ---------------------------------------------------------------------

  /** The relevance score of a distance, `1 / (1 + d)`. */
  function Score(d: real): (s: real)
    requires d >= 0.0
    ensures 0.0 < s <= 1.0
  {
    1.0 / (1.0 + d)
  }

  /** A farther hit never scores higher. */
  lemma ScoreAntitone(d1: real, d2: real)
    requires 0.0 <= d1 <= d2
    ensures Score(d2) <= Score(d1)
    ensures d1 < d2 ==> Score(d2) < Score(d1)
  {
    var a, b := 1.0 + d1, 1.0 + d2;
    assert 1.0 / b <= 1.0 / a by {
      assert a * (1.0 / a) == 1.0;
      assert b * (1.0 / b) == 1.0;
    }
  }

  predicate NonNegativeDistances(hits: seq<Hit>) {
    forall i :: 0 <= i < |hits| ==> hits[i].distance >= 0.0
  }

  /** How a flat index answers a `k`-nearest query over `n` vectors:
      exactly `k` hits, closest first, real slots before the `-1`
      padding, and padding only when there are fewer than `k` vectors. */
  predicate FaissAnswer(hits: seq<Hit>, n: nat, k: nat) {
    && |hits| == k
    && NonNegativeDistances(hits)
    && (forall i, j :: 0 <= i < j < |hits| ==> hits[i].distance <= hits[j].distance)
    && (forall i :: 0 <= i < |hits| ==> (i < n ==> 0 <= hits[i].slot < n) && (i >= n ==> hits[i].slot == -1))
  }

  /** The results `search` builds from the index's answer: a hit whose slot
      is a position of `chunks` gives a copy of that chunk with its score;
      any other hit is dropped. */
  function SearchResults(chunks: seq<Chunk>, hits: seq<Hit>): (r: seq<Passage>)
    requires NonNegativeDistances(hits)
    decreases |hits|
  {
    if hits == [] then []
    else
      var h := hits[|hits| - 1];
      SearchResults(chunks, hits[..|hits| - 1])
        + (if 0 <= h.slot < |chunks| then [Passage(chunks[h.slot], Some(Score(h.distance)))] else [])
  }

  /** The positions, in order, of the hits whose slot is a position of a
      list of `n` chunks. */
  function ValidHitPositions(n: nat, hits: seq<Hit>): (pos: seq<nat>)
    ensures |pos| <= |hits|
    decreases |hits|
  {
    if hits == [] then []
    else
      ValidHitPositions(n, hits[..|hits| - 1])
        + (if 0 <= hits[|hits| - 1].slot < n then [|hits| - 1] else [])
  }

  /** Each listed position is that of a hit on a slot below `n`. */
  lemma {:induction false} ValidHitPositionsBounded(n: nat, hits: seq<Hit>)
    ensures forall j :: 0 <= j < |ValidHitPositions(n, hits)| ==> ValidHitPositions(n, hits)[j] < |hits|
    ensures forall j :: 0 <= j < |ValidHitPositions(n, hits)| ==>
      0 <= hits[ValidHitPositions(n, hits)[j]].slot < n
    decreases |hits|
  {
    if hits != [] {
      var init := hits[..|hits| - 1];
      ValidHitPositionsBounded(n, init);
      var prevPos := ValidHitPositions(n, init);
      var pos := ValidHitPositions(n, hits);
      var tailPos: seq<nat> := if 0 <= hits[|hits| - 1].slot < n then [|hits| - 1] else [];
      assert pos == prevPos + tailPos;
      forall j | 0 <= j < |pos| ensures pos[j] < |hits| && 0 <= hits[pos[j]].slot < n {
        if j < |prevPos| {
          assert pos[j] == prevPos[j] && init[prevPos[j]] == hits[prevPos[j]];
        } else {
          assert pos[j] == tailPos[0] == |hits| - 1;
          assert 0 <= hits[|hits| - 1].slot < n;
        }
      }
    }
  }

  /** The positions are listed in increasing order. */
  lemma {:induction false} ValidHitPositionsIncreasing(n: nat, hits: seq<Hit>)
    ensures forall i, j :: 0 <= i < j < |ValidHitPositions(n, hits)| ==>
      ValidHitPositions(n, hits)[i] < ValidHitPositions(n, hits)[j]
    decreases |hits|
  {
    if hits != [] {
      var init := hits[..|hits| - 1];
      ValidHitPositionsIncreasing(n, init);
      ValidHitPositionsBounded(n, init);
      var prevPos := ValidHitPositions(n, init);
      var pos := ValidHitPositions(n, hits);
      var tailPos: seq<nat> := if 0 <= hits[|hits| - 1].slot < n then [|hits| - 1] else [];
      assert pos == prevPos + tailPos;
      forall i, j | 0 <= i < j < |pos| ensures pos[i] < pos[j] {
        if j < |prevPos| {
          assert pos[i] == prevPos[i] && pos[j] == prevPos[j];
        } else {
          assert pos[j] == tailPos[0] == |hits| - 1;
          assert pos[i] == prevPos[i] && prevPos[i] < |init|;
        }
      }
    }
  }

  /** Every hit on a slot below `n` is listed. */
  lemma {:induction false} ValidHitPositionsComplete(n: nat, hits: seq<Hit>)
    ensures forall i :: 0 <= i < |hits| && 0 <= hits[i].slot < n ==> i in ValidHitPositions(n, hits)
    decreases |hits|
  {
    if hits != [] {
      var init := hits[..|hits| - 1];
      ValidHitPositionsComplete(n, init);
      var prevPos := ValidHitPositions(n, init);
      var pos := ValidHitPositions(n, hits);
      var last := |hits| - 1;
      var tailPos: seq<nat> := if 0 <= hits[last].slot < n then [last] else [];
      assert pos == prevPos + tailPos;
      forall i | 0 <= i < |hits| && 0 <= hits[i].slot < n ensures i in pos {
        if i < last {
          assert init[i] == hits[i] && i in prevPos;
        } else {
          assert pos[|pos| - 1] == i;
        }
      }
    }
  }

  /** Result `j` is the chunk of the hit at the `j`-th listed position,
      scored by that hit's distance. */
  lemma {:induction false} SearchResultsAtPositions(chunks: seq<Chunk>, hits: seq<Hit>)
    requires NonNegativeDistances(hits)
    ensures var r := SearchResults(chunks, hits);
      var pos := ValidHitPositions(|chunks|, hits);
      && |r| == |pos|
      && forall j :: 0 <= j < |pos| && pos[j] < |hits| && 0 <= hits[pos[j]].slot < |chunks| ==>
           r[j] == Passage(chunks[hits[pos[j]].slot], Some(Score(hits[pos[j]].distance)))
    decreases |hits|
  {
    if hits != [] {
      var init := hits[..|hits| - 1];
      SearchResultsAtPositions(chunks, init);
      ValidHitPositionsBounded(|chunks|, init);
      var prev := SearchResults(chunks, init);
      var prevPos := ValidHitPositions(|chunks|, init);
      var r := SearchResults(chunks, hits);
      var pos := ValidHitPositions(|chunks|, hits);
      var h := hits[|hits| - 1];
      var tail := if 0 <= h.slot < |chunks| then [Passage(chunks[h.slot], Some(Score(h.distance)))] else [];
      var tailPos: seq<nat> := if 0 <= h.slot < |chunks| then [|hits| - 1] else [];
      assert r == prev + tail;
      assert pos == prevPos + tailPos;
      forall j | 0 <= j < |pos| && pos[j] < |hits| && 0 <= hits[pos[j]].slot < |chunks|
        ensures r[j] == Passage(chunks[hits[pos[j]].slot], Some(Score(hits[pos[j]].distance)))
      {
        if j < |prevPos| {
          assert pos[j] == prevPos[j] && r[j] == prev[j] && init[prevPos[j]] == hits[prevPos[j]];
        } else {
          assert pos[j] == tailPos[0] && r[j] == tail[0];
        }
      }
    }
  }

  /** Search results keep exactly the hits on stored slots, in hit order:
      result `j` is the chunk of the hit at position `pos[j]`, scored by
      that hit's distance, where `pos` lists the positions of those hits
      in increasing order. So there are never more results than hits, and
      each is a stored chunk with a score in (0, 1]. */
  lemma SearchResultsSound(chunks: seq<Chunk>, hits: seq<Hit>)
    requires NonNegativeDistances(hits)
    ensures var r := SearchResults(chunks, hits);
      var pos := ValidHitPositions(|chunks|, hits);
      && |r| == |pos| <= |hits|
      && (forall j :: 0 <= j < |pos| ==>
            && pos[j] < |hits| && 0 <= hits[pos[j]].slot < |chunks|
            && r[j] == Passage(chunks[hits[pos[j]].slot], Some(Score(hits[pos[j]].distance))))
      && (forall i, j :: 0 <= i < j < |pos| ==> pos[i] < pos[j])
      && (forall i :: 0 <= i < |hits| && 0 <= hits[i].slot < |chunks| ==> i in pos)
      && forall j :: 0 <= j < |r| ==>
           && r[j].chunk in chunks
           && r[j].relevance.Some? && 0.0 < r[j].relevance.value <= 1.0
  {
    ValidHitPositionsBounded(|chunks|, hits);
    ValidHitPositionsIncreasing(|chunks|, hits);
    ValidHitPositionsComplete(|chunks|, hits);
    SearchResultsAtPositions(chunks, hits);
    var r := SearchResults(chunks, hits);
    var pos := ValidHitPositions(|chunks|, hits);
    forall j | 0 <= j < |r|
      ensures r[j].chunk in chunks && r[j].relevance.Some? && 0.0 < r[j].relevance.value <= 1.0
    {
      assert r[j] == Passage(chunks[hits[pos[j]].slot], Some(Score(hits[pos[j]].distance)));
    }
  }

  /** When every slot is a position of `chunks`, each hit gives exactly one
      result: result `j` is chunk `hits[j].slot` scored by its distance. */
  lemma {:induction false} SearchResultsAllValid(chunks: seq<Chunk>, hits: seq<Hit>)
    requires NonNegativeDistances(hits)
    requires forall i :: 0 <= i < |hits| ==> 0 <= hits[i].slot < |chunks|
    ensures var r := SearchResults(chunks, hits);
      && |r| == |hits|
      && forall j :: 0 <= j < |r| ==> r[j] == Passage(chunks[hits[j].slot], Some(Score(hits[j].distance)))
    decreases |hits|
  {
    if hits != [] {
      var init := hits[..|hits| - 1];
      SearchResultsAllValid(chunks, init);
      var prev := SearchResults(chunks, init);
      var r := SearchResults(chunks, hits);
      forall j | 0 <= j < |r|
        ensures r[j] == Passage(chunks[hits[j].slot], Some(Score(hits[j].distance)))
      {
        if j < |prev| { assert r[j] == prev[j] && init[j] == hits[j]; }
      }
    }
  }

  /** Padding slots are dropped: results come only from the real slots. */
  lemma {:induction false} SearchResultsDropPadding(chunks: seq<Chunk>, hits: seq<Hit>)
    requires NonNegativeDistances(hits)
    requires forall i :: 0 <= i < |hits| ==> hits[i].slot == -1
    ensures SearchResults(chunks, hits) == []
    decreases |hits|
  {
    if hits != [] {
      SearchResultsDropPadding(chunks, hits[..|hits| - 1]);
    }
  }

  lemma {:induction false} SearchResultsAppend(chunks: seq<Chunk>, a: seq<Hit>, b: seq<Hit>)
    requires NonNegativeDistances(a) && NonNegativeDistances(b)
    ensures NonNegativeDistances(a + b)
    ensures SearchResults(chunks, a + b) == SearchResults(chunks, a) + SearchResults(chunks, b)
    decreases |b|
  {
    if b == [] {
      assert a + b == a;
    } else {
      var ab := a + b;
      assert ab[..|ab| - 1] == a + b[..|b| - 1];
      assert ab[|ab| - 1] == b[|b| - 1];
      SearchResultsAppend(chunks, a, b[..|b| - 1]);
    }
  }

  /** With an index that holds one vector per stored chunk, a search for
      `k` results returns `min(k, number of chunks)` of them, scored from
      the closest down. */
  lemma ConsistentSearchCount(chunks: seq<Chunk>, hits: seq<Hit>, k: nat)
    requires FaissAnswer(hits, |chunks|, k)
    ensures var r := SearchResults(chunks, hits);
      && |r| == Min(k, |chunks|)
      && (forall j :: 0 <= j < |r| ==> r[j].relevance.Some?)
      && forall i, j :: 0 <= i < j < |r| ==> r[j].relevance.value <= r[i].relevance.value
  {
    var m := Min(k, |chunks|);
    var real_ := hits[..m];
    SearchKeepsRealHits(chunks, hits, k);
    SearchResultsAllValid(chunks, real_);
    var r := SearchResults(chunks, hits);
    forall i, j | 0 <= i < j < |r|
      ensures r[j].relevance.value <= r[i].relevance.value
    {
      assert real_[i] == hits[i] && real_[j] == hits[j];
      ScoreAntitone(hits[i].distance, hits[j].distance);
    }
  }

  /** Under the corrected filter only the first `min(k, n)` hits of an
      index answer, the real ones, give results. */
  lemma SearchKeepsRealHits(chunks: seq<Chunk>, hits: seq<Hit>, k: nat)
    requires FaissAnswer(hits, |chunks|, k)
    ensures var real_ := hits[..Min(k, |chunks|)];
      && NonNegativeDistances(real_)
      && (forall i :: 0 <= i < |real_| ==> 0 <= real_[i].slot < |chunks|)
      && SearchResults(chunks, hits) == SearchResults(chunks, real_)
  {
    var m := Min(k, |chunks|);
    var real_, pad := hits[..m], hits[m..];
    assert hits == real_ + pad;
    forall i | 0 <= i < |real_| ensures real_[i].distance >= 0.0 && 0 <= real_[i].slot < |chunks| {
      assert real_[i] == hits[i];
    }
    forall i | 0 <= i < |pad| ensures pad[i].distance >= 0.0 && pad[i].slot == -1 {
      assert pad[i] == hits[m + i];
    }
    SearchResultsAppend(chunks, real_, pad);
    SearchResultsDropPadding(chunks, pad);
  }

  /** The filter as `search` writes it, `idx < len(self.chunks)`: a negative
      slot passes and Python reads the chunk that many places from the
      end, or raises IndexError when there is no such chunk. */
  function SearchResultsAsWritten(chunks: seq<Chunk>, hits: seq<Hit>): Result<seq<Passage>, string>
    requires NonNegativeDistances(hits)
    decreases |hits|
  {
    if hits == [] then Ok([])
    else
      var h := hits[|hits| - 1];
      match SearchResultsAsWritten(chunks, hits[..|hits| - 1])
      case Err(e) => Err(e)
      case Ok(prev) =>
        if h.slot >= |chunks| then Ok(prev)
        else if h.slot >= 0 then Ok(prev + [Passage(chunks[h.slot], Some(Score(h.distance)))])
        else if h.slot >= -|chunks| then Ok(prev + [Passage(chunks[|chunks| + h.slot], Some(Score(h.distance)))])
        else Err("IndexError: list index out of range")
  }

  /** The chunk Python reads at a slot of `-n` up to `n - 1`: a negative
      slot counts from the end. */
  function PythonIndex(slot: int, n: nat): int {
    if slot >= 0 then slot else n + slot
  }

  /** As written, when every slot lies between `-n` and `n - 1` each hit
      gives one result: the chunk Python reads at that slot, scored by
      the hit's distance. */
  lemma {:induction false} AsWrittenEveryHitPasses(chunks: seq<Chunk>, hits: seq<Hit>)
    requires NonNegativeDistances(hits)
    requires forall i :: 0 <= i < |hits| ==> -|chunks| <= hits[i].slot < |chunks|
    ensures var w := SearchResultsAsWritten(chunks, hits);
      && w.Ok? && |w.value| == |hits|
      && forall j :: 0 <= j < |hits| ==>
           && 0 <= PythonIndex(hits[j].slot, |chunks|) < |chunks|
           && w.value[j] == Passage(chunks[PythonIndex(hits[j].slot, |chunks|)], Some(Score(hits[j].distance)))
    decreases |hits|
  {
    if hits != [] {
      var init := hits[..|hits| - 1];
      AsWrittenEveryHitPasses(chunks, init);
      var prev := SearchResultsAsWritten(chunks, init).value;
      var h := hits[|hits| - 1];
      var p := Passage(chunks[PythonIndex(h.slot, |chunks|)], Some(Score(h.distance)));
      assert SearchResultsAsWritten(chunks, hits) == Ok(prev + [p]);
      var w := prev + [p];
      forall j | 0 <= j < |hits|
        ensures 0 <= PythonIndex(hits[j].slot, |chunks|) < |chunks|
        ensures w[j] == Passage(chunks[PythonIndex(hits[j].slot, |chunks|)], Some(Score(hits[j].distance)))
      {
        if j < |init| { assert init[j] == hits[j] && w[j] == prev[j]; }
      }
    }
  }

  /** What `search` returns as written, for an index with one vector per
      stored chunk: no chunks and a non-empty answer raise IndexError;
      otherwise every one of the `k` hits gives a result, the real ones
      as under the corrected filter and each `-1` padding hit one more
      copy of the last chunk. */
  lemma AsWrittenSearchCount(chunks: seq<Chunk>, hits: seq<Hit>, k: nat)
    requires FaissAnswer(hits, |chunks|, k)
    ensures |chunks| == 0 && k > 0 ==> SearchResultsAsWritten(chunks, hits).Err?
    ensures |chunks| > 0 ==>
      var w := SearchResultsAsWritten(chunks, hits);
      && w.Ok? && |w.value| == k
      && w.value[..Min(k, |chunks|)] == SearchResults(chunks, hits)
      && forall j :: |chunks| <= j < k ==>
           w.value[j] == Passage(chunks[|chunks| - 1], Some(Score(hits[j].distance)))
  {
    if |chunks| == 0 && k > 0 {
      AsWrittenFirstPaddingRaises(chunks, hits);
    }
    if |chunks| > 0 {
      var n := |chunks|;
      forall i | 0 <= i < |hits| ensures -n <= hits[i].slot < n {
      }
      AsWrittenEveryHitPasses(chunks, hits);
      ConsistentSearchCount(chunks, hits, k);
      var w := SearchResultsAsWritten(chunks, hits).value;
      var r := SearchResults(chunks, hits);
      var m := Min(k, n);
      var real_ := hits[..m];
      SearchKeepsRealHits(chunks, hits, k);
      SearchResultsAllValid(chunks, real_);
      forall j | 0 <= j < m ensures w[..m][j] == r[j] {
        assert real_[j] == hits[j];
      }
      assert w[..m] == r;
      forall j | n <= j < k
        ensures w[j] == Passage(chunks[n - 1], Some(Score(hits[j].distance)))
      {
        assert hits[j].slot == -1;
      }
    }
  }

  /** With no chunks, the first hit of the answer is padding, and Python
      raises IndexError reading `chunks[-1]`. */
  lemma AsWrittenFirstPaddingRaises(chunks: seq<Chunk>, hits: seq<Hit>)
    requires |chunks| == 0 && |hits| > 0
    requires NonNegativeDistances(hits)
    requires forall i :: 0 <= i < |hits| ==> hits[i].slot == -1
    ensures SearchResultsAsWritten(chunks, hits).Err?
    decreases |hits|
  {
    if |hits| > 1 {
      AsWrittenFirstPaddingRaises(chunks, hits[..|hits| - 1]);
    }
  }

  /** With one stored chunk, a search for two results gets the real hit and
      one `-1` padding hit from the index; as written that padding turns
      into a second copy of the last chunk, while the bounded filter
      returns the one real result. */
  lemma PaddingDuplicatesLastChunk(c: Chunk)
    ensures var hits := [Hit(0, 0.0), Hit(-1, FltMax)];
      && FaissAnswer(hits, 1, 2)
      && SearchResultsAsWritten([c], hits)
         == Ok([Passage(c, Some(1.0)), Passage(c, Some(Score(FltMax)))])
      && SearchResults([c], hits) == [Passage(c, Some(1.0))]
  {
    var hits := [Hit(0, 0.0), Hit(-1, FltMax)];
    var first := [Hit(0, 0.0)];
    assert hits[..1] == first;
    assert first[..0] == [];
    assert Score(0.0) == 1.0;
    assert SearchResultsAsWritten([c], first[..0]) == Ok([]);
    assert first[0].slot == 0 && [c][0] == c;
    assert SearchResultsAsWritten([c], first) == Ok([] + [Passage(c, Some(Score(0.0)))]);
    var one: seq<Passage> := [Passage(c, Some(1.0))];
    assert [] + [Passage(c, Some(Score(0.0)))] == one;
    assert SearchResultsAsWritten([c], first) == Ok(one);
    assert SearchResults([c], first[..0]) == [];
    assert SearchResults([c], first) == one;
    assert hits[|hits| - 1].slot == -1 && [c][|[c]| + -1] == c;
    assert SearchResultsAsWritten([c], hits)
        == Ok(one + [Passage(c, Some(Score(FltMax)))]);
    assert one + [Passage(c, Some(Score(FltMax)))] == [Passage(c, Some(1.0)), Passage(c, Some(Score(FltMax)))];
    assert SearchResults([c], hits) == one + [];
    assert FaissAnswer(hits, 1, 2);
  }

  // ---------------------------------------------------------------------
  // Citations of local results
  // ---------------------------------------------------------------------

  const NoLocalDocuments: string := "No relevant local documents found."

  /** The citation of result number `i` in the requested style. */
  function LocalCitation(style: string, i: nat, filename: string, page: nat): string {
    var p := NatToString(page);
    if style == "IEEE" then "[Local-" + NatToString(i) + "] " + filename + ", page " + p + "."
    else if style == "APA" then "(Local Document: " + filename + ", p. " + p + ")"
    else if style == "Vancouver" then "L" + NatToString(i) + ". " + filename + ". Page " + p + "."
    else "[" + filename + ", p. " + p + "]"
  }

  /** The entry for result number `i`: its citation, then the first 200
      characters of its text (with "..." when cut). */
  function CitationEntry(style: string, i: nat, p: Passage): string {
    LocalCitation(style, i, p.chunk.filename, p.chunk.pageNum)
      + "\nRelevant excerpt: " + Ellipsize(p.chunk.text, 200) + "\n"
  }

  function CitationEntries(style: string, results: seq<Passage>): (es: seq<string>)
    ensures |es| == |results|
  {
    seq(|results|, i requires 0 <= i < |results| => CitationEntry(style, i + 1, results[i]))
  }

  lemma CitationEntriesStep(style: string, results: seq<Passage>, i: nat)
    requires i < |results|
    ensures CitationEntries(style, results[..i + 1])
         == CitationEntries(style, results[..i]) + [CitationEntry(style, i + 1, results[i])]
  {
    var a := CitationEntries(style, results[..i + 1]);
    var b := CitationEntries(style, results[..i]) + [CitationEntry(style, i + 1, results[i])];
    forall j | 0 <= j < |a| ensures a[j] == b[j] {
      assert results[..i + 1][j] == results[j];
      if j < i { assert results[..i][j] == results[j]; }
    }
  }

  /** Each entry begins with its result's citation and its excerpt is the
      whole text or, for a text over 200 characters, its first 200
      characters and "..." (203 in all). */
  lemma CitationEntryShape(style: string, i: nat, p: Passage)
    ensures var e := CitationEntry(style, i, p);
      var x := Ellipsize(p.chunk.text, 200);
      && StartsWith(e, LocalCitation(style, i, p.chunk.filename, p.chunk.pageNum) + "\nRelevant excerpt: ")
      && EndsWith(e, x + "\n")
      && |x| <= 203
      && (|p.chunk.text| <= 200 ==> x == p.chunk.text)
      && (|p.chunk.text| > 200 ==> x == p.chunk.text[..200] + "...")
  {
    var head := LocalCitation(style, i, p.chunk.filename, p.chunk.pageNum) + "\nRelevant excerpt: ";
    var x := Ellipsize(p.chunk.text, 200);
    var e := CitationEntry(style, i, p);
    assert e == head + (x + "\n");
    assert e[..|head|] == head;
    assert e[|e| - |x + "\n"|..] == x + "\n";
  }

  /** IEEE and Vancouver citations are numbered: two results with
      different numbers never get the same citation. */
  lemma NumberedCitationsDistinct(style: string, i: nat, j: nat, f: string, p: nat)
    requires style == "IEEE" || style == "Vancouver"
    requires i != j
    ensures LocalCitation(style, i, f, p) != LocalCitation(style, j, f, p)
  {
    var si, sj := NatToString(i), NatToString(j);
    var tail := if style == "IEEE" then "] " + f + ", page " + NatToString(p) + "."
                else ". " + f + ". Page " + NatToString(p) + ".";
    var pre := if style == "IEEE" then "[Local-" else "L";
    assert LocalCitation(style, i, f, p) == pre + si + tail;
    assert LocalCitation(style, j, f, p) == pre + sj + tail;
    if pre + si + tail == pre + sj + tail {
      assert |si| == |sj|;
      assert si == (pre + si + tail)[|pre|..|pre| + |si|];
      assert sj == (pre + sj + tail)[|pre|..|pre| + |sj|];
      NatToStringInjective(i, j);
    }
  }

  // ---------------------------------------------------------------------
  // Readiness
  // ---------------------------------------------------------------------

  /** `check_rag_ready`, with the three file-system observations as
      inputs: whether the PDF folder exists, how many `*.pdf` files it
      holds, and whether `faiss_index.bin` exists. */
  function CheckRagReady(pdfFolder: string, folderExists: bool, pdfCount: nat, indexExists: bool): (r: (bool, string))
    ensures r.0 <==> folderExists && pdfCount > 0 && indexExists
    ensures !folderExists ==> r.1 == "PDF folder not found: " + pdfFolder
    ensures folderExists && pdfCount == 0 ==> r.1 == "No PDF files found in " + pdfFolder
    ensures folderExists && pdfCount > 0 && !indexExists ==> r.1 == "RAG index not found. Run 'python rag_setup.py' first."
    ensures r.0 ==> r.1 == "RAG ready: " + NatToString(pdfCount) + " PDFs indexed"
  {
    if !folderExists then (false, "PDF folder not found: " + pdfFolder)
    else if pdfCount == 0 then (false, "No PDF files found in " + pdfFolder)
    else if !indexExists then (false, "RAG index not found. Run 'python rag_setup.py' first.")
    else (true, "RAG ready: " + NatToString(pdfCount) + " PDFs indexed")
  }

  /** The readiness message says how many PDFs there are, and the count can
      be read back from it. */
  lemma ReadyMessageCount(pdfFolder: string, n: nat)
    requires n > 0
    ensures var r := CheckRagReady(pdfFolder, true, n, true);
      r.0 && |r.1| > 11 && DigitsValue(r.1[11..|r.1| - 13]) == n
  {
    var s := NatToString(n);
    var r := CheckRagReady(pdfFolder, true, n, true);
    assert r.1 == "RAG ready: " + s + " PDFs indexed";
    assert r.1[11..|r.1| - 13] == s;
    NatToStringRoundTrip(n);
  }

  // ---------------------------------------------------------------------
  // The system
  // ---------------------------------------------------------------------

  class RAGSystem {
    /** The sentence-transformers model, as a function from text to vector. */
    const encode: string -> seq<real>
    var index: Option<VectorIndex>
    var chunks: seq<Chunk>
    var metadata: Metadata
    /** The three files under the database folder. */
    var disk: Disk

    /** A system holds one vector per stored chunk and metadata that counts
        them. */
    predicate Consistent()
      reads this
    {
      && index.Some?
      && |index.value.vectors| == |chunks|
      && "num_chunks" in metadata && metadata["num_chunks"] == Num(|chunks|)
    }

    constructor (encode: string -> seq<real>, disk: Disk)
      ensures this.encode == encode && this.disk == disk
      ensures index == None && chunks == [] && metadata == map[]
    {
      this.encode := encode;
      this.disk := disk;
      index := None;
      chunks := [];
      metadata := map[];
    }

    /** `extract_text_from_pdf`: the non-blank pages of a file with their
        1-based numbers; a file that cannot be read gives no pages. */
    method ExtractTextFromPdf(pdf: PdfFile) returns (pages: seq<Page>)
      ensures pages == ExtractedPages(pdf)
    {
      pages := [];
      if pdf.pages.None? {
        return;
      }
      var texts := pdf.pages.value;
      for i := 0 to |texts|
        invariant pages == KeptPages(pdf.name, texts[..i])
      {
        assert texts[..i + 1][..i] == texts[..i];
        if !AllSpace(texts[i]) {
          pages := pages + [Page(texts[i], i + 1, pdf.name)];
        }
      }
      assert texts[..|texts|] == texts;
    }

    /** `chunk_text`: the kept windows of the page's words. */
    method ChunkText(text: string, chunkSize: nat, overlap: nat) returns (result: seq<string>)
      requires overlap < chunkSize
      ensures result == ChunkTexts(text, chunkSize, overlap)
    {
      var words := Words(text);
      var step: nat := chunkSize - overlap;
      ghost var target := KeptChunks(WindowsFrom(words, chunkSize, step, 0));
      assert target == ChunkTexts(text, chunkSize, overlap);
      result := [];
      var i: nat := 0;
      while i < |words|
        invariant target == result + KeptChunks(WindowsFrom(words, chunkSize, step, i))
        decreases |words| - i
      {
        var window := words[i..Min(i + chunkSize, |words|)];
        var next := i + step;
        var chunk := Join(" ", window);
        ghost var done := result;
        if |Strip(chunk)| > MinChunkChars {
          result := result + [chunk];
        }
        ChunkLoopStep(words, chunkSize, step, i, next, done, chunk, result);
        i := next;
      }
      ChunkLoopDone(words, chunkSize, step, i, result);
    }

    /** `index_pdfs`: chunk every non-blank page of every file, embed every
        chunk, and replace the index, the chunk list, the metadata and the
        three saved files. */
    method IndexPdfs(pdfFiles: seq<PdfFile>, chunkSize: nat) returns (outcome: IndexOutcome)
      requires DefaultOverlap < chunkSize
      modifies this
      ensures pdfFiles == [] ==> outcome == Failure("No PDFs found") && unchanged(this)
      ensures pdfFiles != [] && AllChunks(pdfFiles, chunkSize) == [] ==>
        outcome == Failure("No text extracted") && unchanged(this)
      ensures pdfFiles != [] && AllChunks(pdfFiles, chunkSize) != [] ==>
        && chunks == AllChunks(pdfFiles, chunkSize)
        && index == Some(VectorIndex(Embeddings(encode, chunks)))
        && metadata == IndexMetadata(pdfFiles, chunkSize, |chunks|)
        && disk == SavedDisk(index.value, chunks, metadata)
        && outcome == Success(metadata)
        && Consistent()
    {
      if pdfFiles == [] {
        return Failure("No PDFs found");
      }
      var allChunks, allEmbeddings := CollectChunks(pdfFiles, chunkSize);
      if allChunks == [] {
        return Failure("No text extracted");
      }
      index := Some(VectorIndex(allEmbeddings));
      chunks := allChunks;
      var meta := IndexMetadata(pdfFiles, chunkSize, |allChunks|);
      IndexMetadataCounts(pdfFiles, chunkSize, |allChunks|);
      disk := SavedDisk(index.value, chunks, meta);
      metadata := meta;
      outcome := Success(meta);
    }

    /** The file loop of `index_pdfs`: the chunk records of every
        non-blank page of every file, in order, each with its embedding. */
    method CollectChunks(pdfFiles: seq<PdfFile>, chunkSize: nat)
      returns (allChunks: seq<Chunk>, allEmbeddings: seq<seq<real>>)
      requires DefaultOverlap < chunkSize
      ensures allChunks == AllChunks(pdfFiles, chunkSize)
      ensures allEmbeddings == Embeddings(encode, allChunks)
    {
      allChunks, allEmbeddings := [], [];
      for f := 0 to |pdfFiles|
        invariant allChunks == AllChunks(pdfFiles[..f], chunkSize)
        invariant allEmbeddings == Embeddings(encode, allChunks)
      {
        AllChunksStep(pdfFiles, chunkSize, f);
        var pages := ExtractTextFromPdf(pdfFiles[f]);
        if pages == [] {
          assert allChunks + [] == allChunks;
          continue;
        }
        allChunks, allEmbeddings := AddFileChunks(pages, chunkSize, allChunks, allEmbeddings);
      }
      assert pdfFiles[..|pdfFiles|] == pdfFiles;
    }

    /** The page loop of `index_pdfs` for one file: append the chunk
        records of each page, in page order. */
    method AddFileChunks(pages: seq<Page>, chunkSize: nat, records: seq<Chunk>, vectors: seq<seq<real>>)
      returns (records': seq<Chunk>, vectors': seq<seq<real>>)
      requires DefaultOverlap < chunkSize
      requires vectors == Embeddings(encode, records)
      ensures records' == records + PagesChunks(pages, chunkSize)
      ensures vectors' == Embeddings(encode, records')
    {
      records', vectors' := records, vectors;
      assert records' == records + PagesChunks(pages[..0], chunkSize) by {
        assert pages[..0] == [];
      }
      for p := 0 to |pages|
        invariant records' == records + PagesChunks(pages[..p], chunkSize)
        invariant vectors' == Embeddings(encode, records')
      {
        PagesChunksStep(pages, chunkSize, p);
        AppendAssoc(records, PagesChunks(pages[..p], chunkSize), PageChunks(pages[p], chunkSize));
        records', vectors' := AddPageChunks(pages[p], chunkSize, records', vectors');
      }
      assert pages[..|pages|] == pages;
    }

    /** The body of the page loop of `index_pdfs`: chunk one page and
        append each chunk record, numbered from 0 on the page, together
        with its embedding. */
    method AddPageChunks(page: Page, chunkSize: nat, records: seq<Chunk>, vectors: seq<seq<real>>)
      returns (records': seq<Chunk>, vectors': seq<seq<real>>)
      requires DefaultOverlap < chunkSize
      requires vectors == Embeddings(encode, records)
      ensures records' == records + PageChunks(page, chunkSize)
      ensures vectors' == Embeddings(encode, records')
    {
      var texts := ChunkText(page.text, chunkSize, DefaultOverlap);
      records', vectors' := records, vectors;
      for chunkIdx := 0 to |texts|
        invariant records' == records + PageChunks(page, chunkSize)[..chunkIdx]
        invariant vectors' == Embeddings(encode, records')
      {
        var chunk := Chunk(texts[chunkIdx], page.filename, page.pageNum, chunkIdx);
        PageChunksStep(page, chunkSize, chunkIdx);
        AppendAssoc(records, PageChunks(page, chunkSize)[..chunkIdx], [chunk]);
        EmbeddingsAppend(encode, records', chunk);
        records' := records' + [chunk];
        vectors' := vectors' + [encode(chunk.text)];
      }
      assert PageChunks(page, chunkSize)[..|texts|] == PageChunks(page, chunkSize);
    }

    /** `load_index`: read the three files in turn. Each field is set as
        soon as its file has been read, so a failure part-way leaves the
        earlier fields replaced and the later ones as they were. */
    method LoadIndex() returns (ok: bool)
      modifies this
      ensures ok == LoadSucceeds(disk)
      ensures disk == old(disk)
      ensures index == (if disk.indexFile.Present? then Some(disk.indexFile.value) else old(index))
      ensures chunks == (if disk.indexFile.Present? && disk.chunksFile.Present?
                         then disk.chunksFile.value else old(chunks))
      ensures metadata == (if disk.indexFile.Present? && disk.chunksFile.Present? && disk.metadataFile.Present?
                           then disk.metadataFile.value else old(metadata))
    {
      if disk.indexFile.Missing? {
        return false;
      }
      if disk.indexFile.Unreadable? {
        return false;
      }
      index := Some(disk.indexFile.value);
      if !disk.chunksFile.Present? {
        return false;
      }
      chunks := disk.chunksFile.value;
      if !disk.metadataFile.Present? {
        return false;
      }
      metadata := disk.metadataFile.value;
      if "num_chunks" !in metadata || "num_pdfs" !in metadata {
        return false;
      }
      return true;
    }

    /** `search`: load the index if none is loaded (no results when that
        fails), ask the index for the `topK` nearest vectors to the query's
        embedding, and turn the hits into results. Stored chunks are never
        changed. `knn` is the index's nearest-neighbour search. */
    method Search(query: string, topK: nat, knn: (VectorIndex, seq<real>, nat) -> seq<Hit>)
      returns (results: seq<Passage>)
      requires forall ix, q, k :: NonNegativeDistances(knn(ix, q, k))
      modifies this
      ensures old(index).Some? ==> unchanged(this)
      ensures old(index).None? ==> disk == old(disk)
      ensures old(index).None? ==>
        index == (if disk.indexFile.Present? then Some(disk.indexFile.value) else old(index))
      ensures old(index).None? ==>
        chunks == (if disk.indexFile.Present? && disk.chunksFile.Present?
                   then disk.chunksFile.value else old(chunks))
      ensures old(index).None? ==>
        metadata == (if disk.indexFile.Present? && disk.chunksFile.Present? && disk.metadataFile.Present?
                     then disk.metadataFile.value else old(metadata))
      ensures old(index).None? && !LoadSucceeds(disk) ==> results == []
      ensures old(index).Some? || LoadSucceeds(disk) ==>
        && index.Some?
        && results == SearchResults(chunks, knn(index.value, encode(query), topK))
    {
      if index.None? {
        var loaded := LoadIndex();
        if !loaded {
          return [];
        }
      }
      var hits := knn(index.value, encode(query), topK);
      assert NonNegativeDistances(hits);
      results := [];
      for i := 0 to |hits|
        invariant results == SearchResults(chunks, hits[..i])
      {
        assert hits[..i + 1][..i] == hits[..i];
        var h := hits[i];
        if 0 <= h.slot < |chunks| {
          results := results + [Passage(chunks[h.slot], Some(Score(h.distance)))];
        }
      }
      assert hits[..|hits|] == hits;
    }

    /** `format_results_for_citation`: one entry per result, numbered from
        1, joined by newlines; a fixed message when there are none. */
    method FormatResultsForCitation(results: seq<Passage>, style: string) returns (text: string)
      ensures results == [] ==> text == NoLocalDocuments
      ensures results != [] ==> text == Join("\n", CitationEntries(style, results))
    {
      if results == [] {
        return NoLocalDocuments;
      }
      var formatted: seq<string> := [];
      for i := 0 to |results|
        invariant formatted == CitationEntries(style, results[..i])
      {
        CitationEntriesStep(style, results, i);
        formatted := formatted + [CitationEntry(style, i + 1, results[i])];
      }
      assert results[..|results|] == results;
      text := Join("\n", formatted);
    }
  }
}
