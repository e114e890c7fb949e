# Scientific paper writer: a verified model of its text-processing core

The repository builds scientific papers with a crew of LLM agents. Around the
agents sits a deterministic core, and this project models that core in Dafny
and proves properties of it:

- **Local retrieval over a PDF library** (`rag_utils.py`). Modelled as the
  class `Rag.RAGSystem`, which holds the vector index, the chunk records and
  the metadata.
  - Page extraction, and the sliding word window that cuts pages into chunks
    (module `Chunking`).
  - Assembling, saving and loading the index.
  - Turning nearest-neighbour hits into scored passages.
  - Citation formatting, and the readiness check.
- **The agents' two search tools.** They are defined in the package
  (`src/tools`) and copied into both writer scripts.
  - `RagSearchTool`: the local-library tool.
  - `WebSearch`: the CrossRef tool, working from parsed JSON items.
  - The copies in `scientific_paper_writer.py` and
    `scientific_paper_writer_OLD.py` (lines 54-130 of each) behave the same,
    so the same members model them. The "not available" message is the
    `unavailable` parameter of `RagSearchTool.RagSearchTool`: both scripts
    pass `ScriptUnavailable`, and the package passes `PackageUnavailable`.
  - The scripts' copies of the local tool open the `RAGSystem` of
    `rag_utils.py`. The package's tool imports one from
    `src/rag/rag_system.py`, which is not part of this model; it is taken
    to behave the same.
- **The export service** (`Export`):
  - file-name cleaning;
  - the metadata header;
  - classification of markdown lines into story elements, with HTML-entity escaping;
  - the PDF name and the `export_paper` result.
- **The interactive prompts** (`Input`, `src/utils/input_handler.py`):
  format selection, topic, file name, and the yes/no questions. The
  module imports `check_rag_ready` from `src/rag/rag_system.py`, which is
  not part of this model, so `ask_use_rag` takes the readiness it reports
  as a parameter.
- **The training-data script** (`TrainingData`):
  - the PubMed search term;
  - the Q1-journal test;
  - the three-way skip partition of `fetch_batch`;
  - the five instruction-example builders.
- **The decisions of the two writer scripts' `main`** (`PaperWriter`,
  `PaperWriterOld`):
  - format selection and the early return on an empty topic;
  - library use and the agent/task shapes;
  - output names, PDF export and the preview.
  - the reportlab branch of `markdown_to_pdf`. It is the same in both
    scripts (`scientific_paper_writer_OLD.py:384-444`), so
    `PaperWriter.ReportlabPdf` models both.

Strings are sequences of characters. Case mapping, digits and whitespace
follow Python's rules on ASCII.

Everything outside the program's own logic becomes a parameter:
- the embedding model (`encode`);
- the FAISS nearest-neighbour search (`knn`, returning slot/distance hits);
- the PDF reader (page texts per file);
- the files under the database folder (`Disk`);
- HTTP responses (`HttpOutcome`, `details`);
- the reportlab build (`renders`);
- the clock (`timestamp`, `date`);
- the `{:.2f}` rendering of a score (`fmt2`);
- every `input()` answer.

Modules: `Wrappers` (Option, Result), `Text` (Python string operations),
`Chunking`, `Rag`, `RagSearchTool`, `WebSearch`, `Export`, `Input`,
`TrainingData`, `PaperWriter`, `PaperWriterOld`.

## Model

| member | source | states |
|---|---|---|
| Chunking.WindowShape | rag_utils.py:65-69 | window k covers `words[k*S : k*S+W]` (cut at the end), is non-empty and has at most W words |
| Chunking.WindowCount | rag_utils.py:68 | the number of windows is ceil(n/S): `(c-1)*S < n <= c*S`, and 0 for no words |
| Chunking.WindowOverlap | rag_utils.py:68-69 | when window k is full, window k+1 exists and its first O words are the last O words of window k |
| Chunking.ChunkTextsProperties | rag_utils.py:69-73 | every kept chunk is longer than 50 characters and has no whitespace at its ends; kept chunks follow window order; every window whose stripped join is longer than 50 characters is kept |
| Chunking.BlankTextHasNoChunks | rag_utils.py:65-73 | whitespace-only text yields no chunks |
| Chunking.KeptChunksInWindowOrder | rag_utils.py:68-71 | kept chunks are a subsequence of the joined windows |
| Chunking.KeptChunksComplete | rag_utils.py:69-71 | every window whose stripped join is longer than 50 characters gives a chunk |
| Chunking.FiveHundredTwentyWords | rag_utils.py:63-73 | with the defaults, 520 words give the windows 0-499 and 450-519 |
| Rag.RAGSystem.ChunkText | rag_utils.py:63-73 | the loop returns exactly the kept windows of the page's words |
| Rag.RAGSystem.ExtractTextFromPdf | rag_utils.py:45-61 | returns the non-blank pages of a readable file, and nothing for an unreadable one |
| Rag.KeptPagesFaithful | rag_utils.py:50-57 | each kept page is non-blank, keeps its 1-based page number and text; numbers strictly increase; one page per non-blank page |
| Rag.KeptPagesComplete | rag_utils.py:52-57 | every non-blank page is kept, with number i+1 and the file's name |
| Rag.RAGSystem.IndexPdfs | rag_utils.py:75-157 | no files gives "No PDFs found", no chunks gives "No text extracted", and neither changes the state; otherwise chunks, index (one embedding per chunk), metadata and saved files are replaced and the system is consistent |
| Rag.RAGSystem.CollectChunks | rag_utils.py:93-118 | the file loop yields every chunk record, in order, with its embedding in lockstep |
| Rag.RAGSystem.AddFileChunks | rag_utils.py:103-118 | the page loop appends each page's records and their embeddings in lockstep |
| Rag.RAGSystem.AddPageChunks | rag_utils.py:104-118 | one page's chunks are appended numbered from 0, each embedding beside its record |
| Rag.PageChunksFaithful | rag_utils.py:106-113 | each record carries the page's name and number, chunk_idx equal to its position, and more than 50 characters |
| Rag.AllChunksGood | rag_utils.py:93-114 | every record of an index has more than 50 characters, a page number of at least 1, and the name of a globbed file |
| Rag.NoTextNoChunks | rag_utils.py:97-122 | files that are all unreadable or blank yield no chunk records |
| Rag.IndexMetadataCounts | rag_utils.py:143-149 | num_chunks counts the records and num_pdfs counts every globbed file, unreadable ones included |
| Rag.EmbeddingsAppend | rag_utils.py:114-118 | appending a record appends exactly its embedding |
| Rag.RAGSystem.LoadIndex | rag_utils.py:159-179 | succeeds exactly when the three files read; each field is set when its own file read, even if a later read fails |
| Rag.SavedIndexReloads | rag_utils.py:138-175 | whatever index_pdfs saves, load_index reads back |
| Rag.LoadAcceptsMismatchedFiles | rag_utils.py:166-175 | loading checks no agreement: a one-vector index loads beside an empty chunk list |
| Rag.RAGSystem.Search | rag_utils.py:181-202 | loads when needed, leaving the index, chunks and metadata as the load sets them, and returns nothing if that fails; otherwise each hit on a stored slot becomes a copy of that chunk plus its score; a loaded system is unchanged |
| Rag.Score | rag_utils.py:199 | `1/(1+d)` lies in (0, 1] for d >= 0 |
| Rag.ScoreAntitone | rag_utils.py:199 | a farther hit never scores higher, and a strictly farther one scores strictly lower |
| Rag.SearchResultsSound | rag_utils.py:195-200 | under the corrected filter, the results are exactly the hits on stored slots, in hit order: result j is the chunk of the j-th such hit, scored by that hit's distance; so at most one result per hit, each a stored chunk with a score in (0, 1] |
| Rag.SearchResultsAllValid | rag_utils.py:196-200 | when every slot is valid, result j is chunk `slot_j` with the score of distance j |
| Rag.SearchResultsDropPadding | rag_utils.py:197 | padding slots (-1) yield no results under the corrected filter |
| Rag.SearchResultsAppend | rag_utils.py:196-200 | results of concatenated hits are the concatenated results |
| Rag.ConsistentSearchCount | rag_utils.py:192-200 | under the corrected filter, against an index with one vector per chunk, a top-k search returns min(k, chunks) results, scores non-increasing |
| Rag.SearchKeepsRealHits | rag_utils.py:192-200 | under the corrected filter only the first min(k, chunks) hits of an index answer, all on stored slots, give results |
| Rag.AsWrittenEveryHitPasses | rag_utils.py:196-200 | as written, when every slot lies in `-len(chunks) .. len(chunks)-1`, each hit gives one result: the chunk Python reads at that slot, scored by the hit's distance |
| Rag.AsWrittenSearchCount | rag_utils.py:192-200 | as written, against an index with one vector per chunk: no chunks raise IndexError; otherwise a top-k search returns k results, the first min(k, chunks) as under the corrected filter and each padding hit a copy of the last chunk |
| Rag.PaddingDuplicatesLastChunk | rag_utils.py:196-200 | as written, a -1 padding slot passes `idx < len(chunks)` and duplicates the last chunk; the corrected filter drops it |
| Rag.RAGSystem.FormatResultsForCitation | rag_utils.py:204-228 | empty input gives "No relevant local documents found."; otherwise one entry per result, numbered from 1, joined by newlines |
| Rag.CitationEntryShape | rag_utils.py:212-226 | an entry starts with its style's citation and ends with the excerpt: the whole text, or the first 200 characters and "..." |
| Rag.NumberedCitationsDistinct | rag_utils.py:217-222 | IEEE and Vancouver citations of different result numbers differ |
| Rag.CheckRagReady | rag_utils.py:231-249 | folder, then PDF count, then index file are checked in order, each failure with its message; ready exactly when all three hold, with "RAG ready: N PDFs indexed" |
| Rag.ReadyMessageCount | rag_utils.py:249 | the ready message carries the PDF count, which reads back from it |
| RagSearchTool.RagSearchTool | src/tools/rag_search.py:14-43 | an index that does not load gives the "not available" message; otherwise the formatted top-5 search results under the corrected filter |
| RagSearchTool.FormatLocalResults | src/tools/rag_search.py:23-43 | no results gives the fixed message; otherwise the header, then one block per result, joined by newlines |
| RagSearchTool.LocalResultsLayout | src/tools/rag_search.py:27-43 | the output is the header, a blank line, then the blocks |
| RagSearchTool.LocalBlockShape | src/tools/rag_search.py:29-41 | a block opens with `[Local-i] filename (page `; its excerpt is the text when at most 300 characters, else 300 characters and "...", at most 303 in all; a missing score renders as 0 |
| RagSearchTool.LabelsDistinct | src/tools/rag_search.py:39 | blocks with different numbers have different labels |
| RagSearchTool.SearchedRelevanceInRange | src/tools/rag_search.py:33 | results from a search always carry a score in (0, 1] |
| RagSearchTool.ToolShowsAtMostFive | src/tools/rag_search.py:21 | against a consistent index the tool shows min(5, chunks) blocks, best score first, under the corrected filter; as written it shows five blocks whenever a chunk is stored, and raises with none |
| WebSearch.WebSearchTool | src/tools/web_search.py:14-44 | the tool's text for each HTTP outcome: lines for status 200, the fixed message for another status, the message with the error text for an exception |
| WebSearch.CollectAuthors | src/tools/web_search.py:25-30 | the inner loop collects the names of the usable authors among the first three |
| WebSearch.AuthorNamesFaithful | src/tools/web_search.py:26-30 | every name comes from an author with both names non-empty, rendered `G. Family`; none only when no author is usable |
| WebSearch.AuthorsTextFallback | src/tools/web_search.py:26-32 | at most three names; "Unknown Authors" exactly when none of the first three authors is usable |
| WebSearch.ItemLineShape | src/tools/web_search.py:24-37 | a line starts with its number and ends with `DOI: doi` or `N/A`; it fails only on empty date-parts |
| WebSearch.TitleFallback | src/tools/web_search.py:24 | a missing or empty title shows as "Unknown" |
| WebSearch.JournalFallback | src/tools/web_search.py:33 | a missing container title shows as "Unknown Journal" |
| WebSearch.YearFallback | src/tools/web_search.py:34 | no `published` entry shows the year "N/A" |
| WebSearch.ItemLinesFaithful | src/tools/web_search.py:23-37 | one line per item, line j numbered j+1, exactly when every item's line can be built |
| WebSearch.WebSearchAnswered | src/tools/web_search.py:23-39 | a 200 answer shows min(5, items) lines, and "No results found" exactly for no items |
| WebSearch.ErrorPersists | src/tools/web_search.py:23-37 | once an item raises, the whole query yields that error |
| Export.ExportService.SaveMarkdown | src/services/export_service.py:44-63 | writes the header and then the content, unchanged, under the cleaned name in the output folder |
| Export.MarkdownNameSafe | src/services/export_service.py:45-47 | the markdown name has no space, slash or backslash, ends in ".md", and begins with the cleaned name |
| Export.MarkdownNameIdempotent | src/services/export_service.py:45-47 | naming an already chosen name again keeps it |
| Export.PlainStemNames | src/services/export_service.py:45-194 | for a plain stem the files are `stem.md` and `stem.pdf`, with or without ".md" given |
| Export.PdfNameNotCleaned | src/services/export_service.py:194 | the PDF name comes from the uncleaned name, so a space survives there but not in the markdown name |
| Export.EscapeProperties | src/services/export_service.py:139-142 | escaped text has no `<` or `>`, and unescaping gives the line back |
| Export.EscapeIsEscapeEach | src/services/export_service.py:139-142 | the three passes (& first) equal a single character-by-character escape |
| Export.ClassifyRender | src/services/export_service.py:121-143 | a line's element is recovered from the line rendered back from it; title and heading text is non-empty and stripped |
| Export.ExportService.MarkdownToPdf | src/services/export_service.py:82-165 | builds the story and reports whether the build succeeded; only a success records a PDF |
| Export.BuildStory | src/services/export_service.py:117-156 | the loop builds one element per line, then the spacer and the footer |
| Export.StoryShape | src/services/export_service.py:120-156 | the story has lines+2 elements, ends with a 0.5-inch spacer and the footer, and has no footer earlier |
| Export.ExportService.ExportPaper | src/services/export_service.py:186-206 | saves the markdown; the PDF path is set only when export was asked and the build succeeded |
| Input.SelectionIsKey | src/utils/input_handler.py:26-41 | every answer resolves to a key of the table |
| Input.NumericSelection | src/utils/input_handler.py:29-32 | the answers 1 to 3 select IEEE, APA and Vancouver |
| Input.VancouverByNameFallsBack | src/utils/input_handler.py:35-41 | "apa" selects APA, but "Vancouver" upper-cases to a non-key and falls back to IEEE |
| Input.VancouverOnlyByNumber | src/utils/input_handler.py:29-37 | Vancouver is selected only by the number 3 |
| Input.FixedSelectionByName | src/utils/input_handler.py:35-37 | the corrected selection picks each key typed by name in any case; the original gets all but Vancouver |
| Input.FixedSelectionIsKey | src/utils/input_handler.py:26-41 | the corrected selection also always resolves to a key of the table |
| Input.FixedSelectionAgrees | src/utils/input_handler.py:26-41 | away from the name Vancouver, the corrected selection equals the original |
| Input.ScriptSelectionAgrees | scientific_paper_writer.py:514-529 | the scripts' selection always agrees with the package prompt |
| Input.GetTopic | src/utils/input_handler.py:52-57 | a blank answer raises "Topic cannot be empty"; otherwise the stripped, non-empty topic |
| Input.GetFilename | src/utils/input_handler.py:70-81 | the file name never contains a space, slash or backslash |
| Input.GetFilenameDefault | src/utils/input_handler.py:70-79 | a blank answer uses the topic with underscores, at most 50 characters; otherwise the cleaned answer |
| Input.AskUseRag | src/utils/input_handler.py:92-103 | yes exactly when the reported readiness holds and the answer is "y" or "yes" in any case |
| Input.AskExportPdfAnswers | src/utils/input_handler.py:114-120 | yes exactly for a blank answer or "y"/"yes" |
| Input.AskExportPdfExamples | src/utils/input_handler.py:114-120 | Enter alone and "YES" export; "no" does not |
| Input.ScriptUseRagStricter | scientific_paper_writer.py:547-550 | a script yes implies a package yes, but "yes" is a yes only for the package |
| TrainingData.SearchTermYear | scripts/create_training_data.py:62-63 | the term starts with the query, ends with the date bound, and the lower year reads back |
| TrainingData.IsQ1JournalProperties | scripts/create_training_data.py:177-181 | the test ignores case, rejects the empty name and accepts every listed journal |
| TrainingData.SubstringMatch | scripts/create_training_data.py:180-181 | the substring test accepts "Cellular Signalling", which contains "Cell" |
| TrainingData.FetchBatch | scripts/create_training_data.py:200-250 | the loop keeps the passing papers in order and counts each skip reason |
| TrainingData.BatchPartition | scripts/create_training_data.py:201-235 | kept papers plus the three skip counts equal the number of ids |
| TrainingData.KeepMeans | scripts/create_training_data.py:213-232 | kept exactly when there is an abstract, the year is unparsable or at least min_year, and the journal is Q1 when filtering |
| TrainingData.KeptPapersFaithful | scripts/create_training_data.py:210-235 | each kept paper was fetched and passes, and every fetched paper that passes is kept |
| TrainingData.EmptyYearNotOld | scripts/create_training_data.py:219-226 | an empty year does not parse, so it is never counted as old |
| TrainingData.CreateAbstractExamples | scripts/create_training_data.py:257-273 | the loop builds one abstract example per paper |
| TrainingData.AbstractExamplesShape | scripts/create_training_data.py:261-271 | one example per paper, with the paper's topics and at most the first 1000 characters of the abstract |
| TrainingData.TopicsShape | scripts/create_training_data.py:263-265 | no keywords gives the default topics; otherwise the topics start with the first keyword |
| TrainingData.CreateIntroductionExamples | scripts/create_training_data.py:276-292 | the loop emits an example exactly for intro texts longer than 50 characters |
| TrainingData.IntroStyleIsPrefix | scripts/create_training_data.py:282-283 | the intro text is a prefix of the abstract followed by a period |
| TrainingData.IntroExamplesShape | scripts/create_training_data.py:280-290 | each intro example is longer than 50 characters and starts its paper's abstract |
| TrainingData.CreateCitationExamples | scripts/create_training_data.py:295-324 | the loop builds a citation example for each paper with authors and a year |
| TrainingData.AuthorsStringShape | scripts/create_training_data.py:304-306 | " et al." follows the first three authors when there are more; otherwise all authors are joined |
| TrainingData.CitationExamplesSkip | scripts/create_training_data.py:299-301 | papers without authors or year give no example; every other paper gives one |
| TrainingData.MentionsAny | scripts/create_training_data.py:333-334 | the keyword test is true exactly when some listed word occurs in the lower-cased abstract |
| TrainingData.CreateMethodologyExamples | scripts/create_training_data.py:327-341 | the loop emits methodology examples for abstracts mentioning a method word |
| TrainingData.CreateResultsExamples | scripts/create_training_data.py:344-358 | the loop emits results examples for abstracts mentioning a results word |
| TrainingData.KeywordExamplesShape | scripts/create_training_data.py:331-356 | these examples come only from abstracts with a keyword, carry the first 800 characters, and each such paper gives one |
| TrainingData.FilteredFaithful | scripts/create_training_data.py:259-358 | a builder's examples come from passing papers, each passing paper gives its example, and with no filter there is one per paper, in order |
| PaperWriter.CreateResearcherTools | scientific_paper_writer.py:161-163 | builds the researcher's tool list |
| PaperWriter.ResearcherToolsShape | scientific_paper_writer.py:161-163 | web search always comes first; the local search is present exactly when the library is used |
| PaperWriter.RunMainProperties | scientific_paper_writer.py:514-620 | stops exactly on a blank topic; otherwise a known format, chosen as the script writes it (Vancouver only by the number 3), library use only when ready and "y", name `paper_<fmt>_<topic>.md` with no space or slash in the topic, a PDF only on "y", preview at most 803 characters |
| PaperWriter.SafeTopicShape | scientific_paper_writer.py:596 | the safe topic keeps the length, has no space or slash, and has a dot exactly where the topic does |
| PaperWriter.PdfFilenameOfPlainTopic | scientific_paper_writer.py:596-610 | for a dot-free topic the PDF name is the markdown name with ".pdf" in place of ".md" |
| PaperWriter.TopicWithMdExtension | scientific_paper_writer.py:610 | replacement is not anchored: a topic ending in ".md" gives a name ending ".pdf.pdf" |
| PaperWriter.ReportlabPdf | scientific_paper_writer.py:343-395 | without reportlab the weasyprint branch runs; otherwise the story is built, and a failing build raises |
| PaperWriter.BuiltStoryFooter | scientific_paper_writer.py:392-396 | the built story has lines+2 elements (one per line, then two) and ends with the spacer and a footer naming the format's display name |
| PaperWriterOld.CreateAgentsShape | scientific_paper_writer_OLD.py:183-245 | four agents with the library (the local specialist second), three without; writer and editor always last |
| PaperWriterOld.RunTasksShape | scientific_paper_writer_OLD.py:286-381 | in a run every task exists, one per agent at the same position; the write task's context is web research plus the library task exactly when used |
| PaperWriterOld.TasksWithoutLocalAgent | scientific_paper_writer_OLD.py:284-381 | with the library on but no agent, the tuple still has four entries with the second missing |
| PaperWriterOld.OutputFilenameShape | scientific_paper_writer_OLD.py:655-661 | a custom name is used as typed plus ".md"; a blank one gives the automatic name |
| PaperWriterOld.RunMainProperties | scientific_paper_writer_OLD.py:558-685 | stops exactly on a blank topic; otherwise a known format, chosen as the script writes it (Vancouver only by the number 3), 4 agents and 4 tasks exactly with the library (else 3), the custom name when given, a PDF only on "y", preview at most 803 characters |

## Left out

- Embedding, FAISS, pickle/JSON persistence, the PDF reader, HTTP, XML parsing, reportlab and weasyprint rendering, the `markdown` library, crewAI agents and tasks, and LLM calls. All are outside the program's own logic, and each is a parameter or an opaque value.
- Floating point. Scores are reals, and `{:.2f}` is the parameter `fmt2`. float32 rounding is not modelled.
- The clock (`datetime.now()`). The formatted date and timestamp are parameters.
- `time.sleep` rate limiting, and the printed progress messages.
- Unicode. Case mapping, `isdigit` and whitespace follow Python only on ASCII. `int()`'s underscores and non-ASCII digits are not accepted.
- The order of `list(set(all_pmids))` in the training script's `main`. It is unspecified in Python.
- The training script's `main`, `save_dataset` and the JSONL writing.
- `pathlib` normalisation of paths. A path is the folder, "/", then the name.
- The "Error accessing local PDF library" and other `except Exception` paths that wrap the tools, the export service and `main`. A failure inside an opaque call has no modelled cause. The web tool's exception path is modelled as `Raised(message)`.
- `rag_setup.py`, `ieee_paper_writer.py`, `test_setup.py`, `src/agents`, `src/tasks`, `src/config`, `crew_service.py` and `llm_service.py`. These are configuration and orchestration glue. The citation-format table is used only for its key order and display names.
- Rag.RAGSystem.ChunkText: requires overlap < chunk_size. In Python, a step of 0 raises and a negative step yields no chunks. The callers use 500/50.
- Rag.RAGSystem.IndexPdfs: requires chunk_size > 50 (the fixed overlap). This is the same reason as for ChunkText.
- Rag.RAGSystem.LoadIndex: takes the three files' contents as given. It checks no counts or dimensions, as the source checks none.
- Rag.RAGSystem.Search: uses the corrected slot filter `0 <= idx < len(chunks)` (see Findings). `Rag.SearchResultsAsWritten` keeps the original.
- Rag.ConsistentSearchCount: the count min(k, chunks) holds only under the corrected filter. As written, a search returns k results whenever a chunk is stored; `Rag.AsWrittenSearchCount` states that.
- Rag.SearchResultsSound: describes the results under the corrected filter. As written, padding hits also give results; `Rag.AsWrittenEveryHitPasses` states what they are.
- RagSearchTool.RagSearchTool: its output is given for the search under the corrected filter, so with fewer than five stored chunks it shows one block per chunk. As written, the program shows five blocks, the padding repeating the last chunk with its own score. With no chunk at all, the IndexError reaches the tool's `except` and it reports "Error accessing local PDF library", which is not modelled.
- RagSearchTool.ToolShowsAtMostFive: the bound min(5, chunks) is the corrected filter's. Its as-written clauses state the five blocks and the raise.
- Input.AskUseRag: the readiness comes from the `check_rag_ready` of `src/rag/rag_system.py`, which is not part of this model, so it is a parameter. Only the writer scripts, which import `rag_utils.py`, tie it to `Rag.CheckRagReady`.
- RagSearchTool.RagSearchTool: the package's tool imports `RAGSystem` from `src/rag/rag_system.py`. That file is not part of this model. The model assumes it behaves like the `RAGSystem` of `rag_utils.py`, which the two scripts' copies of the tool import.
- PaperWriter.ReportlabPdf: the weasyprint fallback is reported as `NoReportlab` and not modelled further.
- TrainingData.FetchBatch: an XML element without text is taken as the empty string. In Python, such a `None` raises a TypeError that the loop does not catch. A `None` year raises in the year test. A `None` journal raises in the skip message `paper['journal'][:40]` when the Q1 filter is on, and in `len(paper['journal'])` when it is off. The model counts that paper as not Q1, or keeps it.

## Findings

| source | as written | input that shows it | evidently intended | confidence | as-written member | corrected member |
|---|---|---|---|---|---|---|
| src/utils/input_handler.py:35-37 | the upper-cased answer must itself be a key, and the key "Vancouver" is mixed case | the answer "Vancouver" (or "vancouver") selects IEEE | typing a format's name in any case selects that format | high, not executed | Input.VancouverByNameFallsBack | Input.FixedSelectionByName |
| rag_utils.py:196-200 | a hit is kept when `idx < len(self.chunks)`, and FAISS pads missing neighbours with slot -1 | one stored chunk, top_k 5: the padding slots read `chunks[-1]` and repeat the last chunk four times | keep only slots inside `0 <= idx < len(chunks)` | high, not executed | Rag.PaddingDuplicatesLastChunk | Rag.SearchResultsDropPadding |
