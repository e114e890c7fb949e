/*
  The scientific paper writer script: the decisions its `main` takes from
  the user's answers (citation format, topic, whether to use the local
  library, the output file names, whether to export a PDF, the preview),
  the researcher's tool list, and the reportlab branch of its
  `markdown_to_pdf`.

  The answers to the prompts, the file-system observations of
  `check_rag_ready`, the text the agents produce and whether reportlab is
  installed and builds the document are parameters. The search tools the
  script defines are the same as the package's (modules RagSearchTool and
  WebSearch); the story its `markdown_to_pdf` builds is `Export.Story`.
*/
module PaperWriter {
  import opened Wrappers
  import opened Text
  import Rag
  import Export
  import Input

  // ---------------------------------------------------------------------
  // The researcher's tools
  // ---------------------------------------------------------------------

  datatype Tool = WebSearchTool | RagSearchTool

  /** The researcher's tool list: web search, then the local search when
      the library is used. */
  function ResearcherTools(useRag: bool): seq<Tool> {
    [WebSearchTool] + (if useRag then [RagSearchTool] else [])
  }

  /** `create_agents`' list: it always opens with web search and holds
      the local search exactly when the library is used. */
  lemma ResearcherToolsShape(useRag: bool)
    ensures var tools := ResearcherTools(useRag);
      && |tools| == (if useRag then 2 else 1)
      && tools[0] == WebSearchTool
      && (RagSearchTool in tools <==> useRag)
  {
  }

  /** The tool list as `create_agents` builds it. */
  method CreateResearcherTools(useRag: bool) returns (tools: seq<Tool>)
    ensures tools == ResearcherTools(useRag)
  {
    tools := [WebSearchTool];
    if useRag {
      tools := tools + [RagSearchTool];
    }
  }

  // ---------------------------------------------------------------------
  // File names
  // ---------------------------------------------------------------------

  /** The topic with spaces and slashes turned into underscores, then
      lower-cased. */
  function SafeTopic(topic: string): string {
    Lower(ReplaceChar(ReplaceChar(topic, ' ', "_"), '/', "_"))
  }

  /** The markdown name without its extension. */
  function MarkdownStem(format: string, topic: string): string {
    "paper_" + Lower(format) + "_" + SafeTopic(topic)
  }

  function MarkdownFilename(format: string, topic: string): string {
    MarkdownStem(format, topic) + ".md"
  }

  /** `md_filename.replace('.md', '.pdf')`: every occurrence is replaced. */
  function PdfFilename(mdFilename: string): string {
    ReplaceAll(mdFilename, ".md", ".pdf")
  }

  lemma LowerConcat(a: string, b: string)
    ensures Lower(a + b) == Lower(a) + Lower(b)
  {
  }

  /** Lower-casing keeps every character that is not an upper-case
      letter. */
  lemma LowerKeeps(s: string, d: char)
    requires !('A' <= d <= 'Z') && !('a' <= d <= 'z')
    ensures d in Lower(s) <==> d in s
  {
    if d in Lower(s) {
      var i :| 0 <= i < |s| && Lower(s)[i] == d;
      assert s[i] == d;
    }
    if d in s {
      var i :| 0 <= i < |s| && s[i] == d;
      assert Lower(s)[i] == d;
    }
  }

  /** Replacing `c` by an underscore keeps every other character that
      is not an underscore. */
  lemma {:induction false} ReplaceCharKeeps(s: string, c: char, d: char)
    requires d != c && d != '_'
    ensures d in ReplaceChar(s, c, "_") <==> d in s
    decreases |s|
  {
    if s != [] {
      ReplaceCharKeeps(s[1..], c, d);
      assert ReplaceChar(s, c, "_") == (if s[0] == c then "_" else [s[0]]) + ReplaceChar(s[1..], c, "_");
      assert s == [s[0]] + s[1..];
    }
  }

  /** The safe topic has the topic's length, no space and no slash, and
      a dot exactly where the topic has one. */
  lemma SafeTopicShape(topic: string)
    ensures var s := SafeTopic(topic);
      && |s| == |topic|
      && ' ' !in s && '/' !in s
      && ('.' in s <==> '.' in topic)
  {
    var a := ReplaceChar(topic, ' ', "_");
    var b := ReplaceChar(a, '/', "_");
    Input.ReplaceCharLength(topic, ' ', "_");
    Input.ReplaceCharLength(a, '/', "_");
    ReplaceCharRemoves(topic, ' ', "_", ' ');
    ReplaceCharRemoves(a, '/', "_", ' ');
    ReplaceCharRemoves(a, '/', "_", '/');
    ReplaceCharKeeps(topic, ' ', '.');
    ReplaceCharKeeps(a, '/', '.');
    LowerKeeps(b, ' ');
    LowerKeeps(b, '/');
    LowerKeeps(b, '.');
  }

  /** A dot-free prefix passes through the ".md" scan unchanged. */
  lemma {:induction false} ReplaceAllDotFreePrefix(s: string, t: string, rep: string)
    requires '.' !in s
    ensures ReplaceAll(s + t, ".md", rep) == s + ReplaceAll(t, ".md", rep)
    decreases |s|
  {
    if s == [] {
      assert s + t == t;
    } else {
      var st := s + t;
      assert !StartsWith(st, ".md") by { assert st[0] == s[0] != '.'; }
      assert st[1..] == s[1..] + t;
      assert '.' !in s[1..] by {
        forall i | 0 <= i < |s[1..]| ensures s[1..][i] != '.' { assert s[1..][i] == s[i + 1]; }
      }
      ReplaceAllDotFreePrefix(s[1..], t, rep);
      assert [s[0]] + s[1..] == s;
    }
  }

  lemma MdToPdf()
    ensures ReplaceAll(".md", ".md", ".pdf") == ".pdf"
  {
    assert StartsWith(".md", ".md");
    assert ".md"[3..] == [];
    assert ReplaceAll([], ".md", ".pdf") == [];
  }

  /** A markdown name for a format key is dot-free up to its extension. */
  lemma StemDotFree(format: string, topic: string)
    requires '.' !in format && '.' !in topic
    ensures '.' !in MarkdownStem(format, topic)
  {
    SafeTopicShape(topic);
    LowerKeeps(format, '.');
    var p := "paper_";
    assert forall i :: 0 <= i < |p| ==> p[i] != '.';
  }

  /** For a topic without a dot, the PDF name is the markdown name with its
      extension changed. */
  lemma PdfFilenameOfPlainTopic(format: string, topic: string)
    requires '.' !in format && '.' !in topic
    ensures PdfFilename(MarkdownFilename(format, topic)) == MarkdownStem(format, topic) + ".pdf"
  {
    StemDotFree(format, topic);
    ReplaceAllDotFreePrefix(MarkdownStem(format, topic), ".md", ".pdf");
    MdToPdf();
  }

  /** ".md" has no upper-case letter. */
  lemma LowerMd()
    ensures Lower(".md") == ".md"
  {
    var lmd := Lower(".md");
    assert lmd[0] == '.' && lmd[1] == 'm' && lmd[2] == 'd';
  }

  /** The ".md" of a topic survives into the safe topic. */
  lemma SafeTopicMd(stem: string)
    ensures SafeTopic(stem + ".md") == SafeTopic(stem) + ".md"
  {
    var md := ".md";
    assert ' ' !in md && '/' !in md;
    var a := ReplaceChar(stem, ' ', "_");
    ReplaceCharConcat(stem, md, ' ', "_");
    ReplaceCharAbsent(md, ' ', "_");
    assert ReplaceChar(stem + md, ' ', "_") == a + md;
    var b := ReplaceChar(a, '/', "_");
    ReplaceCharConcat(a, md, '/', "_");
    ReplaceCharAbsent(md, '/', "_");
    assert ReplaceChar(a + md, '/', "_") == b + md;
    LowerConcat(b, md);
    LowerMd();
  }

  lemma MdMdToPdf()
    ensures ReplaceAll(".md.md", ".md", ".pdf") == ".pdf.pdf"
  {
    var mm := ".md.md";
    assert StartsWith(mm, ".md");
    assert mm[3..] == ".md";
    MdToPdf();
  }

  /** The replacement is not anchored at the end: a topic ending in ".md"
      gives a PDF name ending in ".pdf.pdf". */
  lemma TopicWithMdExtension(format: string, stem: string)
    requires '.' !in format && '.' !in stem
    ensures PdfFilename(MarkdownFilename(format, stem + ".md")) == MarkdownStem(format, stem) + ".pdf.pdf"
  {
    SafeTopicMd(stem);
    var s := MarkdownStem(format, stem);
    assert MarkdownFilename(format, stem + ".md") == s + ".md.md";
    StemDotFree(format, stem);
    ReplaceAllDotFreePrefix(s, ".md.md", ".pdf");
    MdMdToPdf();
  }

  // ---------------------------------------------------------------------
  // main
  // ---------------------------------------------------------------------

  /** The preview printed at the end: the first 800 characters and
      "..." when the paper is longer. */
  function Preview(result: string): string {
    Ellipsize(result, 800)
  }

  /** What `main` decided for one run. `pdfFile` is the PDF requested,
      `None` when the user declined. */
  datatype Session = Session(format: string, topic: string, useRag: bool, markdownFile: string,
                             pdfFile: Option<string>, preview: string)

  /** The scripts' yes: the stripped, lower-cased answer is "y". */
  predicate AnswersY(answer: string) {
    Lower(Strip(answer)) == "y"
  }

  /** A run of `main`: `None` when the topic is empty (nothing else is
      asked or done). The format is chosen as the script writes it, so the
      name "Vancouver" falls back to IEEE. */
  function RunMain(formatAnswer: string, topicAnswer: string, folderExists: bool, pdfCount: nat,
                   indexExists: bool, ragAnswer: string, result: string, exportAnswer: string): Option<Session>
  {
    var format := Input.ScriptSelectCitationFormat(formatAnswer);
    var topic := Strip(topicAnswer);
    if topic == [] then None
    else
      var ready := Rag.CheckRagReady(Input.PdfLibrary, folderExists, pdfCount, indexExists).0;
      var md := MarkdownFilename(format, topic);
      Some(Session(format, topic, Input.ScriptUseRag(ready, ragAnswer), md,
                   if AnswersY(exportAnswer) then Some(PdfFilename(md)) else None, Preview(result)))
  }

  /** No format key has a dot. */
  lemma KeysDotFree(k: string)
    requires k in Input.FormatKeys
    ensures '.' !in k
  {
    var a, b, c := "IEEE", "APA", "Vancouver";
    assert k == a || k == b || k == c;
    assert forall i :: 0 <= i < |a| ==> a[i] != '.';
    assert forall i :: 0 <= i < |b| ==> b[i] != '.';
    assert forall i :: 0 <= i < |c| ==> c[i] != '.';
  }

  /** `main` stops exactly when the topic is blank. Otherwise it uses a
      known format (Vancouver only for the number 3), the stripped topic,
      the local library only when it is
      ready and the user typed "y", a markdown name "paper_<format>_<topic>.md"
      without spaces or slashes in the topic part, a PDF only on "y" (named
      by changing the extension when the topic has no dot), and a preview
      of at most 803 characters. */
  lemma RunMainProperties(formatAnswer: string, topicAnswer: string, folderExists: bool, pdfCount: nat,
                          indexExists: bool, ragAnswer: string, result: string, exportAnswer: string)
    ensures var r := RunMain(formatAnswer, topicAnswer, folderExists, pdfCount, indexExists, ragAnswer,
                             result, exportAnswer);
      && (r.None? <==> AllSpace(topicAnswer))
      && (r.Some? ==>
           && r.value.format in Input.FormatKeys
           && (r.value.format == "Vancouver" ==>
                 IsDigits(Strip(formatAnswer)) && DigitsValue(Strip(formatAnswer)) == 3)
           && r.value.topic != [] && Trimmed(r.value.topic)
           && (r.value.useRag <==> folderExists && pdfCount > 0 && indexExists && AnswersY(ragAnswer))
           && r.value.markdownFile == MarkdownStem(r.value.format, r.value.topic) + ".md"
           && ' ' !in SafeTopic(r.value.topic) && '/' !in SafeTopic(r.value.topic)
           && (r.value.pdfFile.Some? <==> AnswersY(exportAnswer))
           && (r.value.pdfFile.Some? && '.' !in r.value.topic ==>
                 r.value.pdfFile.value == MarkdownStem(r.value.format, r.value.topic) + ".pdf")
           && |r.value.preview| <= 803
           && (|result| <= 800 ==> r.value.preview == result))
  {
    var r := RunMain(formatAnswer, topicAnswer, folderExists, pdfCount, indexExists, ragAnswer,
                     result, exportAnswer);
    if r.Some? {
      Input.ScriptSelectionAgrees(formatAnswer);
      Input.SelectionIsKey(formatAnswer);
      if r.value.format == "Vancouver" {
        Input.VancouverOnlyByNumber(formatAnswer);
      }
      KeysDotFree(r.value.format);
      SafeTopicShape(r.value.topic);
      if '.' !in r.value.topic {
        PdfFilenameOfPlainTopic(r.value.format, r.value.topic);
      }
    }
  }

  // ---------------------------------------------------------------------
  // markdown_to_pdf, reportlab branch
  // ---------------------------------------------------------------------

  /** How the reportlab branch ends: the document was built from the
      story, the build raised (the exception leaves the function), or
      reportlab is not installed and the weasyprint branch runs. */
  datatype PdfAttempt = Built(story: seq<Export.Element>) | Raised | NoReportlab

  /** The reportlab branch of `markdown_to_pdf`; `formatName` is the
      format's display name, `renders` whether the build succeeds. */
  method ReportlabPdf(content: string, formatName: string, date: string, reportlab: bool,
                      renders: seq<Export.Element> -> bool)
    returns (r: PdfAttempt)
    ensures !reportlab ==> r == NoReportlab
    ensures reportlab ==> r == (if renders(Export.Story(content, date, formatName))
                                then Built(Export.Story(content, date, formatName)) else Raised)
  {
    if !reportlab {
      return NoReportlab;
    }
    var story := Export.BuildStory(content, date, formatName);
    if renders(story) {
      r := Built(story);
    } else {
      r := Raised;
    }
  }

  /** A built document ends with the spacer and a footer naming the
      format's display name, after one element per markdown line. */
  lemma BuiltStoryFooter(content: string, key: string, date: string, story: seq<Export.Element>)
    requires story == Export.Story(content, date, Input.FormatName(key))
    ensures |story| == CountChar(content, '\n') + 3
    ensures story[|story| - 1] == Export.Footer("Generated on " + date + " | Format: " + Input.FormatName(key))
    ensures story[|story| - 2] == Export.Spacer(0.5)
  {
    Export.StoryShape(content, date, Input.FormatName(key));
  }
}
