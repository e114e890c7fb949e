/*
  The export service: a paper's markdown is saved under a cleaned file
  name with a metadata header, and optionally rendered to a PDF whose
  content is a "story" of title, heading, paragraph and spacer elements
  built line by line from the markdown. The writer scripts build the same
  story in their own `markdown_to_pdf`.

  The output folder is a map from path to contents (`files` for the
  markdown, `pdfs` for the stories rendered into PDFs). The clock is the
  two rendered stamps `timestamp` ("%Y-%m-%d %H:%M:%S") and `date`
  ("%B %d, %Y"); whether the PDF library manages to build a given story
  is the parameter `renders`.
*/
module Export {
  import opened Wrappers
  import opened Text

  /** The configured output folder `./outputs/papers`, as `pathlib`
      prints it. */
  const OutputDir: string := "outputs/papers"

  function InFolder(dir: string, name: string): string {
    dir + "/" + name
  }

  // ---------------------------------------------------------------------
  // File names
  // ---------------------------------------------------------------------

  /** Spaces, slashes and backslashes become underscores. */
  function CleanName(filename: string): string {
    ReplaceChar(ReplaceChar(ReplaceChar(filename, ' ', "_"), '/', "_"), '\\', "_")
  }

  /** ".md" appended unless the name already ends with it. */
  function WithMd(name: string): string {
    if EndsWith(name, ".md") then name else name + ".md"
  }

  /** The markdown file name `save_markdown` writes to. */
  function MarkdownName(filename: string): string {
    WithMd(CleanName(filename))
  }

  /** The cleaned name has none of the three characters. */
  lemma CleanNameSafe(filename: string)
    ensures var c := CleanName(filename);
      ' ' !in c && '/' !in c && '\\' !in c
  {
    var s1 := ReplaceChar(filename, ' ', "_");
    var s2 := ReplaceChar(s1, '/', "_");
    ReplaceCharRemoves(filename, ' ', "_", ' ');
    ReplaceCharRemoves(s1, '/', "_", ' ');
    ReplaceCharRemoves(s2, '\\', "_", ' ');
    ReplaceCharRemoves(s1, '/', "_", '/');
    ReplaceCharRemoves(s2, '\\', "_", '/');
    ReplaceCharRemoves(s2, '\\', "_", '\\');
  }

  /** Appending ".md" brings in no new character of the three, keeps the
      name as a prefix and leaves a name ending in ".md". */
  lemma WithMdSafe(name: string)
    requires ' ' !in name && '/' !in name && '\\' !in name
    ensures var m := WithMd(name);
      && ' ' !in m && '/' !in m && '\\' !in m
      && EndsWith(m, ".md") && StartsWith(m, name)
  {
    var m := WithMd(name);
    if !EndsWith(name, ".md") {
      assert m[..|name|] == name;
      assert m[|m| - 3..] == ".md";
      forall ch | ch in m ensures ch != ' ' && ch != '/' && ch != '\\' {
        var i :| 0 <= i < |m| && m[i] == ch;
        if i < |name| { assert m[i] == name[i]; }
      }
    }
  }

  /** The markdown name has none of the three characters, ends in ".md"
      and begins with the cleaned name. */
  lemma MarkdownNameSafe(filename: string)
    ensures var m := MarkdownName(filename);
      && ' ' !in m && '/' !in m && '\\' !in m
      && EndsWith(m, ".md")
      && StartsWith(m, CleanName(filename))
  {
    CleanNameSafe(filename);
    WithMdSafe(CleanName(filename));
  }

  /** A name without the three characters is left alone by the cleaning. */
  lemma CleanNameOfClean(filename: string)
    requires ' ' !in filename && '/' !in filename && '\\' !in filename
    ensures CleanName(filename) == filename
  {
    ReplaceCharAbsent(filename, ' ', "_");
    ReplaceCharAbsent(filename, '/', "_");
    ReplaceCharAbsent(filename, '\\', "_");
  }

  /** Saving under the name already chosen keeps it: the naming is
      idempotent. */
  lemma MarkdownNameIdempotent(filename: string)
    ensures MarkdownName(MarkdownName(filename)) == MarkdownName(filename)
  {
    var m := MarkdownName(filename);
    MarkdownNameSafe(filename);
    CleanNameOfClean(m);
  }

  /** `filename.replace('.md', '') + '.pdf'`, on the name as given. */
  function PdfName(filename: string): string {
    ReplaceAll(filename, ".md", "") + ".pdf"
  }

  /** For a plain stem, the two files share it: `stem.md` and `stem.pdf`,
      whether or not the caller already added ".md". */
  lemma PlainStemNames(stem: string)
    requires '.' !in stem && ' ' !in stem && '/' !in stem && '\\' !in stem
    ensures MarkdownName(stem) == stem + ".md"
    ensures MarkdownName(stem + ".md") == stem + ".md"
    ensures PdfName(stem) == stem + ".pdf"
    ensures PdfName(stem + ".md") == stem + ".pdf"
  {
    PlainStemMarkdown(stem);
    NoDotNoMatch(stem);
    ReplaceAllAppend(stem, ".md");
  }

  lemma PlainStemMarkdown(stem: string)
    requires '.' !in stem && ' ' !in stem && '/' !in stem && '\\' !in stem
    ensures MarkdownName(stem) == stem + ".md"
    ensures MarkdownName(stem + ".md") == stem + ".md"
  {
    CleanNameOfClean(stem);
    if |stem| >= 3 {
      assert stem[|stem| - 3] in stem;
      assert stem[|stem| - 3..][0] == stem[|stem| - 3];
    }
    assert !EndsWith(stem, ".md");
    MdSuffixSafe(stem);
    CleanNameOfClean(stem + ".md");
  }

  lemma MdSuffixSafe(stem: string)
    requires ' ' !in stem && '/' !in stem && '\\' !in stem
    ensures var m := stem + ".md"; ' ' !in m && '/' !in m && '\\' !in m && EndsWith(m, ".md")
  {
    var md := ".md";
    var m := stem + md;
    assert m[|stem|..] == md && m[|m| - 3..] == md;
    forall ch | ch in m ensures ch != ' ' && ch != '/' && ch != '\\' {
      var i :| 0 <= i < |m| && m[i] == ch;
      if i < |stem| { assert m[i] == stem[i]; } else { assert m[i] == md[i - |stem|]; }
    }
  }

  /** Without a '.', the pattern ".md" never matches and the scan copies
      the string. */
  lemma {:induction false} NoDotNoMatch(s: string)
    requires '.' !in s
    ensures ReplaceAll(s, ".md", "") == s
    decreases |s|
  {
    if s != [] {
      assert !StartsWith(s, ".md") by { assert s[0] != '.'; }
      assert '.' !in s[1..] by {
        forall i | 0 <= i < |s[1..]| ensures s[1..][i] != '.' { assert s[1..][i] == s[i + 1]; }
      }
      NoDotNoMatch(s[1..]);
    }
  }

  /** A trailing ".md" after a dot-free stem is removed. */
  lemma {:induction false} ReplaceAllAppend(s: string, tail: string)
    requires '.' !in s && tail == ".md"
    ensures ReplaceAll(s + tail, ".md", "") == s
    decreases |s|
  {
    if s == [] {
      assert [] + tail == ".md";
      assert StartsWith(".md", ".md");
      assert ".md"[3..] == [];
    } else {
      var st := s + tail;
      ConsAppend(s, tail);
      assert !StartsWith(st, ".md") by { assert st[0] == s[0] != '.'; }
      assert '.' !in s[1..] by {
        forall i | 0 <= i < |s[1..]| ensures s[1..][i] != '.' { assert s[1..][i] == s[i + 1]; }
      }
      ReplaceAllAppend(s[1..], tail);
    }
  }

  lemma ConsAppend<T>(s: seq<T>, t: seq<T>)
    requires s != []
    ensures (s + t)[0] == s[0] && (s + t)[1..] == s[1..] + t && [s[0]] + s[1..] == s
  {
  }

  /** The PDF name is derived from the name as given, not the cleaned
      one: a dot-free name with a space keeps the space in the PDF name
      while the markdown name has none. */
  lemma PdfNameNotCleaned(stem: string)
    requires '.' !in stem && ' ' in stem
    ensures PdfName(stem) == stem + ".pdf"
    ensures ' ' in PdfName(stem) && ' ' !in MarkdownName(stem)
  {
    NoDotNoMatch(stem);
    MarkdownNameSafe(stem);
    var i :| 0 <= i < |stem| && stem[i] == ' ';
    assert PdfName(stem)[i] == ' ';
  }

  /** The comment block `save_markdown` puts before the content. */
  function MetadataHeader(timestamp: string, citationFormat: string): string {
    "<!-- \nGenerated: " + timestamp + "\nFormat: " + citationFormat + "\n-->\n\n"
  }

  // ---------------------------------------------------------------------
  // Escaping
  // ---------------------------------------------------------------------

  /** The paragraph escaping: `&`, then `<`, then `>`. */
  function Escape(s: string): string {
    ReplaceChar(ReplaceChar(ReplaceChar(s, '&', "&amp;"), '<', "&lt;"), '>', "&gt;")
  }

  /** The entity each character stands for in escaped text. */
  function EscapeChar(c: char): string {
    if c == '&' then "&amp;" else if c == '<' then "&lt;" else if c == '>' then "&gt;" else [c]
  }

  /** Escaping in a single pass, character by character. */
  function EscapeEach(s: string): string
    decreases |s|
  {
    if s == [] then [] else EscapeChar(s[0]) + EscapeEach(s[1..])
  }

  /** Reading escaped text back: each entity becomes its character. */
  function Unescape(s: string): string
    decreases |s|
  {
    if StartsWith(s, "&amp;") then "&" + Unescape(s[5..])
    else if StartsWith(s, "&lt;") then "<" + Unescape(s[4..])
    else if StartsWith(s, "&gt;") then ">" + Unescape(s[4..])
    else if s == [] then []
    else [s[0]] + Unescape(s[1..])
  }

  /** The three passes equal the single pass: '&' goes first, so the
      ampersands the later passes introduce are never escaped again. */
  lemma {:induction false} EscapeIsEscapeEach(s: string)
    ensures Escape(s) == EscapeEach(s)
    decreases |s|
  {
    if s != [] {
      EscapeIsEscapeEach(s[1..]);
      EscapeCons(s[0], s[1..]);
      assert [s[0]] + s[1..] == s;
    }
  }

  /** The three passes work on a first character and the rest
      separately. */
  lemma EscapeCons(c: char, t: string)
    ensures Escape([c] + t) == EscapeChar(c) + Escape(t)
  {
    ReplaceCharConcat([c], t, '&', "&amp;");
    var h1, r1 := ReplaceChar([c], '&', "&amp;"), ReplaceChar(t, '&', "&amp;");
    ReplaceCharConcat(h1, r1, '<', "&lt;");
    var h2, r2 := ReplaceChar(h1, '<', "&lt;"), ReplaceChar(r1, '<', "&lt;");
    ReplaceCharConcat(h2, r2, '>', "&gt;");
    EscapeOneChar(c);
  }

  /** The three passes on one character give its entity. */
  lemma EscapeOneChar(c: char)
    ensures Escape([c]) == EscapeChar(c)
  {
    var amp, lt, gt := "&amp;", "&lt;", "&gt;";
    ReplaceCharSingle(c, '&', amp);
    if c == '&' {
      assert '<' !in amp && '>' !in amp;
      ReplaceCharAbsent(amp, '<', lt);
      ReplaceCharAbsent(amp, '>', gt);
    } else {
      ReplaceCharSingle(c, '<', lt);
      if c == '<' {
        assert '>' !in lt;
        ReplaceCharAbsent(lt, '>', gt);
      } else {
        ReplaceCharSingle(c, '>', gt);
      }
    }
  }

  lemma ReplaceCharSingle(c: char, d: char, r: string)
    ensures ReplaceChar([c], d, r) == if c == d then r else [c]
  {
    assert [c][1..] == [];
    var h := if c == d then r else [c];
    assert h + [] == h;
  }

  /** Unescaping escaped text gives the original back. */
  lemma {:induction false} UnescapeEscapeEach(s: string)
    ensures Unescape(EscapeEach(s)) == s
    decreases |s|
  {
    if s != [] {
      var c, t := s[0], s[1..];
      UnescapeEscapeEach(t);
      var e := EscapeEach(s);
      var rest := EscapeEach(t);
      var h := EscapeChar(c);
      assert e == h + rest;
      assert e[|h|..] == rest;
      if c != '&' && c != '<' && c != '>' {
        assert e[0] == c;
        assert !StartsWith(e, "&amp;") && !StartsWith(e, "&lt;") && !StartsWith(e, "&gt;");
        assert e[1..] == rest;
      } else if c == '&' {
        assert StartsWith(e, "&amp;");
      } else if c == '<' {
        assert !StartsWith(e, "&amp;") by { assert e[1] == 'l'; }
        assert StartsWith(e, "&lt;");
      } else {
        assert !StartsWith(e, "&amp;") by { assert e[1] == 'g'; }
        assert !StartsWith(e, "&lt;") by { assert e[1] == 'g'; }
        assert StartsWith(e, "&gt;");
      }
      assert [c] + t == s;
    }
  }

  /** Escaped text has no angle brackets, and unescaping it restores the
      line. */
  lemma EscapeProperties(s: string)
    ensures '<' !in Escape(s) && '>' !in Escape(s)
    ensures Unescape(Escape(s)) == s
  {
    var r1 := ReplaceChar(s, '&', "&amp;");
    var r2 := ReplaceChar(r1, '<', "&lt;");
    ReplaceCharRemoves(r1, '<', "&lt;", '<');
    ReplaceCharRemoves(r2, '>', "&gt;", '<');
    ReplaceCharRemoves(r2, '>', "&gt;", '>');
    EscapeIsEscapeEach(s);
    UnescapeEscapeEach(s);
  }

  // ---------------------------------------------------------------------
  // The story
  // ---------------------------------------------------------------------

  /** The flowables of the PDF: spacers (height in inches), the title,
      section headings, justified paragraphs and the footer. */
  datatype Element =
    | Spacer(inches: real)
    | Title(text: string)
    | Heading(text: string)
    | Paragraph(text: string)
    | Footer(text: string)

  /** The element for one markdown line. */
  function Classify(line: string): Element {
    ClassifyTrimmed(Strip(line))
  }

  /** The element for a line already stripped. */
  function ClassifyTrimmed(l: string): Element {
    if l == [] then Spacer(0.2)
    else if StartsWith(l, "# ") then Title(Strip(l[2..]))
    else if StartsWith(l, "## ") then Heading(Strip(l[3..]))
    else Paragraph(Escape(l))
  }

  /** A markdown line that gives back an element. */
  function Render(e: Element): string {
    match e
    case Spacer(_) => ""
    case Title(t) => "# " + t
    case Heading(t) => "## " + t
    case Paragraph(t) => Unescape(t)
    case Footer(t) => t
  }

  /** A line's element is recovered from the line rendered back from it:
      titles and headings keep their (non-empty, stripped) text,
      paragraphs unescape to the stripped line, and blank lines stay
      spacers. */
  lemma ClassifyRender(line: string)
    ensures Classify(Render(Classify(line))) == Classify(line)
    ensures Classify(line).Title? || Classify(line).Heading? ==>
      Classify(line).text != [] && Trimmed(Classify(line).text)
  {
    var l := Strip(line);
    ClassifyStripped(line);
    if l == [] {
      BlankRoundTrip();
    } else if StartsWith(l, "# ") {
      TitleRoundTrip(l);
    } else if StartsWith(l, "## ") {
      HeadingRoundTrip(l);
    } else {
      ParagraphRoundTrip(l);
    }
  }

  /** Classification looks only at the stripped line. */
  lemma ClassifyStripped(line: string)
    ensures Classify(line) == Classify(Strip(line))
  {
    var l := Strip(line);
    assert Strip(l) == l;
  }

  lemma BlankRoundTrip()
    ensures Classify("") == Spacer(0.2)
  {
    assert Strip("") == [];
  }

  lemma TitleRoundTrip(l: string)
    requires Trimmed(l) && StartsWith(l, "# ")
    ensures Classify(l) == Title(Strip(l[2..]))
    ensures Strip(l[2..]) != [] && Trimmed(Strip(l[2..]))
    ensures Classify("# " + Strip(l[2..])) == Classify(l)
  {
    assert l[1] == ' ';
    TrimmedTail(l, 2);
    var t := Strip(l[2..]);
    var r := "# " + t;
    assert Trimmed(r) by { assert r[0] == '#'; assert r[|r| - 1] == t[|t| - 1]; }
    assert StartsWith(r, "# ");
    assert r[2..] == t;
  }

  lemma HeadingRoundTrip(l: string)
    requires Trimmed(l) && StartsWith(l, "## ") && !StartsWith(l, "# ")
    ensures Classify(l) == Heading(Strip(l[3..]))
    ensures Strip(l[3..]) != [] && Trimmed(Strip(l[3..]))
    ensures Classify("## " + Strip(l[3..])) == Classify(l)
  {
    assert l[2] == ' ';
    TrimmedTail(l, 3);
    var t := Strip(l[3..]);
    var r := "## " + t;
    assert Trimmed(r) by { assert r[0] == '#'; assert r[|r| - 1] == t[|t| - 1]; }
    assert !StartsWith(r, "# ") by { assert r[1] == '#'; }
    assert StartsWith(r, "## ");
    assert r[3..] == t;
  }

  lemma ParagraphRoundTrip(l: string)
    requires Trimmed(l) && l != [] && !StartsWith(l, "# ") && !StartsWith(l, "## ")
    ensures Classify(l) == Paragraph(Escape(l))
    ensures Classify(Unescape(Escape(l))) == Classify(l)
  {
    EscapeProperties(l);
  }

  /** Dropping a prefix ending in a space from a stripped line leaves text
      that strips to something non-empty. */
  lemma TrimmedTail(l: string, k: nat)
    requires Trimmed(l) && k <= |l| && 0 < k && IsSpace(l[k - 1])
    ensures |l| > k && Strip(l[k..]) != [] && Trimmed(Strip(l[k..]))
  {
    assert l != [];
    assert |l| != k by { assert !IsSpace(l[|l| - 1]); }
    var t := l[k..];
    assert t[|t| - 1] == l[|l| - 1];
    assert !AllSpace(t);
  }

  /** The elements of the body, one per line of the markdown. */
  function BodyElements(lines: seq<string>): (es: seq<Element>)
    ensures |es| == |lines|
  {
    seq(|lines|, i requires 0 <= i < |lines| => Classify(lines[i]))
  }

  function FooterText(date: string, citationFormat: string): string {
    "Generated on " + date + " | Format: " + citationFormat
  }

  /** The story for a paper: one element per line, then a half-inch
      spacer and the footer. */
  function Story(content: string, date: string, citationFormat: string): seq<Element> {
    BodyElements(SplitOn(content, "\n")) + [Spacer(0.5), Footer(FooterText(date, citationFormat))]
  }

  /** The story has one element per line of the markdown (one more than
      its line breaks) plus two, and always ends with the spacer and the
      footer. */
  lemma StoryShape(content: string, date: string, citationFormat: string)
    ensures var s := Story(content, date, citationFormat);
      && |s| == CountChar(content, '\n') + 3
      && s[|s| - 2] == Spacer(0.5)
      && s[|s| - 1] == Footer(FooterText(date, citationFormat))
      && forall i :: 0 <= i < |s| - 2 ==> !s[i].Footer?
  {
    var lines := SplitOn(content, "\n");
    SplitCharCount(content, '\n');
    assert |lines| == CountChar(content, '\n') + 1;
    var body := BodyElements(lines);
    var tail := [Spacer(0.5), Footer(FooterText(date, citationFormat))];
    var s := body + tail;
    assert Story(content, date, citationFormat) == s;
    BodyHasNoFooter(lines);
    forall i | 0 <= i < |s| - 2 ensures !s[i].Footer? {
      assert s[i] == body[i];
    }
  }

  lemma BodyHasNoFooter(lines: seq<string>)
    ensures forall i :: 0 <= i < |lines| ==> !BodyElements(lines)[i].Footer?
  {
    forall i | 0 <= i < |lines| ensures !BodyElements(lines)[i].Footer? {
      assert BodyElements(lines)[i] == ClassifyTrimmed(Strip(lines[i]));
    }
  }

  lemma BodyElementsStep(lines: seq<string>, i: nat)
    requires i < |lines|
    ensures BodyElements(lines[..i + 1]) == BodyElements(lines[..i]) + [Classify(lines[i])]
  {
    var a, b := BodyElements(lines[..i + 1]), BodyElements(lines[..i]) + [Classify(lines[i])];
    forall j | 0 <= j < |a| ensures a[j] == b[j] {
      assert lines[..i + 1][j] == lines[j];
    }
  }

  /** The body of the story loop of `markdown_to_pdf`, for one line. */
  method ClassifyLine(raw: string) returns (e: Element)
    ensures e == Classify(raw)
  {
    var line := Strip(raw);
    if line == [] {
      return Spacer(0.2);
    }
    if StartsWith(line, "# ") {
      e := Title(Strip(line[2..]));
    } else if StartsWith(line, "## ") {
      e := Heading(Strip(line[3..]));
    } else {
      e := Paragraph(ReplaceChar(ReplaceChar(ReplaceChar(line, '&', "&amp;"), '<', "&lt;"), '>', "&gt;"));
    }
  }

  /** The story loop of `markdown_to_pdf`. */
  method BuildStory(content: string, date: string, citationFormat: string) returns (story: seq<Element>)
    ensures story == Story(content, date, citationFormat)
  {
    var lines := SplitOn(content, "\n");
    story := [];
    for i := 0 to |lines|
      invariant story == BodyElements(lines[..i])
    {
      var e := ClassifyLine(lines[i]);
      BodyElementsStep(lines, i);
      story := story + [e];
    }
    assert lines[..|lines|] == lines;
    story := story + [Spacer(0.5), Footer(FooterText(date, citationFormat))];
  }

  // ---------------------------------------------------------------------
  // The service
  // ---------------------------------------------------------------------

  /** `export_paper`'s result: the markdown path and, when one was made,
      the PDF path. */
  datatype Exported = Exported(markdown: string, pdf: Option<string>)

  class ExportService {
    /** Markdown files written so far, by path. */
    var files: map<string, string>
    /** PDFs built so far, by path, as the story they were built from. */
    var pdfs: map<string, seq<Element>>

    constructor ()
      ensures files == map[] && pdfs == map[]
    {
      files := map[];
      pdfs := map[];
    }

    /** `save_markdown`: write the header and the content, unchanged,
        under the cleaned name, and return the path. */
    method SaveMarkdown(content: string, filename: string, citationFormat: string, timestamp: string)
      returns (path: string)
      modifies this
      ensures path == InFolder(OutputDir, MarkdownName(filename))
      ensures files == old(files)[path := MetadataHeader(timestamp, citationFormat) + content]
      ensures pdfs == old(pdfs)
    {
      var name := ReplaceChar(ReplaceChar(ReplaceChar(filename, ' ', "_"), '/', "_"), '\\', "_");
      if !EndsWith(name, ".md") {
        name := name + ".md";
      }
      path := InFolder(OutputDir, name);
      files := files[path := MetadataHeader(timestamp, citationFormat) + content];
    }

    /** `markdown_to_pdf`: build the story and hand it to the PDF library;
        true when the library built the file. */
    method MarkdownToPdf(content: string, outputPath: string, citationFormat: string, date: string,
                         renders: seq<Element> -> bool)
      returns (ok: bool)
      modifies this
      ensures ok == renders(Story(content, date, citationFormat))
      ensures pdfs == if ok then old(pdfs)[outputPath := Story(content, date, citationFormat)] else old(pdfs)
      ensures files == old(files)
    {
      var story := BuildStory(content, date, citationFormat);
      if !renders(story) {
        return false;
      }
      pdfs := pdfs[outputPath := story];
      return true;
    }

    /** `export_paper`: save the markdown, then, when asked, build the PDF
        next to it; the PDF path is reported only when the build
        succeeded. */
    method ExportPaper(content: string, filename: string, citationFormat: string, exportPdf: bool,
                       timestamp: string, date: string, renders: seq<Element> -> bool)
      returns (result: Exported)
      modifies this
      ensures result.markdown == InFolder(OutputDir, MarkdownName(filename))
      ensures files == old(files)[result.markdown := MetadataHeader(timestamp, citationFormat) + content]
      ensures var built := exportPdf && renders(Story(content, date, citationFormat));
        && result.pdf == (if built then Some(InFolder(OutputDir, PdfName(filename))) else None)
        && pdfs == (if built then old(pdfs)[InFolder(OutputDir, PdfName(filename)) := Story(content, date, citationFormat)]
                    else old(pdfs))
    {
      var mdPath := SaveMarkdown(content, filename, citationFormat, timestamp);
      result := Exported(mdPath, None);
      if exportPdf {
        var pdfFilename := ReplaceAll(filename, ".md", "") + ".pdf";
        var pdfPath := InFolder(OutputDir, pdfFilename);
        var success := MarkdownToPdf(content, pdfPath, citationFormat, date, renders);
        if success {
          result := result.(pdf := Some(pdfPath));
        }
      }
    }
  }
}
