/*
  The interactive prompts: choosing a citation format, the topic, the
  output file name and the two yes/no questions. Each `input()` answer is
  a parameter, and so is the readiness `check_rag_ready` reports.
*/
module Input {
  import opened Wrappers
  import opened Text
  import Export

  /** The keys of the citation-format table, in its order. */
  const FormatKeys: seq<string> := ["IEEE", "APA", "Vancouver"]

  /** The display name the table gives each format. */
  function FormatName(key: string): string {
    if key == "APA" then "APA 7th" else key
  }

  /** The PDF folder `check_rag_ready` looks at by default. */
  const PdfLibrary: string := "./pdf_library"

  // ---------------------------------------------------------------------
  // Citation format
  // ---------------------------------------------------------------------

  /** `select_citation_format` as written: a number from 1 to 3 picks the
      key at that position; otherwise the upper-cased answer is taken when
      it is itself a key; anything else gives IEEE. */
  function SelectCitationFormat(answer: string): string {
    var u := Strip(answer);
    if IsDigits(u) && 1 <= DigitsValue(u) <= |FormatKeys| then FormatKeys[DigitsValue(u) - 1]
    else if Upper(u) in FormatKeys then Upper(u)
    else "IEEE"
  }

  /** The selection in the writer scripts' `main`: a number outside 1..3
      gives IEEE at once, and only a non-numeric answer is upper-cased. */
  function ScriptSelectCitationFormat(answer: string): string {
    var u := Strip(answer);
    if IsDigits(u) then
      if 1 <= DigitsValue(u) <= |FormatKeys| then FormatKeys[DigitsValue(u) - 1] else "IEEE"
    else if Upper(u) in FormatKeys then Upper(u)
    else "IEEE"
  }

  /** An upper-cased string of digits is the same string. */
  lemma UpperDigits(u: string)
    requires IsDigits(u)
    ensures Upper(u) == u
  {
  }

  /** Whatever the answer, the scripts choose the same format as the
      package's prompt: a number out of range, upper-cased, is not a
      key either. */
  lemma ScriptSelectionAgrees(answer: string)
    ensures ScriptSelectCitationFormat(answer) == SelectCitationFormat(answer)
  {
    var u := Strip(answer);
    if IsDigits(u) {
      UpperDigits(u);
      DigitsNotKey(u);
    }
  }

  /** Every key starts with a capital letter, so no number is a key. */
  lemma DigitsNotKey(u: string)
    requires IsDigits(u)
    ensures u !in FormatKeys
  {
    assert '0' <= u[0] <= '9';
  }

  /** The answer always resolves to a key of the table. */
  lemma SelectionIsKey(answer: string)
    ensures SelectCitationFormat(answer) in FormatKeys
  {
  }

  /** A digit string has no whitespace at its ends, so `strip` keeps it. */
  lemma StripDigits(s: string)
    requires IsDigits(s)
    ensures Strip(s) == s
  {
    assert !IsSpace(s[0]) && !IsSpace(s[|s| - 1]);
  }

  /** The numeric answers 1 to 3 give the three keys in table order. */
  lemma NumericSelection(d: nat)
    requires 1 <= d <= 3
    ensures SelectCitationFormat(NatToString(d)) == FormatKeys[d - 1]
  {
    StripDigits(NatToString(d));
    NatToStringRoundTrip(d);
  }

  /** Upper-casing never yields a lower-case letter. */
  lemma UpperHasNoLower(u: string, i: nat)
    requires i < |u|
    ensures !('a' <= Upper(u)[i] <= 'z')
  {
  }

  lemma UpperKeys()
    ensures Upper("IEEE") == "IEEE" && Upper("APA") == "APA" && Upper("Vancouver") == "VANCOUVER"
  {
    var v := Upper("Vancouver");
    assert v[0] == 'V' && v[1] == 'A' && v[2] == 'N' && v[3] == 'C' && v[4] == 'O';
    assert v[5] == 'U' && v[6] == 'V' && v[7] == 'E' && v[8] == 'R';
    var a := Upper("APA");
    assert a[0] == 'A' && a[1] == 'P' && a[2] == 'A';
    var e := Upper("IEEE");
    assert e[0] == 'I' && e[1] == 'E' && e[2] == 'E' && e[3] == 'E';
  }

  /** An upper-cased answer is never the mixed-case key "Vancouver". */
  lemma UpperNotVancouver(u: string)
    ensures Upper(u) != "Vancouver"
  {
    if |u| == 9 {
      UpperHasNoLower(u, 1);
      assert Upper(u)[1] != "Vancouver"[1];
    }
  }

  /** An answer that is not a number is chosen by its upper-cased form,
      under both selections. */
  lemma SelectByName(u: string)
    requires Trimmed(u) && u != [] && !IsDigit(u[0])
    ensures SelectCitationFormat(u) == (if Upper(u) in FormatKeys then Upper(u) else "IEEE")
    ensures SelectCitationFormatFixed(u)
         == (if Upper(u) == "IEEE" then "IEEE" else if Upper(u) == "APA" then "APA"
             else if Upper(u) == "VANCOUVER" then "Vancouver" else "IEEE")
  {
    assert Strip(u) == u;
    assert !IsDigits(u);
  }

  lemma UpperApa()
    ensures Upper("apa") == "APA"
  {
    var a := Upper("apa");
    assert a[0] == 'A' && a[1] == 'P' && a[2] == 'A';
  }

  /** Typing the name of a format: "apa" works in any case, but
      "Vancouver" upper-cases to "VANCOUVER", which is not a key, so it
      falls back to IEEE. */
  lemma VancouverByNameFallsBack()
    ensures SelectCitationFormat("apa") == "APA"
    ensures SelectCitationFormat("Vancouver") == "IEEE"
  {
    SelectApaByName();
    SelectVancouverByName();
  }

  lemma SelectApaByName()
    ensures SelectCitationFormat("apa") == "APA"
  {
    var p := "apa";
    assert Trimmed(p) && !IsDigit(p[0]);
    SelectByName(p);
    UpperApa();
  }

  lemma SelectVancouverByName()
    ensures SelectCitationFormat("Vancouver") == "IEEE"
  {
    var s := "Vancouver";
    assert Trimmed(s) && !IsDigit(s[0]);
    SelectByName(s);
    UpperNotVancouver(s);
    var su := Upper(s);
    assert su[0] == 'V' && su[1] == 'A';
    assert su != "IEEE" && su != "APA";
  }

  /** Vancouver is chosen only by a number: whenever the answer resolves
      to Vancouver, the stripped answer is all digits, with value 3. */
  lemma VancouverOnlyByNumber(answer: string)
    requires SelectCitationFormat(answer) == "Vancouver"
    ensures IsDigits(Strip(answer)) && DigitsValue(Strip(answer)) == 3
  {
    UpperNotVancouver(Strip(answer));
    OnlyLastKeyIsVancouver();
  }

  /** The first two keys, "IEEE" in particular, are not "Vancouver". */
  lemma OnlyLastKeyIsVancouver()
    ensures FormatKeys[0] == "IEEE" != "Vancouver" && FormatKeys[1] != "Vancouver"
    ensures FormatKeys[2] == "Vancouver"
  {
    assert "IEEE"[0] != "Vancouver"[0];
    assert "APA"[0] != "Vancouver"[0];
  }

  /** The selection as evidently intended: the name of a format is
      recognised in any case, "Vancouver" included. */
  function SelectCitationFormatFixed(answer: string): string {
    var u := Strip(answer);
    if IsDigits(u) && 1 <= DigitsValue(u) <= |FormatKeys| then FormatKeys[DigitsValue(u) - 1]
    else if Upper(u) == "IEEE" then "IEEE"
    else if Upper(u) == "APA" then "APA"
    else if Upper(u) == "VANCOUVER" then "Vancouver"
    else "IEEE"
  }

  /** Each key typed in any case selects that key under the corrected
      selection; the original selection gets it right except for
      Vancouver, which it turns into IEEE. */
  lemma FixedSelectionByName(k: nat, answer: string)
    requires k < |FormatKeys|
    requires Trimmed(answer) && Upper(answer) == Upper(FormatKeys[k])
    ensures SelectCitationFormatFixed(answer) == FormatKeys[k]
    ensures SelectCitationFormat(answer) == (if k == 2 then "IEEE" else FormatKeys[k])
  {
    UpperKeys();
    var up := Upper(FormatKeys[k]);
    assert |answer| == |up| > 0;
    assert UpperChar(answer[0]) == up[0];
    assert !IsDigit(answer[0]);
    SelectByName(answer);
    var v := Upper(answer);
    if k == 2 {
      assert v == "VANCOUVER";
      assert v[0] == 'V' && v[1] == 'A';
      assert v != "IEEE" && v != "APA" && v != "Vancouver";
    }
  }

  /** The corrected selection, too, always resolves to a key. */
  lemma FixedSelectionIsKey(answer: string)
    ensures SelectCitationFormatFixed(answer) in FormatKeys
  {
    var r := SelectCitationFormatFixed(answer);
    KeysListed();
    assert r == FormatKeys[0] || r == FormatKeys[1] || r == FormatKeys[2];
  }

  lemma KeysListed()
    ensures |FormatKeys| == 3
    ensures FormatKeys[0] == "IEEE" && FormatKeys[1] == "APA" && FormatKeys[2] == "Vancouver"
  {
  }

  /** Away from the name Vancouver, the corrected selection is the
      original one. */
  lemma FixedSelectionAgrees(answer: string)
    requires Upper(Strip(answer)) != "VANCOUVER"
    ensures SelectCitationFormatFixed(answer) == SelectCitationFormat(answer)
  {
    var u := Strip(answer);
    UpperNotVancouver(u);
    KeyMembership(Upper(u));
  }

  /** Apart from "Vancouver", a key is "IEEE" or "APA". */
  lemma KeyMembership(v: string)
    requires v != "Vancouver"
    ensures v in FormatKeys <==> v == "IEEE" || v == "APA"
  {
  }

  // ---------------------------------------------------------------------
  // Topic and file name
  // ---------------------------------------------------------------------

  /** `get_topic`: the stripped answer, or the `ValueError` for a blank
      one. */
  function GetTopic(answer: string): (r: Result<string, string>)
    ensures r.Err? <==> AllSpace(answer)
    ensures r.Err? ==> r.error == "Topic cannot be empty"
    ensures r.Ok? ==> r.value != [] && Trimmed(r.value) && r.value == Strip(answer)
  {
    var topic := Strip(answer);
    if topic == [] then Err("Topic cannot be empty") else Ok(topic)
  }

  const MaxDefaultName: nat := 50

  /** The suggested name: spaces become underscores, cut to 50
      characters. */
  function DefaultFilename(topic: string): string {
    Take(ReplaceChar(topic, ' ', "_"), MaxDefaultName)
  }

  /** `get_filename`: the stripped answer, or the suggestion when it is
      blank, with spaces and slashes made underscores. */
  function GetFilename(topic: string, answer: string): (r: string)
    ensures ' ' !in r && '/' !in r && '\\' !in r
  {
    var f := Strip(answer);
    Export.CleanNameSafe(if f == [] then DefaultFilename(topic) else f);
    Export.CleanName(if f == [] then DefaultFilename(topic) else f)
  }

  /** Replacing a character by one character keeps the length. */
  lemma {:induction false} ReplaceCharLength(s: string, c: char, r: string)
    requires |r| == 1
    ensures |ReplaceChar(s, c, r)| == |s|
    decreases |s|
  {
    if s != [] {
      ReplaceCharLength(s[1..], c, r);
    }
  }

  /** A blank answer gives the suggestion, which is at most 50 characters
      and, cleaned, loses its slashes too. A non-blank answer is used
      (cleaned) in place of the suggestion. */
  lemma GetFilenameDefault(topic: string, answer: string)
    ensures AllSpace(answer) ==> GetFilename(topic, answer) == Export.CleanName(DefaultFilename(topic))
    ensures AllSpace(answer) ==> |GetFilename(topic, answer)| <= 50
    ensures !AllSpace(answer) ==> GetFilename(topic, answer) == Export.CleanName(Strip(answer))
  {
    var d := DefaultFilename(topic);
    ReplaceCharLength(d, ' ', "_");
    ReplaceCharLength(ReplaceChar(d, ' ', "_"), '/', "_");
    ReplaceCharLength(ReplaceChar(ReplaceChar(d, ' ', "_"), '/', "_"), '\\', "_");
  }

  // ---------------------------------------------------------------------
  // Yes/no questions
  // ---------------------------------------------------------------------

  /** A yes: "y" or "yes" once stripped and lower-cased. */
  predicate IsYes(answer: string) {
    var a := Lower(Strip(answer));
    a == "y" || a == "yes"
  }

  /** `ask_use_rag`: no when the library is not ready (without asking),
      otherwise whether the answer is a yes. `ready` is the first value
      of the `check_rag_ready` this module imports from
      `src/rag/rag_system.py`, which is not part of this model. */
  function AskUseRag(ready: bool, answer: string): (r: bool)
    ensures r <==> ready && IsYes(answer)
  {
    if !ready then false else IsYes(answer)
  }

  /** `ask_export_pdf`: yes for a blank answer, otherwise whether it is a
      yes. */
  function AskExportPdf(answer: string): bool {
    var a := Lower(Strip(answer));
    if a == [] then true else a == "y" || a == "yes"
  }

  /** The answers that export: a blank answer and a yes in any case;
      "n", "no" or anything else does not. */
  lemma AskExportPdfAnswers(answer: string)
    ensures AskExportPdf(answer) <==> AllSpace(answer) || IsYes(answer)
  {
    var a := Strip(answer);
    assert |Lower(a)| == |a|;
  }

  /** Enter alone exports, "YES" exports, "no" does not. */
  lemma AskExportPdfExamples()
    ensures AskExportPdf("") && AskExportPdf("YES") && !AskExportPdf("no")
  {
    BlankAnswer();
    LowerYes();
    LowerNo();
  }

  lemma BlankAnswer()
    ensures Lower(Strip("")) == []
  {
    assert Strip("") == [];
  }

  lemma LowerYes()
    ensures Lower(Strip("YES")) == "yes"
  {
    var y := "YES";
    assert Trimmed(y);
    var ly := Lower(y);
    assert ly[0] == 'y' && ly[1] == 'e' && ly[2] == 's';
  }

  lemma LowerNo()
    ensures var ln := Lower(Strip("no")); ln != [] && ln != "y" && ln != "yes"
  {
    var n := "no";
    assert Trimmed(n);
    var ln := Lower(n);
    assert ln[0] == 'n';
  }

  /** The writer scripts' choice to use the library: it is ready and the
      stripped, lower-cased answer is "y". */
  function ScriptUseRag(ready: bool, answer: string): bool {
    ready && Lower(Strip(answer)) == "y"
  }

  /** The scripts accept only "y" to use the library, where the package's
      prompt also accepts "yes": every script yes is a package yes, but
      not the other way round. */
  lemma ScriptUseRagStricter(ready: bool, answer: string)
    ensures ScriptUseRag(ready, answer) ==> AskUseRag(ready, answer)
    ensures ready ==> AskUseRag(ready, "yes") && !ScriptUseRag(ready, "yes")
  {
    var y := "yes";
    assert Trimmed(y);
    var ly := Lower(y);
    assert ly[0] == 'y' && ly[1] == 'e' && ly[2] == 's';
    assert ly == "yes";
  }
}
