/*
  The earlier version of the writer script. It differs from the current
  one in three decisions: the user may give a custom output name, the
  local library gets an agent of its own (so `create_agents` returns four
  agents instead of three), and the library search becomes a task of its
  own that the writing task takes as context.
*/
module PaperWriterOld {
  import opened Wrappers
  import opened Text
  import Rag
  import Input
  import PaperWriter

  // ---------------------------------------------------------------------
  // Agents and tasks
  // ---------------------------------------------------------------------

  datatype Agent = WebResearcher | LocalSpecialist | Writer | Editor

  /** The tuple `create_agents` returns. */
  function CreateAgents(useRag: bool): seq<Agent> {
    if useRag then [WebResearcher, LocalSpecialist, Writer, Editor]
    else [WebResearcher, Writer, Editor]
  }

  /** Four agents with the library, three without; the library agent is
      second when present and the writer and editor are always last. */
  lemma CreateAgentsShape(useRag: bool)
    ensures var a := CreateAgents(useRag);
      && |a| == (if useRag then 4 else 3)
      && a[0] == WebResearcher
      && (LocalSpecialist in a <==> useRag)
      && a[|a| - 2..] == [Writer, Editor]
  {
  }

  datatype Task = WebResearchTask | LocalTask | WriteTask(context: seq<Task>) | EditTask

  /** The tuple `create_tasks` returns; `None` stands for a missing task.
      The library task exists when the library is used and its agent was
      given; the tuple has four entries whenever the library is used. */
  function CreateTasks(useRag: bool, hasLocalAgent: bool): seq<Option<Task>> {
    var local := if useRag && hasLocalAgent then Some(LocalTask) else None;
    var write := WriteTask([WebResearchTask] + (if local.Some? then [LocalTask] else []));
    if useRag then [Some(WebResearchTask), local, Some(write), Some(EditTask)]
    else [Some(WebResearchTask), Some(write), Some(EditTask)]
  }

  /** The tasks of a run, as `main` asks for them: with the library agent
      exactly when the library is used. */
  function RunTasks(useRag: bool): seq<Option<Task>> {
    CreateTasks(useRag, LocalSpecialist in CreateAgents(useRag))
  }

  /** In a run every task exists, there is one task per agent, each agent
      at the same position as its task, and the writing task has the web
      research as context, followed by the library task exactly when the
      library is used. */
  lemma RunTasksShape(useRag: bool)
    ensures var ts := RunTasks(useRag);
      var a := CreateAgents(useRag);
      && |ts| == |a|
      && (forall i :: 0 <= i < |ts| ==> ts[i].Some?)
      && ts[|ts| - 2].value.WriteTask?
      && ts[|ts| - 2].value.context == [WebResearchTask] + (if useRag then [LocalTask] else [])
      && (forall i :: 0 <= i < |ts| ==> (ts[i].value == LocalTask <==> a[i] == LocalSpecialist))
  {
  }

  /** Called with the library on but without its agent, `create_tasks`
      still returns four entries, the second one missing, and the writing
      task has only the web research as context. */
  lemma TasksWithoutLocalAgent()
    ensures var ts := CreateTasks(true, false);
      |ts| == 4 && ts[1].None? && ts[2] == Some(WriteTask([WebResearchTask]))
  {
    assert [WebResearchTask] + [] == [WebResearchTask];
  }

  // ---------------------------------------------------------------------
  // main
  // ---------------------------------------------------------------------

  /** The output name: the custom name given, unsanitised, plus ".md";
      the generated name when none was given. */
  function OutputFilename(format: string, topic: string, customAnswer: string): string {
    var custom := Strip(customAnswer);
    if custom != [] then custom + ".md" else PaperWriter.MarkdownFilename(format, topic)
  }

  /** A custom name is used as typed, spaces and slashes included; a
      blank one gives the same name as the current script. */
  lemma OutputFilenameShape(format: string, topic: string, customAnswer: string)
    ensures var f := OutputFilename(format, topic, customAnswer);
      && EndsWith(f, ".md")
      && (!AllSpace(customAnswer) ==> f[..|f| - 3] == Strip(customAnswer))
      && (AllSpace(customAnswer) ==> f == PaperWriter.MarkdownFilename(format, topic))
  {
    var f := OutputFilename(format, topic, customAnswer);
    var md := ".md";
    if !AllSpace(customAnswer) {
      assert f == Strip(customAnswer) + md;
    } else {
      assert f == PaperWriter.MarkdownStem(format, topic) + md;
    }
    assert f[|f| - 3..] == md;
  }

  /** A run of the earlier `main`: `None` when the topic is blank;
      otherwise the format (chosen as the script writes it), the
      topic, whether the library is used, the agents, the tasks, the
      output names and the preview. */
  datatype OldSession = OldSession(format: string, topic: string, useRag: bool, agents: seq<Agent>,
                                   tasks: seq<Option<Task>>, markdownFile: string,
                                   pdfFile: Option<string>, preview: string)

  function RunMain(formatAnswer: string, topicAnswer: string, customAnswer: string, folderExists: bool,
                   pdfCount: nat, indexExists: bool, ragAnswer: string, result: string,
                   exportAnswer: string): Option<OldSession>
  {
    var format := Input.ScriptSelectCitationFormat(formatAnswer);
    var topic := Strip(topicAnswer);
    if topic == [] then None
    else
      var ready := Rag.CheckRagReady(Input.PdfLibrary, folderExists, pdfCount, indexExists).0;
      var useRag := Input.ScriptUseRag(ready, ragAnswer);
      var md := OutputFilename(format, topic, customAnswer);
      Some(OldSession(format, topic, useRag, CreateAgents(useRag), RunTasks(useRag), md,
                      if PaperWriter.AnswersY(exportAnswer) then Some(PaperWriter.PdfFilename(md)) else None,
                      PaperWriter.Preview(result)))
  }

  /** The earlier `main` stops exactly when the topic is blank. Otherwise
      it uses a known format (Vancouver only for the number 3), has four
      agents and four tasks exactly when the library is used
      (which needs it ready and the answer "y"), takes the custom name when
      one was given, asks for a PDF only on "y", and previews at most 803
      characters. */
  lemma RunMainProperties(formatAnswer: string, topicAnswer: string, customAnswer: string,
                          folderExists: bool, pdfCount: nat, indexExists: bool, ragAnswer: string,
                          result: string, exportAnswer: string)
    ensures var r := RunMain(formatAnswer, topicAnswer, customAnswer, folderExists, pdfCount, indexExists,
                             ragAnswer, result, exportAnswer);
      && (r.None? <==> AllSpace(topicAnswer))
      && (r.Some? ==>
           && r.value.format in Input.FormatKeys
           && (r.value.format == "Vancouver" ==>
                 IsDigits(Strip(formatAnswer)) && DigitsValue(Strip(formatAnswer)) == 3)
           && r.value.topic != [] && Trimmed(r.value.topic)
           && (r.value.useRag <==> folderExists && pdfCount > 0 && indexExists && PaperWriter.AnswersY(ragAnswer))
           && |r.value.agents| == |r.value.tasks| == (if r.value.useRag then 4 else 3)
           && (!AllSpace(customAnswer) ==> r.value.markdownFile == Strip(customAnswer) + ".md")
           && (r.value.pdfFile.Some? <==> PaperWriter.AnswersY(exportAnswer))
           && |r.value.preview| <= 803
           && (|result| <= 800 ==> r.value.preview == result))
  {
    var r := RunMain(formatAnswer, topicAnswer, customAnswer, folderExists, pdfCount, indexExists,
                     ragAnswer, result, exportAnswer);
    if r.Some? {
      Input.ScriptSelectionAgrees(formatAnswer);
      Input.SelectionIsKey(formatAnswer);
      if r.value.format == "Vancouver" {
        Input.VancouverOnlyByNumber(formatAnswer);
      }
      RunTasksShape(r.value.useRag);
      CreateAgentsShape(r.value.useRag);
    }
  }
}
