/**
 The automation step run after a task is created: a lookup from the task's type to one of four
 handlers. The email handler writes a template to a file, lets the user edit it in an external
 editor, and returns the text written below the template's separator line. The script handler
 only launches the editor, and the meeting and pull-request handlers do nothing.

 Everything outside the program (launching the editor, the file system, the platform, the GitHub
 library) is described by an `Environment` value saying how each of those steps turns out.
 */
module AutomationHandler {
  import opened Wrappers
  import Text
  import TaskManager

  const SCRIPT_AUTOMATION: string := "Script Automation"
  const EMAIL: string := "Email"
  const MEETING: string := "Meeting"
  const PR_REVIEW: string := "PR Review"

  datatype Handler = ScriptTask | EmailTask | MeetingTask | PrTask

  /** The key under which each handler is registered in the dispatch table. */
  function Key(h: Handler): string {
    match h
    case ScriptTask => SCRIPT_AUTOMATION
    case EmailTask => EMAIL
    case MeetingTask => MEETING
    case PrTask => PR_REVIEW
  }

  predicate IsHandledType(taskType: string) {
    taskType == SCRIPT_AUTOMATION || taskType == EMAIL || taskType == MEETING || taskType == PR_REVIEW
  }

  /** `handlers.get(task_type)`: the handler registered under exactly this type, if any. */
  function Lookup(taskType: string): (r: Option<Handler>)
    ensures r.Some? <==> IsHandledType(taskType)
    ensures r.Some? ==> Key(r.value) == taskType
  {
    if taskType == SCRIPT_AUTOMATION then Some(ScriptTask)
    else if taskType == EMAIL then Some(EmailTask)
    else if taskType == MEETING then Some(MeetingTask)
    else if taskType == PR_REVIEW then Some(PrTask)
    else None
  }

  /** Every handler is found again under its own key. */
  lemma LookupFindsEveryHandler(h: Handler)
    ensures Lookup(Key(h)) == Some(h)
  {
  }

  /** How a launch of the external editor ends when it does not simply exit with status 0. */
  datatype LaunchFailure =
    | NonZeroExit   // the editor exited with a failure status (an error only when the exit status is checked)
    | NotFound      // the executable could not be found
    | OtherOsError  // any other failure to start the process

  datatype Launch = Closed | Failed(kind: LaunchFailure, text: string)

  /** What happens around one run of the email handler. */
  datatype EmailSession = EmailSession(
    writeError: Option<string>,   // failure creating the directory or writing the draft file
    editor: Launch,               // the `code --new-window --wait <file>` launch
    windows: bool,                // running on Windows
    fallbackExists: bool,         // the per-user VS Code executable exists
    fallbackEditor: Launch,       // the launch through that executable
    savedText: Option<string>)    // the draft file when it is read back; None if it is gone

  /** Whether the GitHub library is installed and whether a client was constructed at startup. */
  datatype Capabilities = Capabilities(githubInstalled: bool, hasClient: bool)

  datatype Environment = Environment(caps: Capabilities, scriptEditor: Launch, email: EmailSession)

  /** A handler either returns (with the email text for the email handler) or raises with a message. */
  datatype Outcome = Returned(value: Option<string>) | Raised(message: string)

  /** What `handle_task` did: nothing for an unknown type, or ran one handler. */
  datatype Dispatch = Ignored | Ran(handler: Handler, outcome: Outcome)

  const EMAIL_FAILURE_PREFIX: string := "Failed to generate email: "
  const EDITOR_NOT_FOUND: string := "VSCode not found. Please ensure it's installed."
  const DRAFT_MISSING: string := "Email file not found after VSCode closed"

  /** The line that ends the email template's header: forty dashes and a newline. */
  const SEPARATOR: string := Dashes(40) + "\n"

  /** A run of `n` dashes. */
  function Dashes(n: nat): (r: string)
    ensures |r| == n && forall i | 0 <= i < n :: r[i] == '-'
  {
    if n == 0 then [] else Dashes(n - 1) + "-"
  }

  const TEMPLATE_HEAD: string := "// Task: Write a professional email\n// Input: "
  const TEMPLATE_TAIL: string := "\n// Instructions: Write your response below this line\n// "

  /**
   The draft the email handler writes before opening the editor: the task line and the input
   marker, then the description, then the instruction line, and last the separator line followed
   by a blank line.
   */
  function EmailTemplate(description: string): (r: string)
    ensures |r| == |TEMPLATE_HEAD| + |description| + |TEMPLATE_TAIL| + |SEPARATOR| + 1
    ensures Text.StartsWith(r, TEMPLATE_HEAD)
    ensures r[|TEMPLATE_HEAD|..|TEMPLATE_HEAD| + |description|] == description
    ensures r[|r| - |SEPARATOR| - 1..] == SEPARATOR + "\n"
  {
    var r := TEMPLATE_HEAD + description + TEMPLATE_TAIL + SEPARATOR + "\n";
    assert r[..|TEMPLATE_HEAD|] == TEMPLATE_HEAD;
    assert r[|TEMPLATE_HEAD|..|TEMPLATE_HEAD| + |description|] == description;
    assert r[|r| - |SEPARATOR| - 1..] == SEPARATOR + "\n";
    r
  }

  /**
   The email text read back from the draft file: everything after the last separator line, with
   surrounding whitespace removed; the whole file, stripped, when there is no separator.
   */
  function ExtractEmail(content: string): (r: string)
    ensures !Text.Contains(content, SEPARATOR) ==> r == Text.Strip(content)
    ensures r == [] || (!Text.IsSpace(r[0]) && !Text.IsSpace(r[|r| - 1]))
  {
    Text.LastPieceWhole(content, SEPARATOR);
    Text.Strip(Text.LastPiece(content, SEPARATOR))
  }

  lemma SeparatorUnbordered()
    ensures Text.Unbordered(SEPARATOR)
  {
    forall k | 0 < k < |SEPARATOR|
      ensures SEPARATOR[..k] != SEPARATOR[|SEPARATOR| - k..]
    {
      assert SEPARATOR[..k][k - 1] == '-';
      assert SEPARATOR[|SEPARATOR| - k..][k - 1] == '\n';
    }
  }

  /** Whatever the user writes below the last separator line is the email, stripped. */
  lemma ExtractTextAfterLastSeparator(header: string, body: string)
    requires !Text.Contains(body, SEPARATOR)
    ensures ExtractEmail(header + SEPARATOR + body) == Text.Strip(body)
  {
    SeparatorUnbordered();
    Text.LastPieceAfter(header, SEPARATOR, body);
  }

  /** Saving the template unchanged gives an empty email, whatever the description holds. */
  lemma UnchangedTemplateGivesEmptyEmail(description: string)
    ensures ExtractEmail(EmailTemplate(description)) == []
  {
    var header := TEMPLATE_HEAD + description + TEMPLATE_TAIL;
    assert EmailTemplate(description) == header + SEPARATOR + "\n";
    assert !Text.Contains("\n", SEPARATOR);
    ExtractTextAfterLastSeparator(header, "\n");
    assert Text.AllSpace("\n");
  }

  /**
   How the editor step of the email handler ends: an editor ran and closed, the failed first launch
   was passed over (off Windows), or an error to be re-raised.
   */
  datatype Editing = Edited | EditorSkipped | EditorError(message: string)

  /**
   Launching the editor on the draft. The first launch checks its exit status. A missing executable
   or a failure status falls back to the per-user executable on Windows and is passed over
   elsewhere. Any other failure to start, a missing per-user executable and any failure of the
   fallback launch are errors.
   */
  function EditDraft(session: EmailSession): (r: Editing)
    ensures session.editor.Closed? ==> r == Edited
    ensures session.editor.Failed? && session.editor.kind == OtherOsError ==> r == EditorError(session.editor.text)
    ensures r == EditorSkipped <==>
      session.editor.Failed? && session.editor.kind != OtherOsError && !session.windows
    ensures session.editor.Failed? && session.editor.kind != OtherOsError && session.windows && !session.fallbackExists ==>
      r == EditorError(EDITOR_NOT_FOUND)
    ensures (&& session.editor.Failed? && session.editor.kind != OtherOsError
             && session.windows && session.fallbackExists) ==>
      r == (if session.fallbackEditor.Closed? then Edited else EditorError(session.fallbackEditor.text))
  {
    match session.editor
    case Closed => Edited
    case Failed(kind, text) =>
      if kind == OtherOsError then EditorError(text)
      else if !session.windows then EditorSkipped
      else if !session.fallbackExists then EditorError(EDITOR_NOT_FOUND)
      else match session.fallbackEditor
        case Closed => Edited
        case Failed(_, fallbackText) => EditorError(fallbackText)
  }

  /**
   The email handler: every failure is re-raised behind the prefix "Failed to generate email: ".
   Unless the editor step ended in an error, the draft file is read back (a failure status off
   Windows comes only after the editor has run, so the user's edits are read too) and its text
   below the separator is returned; a draft that is gone is an error. A draft saved unchanged
   gives the empty email.
   */
  function EmailHandler(description: string, session: EmailSession): (r: Outcome)
    ensures r.Raised? ==> Text.StartsWith(r.message, EMAIL_FAILURE_PREFIX)
    ensures r.Returned? ==> r.value.Some? && session.writeError.None?
    ensures session.writeError.Some? ==> r == Raised(EMAIL_FAILURE_PREFIX + session.writeError.value)
    ensures session.writeError.None? && EditDraft(session).EditorError? ==>
      r == Raised(EMAIL_FAILURE_PREFIX + EditDraft(session).message)
    ensures session.writeError.None? && !EditDraft(session).EditorError? ==>
      r == (if session.savedText.Some? then Returned(Some(ExtractEmail(session.savedText.value)))
            else Raised(EMAIL_FAILURE_PREFIX + DRAFT_MISSING))
    ensures (&& session.writeError.None? && !EditDraft(session).EditorError?
             && session.savedText == Some(EmailTemplate(description))) ==> r == Returned(Some([]))
  {
    UnchangedTemplateGivesEmptyEmail(description);
    match session.writeError
    case Some(e) => Raised(EMAIL_FAILURE_PREFIX + e)
    case None =>
      match EditDraft(session)
      case EditorError(m) => Raised(EMAIL_FAILURE_PREFIX + m)
      case _ =>
        match session.savedText
        case None => Raised(EMAIL_FAILURE_PREFIX + DRAFT_MISSING)
        case Some(text) => Returned(Some(ExtractEmail(text)))
  }

  /**
   The script handler launches the editor without checking its exit status: it returns nothing,
   and raises the launch's own error, unwrapped, only when the process could not be started.
   */
  function ScriptHandler(editor: Launch): (r: Outcome)
    ensures r.Raised? <==> editor.Failed? && editor.kind != NonZeroExit
    ensures r.Raised? ==> r.message == editor.text
    ensures r.Returned? ==> r.value.None?
  {
    match editor
    case Closed => Returned(None)
    case Failed(kind, text) => if kind == NonZeroExit then Returned(None) else Raised(text)
  }

  /** The meeting handler is a stub: it returns without doing anything. */
  function MeetingHandler(task: TaskManager.Task): (r: Outcome)
    ensures r == Returned(None)
  {
    Returned(None)
  }

  /**
   The pull-request handler returns without raising whether or not the GitHub library is
   installed and a client exists; past those checks it is a stub.
   */
  function PrHandler(task: TaskManager.Task, caps: Capabilities): (r: Outcome)
    ensures r == Returned(None)
  {
    if !caps.githubInstalled then Returned(None)
    else if !caps.hasClient then Returned(None)
    else Returned(None)
  }

  /**
   `handle_task`: runs the handler registered for the task's type and no other. A type outside
   the four keys runs nothing and raises nothing.
   */
  function HandleTask(task: TaskManager.Task, env: Environment): (r: Dispatch)
    ensures r.Ignored? <==> !IsHandledType(task.taskType)
    ensures r.Ran? ==> Key(r.handler) == task.taskType
    ensures r.Ran? && r.handler == EmailTask ==> r.outcome == EmailHandler(task.description, env.email)
    ensures r.Ran? && r.handler == ScriptTask ==> r.outcome == ScriptHandler(env.scriptEditor)
    ensures r.Ran? && (r.handler == MeetingTask || r.handler == PrTask) ==> r.outcome == Returned(None)
  {
    match Lookup(task.taskType)
    case None => Ignored
    case Some(h) =>
      var outcome := match h
        case ScriptTask => ScriptHandler(env.scriptEditor)
        case EmailTask => EmailHandler(task.description, env.email)
        case MeetingTask => MeetingHandler(task)
        case PrTask => PrHandler(task, env.caps);
      Ran(h, outcome)
  }
}
