# Task Anything: task store and automation dispatch in Dafny

Task Anything is a small desktop task tracker. This project models its two pieces of real logic.

- **The task store** (`TaskManager`) keeps an ordered list of task records and mirrors it to a JSON file.
  - Adding a task checks that the type and description are present.
  - It then rejects a draft whose stripped type and description match a task created less than 60 seconds earlier.
  - Otherwise it appends a new `pending` task.
  - Completing a task moves the first pending task with a given id to `completed`. This happens once.
  - The pending list and the pending/completed counts are pure scans of the list.
- **The automation handler** (`AutomationHandler`) looks up a task's type in a table of four handlers. An unknown type is ignored.
  - The email handler writes a template to a draft file and lets the user edit it in VS Code.
  - It returns the text after the last separator line (forty dashes), stripped.
  - Every failure it meets is re-raised behind the prefix `Failed to generate email: `.
  - The script handler only launches the editor. The meeting and pull-request handlers are stubs.

`Text` models the Python string operations these rely on: `str.strip()` and `str.split(sep)` with its left-to-right scan for the separator. `str.join` serves as the inverse of the split. `Wrappers` holds `Option` and `Result`.

Inputs from outside the program become parameters:
- the clock is an `Instant`: whole seconds, plus the same instant as ISO text;
- the new task's id (an MD5 hash in the program) is passed in as a string;
- `datetime.fromisoformat` is a caller-supplied `parseIso: string -> Option<int>`;
- the task file is `Store.saved`, the list as last written (`None` while no file exists);
- editor launches, the platform, the file system and the GitHub library are an `Environment` value. It says how each step turns out.

Facts about the code that the model keeps:
- The meeting and pull-request handlers do nothing and always return normally (automation_handler.py:106-118).
- The script handler launches `code --new-window --wait` with no file and returns nothing (automation_handler.py:41-45).
- The counts cover only the two exact strings `pending` and `completed` (task_manager.py:77-81). Their sum is at most the list length, with equality when every status is one of the two.
- A task "created within the last 60 seconds" also includes a stored timestamp that lies in the future: `now - created_at < 60` holds for negative differences (task_manager.py:43-44).
- When the first editor launch fails with a missing executable or a failure status on a platform other than Windows, the code does not raise (automation_handler.py:70-83). It goes on to read the draft back, so the email is whatever the user saved below the separator, or the missing-file error if the draft is gone.

## Model

| member | source | states |
|---|---|---|
| TaskManager.Load | task_manager.py:12-17 | A missing task file loads as the empty list. The loaded store agrees with the file. |
| TaskManager.IsDuplicate | task_manager.py:29-48 | True exactly when the stripped type and stripped description are both non-empty and some stored task matches both, with a parseable creation time less than 60 seconds before now. Tasks with a missing or unparseable creation time never match. A draft whose stripped type or description is empty is never a duplicate. |
| TaskManager.AddTask | task_manager.py:50-62 | Fails with the missing-field error exactly when the raw type or description is missing or empty. Fails with the duplicate error exactly when the fields are present and the draft is a duplicate. On success the list grows by one and the earlier tasks are unchanged. The new last task carries the draft's fields, the given id, status `pending`, `created_at` = now and no completion time. The file then holds the new list. |
| TaskManager.PendingTasks | task_manager.py:64-65 | The result is a subsequence of the store (store order kept). Every element is pending. A task is in it exactly when it is a pending task of the store. Its length is the number of pending positions. |
| TaskManager.TaskCounts | task_manager.py:77-81 | Each count is the number of positions holding that status. Pending plus completed is at most the list length, with equality when every status is `pending` or `completed`. |
| TaskManager.CompleteTask | task_manager.py:67-75 | Returns true exactly when some task has the id and is pending. On true, the first such task gets status `completed` and `completed_at` = now, every other task is unchanged, and the file is rewritten. On false nothing changes. The list length never changes, and a task that is not pending is never touched. |
| TaskManagerProperties.WhitespaceDescriptionAlwaysAdded | task_manager.py:32-56 | A whitespace-only description passes validation (raw check) and is never a duplicate (stripped check), so the add succeeds. |
| TaskManagerProperties.ResubmitWithinWindowRejected | task_manager.py:38-59 | Re-submitting a just-added draft less than 60 seconds later fails as a duplicate. This assumes its stripped fields are non-empty and its timestamp parses back to its instant. |
| TaskManagerProperties.ResubmitAfterWindowAccepted | task_manager.py:38-59 | Once 60 or more seconds have passed since a draft was added, the same draft is accepted again. Every older match was already too old at the first submission. |
| TaskManagerProperties.AddAppendsPending | task_manager.py:58-65 | After a successful add, the pending list is the old pending list plus the new task at its end. The pending count grows by one and the completed count stays the same. |
| TaskManagerProperties.OperationsKeepCompletionStamps | task_manager.py:58-72 | If every task has a completion time exactly when completed, that still holds after a successful add and after any completion. |
| TaskManagerProperties.CompletionMovesOneCount | task_manager.py:67-81 | A successful completion lowers the pending count by one, raises the completed count by one, and keeps the list length. |
| TaskManagerProperties.SecondCompletionFails | task_manager.py:67-75 | When at most one task has the id, completing it a second time returns false and changes nothing, so the completion time is never overwritten. |
| AutomationHandler.Lookup | automation_handler.py:31-37 | A handler is found exactly for the four keys, and the handler found is the one registered under that very key. |
| AutomationHandler.LookupFindsEveryHandler | automation_handler.py:31-36 | Each of the four handlers is found again under its own key (the table is a bijection onto its keys). |
| AutomationHandler.HandleTask | automation_handler.py:29-39 | No handler runs exactly when the type is not one of the four keys, and nothing is raised then. Otherwise the handler registered for the type runs, and the outcome is that handler's alone. The meeting and PR handlers return normally. |
| AutomationHandler.ExtractEmail | automation_handler.py:90 | Without a separator in the file the email is the whole file, stripped. The result never begins or ends with whitespace. |
| AutomationHandler.SeparatorUnbordered | automation_handler.py:90 | The separator (forty dashes and a newline) has no proper prefix that is also its suffix, so two of its occurrences never overlap. |
| AutomationHandler.ExtractTextAfterLastSeparator | automation_handler.py:90 | For any header, whatever follows the last separator line is the email, stripped. |
| AutomationHandler.UnchangedTemplateGivesEmptyEmail | automation_handler.py:57-90 | Saving the template unchanged gives the empty email, whatever the description contains. |
| AutomationHandler.EmailTemplate | automation_handler.py:57-62 | The draft starts with the task line and the input marker, holds the description right after them, and ends with the separator line followed by a blank line. |
| AutomationHandler.EditDraft | automation_handler.py:69-83 | An editor that closes, or a fallback editor that closes, lets the handler go on. A start failure other than a missing executable is an error. A missing executable or failure status is passed over exactly when off Windows. On Windows it is an error when the per-user executable is absent, and otherwise the fallback launch decides. |
| AutomationHandler.EmailHandler | automation_handler.py:47-98 | Every raised message begins with `Failed to generate email: `. A write failure and every editor error are raised behind it. Otherwise the draft is read back: its extracted text is returned, or the missing-file error is raised if the draft is gone. This holds also after a passed-over launch failure off Windows. A draft saved unchanged gives the empty email. |
| AutomationHandler.ScriptHandler | automation_handler.py:41-45 | Raises exactly when the editor process cannot be started. The message is the launch error itself, unwrapped. A failure exit status is not an error, and nothing is returned. |
| AutomationHandler.MeetingHandler | automation_handler.py:106-108 | Returns normally with no result. |
| AutomationHandler.PrHandler | automation_handler.py:110-118 | Returns normally with no result, whether or not the GitHub library is installed and whether or not a client exists. |
| Text.Strip | task_manager.py:32-33 | The result is a slice of the input with only whitespace on either side. It neither begins nor ends with whitespace, and it is empty exactly when the input is all whitespace. |
| Text.StripIdempotent | automation_handler.py:90 | Stripping a stripped string changes nothing. |
| Text.FindFromFirst | automation_handler.py:90 | The scan that cuts the split reports the first occurrence at or after its start position. It reports none only when no occurrence starts there or later. |
| Text.Split | automation_handler.py:90 | A split always has at least one piece. It is the single piece holding the whole text when the separator does not occur. |
| Text.SplitJoin | automation_handler.py:90 | Joining the pieces of a split with the separator gives back the original text. |
| Text.SplitPiecesFree | automation_handler.py:90 | No piece of a split contains the separator. |
| Text.LastPiece | automation_handler.py:90 | Index `-1` of the split is a suffix of the text that contains no separator. It is all of the text exactly when the separator does not occur. |
| Text.LastPieceWhole | automation_handler.py:90 | Without a separator in the text, the last piece is the text itself. |
| Text.LastPiecePreceded | automation_handler.py:90 | Unless the last piece is the whole text, a separator ends exactly where the last piece begins. |
| Text.LastPieceAfter | automation_handler.py:90 | For a separator whose occurrences cannot overlap, the last piece of `p + sep + t` is `t` whenever `t` contains no separator. It is the text after the rightmost occurrence. |

## Left out

- File I/O: JSON encoding and decoding are not modelled. The task file is the decoded list itself.
- A malformed task file (a fatal error at startup) is not modelled.
- A failing `save_tasks` is not modelled. In the program it would leave the appended or completed task in memory without writing it.
- Task ids: `generate_task_id` (an MD5 hash of time, type and description) is a parameter. Uniqueness of ids is not proved.
- Clock reads: `add_task` reads the clock up to three times (in `is_duplicate`, in `generate_task_id`, and for `created_at`). The model uses one `Instant` per call.
- Time resolution: seconds are whole. The program compares fractional seconds.
- `datetime.fromisoformat` is a parameter.
- A stored timestamp with a timezone would make the subtraction raise `TypeError` in the program. That is not modelled.
- Stored tasks always carry a type and a description. A hand-edited file lacking them would make `is_duplicate` raise `KeyError`, and that is not modelled.
- Deleting the draft file in the email handler's `finally` block is not modelled (file-system effect, errors ignored).
- Read and decode failures of the draft file, and the `print` calls, are not modelled.
- Constructing the GitHub client at startup (`AutomationHandler.__init__`) is a foreign call. The handler sees only its result, `Capabilities`.
- The `get_email_prompt` import is never called, and neither is `copilot_prompts.py`.
- The form, task view, reminder thread and message boxes (main.py, task_view.py, notification_manager.py) are user interface and threads.
- main.py:14 passes the task store to a constructor that takes no argument (notification_manager.py:10). That file is not part of this model.
- The due-date check in the form (main.py:91-94) is not modelled.
- TaskManagerProperties.SecondCompletionFails: assumes at most one task carries the id. With repeated ids a second call completes the next pending task with that id, as the code does.
- TaskManager.IsDuplicate: the optional `time_window` argument is not modelled; the window is fixed at 60 seconds (`DUPLICATE_WINDOW`), the default, which the only call (task_manager.py:55) uses.
- AutomationHandler.HandleTask: returns the handler's outcome so that it can be stated. `handle_task` itself discards a handler's return value and returns `None` (automation_handler.py:37-39), so the caller never sees the email text.
- AutomationHandler.EmailHandler: states the outcome per case. Removal of the draft file afterwards is not stated.
