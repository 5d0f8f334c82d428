/**
 Properties of the task store that relate several calls: the duplicate window, what adding and
 completing do to the pending list and the counts, and that completion happens at most once.
 */
module TaskManagerProperties {
  import opened Wrappers
  import Text
  import opened TaskManager

  /**
   A description of nothing but whitespace passes validation, which looks at the raw text, and is
   never a duplicate, since duplicates are judged on the stripped text; so such a draft is always added.
   */
  lemma WhitespaceDescriptionAlwaysAdded(s: Store, draft: Draft, now: Instant, newId: string, parseIso: string -> Option<int>)
    requires Present(draft.taskType) && Present(draft.description)
    requires Text.AllSpace(draft.description.value)
    ensures !DuplicateOf(s.tasks, draft, now.seconds, parseIso)
    ensures AddTask(s, draft, now, newId, parseIso).Success?
  {
  }

  /**
   Submitting the same draft again less than 60 seconds after it was added fails as a duplicate,
   provided its stripped type and description are not empty and the stored timestamp parses back
   to the instant it was written.
   */
  lemma ResubmitWithinWindowRejected(
    s: Store, draft: Draft, first: Instant, second: Instant, id1: string, id2: string,
    parseIso: string -> Option<int>)
    requires AddTask(s, draft, first, id1, parseIso).Success?
    requires parseIso(first.iso) == Some(first.seconds)
    requires !Text.AllSpace(draft.taskType.value) && !Text.AllSpace(draft.description.value)
    requires second.seconds - first.seconds < DUPLICATE_WINDOW
    ensures AddTask(AddTask(s, draft, first, id1, parseIso).value, draft, second, id2, parseIso)
      == Failure(RecentDuplicate)
  {
    var s' := AddTask(s, draft, first, id1, parseIso).value;
    var n := |s.tasks|;
    var ty := Text.Strip(ValueOr(draft.taskType));
    var desc := Text.Strip(ValueOr(draft.description));
    assert RecentMatch(s'.tasks[n], ty, desc, second.seconds, parseIso);
  }

  /**
   Once 60 seconds have passed since a draft was added, the same draft is accepted again: the
   task just added is too old, and every older match was already too old at the first submission.
   */
  lemma ResubmitAfterWindowAccepted(
    s: Store, draft: Draft, first: Instant, second: Instant, id1: string, id2: string,
    parseIso: string -> Option<int>)
    requires AddTask(s, draft, first, id1, parseIso).Success?
    requires parseIso(first.iso) == Some(first.seconds)
    requires second.seconds >= first.seconds + DUPLICATE_WINDOW
    ensures AddTask(AddTask(s, draft, first, id1, parseIso).value, draft, second, id2, parseIso).Success?
  {
    var s' := AddTask(s, draft, first, id1, parseIso).value;
    var n := |s.tasks|;
    var ty := Text.Strip(ValueOr(draft.taskType));
    var desc := Text.Strip(ValueOr(draft.description));
    assert Present(draft.taskType) && Present(draft.description);
    assert !DuplicateOf(s.tasks, draft, first.seconds, parseIso);
    if ty != [] && desc != [] {
      assert forall i | 0 <= i < n :: !RecentMatch(s.tasks[i], ty, desc, first.seconds, parseIso);
      forall i | 0 <= i < |s'.tasks|
        ensures !RecentMatch(s'.tasks[i], ty, desc, second.seconds, parseIso)
      {
        if i < n {
          assert s'.tasks[i] == s'.tasks[..n][i];
        } else {
          assert s'.tasks[i].createdAt == Some(first.iso);
        }
      }
    }
    assert !DuplicateOf(s'.tasks, draft, second.seconds, parseIso);
  }

  /**
   After a successful add, the pending list is the old one with the new task at its end, and the
   pending count has grown by one while the completed count is unchanged.
   */
  lemma AddAppendsPending(s: Store, draft: Draft, now: Instant, newId: string, parseIso: string -> Option<int>)
    requires AddTask(s, draft, now, newId, parseIso).Success?
    ensures var s' := AddTask(s, draft, now, newId, parseIso).value;
      && PendingTasks(s'.tasks) == PendingTasks(s.tasks) + [s'.tasks[|s.tasks|]]
      && TaskCounts(s'.tasks) == Counts(TaskCounts(s.tasks).pending + 1, TaskCounts(s.tasks).completed)
  {
    var s' := AddTask(s, draft, now, newId, parseIso).value;
    assert s'.tasks[..|s.tasks|] == s.tasks;
    assert WithStatus(s'.tasks, COMPLETED) == WithStatus(s.tasks, COMPLETED) + [];
  }

  /** Every task has a completion time exactly when it is completed. */
  predicate CompletionStamped(tasks: seq<Task>) {
    forall i | 0 <= i < |tasks| :: tasks[i].completedAt.Some? <==> tasks[i].status == COMPLETED
  }

  /** Adding and completing tasks keep completion times in step with statuses. */
  lemma OperationsKeepCompletionStamps(s: Store, draft: Draft, id: string, now: Instant, newId: string, parseIso: string -> Option<int>)
    requires CompletionStamped(s.tasks)
    ensures AddTask(s, draft, now, newId, parseIso).Success? ==>
      CompletionStamped(AddTask(s, draft, now, newId, parseIso).value.tasks)
    ensures CompletionStamped(CompleteTask(s, id, now).0.tasks)
  {
    var r := AddTask(s, draft, now, newId, parseIso);
    if r.Success? {
      forall i | 0 <= i < |r.value.tasks|
        ensures r.value.tasks[i].completedAt.Some? <==> r.value.tasks[i].status == COMPLETED
      {
        if i < |s.tasks| {
          assert r.value.tasks[i] == r.value.tasks[..|s.tasks|][i];
        }
      }
    }
  }

  /**
   A successful completion moves one task from the pending count to the completed count and keeps
   the number of tasks.
   */
  lemma CompletionMovesOneCount(s: Store, id: string, now: Instant)
    requires CompleteTask(s, id, now).1
    ensures var s' := CompleteTask(s, id, now).0;
      && |s'.tasks| == |s.tasks|
      && TaskCounts(s'.tasks).pending == TaskCounts(s.tasks).pending - 1
      && TaskCounts(s'.tasks).completed == TaskCounts(s.tasks).completed + 1
  {
    var s' := CompleteTask(s, id, now).0;
    var i :| FirstCompletable(s.tasks, id, i)
      && s'.tasks[i] == s.tasks[i].(status := COMPLETED, completedAt := Some(now.iso))
      && forall j | 0 <= j < |s.tasks| && j != i :: s'.tasks[j] == s.tasks[j];
    StatusChangeMovesPosition(s.tasks, s'.tasks, i, PENDING, COMPLETED);
  }

  /**
   When exactly one position changes its status from `from` to `to`, that position leaves the
   positions holding `from` and joins those holding `to`.
   */
  lemma StatusChangeMovesPosition(tasks: seq<Task>, tasks': seq<Task>, i: int, from: string, to: string)
    requires |tasks'| == |tasks| && 0 <= i < |tasks| && from != to
    requires tasks[i].status == from && tasks'[i].status == to
    requires forall j | 0 <= j < |tasks| && j != i :: tasks'[j].status == tasks[j].status
    ensures |PositionsWith(tasks', from)| == |PositionsWith(tasks, from)| - 1
    ensures |PositionsWith(tasks', to)| == |PositionsWith(tasks, to)| + 1
  {
    assert PositionsWith(tasks', from) == PositionsWith(tasks, from) - {i};
    assert PositionsWith(tasks', to) == PositionsWith(tasks, to) + {i};
  }

  /** No two tasks carry this id. */
  predicate IdAtMostOnce(tasks: seq<Task>, id: string) {
    forall i, j | 0 <= i < |tasks| && 0 <= j < |tasks| && tasks[i].id == id && tasks[j].id == id :: i == j
  }

  /**
   Completing the same id twice: when the id names at most one task, the second call finds nothing
   pending, returns false and changes nothing.
   */
  lemma SecondCompletionFails(s: Store, id: string, first: Instant, second: Instant)
    requires IdAtMostOnce(s.tasks, id)
    ensures var s1 := CompleteTask(s, id, first).0;
      !CompleteTask(s1, id, second).1 && CompleteTask(s1, id, second).0 == s1
  {
    var (s1, done) := CompleteTask(s, id, first);
    if done {
      var i :| FirstCompletable(s.tasks, id, i)
        && s1.tasks[i] == s.tasks[i].(status := COMPLETED, completedAt := Some(first.iso))
        && forall j | 0 <= j < |s.tasks| && j != i :: s1.tasks[j] == s.tasks[j];
      forall j | 0 <= j < |s1.tasks|
        ensures !Completable(s1.tasks[j], id)
      {
        if j != i {
          assert s1.tasks[j] == s.tasks[j];
        }
      }
    }
  }
}
