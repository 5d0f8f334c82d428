/**
 The task store: an ordered list of task records kept in memory and mirrored to a JSON file
 after every change. Tasks are validated and checked for recent duplicates when added, and move
 once from "pending" to "completed".

 The clock is an `Instant` passed in by the caller, the new task's id is passed in (it is an MD5
 fingerprint in the program), and parsing an ISO timestamp is the caller-supplied `parseIso`.
 */
module TaskManager {
  import opened Wrappers
  import Text

  const PENDING: string := "pending"
  const COMPLETED: string := "completed"

  /** A task created less than this many seconds ago blocks an identical one. */
  const DUPLICATE_WINDOW: int := 60

  /**
   One stored task. `status` is kept as the raw text found in the file; only "pending" and
   "completed" are ever written. `createdAt` is absent only in a hand-edited file.
   */
  datatype Task = Task(
    id: string,
    taskType: string,
    priority: string,
    dueDate: string,
    description: string,
    status: string,
    createdAt: Option<string>,
    completedAt: Option<string>)

  /** The form's submission: a `None` field is a key missing from the dictionary. */
  datatype Draft = Draft(taskType: Option<string>, priority: string, dueDate: string, description: Option<string>)

  /** One reading of the clock: whole seconds, and the same instant as ISO text. */
  datatype Instant = Instant(seconds: int, iso: string)

  /** The in-memory list and the contents of the task file (`None` while no file exists). */
  datatype Store = Store(tasks: seq<Task>, saved: Option<seq<Task>>)

  datatype AddError = MissingField | RecentDuplicate {
    function Message(): string {
      match this
      case MissingField => "Task type and description are required"
      case RecentDuplicate => "Similar task was recently created. Please wait before creating again."
    }
  }

  datatype Counts = Counts(pending: nat, completed: nat)

  /** The in-memory list agrees with what the file holds. */
  predicate Persisted(s: Store) {
    s.saved == Some(s.tasks) || (s.saved.None? && s.tasks == [])
  }

  /** Loading the task file: no file means an empty list. */
  function Load(file: Option<seq<Task>>): (s: Store)
    ensures Persisted(s)
    ensures s.saved == file
  {
    match file
    case None => Store([], None)
    case Some(ts) => Store(ts, file)
  }

  /** Python truthiness of a dictionary lookup: present and non-empty. */
  predicate Present(field: Option<string>) {
    field.Some? && field.value != []
  }

  /** `dict.get(key, '')`. */
  function ValueOr(field: Option<string>): string {
    match field
    case None => []
    case Some(v) => v
  }

  /**
   A stored task counts against a draft with stripped type `ty` and stripped description `desc`:
   same stripped text, a creation time that parses, and fewer than 60 seconds between it and `now`.
   */
  predicate RecentMatch(t: Task, ty: string, desc: string, now: int, parseIso: string -> Option<int>) {
    && Text.Strip(t.taskType) == ty
    && Text.Strip(t.description) == desc
    && t.createdAt.Some?
    && parseIso(t.createdAt.value).Some?
    && now - parseIso(t.createdAt.value).value < DUPLICATE_WINDOW
  }

  /** The loop over the stored tasks, from index `k` on, returning at the first recent match. */
  function ScanRecent(tasks: seq<Task>, k: nat, ty: string, desc: string, now: int, parseIso: string -> Option<int>): (r: bool)
    ensures r <==> exists i :: k <= i < |tasks| && RecentMatch(tasks[i], ty, desc, now, parseIso)
    decreases |tasks| - k
  {
    if k >= |tasks| then false
    else if RecentMatch(tasks[k], ty, desc, now, parseIso) then true
    else ScanRecent(tasks, k + 1, ty, desc, now, parseIso)
  }

  /**
   The duplicate rule: the stripped type and stripped description are both non-empty, and some
   stored task matches both with a parseable creation time less than 60 seconds before `now`.
   */
  ghost predicate DuplicateOf(tasks: seq<Task>, draft: Draft, now: int, parseIso: string -> Option<int>) {
    && !Text.AllSpace(ValueOr(draft.taskType))
    && !Text.AllSpace(ValueOr(draft.description))
    && exists i :: 0 <= i < |tasks| &&
         RecentMatch(tasks[i], Text.Strip(ValueOr(draft.taskType)), Text.Strip(ValueOr(draft.description)), now, parseIso)
  }

  /**
   `is_duplicate`: whether a task with the same stripped type and description was created less
   than 60 seconds before `now`. A draft whose stripped type or description is empty is never a
   duplicate.
   */
  function IsDuplicate(tasks: seq<Task>, draft: Draft, now: int, parseIso: string -> Option<int>): (r: bool)
    ensures r <==> DuplicateOf(tasks, draft, now, parseIso)
  {
    var ty := Text.Strip(ValueOr(draft.taskType));
    var desc := Text.Strip(ValueOr(draft.description));
    if ty == [] || desc == [] then false
    else ScanRecent(tasks, 0, ty, desc, now, parseIso)
  }

  /**
   Adds a draft as a new pending task at the end of the list and writes the file. Fails, changing
   nothing, when the type or description is missing or empty (unstripped), or when the draft is a
   recent duplicate.
   */
  function AddTask(s: Store, draft: Draft, now: Instant, newId: string, parseIso: string -> Option<int>): (r: Result<Store, AddError>)
    ensures r == Failure(RecentDuplicate) <==>
      Present(draft.taskType) && Present(draft.description) && DuplicateOf(s.tasks, draft, now.seconds, parseIso)
    ensures r == Failure(MissingField) <==> !Present(draft.taskType) || !Present(draft.description)
    ensures r.Success? ==>
      && |r.value.tasks| == |s.tasks| + 1
      && r.value.tasks[..|s.tasks|] == s.tasks
      && r.value.saved == Some(r.value.tasks)
    ensures r.Success? ==>
      var t := r.value.tasks[|s.tasks|];
      && t.id == newId
      && Some(t.taskType) == draft.taskType
      && Some(t.description) == draft.description
      && t.priority == draft.priority
      && t.dueDate == draft.dueDate
      && t.status == PENDING
      && t.createdAt == Some(now.iso)
      && t.completedAt == None
  {
    if !Present(draft.taskType) || !Present(draft.description) then
      Failure(MissingField)
    else if IsDuplicate(s.tasks, draft, now.seconds, parseIso) then
      Failure(RecentDuplicate)
    else
      var t := Task(newId, draft.taskType.value, draft.priority, draft.dueDate, draft.description.value,
                    PENDING, Some(now.iso), None);
      var tasks := s.tasks + [t];
      Success(Store(tasks, Some(tasks)))
  }

  /** `a` is `b` with some elements left out, the rest in their original order. */
  predicate IsSubsequence<T(==)>(a: seq<T>, b: seq<T>)
    decreases |b|
  {
    if |a| == 0 then true
    else if |b| == 0 then false
    else
      || (a[|a| - 1] == b[|b| - 1] && IsSubsequence(a[..|a| - 1], b[..|b| - 1]))
      || IsSubsequence(a, b[..|b| - 1])
  }

  /** The positions of the tasks whose status is `st`. */
  ghost function PositionsWith(tasks: seq<Task>, st: string): set<int> {
    set i | 0 <= i < |tasks| && tasks[i].status == st
  }

  lemma PositionsOfPrefix(tasks: seq<Task>, st: string)
    requires |tasks| > 0
    ensures var n := |tasks| - 1;
      PositionsWith(tasks, st) ==
        PositionsWith(tasks[..n], st) + (if tasks[n].status == st then {n} else {})
  {
    var n := |tasks| - 1;
    var extra: set<int> := if tasks[n].status == st then {n} else {};
    forall i
      ensures i in PositionsWith(tasks, st) <==> i in PositionsWith(tasks[..n], st) + extra
    {
      if 0 <= i < n {
        assert tasks[..n][i] == tasks[i];
      }
    }
  }

  /** The tasks whose status is `st`, in list order. */
  function WithStatus(tasks: seq<Task>, st: string): (r: seq<Task>)
    ensures forall k | 0 <= k < |r| :: r[k].status == st
    decreases |tasks|
  {
    if |tasks| == 0 then []
    else
      var n := |tasks| - 1;
      WithStatus(tasks[..n], st) + (if tasks[n].status == st then [tasks[n]] else [])
  }

  /** The filtered list keeps its elements in store order. */
  lemma {:induction false} WithStatusSubsequence(tasks: seq<Task>, st: string)
    ensures IsSubsequence(WithStatus(tasks, st), tasks)
    decreases |tasks|
  {
    if |tasks| > 0 {
      var n := |tasks| - 1;
      var rest := WithStatus(tasks[..n], st);
      WithStatusSubsequence(tasks[..n], st);
      if tasks[n].status == st {
        var r := rest + [tasks[n]];
        assert r[..|r| - 1] == rest;
      } else {
        assert WithStatus(tasks, st) == rest;
        assert |rest| > 0 ==> rest[|rest| - 1].status == st;
      }
    }
  }

  /** The filtered list holds exactly the tasks with that status. */
  lemma {:induction false} WithStatusMembers(tasks: seq<Task>, st: string)
    ensures forall t :: t in WithStatus(tasks, st) <==> t in tasks && t.status == st
    decreases |tasks|
  {
    if |tasks| > 0 {
      var n := |tasks| - 1;
      WithStatusMembers(tasks[..n], st);
      assert tasks == tasks[..n] + [tasks[n]];
    }
  }

  /** The filtered list is as long as the number of positions with that status. */
  lemma {:induction false} WithStatusCount(tasks: seq<Task>, st: string)
    ensures |WithStatus(tasks, st)| == |PositionsWith(tasks, st)|
    decreases |tasks|
  {
    if |tasks| > 0 {
      var n := |tasks| - 1;
      WithStatusCount(tasks[..n], st);
      PositionsOfPrefix(tasks, st);
      assert n !in PositionsWith(tasks[..n], st);
    }
  }

  /** The pending tasks, in store order: every pending task and nothing else. */
  function PendingTasks(tasks: seq<Task>): (r: seq<Task>)
    ensures IsSubsequence(r, tasks)
    ensures forall k | 0 <= k < |r| :: r[k].status == PENDING
    ensures forall t :: t in r <==> t in tasks && t.status == PENDING
    ensures |r| == |PositionsWith(tasks, PENDING)|
  {
    WithStatusSubsequence(tasks, PENDING);
    WithStatusMembers(tasks, PENDING);
    WithStatusCount(tasks, PENDING);
    WithStatus(tasks, PENDING)
  }

  /** Every status is one of the two the program writes. */
  predicate KnownStatuses(tasks: seq<Task>) {
    forall i | 0 <= i < |tasks| :: tasks[i].status == PENDING || tasks[i].status == COMPLETED
  }

  lemma {:induction false} CountsBound(tasks: seq<Task>)
    ensures |WithStatus(tasks, PENDING)| + |WithStatus(tasks, COMPLETED)| <= |tasks|
    ensures KnownStatuses(tasks) ==> |WithStatus(tasks, PENDING)| + |WithStatus(tasks, COMPLETED)| == |tasks|
    decreases |tasks|
  {
    if |tasks| > 0 {
      var n := |tasks| - 1;
      CountsBound(tasks[..n]);
      assert KnownStatuses(tasks) ==> KnownStatuses(tasks[..n]) by {
        if KnownStatuses(tasks) {
          forall i | 0 <= i < n
            ensures tasks[..n][i].status == PENDING || tasks[..n][i].status == COMPLETED
          {
            assert tasks[..n][i] == tasks[i];
          }
        }
      }
    }
  }

  /**
   The number of pending and of completed tasks. Their sum never exceeds the number of tasks,
   and equals it when every status is one of the two.
   */
  function TaskCounts(tasks: seq<Task>): (c: Counts)
    ensures c.pending == |PositionsWith(tasks, PENDING)|
    ensures c.completed == |PositionsWith(tasks, COMPLETED)|
    ensures c.pending + c.completed <= |tasks|
    ensures KnownStatuses(tasks) ==> c.pending + c.completed == |tasks|
  {
    CountsBound(tasks);
    WithStatusCount(tasks, PENDING);
    WithStatusCount(tasks, COMPLETED);
    Counts(|WithStatus(tasks, PENDING)|, |WithStatus(tasks, COMPLETED)|)
  }

  /** The task `complete_task` is looking for. */
  predicate Completable(t: Task, id: string) {
    t.id == id && t.status == PENDING
  }

  /** `i` is the first position holding a pending task with this id. */
  predicate FirstCompletable(tasks: seq<Task>, id: string, i: int) {
    0 <= i < |tasks| && Completable(tasks[i], id) && forall j | 0 <= j < i :: !Completable(tasks[j], id)
  }

  /** The loop of `complete_task`, from index `k` on. */
  function FindCompletable(tasks: seq<Task>, id: string, k: nat): (r: Option<nat>)
    ensures r.Some? ==> k <= r.value < |tasks| && Completable(tasks[r.value], id)
    ensures r.Some? ==> forall j | k <= j < r.value :: !Completable(tasks[j], id)
    ensures r.None? ==> forall j | k <= j < |tasks| :: !Completable(tasks[j], id)
    decreases |tasks| - k
  {
    if k >= |tasks| then None
    else if Completable(tasks[k], id) then Some(k)
    else FindCompletable(tasks, id, k + 1)
  }

  /**
   Marks the first pending task with this id as completed at `now` and writes the file, returning
   true; every other task is unchanged. With no such task it returns false and changes nothing.
   */
  function CompleteTask(s: Store, id: string, now: Instant): (r: (Store, bool))
    ensures r.1 <==> exists i :: 0 <= i < |s.tasks| && Completable(s.tasks[i], id)
    ensures !r.1 ==> r.0 == s
    ensures |r.0.tasks| == |s.tasks|
    ensures forall j | 0 <= j < |s.tasks| && s.tasks[j].status != PENDING :: r.0.tasks[j] == s.tasks[j]
    ensures r.1 ==> r.0.saved == Some(r.0.tasks)
    ensures r.1 ==> exists i :: (
      && FirstCompletable(s.tasks, id, i)
      && r.0.tasks[i] == s.tasks[i].(status := COMPLETED, completedAt := Some(now.iso))
      && forall j | 0 <= j < |s.tasks| && j != i :: r.0.tasks[j] == s.tasks[j])
  {
    match FindCompletable(s.tasks, id, 0)
    case None => (s, false)
    case Some(i) =>
      assert FirstCompletable(s.tasks, id, i);
      var tasks := s.tasks[i := s.tasks[i].(status := COMPLETED, completedAt := Some(now.iso))];
      (Store(tasks, Some(tasks)), true)
  }
}
