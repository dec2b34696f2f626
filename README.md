# OmniFocus available-task search, modelled in Dafny

This project models two parts of an OmniFocus automation toolkit written in
JavaScript for Automation (JXA):

* `run` in `applescript/search_available_tasks.js`: the search for tasks that
  can be worked on now. It makes one pass over every task of the default
  document. It applies its rules in a fixed order, and the first rule that
  fits sorts the task into one of four groups:
  1. the task is completed or dropped: **left out**;
  2. a query is given and neither the task's name nor its note contains it:
     **filtered**;
  3. the task itself is deferred past today's midnight: **blocked** (task
     deferred);
  4. the task has no project: **available**;
  5. its project is on hold: **blocked** (project on hold);
  6. its project's status is the literal "dropped", or the project is
     completed: **left out**;
  7. its project is deferred past midnight: **blocked** (project deferred);
  8. its project is sequential and its first task that is neither completed
     nor dropped is another task: **blocked** (sequential);
  9. otherwise: **available**, and the task goes into the result.

  So a deferred task of a project with status "dropped" counts as task-deferred, and a task
  of a project that is both on hold and completed counts as on hold. Each of
  the four blocking reasons has its own counter.

  For a sequential project, the first task that is neither completed nor
  dropped (its "gate") is looked up at most once per project, through a
  cache. The pass returns the available tasks in document order, the four
  counters, and the two totals.
* The `OFUtils` helpers in `lib/omnifocus_jxa_common.js`:
  * the two delimiters;
  * `joinList`, `safeGet`, `getTaskStatus`, `getProjectStatus`,
    `cleanString` and `replaceString`;
  * `taskToString` and `projectToString`, which build the `|`-separated
    output records.

Modules:

* `Wrappers` (`wrappers.dfy`) holds `Option`.
* `OmniFocus` (`omnifocus.dfy`) is the data model.
  * The search pass reads plain `Task` and `Project` values. A task names its
    project by id, and `projects` maps each id to its project.
  * The helpers read `TaskRecord` and `ProjectRecord` values. Any property
    the helpers guard with `try`/`catch` is a `Read` (`Got(v)` or `Threw`),
    so each fallback path is its own case.
* `OFUtils` (`of_utils.dfy`) models the helpers. It also defines the JS
  string operations they use: `split`, `join`, and `replace` with a global
  literal pattern. It also hosts `Includes`, the model of `includes`, which
  the search uses at applescript/search_available_tasks.js:32.
* `AvailableTasks` (`available_tasks.dfy`) models the search.
  * The specification functions say what the script computes: `Classify`
    for one task, `Resolve` for the whole report.
  * The lemmas state the rules and their order.
  * `SearchAvailableTasks` is the imperative pass with its loop and its
    gate cache, proved equal to `Resolve`.
* `Scenarios` (`scenarios.dfy`) works through concrete snapshots.

Points of behaviour the model makes explicit:

* **A task's own defer date is compared with midnight, not with the current
  time.** A task deferred to 08:00 today is `> now` all day, so it counts as
  deferred until the next midnight, because `now` is set to midnight at
  applescript/search_available_tasks.js:8
  (`Scenarios.DeferredEarlierTodayStillBlocks`). The same comparison applies
  to project defer dates.
* **The gate of a sequential project is the first task that is not completed
  and not dropped.** A task is still the gate when it is deferred, or when the
  query filters it out. Later tasks of the project then count as blocked by
  sequence even though the gate is not available
  (`Scenarios.GateIgnoresDeferredGate`).
* **`replaceString` does not always remove the pattern.** A replacement that
  does not contain the pattern can still recreate it at the seam: replacing
  `ab` by `b` in `aab` gives `ab` (`OFUtils.ReplaceStringCanLeaveOccurrence`).
  The model proves a narrower guarantee: no occurrence is left when the
  replacement shares no character with the pattern
  (`OFUtils.ReplaceStringRemovesAll`).
* **A task whose project id is not in `projects` is handled as an inbox
  task.** This is how the script treats a `containingProject()` that returns
  nothing.

## Model

| member | source | states |
|---|---|---|
| `AvailableTasks.SearchAvailableTasks` | applescript/search_available_tasks.js:1-109 | The report equals `Resolve` over the tasks, with the query lowered and `now` at the start of the day. `totalAvailable` is the number of result ids, and `totalBlocked` is the sum of the four counters. The cache ends up holding exactly the projects whose gate some task needs, each with its true gate. Each such project is scanned once: the scan log has no repeats and is as long as that set. With an empty argument nothing is filtered: every task is available, blocked or left out. |
| `AvailableTasks.VisitTask` | applescript/search_available_tasks.js:22-99 | One loop iteration. The task's id is appended exactly when `Classify` says available. The counters advance by the task's outcome. The cache gains exactly the project the task's gate check needs, if any, and the cache stays coherent. |
| `AvailableTasks.VisitProjectTask` | applescript/search_available_tasks.js:52-98 | The project half of an iteration: on hold, dropped or completed, deferred, sequential, in that order. The results and counters follow `ProjectOutcome`. The cache gains the project exactly when the gate check is reached. |
| `AvailableTasks.LookUpGate` | applescript/search_available_tasks.js:73-89 | Returns the project's gate. On a hit it reads the cache; on a miss it scans and records the entry, null included. A project is scanned only when it is not yet cached, and the cache stays coherent. |
| `AvailableTasks.FindFirstIncomplete` | applescript/search_available_tasks.js:78-86 | The scan of the project's tasks returns the id of the first task that is neither completed nor dropped, or none (`Gate`). |
| `AvailableTasks.FirstEligibleIndex` | applescript/search_available_tasks.js:81-86 | The index where the scan stops. Every earlier task is completed or dropped, and the task at that index, if there is one, is neither. |
| `AvailableTasks.GateSpec` | applescript/search_available_tasks.js:78-86 | The gate is none exactly when every task is completed or dropped. Otherwise it is the id of a task that is neither, and every task before that one is completed or dropped. |
| `AvailableTasks.GateIgnoresOwnState` | applescript/search_available_tasks.js:81-86 | The gate depends only on the tasks' ids and their completed and dropped flags. Defer dates, names and notes do not affect it. |
| `AvailableTasks.DayStart` | applescript/search_available_tasks.js:7-8 | `now` is the midnight that starts the clock's day: a multiple of a day, at most the clock, and less than a day before it. |
| `AvailableTasks.GateLookup` | applescript/search_available_tasks.js:70-89 | A task whose checks reach the sequential gate looks up a project that exists in the snapshot. |
| `AvailableTasks.GoneTaskIsExcluded` | applescript/search_available_tasks.js:23-26 | A completed or dropped task is left out before any other check. |
| `AvailableTasks.UnmatchedTaskIsFiltered` | applescript/search_available_tasks.js:28-34 | With a non-empty query, a live task whose lowered name and lowered note both lack the query is filtered out. It is not counted as blocked. |
| `AvailableTasks.OwnDeferDateComesFirst` | applescript/search_available_tasks.js:36-41 | A live, matching task deferred past midnight counts as task-deferred, whatever its project's state. |
| `AvailableTasks.InboxTaskIsAvailable` | applescript/search_available_tasks.js:43-50 | A task with no project can only be left out, filtered, task-deferred or available. It is available whenever it passes its own three checks. |
| `AvailableTasks.ProjectRulePrecedence` | applescript/search_available_tasks.js:52-68 | Once a task passes its own checks, the project rules apply in this order: on hold (counted), then dropped or completed (left out, not counted), then deferred (counted). |
| `AvailableTasks.SequentialRule` | applescript/search_available_tasks.js:70-95 | A task is blocked by sequence exactly when it reaches the gate check and its project has a gate that is a different task. A project with no gate blocks nothing. |
| `AvailableTasks.CountersCountReasons` | applescript/search_available_tasks.js:12-17 | Each of the four counters equals the number of tasks blocked for that reason. |
| `AvailableTasks.ResolveAppend` | applescript/search_available_tasks.js:22-99 | The pass is compositional. The ids for `a + b` are the ids for `a` followed by the ids for `b`, and every outcome count adds up. |
| `AvailableTasks.SilentTaskLeavesNoTrace` | applescript/search_available_tasks.js:23-61 | Adding a task that is left out or filtered, anywhere in the input, leaves the whole report unchanged. |
| `AvailableTasks.SilentTaskAddsNoId` | applescript/search_available_tasks.js:22-99 | Adding a task that is not available leaves the result ids unchanged. |
| `AvailableTasks.SilentTaskAddsNoCount` | applescript/search_available_tasks.js:22-99 | Adding a task that is not blocked leaves every counter unchanged. |
| `AvailableTasks.EveryTaskCountedOnce` | applescript/search_available_tasks.js:101-108 | `totalAvailable` + `totalBlocked` + left-out tasks + filtered tasks equals the number of tasks: each task falls in exactly one group. |
| `AvailableTasks.EmptyQueryFiltersNothing` | applescript/search_available_tasks.js:32 | With an empty query no task is filtered out. |
| `AvailableTasks.BucketsCoverTasks` | applescript/search_available_tasks.js:22-99 | By induction on the input: the four group sizes sum to the number of tasks. |
| `AvailableTasks.ResultsInInputOrder` | applescript/search_available_tasks.js:97-98 | The result ids are the ids of the available tasks at strictly increasing input positions. A position is among them exactly when its task is available. |
| `AvailableTasks.GatesNeededExactly` | applescript/search_available_tasks.js:70-89 | A project is in the set of needed gates exactly when some task of the input reaches that project's gate check. |
| `Scenarios.GateIgnoresDeferredGate` | applescript/search_available_tasks.js:78-95 | In the snapshot [completed, dropped, deferred, plain] of one sequential project, the deferred task is the gate and counts as task-deferred, and the plain task counts as sequence-blocked. |
| `Scenarios.FirstEligibleTaskPasses` | applescript/search_available_tasks.js:70-98 | In the snapshot [completed, B, C], B is the gate and is available and C is sequence-blocked. Both look up the one project, which is the only gate needed. |
| `Scenarios.DeferredEarlierTodayStillBlocks` | applescript/search_available_tasks.js:36-41 | A task deferred to 08:00 counts as task-deferred at noon of the same day. |
| `OFUtils.JoinList` | lib/omnifocus_jxa_common.js:151-153 | Joining n ≥ 1 items with a one-character delimiter that no item holds, then splitting the result on that delimiter, returns the items. For any delimiter the result is at least (n − 1) delimiter lengths long. |
| `OFUtils.Split` | lib/omnifocus_jxa_common.js:274 | `split` on a non-empty separator always yields at least one piece. |
| `OFUtils.SplitAbsent` | lib/omnifocus_jxa_common.js:274 | Splitting on a one-character separator that the text does not contain yields the text alone. |
| `OFUtils.SplitAtSeparator` | lib/omnifocus_jxa_common.js:274 | Splitting `a + d + b` on a one-character separator `d` that `a` does not contain yields `a` followed by the pieces of `b`. |
| `OFUtils.SplitJoinIsReplaceAll` | lib/omnifocus_jxa_common.js:274 | For a non-empty pattern, split-then-join equals the left-to-right global replacement. |
| `OFUtils.ReplaceAllAtFirst` | lib/omnifocus_jxa_common.js:258-260 | The global replacement keeps the text before the leftmost occurrence, replaces that occurrence, and continues after it. |
| `OFUtils.ReplaceAbsent` | lib/omnifocus_jxa_common.js:258-260 | A global replacement of a pattern that does not occur leaves the text unchanged. |
| `OFUtils.ReplaceRemovesAll` | lib/omnifocus_jxa_common.js:258-260 | No occurrence is left when the replacement is non-empty and shares no character with the pattern. |
| `OFUtils.ReplaceKeepsAbsentChar` | lib/omnifocus_jxa_common.js:258-260 | A character found in neither the text nor the replacement is not in the result. |
| `OFUtils.FirstOccurrence` | lib/omnifocus_jxa_common.js:258-260 | The leftmost match position that the replacement scan finds: −1 exactly when the pattern does not occur; otherwise an occurrence with none before it. |
| `OFUtils.ReplaceString` | lib/omnifocus_jxa_common.js:272-275 | Empty text gives the empty string. For a non-empty pattern, the result is the global left-to-right replacement. |
| `OFUtils.ReplaceStringUnchanged` | lib/omnifocus_jxa_common.js:272-275 | Text without the pattern comes back unchanged. |
| `OFUtils.ReplaceStringRemovesAll` | lib/omnifocus_jxa_common.js:272-275 | No occurrence remains when the replacement is non-empty and shares no character with the pattern. |
| `OFUtils.ReplaceStringCanLeaveOccurrence` | lib/omnifocus_jxa_common.js:272-275 | Replacing `ab` by `b` in `aab` gives `ab`, so a replacement free of the pattern can still leave an occurrence. |
| `OFUtils.ReplaceStringEmptyPattern` | lib/omnifocus_jxa_common.js:272-275 | With an empty pattern, the replacement goes between every two characters: `abc` becomes `a-b-c`. |
| `OFUtils.CleanString` | lib/omnifocus_jxa_common.js:251-263 | Empty input gives the empty string. The result holds no item delimiter and no record delimiter. Text that holds neither comes back unchanged. |
| `OFUtils.CleanStringIdempotent` | lib/omnifocus_jxa_common.js:251-263 | Cleaning twice gives the same string as cleaning once. |
| `OFUtils.SafeGet` | lib/omnifocus_jxa_common.js:162-169 | Returns the value read when it is neither null nor undefined. Returns the fallback when it is null or undefined, or when the read threw. |
| `OFUtils.StatusWord` | lib/omnifocus_jxa_common.js:205-244 | Every status word is non-empty and free of the item delimiter. |
| `OFUtils.StatusWordInjective` | lib/omnifocus_jxa_common.js:205-244 | The four status words are pairwise different. |
| `OFUtils.GetTaskStatus` | lib/omnifocus_jxa_common.js:205-225 | Each status is characterised both ways. Completed exactly when `completed()` is true. Flagged exactly when not completed and flagged. On hold exactly when neither and the containing project reads as on hold. A read of `completed()` or `flagged()` that throws gives active. |
| `OFUtils.GetProjectStatus` | lib/omnifocus_jxa_common.js:232-244 | Never flagged. Completed exactly when `completed()` is true. On hold exactly when not completed and the status is "on hold". A project whose status is "dropped" reads as active. |
| `OFUtils.TaskToString` | lib/omnifocus_jxa_common.js:314-327 | Empty exactly when the name or the id cannot be read. Otherwise, when the id holds no item delimiter, the record splits on it back into five fields: cleaned name, cleaned project name, cleaned note, id and status word. |
| `OFUtils.ProjectToString` | lib/omnifocus_jxa_common.js:334-346 | Empty exactly when the name or the id cannot be read. Otherwise, when the id holds no item delimiter, the record splits back into four fields: cleaned name, cleaned note, id and status word. |

## Left out

- The scripting bridge (`Application("OmniFocus")`, `flattenedTasks()`, `containingProject()`, `project.tasks()`, `project.id()`) is not modelled. Its answers are the inputs `tasks` and `projects`, read as one consistent snapshot; a document that changes while the script runs is not modelled.
- `createTaskResult` (applescript/search_available_tasks.js:111-129) and the final `JSON.stringify` are not modelled. A result entry is the task's id, and the report is a datatype. The project name that `createTaskResult` records is therefore not part of the snapshot.
- `toLowerCase` is the parameter `lower`, because Unicode case mapping is outside the model. Of its behaviour the model assumes only that it maps the empty string to itself (the precondition `lower("") == ""`). A missing `argv[0]` is the empty string argument.
- `setHours(0, 0, 0, 0)` is `DayStart`, which works on a local-time millisecond clock; time zones and daylight-saving transitions are left out. The clock is an input.
- A `containingProject()` that names a project missing from `projects` is treated as no project (inbox), since the snapshot has no other reading for it.
- `ErrorHandler`, `Performance`, `Logger`, `getProjectName`, `formatDate`, `getDefaultDocument` and `isRunning` in lib/omnifocus_jxa_common.js are not modelled: they are logging, timing or direct application calls. `taskToString` takes the project name that `getProjectName` would return as the field `projectName`.
- The other search scripts under applescript/ are not part of this model.
- OFUtils.SafeGet: `safeGet(task, 'note', '')` reads the `note` property without calling it. The model takes the value that read yields as the input, rather than modelling JXA property objects.
- OFUtils.CleanString: `String(str)` on a non-string and the falsy non-string inputs (`0`, `false`) are not modelled; the input is a string.
- OFUtils.ReplaceString: for an empty pattern the contract does not characterise the result in general; `OFUtils.ReplaceStringEmptyPattern` only shows one instance. The `String(text)` coercion of non-strings is not modelled.
- Strings are sequences of Unicode characters, not UTF-16 code units. This matters only for characters outside the Basic Multilingual Plane, which `split("")` would cut in half.
- `project.status()` is the datatype `ProjectStatus`. `OnHold` and `Dropped` stand for the two literals the scripts compare with, "on hold" (applescript/search_available_tasks.js:54, lib/omnifocus_jxa_common.js:214 and 236) and "dropped" (applescript/search_available_tasks.js:59). `Active` stands for every other string. Which strings the application actually returns is not modelled. If it never returns exactly "dropped", the test at line 59 never fires. A dropped project that is not completed then reads as `Active`, and its tasks go on to the defer and sequential checks.
- `run` guards no read with `try`/`catch`. A bridge read that throws, such as `task.name()` at applescript/search_available_tasks.js:29 or `project.status()` at line 53, ends the whole pass with no report. The model assumes every read of the search succeeds: `Task` and `Project` hold plain values. This differs from the helpers, whose guarded reads are `Read` values with a `Threw` case.
- The cache's distinction between `undefined` (not yet looked up) and `null` (no gate) is map membership versus `Option.None`.
