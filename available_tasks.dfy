/**
 * The available-task search of applescript/search_available_tasks.js: one
 * pass over the flattened task list that reports each task as available,
 * counts it under one blocking reason, or leaves it out, with a per-pass
 * cache of each sequential project's first incomplete task.
 *
 * `Classify` states the decision for one task, `Resolve` the report of a
 * whole pass; `SearchAvailableTasks` is the loop of the script, proved to
 * produce `Resolve`'s report.
 */
module AvailableTasks {
  import opened Wrappers
  import opened OmniFocus
  import OFUtils

  /** Milliseconds in a day. */
  const MsPerDay: int := 86_400_000

  /** `now.setHours(0, 0, 0, 0)`: the start of the day that holds `clock`. */
  function DayStart(clock: Instant): (now: Instant)
    ensures now <= clock < now + MsPerDay
    ensures now % MsPerDay == 0
  {
    clock - clock % MsPerDay
  }

  /** `date && date > now`: the optional date is set and strictly after `now`. */
  predicate After(date: Option<Instant>, now: Instant)
  {
    date.Some? && date.value > now
  }

  /** Completed or dropped. */
  predicate Gone(t: Task)
  {
    t.completed || t.dropped
  }

  /**
   * What one pass reads besides the task list: the project snapshots keyed by
   * project id, the query already lower-cased, the case mapping
   * (`toLowerCase`) applied to names and notes, and the start of today.
   */
  datatype Env = Env(
    projects: map<ProjectId, Project>,
    query: string,
    lower: string -> string,
    now: Instant)

  /** The note as the script reads it: `task.note() || ""`. */
  function NoteText(t: Task): string
  {
    if t.note.Some? then t.note.value else ""
  }

  /** The query is empty, or the lower-cased name or note includes it. */
  predicate MatchesQuery(t: Task, env: Env)
  {
    env.query == []
    || OFUtils.Includes(env.lower(t.name), env.query)
    || OFUtils.Includes(env.lower(NoteText(t)), env.query)
  }

  // ---------------------------------------------------------------------
  // The sequential gate

  /**
   * The position of the first task that is neither completed nor dropped,
   * or |tasks| when there is none.
   */
  function FirstEligibleIndex(tasks: seq<Task>): (k: nat)
    ensures k <= |tasks|
    ensures k < |tasks| ==> !Gone(tasks[k])
    ensures forall m | 0 <= m < k :: Gone(tasks[m])
  {
    if |tasks| == 0 then 0
    else if !Gone(tasks[0]) then 0
    else 1 + FirstEligibleIndex(tasks[1..])
  }

  /** The gate of a sequential project: the id of its first eligible task, if any. */
  function Gate(tasks: seq<Task>): Option<TaskId>
  {
    var k := FirstEligibleIndex(tasks);
    if k < |tasks| then Some(tasks[k].id) else None
  }

  /**
   * A project has no gate exactly when all its tasks are completed or
   * dropped; a gate is the id of a task that is neither, with only completed
   * or dropped tasks before it.
   */
  lemma GateSpec(tasks: seq<Task>)
    ensures Gate(tasks).None? <==> forall m | 0 <= m < |tasks| :: Gone(tasks[m])
    ensures Gate(tasks).Some? ==> exists k | 0 <= k < |tasks| ::
      tasks[k].id == Gate(tasks).value && !Gone(tasks[k]) && forall m | 0 <= m < k :: Gone(tasks[m])
  {
  }

  /**
   * The scan of `project.tasks()` for the first task neither completed nor
   * dropped, stopping at the first one found.
   */
  method FindFirstIncomplete(tasks: seq<Task>) returns (first: Option<TaskId>)
    ensures first == Gate(tasks)
  {
    first := None;
    var k := 0;
    while k < |tasks|
      invariant 0 <= k <= |tasks|
      invariant forall m | 0 <= m < k :: Gone(tasks[m])
      invariant first.None?
    {
      if !tasks[k].completed && !tasks[k].dropped {
        first := Some(tasks[k].id);
        break;
      }
      k := k + 1;
    }
  }

  /** Whether the gate is decided by the task's own defer date: it is not. */
  lemma {:induction false} GateIgnoresOwnState(tasks: seq<Task>, others: seq<Task>)
    requires |tasks| == |others|
    requires forall k | 0 <= k < |tasks| ::
      tasks[k].id == others[k].id && Gone(tasks[k]) == Gone(others[k])
    ensures Gate(tasks) == Gate(others)
    ensures FirstEligibleIndex(tasks) == FirstEligibleIndex(others)
    decreases |tasks|
  {
    if |tasks| > 0 && Gone(tasks[0]) {
      GateIgnoresOwnState(tasks[1..], others[1..]);
    }
  }

  // ---------------------------------------------------------------------
  // One task

  /** Why a task is not available. */
  datatype Reason = ProjectOnHold | ProjectDeferred | TaskDeferred | Sequential

  /**
   * The outcome for one task. `Excluded` (a completed or dropped task, or a
   * task of a dropped or completed project) and `Filtered` (the query does
   * not match) are left out of the report altogether.
   */
  datatype Outcome = Excluded | Filtered | Available | BlockedBy(reason: Reason)

  /**
   * The project a task's classification moves on to, with its id: None for
   * an inbox task and for a reference the snapshot does not hold.
   */
  function ContainingProject(t: Task, env: Env): Option<(ProjectId, Project)>
  {
    if t.project.Some? && t.project.value in env.projects
    then Some((t.project.value, env.projects[t.project.value]))
    else None
  }

  /** The project is neither on hold, dropped, completed nor deferred past `now`, and is sequential. */
  predicate ReachesGate(p: Project, now: Instant)
  {
    p.status != OnHold && p.status != Dropped && !p.completed && !After(p.deferDate, now)
    && p.sequential == Some(true)
  }

  /** The project rules, in order, for task `id` of project `p`. */
  function ProjectOutcome(id: TaskId, p: Project, now: Instant): Outcome
  {
    if p.status == OnHold then BlockedBy(ProjectOnHold)
    else if p.status == Dropped || p.completed then Excluded
    else if After(p.deferDate, now) then BlockedBy(ProjectDeferred)
    else if p.sequential == Some(true) && Gate(p.tasks).Some? && Gate(p.tasks).value != id
    then BlockedBy(Sequential)
    else Available
  }

  /** The task passes its own checks: not gone, matching the query, not deferred. */
  predicate PassesOwnChecks(t: Task, env: Env)
  {
    !Gone(t) && MatchesQuery(t, env) && !After(t.deferDate, env.now)
  }

  /** The sequential project a task reaches the gate check of, if it does. */
  function GateLookup(t: Task, env: Env): (pid: Option<ProjectId>)
    ensures pid.Some? ==> pid.value in env.projects
  {
    if !PassesOwnChecks(t, env) then None
    else match ContainingProject(t, env)
      case None => None
      case Some((pid, p)) => if ReachesGate(p, env.now) then Some(pid) else None
  }

  /** The decision for one task; the first rule that applies wins. */
  function Classify(t: Task, env: Env): Outcome
  {
    if Gone(t) then Excluded
    else if !MatchesQuery(t, env) then Filtered
    else if After(t.deferDate, env.now) then BlockedBy(TaskDeferred)
    else match ContainingProject(t, env)
      case None => Available
      case Some((_, p)) => ProjectOutcome(t.id, p, env.now)
  }

  /** A completed or dropped task is left out, whatever else holds. */
  lemma GoneTaskIsExcluded(t: Task, env: Env)
    requires t.completed || t.dropped
    ensures Classify(t, env) == Excluded
  {
  }

  /** With a non-empty query that neither name nor note includes, the task is left out. */
  lemma UnmatchedTaskIsFiltered(t: Task, env: Env)
    requires !Gone(t) && env.query != []
    requires !OFUtils.Includes(env.lower(t.name), env.query)
    requires !OFUtils.Includes(env.lower(NoteText(t)), env.query)
    ensures Classify(t, env) == Filtered
  {
  }

  /**
   * A task deferred past the start of today counts as TaskDeferred, whatever
   * its project: the own defer date comes before every project rule.
   */
  lemma OwnDeferDateComesFirst(t: Task, env: Env)
    requires !Gone(t) && MatchesQuery(t, env) && After(t.deferDate, env.now)
    ensures Classify(t, env) == BlockedBy(TaskDeferred)
  {
  }

  /**
   * An inbox task is never blocked by a project rule: past the defer check it
   * is available.
   */
  lemma InboxTaskIsAvailable(t: Task, env: Env)
    requires ContainingProject(t, env).None?
    ensures Classify(t, env) in {Excluded, Filtered, BlockedBy(TaskDeferred), Available}
    ensures !Gone(t) && MatchesQuery(t, env) && !After(t.deferDate, env.now) ==> Classify(t, env) == Available
  {
  }

  /**
   * The project rules, in order: on hold blocks; otherwise a dropped or
   * completed project leaves the task out (whatever its status); otherwise a
   * project deferred past today blocks.
   */
  lemma ProjectRulePrecedence(t: Task, env: Env, pid: ProjectId, p: Project)
    requires !Gone(t) && MatchesQuery(t, env) && !After(t.deferDate, env.now)
    requires ContainingProject(t, env) == Some((pid, p))
    ensures p.status == OnHold ==> Classify(t, env) == BlockedBy(ProjectOnHold)
    ensures p.status != OnHold && (p.status == Dropped || p.completed) ==> Classify(t, env) == Excluded
    ensures p.status != OnHold && p.status != Dropped && !p.completed && After(p.deferDate, env.now)
            ==> Classify(t, env) == BlockedBy(ProjectDeferred)
  {
  }

  /**
   * The sequential rule: a task is blocked as Sequential exactly when it
   * reaches the gate check and the project's first eligible task exists and
   * is another task; with no eligible task the rule blocks nothing.
   */
  lemma SequentialRule(t: Task, env: Env)
    ensures Classify(t, env) == BlockedBy(Sequential) <==>
      GateLookup(t, env).Some? &&
      var g := Gate(env.projects[GateLookup(t, env).value].tasks);
      g.Some? && g.value != t.id
    ensures GateLookup(t, env).Some? && Gate(env.projects[GateLookup(t, env).value].tasks).None?
            ==> Classify(t, env) == Available
  {
  }

  // ---------------------------------------------------------------------
  // The report of a pass

  /** The `blocked` object of the script. */
  datatype BlockedCounts = BlockedCounts(projectOnHold: nat, projectDeferred: nat, taskDeferred: nat, sequential: nat)

  /** What the script returns: the available task ids, the counters and the totals. */
  datatype Report = Report(tasks: seq<TaskId>, blocked: BlockedCounts, totalAvailable: nat, totalBlocked: nat)

  /** The ids of the available tasks, in input order. */
  function AvailableIds(ts: seq<Task>, env: Env): seq<TaskId>
  {
    if |ts| == 0 then []
    else AvailableIds(ts[..|ts| - 1], env)
         + (if Classify(ts[|ts| - 1], env) == Available then [ts[|ts| - 1].id] else [])
  }

  /** How many tasks have outcome `o`. */
  function CountOf(ts: seq<Task>, env: Env, o: Outcome): nat
  {
    if |ts| == 0 then 0
    else CountOf(ts[..|ts| - 1], env, o) + (if Classify(ts[|ts| - 1], env) == o then 1 else 0)
  }

  /** The counters after one more task with outcome `o`. */
  function Tally(b: BlockedCounts, o: Outcome): BlockedCounts
  {
    match o
    case BlockedBy(ProjectOnHold) => b.(projectOnHold := b.projectOnHold + 1)
    case BlockedBy(ProjectDeferred) => b.(projectDeferred := b.projectDeferred + 1)
    case BlockedBy(TaskDeferred) => b.(taskDeferred := b.taskDeferred + 1)
    case BlockedBy(Sequential) => b.(sequential := b.sequential + 1)
    case _ => b
  }

  /** The `blocked` object after a pass over `ts`. */
  function Counts(ts: seq<Task>, env: Env): BlockedCounts
  {
    if |ts| == 0 then BlockedCounts(0, 0, 0, 0)
    else Tally(Counts(ts[..|ts| - 1], env), Classify(ts[|ts| - 1], env))
  }

  /** `totalBlocked`: the sum of the four counters. */
  function TotalBlocked(b: BlockedCounts): nat
  {
    b.projectOnHold + b.projectDeferred + b.taskDeferred + b.sequential
  }

  /** The report of a pass over `ts`. */
  function Resolve(ts: seq<Task>, env: Env): Report
  {
    var blocked := Counts(ts, env);
    Report(AvailableIds(ts, env), blocked, |AvailableIds(ts, env)|, TotalBlocked(blocked))
  }

  /** Each counter counts exactly the tasks blocked for its reason. */
  lemma {:induction false} CountersCountReasons(ts: seq<Task>, env: Env)
    ensures Counts(ts, env).projectOnHold == CountOf(ts, env, BlockedBy(ProjectOnHold))
    ensures Counts(ts, env).projectDeferred == CountOf(ts, env, BlockedBy(ProjectDeferred))
    ensures Counts(ts, env).taskDeferred == CountOf(ts, env, BlockedBy(TaskDeferred))
    ensures Counts(ts, env).sequential == CountOf(ts, env, BlockedBy(Sequential))
  {
    if |ts| > 0 {
      CountersCountReasons(ts[..|ts| - 1], env);
    }
  }

  /** A pass over `a + b` reports what passes over `a` and over `b` report, end to end. */
  lemma {:induction false} ResolveAppend(a: seq<Task>, b: seq<Task>, env: Env)
    ensures AvailableIds(a + b, env) == AvailableIds(a, env) + AvailableIds(b, env)
    ensures forall o :: CountOf(a + b, env, o) == CountOf(a, env, o) + CountOf(b, env, o)
    decreases |b|
  {
    if |b| == 0 {
      assert a + b == a;
    } else {
      var b' := b[..|b| - 1];
      ResolveAppend(a, b', env);
      assert (a + b)[..|a + b| - 1] == a + b';
      assert (a + b)[|a + b| - 1] == b[|b| - 1];
    }
  }

  /**
   * A task that is left out (completed or dropped, in a dropped or completed
   * project, or not matching the query) changes nothing in the report: it is
   * in no list and no counter.
   */
  lemma SilentTaskLeavesNoTrace(a: seq<Task>, t: Task, b: seq<Task>, env: Env)
    requires Classify(t, env) == Excluded || Classify(t, env) == Filtered
    ensures Resolve(a + [t] + b, env) == Resolve(a + b, env)
  {
    SilentTaskAddsNoId(a, t, b, env);
    SilentTaskAddsNoCount(a, t, b, env);
  }

  /** A left-out task adds no id. */
  lemma SilentTaskAddsNoId(a: seq<Task>, t: Task, b: seq<Task>, env: Env)
    requires Classify(t, env) != Available
    ensures AvailableIds(a + [t] + b, env) == AvailableIds(a + b, env)
  {
    ResolveAppend(a, [t], env);
    ResolveAppend(a + [t], b, env);
    ResolveAppend(a, b, env);
    assert [t][..0] == [];
    assert AvailableIds([t], env) == [];
  }

  /** A task that does not block adds to no counter. */
  lemma SilentTaskAddsNoCount(a: seq<Task>, t: Task, b: seq<Task>, env: Env)
    requires !Classify(t, env).BlockedBy?
    ensures Counts(a + [t] + b, env) == Counts(a + b, env)
  {
    var x, y := a + [t] + b, a + b;
    ResolveAppend(a, [t], env);
    ResolveAppend(a + [t], b, env);
    ResolveAppend(a, b, env);
    assert [t][..0] == [];
    forall o: Outcome | o.BlockedBy?
      ensures CountOf(x, env, o) == CountOf(y, env, o)
    {
      assert CountOf([t], env, o) == 0;
    }
    CountersCountReasons(x, env);
    CountersCountReasons(y, env);
  }

  /**
   * Every task lands in exactly one bucket: available, one of the four
   * counters, or left out.
   */
  lemma EveryTaskCountedOnce(ts: seq<Task>, env: Env)
    ensures Resolve(ts, env).totalAvailable + Resolve(ts, env).totalBlocked
            + CountOf(ts, env, Excluded) + CountOf(ts, env, Filtered) == |ts|
  {
    BucketsCoverTasks(ts, env);
    assert Buckets(ts, env) == |ts|;
  }

  /** The bucket sizes of a pass over `ts` add up to |ts|. */
  lemma {:induction false} BucketsCoverTasks(ts: seq<Task>, env: Env)
    ensures Buckets(ts, env) == |ts|
  {
    if |ts| == 0 {
      assert ts == [];
      NoTasksNoIds(env);
      NoTasksNoCounts(env);
      NoTasksNoOutcome(env, Excluded);
      NoTasksNoOutcome(env, Filtered);
    } else {
      BucketsCoverTasks(ts[..|ts| - 1], env);
      BucketsStep(ts, env);
    }
  }

  /** A pass over no tasks yields no ids. */
  lemma NoTasksNoIds(env: Env)
    ensures AvailableIds([], env) == []
  {
  }

  /** A pass over no tasks leaves every counter at zero. */
  lemma NoTasksNoCounts(env: Env)
    ensures Counts([], env) == BlockedCounts(0, 0, 0, 0)
  {
  }

  /** A pass over no tasks has no task of any outcome. */
  lemma NoTasksNoOutcome(env: Env, o: Outcome)
    ensures CountOf([], env, o) == 0
  {
  }

  /** The number of tasks available, blocked or left out by a pass over `ts`. */
  function Buckets(ts: seq<Task>, env: Env): nat
  {
    |AvailableIds(ts, env)| + TotalBlocked(Counts(ts, env)) + CountOf(ts, env, Excluded) + CountOf(ts, env, Filtered)
  }

  /** One more task adds one to exactly one bucket. */
  lemma BucketsStep(ts: seq<Task>, env: Env)
    requires |ts| > 0
    ensures Buckets(ts, env) == Buckets(ts[..|ts| - 1], env) + 1
  {
    var n := |ts| - 1;
    var o := Classify(ts[n], env);
    TallyTotal(Counts(ts[..n], env), o);
    OneBucket(o);
  }

  /** An outcome falls in exactly one bucket. */
  lemma OneBucket(o: Outcome)
    ensures (if o == Available then 1 else 0) + (if o.BlockedBy? then 1 else 0)
          + (if o == Excluded then 1 else 0) + (if o == Filtered then 1 else 0) == 1
  {
  }

  /** One more outcome adds one to the total exactly when it blocks. */
  lemma TallyTotal(b: BlockedCounts, o: Outcome)
    ensures TotalBlocked(Tally(b, o)) == TotalBlocked(b) + (if o.BlockedBy? then 1 else 0)
  {
  }

  /** The positions of the available tasks of `ts`, in input order. */
  ghost function AvailablePositions(ts: seq<Task>, env: Env): seq<nat>
  {
    if |ts| == 0 then []
    else
      var n := |ts| - 1;
      AvailablePositions(ts[..n], env) + (if Classify(ts[n], env) == Available then [n] else [])
  }

  /** The k-th available id is the id of the task at the k-th position. */
  lemma {:induction false} PositionsHoldIds(ts: seq<Task>, env: Env)
    ensures |AvailablePositions(ts, env)| == |AvailableIds(ts, env)|
    ensures forall k | 0 <= k < |AvailablePositions(ts, env)| ::
      AvailablePositions(ts, env)[k] < |ts| && AvailableIds(ts, env)[k] == ts[AvailablePositions(ts, env)[k]].id
  {
    if |ts| > 0 {
      var n := |ts| - 1;
      PositionsHoldIds(ts[..n], env);
      assert forall i | 0 <= i < n :: ts[..n][i] == ts[i];
    }
  }

  /** The positions strictly increase. */
  lemma {:induction false} PositionsIncrease(ts: seq<Task>, env: Env)
    ensures forall k, l | 0 <= k < l < |AvailablePositions(ts, env)| ::
      AvailablePositions(ts, env)[k] < AvailablePositions(ts, env)[l]
  {
    if |ts| > 0 {
      var n := |ts| - 1;
      PositionsIncrease(ts[..n], env);
      PositionsHoldIds(ts[..n], env);
    }
  }

  /** A position is listed exactly when the task there is available. */
  lemma {:induction false} PositionsAreAvailable(ts: seq<Task>, env: Env)
    ensures forall i | 0 <= i < |ts| :: i in AvailablePositions(ts, env) <==> Classify(ts[i], env) == Available
  {
    if |ts| > 0 {
      var n := |ts| - 1;
      var front := AvailablePositions(ts[..n], env);
      PositionsAreAvailable(ts[..n], env);
      PositionsHoldIds(ts[..n], env);
      assert n !in front;
      forall i | 0 <= i < |ts|
        ensures i in AvailablePositions(ts, env) <==> Classify(ts[i], env) == Available
      {
        if i < n {
          assert ts[..n][i] == ts[i];
        }
      }
    }
  }

  /**
   * `results` holds exactly the available tasks, each once, in input order:
   * the k-th id is that of the k-th available task.
   */
  lemma ResultsInInputOrder(ts: seq<Task>, env: Env)
    ensures var idx := AvailablePositions(ts, env);
      |idx| == |Resolve(ts, env).tasks|
      && (forall k | 0 <= k < |idx| :: idx[k] < |ts| && Resolve(ts, env).tasks[k] == ts[idx[k]].id)
      && (forall k, l | 0 <= k < l < |idx| :: idx[k] < idx[l])
      && (forall i | 0 <= i < |ts| :: i in idx <==> Classify(ts[i], env) == Available)
  {
    PositionsHoldIds(ts, env);
    PositionsIncrease(ts, env);
    PositionsAreAvailable(ts, env);
  }

  /** The sequential projects whose gate a pass over `ts` looks up. */
  function GatesNeeded(ts: seq<Task>, env: Env): set<ProjectId>
  {
    if |ts| == 0 then {}
    else
      var g := GateLookup(ts[|ts| - 1], env);
      GatesNeeded(ts[..|ts| - 1], env) + (if g.Some? then {g.value} else {})
  }

  /** A project's gate is needed exactly when some task of the pass reaches its gate check. */
  lemma {:induction false} GatesNeededExactly(ts: seq<Task>, env: Env, pid: ProjectId)
    ensures pid in GatesNeeded(ts, env) <==> exists k | 0 <= k < |ts| :: GateLookup(ts[k], env) == Some(pid)
  {
    if |ts| > 0 {
      var n := |ts| - 1;
      GatesNeededExactly(ts[..n], env, pid);
      assert forall k | 0 <= k < n :: ts[..n][k] == ts[k];
      if pid in GatesNeeded(ts[..n], env) {
        var k :| 0 <= k < n && GateLookup(ts[..n][k], env) == Some(pid);
        assert GateLookup(ts[k], env) == Some(pid);
      }
      if exists k | 0 <= k < |ts| :: GateLookup(ts[k], env) == Some(pid) {
        var k :| 0 <= k < |ts| && GateLookup(ts[k], env) == Some(pid);
        if k < n {
          assert GateLookup(ts[..n][k], env) == Some(pid);
        }
      }
    }
  }

  // ---------------------------------------------------------------------
  // The pass

  /** How the report of a prefix grows by one task. */
  lemma PrefixStep(ts: seq<Task>, i: nat, env: Env)
    requires i < |ts|
    ensures AvailableIds(ts[..i + 1], env)
         == AvailableIds(ts[..i], env) + (if Classify(ts[i], env) == Available then [ts[i].id] else [])
    ensures Counts(ts[..i + 1], env) == Tally(Counts(ts[..i], env), Classify(ts[i], env))
    ensures GatesNeeded(ts[..i + 1], env)
         == GatesNeeded(ts[..i], env) + (if GateLookup(ts[i], env).Some? then {GateLookup(ts[i], env).value} else {})
  {
    assert ts[..i + 1][..i] == ts[..i];
    assert ts[..i + 1][i] == ts[i];
  }

  /**
   * The gate cache of a pass against the snapshot: every cached project is a
   * project of the snapshot and holds its gate, the cached projects are the
   * scanned ones, and no project was scanned twice.
   */
  ghost predicate CacheCoherent(cache: map<ProjectId, Option<TaskId>>, scans: seq<ProjectId>, projects: map<ProjectId, Project>)
  {
    (forall pid | pid in cache :: pid in projects && cache[pid] == Gate(projects[pid].tasks))
    && (forall pid :: pid in cache <==> pid in scans)
    && (forall a, b | 0 <= a < b < |scans| :: scans[a] != scans[b])
  }

  /**
   * `firstIncompleteCache[projectId]`, and on a miss the scan of the
   * project's tasks whose result is stored: either way the gate a fresh scan
   * gives, and the project is scanned only when it was not cached.
   */
  method LookUpGate(
    pid: ProjectId, projects: map<ProjectId, Project>,
    cache: map<ProjectId, Option<TaskId>>, ghost scans: seq<ProjectId>)
    returns (first: Option<TaskId>, cache': map<ProjectId, Option<TaskId>>, ghost scans': seq<ProjectId>)
    requires pid in projects
    requires CacheCoherent(cache, scans, projects)
    ensures first == Gate(projects[pid].tasks)
    ensures cache' == cache[pid := first]
    ensures scans' == if pid in cache then scans else scans + [pid]
    ensures CacheCoherent(cache', scans', projects)
  {
    if pid in cache {
      first := cache[pid];
      cache', scans' := cache, scans;
    } else {
      first := FindFirstIncomplete(projects[pid].tasks);
      cache' := cache[pid := first];
      scans' := scans + [pid];
    }
  }

  /**
   * The rules of a task whose project the snapshot holds, from the on-hold
   * check to the sequential gate, with their counters: the decision is
   * `ProjectOutcome`'s, and only a task of a project that reaches the gate
   * check consults the cache.
   */
  method VisitProjectTask(
    task: Task, env: Env, pid: ProjectId, project: Project,
    results: seq<TaskId>, blocked: BlockedCounts,
    cache: map<ProjectId, Option<TaskId>>, ghost scans: seq<ProjectId>)
    returns (results': seq<TaskId>, blocked': BlockedCounts,
             cache': map<ProjectId, Option<TaskId>>, ghost scans': seq<ProjectId>)
    requires pid in env.projects && env.projects[pid] == project
    requires CacheCoherent(cache, scans, env.projects)
    ensures results' == results + (if ProjectOutcome(task.id, project, env.now) == Available then [task.id] else [])
    ensures blocked' == Tally(blocked, ProjectOutcome(task.id, project, env.now))
    ensures cache'.Keys == cache.Keys + (if ReachesGate(project, env.now) then {pid} else {})
    ensures CacheCoherent(cache', scans', env.projects)
  {
    results', blocked', cache', scans' := results, blocked, cache, scans;
    if project.status == OnHold {
      assert ProjectOutcome(task.id, project, env.now) == BlockedBy(ProjectOnHold);
      blocked' := blocked.(projectOnHold := blocked.projectOnHold + 1);
    } else if project.status == Dropped || project.completed {
      // tasks of dropped and completed projects are skipped
      assert ProjectOutcome(task.id, project, env.now) == Excluded;
    } else if project.deferDate.Some? && project.deferDate.value > env.now {
      assert ProjectOutcome(task.id, project, env.now) == BlockedBy(ProjectDeferred);
      blocked' := blocked.(projectDeferred := blocked.projectDeferred + 1);
    } else if project.sequential == Some(true) {
      var firstIncomplete;
      firstIncomplete, cache', scans' := LookUpGate(pid, env.projects, cache, scans);
      if firstIncomplete.Some? && firstIncomplete.value != task.id {
        assert ProjectOutcome(task.id, project, env.now) == BlockedBy(Sequential);
        blocked' := blocked.(sequential := blocked.sequential + 1);
      } else {
        results' := results + [task.id];
      }
    } else {
      results' := results + [task.id];
    }
  }

  /**
   * The body of the script's loop for one task: the rules in their order,
   * each bumping its counter or appending the id; the decision is
   * `Classify`'s and the cache grows by the gate the task needed, if any.
   */
  method VisitTask(
    task: Task, env: Env,
    results: seq<TaskId>, blocked: BlockedCounts,
    cache: map<ProjectId, Option<TaskId>>, ghost scans: seq<ProjectId>)
    returns (results': seq<TaskId>, blocked': BlockedCounts,
             cache': map<ProjectId, Option<TaskId>>, ghost scans': seq<ProjectId>)
    requires CacheCoherent(cache, scans, env.projects)
    ensures results' == results + (if Classify(task, env) == Available then [task.id] else [])
    ensures blocked' == Tally(blocked, Classify(task, env))
    ensures cache'.Keys == cache.Keys + (if GateLookup(task, env).Some? then {GateLookup(task, env).value} else {})
    ensures CacheCoherent(cache', scans', env.projects)
  {
    results', blocked', cache', scans' := results, blocked, cache, scans;
    if task.completed || task.dropped {
      // completed and dropped tasks are skipped
      return;
    }
    var name := env.lower(task.name);
    var note := env.lower(if task.note.Some? then task.note.value else "");
    if env.query != "" && !OFUtils.Includes(name, env.query) && !OFUtils.Includes(note, env.query) {
      // the query matches neither name nor note
    } else if task.deferDate.Some? && task.deferDate.value > env.now {
      assert Classify(task, env) == BlockedBy(TaskDeferred);
      blocked' := blocked.(taskDeferred := blocked.taskDeferred + 1);
    } else if task.project.None? || task.project.value !in env.projects {
      // inbox tasks are always available
      results' := results + [task.id];
    } else {
      var pid := task.project.value;
      assert ContainingProject(task, env) == Some((pid, env.projects[pid]));
      results', blocked', cache', scans' :=
        VisitProjectTask(task, env, pid, env.projects[pid], results, blocked, cache, scans);
    }
  }

  /**
   * `run`: one pass over the flattened tasks. `lower` stands for
   * `toLowerCase` (which maps the empty string to itself), `clock` for the time `new Date()` gives. Besides the
   * report, the pass yields (as ghost outputs) its cache of gates and the
   * sequential projects it scanned, in scan order: each scanned once, on the
   * first task of the pass that needed its gate.
   */
  method SearchAvailableTasks(
    tasks: seq<Task>, projects: map<ProjectId, Project>, argument: string,
    lower: string -> string, clock: Instant)
    returns (report: Report, ghost gates: map<ProjectId, Option<TaskId>>, ghost scans: seq<ProjectId>)
    requires lower("") == ""
    ensures report == Resolve(tasks, Env(projects, lower(argument), lower, DayStart(clock)))
    ensures report.totalAvailable == |report.tasks|
    ensures report.totalBlocked == report.blocked.projectOnHold + report.blocked.projectDeferred
                                   + report.blocked.taskDeferred + report.blocked.sequential
    ensures forall pid | pid in gates :: pid in projects && gates[pid] == Gate(projects[pid].tasks)
    ensures forall pid :: pid in gates <==> pid in scans
    ensures forall i, j | 0 <= i < j < |scans| :: scans[i] != scans[j]
    ensures gates.Keys == GatesNeeded(tasks, Env(projects, lower(argument), lower, DayStart(clock)))
    ensures |scans| == |GatesNeeded(tasks, Env(projects, lower(argument), lower, DayStart(clock)))|
    ensures argument == [] ==>
      report.totalAvailable + report.totalBlocked
      + CountOf(tasks, Env(projects, lower(argument), lower, DayStart(clock)), Excluded) == |tasks|
  {
    var env := Env(projects, lower(argument), lower, DayStart(clock));

    var results: seq<TaskId> := [];
    var blocked := BlockedCounts(0, 0, 0, 0);
    var cache: map<ProjectId, Option<TaskId>> := map[];
    scans := [];

    for i := 0 to |tasks|
      invariant results == AvailableIds(tasks[..i], env)
      invariant blocked == Counts(tasks[..i], env)
      invariant CacheCoherent(cache, scans, projects)
      invariant cache.Keys == GatesNeeded(tasks[..i], env)
    {
      PrefixStep(tasks, i, env);
      results, blocked, cache, scans := VisitTask(tasks[i], env, results, blocked, cache, scans);
    }
    assert tasks[..|tasks|] == tasks;

    report := Report(results, blocked, |results|,
                     blocked.projectOnHold + blocked.projectDeferred + blocked.taskDeferred + blocked.sequential);
    gates := cache;
    DistinctCount(scans);
    assert (set pid | pid in scans) == gates.Keys;
    if argument == [] {
      EmptyQueryFiltersNothing(tasks, env);
      EveryTaskCountedOnce(tasks, env);
    }
  }

  /** Without a query no task is filtered out. */
  lemma {:induction false} EmptyQueryFiltersNothing(ts: seq<Task>, env: Env)
    requires env.query == []
    ensures CountOf(ts, env, Filtered) == 0
  {
    if |ts| == 0 {
      NoTasksNoOutcome(env, Filtered);
    } else {
      EmptyQueryFiltersNothing(ts[..|ts| - 1], env);
    }
  }

  /** A sequence without repetitions has as many elements as it has positions. */
  lemma {:induction false} DistinctCount<T>(s: seq<T>)
    requires forall a, b | 0 <= a < b < |s| :: s[a] != s[b]
    ensures |set x | x in s| == |s|
  {
    if |s| > 0 {
      var front := s[..|s| - 1];
      DistinctCount(front);
      assert (set x | x in s) == (set x | x in front) + {s[|s| - 1]};
      assert s[|s| - 1] !in (set x | x in front);
    }
  }
}
