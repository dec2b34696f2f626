/**
 * Worked examples of the available-task rules on small concrete snapshots:
 * one sequential project "P", no query, and a clock at noon of day 0.
 */
module Scenarios {
  import opened Wrappers
  import opened OmniFocus
  import opened AvailableTasks

  /** Noon of day 0; the pass compares defer dates with its midnight. */
  const Noon: Instant := 43_200_000

  /** A pass with no query, the identity as case mapping, and `projects`. */
  function PassEnv(projects: map<ProjectId, Project>): Env
  {
    Env(projects, "", (s: string) => s, DayStart(Noon))
  }

  /** A task of project "P" named after its id. */
  function TaskOfP(id: TaskId, completed: bool, dropped: bool, deferDate: Option<Instant>): Task
  {
    Task(id, id, None, completed, dropped, deferDate, Some("P"))
  }

  /** An active, undeferred, sequential project "P" with `tasks`. */
  function SequentialP(tasks: seq<Task>): map<ProjectId, Project>
  {
    map["P" := Project(ProjectStatus.Active, false, None, Some(true), tasks)]
  }

  /**
   * Tasks [T1 (completed), T2 (dropped), T3 (deferred to tomorrow), T4]: T1
   * and T2 are left out, T3 is TaskDeferred, and T4 is Sequential, because
   * the gate is T3 although T3 itself is deferred.
   */
  lemma GateIgnoresDeferredGate()
    ensures var t1, t2 := TaskOfP("T1", true, false, None), TaskOfP("T2", false, true, None);
      var t3, t4 := TaskOfP("T3", false, false, Some(MsPerDay)), TaskOfP("T4", false, false, None);
      var env := PassEnv(SequentialP([t1, t2, t3, t4]));
      Classify(t1, env) == Excluded && Classify(t2, env) == Excluded
      && Classify(t3, env) == BlockedBy(TaskDeferred) && Classify(t4, env) == BlockedBy(Sequential)
  {
    var t1, t2 := TaskOfP("T1", true, false, None), TaskOfP("T2", false, true, None);
    var t3, t4 := TaskOfP("T3", false, false, Some(MsPerDay)), TaskOfP("T4", false, false, None);
    var ts := [t1, t2, t3, t4];
    assert ts[1..] == [t2, t3, t4];
    assert ts[1..][1..] == [t3, t4];
    assert FirstEligibleIndex(ts[1..][1..]) == 0;
    assert FirstEligibleIndex(ts[1..]) == 1;
    assert FirstEligibleIndex(ts) == 2;
    assert Gate(ts) == Some("T3");
  }

  /**
   * Tasks [A (completed), B, C]: B is the gate and is available, C is
   * Sequential, and both reach the gate check of "P", the one project the
   * pass scans.
   */
  lemma FirstEligibleTaskPasses()
    ensures var a, b, c := TaskOfP("A", true, false, None), TaskOfP("B", false, false, None), TaskOfP("C", false, false, None);
      var env := PassEnv(SequentialP([a, b, c]));
      Classify(a, env) == Excluded && Classify(b, env) == Available && Classify(c, env) == BlockedBy(Sequential)
      && GateLookup(b, env) == Some("P") && GateLookup(c, env) == Some("P")
      && GatesNeeded([a, b, c], env) == {"P"}
  {
    var a, b, c := TaskOfP("A", true, false, None), TaskOfP("B", false, false, None), TaskOfP("C", false, false, None);
    var ts := [a, b, c];
    var env := PassEnv(SequentialP(ts));
    assert ts[1..] == [b, c];
    assert FirstEligibleIndex(ts[1..]) == 0;
    assert FirstEligibleIndex(ts) == 1;
    assert Gate(ts) == Some("B");
    assert ts[..2] == [a, b];
    assert ts[..2][..1] == [a];
    assert ts[..2][..1][..0] == [];
    assert GatesNeeded([a], env) == {};
  }

  /**
   * The own defer date is compared with midnight, not with the clock: a task
   * deferred to 08:00 counts as TaskDeferred at noon of the same day.
   */
  lemma DeferredEarlierTodayStillBlocks()
    ensures var t := Task("T", "T", None, false, false, Some(28_800_000), None);
      Classify(t, PassEnv(map[])) == BlockedBy(TaskDeferred)
  {
  }
}
