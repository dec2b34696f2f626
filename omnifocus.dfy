/**
 * Snapshots of the OmniFocus objects the scripts read. Every scripting-bridge
 * call (`Application('OmniFocus')`, `flattenedTasks()`, `containingProject()`,
 * ...) is replaced by a value read at the start of the pass.
 */
module OmniFocus {
  import opened Wrappers

  type TaskId = string
  type ProjectId = string

  /**
   * An instant in milliseconds, every instant shifted by one fixed local
   * offset, so that comparing two instants and taking the start of a day
   * (`setHours(0, 0, 0, 0)`) agree with the script.
   */
  type Instant = int

  /**
   * What the scripts can tell apart in `project.status()`: `OnHold` is a
   * status equal to the literal "on hold" and `Dropped` one equal to the
   * literal "dropped", the two strings the scripts compare against; `Active`
   * stands for every other string the application returns.
   */
  datatype ProjectStatus = Active | OnHold | Dropped

  /**
   * A task as the available-task search reads it. `note` is None when
   * `task.note()` is null; `project` is the id of `task.containingProject()`,
   * None for an inbox task.
   */
  datatype Task = Task(
    id: TaskId,
    name: string,
    note: Option<string>,
    completed: bool,
    dropped: bool,
    deferDate: Option<Instant>,
    project: Option<ProjectId>)

  /**
   * A project as the available-task search reads it; its id is the key under
   * which the snapshot holds it. `sequential` is None when the object has no
   * `sequential` property. `tasks` is `project.tasks()`, in the project's order.
   */
  datatype Project = Project(
    status: ProjectStatus,
    completed: bool,
    deferDate: Option<Instant>,
    sequential: Option<bool>,
    tasks: seq<Task>)

  /** One read of a scripting-bridge property: the value it gave, or the read threw. */
  datatype Read<T> = Got(value: T) | Threw

  /**
   * A task as the formatting helpers read it, every read able to fail.
   * `note` is what `obj['note']` yields (None for null or undefined);
   * `projectName` is what `getProjectName(task)` returns.
   */
  datatype TaskRecord = TaskRecord(
    name: Read<string>,
    note: Read<Option<string>>,
    id: Read<string>,
    completed: Read<bool>,
    flagged: Read<bool>,
    project: Read<Option<ProjectRecord>>,
    projectName: string)

  /** A project as the formatting helpers read it, every read able to fail. */
  datatype ProjectRecord = ProjectRecord(
    name: Read<string>,
    note: Read<Option<string>>,
    id: Read<string>,
    completed: Read<bool>,
    status: Read<ProjectStatus>)
}
