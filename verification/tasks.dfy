/** The records the pipeline produces (src/types/index.ts). */
module Tasks {
  import opened Wrappers
  import opened Text
  import opened Js

  datatype TaskCategory = UiDesign | UiDevelopment | FrontendLogic | BackendDevelopment

  /**
   * One extracted task. `description` is typed as a string in the source,
   * but it holds whatever truthy value the model's reply carried, so it is
   * kept as a JSON value here. The pipeline never sets `category`,
   * `dependencies` or `estimatedTime`.
   */
  datatype Task = Task(
    id: string,
    title: string,
    description: Json,
    category: Option<TaskCategory>,
    priority: int,
    dependencies: Option<seq<string>>,
    estimatedTime: Option<string>)

  datatype AnalysisResult = AnalysisResult(tasks: seq<Task>, summary: string)

  /** Every task the pipeline builds gets this priority. */
  const DefaultPriority: int := 3

  /** `task-${n}`. */
  function TaskId(ordinal: nat): string {
    "task-" + DecimalString(ordinal)
  }

  /** `Task ${n}`. */
  function TaskLabel(ordinal: nat): string {
    "Task " + DecimalString(ordinal)
  }

  /** Identifiers of distinct positions differ. */
  lemma TaskIdInjective(a: nat, b: nat)
    requires TaskId(a) == TaskId(b)
    ensures a == b
  {
    assert DecimalString(a) == TaskId(a)[5..];
    assert DecimalString(b) == TaskId(b)[5..];
    DecimalStringInjective(a, b);
  }

  /** A task as the pipeline builds it: only id, title, description and priority set. */
  function PipelineTask(ordinal: nat, title: string, description: Json): Task {
    Task(TaskId(ordinal), title, description, None, DefaultPriority, None, None)
  }
}
