/**
 * src/controllers/export.controller.ts: its own, simpler title formatter,
 * the validation of the posted tasks, and the rows handed to the
 * spreadsheet writer. Building and sending the `.xlsx` file is not
 * modelled; the response is the rows, or the error the handler sends.
 */
module ExportController {
  import opened Wrappers
  import opened Text
  import opened Js
  import opened TitleFormat
  import opened Tasks

  // ----- The export formatter -----

  /** `title.replace(/_/g, ' ')`: hyphens and runs of whitespace are kept. */
  function ReplaceUnderscores(s: string): (r: string)
    ensures |r| == |s|
    ensures forall i :: 0 <= i < |s| ==> r[i] == (if s[i] == '_' then ' ' else s[i])
  {
    seq(|s|, i requires 0 <= i < |s| => if s[i] == '_' then ' ' else s[i])
  }

  /** A character that ends a word for the export formatter. */
  predicate WordBreak(c: char) {
    c == '_' || c == ' '
  }

  /**
   * The export controller's `formatTaskTitle`: underscores become spaces and
   * each space-delimited word is capitalised. Unlike the analyser's version
   * it keeps hyphens, leading and trailing blanks and repeated spaces, so the
   * result always has the length of its input.
   */
  function ExportFormat(title: string): (r: string)
    ensures |r| == |title|
  {
    CapitalizeWords(ReplaceUnderscores(title))
  }

  /**
   * Exactly the underscores and spaces come out as spaces; every other
   * character is upper-cased at the start of a word and lower-cased inside one.
   */
  lemma ExportFormatChars(title: string)
    ensures var r := ExportFormat(title);
      && (forall i :: 0 <= i < |title| ==> (r[i] == ' ' <==> WordBreak(title[i])))
      && (forall i :: 0 <= i < |title| && !WordBreak(title[i]) ==>
            r[i] == if i == 0 || WordBreak(title[i - 1]) then Upper(title[i]) else Lower(title[i]))
  {
    var spaced := ReplaceUnderscores(title);
    var r := CapitalizeWords(spaced);
    assert forall i :: 0 <= i < |title| ==> r[i] == CaseAt(spaced, i);
  }

  /** Formatting an exported title again changes nothing. */
  lemma ExportFormatIdempotent(title: string)
    ensures ExportFormat(ExportFormat(title)) == ExportFormat(title)
  {
    var r := ExportFormat(title);
    var rr := ExportFormat(r);
    ExportFormatChars(title);
    ExportFormatChars(r);
    forall i | 0 <= i < |r|
      ensures rr[i] == r[i]
    {
      CaseLaws(title[i]);
      if i > 0 {
        assert WordBreak(r[i - 1]) <==> WordBreak(title[i - 1]);
      }
    }
  }

  /**
   * A title in the analyser's normal form passes through the export
   * formatter unchanged, so every title the analysis produced is exported
   * as it was shown.
   */
  lemma ExportKeepsFormattedTitles(s: string)
    requires Formatted(s)
    ensures ExportFormat(s) == s
  {
    var r := ExportFormat(s);
    ExportFormatChars(s);
    forall i | 0 <= i < |s|
      ensures r[i] == s[i]
    {
      assert s[i] == CaseAt(s, i);
      if IsSpace(s[i]) {
        assert s[i] == ' ';
      } else {
        CaseLaws(s[i]);
      }
    }
  }

  /** Exporting an analysed title: the two formatters agree after the analyser has run. */
  lemma ExportAfterAnalysis(title: string)
    ensures ExportFormat(FormatTaskTitle(title)) == FormatTaskTitle(title)
  {
    FormatTaskTitleNormalises(title);
    ExportKeepsFormattedTitles(FormatTaskTitle(title));
  }

  // ----- The handler -----

  /** One row of the sheet, with the columns `Task ID`, `Title`, `Description` and `Estimated Time`. */
  datatype Row = Row(taskId: Json, title: string, description: Json, estimatedTime: Json)

  /** What the handler sends. */
  datatype ExportResponse =
    | Workbook(rows: seq<Row>)                        // the `.xlsx` file holding these rows
    | BadRequest(error: string)                       // status 400
    | ServerError(error: string, details: string)     // status 500

  const InvalidTasksMessage := "Invalid tasks data"
  const MissingFieldsMessage := "Some tasks are missing required fields"
  const ExportFailedMessage := "Failed to export tasks to Excel"

  /** V8's message for `const { tasks } = req.body` when the body is `null`. */
  const DestructureNullMessage := "Cannot destructure property 'tasks' of 'req.body' as it is null."

  /** The message of a `TypeError` raised while checking or mapping the tasks. */
  function ErrorDetails(e: TypeError): string {
    match e
    case PropertyOfNull(key) => NullReadMessage(key)
    case NotAString(_) => "title.replace is not a function"
  }

  /** `task.id && task.title && task.description` is truthy, on a task that is not `null`. */
  predicate HasRequiredFields(task: Json) {
    Truthy(Field(task, "id")) && Truthy(Field(task, "title")) && Truthy(Field(task, "description"))
  }

  /**
   * `tasks.every(task => task.id && task.title && task.description)`: the
   * scan stops at the first task without the fields, and reading `id` of a
   * `null` task met before that throws.
   */
  function AllValid(tasks: seq<Json>): (r: Result<bool, TypeError>)
    ensures r == Success(true) <==> forall i :: 0 <= i < |tasks| ==> !tasks[i].Null? && HasRequiredFields(tasks[i])
    ensures r.Failure? <==>
      exists i :: 0 <= i < |tasks| && tasks[i].Null? && forall j :: 0 <= j < i ==> HasRequiredFields(tasks[j])
    ensures r.Failure? ==> r.error == PropertyOfNull("id")
    decreases |tasks|
  {
    if |tasks| == 0 then Success(true)
    else
      var rest := AllValid(tasks[1..]);
      ValidCons(tasks, rest);
      match Get(tasks[0], "id")
      case Failure(e) => Failure(e)
      case Success(_) => if !HasRequiredFields(tasks[0]) then Success(false) else rest
  }

  /** The scan of a list, after its first task has passed, is the scan of the others. */
  lemma ValidCons(tasks: seq<Json>, rest: Result<bool, TypeError>)
    requires |tasks| > 0
    requires rest == Success(true) <==>
      forall i :: 0 <= i < |tasks[1..]| ==> !tasks[1..][i].Null? && HasRequiredFields(tasks[1..][i])
    requires rest.Failure? <==>
      exists i :: 0 <= i < |tasks[1..]| && tasks[1..][i].Null? && forall j :: 0 <= j < i ==> HasRequiredFields(tasks[1..][j])
    ensures tasks[0].Null? ==>
      exists i :: 0 <= i < |tasks| && tasks[i].Null? && forall j :: 0 <= j < i ==> HasRequiredFields(tasks[j])
    ensures !tasks[0].Null? && !HasRequiredFields(tasks[0]) ==>
      !exists i :: 0 <= i < |tasks| && tasks[i].Null? && forall j :: 0 <= j < i ==> HasRequiredFields(tasks[j])
    ensures !tasks[0].Null? && HasRequiredFields(tasks[0]) ==>
      && (rest == Success(true) <==> forall i :: 0 <= i < |tasks| ==> !tasks[i].Null? && HasRequiredFields(tasks[i]))
      && (rest.Failure? <==>
            exists i :: 0 <= i < |tasks| && tasks[i].Null? && forall j :: 0 <= j < i ==> HasRequiredFields(tasks[j]))
  {
    var tail := tasks[1..];
    assert forall i :: 0 <= i < |tail| ==> tail[i] == tasks[i + 1];
    if !tasks[0].Null? && HasRequiredFields(tasks[0]) {
      if rest.Failure? {
        var k :| 0 <= k < |tail| && tail[k].Null? && forall j :: 0 <= j < k ==> HasRequiredFields(tail[j]);
        forall j | 0 <= j < k + 1
          ensures HasRequiredFields(tasks[j])
        {
          if j > 0 {
            assert tasks[j] == tail[j - 1];
          }
        }
        assert tasks[k + 1].Null?;
      }
      if exists i :: 0 <= i < |tasks| && tasks[i].Null? && forall j :: 0 <= j < i ==> HasRequiredFields(tasks[j]) {
        var k :| 0 <= k < |tasks| && tasks[k].Null? && forall j :: 0 <= j < k ==> HasRequiredFields(tasks[j]);
        assert k > 0;
        forall j | 0 <= j < k - 1
          ensures HasRequiredFields(tail[j])
        {
          assert tail[j] == tasks[j + 1];
        }
        assert tail[k - 1].Null?;
      }
      if forall i :: 0 <= i < |tasks| ==> !tasks[i].Null? && HasRequiredFields(tasks[i]) {
        forall i | 0 <= i < |tail|
          ensures !tail[i].Null? && HasRequiredFields(tail[i])
        {
          assert tail[i] == tasks[i + 1];
        }
      }
    }
  }

  /** The scan answers `false` at the first task without the fields, whatever follows it. */
  lemma {:induction false} AllValidStopsAt(tasks: seq<Json>, k: nat)
    requires k < |tasks| && !tasks[k].Null? && !HasRequiredFields(tasks[k])
    requires forall i :: 0 <= i < k ==> !tasks[i].Null? && HasRequiredFields(tasks[i])
    ensures AllValid(tasks) == Success(false)
    decreases k
  {
    if k > 0 {
      var tail := tasks[1..];
      assert forall i :: 0 <= i < k - 1 ==> tail[i] == tasks[i + 1];
      AllValidStopsAt(tail, k - 1);
    }
  }

  /** `task.title` is a string, so `replace` can be called on it. */
  predicate TitleIsString(task: Json) {
    Field(task, "title").Some? && Field(task, "title").value.Str?
  }

  /** The row of one validated task; a title that is not a string makes `replace` throw. */
  function TaskRow(task: Json): (r: Result<Row, TypeError>)
    requires !task.Null? && HasRequiredFields(task)
    ensures r.Failure? <==> !TitleIsString(task)
    ensures r.Success? ==> r.value.title == ExportFormat(Field(task, "title").value.s)
    ensures r.Success? ==> r.value.taskId == Field(task, "id").value
    ensures r.Success? ==> r.value.description == Field(task, "description").value
    ensures r.Success? ==> r.value.estimatedTime == FirstTruthy([Field(task, "estimatedTime")], Str(""))
  {
    var title := Field(task, "title").value;
    if title.Str? then
      Success(Row(Field(task, "id").value, ExportFormat(title.s), Field(task, "description").value,
                  FirstTruthy([Field(task, "estimatedTime")], Str(""))))
    else Failure(NotAString(title))
  }

  /** `tasks.map(...)`: one row per task, in order, unless some title is not a string. */
  function TaskRows(tasks: seq<Json>): (r: Result<seq<Row>, TypeError>)
    requires forall i :: 0 <= i < |tasks| ==> !tasks[i].Null? && HasRequiredFields(tasks[i])
    ensures r.Failure? <==> exists i :: 0 <= i < |tasks| && !TitleIsString(tasks[i])
    ensures r.Success? ==> |r.value| == |tasks|
    ensures r.Success? ==> forall i :: 0 <= i < |tasks| ==> TaskRow(tasks[i]) == Success(r.value[i])
    decreases |tasks|
  {
    if |tasks| == 0 then Success([])
    else
      var tail := tasks[1..];
      assert forall i :: 0 <= i < |tail| ==> tail[i] == tasks[i + 1];
      var head := TaskRow(tasks[0]);
      var rest := TaskRows(tail);
      RowsCons(tasks, head, rest);
      if head.Failure? then Failure(head.error)
      else if rest.Failure? then Failure(rest.error)
      else Success([head.value] + rest.value)
  }

  /** The rows of a list are the row of its first task followed by the rows of the others. */
  lemma RowsCons(tasks: seq<Json>, head: Result<Row, TypeError>, rest: Result<seq<Row>, TypeError>)
    requires |tasks| > 0 && forall i :: 0 <= i < |tasks| ==> !tasks[i].Null? && HasRequiredFields(tasks[i])
    requires head == TaskRow(tasks[0])
    requires rest.Failure? <==> exists i :: 0 <= i < |tasks[1..]| && !TitleIsString(tasks[1..][i])
    requires rest.Success? ==> |rest.value| == |tasks[1..]|
    requires rest.Success? ==> forall i :: 0 <= i < |tasks[1..]| ==> TaskRow(tasks[1..][i]) == Success(rest.value[i])
    ensures head.Failure? || rest.Failure? <==> exists i :: 0 <= i < |tasks| && !TitleIsString(tasks[i])
    ensures head.Success? && rest.Success? ==>
      forall i :: 0 <= i < |tasks| ==> TaskRow(tasks[i]) == Success(([head.value] + rest.value)[i])
  {
    var tail := tasks[1..];
    assert head.Failure? <==> !TitleIsString(tasks[0]);
    if rest.Failure? {
      var k :| 0 <= k < |tail| && !TitleIsString(tail[k]);
      assert tail[k] == tasks[k + 1];
    }
    if exists i :: 0 <= i < |tasks| && !TitleIsString(tasks[i]) {
      var k :| 0 <= k < |tasks| && !TitleIsString(tasks[k]);
      if k > 0 {
        assert tasks[k] == tail[k - 1];
      }
    }
    if head.Success? && rest.Success? {
      var rows := [head.value] + rest.value;
      forall i | 0 <= i < |tasks|
        ensures TaskRow(tasks[i]) == Success(rows[i])
      {
        if i > 0 {
          assert tasks[i] == tail[i - 1];
          assert rows[i] == rest.value[i - 1];
        }
      }
    }
  }

  /** `tasks` of a body that is not `null` is an array. */
  predicate TasksArray(body: Json) {
    Field(body, "tasks").Some? && Field(body, "tasks").value.Arr?
  }

  /** The posted list of tasks. */
  function Posted(body: Json): seq<Json>
    requires TasksArray(body)
  {
    Field(body, "tasks").value.items
  }

  /**
   * `exportTasksToExcel(req, res)` on the parsed body: a 400 unless `tasks`
   * is an array whose every element has `id`, `title` and `description`, a
   * 500 when a `TypeError` is raised on the way, the rows otherwise.
   */
  function ExportTasks(body: Json): (r: ExportResponse)
    ensures r == BadRequest(InvalidTasksMessage) <==> !body.Null? && !TasksArray(body)
    ensures r == BadRequest(MissingFieldsMessage) <==> TasksArray(body) && AllValid(Posted(body)) == Success(false)
    ensures r.BadRequest? ==> r.error == InvalidTasksMessage || r.error == MissingFieldsMessage
    ensures r.ServerError? <==>
      || body.Null?
      || (&& TasksArray(body)
          && (|| AllValid(Posted(body)).Failure?
              || (AllValid(Posted(body)) == Success(true) && TaskRows(Posted(body)).Failure?)))
    ensures r.ServerError? ==> r.error == ExportFailedMessage
    ensures body.Null? ==> r == ServerError(ExportFailedMessage, DestructureNullMessage)
    ensures r.Workbook? ==>
      && TasksArray(body) && AllValid(Posted(body)) == Success(true)
      && TaskRows(Posted(body)) == Success(r.rows)
  {
    if body.Null? then ServerError(ExportFailedMessage, DestructureNullMessage)
    else
      var tasks := Field(body, "tasks");
      if !Truthy(tasks) || !tasks.value.Arr? then BadRequest(InvalidTasksMessage)
      else
        var items := tasks.value.items;
        match AllValid(items)
        case Failure(e) => ServerError(ExportFailedMessage, ErrorDetails(e))
        case Success(false) => BadRequest(MissingFieldsMessage)
        case Success(true) =>
          match TaskRows(items)
          case Failure(e) => ServerError(ExportFailedMessage, ErrorDetails(e))
          case Success(rows) => Workbook(rows)
  }

  /**
   * The sheet has one row per posted task, in order: its `id`, its title
   * formatted for export, its `description`, and its `estimatedTime` or `''`.
   */
  lemma WorkbookRows(body: Json)
    requires ExportTasks(body).Workbook?
    ensures var rows, tasks := ExportTasks(body).rows, Posted(body);
      && |rows| == |tasks|
      && forall i :: 0 <= i < |tasks| ==>
           && !tasks[i].Null? && HasRequiredFields(tasks[i]) && TitleIsString(tasks[i])
           && rows[i] == Row(Field(tasks[i], "id").value,
                             ExportFormat(Field(tasks[i], "title").value.s),
                             Field(tasks[i], "description").value,
                             FirstTruthy([Field(tasks[i], "estimatedTime")], Str("")))
  {
    var rows, tasks := ExportTasks(body).rows, Posted(body);
    forall i | 0 <= i < |tasks|
      ensures TitleIsString(tasks[i])
      ensures rows[i] == Row(Field(tasks[i], "id").value, ExportFormat(Field(tasks[i], "title").value.s),
                             Field(tasks[i], "description").value,
                             FirstTruthy([Field(tasks[i], "estimatedTime")], Str("")))
    {
      assert TaskRow(tasks[i]) == Success(rows[i]);
    }
  }

  /** An empty list passes the validation and gives a sheet without rows. */
  lemma EmptyListExports()
    ensures ExportTasks(Obj([Member("tasks", Arr([]))])) == Workbook([])
  {
    assert Field(Obj([Member("tasks", Arr([]))]), "tasks") == Some(Arr([]));
  }

  // ----- Tasks sent back by the client -----

  /** How a task reaches the handler again: `JSON.stringify` of the task object. */
  function TaskToJson(t: Task): Json {
    Obj(RequiredMembers(t) + OptionalMembers(t))
  }

  /** The properties every pipeline task has, in the order they are set. */
  function RequiredMembers(t: Task): seq<Member> {
    [Member("id", Str(t.id)), Member("title", Str(t.title)), Member("description", t.description),
     Member("priority", Num(t.priority as real))]
  }

  /** `estimatedTime`, serialised only when it is set; the pipeline never sets the other optional fields. */
  function OptionalMembers(t: Task): seq<Member> {
    if t.estimatedTime.Some? then [Member("estimatedTime", Str(t.estimatedTime.value))] else []
  }

  /** A task the export accepts: non-empty identifier and title, truthy description. */
  predicate Exportable(t: Task) {
    t.id != "" && t.title != "" && Truthy(Some(t.description))
  }

  /** The row a task sent back by the client yields. */
  function ExpectedRow(t: Task): Row {
    Row(Str(t.id), ExportFormat(t.title), t.description,
        if t.estimatedTime.Some? && t.estimatedTime.value != "" then Str(t.estimatedTime.value) else Str(""))
  }

  lemma TaskToJsonFields(t: Task)
    ensures var j := TaskToJson(t);
      && Field(j, "id") == Some(Str(t.id))
      && Field(j, "title") == Some(Str(t.title))
      && Field(j, "description") == Some(t.description)
      && Field(j, "estimatedTime") == (if t.estimatedTime.Some? then Some(Str(t.estimatedTime.value)) else None)
  {
    var fixed := RequiredMembers(t);
    RequiredLookups(t);
    LookupAppend(fixed, OptionalMembers(t), "id");
    LookupAppend(fixed, OptionalMembers(t), "title");
    LookupAppend(fixed, OptionalMembers(t), "description");
    LookupAppend(fixed, OptionalMembers(t), "estimatedTime");
  }

  lemma RequiredLookups(t: Task)
    ensures var fixed := RequiredMembers(t);
      && Lookup(fixed, "id") == Some(Str(t.id))
      && Lookup(fixed, "title") == Some(Str(t.title))
      && Lookup(fixed, "description") == Some(t.description)
      && Lookup(fixed, "estimatedTime") == None
  {
    var fixed := RequiredMembers(t);
    assert fixed[0].key == "id" && fixed[1].key == "title";
    assert fixed[2].key == "description" && fixed[3].key == "priority";
    assert Lookup(fixed[1..], "title") == Some(Str(t.title));
    assert Lookup(fixed[2..], "description") == Some(t.description);
    assert fixed[4..] == [];
    assert Lookup(fixed[3..], "estimatedTime") == Lookup(fixed[4..], "estimatedTime") == None;
  }

  /** A list of tasks as the client posts it back. */
  predicate SentBack(items: seq<Json>, ts: seq<Task>) {
    |items| == |ts| && forall i :: 0 <= i < |ts| ==> items[i] == TaskToJson(ts[i])
  }

  /** An exportable task, posted back, passes the validation and yields its expected row. */
  lemma SentBackItem(t: Task)
    requires Exportable(t)
    ensures var j := TaskToJson(t);
      && !j.Null? && HasRequiredFields(j) && TitleIsString(j)
      && TaskRow(j) == Success(ExpectedRow(t))
  {
    var j := TaskToJson(t);
    TaskToJsonFields(t);
    assert Exportable(t);
    assert !j.Null? && HasRequiredFields(j) && TitleIsString(j);
    var row := TaskRow(j).value;
    assert row.estimatedTime == ExpectedRow(t).estimatedTime by {
      var estimate := [Field(j, "estimatedTime")];
      if t.estimatedTime.Some? && t.estimatedTime.value != "" {
        assert Truthy(estimate[0]);
      } else {
        assert !Truthy(estimate[0]);
      }
    }
    assert row.taskId == Str(t.id) && row.title == ExportFormat(t.title) && row.description == t.description;
  }

  /** Every exportable task posted back passes the validation, and its title is a string. */
  lemma SentBackValid(items: seq<Json>, ts: seq<Task>)
    requires SentBack(items, ts) && forall t <- ts :: Exportable(t)
    ensures forall i :: 0 <= i < |items| ==> !items[i].Null? && HasRequiredFields(items[i]) && TitleIsString(items[i])
    ensures forall i :: 0 <= i < |items| ==> TaskRow(items[i]) == Success(ExpectedRow(ts[i]))
    ensures AllValid(items) == Success(true)
  {
    forall i | 0 <= i < |ts|
      ensures !items[i].Null? && HasRequiredFields(items[i]) && TitleIsString(items[i])
      ensures TaskRow(items[i]) == Success(ExpectedRow(ts[i]))
    {
      assert ts[i] in ts;
      SentBackItem(ts[i]);
    }
  }

  /** Exportable tasks pass the validation and map to their expected rows. */
  lemma SentBackRows(items: seq<Json>, ts: seq<Task>)
    requires SentBack(items, ts) && forall t <- ts :: Exportable(t)
    ensures AllValid(items) == Success(true)
    ensures forall i :: 0 <= i < |items| ==> !items[i].Null? && HasRequiredFields(items[i])
    ensures TaskRows(items).Success?
    ensures forall i :: 0 <= i < |ts| ==> TaskRows(items).value[i] == ExpectedRow(ts[i])
  {
    SentBackValid(items, ts);
    var rows := TaskRows(items);
    assert rows.Success?;
    forall i | 0 <= i < |ts|
      ensures rows.value[i] == ExpectedRow(ts[i])
    {
      assert TaskRow(items[i]) == Success(rows.value[i]);
    }
  }

  /**
   * Posting back exportable tasks yields one row per task, in order, with
   * the same identifier, description and estimate; a title in the
   * analyser's normal form is kept exactly.
   */
  lemma ExportRoundTrip(items: seq<Json>, ts: seq<Task>)
    requires SentBack(items, ts) && forall t <- ts :: Exportable(t)
    ensures var r := ExportTasks(Obj([Member("tasks", Arr(items))]));
      && r.Workbook? && |r.rows| == |ts|
      && (forall i :: 0 <= i < |ts| ==> r.rows[i] == ExpectedRow(ts[i]))
      && (forall i :: 0 <= i < |ts| && Formatted(ts[i].title) ==> r.rows[i].title == ts[i].title)
  {
    var body := Obj([Member("tasks", Arr(items))]);
    assert Field(body, "tasks") == Some(Arr(items));
    SentBackRows(items, ts);
    var rows := TaskRows(items).value;
    assert ExportTasks(body) == Workbook(rows);
    forall i | 0 <= i < |ts| && Formatted(ts[i].title)
      ensures rows[i].title == ts[i].title
    {
      ExportKeepsFormattedTitles(ts[i].title);
    }
  }

  /**
   * A task whose title normalised to nothing (a title of separators only)
   * cannot be exported: the whole request is refused.
   */
  lemma EmptyTitleBlocksExport(items: seq<Json>, ts: seq<Task>, k: nat)
    requires SentBack(items, ts)
    requires k < |ts| && ts[k].title == ""
    requires forall i :: 0 <= i < k ==> Exportable(ts[i])
    ensures ExportTasks(Obj([Member("tasks", Arr(items))])) == BadRequest(MissingFieldsMessage)
  {
    var body := Obj([Member("tasks", Arr(items))]);
    assert Field(body, "tasks") == Some(Arr(items));
    EmptyTitleFailsScan(items, ts, k);
  }

  /** The scan reaches the task with the empty title, and answers `false` there. */
  lemma EmptyTitleFailsScan(items: seq<Json>, ts: seq<Task>, k: nat)
    requires SentBack(items, ts)
    requires k < |ts| && ts[k].title == ""
    requires forall i :: 0 <= i < k ==> Exportable(ts[i])
    ensures AllValid(items) == Success(false)
  {
    forall i | 0 <= i < k
      ensures !items[i].Null? && HasRequiredFields(items[i])
    {
      TaskToJsonFields(ts[i]);
    }
    TaskToJsonFields(ts[k]);
    assert !HasRequiredFields(items[k]);
    AllValidStopsAt(items, k);
  }
}
