/**
 * `parseTasksFromResponse` of src/services/ai.service.ts: the dispatcher
 * that turns the parsed reply of the language model into tasks. It tries,
 * in order, an object with a `tasks` array, a bare array, the first
 * non-empty array property of an object, and finally builds one fallback
 * task. A runtime `TypeError` anywhere on the way is caught and replaced
 * by a fixed error task.
 */
module ResponseParser {
  import opened Wrappers
  import opened Text
  import opened Js
  import opened TitleFormat
  import opened Tasks

  const DefaultDescription := "No description provided"
  const UntitledTitle := "Untitled Task"
  const FallbackTitle := "Document Analysis"
  const FallbackDescription := "Analyze the provided document for tasks and requirements"
  const AnalysisPrefix := "Document analysis: "
  const ParseFailureDescription :=
    "There was an error parsing the AI response. Please try again or contact support."

  /** `JSON.parse` rejected the text with a `SyntaxError`. */
  datatype ParseError = SyntaxError(message: string)

  /** The reply layouts recognised, in the order they are tried. */
  datatype Shape =
    | TasksProperty(items: seq<Json>)                // an object whose `tasks` is an array
    | BareArray(items: seq<Json>)                    // the reply is an array
    | ArrayProperty(key: string, items: seq<Json>)   // the first non-empty array property
    | Unrecognized

  /** The strict item rule of the first two shapes, or the loose one of the third. */
  datatype ItemRule = Strict | Loose

  predicate IsNonEmptyArray(v: Json) {
    v.Arr? && |v.items| > 0
  }

  /** `v.tasks` holds an array (arrays are always truthy). */
  predicate HasTasksArray(v: Json) {
    Field(v, "tasks").Some? && Field(v, "tasks").value.Arr?
  }

  /** `formatTaskTitle(v)` on a runtime value: only strings have `replace`. */
  function FormatTitleValue(v: Json): (r: Result<string, TypeError>)
    ensures r.Failure? <==> !v.Str?
    ensures r.Success? ==> Formatted(r.value)
  {
    if v.Str? then
      FormatTaskTitleNormalises(v.s);
      Success(FormatTaskTitle(v.s))
    else Failure(NotAString(v))
  }

  /** An item of the `tasks` array or of a bare array. */
  function StrictItemTask(item: Json, ordinal: nat): Result<Task, TypeError> {
    if item.Null? then Failure(PropertyOfNull("task"))
    else
      var task := Field(item, "task");
      var title :- if Truthy(task) then FormatTitleValue(task.value) else Success(UntitledTitle);
      Success(PipelineTask(ordinal, title, FirstTruthy([Field(item, "description")], Str(DefaultDescription))))
  }

  /** `item.task || item.title || item.name || item.id || 'Task <ordinal>'` on a non-null item. */
  function LooseTitleSource(item: Json, ordinal: nat): Json {
    FirstTruthy(
      [Field(item, "task"), Field(item, "title"), Field(item, "name"), Field(item, "id")],
      Str(TaskLabel(ordinal)))
  }

  /** `item.description || item.desc || item.details || 'No description provided'`. */
  function LooseDescription(item: Json): Json {
    FirstTruthy(
      [Field(item, "description"), Field(item, "desc"), Field(item, "details")],
      Str(DefaultDescription))
  }

  /** An item of the first non-empty array property of an otherwise unknown object. */
  function LooseItemTask(item: Json, ordinal: nat): Result<Task, TypeError> {
    match item
    case Str(s) => Success(PipelineTask(ordinal, FormatTaskTitle(s), Str(DefaultDescription)))
    case Num(_) => Success(PipelineTask(ordinal, TaskLabel(ordinal), Str(DefaultDescription)))
    case Bool(_) => Success(PipelineTask(ordinal, TaskLabel(ordinal), Str(DefaultDescription)))
    case Null => Failure(PropertyOfNull("task"))
    case _ =>
      // the rest of `typeof item === 'object'`: objects and arrays
      var title :- FormatTitleValue(LooseTitleSource(item, ordinal));
      Success(PipelineTask(ordinal, title, LooseDescription(item)))
  }

  function ItemTask(rule: ItemRule, item: Json, ordinal: nat): Result<Task, TypeError> {
    match rule
    case Strict => StrictItemTask(item, ordinal)
    case Loose => LooseItemTask(item, ordinal)
  }

  /**
   * `items.map((item, index) => ...)` with ordinals counted from `first`:
   * one task per item, in order, unless some item throws.
   */
  function MapItems(rule: ItemRule, items: seq<Json>, first: nat): (r: Result<seq<Task>, TypeError>)
    ensures r.Failure? <==> exists i :: 0 <= i < |items| && ItemTask(rule, items[i], first + i).Failure?
    ensures r.Success? ==> |r.value| == |items|
    ensures r.Success? ==> forall i :: 0 <= i < |items| ==> ItemTask(rule, items[i], first + i) == Success(r.value[i])
    decreases |items|
  {
    if |items| == 0 then Success([])
    else
      var head := ItemTask(rule, items[0], first);
      var rest := MapItems(rule, items[1..], first + 1);
      var f := (item, ordinal) => ItemTask(rule, item, ordinal);
      assert forall item, ordinal :: f(item, ordinal) == ItemTask(rule, item, ordinal);
      MapCons(f, items, first, head, rest);
      if head.Failure? then Failure(head.error)
      else if rest.Failure? then Failure(rest.error)
      else Success([head.value] + rest.value)
  }

  /** The tasks of a list are the task of its first item followed by the tasks of the others. */
  lemma MapCons<X>(f: (X, nat) -> Result<Task, TypeError>, items: seq<X>, first: nat,
                   head: Result<Task, TypeError>, rest: Result<seq<Task>, TypeError>)
    requires |items| > 0 && head == f(items[0], first)
    requires rest.Failure? <==> exists i :: 0 <= i < |items[1..]| && f(items[1..][i], first + 1 + i).Failure?
    requires rest.Success? ==> |rest.value| == |items[1..]|
    requires rest.Success? ==> forall i :: 0 <= i < |items[1..]| ==> f(items[1..][i], first + 1 + i) == Success(rest.value[i])
    ensures head.Failure? || rest.Failure? <==> exists i :: 0 <= i < |items| && f(items[i], first + i).Failure?
    ensures head.Success? && rest.Success? ==>
      forall i :: 0 <= i < |items| ==> f(items[i], first + i) == Success(([head.value] + rest.value)[i])
  {
    var tail := items[1..];
    if rest.Failure? {
      var k :| 0 <= k < |tail| && f(tail[k], first + 1 + k).Failure?;
      assert tail[k] == items[k + 1];
    }
    if exists i :: 0 <= i < |items| && f(items[i], first + i).Failure? {
      var k :| 0 <= k < |items| && f(items[k], first + k).Failure?;
      if k > 0 {
        assert items[k] == tail[k - 1];
      }
    }
    if head.Success? && rest.Success? {
      var tasks := [head.value] + rest.value;
      forall i | 0 <= i < |items|
        ensures f(items[i], first + i) == Success(tasks[i])
      {
        if i > 0 {
          assert items[i] == tail[i - 1];
          assert tasks[i] == rest.value[i - 1];
        }
      }
    }
  }


  /** The position of the first member whose value is a non-empty array. */
  function FirstArrayMember(members: seq<Member>): (r: Option<nat>)
    ensures r.None? <==> forall i :: 0 <= i < |members| ==> !IsNonEmptyArray(members[i].value)
    ensures r.Some? ==> r.value < |members| && IsNonEmptyArray(members[r.value].value)
    ensures r.Some? ==> forall j :: 0 <= j < r.value ==> !IsNonEmptyArray(members[j].value)
    decreases |members|
  {
    if |members| == 0 then None
    else if IsNonEmptyArray(members[0].value) then Some(0)
    else match FirstArrayMember(members[1..])
      case None => None
      case Some(k) => Some(k + 1)
  }

  /** Which layout the parsed reply has; `null.tasks` throws. */
  function Classify(v: Json): (r: Result<Shape, TypeError>)
    ensures r.Failure? <==> v.Null?
    ensures r.Success? && HasTasksArray(v) ==> r.value == TasksProperty(Field(v, "tasks").value.items)
    ensures r.Success? && v.Arr? ==> r.value == BareArray(v.items)
    ensures r.Success? && r.value.ArrayProperty? <==>
      v.Obj? && !HasTasksArray(v) && exists i :: 0 <= i < |v.members| && IsNonEmptyArray(v.members[i].value)
    ensures r.Success? && r.value.ArrayProperty? ==>
      exists k ::
        && 0 <= k < |v.members|
        && v.members[k] == Member(r.value.key, Arr(r.value.items)) && |r.value.items| > 0
        && forall j :: 0 <= j < k ==> !IsNonEmptyArray(v.members[j].value)
    ensures r.Success? && r.value.Unrecognized? <==>
      && !v.Null? && !v.Arr? && !HasTasksArray(v)
      && (v.Obj? ==> forall i :: 0 <= i < |v.members| ==> !IsNonEmptyArray(v.members[i].value))
  {
    var tasks :- Get(v, "tasks");
    if Truthy(tasks) && tasks.value.Arr? then Success(TasksProperty(tasks.value.items))
    else if v.Arr? then Success(BareArray(v.items))
    else if v.Obj? && FirstArrayMember(v.members).Some? then
      var k := FirstArrayMember(v.members).value;
      Success(ArrayProperty(v.members[k].key, v.members[k].value.items))
    else Success(Unrecognized)
  }

  /**
   * `Object.entries(v).filter(([_, value]) => typeof value === 'string')`:
   * every string-valued member and nothing else, in order.
   */
  function StringMembers(members: seq<Member>): (r: seq<Member>)
    ensures forall m <- r :: m in members && m.value.Str?
    ensures forall i :: 0 <= i < |members| && members[i].value.Str? ==> members[i] in r
    ensures |r| == 0 <==> forall i :: 0 <= i < |members| ==> !members[i].value.Str?
    decreases |members|
  {
    if |members| == 0 then []
    else if members[0].value.Str? then [members[0]] + StringMembers(members[1..])
    else StringMembers(members[1..])
  }

  /**
   * The filter keeps a lone member exactly when it is a string, and works
   * piecewise on a concatenation, so it keeps the order of the members.
   */
  lemma {:induction false} StringMembersAppend(a: seq<Member>, b: seq<Member>)
    ensures StringMembers(a + b) == StringMembers(a) + StringMembers(b)
    ensures |a| == 1 ==> StringMembers(a) == if a[0].value.Str? then a else []
    decreases |a|
  {
    if |a| == 0 {
      assert a + b == b;
    } else {
      assert (a + b)[0] == a[0] && (a + b)[1..] == a[1..] + b;
      StringMembersAppend(a[1..], b);
      if |a| == 1 {
        assert a[1..] == [] && [a[0]] == a;
      }
    }
  }

  /** `${formatTaskTitle(key)}: ${value}` for each string-valued member. */
  function DescribeMembers(members: seq<Member>): (r: seq<string>)
    requires forall m <- members :: m.value.Str?
    ensures |r| == |members|
    ensures forall i :: 0 <= i < |members| ==> r[i] == FormatTaskTitle(members[i].key) + ": " + members[i].value.s
    decreases |members|
  {
    if |members| == 0 then []
    else [FormatTaskTitle(members[0].key) + ": " + members[0].value.s] + DescribeMembers(members[1..])
  }

  /** The single task built when no layout matches. */
  function FallbackTask(v: Json): Task {
    var description :=
      if v.Str? then v
      else if v.Obj? && |StringMembers(v.members)| > 0 then
        Str(AnalysisPrefix + Join(DescribeMembers(StringMembers(v.members)), ", "))
      else Str(FallbackDescription);
    PipelineTask(1, FallbackTitle, description)
  }

  /** The single task returned when parsing threw. */
  const ErrorTask := PipelineTask(1, FallbackTitle, Str(ParseFailureDescription))

  /** The body of the `try` block: may throw a `TypeError`. */
  function Interpret(v: Json): Result<seq<Task>, TypeError> {
    var shape :- Classify(v);
    match shape
    case TasksProperty(items) => MapItems(Strict, items, 1)
    case BareArray(items) => MapItems(Strict, items, 1)
    case ArrayProperty(_, items) => MapItems(Loose, items, 1)
    case Unrecognized => Success([FallbackTask(v)])
  }

  /** The two inputs that yield no task at all: an empty `tasks` array or an empty bare array. */
  predicate YieldsNoTasks(parsed: Result<Json, ParseError>) {
    parsed.Success? && (parsed.value == Arr([]) || Field(parsed.value, "tasks") == Some(Arr([])))
  }

  /**
   * `parseTasksFromResponse`, given the outcome of `JSON.parse` on the reply.
   * Every task is numbered by its position, has priority 3 and a normalised
   * title, and the list is empty only for the two empty-array inputs.
   */
  function ParseTasksFromResponse(parsed: Result<Json, ParseError>): (r: seq<Task>)
    ensures forall i :: 0 <= i < |r| ==> r[i].id == TaskId(i + 1)
    ensures forall t <- r :: t.priority == DefaultPriority && Formatted(t.title)
    ensures forall t <- r :: t.category.None? && t.dependencies.None? && t.estimatedTime.None?
    ensures |r| == 0 <==> YieldsNoTasks(parsed)
  {
    match parsed
    case Failure(_) =>
      PipelineTitlesFormatted();
      [ErrorTask]
    case Success(v) =>
      match Interpret(v)
      case Failure(_) =>
        PipelineTitlesFormatted();
        [ErrorTask]
      case Success(tasks) =>
        InterpretedTasksWellFormed(v);
        tasks
  }

  /** The fixed titles, and every `Task <n>` label, are already in normal form. */
  lemma PipelineTitlesFormatted()
    ensures Formatted(UntitledTitle) && Formatted(FallbackTitle)
    ensures forall n: nat :: Formatted(TaskLabel(n))
  {
    forall n: nat
      ensures Formatted(TaskLabel(n))
    {
      TaskLabelFormatted(n);
    }
    UntitledFormatted();
    FallbackTitleFormatted();
  }

  lemma UntitledFormatted()
    ensures Formatted(UntitledTitle)
  {
    WordFormatted("Untitled");
    WordFormatted("Task");
    JoinFormatted("Untitled", "Task");
  }

  lemma FallbackTitleFormatted()
    ensures Formatted(FallbackTitle)
  {
    WordFormatted("Document");
    WordFormatted("Analysis");
    JoinFormatted("Document", "Analysis");
  }

  /** A capitalised ASCII word is a normalised title. */
  lemma WordFormatted(w: string)
    requires |w| > 0 && 'A' <= w[0] <= 'Z'
    requires forall i :: 1 <= i < |w| ==> 'a' <= w[i] <= 'z'
    ensures Formatted(w)
  {
  }

  lemma TaskLabelFormatted(n: nat)
    ensures Formatted(TaskLabel(n))
  {
    var d := DecimalString(n);
    var s := TaskLabel(n);
    assert forall i :: 5 <= i < |s| ==> s[i] == d[i - 5];
    forall i | 0 <= i < |s|
      ensures s[i] == CaseAt(s, i) && (i == 4 || !IsSpace(s[i]))
    {
      if i >= 5 {
        assert '0' <= s[i] <= '9';
      }
    }
  }

  /** What `Interpret` returns always meets the guarantees of `ParseTasksFromResponse`. */
  lemma InterpretedTasksWellFormed(v: Json)
    requires Interpret(v).Success?
    ensures var r := Interpret(v).value;
      && (forall i :: 0 <= i < |r| ==> r[i].id == TaskId(i + 1))
      && (forall t <- r :: t.priority == DefaultPriority && Formatted(t.title))
      && (forall t <- r :: t.category.None? && t.dependencies.None? && t.estimatedTime.None?)
      && (|r| == 0 <==> v == Arr([]) || Field(v, "tasks") == Some(Arr([])))
  {
    var r := Interpret(v).value;
    ShapeFacts(v);
    match Classify(v).value
    case Unrecognized =>
      FallbackWellFormed(v);
      assert r == [FallbackTask(v)];
      assert Field(v, "tasks") != Some(Arr([]));
    case TasksProperty(items) =>
      MappedTasksWellFormed(Strict, items, r);
      assert |r| == 0 <==> items == [];
    case BareArray(items) =>
      MappedTasksWellFormed(Strict, items, r);
      assert |r| == 0 <==> items == [];
    case ArrayProperty(_, items) =>
      MappedTasksWellFormed(Loose, items, r);
      assert Field(v, "tasks") != Some(Arr([]));
  }

  lemma FallbackWellFormed(v: Json)
    ensures var t := FallbackTask(v);
      && t.id == TaskId(1) && t.priority == DefaultPriority && Formatted(t.title)
      && t.category.None? && t.dependencies.None? && t.estimatedTime.None?
  {
    FallbackTitleFormatted();
  }

  /** What each layout tells about the reply it was found in. */
  lemma ShapeFacts(v: Json)
    requires Classify(v).Success?
    ensures var shape := Classify(v).value;
      && (shape.TasksProperty? ==> v.Obj? && Field(v, "tasks") == Some(Arr(shape.items)))
      && (shape.BareArray? ==> v == Arr(shape.items) && Field(v, "tasks") == None)
      && (shape.ArrayProperty? ==> !v.Arr? && !HasTasksArray(v) && |shape.items| > 0)
      && (shape.Unrecognized? ==> !v.Arr? && !HasTasksArray(v))
      && (shape.TasksProperty? || shape.BareArray? ==> Interpret(v) == MapItems(Strict, shape.items, 1))
      && (shape.ArrayProperty? ==> Interpret(v) == MapItems(Loose, shape.items, 1))
      && (shape.Unrecognized? ==> Interpret(v) == Success([FallbackTask(v)]))
  {
  }

  lemma MappedTasksWellFormed(rule: ItemRule, items: seq<Json>, r: seq<Task>)
    requires MapItems(rule, items, 1) == Success(r)
    ensures |r| == |items|
    ensures forall i :: 0 <= i < |r| ==> r[i].id == TaskId(i + 1)
    ensures forall t <- r :: t.priority == DefaultPriority && Formatted(t.title)
    ensures forall t <- r :: t.category.None? && t.dependencies.None? && t.estimatedTime.None?
  {
    forall i | 0 <= i < |r|
      ensures r[i].id == TaskId(i + 1) && r[i].priority == DefaultPriority && Formatted(r[i].title)
      ensures r[i].category.None? && r[i].dependencies.None? && r[i].estimatedTime.None?
    {
      assert ItemTask(rule, items[i], 1 + i) == Success(r[i]);
      ItemTaskWellFormed(rule, items[i], 1 + i);
    }
  }

  /** Every task an item yields is numbered by its ordinal and has a normalised title. */
  lemma ItemTaskWellFormed(rule: ItemRule, item: Json, ordinal: nat)
    ensures var r := ItemTask(rule, item, ordinal);
      r.Success? ==>
        && r.value.id == TaskId(ordinal) && r.value.priority == DefaultPriority && Formatted(r.value.title)
        && r.value.category.None? && r.value.dependencies.None? && r.value.estimatedTime.None?
  {
    match rule
    case Strict =>
      UntitledFormatted();
    case Loose =>
      match item
      case Str(s) => FormatTaskTitleNormalises(s);
      case Num(_) => TaskLabelFormatted(ordinal);
      case Bool(_) => TaskLabelFormatted(ordinal);
      case Null =>
      case Arr(_) =>
      case Obj(_) =>
  }

  // ----- The shapes, one by one -----

  /** A parsed reply yields what `Interpret` returns, or the error task when that throws. */
  lemma ParsedReply(v: Json)
    ensures ParseTasksFromResponse(Success(v)) ==
      if Interpret(v).Success? then Interpret(v).value else [ErrorTask]
  {
  }

  /** A strict item throws when it is `null` or its truthy `task` is not a string. */
  predicate StrictItemThrows(item: Json) {
    item.Null? || (Truthy(Field(item, "task")) && !Field(item, "task").value.Str?)
  }

  /** The task a strict item yields: the title comes from `task` alone, the description from `description` alone. */
  function StrictItemResult(item: Json, ordinal: nat): Task
    requires !StrictItemThrows(item)
  {
    var task := Field(item, "task");
    var description := Field(item, "description");
    PipelineTask(
      ordinal,
      if Truthy(task) then FormatTaskTitle(task.value.s) else UntitledTitle,
      if Truthy(description) then description.value else Str(DefaultDescription))
  }

  /**
   * An object whose `tasks` is an array, or a bare array, of N items yields
   * exactly N tasks `task-1`..`task-N` in item order, unless some item
   * throws, in which case the error task is all that comes back.
   */
  lemma StrictShapeTasks(v: Json, items: seq<Json>)
    requires (v.Obj? && Field(v, "tasks") == Some(Arr(items))) || v == Arr(items)
    ensures var r := ParseTasksFromResponse(Success(v));
      if exists i :: 0 <= i < |items| && StrictItemThrows(items[i]) then r == [ErrorTask]
      else |r| == |items| && forall i :: 0 <= i < |items| ==> r[i] == StrictItemResult(items[i], i + 1)
  {
    assert Interpret(v) == MapItems(Strict, items, 1) by {
      assert Classify(v).Success? && Classify(v).value.items == items;
    }
    forall i | 0 <= i < |items|
      ensures StrictItemThrows(items[i]) <==> ItemTask(Strict, items[i], 1 + i).Failure?
      ensures !StrictItemThrows(items[i]) ==> ItemTask(Strict, items[i], 1 + i) == Success(StrictItemResult(items[i], i + 1))
    {
      StrictItemOutcome(items[i], i + 1);
    }
  }

  lemma StrictItemOutcome(item: Json, ordinal: nat)
    ensures StrictItemThrows(item) <==> StrictItemTask(item, ordinal).Failure?
    ensures !StrictItemThrows(item) ==> StrictItemTask(item, ordinal) == Success(StrictItemResult(item, ordinal))
  {
  }

  /**
   * A `tasks` array wins over every other array property, even when it is
   * empty and the others are not.
   */
  lemma TasksPropertyWins(members: seq<Member>, items: seq<Json>)
    requires Lookup(members, "tasks") == Some(Arr(items))
    ensures Interpret(Obj(members)) == MapItems(Strict, items, 1)
  {
  }

  /** The strict rule ignores `title`, `name` and `id`: items that agree on `task` and `description` give equal tasks. */
  lemma StrictItemIgnoresOtherFields(a: seq<Member>, b: seq<Member>, ordinal: nat)
    requires Lookup(a, "task") == Lookup(b, "task")
    requires Lookup(a, "description") == Lookup(b, "description")
    ensures StrictItemTask(Obj(a), ordinal) == StrictItemTask(Obj(b), ordinal)
  {
  }

  /** A loose item throws when it is `null` or an object whose first truthy title candidate is not a string. */
  predicate LooseItemThrows(item: Json, ordinal: nat) {
    item.Null? || (item.Obj? && !LooseTitleSource(item, ordinal).Str?)
  }

  /**
   * The task a loose item yields: a string item is its own title, an object
   * takes title and description from its candidate fields, and every other
   * item is labelled `Task <ordinal>` with the default description.
   */
  function LooseItemResult(item: Json, ordinal: nat): Task
    requires !LooseItemThrows(item, ordinal)
  {
    if item.Str? then PipelineTask(ordinal, FormatTaskTitle(item.s), Str(DefaultDescription))
    else if item.Obj? then
      PipelineTask(ordinal, FormatTaskTitle(LooseTitleSource(item, ordinal).s), LooseDescription(item))
    else PipelineTask(ordinal, TaskLabel(ordinal), Str(DefaultDescription))
  }

  /** Arrays count as objects in the loose rule, yet have none of the fields, so they get the label too. */
  lemma LooseItemOutcome(item: Json, ordinal: nat)
    ensures LooseItemThrows(item, ordinal) <==> LooseItemTask(item, ordinal).Failure?
    ensures !LooseItemThrows(item, ordinal) ==> LooseItemTask(item, ordinal) == Success(LooseItemResult(item, ordinal))
  {
    match item
    case Arr(_) => LooseArrayItem(item, ordinal);
    case Obj(_) => LooseObjectItem(item, ordinal);
    case Str(_) =>
    case Num(_) =>
    case Bool(_) =>
    case Null =>
  }

  lemma LooseObjectItem(item: Json, ordinal: nat)
    requires item.Obj?
    ensures LooseItemThrows(item, ordinal) <==> LooseItemTask(item, ordinal).Failure?
    ensures !LooseItemThrows(item, ordinal) ==> LooseItemTask(item, ordinal) == Success(LooseItemResult(item, ordinal))
  {
  }

  lemma LooseArrayItem(item: Json, ordinal: nat)
    requires item.Arr?
    ensures !LooseItemThrows(item, ordinal)
    ensures LooseItemTask(item, ordinal) == Success(LooseItemResult(item, ordinal))
  {
    var tag := TaskLabel(ordinal);
    var c := [Field(item, "task"), Field(item, "title"), Field(item, "name"), Field(item, "id")];
    assert c == [None, None, None, None];
    assert LooseTitleSource(item, ordinal) == FirstTruthy(c, Str(tag)) == Str(tag);
    PipelineTitlesFormatted();
    FormattedIsFixpoint(tag);
    assert LooseItemTask(item, ordinal) == Success(PipelineTask(ordinal, FormatTaskTitle(tag), LooseDescription(item)));
    var d := [Field(item, "description"), Field(item, "desc"), Field(item, "details")];
    assert d == [None, None, None];
    assert LooseDescription(item) == FirstTruthy(d, Str(DefaultDescription)) == Str(DefaultDescription);
  }

  /**
   * For any other object, the array used is the first property holding a
   * non-empty array, so at least one task results unless some item throws;
   * item i yields the loose task numbered i + 1.
   */
  lemma LooseShapeTasks(v: Json, k: nat)
    requires v.Obj? && !HasTasksArray(v) && FirstArrayMember(v.members) == Some(k)
    ensures var items := v.members[k].value.items;
      var r := ParseTasksFromResponse(Success(v));
      && |items| >= 1
      && if exists i :: 0 <= i < |items| && LooseItemThrows(items[i], i + 1) then r == [ErrorTask]
         else |r| == |items| && forall i :: 0 <= i < |items| ==> r[i] == LooseItemResult(items[i], i + 1)
  {
    var items := v.members[k].value.items;
    assert Classify(v) == Success(ArrayProperty(v.members[k].key, items));
    assert Interpret(v) == MapItems(Loose, items, 1);
    ParsedReply(v);
    forall i | 0 <= i < |items|
      ensures LooseItemThrows(items[i], i + 1) <==> ItemTask(Loose, items[i], 1 + i).Failure?
      ensures !LooseItemThrows(items[i], i + 1) ==>
                ItemTask(Loose, items[i], 1 + i) == Success(LooseItemResult(items[i], i + 1))
    {
      LooseItemOutcome(items[i], i + 1);
    }
  }

  /** When no layout matches, the result is the single fallback task. */
  lemma UnrecognizedFallback(v: Json)
    requires Classify(v) == Success(Unrecognized)
    ensures ParseTasksFromResponse(Success(v)) == [FallbackTask(v)]
  {
    ParsedReply(v);
  }

  /**
   * The fallback task is titled `Document Analysis` and described by the
   * reply itself when that is a string, otherwise by the default text unless
   * the reply is an object with string-valued properties.
   */
  lemma FallbackTaskContents(v: Json)
    ensures var t := FallbackTask(v);
      && t.id == TaskId(1) && t.title == FallbackTitle && t.priority == DefaultPriority
      && (v.Str? ==> t.description == v)
      && (!v.Str? && (v.Obj? ==> |StringMembers(v.members)| == 0) ==>
            t.description == Str(FallbackDescription))
  {
  }

  /**
   * An object with string-valued properties is described by
   * `Document analysis: ` and then `Key: value` for each of them, in order,
   * joined by `", "`, with the key normalised.
   */
  lemma FallbackNamesStringMembers(v: Json)
    requires v.Obj? && |StringMembers(v.members)| > 0
    ensures var d := FallbackTask(v).description;
      && d == Str(AnalysisPrefix + Join(DescribeMembers(StringMembers(v.members)), ", "))
      && AnalysisPrefix <= d.s
      && forall m <- StringMembers(v.members) :: Contains(d.s, FormatTaskTitle(m.key) + ": " + m.value.s)
  {
    var strs := StringMembers(v.members);
    forall m <- strs
      ensures Contains(AnalysisPrefix + Join(DescribeMembers(strs), ", "), FormatTaskTitle(m.key) + ": " + m.value.s)
    {
      DescribedMemberContained(strs, m);
    }
  }

  lemma DescribedMemberContained(strs: seq<Member>, m: Member)
    requires forall x <- strs :: x.value.Str?
    requires m in strs
    ensures Contains(AnalysisPrefix + Join(DescribeMembers(strs), ", "), FormatTaskTitle(m.key) + ": " + m.value.s)
  {
    var parts := DescribeMembers(strs);
    var i :| 0 <= i < |strs| && strs[i] == m;
    var part := parts[i];
    assert part == FormatTaskTitle(m.key) + ": " + m.value.s;
    JoinContainsParts(parts, ", ");
    assert part in parts;
    ContainsWithin(AnalysisPrefix, Join(parts, ", "), part);
  }

  /** Text that is not JSON, and a reply that is `null`, both yield the error task. */
  lemma FailuresYieldErrorTask(parsed: Result<Json, ParseError>)
    requires parsed.Failure? || parsed == Success(Null)
    ensures ParseTasksFromResponse(parsed) == [ErrorTask]
  {
  }

  // ----- Worked examples -----

  /** `[null]` parses, but reading `task` of its `null` item throws: the result is the error task. */
  lemma NullItemYieldsErrorTask()
    ensures ParseTasksFromResponse(Success(Arr([Null]))) == [ErrorTask]
  {
    ShapeFacts(Arr([Null]));
    ParsedReply(Arr([Null]));
    StrictItemOutcome(Null, 1);
    assert MapItems(Strict, [Null], 1).Failure?;
  }

  /** `{"tasks": []}` and `[]` give no task at all, though the caller expects at least one. */
  lemma EmptyArraysYieldNoTasks()
    ensures ParseTasksFromResponse(Success(Obj([Member("tasks", Arr([]))]))) == []
    ensures ParseTasksFromResponse(Success(Arr([]))) == []
  {
    assert YieldsNoTasks(Success(Obj([Member("tasks", Arr([]))])));
    assert YieldsNoTasks(Success(Arr([])));
  }

  /** A bare array of strings takes the strict rule: strings have no `task`, so every task is untitled. */
  lemma StringArrayIsUntitled(items: seq<Json>)
    requires forall i :: 0 <= i < |items| ==> items[i].Str?
    ensures var r := ParseTasksFromResponse(Success(Arr(items)));
      && |r| == |items|
      && forall i :: 0 <= i < |items| ==> r[i] == PipelineTask(i + 1, UntitledTitle, Str(DefaultDescription))
  {
    StrictShapeTasks(Arr(items), items);
    forall i | 0 <= i < |items|
      ensures !StrictItemThrows(items[i])
      ensures StrictItemResult(items[i], i + 1) == PipelineTask(i + 1, UntitledTitle, Str(DefaultDescription))
    {
      assert Field(items[i], "task") == None && Field(items[i], "description") == None;
    }
  }

  /** `[{"task": s}]` with a non-empty string `s` gives one task whose title is `s` normalised. */
  lemma SingleTaskItem(s: string)
    requires s != ""
    ensures ParseTasksFromResponse(Success(Arr([Obj([Member("task", Str(s))])]))) ==
      [PipelineTask(1, FormatTaskTitle(s), Str(DefaultDescription))]
  {
    var item := Obj([Member("task", Str(s))]);
    assert Field(item, "task") == Some(Str(s));
    assert Field(item, "description") == None;
    assert FirstTruthy([Field(item, "description")], Str(DefaultDescription)) == Str(DefaultDescription);
    StrictStringTitle(item, 1, s);
    SingleItemArray(item, PipelineTask(1, FormatTaskTitle(s), Str(DefaultDescription)));
  }

  /** An item whose `task` is a non-empty string is titled by that string, normalised. */
  lemma StrictStringTitle(item: Json, ordinal: nat, s: string)
    requires !item.Null? && Field(item, "task") == Some(Str(s)) && s != ""
    ensures StrictItemTask(item, ordinal) ==
      Success(PipelineTask(ordinal, FormatTaskTitle(s), FirstTruthy([Field(item, "description")], Str(DefaultDescription))))
  {
  }

  /** A task made only of underscores, hyphens and whitespace gets an empty title. */
  lemma SeparatorOnlyTitleIsEmpty(s: string)
    requires s != "" && forall i :: 0 <= i < |s| ==> IsSeparator(s[i])
    ensures ParseTasksFromResponse(Success(Arr([Obj([Member("task", Str(s))])]))) ==
      [PipelineTask(1, "", Str(DefaultDescription))]
  {
    SingleTaskItem(s);
    FormatTaskTitleNormalises(s);
  }

  /** A non-empty run of lower-case ASCII letters. */
  predicate LowerWord(w: string) {
    |w| > 0 && forall i :: 0 <= i < |w| ==> 'a' <= w[i] <= 'z'
  }

  /** `snake_case` and `kebab-case` pairs become two capitalised words: `user_login` is `User Login`. */
  lemma SnakeCaseTitle(a: string, sep: char, b: string)
    requires LowerWord(a) && LowerWord(b) && (sep == '_' || sep == '-')
    ensures FormatTaskTitle(a + [sep] + b) == CapitalizeWord(a) + " " + CapitalizeWord(b)
  {
    SnakeCaseSpacing(a, sep, b);
    FormatTidyTitle(a + [sep] + b);
    CapitalizeTwoWords(a, b);
  }

  lemma SnakeCaseSpacing(a: string, sep: char, b: string)
    requires LowerWord(a) && LowerWord(b) && (sep == '_' || sep == '-')
    ensures ReplaceSeparators(a + [sep] + b) == a + " " + b
    ensures SingleSpaced(a + " " + b) && Trimmed(a + " " + b)
  {
    var title := a + [sep] + b;
    var spaced := a + " " + b;
    forall i | 0 <= i < |title|
      ensures ReplaceSeparators(title)[i] == spaced[i]
      ensures IsSpace(spaced[i]) <==> i == |a|
    {
      if i > |a| {
        assert title[i] == b[i - |a| - 1] == spaced[i];
      }
    }
  }

  lemma CapitalizeTwoWords(a: string, b: string)
    requires LowerWord(a) && LowerWord(b)
    ensures CapitalizeWords(a + " " + b) == CapitalizeWord(a) + " " + CapitalizeWord(b)
  {
    var spaced := a + " " + b;
    var r := CapitalizeWords(spaced);
    var expected := CapitalizeWord(a) + " " + CapitalizeWord(b);
    var ca, cb := CapitalizeWord(a), CapitalizeWord(b);
    assert |r| == |expected|;
    forall i | 0 <= i < |spaced|
      ensures r[i] == expected[i]
    {
      assert r[i] == CaseAt(spaced, i);
      if i < |a| {
        assert spaced[i] == a[i] && expected[i] == ca[i];
        if i > 0 {
          assert spaced[i - 1] == a[i - 1];
        }
      } else if i == |a| {
        assert spaced[i] == ' ' && expected[i] == ' ';
      } else {
        var j := i - |a| - 1;
        assert spaced[i] == b[j] && expected[i] == cb[j];
        if j > 0 {
          assert spaced[i - 1] == b[j - 1];
        }
      }
    }
  }

  /** `{"items": [{"title": s}], "meta": {}}` takes its one task from `items`, titled `s` normalised. */
  lemma NestedUnknownShape(s: string)
    requires s != ""
    ensures ParseTasksFromResponse(Success(Obj([
        Member("items", Arr([Obj([Member("title", Str(s))])])),
        Member("meta", Obj([]))]))) ==
      [PipelineTask(1, FormatTaskTitle(s), Str(DefaultDescription))]
  {
    var item := Obj([Member("title", Str(s))]);
    var members := [Member("items", Arr([item])), Member("meta", Obj([]))];
    var v := Obj(members);
    assert IsNonEmptyArray(members[0].value);
    assert FirstArrayMember(members) == Some(0);
    assert Lookup(members, "tasks") == None;
    assert Classify(v) == Success(ArrayProperty("items", [item]));
    ShapeFacts(v);
    var t := PipelineTask(1, FormatTaskTitle(s), Str(DefaultDescription));
    LooseTitleItem(s, 1);
    SingleItemMap(Loose, item, t);
    ParsedReply(v);
  }

  /** `{"title": s}` as a loose item: titled `s` normalised, with the default description. */
  lemma LooseTitleItem(s: string, ordinal: nat)
    requires s != ""
    ensures LooseItemTask(Obj([Member("title", Str(s))]), ordinal) ==
      Success(PipelineTask(ordinal, FormatTaskTitle(s), Str(DefaultDescription)))
  {
    var item := Obj([Member("title", Str(s))]);
    LooseTitleFields(s, ordinal);
    LooseItemOutcome(item, ordinal);
  }

  lemma LooseTitleFields(s: string, ordinal: nat)
    requires s != ""
    ensures var item := Obj([Member("title", Str(s))]);
      LooseTitleSource(item, ordinal) == Str(s) && LooseDescription(item) == Str(DefaultDescription)
  {
    var item := Obj([Member("title", Str(s))]);
    assert Field(item, "task") == None && Field(item, "title") == Some(Str(s));
    var c := [Field(item, "task"), Field(item, "title"), Field(item, "name"), Field(item, "id")];
    assert !Truthy(c[0]) && Truthy(c[1]);
    assert LooseTitleSource(item, ordinal) == FirstTruthy(c, Str(TaskLabel(ordinal)));
    var d := [Field(item, "description"), Field(item, "desc"), Field(item, "details")];
    assert d == [None, None, None];
    assert LooseDescription(item) == FirstTruthy(d, Str(DefaultDescription));
  }

  /** A numeric `id` is a truthy non-string title candidate: the whole reply falls back to the error task. */
  lemma NumericIdThrows(n: real)
    requires n != 0.0
    ensures ParseTasksFromResponse(Success(Obj([Member("items", Arr([Obj([Member("id", Num(n))])]))]))) ==
      [ErrorTask]
  {
    var item := Obj([Member("id", Num(n))]);
    var members := [Member("items", Arr([item]))];
    var v := Obj(members);
    assert IsNonEmptyArray(members[0].value);
    assert FirstArrayMember(members) == Some(0);
    assert Lookup(members, "tasks") == None;
    assert Field(item, "task") == None && Field(item, "title") == None;
    assert Field(item, "name") == None && Field(item, "id") == Some(Num(n));
    var c := [Field(item, "task"), Field(item, "title"), Field(item, "name"), Field(item, "id")];
    assert !Truthy(c[0]) && !Truthy(c[1]) && !Truthy(c[2]) && Truthy(c[3]);
    assert LooseTitleSource(item, 1) == FirstTruthy(c, Str(TaskLabel(1))) == Num(n);
    LooseShapeTasks(v, 0);
    assert LooseItemThrows(item, 1);
  }

  /** A one-item bare array whose item yields `t` gives exactly `[t]`. */
  lemma SingleItemArray(item: Json, t: Task)
    requires StrictItemTask(item, 1) == Success(t)
    ensures ParseTasksFromResponse(Success(Arr([item]))) == [t]
  {
    SingleItemMap(Strict, item, t);
    ShapeFacts(Arr([item]));
    ParsedReply(Arr([item]));
  }

  lemma SingleItemMap(rule: ItemRule, item: Json, t: Task)
    requires ItemTask(rule, item, 1) == Success(t)
    ensures MapItems(rule, [item], 1) == Success([t])
  {
    assert [item][1..] == [];
    assert MapItems(rule, [item][1..], 2) == Success([]);
    assert [t] + [] == [t];
  }
}
