# Document-to-task analyser: a Dafny model of its core

The service takes an uploaded document (PDF, DOCX or plain text) or a text in
the request body. It sends the text to a chat-completions model and turns the
JSON reply into a list of tasks. It streams progress to the client as
server-sent events. A second endpoint turns a posted task list into
spreadsheet rows. This project models the parts of that flow that are pure
logic, and proves what they guarantee:

- `formatTaskTitle` of the AI service (module `TitleFormat`).
- `parseTasksFromResponse` (module `ResponseParser`). It handles the four
  reply layouts, the strict and loose item rules, the fallback task and the
  error task.
- The pure shell of `analyzeDocumentContent` (module `AiService`). It covers
  the progress calls, the two checks on the reply, the summary and the
  rewording of errors. The chat call and `JSON.parse` are parameters.
- The export controller (module `ExportController`). It covers its own title
  formatter, the `every` validation and the row mapping.
- The document controller (module `DocumentController`). It covers the
  upload filter and `analyzeDocument` as the list of events it writes.
- The error middleware (module `ErrorMiddleware`).

Supporting modules:

- `Js` models JavaScript values as `JSON.parse` gives them:
  - property reads that throw on `null` or give `undefined`;
  - truthiness;
  - the `a || b || c` default chain.
- `Text` models the string built-ins used: `\s`, case mapping, `includes`,
  `split`/`join` and decimal rendering.
- `Tasks` holds the task record of src/types/index.ts.
- `Wrappers` holds `Option` and `Result`.

A runtime `TypeError` is modelled as a `Result` failure. It is then caught
where the source catches it.

## Model

| member | source | states |
|---|---|---|
| TitleFormat.FormatTaskTitleNormalises | src/services/ai.service.ts:155-169 | The title comes out normalised: no `_` or `-`, only single inner spaces, no blanks at either end, and every word upper case first and lower case after. It is empty exactly when the input is nothing but underscores, hyphens and whitespace |
| TitleFormat.FormatTaskTitleWords | src/services/ai.service.ts:155-169 | The title is the words of the input, each capitalised, joined by single spaces. A word is a maximal run of characters that are not whitespace, `_` or `-`, so a word ends exactly where such a run begins, whatever its length |
| TitleFormat.ReplaceSeparatorsSpaces | src/services/ai.service.ts:157 | Every `_` and `-` becomes `' '` and every other character is kept as it is. So the runs of non-whitespace characters in the result are exactly the words of the input |
| TitleFormat.CollapseWhitespaceCollapses | src/services/ai.service.ts:160 | Collapsing keeps the same non-whitespace runs and leaves exactly one `' '` between two of them. A whitespace run at either end becomes one `' '` at that end. The first character is kept when it is not whitespace. It adds no `_` or `-`, and leaves single-spaced text as it is |
| TitleFormat.TrimTrims | src/services/ai.service.ts:160 | Trimming leaves no whitespace at either end and keeps the word characters. It keeps single spacing and the absence of `_` and `-`, and leaves trimmed text unchanged |
| TitleFormat.TrimKeepsRuns | src/services/ai.service.ts:160 | Trimming removes no word and splits none: the non-whitespace runs are the same before and after |
| TitleFormat.SkipSpacesPrefix | src/services/ai.service.ts:160 | The leading part that is dropped is all whitespace, and what is kept starts with a non-space |
| TitleFormat.TrimEndSuffix | src/services/ai.service.ts:160 | The trailing part that is dropped is all whitespace, and what is kept ends with a non-space |
| TitleFormat.CapitalizeWordsFormats | src/services/ai.service.ts:163-166 | Capitalising the words of a tidy string makes it normalised, without changing its word characters up to case |
| TitleFormat.TidyIsJoinedRuns | src/services/ai.service.ts:160-166 | A single-spaced, trimmed string is its words joined by single spaces |
| TitleFormat.TidySplitIsRuns | src/services/ai.service.ts:164-166 | `split(' ')` of a non-empty single-spaced, trimmed string gives exactly its words, in order. The empty string splits into `[""]` and has no words |
| TitleFormat.FormatTidyTitle | src/services/ai.service.ts:155-169 | When replacing `_` and `-` already gives single inner spaces, the only other change is capitalisation |
| TitleFormat.FormattedIsFixpoint | src/services/ai.service.ts:155-169 | A title already in normal form is returned unchanged |
| TitleFormat.FormatIdempotent | src/services/ai.service.ts:155-169 | Normalising twice gives the same as normalising once |
| Text.CapitalizeWords | src/services/ai.service.ts:163-166 | `split(' ')`, capitalise each chunk, `join(' ')`. The result has the input's length. Each character is upper-cased at the start of a space-delimited chunk and lower-cased elsewhere |
| Text.Split | src/services/ai.service.ts:164 | The chunks contain no separator, there is at least one, and joining them back with the separator gives the input |
| Text.SplitJoin | src/services/ai.service.ts:164-166 | Splitting a join on a separator that occurs in no part gives the parts back, in order |
| Text.DecimalStringInjective | src/services/ai.service.ts:198 | Different numbers render to different decimal strings |
| Tasks.TaskIdInjective | src/services/ai.service.ts:198 | `task-${n}` identifiers of different positions differ |
| ResponseParser.ParseTasksFromResponse | src/services/ai.service.ts:172-338 | Task i gets id `task-(i+1)` and priority 3. Every title is normalised. The optional fields stay unset. The list is empty exactly for an empty `tasks` array or an empty bare array |
| ResponseParser.Classify | src/services/ai.service.ts:181-254 | The layouts are tried in order. Reading `tasks` of `null` throws. An object with a `tasks` array is taken first, then a bare array, then the FIRST member (in enumeration order) holding a non-empty array. Anything else is unrecognised |
| ResponseParser.FormatTitleValue | src/services/ai.service.ts:199 | Formatting a title throws exactly when the value is not a string. A successful result is normalised |
| ResponseParser.MapItems | src/services/ai.service.ts:185-204 | The mapping throws exactly when some item throws. Otherwise it gives one task per item, in order, with item i numbered from the first ordinal plus i |
| ResponseParser.StrictShapeTasks | src/services/ai.service.ts:181-238 | Covers a `tasks` array and a bare array. The reply gives the error task if some item is `null` or has a truthy non-string `task`. Otherwise item i gives task i+1: titled by its `task`, or `Untitled Task`, and described by its `description`, or the default |
| ResponseParser.StrictItemOutcome | src/services/ai.service.ts:189-203 | A strict item throws exactly when it is `null` or has a truthy non-string `task`. Otherwise it gives the described task |
| ResponseParser.TasksPropertyWins | src/services/ai.service.ts:181-208 | An object's `tasks` array is used even when it is empty and other array members are not |
| ResponseParser.StrictItemIgnoresOtherFields | src/services/ai.service.ts:197-203 | Two items that agree on `task` and `description` give the same task |
| ResponseParser.LooseItemOutcome | src/services/ai.service.ts:257-285 | A loose item throws exactly when it is `null`, or an object whose first truthy field among `task`, `title`, `name`, `id` is not a string. A string is its own title. An object or array takes its title from that chain, else `Task n`, and its description from `description`, `desc`, `details`, else the default. Numbers and booleans are labelled `Task n` |
| ResponseParser.LooseShapeTasks | src/services/ai.service.ts:241-289 | The first non-empty array member gives at least one item. The reply gives the error task if some item throws, otherwise one loose task per item |
| ResponseParser.UnrecognizedFallback | src/services/ai.service.ts:292-322 | A reply of no known layout gives exactly the one fallback task |
| ResponseParser.FallbackTaskContents | src/services/ai.service.ts:299-309 | The fallback task is `task-1`, titled `Document Analysis`, with priority 3. A string reply is its description. Otherwise the default description is used, unless the reply is an object with string members |
| ResponseParser.StringMembers | src/services/ai.service.ts:312-314 | The filter keeps every string-valued member and nothing else. It is empty exactly when no member is a string |
| ResponseParser.StringMembersAppend | src/services/ai.service.ts:312-314 | The filter keeps a lone member exactly when it is a string, and filters a concatenation piece by piece, so the kept members stay in their order |
| ResponseParser.FallbackNamesStringMembers | src/services/ai.service.ts:311-318 | The description of an object with string members is `Document analysis: ` followed by `Key: value` for each string member, in order, joined by `", "`, with each key normalised. Each such entry occurs in the text |
| ResponseParser.FailuresYieldErrorTask | src/services/ai.service.ts:323-337 | Text that is not JSON, and the reply `null`, both give exactly the error task |
| ResponseParser.NullItemYieldsErrorTask | src/services/ai.service.ts:211-234 | `[null]` parses, but reading `task` of its item throws, so it gives exactly the error task |
| ResponseParser.EmptyArraysYieldNoTasks | src/services/ai.service.ts:181-238 | `{"tasks": []}` and `[]` give no task at all |
| ResponseParser.StringArrayIsUntitled | src/services/ai.service.ts:211-234 | A bare array of strings gives one `Untitled Task` per string, with the default description |
| ResponseParser.SingleTaskItem | src/services/ai.service.ts:215-233 | `[{"task": s}]` gives the one task `task-1`, titled `s` normalised |
| ResponseParser.SeparatorOnlyTitleIsEmpty | src/services/ai.service.ts:199 | A `task` made only of separators gives a task with an empty title |
| ResponseParser.SnakeCaseTitle | src/services/ai.service.ts:155-169 | `user_login` and `user-login` become `User Login` |
| ResponseParser.NestedUnknownShape | src/services/ai.service.ts:241-289 | `{"items": [{"title": s}], "meta": {}}` takes its one task from `items`, titled `s` normalised |
| ResponseParser.NumericIdThrows | src/services/ai.service.ts:270-271 | A loose item whose first truthy title field is a number makes `replace` throw, so the reply gives the error task |
| AiService.AnalyzeDocumentContent | src/services/ai.service.ts:66-152 | Progress 20 is always reported first. Progress 100 is reported exactly when the analysis succeeds |
| AiService.AnalysisOutcome | src/services/ai.service.ts:101-130 | The analysis succeeds exactly when the call answered with a non-empty content that parses. Its tasks are then the parsed tasks, and the summary is `Found n tasks.` with n their number. A failed call is rethrown with its reworded message |
| AiService.FailureMessage | src/services/ai.service.ts:140-150 | The three known causes are tested in order: `API key`, then `quota` or `rate limit`, then `model`. Each rethrown message identifies exactly one case. Anything else keeps its message, or `Unknown error`, behind the generic prefix |
| AiService.ReplyCheckFailures | src/services/ai.service.ts:104-117 | An empty content and a content that is not JSON both end up as generic failures carrying the check's own message |
| AiService.SuccessfulAnalysisTasks | src/services/ai.service.ts:111-130 | A successful analysis holds the interpreted tasks when the mapping does not throw, and the single error task when it does (a `TypeError`; the `SyntaxError` route cannot fire, since the reply already parsed). It holds no task exactly for the two empty-array replies |
| AiService.NullItemAnalysis | src/services/ai.service.ts:105-130 | The reply `[null]` passes both checks, and the analysis succeeds with the single error task and the summary `Found 1 tasks.` |
| AiService.SummaryDeterminesCount | src/services/ai.service.ts:129 | Different task counts never share a summary |
| DocumentController.FileFilter | src/controllers/document.controller.ts:13-25 | A rejected file carries the invalid-type message |
| DocumentController.FilterMatchesExtractor | src/controllers/document.controller.ts:14-24 | The filter admits exactly the three MIME types the extractor has a reader for |
| DocumentController.RejectedUploadResponse | src/controllers/document.controller.ts:22-24 | A rejected file reaches the error middleware and is answered with a 500 carrying the filter's message |
| DocumentController.ModelId | src/controllers/document.controller.ts:55 | The model id is `AI_MODEL` when it is non-empty, else `gpt-4` |
| DocumentController.AnalyzeDocument | src/controllers/document.controller.ts:28-68 | The stream always ends with exactly one terminal event (`complete` or `error`), and every event before it is a progress event |
| DocumentController.ProgressIsMonotone | src/controllers/document.controller.ts:28-68 | The progress percentages on one stream strictly increase |
| DocumentController.NoInputTrace | src/controllers/document.controller.ts:47-52 | Without a file and without a truthy `text`, the stream is the single error `No document or text provided` |
| DocumentController.ExtractionFailureTrace | src/controllers/document.controller.ts:43-46 | A failed extraction writes progress 10, then the extraction error |
| DocumentController.SuccessTrace | src/controllers/document.controller.ts:43-62 | A successful run writes progress 10 (uploads only), 20 and 100, then `complete` with the result. The summary counts the tasks |
| DocumentController.AnalysisFailureTrace | src/controllers/document.controller.ts:43-67 | The whole stream of a failing analysis: progress 10 only for an upload, then progress 20, then the reworded error |
| DocumentController.FileWinsOverBody | src/controllers/document.controller.ts:43-49 | When a file is uploaded, the body's `text` makes no difference |
| DocumentController.CallArguments | src/controllers/document.controller.ts:43-58 | The model receives the extracted text or the body's `text`, and the configured model id |
| ErrorMiddleware.ErrorHandler | src/middleware/error.middleware.ts:16-33 | The status is 429 exactly when the message mentions both `429` and `quota`, and then the texts are fixed. Otherwise it is 500 with `Failed to analyze document`, and the details are the message, or `Internal Server Error` when it is empty |
| ErrorMiddleware.NoFourIsPassedOn | src/middleware/error.middleware.ts:16-28 | A non-empty message without the digit 4 is passed on unchanged with status 500 |
| ErrorMiddleware.EmptyMessage | src/middleware/error.middleware.ts:26 | An empty message is reported as `Internal Server Error` |
| ExportController.ExportFormatChars | src/controllers/export.controller.ts:10-21 | Exactly the underscores and spaces come out as spaces. Every other character is upper-cased at the start of a word and lower-cased inside one. Hyphens and repeated or outer blanks are kept |
| ExportController.ExportFormatIdempotent | src/controllers/export.controller.ts:10-21 | Export formatting twice gives the same as once |
| ExportController.ExportKeepsFormattedTitles | src/controllers/export.controller.ts:10-21 | A title in the analyser's normal form passes through the export formatter unchanged |
| ExportController.ExportAfterAnalysis | src/controllers/export.controller.ts:58 | An analysed title is exported exactly as the analyser produced it |
| ExportController.AllValid | src/controllers/export.controller.ts:40-46 | The check answers true exactly when every task has truthy `id`, `title` and `description`. It throws exactly when a `null` task is reached before any task that fails |
| ExportController.AllValidStopsAt | src/controllers/export.controller.ts:40-46 | The check answers false at the first task that is missing a field, whatever follows it |
| ExportController.TaskRow | src/controllers/export.controller.ts:54-61 | A title that is not a string makes `replace` throw. Otherwise the row holds the id, the export-formatted title, the description, and `estimatedTime` or `''` |
| ExportController.TaskRows | src/controllers/export.controller.ts:54-62 | The mapping throws exactly when some title is not a string. Otherwise there is one row per task, in order |
| ExportController.ExportTasks | src/controllers/export.controller.ts:30-94 | A `null` body gives a 500 (`{ tasks }` of `null` throws). Otherwise: a 400 `Invalid tasks data` exactly when `tasks` is not an array; a 400 missing-fields exactly when the `every` check answers false; a 500 `Failed to export tasks to Excel` exactly when that check or the mapping throws (a throw of the workbook writer is not modelled). A workbook holds exactly the rows of the mapping |
| ExportController.WorkbookRows | src/controllers/export.controller.ts:54-62 | A workbook has one row per posted task, in order: its `id`, its export-formatted title, its `description`, and its `estimatedTime` or `''` |
| ExportController.EmptyListExports | src/controllers/export.controller.ts:34-62 | An empty `tasks` array passes the validation and gives a sheet without rows |
| ExportController.ExportRoundTrip | src/controllers/export.controller.ts:40-62 | Tasks with a non-empty id and title and a truthy description, posted back as JSON, export to their expected rows. Titles in normal form are kept verbatim |
| ExportController.SentBackRows | src/controllers/export.controller.ts:54-62 | Such tasks pass the validation, and the mapping gives their expected rows |
| ExportController.EmptyTitleBlocksExport | src/controllers/export.controller.ts:40-51 | A posted task with an empty title makes the whole export a 400 missing-fields response, when every task before it is valid |

## Left out

- The chat-completions call is a parameter (`ChatCall`). So are its prompts, temperature and token limit, because it is a network call.
- `JSON.parse` is a parameter (`Parser`), because the JSON grammar is not part of this core.
- Console logging is left out; it has no effect on results.
- The `.xlsx` workbook, its headers and `res.send` are left out; the export response is the list of rows.
- ExportController.ExportTasks: a throw from the workbook writer (`json_to_sheet`, `book_append_sheet`, `XLSX.write`, src/controllers/export.controller.ts:66-77) would also give the 500. The writer is a foreign library, so the model treats it as never failing.
- The server-sent-event framing and the response headers are left out; the stream is the list of events.
- multer's memory storage and its 10 MB size limit are left out, because they belong to the library.
- Text extraction (src/services/document.service.ts) is left out. It is an input: the extracted text, or the one wrapped error it throws.
- The module-load check that `OPENAI_API_KEY` is set is left out. It runs before any request.
- src/index.ts and src/routes/document.routes.ts are not part of this model. They only wire the handlers.
- The `timestamp` field of the error middleware's response is left out, because it depends on the clock.
- Text.Upper: `toUpperCase` and `toLowerCase` are modelled for ASCII letters only. Full Unicode case mapping (for example `ß` becoming `SS`, which changes the length) is not modelled.
- AiService.FailureMessage: only `Error` values and "anything else" are told apart. A thrown non-`Error` object that carries a `message` is treated as "anything else", as the source's `instanceof` test does.
- ExportController.ErrorDetails: the texts of V8's `TypeError` messages are taken as given, not derived.
- Js.Lookup: objects are assumed to have no duplicate keys, as `JSON.parse` output has none.
- A progress callback or `res.write` that throws is not modelled.
- Objects the analysis returns are assumed to have no prototype properties named like the fields read (`tasks`, `task`, `title`, …).

## Where the code and its comments differ

- The comment at src/services/ai.service.ts:122-123 says parsing always gives at least one task. The code returns none for `{"tasks": []}` and for `[]`. The model follows the code (`ResponseParser.EmptyArraysYieldNoTasks`), and the summary then reads `Found 0 tasks.`.
- A bare array of strings is handled by the strict rule of lines 211-234, not the loose one. Strings have no `task` property, so every string becomes an `Untitled Task` (`ResponseParser.StringArrayIsUntitled`).
- The check at src/services/ai.service.ts:110-117 parses the reply "to validate it", and the error task's description speaks of "an error parsing the AI response". Yet a reply that parses can still give that error task: for `[null]`, reading `task` of `null` throws a `TypeError`, which the parser's catch turns into the error task. The analysis then succeeds with `Found 1 tasks.` (`AiService.NullItemAnalysis`).
- A `task` made only of underscores, hyphens or blanks normalises to the empty title (`ResponseParser.SeparatorOnlyTitleIsEmpty`). The export endpoint then rejects the whole list with a 400 (`ExportController.EmptyTitleBlocksExport`).
