/**
 * `analyzeDocumentContent` of src/services/ai.service.ts without the
 * network: the chat-completions call and the `JSON.parse` built-in are
 * parameters. What is modelled is what the function does with
 * them: the progress it reports, the two checks on the reply, the hand-over
 * to the task parser, the summary, and how a failure is reworded before it
 * is rethrown.
 */
module AiService {
  import opened Wrappers
  import opened Text
  import opened Js
  import opened Tasks
  import opened ResponseParser

  /** A value caught by a `catch` block: an `Error` with its message, or anything else. */
  datatype Thrown = ErrorValue(message: string) | OtherValue

  /**
   * What the chat-completions call gave back: the content of the first
   * choice (`None` when that is `null` or missing), or what it threw.
   */
  datatype Completion = Answered(content: Option<string>) | CallFailed(thrown: Thrown)

  /** One call of the `onProgress` callback. */
  datatype Progress = Progress(percent: int, message: string)

  /** The progress reported, and either the result or the message of the error rethrown. */
  datatype Analysis = Analysis(progress: seq<Progress>, outcome: Result<AnalysisResult, string>)

  /** The `JSON.parse` built-in, which this model does not implement. */
  type Parser = string -> Result<Json, ParseError>

  /**
   * The chat-completions call, given the document text and the model id.
   * The text is whatever the controller passes, which need not be a string.
   */
  type ChatCall = (Json, string) -> Completion

  const Started := Progress(20, "Processing document...")
  const Finished := Progress(100, "Analysis complete!")

  const EmptyContentMessage := "OpenAI response content is empty"
  const InvalidJsonMessage := "OpenAI response is not valid JSON"

  const OpenAiApi := "OpenAI API "
  const CheckConfiguration := ". Please check your configuration."
  const ApiKeyMessage := OpenAiApi + "key is invalid or missing" + CheckConfiguration
  const QuotaMessage := OpenAiApi + "quota exceeded or rate limit reached" + ". Please try again later."
  const InvalidModelPrefix := "Invalid model ID: "
  const GenericPrefix := "Failed to analyze document with AI: "
  const UnknownError := "Unknown error"

  predicate MentionsApiKey(t: Thrown) {
    t.ErrorValue? && Contains(t.message, "API key")
  }

  predicate MentionsQuota(t: Thrown) {
    t.ErrorValue? && (Contains(t.message, "quota") || Contains(t.message, "rate limit"))
  }

  predicate MentionsModel(t: Thrown) {
    t.ErrorValue? && Contains(t.message, "model")
  }

  /**
   * The message of the error the `catch` block rethrows. The three known
   * causes are tested in order, so each message identifies exactly one
   * case; anything else is wrapped with a generic prefix.
   */
  function FailureMessage(t: Thrown, modelId: string): (r: string)
    ensures r == ApiKeyMessage <==> MentionsApiKey(t)
    ensures r == QuotaMessage <==> !MentionsApiKey(t) && MentionsQuota(t)
    ensures InvalidModelPrefix <= r <==> !MentionsApiKey(t) && !MentionsQuota(t) && MentionsModel(t)
    ensures GenericPrefix <= r <==> !MentionsApiKey(t) && !MentionsQuota(t) && !MentionsModel(t)
    ensures InvalidModelPrefix <= r ==> r == InvalidModelPrefix + modelId + CheckConfiguration
    ensures GenericPrefix <= r ==> r[|GenericPrefix|..] == if t.ErrorValue? then t.message else UnknownError
  {
    FailureMessagesDistinct(if t.ErrorValue? then t.message else UnknownError, modelId);
    if MentionsApiKey(t) then ApiKeyMessage
    else if MentionsQuota(t) then QuotaMessage
    else if MentionsModel(t) then InvalidModelPrefix + modelId + CheckConfiguration
    else GenericPrefix + (if t.ErrorValue? then t.message else UnknownError)
  }

  /** The four kinds of rethrown message start differently, so none can be taken for another. */
  lemma FailureMessagesDistinct(m: string, modelId: string)
    ensures ApiKeyMessage != QuotaMessage
    ensures !(InvalidModelPrefix <= ApiKeyMessage) && !(GenericPrefix <= ApiKeyMessage)
    ensures !(InvalidModelPrefix <= QuotaMessage) && !(GenericPrefix <= QuotaMessage)
    ensures var g := GenericPrefix + m;
      g != ApiKeyMessage && g != QuotaMessage && !(InvalidModelPrefix <= g)
    ensures var i := InvalidModelPrefix + modelId + CheckConfiguration;
      i != ApiKeyMessage && i != QuotaMessage && !(GenericPrefix <= i)
  {
    assert ApiKeyMessage[11] == 'k' && QuotaMessage[11] == 'q';
    assert ApiKeyMessage[0] == QuotaMessage[0] == 'O';
    assert InvalidModelPrefix[0] == 'I' && GenericPrefix[0] == 'F';
    assert (GenericPrefix + m)[0] == 'F';
    assert (InvalidModelPrefix + modelId + CheckConfiguration)[0] == 'I';
  }

  /** The text of the first choice: `content || ''`. */
  function ContentText(content: Option<string>): string {
    if content.Some? then content.value else ""
  }

  /** `Found ${n} tasks.` */
  function Summary(count: nat): string {
    "Found " + DecimalString(count) + " tasks."
  }

  /**
   * `analyzeDocumentContent(text, modelId, onProgress)`: progress 20 first;
   * on success progress 100 and the parsed tasks with their count;
   * otherwise the reworded error.
   */
  function AnalyzeDocumentContent(text: Json, modelId: string, ask: ChatCall, parse: Parser): (r: Analysis)
    ensures r.outcome.Success? ==> r.progress == [Started, Finished]
    ensures r.outcome.Failure? ==> r.progress == [Started]
  {
    match ask(text, modelId)
    case CallFailed(thrown) =>
      Analysis([Started], Failure(FailureMessage(thrown, modelId)))
    case Answered(content) =>
      var reply := ContentText(content);
      if reply == "" then
        Analysis([Started], Failure(FailureMessage(ErrorValue(EmptyContentMessage), modelId)))
      else if parse(reply).Failure? then
        Analysis([Started], Failure(FailureMessage(ErrorValue(InvalidJsonMessage), modelId)))
      else
        var tasks := ParseTasksFromResponse(parse(reply));
        Analysis([Started, Finished], Success(AnalysisResult(tasks, Summary(|tasks|))))
  }

  /**
   * The analysis succeeds exactly when the call answered with a non-empty
   * text that parses; its tasks are then the parsed tasks, counted in the
   * summary. A failed call is reported with its reworded message.
   */
  lemma AnalysisOutcome(text: Json, modelId: string, ask: ChatCall, parse: Parser)
    ensures var r := AnalyzeDocumentContent(text, modelId, ask, parse);
      var c := ask(text, modelId);
      && (r.outcome.Success? <==> c.Answered? && ContentText(c.content) != "" && parse(ContentText(c.content)).Success?)
      && (r.outcome.Success? ==>
            var tasks := r.outcome.value.tasks;
            && r.outcome.value.summary == Summary(|tasks|)
            && tasks == ParseTasksFromResponse(parse(ContentText(c.content))))
      && (c.CallFailed? ==> r.outcome == Failure(FailureMessage(c.thrown, modelId)))
  {
  }

  /** An empty reply and a reply that is not JSON both surface as generic failures. */
  lemma ReplyCheckFailures(text: Json, modelId: string, ask: ChatCall, parse: Parser)
    requires ask(text, modelId).Answered?
    ensures var reply := ContentText(ask(text, modelId).content);
      var outcome := AnalyzeDocumentContent(text, modelId, ask, parse).outcome;
      && (reply == "" ==> outcome == Failure(GenericPrefix + EmptyContentMessage))
      && (reply != "" && parse(reply).Failure? ==> outcome == Failure(GenericPrefix + InvalidJsonMessage))
  {
    EmptyContentIsGeneric(modelId);
    InvalidJsonIsGeneric(modelId);
  }

  lemma EmptyContentIsGeneric(modelId: string)
    ensures FailureMessage(ErrorValue(EmptyContentMessage), modelId) == GenericPrefix + EmptyContentMessage
  {
    assert 'k' !in EmptyContentMessage && 'q' !in EmptyContentMessage && 'l' !in EmptyContentMessage;
    PlainFailureIsGeneric(EmptyContentMessage, modelId);
  }

  lemma InvalidJsonIsGeneric(modelId: string)
    ensures FailureMessage(ErrorValue(InvalidJsonMessage), modelId) == GenericPrefix + InvalidJsonMessage
  {
    assert 'k' !in InvalidJsonMessage && 'q' !in InvalidJsonMessage && 'm' !in InvalidJsonMessage;
    PlainFailureIsGeneric(InvalidJsonMessage, modelId);
  }

  /** A message that cannot mention any of the three causes is only wrapped. */
  lemma PlainFailureIsGeneric(m: string, modelId: string)
    requires 'k' !in m && 'q' !in m && ('l' !in m || 'm' !in m)
    ensures FailureMessage(ErrorValue(m), modelId) == GenericPrefix + m
  {
    MissingCharNotContained(m, "API key", 'k');
    MissingCharNotContained(m, "quota", 'q');
    var c := if 'l' !in m then 'l' else 'm';
    MissingCharNotContained(m, "rate limit", c);
    MissingCharNotContained(m, "model", c);
  }

  /**
   * The reply is parsed twice with the same built-in, and the first parse
   * already succeeded, so the `SyntaxError` route of the parser never
   * fires here. A `TypeError` while mapping the items still gives the error
   * task, inside a successful analysis. Otherwise the tasks are the
   * interpreted ones, and there are none only for an empty `tasks` array or
   * an empty bare array.
   */
  lemma SuccessfulAnalysisTasks(text: Json, modelId: string, ask: ChatCall, parse: Parser)
    requires AnalyzeDocumentContent(text, modelId, ask, parse).outcome.Success?
    ensures var reply := ContentText(ask(text, modelId).content);
      var tasks := AnalyzeDocumentContent(text, modelId, ask, parse).outcome.value.tasks;
      && parse(reply).Success?
      && tasks == (if Interpret(parse(reply).value).Success? then Interpret(parse(reply).value).value else [ErrorTask])
      && (|tasks| == 0 <==> parse(reply).value == Arr([]) || Field(parse(reply).value, "tasks") == Some(Arr([])))
  {
    var reply := ContentText(ask(text, modelId).content);
    AnalysisOutcome(text, modelId, ask, parse);
    ParsedReply(parse(reply).value);
  }

  /**
   * The reply `[null]` passes both checks on the reply, and the parser then
   * reads `task` of `null`: the analysis succeeds with the single error
   * task and reports one task found.
   */
  lemma NullItemAnalysis(text: Json, modelId: string, ask: ChatCall, parse: Parser)
    requires ask(text, modelId) == Answered(Some("[null]"))
    requires parse("[null]") == Success(Arr([Null]))
    ensures AnalyzeDocumentContent(text, modelId, ask, parse).outcome ==
      Success(AnalysisResult([ErrorTask], Summary(1)))
  {
    NullItemYieldsErrorTask();
  }

  /** The summary determines the number of tasks: different counts never share a summary. */
  lemma SummaryDeterminesCount(a: nat, b: nat)
    requires Summary(a) == Summary(b)
    ensures a == b
  {
    var sa, sb := Summary(a), Summary(b);
    assert DecimalString(a) == sa[6..|sa| - 7];
    assert DecimalString(b) == sb[6..|sb| - 7];
    DecimalStringInjective(a, b);
  }
}
