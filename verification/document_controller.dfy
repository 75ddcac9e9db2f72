/**
 * src/controllers/document.controller.ts: the upload filter, and the
 * `analyzeDocument` handler as the sequence of server-sent events it writes.
 * Text extraction (src/services/document.service.ts), the chat call and
 * `JSON.parse` are parameters; the event framing (`data: ...\n\n`) is not
 * modelled, only the events themselves.
 */
module DocumentController {
  import opened Wrappers
  import opened Js
  import opened Tasks
  import opened ResponseParser
  import opened AiService
  import opened ErrorMiddleware

  const PdfMime := "application/pdf"
  const DocxMime := "application/vnd.openxmlformats-officedocument.wordprocessingml.document"
  const TextMime := "text/plain"

  const AllowedMimes := [PdfMime, DocxMime, TextMime]

  /** The text is written as two literals so that the verifier can see, piece by piece, that it holds no `4`. */
  const InvalidFileTypeMessage := "Invalid file type. " + "Only PDF, DOCX, and TXT files are allowed."
  const ExtractionFailedMessage := "Failed to extract text from document"
  const NoInputMessage := "No document or text provided"
  const DefaultModel := "gpt-4"

  const Extracting := Progress(10, "Extracting text from document...")

  /**
   * The MIME types the extraction service has a reader for: the cases of
   * its `switch`; every other type makes it throw.
   */
  predicate ExtractorReads(mime: string) {
    mime == PdfMime || mime == DocxMime || mime == TextMime
  }

  /** multer's `fileFilter`: accept the file, or reject it with an error message. */
  function FileFilter(mime: string): (r: Result<bool, string>)
    ensures r.Success? ==> r.value
    ensures r.Failure? ==> r.error == InvalidFileTypeMessage
  {
    if mime in AllowedMimes then Success(true) else Failure(InvalidFileTypeMessage)
  }

  /**
   * The filter admits exactly the types the extractor can read, so an
   * uploaded file never reaches the extractor's `Unsupported file type` case.
   */
  lemma FilterMatchesExtractor(mime: string)
    ensures FileFilter(mime).Success? <==> ExtractorReads(mime)
  {
    if ExtractorReads(mime) {
      assert mime == AllowedMimes[0] || mime == AllowedMimes[1] || mime == AllowedMimes[2];
    }
  }

  /**
   * A file the filter rejects never reaches the handler: its error goes to
   * the error middleware, which answers 500 with the filter's message.
   */
  lemma RejectedUploadResponse(mime: string)
    requires !ExtractorReads(mime)
    ensures FileFilter(mime).Failure?
    ensures ErrorHandler(FileFilter(mime).error) == ErrorResponse(500, DefaultError, InvalidFileTypeMessage)
  {
    FilterMatchesExtractor(mime);
    assert '4' !in InvalidFileTypeMessage;
    NoFourIsPassedOn(InvalidFileTypeMessage);
  }

  /** What `extractTextFromDocument` produced: the text, or its one wrapped error. */
  datatype Extraction = Extracted(text: string) | ExtractionFailed

  /** `req.file` after the filter let it through: its type and what extracting it gives. */
  datatype Upload = Upload(mime: string, extraction: Extraction)

  /** The parts of the request the handler reads. `body` is the parsed body (an object as the body parsers give it). */
  datatype Request = Request(file: Option<Upload>, body: Json)

  /** The events written to the stream, in order. */
  datatype Event =
    | ProgressEvent(progress: int, message: string)
    | Complete(result: AnalysisResult)
    | ErrorEvent(error: string)

  predicate IsTerminal(e: Event) {
    !e.ProgressEvent?
  }

  function ToEvent(p: Progress): Event {
    ProgressEvent(p.percent, p.message)
  }

  function ToEvents(ps: seq<Progress>): (r: seq<Event>)
    ensures |r| == |ps|
    ensures forall i :: 0 <= i < |ps| ==> r[i] == ToEvent(ps[i])
  {
    seq(|ps|, i requires 0 <= i < |ps| => ToEvent(ps[i]))
  }

  /** `process.env.AI_MODEL || 'gpt-4'`. */
  function ModelId(aiModel: Option<string>): (r: string)
    ensures r != ""
    ensures aiModel.Some? && aiModel.value != "" ==> r == aiModel.value
  {
    if aiModel.Some? && aiModel.value != "" then aiModel.value else DefaultModel
  }

  /**
   * The document text, and the events written before it is known: the
   * uploaded file wins over `req.body.text`; a failed extraction, a null
   * body and a missing text end the handler with an error message.
   */
  function DocumentText(req: Request): (Option<Event>, Result<Json, string>) {
    match req.file
    case Some(upload) =>
      (Some(ToEvent(Extracting)),
       match upload.extraction
       case Extracted(text) => Success(Str(text))
       case ExtractionFailed => Failure(ExtractionFailedMessage))
    case None =>
      if req.body.Null? then (None, Failure(NullReadMessage("text")))
      else
        var text := Field(req.body, "text");
        if Truthy(text) then (None, Success(text.value)) else (None, Failure(NoInputMessage))
  }

  /**
   * `analyzeDocument(req, res)`: the events it writes before ending the
   * response. `aiModel` is the `AI_MODEL` environment variable.
   */
  function AnalyzeDocument(req: Request, aiModel: Option<string>, ask: ChatCall, parse: Parser): (events: seq<Event>)
    ensures |events| >= 1 && IsTerminal(events[|events| - 1])
    ensures forall i :: 0 <= i < |events| - 1 ==> !IsTerminal(events[i])
  {
    var (first, input) := DocumentText(req);
    var before := if first.Some? then [first.value] else [];
    match input
    case Failure(message) =>
      EndsWithTerminal(before, [], ErrorEvent(message));
      before + [] + [ErrorEvent(message)]
    case Success(text) =>
      var analysis := AnalyzeDocumentContent(text, ModelId(aiModel), ask, parse);
      var last := match analysis.outcome
        case Success(result) => Complete(result)
        case Failure(message) => ErrorEvent(message);
      EndsWithTerminal(before, ToEvents(analysis.progress), last);
      before + ToEvents(analysis.progress) + [last]
  }

  /** Progress events followed by one terminal event: only the last event ends the stream. */
  lemma EndsWithTerminal(before: seq<Event>, middle: seq<Event>, last: Event)
    requires forall e <- before :: e.ProgressEvent?
    requires forall e <- middle :: e.ProgressEvent?
    requires IsTerminal(last)
    ensures var events := before + middle + [last];
      && |events| >= 1 && IsTerminal(events[|events| - 1])
      && forall i :: 0 <= i < |events| - 1 ==> !IsTerminal(events[i])
  {
    var events := before + middle + [last];
    forall i | 0 <= i < |events| - 1
      ensures !IsTerminal(events[i])
    {
      if i < |before| {
        assert events[i] == before[i];
      } else {
        assert events[i] == middle[i - |before|];
      }
    }
  }

  /** The percentages reported on one stream strictly increase. */
  predicate ProgressIncreases(events: seq<Event>) {
    forall i, j :: 0 <= i < j < |events| && events[i].ProgressEvent? && events[j].ProgressEvent? ==>
      events[i].progress < events[j].progress
  }

  lemma ProgressIsMonotone(req: Request, aiModel: Option<string>, ask: ChatCall, parse: Parser)
    ensures ProgressIncreases(AnalyzeDocument(req, aiModel, ask, parse))
  {
    var events := AnalyzeDocument(req, aiModel, ask, parse);
    var (first, input) := DocumentText(req);
    var before := if first.Some? then [first.value] else [];
    assert before == [] || before == [ToEvent(Extracting)];
    if input.Success? {
      var analysis := AnalyzeDocumentContent(input.value, ModelId(aiModel), ask, parse);
      var middle := ToEvents(analysis.progress);
      var last := if analysis.outcome.Success? then Complete(analysis.outcome.value) else ErrorEvent(analysis.outcome.error);
      assert middle == [ToEvent(Started)] || middle == [ToEvent(Started), ToEvent(Finished)] by {
        AnalysisEvents(input.value, ModelId(aiModel), ask, parse);
      }
      assert events == before + middle + [last];
      IncreasingTrace(before, middle, last);
    } else {
      assert events == before + [] + [ErrorEvent(input.error)];
      IncreasingTrace(before, [], ErrorEvent(input.error));
    }
  }

  /** The analysis writes its first progress event, and its last one only when it succeeds. */
  lemma AnalysisEvents(text: Json, modelId: string, ask: ChatCall, parse: Parser)
    ensures var analysis := AnalyzeDocumentContent(text, modelId, ask, parse);
      var middle := ToEvents(analysis.progress);
      && (analysis.outcome.Success? ==> middle == [ToEvent(Started), ToEvent(Finished)])
      && (analysis.outcome.Failure? ==> middle == [ToEvent(Started)])
  {
    var analysis := AnalyzeDocumentContent(text, modelId, ask, parse);
    var middle := ToEvents(analysis.progress);
    if analysis.outcome.Success? {
      assert middle[0] == ToEvent(Started) && middle[1] == ToEvent(Finished);
    } else {
      assert middle[0] == ToEvent(Started);
    }
  }

  /** The extraction step, then the analysis steps, then one terminal event: the percentages increase. */
  lemma IncreasingTrace(before: seq<Event>, middle: seq<Event>, last: Event)
    requires before == [] || before == [ToEvent(Extracting)]
    requires middle == [] || middle == [ToEvent(Started)] || middle == [ToEvent(Started), ToEvent(Finished)]
    requires IsTerminal(last)
    ensures ProgressIncreases(before + middle + [last])
  {
    var events := before + middle + [last];
    var n := |before|;
    forall i, j | 0 <= i < j < |events| && events[i].ProgressEvent? && events[j].ProgressEvent?
      ensures events[i].progress < events[j].progress
    {
      assert j < |events| - 1;
      assert events[j] == middle[j - n];
      if i < n {
        assert events[i] == ToEvent(Extracting);
      } else {
        assert events[i] == middle[i - n];
      }
    }
  }

  /** Without a file and without a truthy `text` in the body, a single error event is written. */
  lemma NoInputTrace(req: Request, aiModel: Option<string>, ask: ChatCall, parse: Parser)
    requires req.file.None? && !req.body.Null? && !Truthy(Field(req.body, "text"))
    ensures AnalyzeDocument(req, aiModel, ask, parse) == [ErrorEvent(NoInputMessage)]
  {
  }

  /** An upload whose extraction fails writes the extraction progress, then the extraction error. */
  lemma ExtractionFailureTrace(req: Request, aiModel: Option<string>, ask: ChatCall, parse: Parser)
    requires req.file.Some? && req.file.value.extraction.ExtractionFailed?
    ensures AnalyzeDocument(req, aiModel, ask, parse) ==
      [ProgressEvent(10, "Extracting text from document..."), ErrorEvent(ExtractionFailedMessage)]
  {
  }

  /**
   * A successful run: the text goes to the model named by `AI_MODEL` (or
   * `gpt-4`), and the stream is the progress events then one `complete`
   * event whose summary counts its tasks.
   */
  lemma SuccessTrace(req: Request, aiModel: Option<string>, ask: ChatCall, parse: Parser)
    requires DocumentText(req).1.Success?
    requires AnalyzeDocumentContent(DocumentText(req).1.value, ModelId(aiModel), ask, parse).outcome.Success?
    ensures var events := AnalyzeDocument(req, aiModel, ask, parse);
      var result := AnalyzeDocumentContent(DocumentText(req).1.value, ModelId(aiModel), ask, parse).outcome.value;
      && events[|events| - 1] == Complete(result)
      && result.summary == Summary(|result.tasks|)
      && events[..|events| - 1] ==
           (if req.file.Some? then [ProgressEvent(10, "Extracting text from document...")] else [])
           + [ProgressEvent(20, "Processing document..."), ProgressEvent(100, "Analysis complete!")]
  {
    var text := DocumentText(req).1.value;
    AnalysisOutcome(text, ModelId(aiModel), ask, parse);
    AnalysisEvents(text, ModelId(aiModel), ask, parse);
  }

  /**
   * A failing analysis ends the stream with the reworded error, right after
   * the first analysis progress; progress 10 comes first only for an upload.
   */
  lemma AnalysisFailureTrace(req: Request, aiModel: Option<string>, ask: ChatCall, parse: Parser)
    requires DocumentText(req).1.Success?
    requires AnalyzeDocumentContent(DocumentText(req).1.value, ModelId(aiModel), ask, parse).outcome.Failure?
    ensures var message := AnalyzeDocumentContent(DocumentText(req).1.value, ModelId(aiModel), ask, parse).outcome.error;
      AnalyzeDocument(req, aiModel, ask, parse) ==
        (if req.file.Some? then [ProgressEvent(10, "Extracting text from document...")] else [])
        + [ProgressEvent(20, "Processing document..."), ErrorEvent(message)]
  {
    var text := DocumentText(req).1.value;
    AnalysisOutcome(text, ModelId(aiModel), ask, parse);
    AnalysisEvents(text, ModelId(aiModel), ask, parse);
  }

  /** An uploaded file wins: the body's `text` is not looked at when a file is present. */
  lemma FileWinsOverBody(file: Upload, a: Json, b: Json, aiModel: Option<string>, ask: ChatCall, parse: Parser)
    ensures AnalyzeDocument(Request(Some(file), a), aiModel, ask, parse) ==
            AnalyzeDocument(Request(Some(file), b), aiModel, ask, parse)
  {
  }

  /** The call receives the extracted text, or the body's `text`, and the configured model id. */
  lemma CallArguments(req: Request, aiModel: Option<string>)
    requires DocumentText(req).1.Success?
    ensures var text := DocumentText(req).1.value;
      && (req.file.Some? ==> text == Str(req.file.value.extraction.text))
      && (req.file.None? ==> Some(text) == Field(req.body, "text"))
      && ModelId(aiModel) == (if aiModel.Some? && aiModel.value != "" then aiModel.value else "gpt-4")
  {
  }
}
