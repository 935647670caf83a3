/** The `POST /analyze` handler: which input it takes, how it validates it, and how every
    exception becomes an HTTP status. Routing, reading the upload and building the pydantic
    response are not part of this model; an upload is its file name with what its bytes
    decode to, and the response is either the analysis or an error status with its detail. */
module Api {
  import opened Results
  import opened PyStr
  import opened Json
  import opened TextCleaning
  import opened FileProcessor
  import opened AiService

  /** An uploaded file: its name and what its bytes decode to. */
  datatype Upload = Upload(filename: string, content: Content)

  /** The multipart form: an optional file and an optional `text` field. */
  datatype Request = Request(file: Option<Upload>, text: Option<string>)

  /** What the handler body raises: an `HTTPException` it raises itself, or an exception from
      the file processor or the AI service. */
  datatype Raised =
    | HttpError(status: int, detail: string)
    | FileFailed(fileError: FileError)
    | AnalysisFailed(analysisError: AnalysisError)

  /** The endpoint's answer: the summary and the nationalities handed to `AnalysisResponse`,
      or an error status with its `detail`. Building the pydantic response is not modelled
      here, so `Analyzed` stands for what the handler passes to that constructor. */
  datatype Response =
    | Analyzed(summary: string, nationalities: set<string>)
    | ErrorResponse(status: int, detail: string)

  /** The fewest characters a stripped article may have. */
  const MinArticleLength := 50

  const MissingInput := "Either file or text must be provided"
  const UnsupportedFile := "Only .txt and .docx files are supported"
  const TooShort := "Article text is too short (minimum 50 characters required)"
  const ProcessingError := "An error occurred while processing the article"

  /** `file or text`: an upload, or a `text` field that is not empty. */
  predicate HasInput(req: Request) {
    req.file.Some? || (req.text.Some? && req.text.value != [])
  }

  /** The suffix check made before an upload is read. */
  predicate AcceptedName(filename: string) {
    EndsWith(Lower(filename), ".txt") || EndsWith(Lower(filename), ".docx")
  }

  /** The article the handler analyses, once it knows there is some input: the processed
      upload when there is one, and the `text` field unchanged otherwise. */
  function ArticleText(req: Request): Result<string, Raised>
    requires HasInput(req)
  {
    match req.file
    case Some(upload) =>
      if !AcceptedName(upload.filename) then Failure(HttpError(400, UnsupportedFile))
      else (match ProcessedText(upload.filename, upload.content)
            case Success(text) => Success(text)
            case Failure(e) => Failure(FileFailed(e)))
    case None => Success(req.text.value)
  }

  /** The length check on the article and the call to the AI service. */
  function AnalyzeText(article: string, backend: (Task, string) -> Completion, parse: string -> Option<Json>)
    : Result<(string, set<string>), Raised>
  {
    if article == [] || |Strip(article)| < MinArticleLength then Failure(HttpError(400, TooShort))
    else match AnalyzeArticle(backend, parse, article)
      case Success(result) => Success(result)
      case Failure(e) => Failure(AnalysisFailed(e))
  }

  /** The body of the `try` block: the analysis, or what it raises. */
  function Handle(req: Request, backend: (Task, string) -> Completion, parse: string -> Option<Json>)
    : Result<(string, set<string>), Raised>
  {
    if !HasInput(req) then Failure(HttpError(400, MissingInput))
    else match ArticleText(req)
      case Failure(e) => Failure(e)
      case Success(article) => AnalyzeText(article, backend, parse)
  }

  /** The `except` clauses: an `HTTPException` passes through with its status and detail,
      anything else becomes a 500 with a generic detail. */
  function ToResponse(outcome: Result<(string, set<string>), Raised>): Response {
    match outcome
    case Success((summary, names)) => Analyzed(summary, names)
    case Failure(HttpError(status, detail)) => ErrorResponse(status, detail)
    case Failure(_) => ErrorResponse(500, ProcessingError)
  }

  /** The outcome of `POST /analyze`: the analysis handed to `AnalysisResponse`, or the error
      status the `except` clauses give. */
  function AnalyzeEndpoint(req: Request, backend: (Task, string) -> Completion, parse: string -> Option<Json>)
    : Response
  {
    ToResponse(Handle(req, backend, parse))
  }

  // ---------------------------------------------------------------------------
  // Validation

  /** The missing-input error is answered exactly when there is neither a file nor a
      non-empty `text` field. */
  lemma MissingInputRejected(req: Request, backend: (Task, string) -> Completion, parse: string -> Option<Json>)
    ensures AnalyzeEndpoint(req, backend, parse) == ErrorResponse(400, MissingInput) <==> !HasInput(req)
  {
    assert |MissingInput| != |UnsupportedFile| && |MissingInput| != |TooShort| && |MissingInput| != |ProcessingError|;
  }

  /** Two requests with input and the same article text get the same answer. */
  lemma SameArticleSameAnswer(req: Request, other: Request,
                              backend: (Task, string) -> Completion, parse: string -> Option<Json>)
    requires HasInput(req) && HasInput(other) && ArticleText(req) == ArticleText(other)
    ensures AnalyzeEndpoint(req, backend, parse) == AnalyzeEndpoint(other, backend, parse)
  {
    assert Handle(req, backend, parse) == Handle(other, backend, parse);
  }

  /** With an upload present, the `text` field is ignored. */
  lemma FileTakesPrecedence(req: Request, text: Option<string>,
                            backend: (Task, string) -> Completion, parse: string -> Option<Json>)
    requires req.file.Some?
    ensures AnalyzeEndpoint(req, backend, parse) == AnalyzeEndpoint(req.(text := text), backend, parse)
  {
    assert ArticleText(req) == ArticleText(req.(text := text));
    SameArticleSameAnswer(req, req.(text := text), backend, parse);
  }

  /** An upload whose lower-cased name ends in neither `.txt` nor `.docx` is refused with 400,
      whatever its bytes: it is refused before it is read. */
  lemma UnsupportedFileRejectedUnread(req: Request, content: Content,
                                      backend: (Task, string) -> Completion, parse: string -> Option<Json>)
    requires req.file.Some? && !AcceptedName(req.file.value.filename)
    ensures AnalyzeEndpoint(req, backend, parse) == ErrorResponse(400, UnsupportedFile)
    ensures AnalyzeEndpoint(req.(file := Some(req.file.value.(content := content))), backend, parse)
      == ErrorResponse(400, UnsupportedFile)
  {
  }

  /** The suffix check and `process_file`'s dispatch agree: a name the check accepts is sent
      to the handler its suffix names, never refused as unsupported. The dispatch accepts
      exactly two names more, the bare `txt` and `docx`. */
  lemma AcceptedNameIsDispatched(filename: string)
    ensures EndsWith(Lower(filename), ".txt") ==> Dispatch(filename) == Success(PlainText)
    ensures EndsWith(Lower(filename), ".docx") ==> Dispatch(filename) == Success(WordDocument)
    ensures Dispatch(filename).Success? <==>
      AcceptedName(filename) || Lower(filename) == "txt" || Lower(filename) == "docx"
  {
    DispatchSpec(filename);
  }

  /** An article shorter than the minimum once stripped is refused with 400, and the AI
      service is not consulted: any other backend gets the same answer. */
  lemma ShortArticleRejected(req: Request, backend: (Task, string) -> Completion, parse: string -> Option<Json>,
                             other: (Task, string) -> Completion, otherParse: string -> Option<Json>)
    requires HasInput(req) && ArticleText(req).Success?
    requires |Strip(ArticleText(req).value)| < MinArticleLength
    ensures AnalyzeEndpoint(req, backend, parse) == ErrorResponse(400, TooShort)
    ensures AnalyzeEndpoint(req, other, otherParse) == ErrorResponse(400, TooShort)
  {
  }

  /** Text from the form is analysed exactly as given, without cleaning: for a long enough
      text, the analysis handed to `AnalysisResponse` holds the summary of the backend's
      completion for that very text and the nationalities extracted for it. */
  lemma RawTextForwarded(text: string, backend: (Task, string) -> Completion, parse: string -> Option<Json>)
    requires |Strip(text)| >= MinArticleLength
    ensures var r := AnalyzeEndpoint(Request(None, Some(text)), backend, parse);
      && (r.Analyzed? <==> backend(Summarize, text).Completed?)
      && (r.Analyzed? ==> r.summary == Strip(backend(Summarize, text).content) &&
                          r.nationalities == ExtractNationalities(backend, parse, text))
      && (!r.Analyzed? ==> r == ErrorResponse(500, ProcessingError))
  {
    assert text != [];
  }

  /** An accepted upload reaches the AI service as clean text; only Word documents can fail
      to process, and their failure is answered with a 500. */
  lemma UploadedArticle(req: Request, backend: (Task, string) -> Completion, parse: string -> Option<Json>)
    requires req.file.Some? && AcceptedName(req.file.value.filename)
    ensures var upload := req.file.value;
      && (ArticleText(req).Success? ==> Clean(ArticleText(req).value) == ArticleText(req).value)
      && (ArticleText(req).Failure? ==>
            Dispatch(upload.filename) == Success(WordDocument) &&
            ArticleText(req).error.FileFailed? &&
            ArticleText(req).error.fileError in {DocumentUnreadable, NoTextInDocument} &&
            AnalyzeEndpoint(req, backend, parse) == ErrorResponse(500, ProcessingError))
  {
    if ArticleText(req).Success? {
      UploadedArticleIsClean(req);
    } else {
      UploadFailureIsWordDocument(req);
    }
  }

  lemma UploadedArticleIsClean(req: Request)
    requires req.file.Some? && AcceptedName(req.file.value.filename)
    requires ArticleText(req).Success?
    ensures Clean(ArticleText(req).value) == ArticleText(req).value
  {
    ProcessedTextIsClean(req.file.value.filename, req.file.value.content);
  }

  lemma UploadFailureIsWordDocument(req: Request)
    requires req.file.Some? && AcceptedName(req.file.value.filename)
    requires ArticleText(req).Failure?
    ensures Dispatch(req.file.value.filename) == Success(WordDocument)
    ensures ArticleText(req).error.FileFailed?
    ensures ArticleText(req).error.fileError in {DocumentUnreadable, NoTextInDocument}
  {
    var upload := req.file.value;
    AcceptedNameIsDispatched(upload.filename);
    ProcessedTextErrors(upload.filename, upload.content);
  }

  // ---------------------------------------------------------------------------
  // Outcomes

  /** Every error the endpoint answers is one of the three validation failures, with 400, or
      the generic processing failure, with 500. */
  lemma ErrorStatuses(req: Request, backend: (Task, string) -> Completion, parse: string -> Option<Json>)
    ensures var r := AnalyzeEndpoint(req, backend, parse);
      r.ErrorResponse? ==>
        (r.status == 400 && r.detail in {MissingInput, UnsupportedFile, TooShort}) ||
        (r == ErrorResponse(500, ProcessingError))
  {
  }

  /** The analysis handed to `AnalysisResponse` is produced exactly when there is input, the
      article text is obtained, it is long enough once stripped, and the summary completion
      succeeds; the summary is then that completion's stripped content. Past validation, any
      failure is a 500. */
  lemma SuccessIff(req: Request, backend: (Task, string) -> Completion, parse: string -> Option<Json>)
    ensures var r := AnalyzeEndpoint(req, backend, parse);
      r.Analyzed? <==>
        HasInput(req) && ArticleText(req).Success? &&
        |Strip(ArticleText(req).value)| >= MinArticleLength &&
        backend(Summarize, ArticleText(req).value).Completed?
    ensures var r := AnalyzeEndpoint(req, backend, parse);
      r.Analyzed? ==> StrippedFrom(r.summary, backend(Summarize, ArticleText(req).value).content)
    ensures var r := AnalyzeEndpoint(req, backend, parse);
      HasInput(req) && ArticleText(req).Success? &&
      |Strip(ArticleText(req).value)| >= MinArticleLength && !r.Analyzed? ==>
        r == ErrorResponse(500, ProcessingError)
  {
    if HasInput(req) && ArticleText(req).Success? {
      var article := ArticleText(req).value;
      GenerateSummarySpec(backend, article);
    }
  }
}
