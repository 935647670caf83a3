# AI news analyzer: the article pipeline in Dafny

This project models the sequential logic of the AI news analyzer backend, which sits around its two remote
language-model calls. It has three parts:

- **`FileProcessor`** turns an uploaded file into article text.
  - It dispatches on the extension.
  - A `.txt` file goes through an ordered decoder fallback.
  - A `.docx` file has its non-blank paragraphs and table cells collected.
  - Either way the text goes through the whitespace normaliser `_clean_text`.
- **`AIService`** makes two completions. It takes the stripped summary from one and a deduplicated list of
  nationalities from the other. Every failure of the second yields an empty list.
- **The `POST /analyze` handler** validates the request (missing input, unsupported file name, article too
  short) and maps every exception to an HTTP status.

The modules are:

- `Results`: `Option` and `Result`.
- `PyStr`: the Python `str` operations the code relies on.
  - `isspace` is written out as a code-point set.
  - The file also models `strip`, `split(d)`, `split()`, `join`, `replace`, `lower`, `endswith` and `in`.
- `TextCleaning`: `_clean_text`.
  - `Clean` is its specification.
  - The method `CleanText` keeps the routine's `for` and `while` loops.
- `FileProcessor`: the dispatch, the decoder search (the method `ProcessTextFile`), the nested collection
  loops of the Word handler, and `ProcessFile`.
- `Json`: JSON values as in section 3 of RFC 8259.
- `AiService`: the completion handling. The remote model is a parameter `backend`, and `json.loads` is a
  parameter `parse`.
- `Api`: the handler, written as a pure function from the request and the service outcomes to a response.

Three behaviours of the code are easy to misread:

- The code extracts **one flat list** of nationalities and countries, from a JSON array.
- One element that is not a string empties the whole list.
- `_clean_text` drops every empty line before it joins the lines with single newlines. Its output therefore
  has **no blank lines at all**. `CleanHasNoBlankLine` proves this. The `"\n\n"` that the Word handler puts
  between parts does not survive cleaning either.

## Model

| member | source | states |
|---|---|---|
| PyStr.StripSpec | app/services/file_processor.py:117 | `strip()` removes exactly the whitespace at both ends. The result is a slice of the input with only whitespace around it, and it neither starts nor ends with whitespace. The result is empty exactly when the input is blank. |
| PyStr.StripIdempotent | app/services/file_processor.py:117 | Stripping a stripped string changes nothing. |
| PyStr.Split | app/services/file_processor.py:105 | `split(d)` always yields at least one piece. |
| PyStr.SplitSpec | app/services/file_processor.py:105 | No piece contains the separator. There are two or more pieces exactly when the separator occurs. |
| PyStr.JoinSplit | app/services/file_processor.py:105-111 | Joining the pieces of a split with the separator gives the string back. |
| PyStr.SplitJoin | app/services/file_processor.py:105-111 | Splitting the join of a non-empty list of separator-free pieces gives the pieces back. |
| PyStr.SplitLast | app/services/file_processor.py:27 | The last piece of `split('.')` is the longest dot-free suffix. When it is shorter than the string, a dot precedes it. |
| PyStr.LeadingWord | app/services/file_processor.py:106 | The first word is a whitespace-free prefix that stops at whitespace. It is non-empty when the string starts with a non-space. |
| PyStr.WordsAreWords | app/services/file_processor.py:106 | Every piece of `split()` is a non-empty run of non-whitespace. |
| PyStr.Replace | app/services/file_processor.py:114-115 | Replacing a pattern by a shorter string never lengthens the text and strictly shortens it when the pattern occurs. A text without the pattern is unchanged. So the `while` loop terminates. |
| PyStr.Lower | app/main.py:69 | Definition of the ASCII model of `lower()`. Its properties are stated by `PyStr.LowerSpec`. |
| PyStr.LowerSpec | app/main.py:69 | The ASCII model of `lower()` leaves no upper-case letter and changes no other character. A string is its own lowering exactly when it has no upper-case letter. Lowering twice is lowering once. |
| PyStr.Strip | app/services/file_processor.py:117 | Definition of `strip()`. Its properties are stated by `PyStr.StripSpec` and `PyStr.StripIdempotent`. |
| PyStr.Join | app/services/file_processor.py:111 | Definition of `sep.join(parts)`. Its properties are stated by `PyStr.JoinSplit` and `PyStr.SplitJoin`. |
| PyStr.Words | app/services/file_processor.py:106 | Definition of the no-argument `split()`. Its properties are stated by `PyStr.WordsAreWords`, `TextCleaning.WordsOfJoin` and `TextCleaning.WordsEmptyIffBlank`. |
| PyStr.IsSpace | app/services/file_processor.py:106 | Definition of `isspace`, the whitespace that the no-argument `split()` and `strip()` use, as a set of code points. Its consequences are stated by `PyStr.StripSpec`, `PyStr.WordsAreWords` and `TextCleaning.WordsEmptyIffBlank`. |
| PyStr.Contains | app/services/file_processor.py:114 | Definition of `pat in s`: the pattern occurs at some position. Its properties are stated by `PyStr.Replace`, `TextCleaning.NoBlankLineNoTriple` and `TextCleaning.SqueezeSpec`. |
| PyStr.EndsWith | app/main.py:69 | Definition of `s.endswith(suffix)`. Its properties are stated by `FileProcessor.ExtensionIs`, `FileProcessor.DispatchSpec` and `Api.AcceptedNameIsDispatched`. |
| TextCleaning.Clean | app/services/file_processor.py:98-117 | Definition of what `_clean_text` returns. Its properties are stated by `TextCleaning.CleanIsJoinedLines`, `CleanLinesAreTidy`, `CleanHasNoBlankLine`, `CleanIdempotent`, `CleanKeepsWords` and `CleanEmptyIffBlank`. |
| TextCleaning.CleanText | app/services/file_processor.py:98-117 | The routine computes `Clean(text)`. It has a `for` loop over the lines and a `while` loop of `replace` calls, and that loop provably stops. |
| TextCleaning.JoinWordsTidy | app/services/file_processor.py:106 | Words joined by single spaces make a tidy line. A tidy line is non-empty, has no whitespace at either end, has no whitespace but `' '` and never has two spaces in a row. |
| TextCleaning.WordsOfJoin | app/services/file_processor.py:106 | Splitting on whitespace the space-join of words gives the words back. |
| TextCleaning.WordsEmptyIffBlank | app/services/file_processor.py:106-107 | A line has no words exactly when it is blank. |
| TextCleaning.Collapse | app/services/file_processor.py:106 | Definition of `' '.join(line.split())`. Its properties are stated by `TextCleaning.CollapseSpec`. |
| TextCleaning.CollapseSpec | app/services/file_processor.py:106-107 | `' '.join(line.split())` is empty exactly when the line is blank. Otherwise it is a tidy line with the same words. Collapsing twice is collapsing once. |
| TextCleaning.KeptLines | app/services/file_processor.py:104-108 | Definition of the `lines` list: each line collapsed, the empty ones dropped, in order. Its properties are stated by `TextCleaning.KeptLinesTidy`, `KeptLinesFixed` and `KeptLinesWords`. |
| TextCleaning.KeptLinesTidy | app/services/file_processor.py:104-108 | Every line appended to `lines` is tidy and is its own collapse. |
| TextCleaning.KeptLinesFixed | app/services/file_processor.py:104-108 | Lines that are already collapsed and non-empty all survive, unchanged and in order. |
| TextCleaning.KeptLinesWords | app/services/file_processor.py:104-108 | The kept lines hold the same words, in the same order, as the input lines. |
| TextCleaning.JoinLinesNoBlank | app/services/file_processor.py:111 | Non-empty, newline-free lines joined by `\n` never contain two newlines in a row. |
| TextCleaning.NoBlankLineNoTriple | app/services/file_processor.py:114 | A text without two newlines in a row contains neither `\n\n` nor `\n\n\n`. |
| TextCleaning.Squeeze | app/services/file_processor.py:114-115 | Definition of the `while` loop of `replace` calls. Its properties are stated by `TextCleaning.SqueezeSpec`, `JoinedTidyLinesAreClean` and `CleanHasNoBlankLine`. |
| TextCleaning.SqueezeSpec | app/services/file_processor.py:114-115 | When the `while` loop ends, `\n\n\n` no longer occurs. The loop never lengthens the text, and it leaves a text without `\n\n\n` unchanged. |
| TextCleaning.JoinedTidyLinesAreClean | app/services/file_processor.py:111-117 | Tidy lines joined by `\n` have no blank line. The `while` loop and the final `strip` leave the join unchanged. |
| TextCleaning.CleanIsJoinedLines | app/services/file_processor.py:98-117 | The cleaned text is exactly the kept lines joined by single newlines. The loop and the final strip never change anything. |
| TextCleaning.CleanLinesAreTidy | app/services/file_processor.py:104-117 | Every line of a non-empty cleaned text is tidy. |
| TextCleaning.CleanHasNoBlankLine | app/services/file_processor.py:104-115 | The cleaned text never has two newlines in a row, so `\n\n` does not occur and the `while` loop would not fire on it. |
| TextCleaning.CleanIdempotent | app/services/file_processor.py:98-117 | Cleaning a cleaned text returns it unchanged. |
| TextCleaning.CleanKeepsWords | app/services/file_processor.py:103-117 | Cleaning changes only whitespace. The words of the text survive in order. |
| TextCleaning.CleanEmptyIffBlank | app/services/file_processor.py:100-117 | The result is empty exactly when the input is blank, including `""`. The result is already stripped. |
| FileProcessor.Extension | app/services/file_processor.py:27 | `filename.lower().split('.')[-1]` has no dot and is a suffix of the lower-cased name. When it is not the whole name, a dot precedes it. |
| FileProcessor.ExtensionOfSuffix | app/services/file_processor.py:27 | A lower-cased name of the form `....suffix` (`suffix` has no dot), or exactly `suffix`, has extension `suffix`. |
| FileProcessor.SuffixOfExtension | app/services/file_processor.py:27 | The lower-cased name ends in a dot followed by the extension, or is the extension. |
| FileProcessor.ExtensionIs | app/services/file_processor.py:27 | A dot-free suffix is the extension exactly when the lower-cased name ends in a dot followed by it, or is it. |
| FileProcessor.Dispatch | app/services/file_processor.py:27-34 | Definition of the branch `process_file` takes. Its properties are stated by `FileProcessor.DispatchSpec`. |
| FileProcessor.DispatchSpec | app/services/file_processor.py:27-34 | A name goes to the text handler exactly when its lower-cased form ends in `.txt` or is `txt`. It goes to the Word handler exactly when it ends in `.docx` or is `docx`. Every other name is refused with its extension. |
| FileProcessor.FirstDecoding | app/services/file_processor.py:44-52 | Definition of the search over the codecs. Its properties are stated by `FileProcessor.FirstDecodingSpec`, `LaterDecodersNotConsulted` and `Latin1EndsTheSearch`. |
| FileProcessor.FirstDecodingSpec | app/services/file_processor.py:44-52 | The search yields the first codec in list order that decodes, with its text. It yields nothing exactly when every codec fails. |
| FileProcessor.LaterDecodersNotConsulted | app/services/file_processor.py:46-50 | Once codec `i` succeeds, codecs after `i` make no difference to the result. |
| FileProcessor.Latin1EndsTheSearch | app/services/file_processor.py:44-57 | When latin-1 decodes, the search succeeds and never reaches cp1252 or the `errors='replace'` fallback. |
| FileProcessor.DecodedText | app/services/file_processor.py:44-55 | Definition of the decoded text: the first codec's text, or the lenient UTF-8 decoding when every codec fails. Its properties are stated by `FileProcessor.FirstDecodingSpec` and `Latin1EndsTheSearch`. |
| FileProcessor.TextFileText | app/services/file_processor.py:40-57 | Definition of what `_process_text_file` returns: the cleaned decoded text, with no failure. Its properties are stated by `FileProcessor.ProcessTextFile`, `ProcessedTextIsClean` and `ProcessedTextErrors`. |
| FileProcessor.ProcessTextFile | app/services/file_processor.py:40-57 | The loop over the codecs returns the cleaned text of the first successful decoding. If none succeeds, it returns the cleaned lenient UTF-8 decoding. |
| FileProcessor.StrippedParts | app/services/file_processor.py:74-83 | Definition of what the `if x.strip(): text_parts.append(x.strip())` loops keep from a list of texts. Its properties are stated by `FileProcessor.StrippedPartsAppend`, `StrippedPartsAreStripped`, `StrippedPartsFromTexts` and `StrippedPartsEmptyIffBlank`. |
| FileProcessor.RowCells | app/services/file_processor.py:80-81 | Definition of the cell texts of a table's rows, row by row. Its properties are stated by `FileProcessor.AppendTableParts`. |
| FileProcessor.TableCells | app/services/file_processor.py:79-81 | Definition of the cell texts of the tables, in table, row and cell order. Its properties are stated by `FileProcessor.CollectParts` and `ParagraphsBeforeCells`. |
| FileProcessor.DocumentTexts | app/services/file_processor.py:74-81 | Definition of every text the Word handler visits: the paragraphs, then the cells. Its properties are stated by `FileProcessor.ParagraphsBeforeCells` and `DocxFailsIffBlank`. |
| FileProcessor.DocumentParts | app/services/file_processor.py:73-83 | Definition of the `text_parts` list. Its properties are stated by `FileProcessor.CollectParts`, `ParagraphsBeforeCells`, `StrippedPartsAreStripped`, `StrippedPartsFromTexts` and `StrippedPartsEmptyIffBlank`. |
| FileProcessor.StrippedPartsAppend | app/services/file_processor.py:73-83 | Collecting parts over two lists in turn is collecting over their concatenation. |
| FileProcessor.AppendStrippedParts | app/services/file_processor.py:73-76 | The paragraph loop appends the stripped, non-blank texts in order. |
| FileProcessor.AppendTableParts | app/services/file_processor.py:80-83 | The row and cell loops append the stripped, non-blank cells of a table in row-then-cell order. |
| FileProcessor.CollectParts | app/services/file_processor.py:73-83 | The nested loops yield the stripped, non-blank paragraphs, then the stripped, non-blank cells in table, row and cell order. |
| FileProcessor.ParagraphsBeforeCells | app/services/file_processor.py:73-83 | The parts of a document are its paragraph parts followed by its cell parts. |
| FileProcessor.StrippedPartsAreStripped | app/services/file_processor.py:75-76 | Every part is non-empty and already stripped. |
| FileProcessor.StrippedPartsFromTexts | app/services/file_processor.py:74-83 | Every part is the stripped form of some paragraph or cell. |
| FileProcessor.StrippedPartsEmptyIffBlank | app/services/file_processor.py:85-86 | There are no parts exactly when every paragraph and cell is blank. |
| FileProcessor.DocxFailsIffBlank | app/services/file_processor.py:85-96 | A readable document fails exactly when all its text is blank, and it then fails only as "no text". |
| FileProcessor.DocxText | app/services/file_processor.py:63-96 | Definition of what `_process_docx_file` returns or raises. Its properties are stated by `FileProcessor.DocxFailsIffBlank` and `FileProcessor.ParagraphsBeforeCells`. |
| FileProcessor.ProcessDocxFile | app/services/file_processor.py:63-96 | The Word handler fails on an unreadable or blank document. Otherwise it returns the clean text of the parts joined by `\n\n`. |
| FileProcessor.ProcessedText | app/services/file_processor.py:15-38 | Definition of what `process_file` returns or raises. Its properties are stated by `FileProcessor.ProcessedTextIsClean` and `FileProcessor.ProcessedTextErrors`. |
| FileProcessor.ProcessFile | app/services/file_processor.py:15-38 | `process_file` returns or raises what the dispatch and the chosen handler give. |
| FileProcessor.ProcessedTextIsClean | app/services/file_processor.py:26-32 | A processed file's text is clean. Cleaning it again changes nothing, and it has no blank line and no surrounding whitespace. |
| FileProcessor.ProcessedTextErrors | app/services/file_processor.py:40-61 | A dispatched text file never fails. A dispatched Word document fails only as unreadable or empty. |
| AiService.GenerateSummary | app/services/ai_service.py:64-87 | Definition of `_generate_summary`'s result. Its properties are stated by `AiService.GenerateSummarySpec`. |
| AiService.GenerateSummarySpec | app/services/ai_service.py:81-87 | The summary is the completion's content with its surrounding whitespace removed. It fails exactly when the completion fails, with the completion's error. Missing content fails too. |
| AiService.StrippedNames | app/services/ai_service.py:133 | Definition of the list comprehension. Its properties are stated by `AiService.StrippedNamesFailIffNonString`, `StrippedNamesSpec` and `DuplicatesKeptOnce`. |
| AiService.ExtractNationalities | app/services/ai_service.py:110-145 | Definition of `_extract_nationalities`'s result. Its properties are stated by `AiService.ExtractedFromStringArray`, `ExtractionFailuresAreEmpty` and `ExtractedNamesAreStripped`. |
| AiService.StrippedNamesFailIffNonString | app/services/ai_service.py:133 | The comprehension raises exactly when some array element is not a string. |
| AiService.StrippedNamesSpec | app/services/ai_service.py:133 | For an array of strings, a name is kept exactly when it is non-empty and equals some element stripped. |
| AiService.DuplicatesKeptOnce | app/services/ai_service.py:133 | `["France", " France ", " "]` yields exactly `{"France"}`. |
| AiService.ExtractedFromStringArray | app/services/ai_service.py:127-134 | When the stripped completion parses to an array of strings, the result holds exactly the distinct non-empty stripped elements. |
| AiService.ExtractionFailuresAreEmpty | app/services/ai_service.py:127-145 | Each of these yields the empty list: a client failure or missing content, content that does not parse, JSON that is not an array, and an array with a non-string element. |
| AiService.ExtractedNamesAreStripped | app/services/ai_service.py:127-145 | Every extracted name is non-empty and has no surrounding whitespace, whatever the completion holds. |
| AiService.AnalyzeArticle | app/services/ai_service.py:31-45 | Definition of `analyze_article`'s result. Its properties are stated by `AiService.AnalyzeArticleSpec`. |
| AiService.AnalyzeArticleSpec | app/services/ai_service.py:31-45 | The analysis succeeds exactly when the summary completion does, and fails with the summary's error. The extraction completion and the parser never change the outcome or the summary. |
| Api.ArticleText | app/main.py:66-80 | Definition of the article the handler analyses. Its properties are stated by `Api.FileTakesPrecedence`, `UnsupportedFileRejectedUnread`, `UploadedArticle` and `RawTextForwarded`. |
| Api.HasInput | app/main.py:60 | Definition of `file or text`: an upload, or a non-empty `text` field. Its properties are stated by `Api.MissingInputRejected`. |
| Api.AcceptedName | app/main.py:69 | Definition of the suffix check on the lower-cased file name. Its properties are stated by `Api.AcceptedNameIsDispatched` and `Api.UnsupportedFileRejectedUnread`. |
| Api.AnalyzeText | app/main.py:82-89 | Definition of the length check and the call to the AI service. Its properties are stated by `Api.ShortArticleRejected` and `Api.SuccessIff`. |
| Api.Handle | app/main.py:59-94 | Definition of the `try` body's result or raised exception. Its properties are stated by `Api.SuccessIff` and `Api.ErrorStatuses`. |
| Api.ToResponse | app/main.py:96-103 | Definition of the `except` clauses. Its properties are stated by `Api.ErrorStatuses`. |
| Api.AnalyzeEndpoint | app/main.py:59-103 | Definition of the endpoint's answer. Its properties are stated by `Api.MissingInputRejected`, `ErrorStatuses` and `SuccessIff`. |
| Api.MissingInputRejected | app/main.py:60-64 | The answer is 400 "Either file or text must be provided" exactly when there is neither a file nor a non-empty `text`. |
| Api.FileTakesPrecedence | app/main.py:66-80 | With a file present, the `text` field makes no difference to the answer. |
| Api.SameArticleSameAnswer | app/main.py:59-103 | Two requests with input and the same article text get the same answer. |
| Api.UnsupportedFileRejectedUnread | app/main.py:69-75 | A file whose lower-cased name ends in neither `.txt` nor `.docx` gets 400, whatever its bytes. |
| Api.AcceptedNameIsDispatched | app/main.py:69 | A name ending in `.txt` goes to the text handler of `process_file`, and one ending in `.docx` to the Word handler. The dispatch accepts exactly the names the check accepts, plus the bare `txt` and `docx`. |
| Api.ShortArticleRejected | app/main.py:82-89 | An article under 50 characters once stripped gets 400, and the answer is the same for any backend: the AI service is not called. |
| Api.RawTextForwarded | app/main.py:78-89 | Form text of 50 or more stripped characters is analysed unchanged. The summary is the stripped completion for that exact text, and a failed summary gives 500. |
| Api.UploadedArticle | app/main.py:66-76 | An accepted upload reaches the AI service as clean text. Only a Word document can fail to process, and that failure gives 500. |
| Api.UploadedArticleIsClean | app/main.py:75-76 | The processed text of an accepted upload is its own cleaning. |
| Api.UploadFailureIsWordDocument | app/main.py:75-76 | An accepted upload that fails to process is a Word document, and it fails only as unreadable or empty. |
| Api.ErrorStatuses | app/main.py:59-103 | Every error answer is one of the three validation failures with 400, or the generic failure with 500. |
| Api.SuccessIff | app/main.py:59-103 | The analysis handed to the response constructor is produced exactly when there is input, the text is obtained and is long enough once stripped, and the summary completion succeeds. After validation, every failure is a 500. |

## Left out

- The OpenAI client, the prompts, the model names and the sampling settings. Each completion is an outcome given by the `backend` parameter. A message whose content is `None` is the outcome `NoContent`.
- The concurrency of `asyncio.gather`. The two completions share no state, so the model combines their outcomes in sequence.
- The internals of `json.loads`. Parsing is the parameter `parse`, with `None` for a `JSONDecodeError`. Python's `NaN` and `Infinity` literals are outside RFC 8259 and play no part in the filtering.
- Byte decoding and python-docx. An upload's bytes are represented by what each codec decodes them to, by the lenient UTF-8 decoding, and by the parsed document, or its absence when python-docx cannot open it.
- AiService.ExtractNationalities: the result is a set, because `list(set(...))` has no specified order. The model therefore does not say which order the list takes.
- PyStr.Lower: the model lowers ASCII letters only. Unicode case mapping is not modelled.
- Whitespace is Python's `isspace` set, written out as code points.
- Logging throughout.
- FastAPI routing, CORS, `UploadFile.read`, the global exception handler and the server start-up. An upload is always present as an object, and its file name is a string. A `None` file name, which would raise inside `.lower()` and become a 500, is not modelled.
- Response construction and the pydantic schemas. The handler builds `AnalysisResponse` with `summary` and `geopolitical_entities` (app/main.py:91-94). The model declares a required `nationalities` field (app/models/schemas.py:22). As written, every would-be `Analyzed` answer therefore raises a pydantic `ValidationError`, which app/main.py:98-103 turns into a 500 "An error occurred while processing the article". The model's `Analyzed` answer stands for the summary and names handed to that constructor. It does not capture this final failure.
- The messages of the `ValueError`s raised by the file processor. Only their kinds are kept, since the handler replaces them with one generic detail.
- The settings module and the request schema.
