/** The result handling of `AIService`: what the service makes of the two chat completions
    it requests for an article. The remote model is a parameter `backend`, and `json.loads`
    a parameter `parse`; the prompts and the client are not part of this model. */
module AiService {
  import opened Results
  import opened PyStr
  import opened Json

  /** The two completions requested for one article. */
  datatype Task = Summarize | FindNationalities

  /** What one completion request yields: the message content; a message whose content is
      `None` (so `.strip()` on it raises); or an exception raised by the client. */
  datatype Completion = Completed(content: string) | NoContent | Failed(reason: string)

  /** The exception a failed summary raises, re-raised unchanged by `analyze_article`. */
  datatype AnalysisError = RequestFailed(reason: string) | MissingContent

  // ---------------------------------------------------------------------------
  // _generate_summary
  // ---------------------------------------------------------------------------

  /** The stripped content of the summary completion; a failure is raised again. */
  function GenerateSummary(backend: (Task, string) -> Completion, article: string): Result<string, AnalysisError> {
    match backend(Summarize, article)
    case Completed(content) => Success(Strip(content))
    case NoContent => Failure(MissingContent)
    case Failed(reason) => Failure(RequestFailed(reason))
  }

  /** The summary is the completion's content with exactly its surrounding whitespace
      removed; it fails precisely when the completion does, with the completion's error. */
  lemma GenerateSummarySpec(backend: (Task, string) -> Completion, article: string)
    ensures var c, r := backend(Summarize, article), GenerateSummary(backend, article);
      && (r.Success? <==> c.Completed?)
      && (r.Success? ==> StrippedFrom(r.value, c.content) && Strip(r.value) == r.value)
      && (c == NoContent ==> r == Failure(MissingContent))
      && (c.Failed? ==> r == Failure(RequestFailed(c.reason)))
  {
    var c := backend(Summarize, article);
    if c.Completed? {
      StripSpec(c.content);
      StripIdempotent(c.content);
    }
  }

  // ---------------------------------------------------------------------------
  // _extract_nationalities
  // ---------------------------------------------------------------------------

  /** The list comprehension `[n.strip() for n in items if n.strip()]`: `None` when an element
      is not a string, since `.strip()` then raises. */
  function StrippedNames(items: seq<Json>): Option<seq<string>>
    decreases |items|
  {
    if items == [] then Some([])
    else if !items[0].JString? then None
    else match StrippedNames(items[1..])
      case None => None
      case Some(rest) =>
        var n := Strip(items[0].s);
        Some(if n == [] then rest else [n] + rest)
  }

  /** The nationalities named by the extraction completion. Every failure yields the empty
      list: a client exception or missing content, content that is not JSON, JSON that is
      not an array, and an array with an element that is not a string. The result is
      `list(set(...))`, whose order is unspecified, so it is modelled as a set. */
  function ExtractNationalities(backend: (Task, string) -> Completion, parse: string -> Option<Json>,
                                article: string): set<string>
  {
    match backend(FindNationalities, article)
    case Completed(content) =>
      (match parse(Strip(content))
       case Some(JArray(items)) =>
         (match StrippedNames(items)
          case Some(names) => set n | n in names
          case None => {})
       case _ => {})
    case _ => {}
  }

  /** The comprehension raises exactly when some element is not a string. */
  lemma {:induction false} StrippedNamesFailIffNonString(items: seq<Json>)
    ensures StrippedNames(items).None? <==> exists i | 0 <= i < |items| :: !items[i].JString?
  {
    if items != [] {
      StrippedNamesFailIffNonString(items[1..]);
      if StrippedNames(items).None? && items[0].JString? {
        var i :| 0 <= i < |items[1..]| && !items[1..][i].JString?;
        assert !items[i + 1].JString?;
      }
      if StrippedNames(items).Some? {
        forall i | 0 <= i < |items| ensures items[i].JString? {
          if i > 0 {
            assert items[i] == items[1..][i - 1];
          }
        }
      }
    }
  }

  /** For an array of strings, a name is kept exactly when it is some element stripped of its
      surrounding whitespace and is not empty; nothing else is added. */
  lemma {:induction false} StrippedNamesSpec(items: seq<Json>, n: string)
    requires forall i | 0 <= i < |items| :: items[i].JString?
    ensures StrippedNames(items).Some?
    ensures n in StrippedNames(items).value <==>
      n != [] && exists i | 0 <= i < |items| :: Strip(items[i].s) == n
  {
    if items != [] {
      StrippedNamesSpec(items[1..], n);
      var rest := StrippedNames(items[1..]).value;
      if n in StrippedNames(items).value && n !in rest {
        assert Strip(items[0].s) == n;
      }
      if n != [] && n !in rest && exists i | 0 <= i < |items| :: Strip(items[i].s) == n {
        var i :| 0 <= i < |items| && Strip(items[i].s) == n;
        if i > 0 {
          assert items[i] == items[1..][i - 1];
        }
        assert Strip(items[0].s) == n;
      }
      if n in rest {
        var i :| 0 <= i < |items[1..]| && Strip(items[1..][i].s) == n;
        assert Strip(items[i + 1].s) == n;
      }
    }
  }

  /** Exact duplicates, and names equal once stripped, are kept once; a blank name is
      dropped. */
  lemma DuplicatesKeptOnce()
    ensures var items := [JString("France"), JString(" France "), JString(" ")];
      StrippedNames(items).Some? && (set n | n in StrippedNames(items).value) == {"France"}
  {
    var items := [JString("France"), JString(" France "), JString(" ")];
    assert Strip(" ") == [] by {
      assert " "[1..] == [];
    }
    assert Strip(" France ") == "France" by {
      assert " France "[1..] == "France ";
      assert "France "[..6] == "France";
    }
    assert Strip("France") == "France";
    forall n ensures n in StrippedNames(items).value <==> n == "France" {
      StrippedNamesSpec(items, n);
      if n == "France" {
        assert Strip(items[0].s) == n;
      }
    }
  }

  /** Whenever the extraction completion is a JSON array of strings, the result holds exactly
      the non-empty stripped elements: each distinct name once, and nothing else. */
  lemma ExtractedFromStringArray(backend: (Task, string) -> Completion, parse: string -> Option<Json>,
                                 article: string, items: seq<Json>, n: string)
    requires backend(FindNationalities, article).Completed?
    requires parse(Strip(backend(FindNationalities, article).content)) == Some(JArray(items))
    requires forall i | 0 <= i < |items| :: items[i].JString?
    ensures n in ExtractNationalities(backend, parse, article) <==>
      n != [] && exists i | 0 <= i < |items| :: Strip(items[i].s) == n
  {
    StrippedNamesSpec(items, n);
  }

  /** Every failure path of the extraction returns the empty list. */
  lemma ExtractionFailuresAreEmpty(backend: (Task, string) -> Completion, parse: string -> Option<Json>,
                                   article: string)
    ensures var c := backend(FindNationalities, article);
      && (!c.Completed? ==> ExtractNationalities(backend, parse, article) == {})
      && (c.Completed? && parse(Strip(c.content)).None? ==> ExtractNationalities(backend, parse, article) == {})
      && (c.Completed? && parse(Strip(c.content)).Some? && !parse(Strip(c.content)).value.JArray? ==>
            ExtractNationalities(backend, parse, article) == {})
      && (c.Completed? && parse(Strip(c.content)).Some? && parse(Strip(c.content)).value.JArray? &&
          (exists i | 0 <= i < |parse(Strip(c.content)).value.items| ::
             !parse(Strip(c.content)).value.items[i].JString?) ==>
            ExtractNationalities(backend, parse, article) == {})
  {
    var c := backend(FindNationalities, article);
    if c.Completed? && parse(Strip(c.content)).Some? && parse(Strip(c.content)).value.JArray? {
      StrippedNamesFailIffNonString(parse(Strip(c.content)).value.items);
    }
  }

  /** Every extracted name is non-empty and has no surrounding whitespace, whatever the
      completion holds. */
  lemma ExtractedNamesAreStripped(backend: (Task, string) -> Completion, parse: string -> Option<Json>,
                                  article: string, n: string)
    requires n in ExtractNationalities(backend, parse, article)
    ensures n != [] && Strip(n) == n
  {
    var c := backend(FindNationalities, article);
    var items := parse(Strip(c.content)).value.items;
    StrippedNamesFailIffNonString(items);
    StrippedNamesSpec(items, n);
    var i :| 0 <= i < |items| && Strip(items[i].s) == n;
    StripIdempotent(items[i].s);
  }

  // ---------------------------------------------------------------------------
  // analyze_article
  // ---------------------------------------------------------------------------

  /** Both analyses of one article; the summary's failure is the whole call's failure. */
  function AnalyzeArticle(backend: (Task, string) -> Completion, parse: string -> Option<Json>,
                          article: string): Result<(string, set<string>), AnalysisError>
  {
    match GenerateSummary(backend, article)
    case Success(summary) => Success((summary, ExtractNationalities(backend, parse, article)))
    case Failure(e) => Failure(e)
  }

  /** The analysis succeeds exactly when the summary completion does, pairing the stripped
      summary with the extracted names; otherwise it fails with the summary's error. Only the
      summary completion decides the outcome: changing what the extraction completion or the
      parser yields changes at most the names. */
  lemma AnalyzeArticleSpec(backend: (Task, string) -> Completion, parse: string -> Option<Json>,
                           other: (Task, string) -> Completion, otherParse: string -> Option<Json>,
                           article: string)
    requires other(Summarize, article) == backend(Summarize, article)
    ensures var r, c := AnalyzeArticle(backend, parse, article), backend(Summarize, article);
      && (r.Success? <==> c.Completed?)
      && (r.Success? ==> StrippedFrom(r.value.0, c.content) &&
                         r.value.1 == ExtractNationalities(backend, parse, article))
      && (r.Failure? ==> r == Failure(GenerateSummary(backend, article).error))
    ensures AnalyzeArticle(other, otherParse, article).Success? == AnalyzeArticle(backend, parse, article).Success?
    ensures AnalyzeArticle(backend, parse, article).Success? ==>
      AnalyzeArticle(other, otherParse, article).value.0 == AnalyzeArticle(backend, parse, article).value.0
  {
    GenerateSummarySpec(backend, article);
  }
}
