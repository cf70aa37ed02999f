/** The background-removal page: an uploaded image and no prompt; removing
    calls the remover adapter and keeps the PNG it returns. */
module BackgroundRemover {

  import opened Wrappers
  import opened ErrorMessages
  import opened FileEncoder
  import opened GeminiService
  import opened DownloadNames
  import opened Controls

  const FileTooLarge: string := "File size must be less than 4MB."

  /** The page's state hooks. */
  datatype RemoverState = RemoverState(
    originalFile: Option<File>,
    originalUrl: Option<string>,
    resultUrl: Option<string>,
    isLoading: bool,
    error: Option<string>)

  const Initial: RemoverState := RemoverState(None, None, None, false, None)

  /** Between events no request is pending, a stored file is within the size
      limit, and it has an object URL exactly when it is stored. */
  predicate Valid(s: RemoverState)
  {
    && !s.isLoading
    && (s.originalFile.Some? ==> WithinSizeLimit(s.originalFile.value))
    && (s.originalFile.Some? <==> s.originalUrl.Some?)
  }

  function PhaseOf(s: RemoverState): Phase
  {
    if s.isLoading then Loading
    else if s.error.Some? then Failed
    else if s.resultUrl.Some? then Succeeded
    else Idle
  }

  /** `handleFileChange`: a new file also drops the previous result. */
  function HandleFileChange(s: RemoverState, file: Option<File>, objectUrl: string): (r: RemoverState)
    ensures r.isLoading == s.isLoading
    ensures r.originalFile == s.originalFile || r.originalFile == file
    ensures r.originalFile.Some? && r.originalFile != s.originalFile ==>
              WithinSizeLimit(r.originalFile.value) && r.resultUrl.None? && r.error.None?
    ensures file.None? ==> r == s
    ensures file.Some? && !WithinSizeLimit(file.value) ==> r == s.(error := Some(FileTooLarge))
    ensures file.Some? && WithinSizeLimit(file.value) ==>
              r == s.(originalFile := file, originalUrl := Some(objectUrl), resultUrl := None, error := None)
  {
    match file
    case None => s
    case Some(f) =>
      if f.size > MaxFileSize then s.(error := Some(FileTooLarge))
      else s.(originalFile := Some(f), originalUrl := Some(objectUrl), resultUrl := None, error := None)
  }

  /** The synchronous part of `handleRemoveBackground`: only a file is
      required. */
  function StartRemoval(s: RemoverState): (r: (RemoverState, Option<File>))
    ensures r.1 == s.originalFile
    ensures r.1.None? ==> r.0 == s.(error := Some(UploadFirst))
    ensures r.1.Some? ==> r.0 == s.(isLoading := true, error := None, resultUrl := None)
  {
    match s.originalFile
    case None => (s.(error := Some(UploadFirst)), None)
    case Some(f) => (s.(isLoading := true, error := None, resultUrl := None), Some(f))
  }

  /** The awaited part: read the file, then call the remover adapter. */
  function Perform(file: File, model: ContentRequest -> Outcome<ContentResponse>): (r: Result<string, string>)
    ensures r.Failure? ==> r.error != ""
    ensures ParseDataUrl(file.dataUrl).Failure? ==> r == Failure(InvalidFileFormat)
    ensures ParseDataUrl(file.dataUrl).Success? ==>
              r == RemoveBackground(model, ParseDataUrl(file.dataUrl).value.base64,
                                    ParseDataUrl(file.dataUrl).value.mimeType)
  {
    match ParseDataUrl(file.dataUrl)
    case Failure(e) => Failure(e)
    case Success(payload) => RemoveBackground(model, payload.base64, payload.mimeType)
  }

  /** The `then`/`catch`/`finally` of `handleRemoveBackground`. */
  function FinishRemoval(s: RemoverState, outcome: Result<string, string>): (r: RemoverState)
    ensures !r.isLoading
    ensures outcome.Success? ==> r.resultUrl == Some(outcome.value) && r.error == s.error
    ensures outcome.Failure? ==> r.error == Some(ShownError(outcome.error, UnexpectedError))
                                 && r.resultUrl == s.resultUrl
    ensures r.originalFile == s.originalFile && r.originalUrl == s.originalUrl
  {
    match outcome
    case Success(url) => s.(resultUrl := Some(url), isLoading := false)
    case Failure(message) => s.(error := Some(ShownError(message, UnexpectedError)), isLoading := false)
  }

  /** `handleRemoveBackground` run to completion. */
  function HandleRemoveBackground(s: RemoverState, model: ContentRequest -> Outcome<ContentResponse>): (r: RemoverState)
    ensures s.originalFile.None? ==> r == s.(error := Some(UploadFirst))
    ensures s.originalFile.Some? ==>
              !r.isLoading && r.originalFile == s.originalFile && r.originalUrl == s.originalUrl
    ensures s.originalFile.Some? ==>
              var outcome := Perform(s.originalFile.value, model);
              (outcome.Success? ==> r.resultUrl == Some(outcome.value) && r.error.None?)
              && (outcome.Failure? ==> r.error == Some(outcome.error) && r.resultUrl.None?)
  {
    match StartRemoval(s)
    case (started, None) => started
    case (started, Some(file)) => FinishRemoval(started, Perform(file, model))
  }

  /** `handleDownload`: the file name offered, or nothing without a result. */
  function HandleDownload(s: RemoverState): (name: Option<string>)
    ensures name.Some? <==> s.resultUrl.Some? && s.resultUrl.value != ""
    ensures name.Some? && s.originalFile.Some? ==> name.value == NoBackgroundFileName(Some(s.originalFile.value.name))
    ensures name.Some? && s.originalFile.None? ==> name.value == "image" + NoBackgroundSuffix
  {
    if s.resultUrl.Some? && s.resultUrl.value != "" then
      Some(NoBackgroundFileName(match s.originalFile case Some(f) => Some(f.name) case None => None))
    else None
  }

  /** After a removal whose awaited work succeeded, the download is offered
      under the uploaded file's name with "-no-bg.png". */
  lemma DownloadAfterSuccess(s: RemoverState, model: ContentRequest -> Outcome<ContentResponse>)
    requires s.originalFile.Some? && Perform(s.originalFile.value, model).Success?
    ensures HandleDownload(HandleRemoveBackground(s, model)) == Some(NoBackgroundFileName(Some(s.originalFile.value.name)))
  {
  }

  /** The page starts valid: nothing stored, nothing loading. */
  lemma InitialValid()
    ensures Valid(Initial)
  {
  }

  /** Every event keeps the state valid. */
  lemma EventsPreserveValid(s: RemoverState, file: Option<File>, objectUrl: string,
                            model: ContentRequest -> Outcome<ContentResponse>)
    requires Valid(s)
    ensures Valid(HandleFileChange(s, file, objectUrl))
    ensures Valid(HandleRemoveBackground(s, model))
  {
  }

  /** The size limit is inclusive: a file of up to and including 4 MiB is
      taken and clears the previous result, an oversized one only sets the
      error. */
  lemma SizeLimitBoundary(s: RemoverState, f: File, objectUrl: string)
    ensures f.size <= 4 * 1024 * 1024 ==>
              HandleFileChange(s, Some(f), objectUrl) ==
                s.(originalFile := Some(f), originalUrl := Some(objectUrl), resultUrl := None, error := None)
    ensures f.size > 4 * 1024 * 1024 ==> HandleFileChange(s, Some(f), objectUrl) == s.(error := Some(FileTooLarge))
  {
  }

  /** Without a file the action only reports it and makes no call; no prompt
      is needed. */
  lemma NoFileMakesNoCall(s: RemoverState, model: ContentRequest -> Outcome<ContentResponse>)
    requires s.originalFile.None?
    ensures HandleRemoveBackground(s, model) == s.(error := Some(UploadFirst))
  {
  }

  /** A completed removal ends in the success phase exactly when the adapter
      returned an image, in the failure phase otherwise, never loading. */
  lemma RemovalEndsSettled(s: RemoverState, model: ContentRequest -> Outcome<ContentResponse>)
    requires s.originalFile.Some? && !s.isLoading
    ensures var r := HandleRemoveBackground(s, model);
            var outcome := Perform(s.originalFile.value, model);
            (PhaseOf(r) == Succeeded <==> outcome.Success?)
            && (PhaseOf(r) == Failed <==> outcome.Failure?)
  {
  }

  /** When the file is read, the fallback is never shown: the page stores the
      adapter's or the parser's message as it is. */
  lemma FailureShowsAdapterMessage(s: RemoverState, model: ContentRequest -> Outcome<ContentResponse>)
    requires s.originalFile.Some?
    ensures var outcome := Perform(s.originalFile.value, model);
            outcome.Failure? ==> HandleRemoveBackground(s, model).error == Some(outcome.error)
  {
  }
}
