/** The generator page: a prompt, an aspect ratio and an optional reference
    image; generating calls the text-to-image adapter, or the reference
    adapter when a reference image is present. */
module ImageGenerator {

  import opened Wrappers
  import opened ErrorMessages
  import opened FileEncoder
  import opened GeminiService
  import opened DownloadNames
  import opened Controls

  const ReferenceTooLarge: string := "Reference image size must be less than 4MB."
  const EnterPrompt: string := "Please enter a prompt."

  /** The page's state hooks. */
  datatype GeneratorState = GeneratorState(
    prompt: string,
    aspectRatio: string,
    isLoading: bool,
    error: Option<string>,
    generatedImage: Option<string>,
    referenceFile: Option<File>,
    referenceUrl: Option<string>)

  const Initial: GeneratorState := GeneratorState("", "1:1", false, None, None, None, None)

  /** Between events no request is pending, a stored reference file is within
      the size limit, and it has an object URL exactly when it is stored. */
  predicate Valid(s: GeneratorState)
  {
    && !s.isLoading
    && (s.referenceFile.Some? ==> WithinSizeLimit(s.referenceFile.value))
    && (s.referenceFile.Some? <==> s.referenceUrl.Some?)
  }

  function PhaseOf(s: GeneratorState): Phase
  {
    if s.isLoading then Loading
    else if s.error.Some? then Failed
    else if s.generatedImage.Some? then Succeeded
    else Idle
  }

  /** `handleFileChange`: `file` is the first selected file, if any, and
      `objectUrl` the URL the browser would create for it. */
  function HandleFileChange(s: GeneratorState, file: Option<File>, objectUrl: string): (r: GeneratorState)
    ensures r.generatedImage == s.generatedImage && r.prompt == s.prompt && r.isLoading == s.isLoading
    ensures r.referenceFile == s.referenceFile || r.referenceFile == file
    ensures r.referenceFile.Some? && r.referenceFile != s.referenceFile ==> WithinSizeLimit(r.referenceFile.value)
    ensures file.None? ==> r == s
    ensures file.Some? && !WithinSizeLimit(file.value) ==> r == s.(error := Some(ReferenceTooLarge))
    ensures file.Some? && WithinSizeLimit(file.value) ==>
              r == s.(referenceFile := file, referenceUrl := Some(objectUrl), error := None)
  {
    match file
    case None => s
    case Some(f) =>
      if f.size > MaxFileSize then s.(error := Some(ReferenceTooLarge))
      else s.(referenceFile := Some(f), referenceUrl := Some(objectUrl), error := None)
  }

  /** `handleClearReference`. */
  function HandleClearReference(s: GeneratorState): (r: GeneratorState)
    ensures r.referenceFile.None? && r.referenceUrl.None?
    ensures r.(referenceFile := s.referenceFile, referenceUrl := s.referenceUrl) == s
  {
    s.(referenceFile := None, referenceUrl := None)
  }

  /** The service call `handleGenerate` makes. */
  datatype GeneratorCall =
    | FromPrompt(prompt: string, aspectRatio: string)
    | FromReference(file: File, prompt: string, aspectRatio: string)

  /** The call `handleGenerate` makes for a non-empty prompt: with the
      reference image when one is stored, from the prompt alone otherwise. */
  function CallOf(s: GeneratorState): (call: GeneratorCall)
    ensures call.prompt == s.prompt && call.aspectRatio == s.aspectRatio
    ensures call.FromReference? <==> s.referenceFile.Some?
    ensures call.FromReference? ==> call.file == s.referenceFile.value
  {
    match s.referenceFile
    case Some(f) => FromReference(f, s.prompt, s.aspectRatio)
    case None => FromPrompt(s.prompt, s.aspectRatio)
  }

  /** The synchronous part of `handleGenerate`: validation, then the state
      set before the first `await`, and the call to make. */
  function StartGenerate(s: GeneratorState): (r: (GeneratorState, Option<GeneratorCall>))
    ensures r.1.None? <==> s.prompt == ""
    ensures r.1.None? ==> r.0 == s.(error := Some(EnterPrompt))
    ensures r.1.Some? ==> r.0.isLoading && r.0.error.None? && r.0.generatedImage.None?
    ensures r.1.Some? ==> r.0.(isLoading := s.isLoading, error := s.error, generatedImage := s.generatedImage) == s
    ensures r.1.Some? ==> (r.1.value.FromReference? <==> s.referenceFile.Some?)
    ensures r.1.Some? ==> r.1.value == CallOf(s)
  {
    if s.prompt == "" then (s.(error := Some(EnterPrompt)), None)
    else (s.(isLoading := true, error := None, generatedImage := None), Some(CallOf(s)))
  }

  /** The awaited part: read the reference file if there is one, then call
      the matching adapter. */
  function Perform(call: GeneratorCall,
                   imagesModel: ImagesRequest -> Outcome<ImagesResponse>,
                   contentModel: ContentRequest -> Outcome<ContentResponse>): (r: Result<string, string>)
    ensures r.Failure? ==> r.error != ""
    ensures call.FromPrompt? ==> r == GenerateImage(imagesModel, call.prompt, call.aspectRatio)
    ensures call.FromReference? && ParseDataUrl(call.file.dataUrl).Failure? ==> r == Failure(InvalidFileFormat)
    ensures call.FromReference? && ParseDataUrl(call.file.dataUrl).Success? ==>
              r == GenerateImageFromReference(contentModel, ParseDataUrl(call.file.dataUrl).value.base64,
                                              ParseDataUrl(call.file.dataUrl).value.mimeType,
                                              call.prompt, call.aspectRatio)
  {
    match call
    case FromPrompt(prompt, aspectRatio) => GenerateImage(imagesModel, prompt, aspectRatio)
    case FromReference(file, prompt, aspectRatio) =>
      match ParseDataUrl(file.dataUrl)
      case Failure(e) => Failure(e)
      case Success(payload) =>
        GenerateImageFromReference(contentModel, payload.base64, payload.mimeType, prompt, aspectRatio)
  }

  /** The `then`/`catch`/`finally` of `handleGenerate`, for any outcome. */
  function FinishGenerate(s: GeneratorState, outcome: Result<string, string>): (r: GeneratorState)
    ensures !r.isLoading
    ensures outcome.Success? ==> r.generatedImage == Some(outcome.value) && r.error == s.error
    ensures outcome.Failure? ==> r.error == Some(ShownError(outcome.error, UnexpectedError))
                                 && r.generatedImage == s.generatedImage
    ensures r.prompt == s.prompt && r.referenceFile == s.referenceFile && r.referenceUrl == s.referenceUrl
    ensures r.aspectRatio == s.aspectRatio
  {
    match outcome
    case Success(url) => s.(generatedImage := Some(url), isLoading := false)
    case Failure(message) => s.(error := Some(ShownError(message, UnexpectedError)), isLoading := false)
  }

  /** `handleGenerate` run to completion. */
  function HandleGenerate(s: GeneratorState,
                          imagesModel: ImagesRequest -> Outcome<ImagesResponse>,
                          contentModel: ContentRequest -> Outcome<ContentResponse>): (r: GeneratorState)
    ensures s.prompt == "" ==> r == s.(error := Some(EnterPrompt))
    ensures s.prompt != "" ==>
              !r.isLoading && r.prompt == s.prompt && r.aspectRatio == s.aspectRatio
              && r.referenceFile == s.referenceFile && r.referenceUrl == s.referenceUrl
    ensures var outcome := Perform(CallOf(s), imagesModel, contentModel);
            s.prompt != "" ==>
              (outcome.Success? ==> r.generatedImage == Some(outcome.value) && r.error.None?)
              && (outcome.Failure? ==> r.error == Some(outcome.error) && r.generatedImage.None?)
  {
    match StartGenerate(s)
    case (started, None) => started
    case (started, Some(call)) => FinishGenerate(started, Perform(call, imagesModel, contentModel))
  }

  /** `handleDownload`: the file name offered, or nothing without an image. */
  function HandleDownload(s: GeneratorState): (name: Option<string>)
    ensures name.Some? <==> s.generatedImage.Some? && s.generatedImage.value != ""
    ensures name.Some? ==> name.value == GeneratedFileName(s.prompt)
  {
    if s.generatedImage.Some? && s.generatedImage.value != "" then Some(GeneratedFileName(s.prompt)) else None
  }

  /** After a generation whose awaited work succeeded, the download is
      offered under the prompt-slug name. */
  lemma DownloadAfterSuccess(s: GeneratorState,
                             imagesModel: ImagesRequest -> Outcome<ImagesResponse>,
                             contentModel: ContentRequest -> Outcome<ContentResponse>)
    requires s.prompt != "" && Perform(CallOf(s), imagesModel, contentModel).Success?
    ensures HandleDownload(HandleGenerate(s, imagesModel, contentModel)) == Some(GeneratedFileName(s.prompt))
  {
  }

  /** The page starts valid: nothing stored, nothing loading. */
  lemma InitialValid()
    ensures Valid(Initial)
  {
  }

  /** Every event keeps the state valid. */
  lemma EventsPreserveValid(s: GeneratorState, file: Option<File>, objectUrl: string,
                            imagesModel: ImagesRequest -> Outcome<ImagesResponse>,
                            contentModel: ContentRequest -> Outcome<ContentResponse>)
    requires Valid(s)
    ensures Valid(HandleFileChange(s, file, objectUrl))
    ensures Valid(HandleClearReference(s))
    ensures Valid(HandleGenerate(s, imagesModel, contentModel))
  {
  }

  /** The size limit is inclusive: a file of up to and including 4 MiB is taken, an
      oversized one only sets the error and leaves the reference alone. */
  lemma SizeLimitBoundary(s: GeneratorState, f: File, objectUrl: string)
    ensures f.size <= 4 * 1024 * 1024 ==>
              HandleFileChange(s, Some(f), objectUrl).referenceFile == Some(f)
              && HandleFileChange(s, Some(f), objectUrl).error.None?
    ensures f.size > 4 * 1024 * 1024 ==>
              HandleFileChange(s, Some(f), objectUrl) == s.(error := Some(ReferenceTooLarge))
  {
  }

  /** A completed generation ends in the success phase exactly when the
      prompt is non-empty and the adapter returned an image, and otherwise
      in the failure phase; it never stays loading. */
  lemma GenerateEndsSettled(s: GeneratorState,
                            imagesModel: ImagesRequest -> Outcome<ImagesResponse>,
                            contentModel: ContentRequest -> Outcome<ContentResponse>)
    requires !s.isLoading
    ensures var r := HandleGenerate(s, imagesModel, contentModel);
            match StartGenerate(s)
            case (_, None) => PhaseOf(r) == Failed
            case (_, Some(call)) =>
              (PhaseOf(r) == Succeeded <==> Perform(call, imagesModel, contentModel).Success?)
              && (PhaseOf(r) == Failed <==> Perform(call, imagesModel, contentModel).Failure?)
  {
  }

  /** When the reference file, if any, is read, the generic fallback is never
      shown: every modelled failure carries a message, so the page stores
      that message as it is. */
  lemma FailureShowsAdapterMessage(s: GeneratorState,
                                   imagesModel: ImagesRequest -> Outcome<ImagesResponse>,
                                   contentModel: ContentRequest -> Outcome<ContentResponse>)
    requires s.prompt != ""
    ensures var call := StartGenerate(s).1.value;
            var outcome := Perform(call, imagesModel, contentModel);
            outcome.Failure? ==> HandleGenerate(s, imagesModel, contentModel).error == Some(outcome.error)
  {
  }

  /** An empty prompt is rejected before anything else: no call is made, and
      only the error changes. */
  lemma EmptyPromptMakesNoCall(s: GeneratorState,
                               imagesModel: ImagesRequest -> Outcome<ImagesResponse>,
                               contentModel: ContentRequest -> Outcome<ContentResponse>)
    requires s.prompt == ""
    ensures HandleGenerate(s, imagesModel, contentModel) == s.(error := Some(EnterPrompt))
  {
  }
}
