/** The editor page: an uploaded image and an editing prompt; editing calls
    the edit adapter and keeps its image and caption. */
module ImageEditor {

  import opened Wrappers
  import opened ErrorMessages
  import opened FileEncoder
  import opened GeminiService
  import opened DownloadNames
  import opened Controls

  const FileTooLarge: string := "File size must be less than 4MB."
  const EnterEditingPrompt: string := "Please enter an editing prompt."
  const UnexpectedEditingError: string := "An unexpected error occurred during editing."

  /** The page's state hooks. */
  datatype EditorState = EditorState(
    prompt: string,
    originalFile: Option<File>,
    originalUrl: Option<string>,
    editedImage: Option<EditedImageResponse>,
    isLoading: bool,
    error: Option<string>)

  const Initial: EditorState := EditorState("", None, None, None, false, None)

  /** Between events no request is pending, a stored file is within the size
      limit, and it has an object URL exactly when it is stored. */
  predicate Valid(s: EditorState)
  {
    && !s.isLoading
    && (s.originalFile.Some? ==> WithinSizeLimit(s.originalFile.value))
    && (s.originalFile.Some? <==> s.originalUrl.Some?)
  }

  function PhaseOf(s: EditorState): Phase
  {
    if s.isLoading then Loading
    else if s.error.Some? then Failed
    else if s.editedImage.Some? then Succeeded
    else Idle
  }

  /** `handleFileChange`: a new file also drops the previous edit. */
  function HandleFileChange(s: EditorState, file: Option<File>, objectUrl: string): (r: EditorState)
    ensures r.prompt == s.prompt && r.isLoading == s.isLoading
    ensures r.originalFile == s.originalFile || r.originalFile == file
    ensures r.originalFile.Some? && r.originalFile != s.originalFile ==>
              WithinSizeLimit(r.originalFile.value) && r.editedImage.None? && r.error.None?
    ensures file.None? ==> r == s
    ensures file.Some? && !WithinSizeLimit(file.value) ==> r == s.(error := Some(FileTooLarge))
    ensures file.Some? && WithinSizeLimit(file.value) ==>
              r == s.(originalFile := file, originalUrl := Some(objectUrl), editedImage := None, error := None)
  {
    match file
    case None => s
    case Some(f) =>
      if f.size > MaxFileSize then s.(error := Some(FileTooLarge))
      else s.(originalFile := Some(f), originalUrl := Some(objectUrl), editedImage := None, error := None)
  }

  /** The edit request `handleEdit` makes. */
  datatype EditCall = EditCall(file: File, prompt: string)

  /** The synchronous part of `handleEdit`: the missing file is reported
      before the missing prompt, and neither starts loading. */
  function StartEdit(s: EditorState): (r: (EditorState, Option<EditCall>))
    ensures r.1.Some? <==> s.originalFile.Some? && s.prompt != ""
    ensures s.originalFile.None? ==> r.0 == s.(error := Some(UploadFirst))
    ensures s.originalFile.Some? && s.prompt == "" ==> r.0 == s.(error := Some(EnterEditingPrompt))
    ensures r.1.Some? ==> r.1.value == EditCall(s.originalFile.value, s.prompt)
    ensures r.1.Some? ==> r.0 == s.(isLoading := true, error := None, editedImage := None)
  {
    match s.originalFile
    case None => (s.(error := Some(UploadFirst)), None)
    case Some(f) =>
      if s.prompt == "" then (s.(error := Some(EnterEditingPrompt)), None)
      else (s.(isLoading := true, error := None, editedImage := None), Some(EditCall(f, s.prompt)))
  }

  /** The awaited part: read the file, then call the edit adapter. */
  function Perform(call: EditCall, model: ContentRequest -> Outcome<ContentResponse>)
    : (r: Result<EditedImageResponse, string>)
    ensures r.Failure? ==> r.error != ""
    ensures r.Success? ==> r.value.imageUrl.Some?
    ensures ParseDataUrl(call.file.dataUrl).Failure? ==> r == Failure(InvalidFileFormat)
    ensures ParseDataUrl(call.file.dataUrl).Success? ==>
              r == EditImage(model, ParseDataUrl(call.file.dataUrl).value.base64,
                             ParseDataUrl(call.file.dataUrl).value.mimeType, call.prompt)
  {
    match ParseDataUrl(call.file.dataUrl)
    case Failure(e) => Failure(e)
    case Success(payload) => EditImage(model, payload.base64, payload.mimeType, call.prompt)
  }

  /** The `then`/`catch`/`finally` of `handleEdit`, for any outcome. */
  function FinishEdit(s: EditorState, outcome: Result<EditedImageResponse, string>): (r: EditorState)
    ensures !r.isLoading
    ensures outcome.Success? ==> r.editedImage == Some(outcome.value) && r.error == s.error
    ensures outcome.Failure? ==> r.error == Some(ShownError(outcome.error, UnexpectedEditingError))
                                 && r.editedImage == s.editedImage
    ensures r.prompt == s.prompt && r.originalFile == s.originalFile && r.originalUrl == s.originalUrl
  {
    match outcome
    case Success(edited) => s.(editedImage := Some(edited), isLoading := false)
    case Failure(message) => s.(error := Some(ShownError(message, UnexpectedEditingError)), isLoading := false)
  }

  /** `handleEdit` run to completion. */
  function HandleEdit(s: EditorState, model: ContentRequest -> Outcome<ContentResponse>): (r: EditorState)
    ensures s.originalFile.None? ==> r == s.(error := Some(UploadFirst))
    ensures s.originalFile.Some? && s.prompt == "" ==> r == s.(error := Some(EnterEditingPrompt))
    ensures s.originalFile.Some? && s.prompt != "" ==>
              !r.isLoading && r.prompt == s.prompt
              && r.originalFile == s.originalFile && r.originalUrl == s.originalUrl
    ensures s.originalFile.Some? && s.prompt != "" ==>
              var outcome := Perform(EditCall(s.originalFile.value, s.prompt), model);
              (outcome.Success? ==> r.editedImage == Some(outcome.value) && r.error.None?)
              && (outcome.Failure? ==> r.error == Some(outcome.error) && r.editedImage.None?)
  {
    match StartEdit(s)
    case (started, None) => started
    case (started, Some(call)) => FinishEdit(started, Perform(call, model))
  }

  /** `handleDownload`: the file name offered, or nothing without an edited
      image URL. */
  function HandleDownload(s: EditorState): (name: Option<string>)
    ensures name.Some? <==> s.editedImage.Some? && s.editedImage.value.imageUrl.Some?
                            && s.editedImage.value.imageUrl.value != ""
    ensures name.Some? && s.originalFile.Some? ==> name.value == EditedFileName(Some(s.originalFile.value.name))
    ensures name.Some? && s.originalFile.None? ==> name.value == "image" + EditedSuffix
  {
    if s.editedImage.Some? && s.editedImage.value.imageUrl.Some? && s.editedImage.value.imageUrl.value != "" then
      Some(EditedFileName(match s.originalFile case Some(f) => Some(f.name) case None => None))
    else None
  }

  /** After an edit whose awaited work succeeded, the download is offered
      under the uploaded file's name with "-edited.png". */
  lemma DownloadAfterSuccess(s: EditorState, model: ContentRequest -> Outcome<ContentResponse>)
    requires s.originalFile.Some? && s.prompt != ""
    requires Perform(EditCall(s.originalFile.value, s.prompt), model).Success?
    ensures HandleDownload(HandleEdit(s, model)) == Some(EditedFileName(Some(s.originalFile.value.name)))
  {
  }

  /** The page starts valid: nothing stored, nothing loading. */
  lemma InitialValid()
    ensures Valid(Initial)
  {
  }

  /** Every event keeps the state valid. */
  lemma EventsPreserveValid(s: EditorState, file: Option<File>, objectUrl: string,
                            model: ContentRequest -> Outcome<ContentResponse>)
    requires Valid(s)
    ensures Valid(HandleFileChange(s, file, objectUrl))
    ensures Valid(HandleEdit(s, model))
  {
  }

  /** The size limit is inclusive: a file of up to and including 4 MiB is taken and
      clears the previous edit, an oversized one only sets the error. */
  lemma SizeLimitBoundary(s: EditorState, f: File, objectUrl: string)
    ensures f.size <= 4 * 1024 * 1024 ==>
              HandleFileChange(s, Some(f), objectUrl) ==
                s.(originalFile := Some(f), originalUrl := Some(objectUrl), editedImage := None, error := None)
    ensures f.size > 4 * 1024 * 1024 ==> HandleFileChange(s, Some(f), objectUrl) == s.(error := Some(FileTooLarge))
  {
  }

  /** No file is reported even when the prompt is empty too, and a rejected
      edit makes no call and changes only the error. */
  lemma ValidationOrder(s: EditorState, model: ContentRequest -> Outcome<ContentResponse>)
    requires s.originalFile.None? || s.prompt == ""
    ensures HandleEdit(s, model) ==
              s.(error := Some(if s.originalFile.None? then UploadFirst else EnterEditingPrompt))
  {
  }

  /** A completed edit ends in the success phase exactly when the adapter
      returned an image, in the failure phase otherwise, and never loading;
      a success always has an image URL to download. */
  lemma EditEndsSettled(s: EditorState, model: ContentRequest -> Outcome<ContentResponse>)
    requires s.originalFile.Some? && s.prompt != "" && !s.isLoading
    ensures var r := HandleEdit(s, model);
            var outcome := Perform(EditCall(s.originalFile.value, s.prompt), model);
            (PhaseOf(r) == Succeeded <==> outcome.Success?)
            && (PhaseOf(r) == Failed <==> outcome.Failure?)
            && (outcome.Success? ==> r.editedImage.value.imageUrl.Some?)
  {
  }

  /** When the file is read, the editing fallback is never shown: the page
      stores the adapter's or the parser's message as it is. */
  lemma FailureShowsAdapterMessage(s: EditorState, model: ContentRequest -> Outcome<ContentResponse>)
    requires s.originalFile.Some? && s.prompt != ""
    ensures var outcome := Perform(EditCall(s.originalFile.value, s.prompt), model);
            outcome.Failure? ==> HandleEdit(s, model).error == Some(outcome.error)
  {
  }
}
