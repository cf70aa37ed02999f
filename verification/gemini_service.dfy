/** The service layer: the four adapters that send a request to the image
    model and normalise its response into a data URL (or an image with an
    optional caption), routing every failure through `getErrorMessage`.
    The model itself is a function parameter: a request goes in, and either
    a response comes back or an error with an optional message is thrown. */
module GeminiService {

  import opened Wrappers
  import opened Text
  import opened ErrorMessages
  import opened FileEncoder

  /** Base64 bytes and their MIME type, as sent and as returned. */
  datatype InlineData = InlineData(data: string, mimeType: string)

  /** One part of a candidate: optional text, optional inline image. */
  datatype Part = Part(text: Option<string>, inlineData: Option<InlineData>)

  datatype Candidate = Candidate(parts: seq<Part>)

  /** The multimodal model's answer; a missing candidate list is empty. */
  datatype ContentResponse = ContentResponse(candidates: seq<Candidate>)

  datatype GeneratedImage = GeneratedImage(imageBytes: string)

  /** The image model's answer; a missing image list is empty. */
  datatype ImagesResponse = ImagesResponse(generatedImages: seq<GeneratedImage>)

  /** What a call to the model does: it responds, or it throws an error whose
      `message` may be missing. */
  datatype Outcome<+R> = Responded(response: R) | Threw(message: Option<string>)

  /** A text-to-image request. */
  datatype ImagesRequest = ImagesRequest(prompt: string, aspectRatio: string)

  /** A multimodal request: one inline image followed by one text part. */
  datatype ContentRequest = ContentRequest(image: InlineData, text: string)

  /** `EditedImageResponse` of `types.ts`. */
  datatype EditedImageResponse = EditedImageResponse(imageUrl: Option<string>, text: Option<string>)

  const NoGeneratedImage: string :=
    "The model did not generate an image. This could be due to the prompt's content. Please try a different prompt."
  const NoReferenceImage: string :=
    "The AI did not return an image based on the reference. It might not have been able to fulfill the request. Try a different prompt or image."
  const NoEditedImage: string :=
    "The AI did not return an edited image. It might not have been able to fulfill the request. Try rephrasing your prompt."
  const NoBackgroundRemovedImage: string :=
    "The AI did not return an image. It might have been unable to process the request."

  const RemovalInstruction: string :=
    "Remove the background from this image. The main subject should be preserved. The output must be a PNG with a transparent background."

  const AspectRatioNote: string := ". The output image must have an aspect ratio of "

  /** The text sent with a reference image: the prompt, then the aspect-ratio
      instruction, then a full stop. */
  function ReferencePrompt(prompt: string, aspectRatio: string): (r: string)
    ensures |r| == |prompt| + |AspectRatioNote| + |aspectRatio| + 1
    ensures r[..|prompt|] == prompt
    ensures r[|prompt|..|prompt| + |AspectRatioNote|] == AspectRatioNote
    ensures r[|r| - 1 - |aspectRatio|..|r| - 1] == aspectRatio && r[|r| - 1] == '.'
  {
    prompt + AspectRatioNote + aspectRatio + "."
  }

  /** The data URL of an inline image under a given MIME type. */
  function InlineUrl(d: InlineData, mimeType: string): string
  {
    DataUrl(mimeType, d.data)
  }

  /** `generateImage`'s extraction: the first generated image as a JPEG URL. */
  function ExtractGenerated(response: ImagesResponse): (r: Result<string, string>)
    ensures r.Success? <==> |response.generatedImages| > 0
    ensures r.Success? ==> r.value == DataUrl("image/jpeg", response.generatedImages[0].imageBytes)
    ensures r.Failure? ==> r.error == NoGeneratedImage
  {
    if |response.generatedImages| > 0 then Success(DataUrl("image/jpeg", response.generatedImages[0].imageBytes))
    else Failure(NoGeneratedImage)
  }

  /** The index of the first part carrying an inline image. */
  function FirstInlineIndex(parts: seq<Part>): (r: Option<nat>)
    ensures r.Some? ==> r.value < |parts| && parts[r.value].inlineData.Some?
    ensures r.Some? ==> forall j :: 0 <= j < r.value ==> parts[j].inlineData.None?
    ensures r.None? ==> forall j :: 0 <= j < |parts| ==> parts[j].inlineData.None?
    decreases |parts|
  {
    if |parts| == 0 then None
    else if parts[0].inlineData.Some? then Some(0)
    else match FirstInlineIndex(parts[1..])
         case Some(k) => Some(k + 1)
         case None => None
  }

  /** The inline image the break-at-first loop stops at, in `candidates[0]`. */
  function FirstInline(response: ContentResponse): (r: Option<InlineData>)
    ensures r.Some? ==> |response.candidates| > 0
    ensures r.Some? <==> |response.candidates| > 0
                         && exists j :: 0 <= j < |response.candidates[0].parts|
                                        && response.candidates[0].parts[j].inlineData.Some?
    ensures r.Some? ==>
              exists i :: 0 <= i < |response.candidates[0].parts|
                          && response.candidates[0].parts[i].inlineData == r
                          && forall j :: 0 <= j < i ==> response.candidates[0].parts[j].inlineData.None?
  {
    if |response.candidates| == 0 then None
    else match FirstInlineIndex(response.candidates[0].parts)
         case Some(i) => response.candidates[0].parts[i].inlineData
         case None => None
  }

  /** `generateImageFromReference`'s extraction: the first inline image of
      the first candidate, under the MIME type it reports. */
  function ExtractFromReference(response: ContentResponse): (r: Result<string, string>)
    ensures r.Success? <==> FirstInline(response).Some?
    ensures r.Success? ==> r.value == InlineUrl(FirstInline(response).value, FirstInline(response).value.mimeType)
    ensures r.Failure? ==> r.error == NoReferenceImage
  {
    match FirstInline(response)
    case Some(d) => Success(InlineUrl(d, d.mimeType))
    case None => Failure(NoReferenceImage)
  }

  /** `removeBackground`'s extraction: the same part, always labelled PNG. */
  function ExtractBackgroundRemoved(response: ContentResponse): (r: Result<string, string>)
    ensures r.Success? <==> FirstInline(response).Some?
    ensures r.Success? ==> r.value == InlineUrl(FirstInline(response).value, "image/png")
    ensures r.Failure? ==> r.error == NoBackgroundRemovedImage
  {
    match FirstInline(response)
    case Some(d) => Success(InlineUrl(d, "image/png"))
    case None => Failure(NoBackgroundRemovedImage)
  }

  /** A part whose text is truthy. */
  predicate HasText(p: Part)
  {
    p.text.Some? && p.text.value != ""
  }

  /** A part the edit loop takes as an image: inline data and no truthy text. */
  predicate IsImagePart(p: Part)
  {
    !HasText(p) && p.inlineData.Some?
  }

  /** `text || ''`. */
  function Concat(text: Option<string>): string
  {
    match text
    case Some(t) => t
    case None => ""
  }

  /** One iteration of `editImage`'s loop body. */
  function EditStep(acc: EditedImageResponse, p: Part): EditedImageResponse
  {
    if HasText(p) then acc.(text := Some(Concat(acc.text) + p.text.value))
    else if p.inlineData.Some? then acc.(imageUrl := Some(InlineUrl(p.inlineData.value, p.inlineData.value.mimeType)))
    else acc
  }

  /** The index of the last part that is taken as an image. */
  function LastImageIndex(parts: seq<Part>): (r: Option<nat>)
    ensures r.Some? ==> r.value < |parts| && IsImagePart(parts[r.value])
    ensures r.Some? ==> forall j :: r.value < j < |parts| ==> !IsImagePart(parts[j])
    ensures r.None? ==> forall j :: 0 <= j < |parts| ==> !IsImagePart(parts[j])
    decreases |parts|
  {
    if |parts| == 0 then None
    else if IsImagePart(parts[|parts| - 1]) then Some(|parts| - 1)
    else LastImageIndex(parts[..|parts| - 1])
  }

  /** The truthy texts of the parts, in order, joined with nothing between. */
  function Captions(parts: seq<Part>): string
    decreases |parts|
  {
    if |parts| == 0 then ""
    else (if HasText(parts[0]) then parts[0].text.value else "") + Captions(parts[1..])
  }

  /** The last image part of a list whose head is dropped. */
  lemma LastImageIndexTail(parts: seq<Part>)
    requires |parts| > 0
    ensures LastImageIndex(parts) ==
              match LastImageIndex(parts[1..])
              case Some(k) => Some(k + 1)
              case None => if IsImagePart(parts[0]) then Some(0) else None
  {
    assert forall j :: 0 < j < |parts| ==> parts[j] == parts[1..][j - 1];
  }

  /** The URL of the last image part, or `fallback` without one. */
  function LastImageUrl(parts: seq<Part>, fallback: Option<string>): Option<string>
  {
    match LastImageIndex(parts)
    case Some(i) => Some(InlineUrl(parts[i].inlineData.value, parts[i].inlineData.value.mimeType))
    case None => fallback
  }

  /** The accumulated text once `captions` has been appended. */
  function WithCaptions(text: Option<string>, captions: string): Option<string>
  {
    if captions == "" then text else Some(Concat(text) + captions)
  }

  /** One loop step, seen from the URL: the head part only matters when no
      later part is an image. */
  lemma LastImageUrlStep(parts: seq<Part>, acc: EditedImageResponse)
    requires |parts| > 0
    ensures LastImageUrl(parts[1..], EditStep(acc, parts[0]).imageUrl) == LastImageUrl(parts, acc.imageUrl)
  {
    LastImageIndexTail(parts);
  }

  /** One loop step, seen from the text: the head's text comes first. */
  lemma WithCaptionsStep(parts: seq<Part>, acc: EditedImageResponse)
    requires |parts| > 0
    ensures WithCaptions(EditStep(acc, parts[0]).text, Captions(parts[1..])) == WithCaptions(acc.text, Captions(parts))
  {
    var c := Captions(parts[1..]);
    if HasText(parts[0]) {
      var t := parts[0].text.value;
      assert Captions(parts) == t + c;
      assert Concat(acc.text) + t + c == Concat(acc.text) + (t + c);
      assert t + "" == t;
    } else {
      assert Captions(parts) == c;
    }
  }

  /** `editImage`'s loop over the parts, front to back, without a `break`.
      What it leaves behind, stated without the loop: the last image part
      gives the URL, and the truthy texts are appended in order. */
  function EditScan(parts: seq<Part>, acc: EditedImageResponse): (r: EditedImageResponse)
    ensures r.imageUrl ==
              (match LastImageIndex(parts)
               case Some(i) => Some(InlineUrl(parts[i].inlineData.value, parts[i].inlineData.value.mimeType))
               case None => acc.imageUrl)
    ensures r.text == (if Captions(parts) == "" then acc.text else Some(Concat(acc.text) + Captions(parts)))
    decreases |parts|
  {
    if |parts| == 0 then acc
    else
      LastImageUrlStep(parts, acc);
      WithCaptionsStep(parts, acc);
      EditScan(parts[1..], EditStep(acc, parts[0]))
  }

  /** `editImage`'s extraction: the loop over the first candidate's parts,
      and a failure when it found no image. */
  function ExtractEdited(response: ContentResponse): (r: Result<EditedImageResponse, string>)
    ensures r.Success? <==> |response.candidates| > 0 && LastImageIndex(response.candidates[0].parts).Some?
    ensures r.Success? ==>
              var parts := response.candidates[0].parts;
              var i := LastImageIndex(parts).value;
              r.value.imageUrl == Some(InlineUrl(parts[i].inlineData.value, parts[i].inlineData.value.mimeType))
              && r.value.text == (if Captions(parts) == "" then None else Some(Captions(parts)))
    ensures r.Failure? ==> r.error == NoEditedImage
  {
    if |response.candidates| == 0 then Failure(NoEditedImage)
    else
      var parts := response.candidates[0].parts;
      var scanned := EditScan(parts, EditedImageResponse(None, None));
      assert "" + Captions(parts) == Captions(parts);
      if scanned.imageUrl.None? then Failure(NoEditedImage) else Success(scanned)
  }

  /** The `try`/`catch` around every adapter: a thrown error, including the
      adapter's own no-image error, is replaced by the classifier's message
      for the adapter's context. */
  function Settle<R, T>(outcome: Outcome<R>, extract: R -> Result<T, string>, ctx: Context): (r: Result<T, string>)
    ensures r.Success? <==> outcome.Responded? && extract(outcome.response).Success?
    ensures r.Success? ==> r.value == extract(outcome.response).value
    ensures r.Failure? ==> r.error != ""
    ensures outcome.Threw? ==> r == Failure(GetErrorMessage(outcome.message, ctx))
    ensures outcome.Responded? && extract(outcome.response).Failure? ==>
              r == Failure(GetErrorMessage(Some(extract(outcome.response).error), ctx))
  {
    match outcome
    case Threw(message) => Failure(GetErrorMessage(message, ctx))
    case Responded(response) =>
      match extract(response)
      case Success(v) => Success(v)
      case Failure(e) => Failure(GetErrorMessage(Some(e), ctx))
  }

  /** `generateImage(prompt, aspectRatio)`. */
  function GenerateImage(model: ImagesRequest -> Outcome<ImagesResponse>, prompt: string, aspectRatio: string)
    : (r: Result<string, string>)
    ensures r.Success? <==> model(ImagesRequest(prompt, aspectRatio)).Responded?
                            && |model(ImagesRequest(prompt, aspectRatio)).response.generatedImages| > 0
    ensures r.Success? ==>
              r.value == DataUrl("image/jpeg", model(ImagesRequest(prompt, aspectRatio)).response.generatedImages[0].imageBytes)
    ensures r.Failure? ==> r.error != ""
    ensures var outcome := model(ImagesRequest(prompt, aspectRatio));
            outcome.Threw? ==> r == Failure(GetErrorMessage(outcome.message, Generating))
    ensures var outcome := model(ImagesRequest(prompt, aspectRatio));
            outcome.Responded? && |outcome.response.generatedImages| == 0 ==>
              r == Failure(GetErrorMessage(Some(NoGeneratedImage), Generating))
  {
    Settle(model(ImagesRequest(prompt, aspectRatio)), ExtractGenerated, Generating)
  }

  /** `generateImageFromReference(base64, mimeType, prompt, aspectRatio)`. */
  function GenerateImageFromReference(model: ContentRequest -> Outcome<ContentResponse>,
                                      base64: string, mimeType: string, prompt: string, aspectRatio: string)
    : (r: Result<string, string>)
    ensures var outcome := model(ContentRequest(InlineData(base64, mimeType), ReferencePrompt(prompt, aspectRatio)));
            r.Success? <==> outcome.Responded? && FirstInline(outcome.response).Some?
    ensures var outcome := model(ContentRequest(InlineData(base64, mimeType), ReferencePrompt(prompt, aspectRatio)));
            r.Success? ==> r.value == DataUrl(FirstInline(outcome.response).value.mimeType,
                                              FirstInline(outcome.response).value.data)
    ensures r.Failure? ==> r.error != ""
    ensures var outcome := model(ContentRequest(InlineData(base64, mimeType), ReferencePrompt(prompt, aspectRatio)));
            outcome.Threw? ==> r == Failure(GetErrorMessage(outcome.message, Generating))
    ensures var outcome := model(ContentRequest(InlineData(base64, mimeType), ReferencePrompt(prompt, aspectRatio)));
            outcome.Responded? && FirstInline(outcome.response).None? ==>
              r == Failure(GetErrorMessage(Some(NoReferenceImage), Generating))
  {
    Settle(model(ContentRequest(InlineData(base64, mimeType), ReferencePrompt(prompt, aspectRatio))),
           ExtractFromReference, Generating)
  }

  /** `editImage(base64, mimeType, prompt)`. */
  function EditImage(model: ContentRequest -> Outcome<ContentResponse>,
                     base64: string, mimeType: string, prompt: string)
    : (r: Result<EditedImageResponse, string>)
    ensures var outcome := model(ContentRequest(InlineData(base64, mimeType), prompt));
            r.Success? <==> outcome.Responded? && |outcome.response.candidates| > 0
                            && LastImageIndex(outcome.response.candidates[0].parts).Some?
    ensures var outcome := model(ContentRequest(InlineData(base64, mimeType), prompt));
            r.Success? ==>
              var parts := outcome.response.candidates[0].parts;
              var i := LastImageIndex(parts).value;
              r.value.imageUrl == Some(InlineUrl(parts[i].inlineData.value, parts[i].inlineData.value.mimeType))
              && r.value.text == (if Captions(parts) == "" then None else Some(Captions(parts)))
    ensures r.Failure? ==> r.error != ""
    ensures var outcome := model(ContentRequest(InlineData(base64, mimeType), prompt));
            outcome.Threw? ==> r == Failure(GetErrorMessage(outcome.message, Editing))
    ensures var outcome := model(ContentRequest(InlineData(base64, mimeType), prompt));
            outcome.Responded?
            && (|outcome.response.candidates| == 0 || LastImageIndex(outcome.response.candidates[0].parts).None?) ==>
              r == Failure(GetErrorMessage(Some(NoEditedImage), Editing))
  {
    Settle(model(ContentRequest(InlineData(base64, mimeType), prompt)), ExtractEdited, Editing)
  }

  /** `removeBackground(base64, mimeType)`. */
  function RemoveBackground(model: ContentRequest -> Outcome<ContentResponse>, base64: string, mimeType: string)
    : (r: Result<string, string>)
    ensures var outcome := model(ContentRequest(InlineData(base64, mimeType), RemovalInstruction));
            r.Success? <==> outcome.Responded? && FirstInline(outcome.response).Some?
    ensures var outcome := model(ContentRequest(InlineData(base64, mimeType), RemovalInstruction));
            r.Success? ==> r.value == DataUrl("image/png", FirstInline(outcome.response).value.data)
    ensures r.Failure? ==> r.error != ""
    ensures var outcome := model(ContentRequest(InlineData(base64, mimeType), RemovalInstruction));
            outcome.Threw? ==> r == Failure(GetErrorMessage(outcome.message, RemovingBackground))
    ensures var outcome := model(ContentRequest(InlineData(base64, mimeType), RemovalInstruction));
            outcome.Responded? && FirstInline(outcome.response).None? ==>
              r == Failure(GetErrorMessage(Some(NoBackgroundRemovedImage), RemovingBackground))
  {
    Settle(model(ContentRequest(InlineData(base64, mimeType), RemovalInstruction)),
           ExtractBackgroundRemoved, RemovingBackground)
  }

  /** The generator's own no-image error is not shown as written: it goes
      through the classifier like any error the model throws. */
  lemma GenerateNoImageIsClassified(model: ImagesRequest -> Outcome<ImagesResponse>, prompt: string, aspectRatio: string)
    requires model(ImagesRequest(prompt, aspectRatio)) == Responded(ImagesResponse([]))
    ensures GenerateImage(model, prompt, aspectRatio) == Failure(GetErrorMessage(Some(NoGeneratedImage), Generating))
  {
  }

  /** The editor, when the model throws "Internal error", fails with the
      fulfilment-failure guidance rather than the raw text. */
  lemma EditInternalErrorIsGuidance(model: ContentRequest -> Outcome<ContentResponse>,
                                    base64: string, mimeType: string, prompt: string)
    requires model(ContentRequest(InlineData(base64, mimeType), prompt)) == Threw(Some("Internal error"))
    ensures EditImage(model, base64, mimeType, prompt) == Failure(FulfillmentMessage)
  {
    InternalErrorWhileEditing();
  }

  /** The reference adapter and the remover stop at the same part: they
      succeed together, and carry the same base64 payload, the remover
      relabelling it as PNG. */
  lemma ReferenceAndRemoverAgree(response: ContentResponse)
    ensures ExtractFromReference(response).Success? <==> ExtractBackgroundRemoved(response).Success?
    ensures ExtractFromReference(response).Success? ==>
              var d := FirstInline(response).value;
              ExtractFromReference(response).value == DataUrl(d.mimeType, d.data)
              && ExtractBackgroundRemoved(response).value == DataUrl("image/png", d.data)
  {
  }

  /** A part with truthy text is never taken as an image, so a response whose
      inline images all come with text fails to edit. */
  lemma TextPartsAreNeverImages(response: ContentResponse)
    requires |response.candidates| > 0
    requires forall j :: 0 <= j < |response.candidates[0].parts| ==>
               response.candidates[0].parts[j].inlineData.Some? ==> HasText(response.candidates[0].parts[j])
    ensures ExtractEdited(response) == Failure(NoEditedImage)
  {
  }

  /** Without a `break`, the last image part wins: appending an image part
      to the first candidate makes it the edited image. */
  lemma LastImageWins(parts: seq<Part>, d: InlineData)
    ensures var r := ExtractEdited(ContentResponse([Candidate(parts + [Part(None, Some(d))])]));
            r.Success? && r.value.imageUrl == Some(InlineUrl(d, d.mimeType))
  {
    var all := parts + [Part(None, Some(d))];
    assert IsImagePart(all[|all| - 1]);
  }

  /** The URL the generator returns is a data URL the file encoder reads
      back as the same bytes, typed as JPEG. */
  lemma GeneratedUrlParsesBack(response: ImagesResponse)
    requires |response.generatedImages| > 0
    requires response.generatedImages[0].imageBytes != "" && ',' !in response.generatedImages[0].imageBytes
    ensures ParseDataUrl(ExtractGenerated(response).value)
            == Success(Payload(response.generatedImages[0].imageBytes, "image/jpeg"))
  {
    var mime := "image/jpeg";
    assert forall m :: 0 <= m < |mime| ==> mime[m] != ',' && mime[m] != ';' && !IsLineTerminator(mime[m]);
    DataUrlRoundTrip(mime, response.generatedImages[0].imageBytes);
  }

  /** The URL the remover returns reads back as the model's bytes, as PNG. */
  lemma RemovedUrlParsesBack(response: ContentResponse)
    requires FirstInline(response).Some?
    requires FirstInline(response).value.data != "" && ',' !in FirstInline(response).value.data
    ensures ParseDataUrl(ExtractBackgroundRemoved(response).value)
            == Success(Payload(FirstInline(response).value.data, "image/png"))
  {
    var mime := "image/png";
    assert forall m :: 0 <= m < |mime| ==> mime[m] != ',' && mime[m] != ';' && !IsLineTerminator(mime[m]);
    DataUrlRoundTrip(mime, FirstInline(response).value.data);
  }
}
