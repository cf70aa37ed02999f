# imagefix core, modelled in Dafny

imagefix is a browser front end over a remote image model with three pages:
a generator (text to image, optionally guided by a reference image), an
editor (image plus editing prompt) and a background remover. This project
models the sequential logic underneath those pages:

- the error classifier `getErrorMessage` of `services/geminiService.ts`: an
  ordered table of case-insensitive phrase rules with a generic fallback
  whose verb is cut out of the context tag (module `ErrorMessages`, with
  the string helpers of module `Text`);
- the four service adapters and their response normalisers, with the model
  call passed in as a function that either responds or throws (module
  `GeminiService`);
- the `onload` body of `fileToBase64`, which is copied verbatim into all
  three pages and is modelled once: the data-URL split and the MIME-type
  match `/:(.*?);/` (module `FileEncoder`);
- the download names: the prompt slug and the file-name stem (module
  `DownloadNames`);
- the three page controllers as immutable state records and pure
  transitions: file acceptance against the 4 MiB limit, validation order,
  the loading/success/failure transitions and the download action (modules
  `ImageGenerator`, `ImageEditor`, `BackgroundRemover`, sharing `Controls`).

Asynchrony is flattened: each handler is split into its synchronous start
(validation, then the state set before the first `await`), the awaited work
(`Perform`, which reads the file and calls an adapter) and the completion
(`Finish…`, which takes any outcome, success or failure). The model service
is a function parameter, so every property holds for every behaviour of the
remote model. A file is a record of its name, its size and the data URL the
browser's reader yields for it.

Where the code and its evident intent differ, the model follows the code:
the fallback verb is "generat", "edit" or "remov"; `editImage` has no
`break`, so the last image part wins; a file of exactly 4 MiB is accepted;
the adapters' own no-image errors are caught by their own `catch` and pass
through the classifier like any other error.

## Model

| member | source | states |
|---|---|---|
| `ErrorMessages.EffectiveMessage` | services/geminiService.ts:13 | a missing or empty error message is replaced by "An unknown error occurred while <context> the image."; any other message is kept unchanged; the result is never empty |
| `ErrorMessages.RemoveIngRunAtFirst` | services/geminiService.ts:34 | the `replace(/ing.*/, '')` scan removes exactly the text from the first "ing" up to the end of its line and keeps everything before it |
| `ErrorMessages.RemoveIngRun` | services/geminiService.ts:34 | the `replace(/ing.*/, '')` scan never lengthens the text, and leaves a text with no "ing" unchanged |
| `ErrorMessages.RemoveIngRunOfStem` | services/geminiService.ts:34 | when the first "ing" is followed by no line break, the replace keeps exactly the text before it |
| `ErrorMessages.ActionVerbOfStem` | services/geminiService.ts:34-35 | capitalising the first character, cutting from the first later "ing" and lower-casing yields the lower-cased text before that "ing" |
| `ErrorMessages.ActionVerb` | services/geminiService.ts:34-35 | the verb is no longer than the context tag and holds no upper-case letter |
| `ErrorMessages.ActionVerbs` | services/geminiService.ts:34-35 | the fallback verbs are the truncated stems "generat", "edit" and "remov"; for "removing background" the cut also swallows " background" |
| `ErrorMessages.GeneratingVerb` | services/geminiService.ts:34-35 | the verb for the generating context is "generat" |
| `ErrorMessages.EditingVerb` | services/geminiService.ts:34-35 | the verb for the editing context is "edit" |
| `ErrorMessages.RemovingVerb` | services/geminiService.ts:34-35 | the verb for the background-removal context is "remov" |
| `ErrorMessages.GetErrorMessage` | services/geminiService.ts:11-36 | the shown message is never empty; it is the reply the ordered rule table gives for the lower-cased effective message, so either one of the five fixed guidance texts or "Failed to <verb> image. " followed by the effective raw message |
| `ErrorMessages.ClassifyAsWritten` | services/geminiService.ts:16-31 | the `if` chain yields the safety category exactly when the lower-cased message contains "prompt was blocked", and the generic fallback exactly when it contains none of the six phrases |
| `ErrorMessages.FirstMatch` | services/geminiService.ts:16-31 | the index found is a rule that matches the lower-cased message, with no matching rule before it; nothing is found only when no rule matches |
| `ErrorMessages.ChainIsRuleTable` | services/geminiService.ts:16-31 | the chain of `if` tests equals classification by the ordered rule table; the fulfilment rule's context guard holds for every context, so the category depends on the message alone |
| `ErrorMessages.FirstMatchWins` | services/geminiService.ts:16-31 | a message falls in rule k's category if and only if rule k matches its lower-cased form and no earlier rule does |
| `ErrorMessages.FallbackWhenNothingMatches` | services/geminiService.ts:33-35 | the generic fallback is used if and only if none of the five rules matches |
| `ErrorMessages.FixedRepliesDistinct` | services/geminiService.ts:16-31 | two non-generic categories that give the same text are the same category |
| `ErrorMessages.InternalErrorWhileEditing` | services/geminiService.ts:29-30 | the raw message "Internal error" raised while editing matches the lower-case phrase "internal error" and is shown as the fulfilment guidance |
| `Text.IndexOf` | services/geminiService.ts:16 | the index found is an occurrence with none before it; nothing is found only when the pattern occurs nowhere (the meaning of `includes`) |
| `Text.JoinSplit` | components/ImageEditor.tsx:84 | joining the pieces of `split(c)` with `c` restores the original string |
| `Text.SplitAround` | components/ImageEditor.tsx:84 | splitting at one occurrence of the separator splits the text on each side on its own |
| `Text.SplitWithoutSeparator` | components/ImageGenerator.tsx:21 | a string without the separator splits into itself alone |
| `FileEncoder.SemicolonFrom` | components/ImageGenerator.tsx:26 | the first ';' after a position, found only when no line terminator comes before it (the lazy `.*?` cannot cross a line break) |
| `FileEncoder.MatchFrom` | components/ImageGenerator.tsx:26 | the match of `:(.*?);` is the leftmost ':' that has a ';' later on its line, ending at the nearest such ';'; nothing is found only when no ':' has one |
| `FileEncoder.MatchFromIsReported` | components/ImageGenerator.tsx:26 | the scan finds exactly the match a regular-expression engine reports (no match starts further left, none from the same start ends earlier), and nothing exactly when the header has no match |
| `FileEncoder.MimeTypeOf` | components/ImageGenerator.tsx:26 | the MIME type is never empty: when the pattern matches, it is the text captured by the leftmost, shortest match, or "application/octet-stream" when that capture is empty; with no match it is "application/octet-stream" |
| `FileEncoder.ParseDataUrl` | components/ImageGenerator.tsx:19-28 | an accepted payload is non-empty, has no ',' and comes with a non-empty MIME type; a rejection always carries "Invalid file format" |
| `FileEncoder.ParseRejectsExactly` | components/ImageEditor.tsx:11-17 | a data URL is rejected if and only if it has no ',', starts with ',', ends at its first ',', or has a second ',' right after the first |
| `FileEncoder.ParseAccepts` | components/BackgroundRemover.tsx:12-18 | header, ',', payload and then nothing or a further ',' is accepted with exactly that payload; text after a second ',' is dropped |
| `FileEncoder.MimeTypeRoundTrip` | components/ImageGenerator.tsx:26 | the MIME type in a "data:<type>;base64" header is read back unchanged, and an empty one becomes the octet-stream type |
| `FileEncoder.DataUrlRoundTrip` | components/ImageGenerator.tsx:20-27 | parsing a data URL built from a MIME type and a payload gives back that payload and type |
| `FileEncoder.EmptyPayloadRejected` | components/BackgroundRemover.tsx:12-16 | an empty file, whose data URL has nothing after the ',', is rejected |
| `GeminiService.ReferencePrompt` | services/geminiService.ts:71 | the reference text is the prompt, then ". The output image must have an aspect ratio of ", then the aspect ratio, then "." |
| `GeminiService.ExtractGenerated` | services/geminiService.ts:51-57 | success if and only if the image list is non-empty, with the JPEG data URL of the first image; otherwise the no-image error |
| `GeminiService.FirstInlineIndex` | services/geminiService.ts:95-101 | the index found is the first part with inline data; nothing is found only when no part has any |
| `GeminiService.FirstInline` | services/geminiService.ts:94-103 | an inline image is found if and only if there is a first candidate and one of its parts has inline data; what is found is the inline data of such a part with no inline part before it |
| `GeminiService.ExtractFromReference` | services/geminiService.ts:93-107 | success if and only if the first candidate has an inline part, giving the first one's data URL under its own MIME type; otherwise the no-image error |
| `GeminiService.ExtractBackgroundRemoved` | services/geminiService.ts:195-210 | success exactly as for the reference adapter, but the URL is always labelled image/png; otherwise the remover's no-image error |
| `GeminiService.LastImageIndex` | services/geminiService.ts:145-153 | the index found is the last part with inline data and no truthy text; nothing is found only when there is no such part |
| `GeminiService.EditScan` | services/geminiService.ts:141-154 | the edit loop leaves the URL of the last image part (or the one it started with) and the truthy texts appended in order (or the text it started with when there are none) |
| `GeminiService.ExtractEdited` | services/geminiService.ts:144-161 | success if and only if the first candidate has an image part; the URL is the last image part's, and the text is the concatenated truthy texts, or null when there are none |
| `GeminiService.Settle` | services/geminiService.ts:58-59 | a thrown error, including the adapter's own no-image error, becomes the classifier's message for the context; failures always carry a non-empty message |
| `GeminiService.GenerateImage` | services/geminiService.ts:39-61 | success if and only if the model responds with at least one image, with the JPEG data URL of the first; a thrown error becomes the classifier's reply to its message for 'generating', and an empty image list the classifier's reply to the generator's no-image text, also for 'generating' |
| `GeminiService.GenerateImageFromReference` | services/geminiService.ts:63-113 | success if and only if the model, asked with the image and the reference text, responds with an inline part; a success is the data URL of the first inline part under its own MIME type; a thrown error, and the reference no-image text when no part is inline, become the classifier's reply for 'generating' |
| `GeminiService.EditImage` | services/geminiService.ts:115-165 | success if and only if the model, asked with the image and the prompt, responds with a first candidate holding an image part; a success carries the last image part's URL and the concatenated truthy texts, or null when there are none; a thrown error, and the edit no-image text when there is no candidate or no image part, become the classifier's reply for 'editing' |
| `GeminiService.RemoveBackground` | services/geminiService.ts:167-216 | success if and only if the model, asked with the image and the removal instruction, responds with an inline part; a success is the first inline part's bytes as an image/png data URL; a thrown error, and the remover's no-image text when no part is inline, become the classifier's reply for 'removing background' |
| `GeminiService.GenerateNoImageIsClassified` | services/geminiService.ts:54-59 | an empty image list yields the classifier's rendering of the generator's no-image message, not the raw text |
| `GeminiService.EditInternalErrorIsGuidance` | services/geminiService.ts:161-163 | an "Internal error" thrown by the model while editing reaches the page as the fulfilment-failure guidance |
| `GeminiService.ReferenceAndRemoverAgree` | services/geminiService.ts:196-203 | the reference adapter and the remover stop at the same part: they succeed together and carry the same bytes, the remover relabelling them as PNG |
| `GeminiService.TextPartsAreNeverImages` | services/geminiService.ts:146-152 | when every inline part also has truthy text, editing fails with the no-image error |
| `GeminiService.LastImageWins` | services/geminiService.ts:145-153 | appending an image part makes it the edited image, whatever came before |
| `GeminiService.GeneratedUrlParsesBack` | services/geminiService.ts:53 | the generator's URL is read back by the file reader's parser as the same bytes typed image/jpeg |
| `GeminiService.RemovedUrlParsesBack` | services/geminiService.ts:199-202 | the remover's URL is read back as the model's bytes typed image/png |
| `DownloadNames.Sanitize` | components/ImageGenerator.tsx:93 | the length is kept; each ASCII letter or digit is kept in place, and every other character becomes '_' |
| `DownloadNames.Slug` | components/ImageGenerator.tsx:93-94 | the slug has length min(30, prompt length), only characters from [a-z0-9_], and holds each letter or digit lower-cased in place and '_' for anything else |
| `DownloadNames.GeneratedFileName` | components/ImageGenerator.tsx:93-95 | the name is "imagfix-" + slug + ".png", with "generated" in place of the slug exactly when the prompt is empty |
| `DownloadNames.SlugIdempotent` | components/ImageGenerator.tsx:93-94 | a slug is its own slug |
| `DownloadNames.SlugIgnoresTail` | components/ImageGenerator.tsx:94 | only the first thirty characters of the prompt matter |
| `DownloadNames.SlugForgetsCaseAndPunctuation` | components/ImageGenerator.tsx:93 | prompts differing only in letter case or in which non-alphanumeric characters they use share a slug |
| `DownloadNames.LastDot` | components/ImageEditor.tsx:84 | the index found holds the last '.'; nothing is found exactly when the name has no '.' |
| `DownloadNames.JoinAllButLast` | components/ImageEditor.tsx:84 | splitting on '.' and joining all but the last piece with '.' gives the text before the last '.', and nothing without one |
| `DownloadNames.Stem` | components/ImageEditor.tsx:84 | `split('.').slice(0, -1).join('.')` is the text before the last '.', earlier dots kept, and empty without one |
| `DownloadNames.StemOrDefault` | components/BackgroundRemover.tsx:86 | the stem is never empty: the computed stem, or "image" when it is empty or there is no file |
| `DownloadNames.StemDefaultsExactly` | components/ImageEditor.tsx:84 | the stem is "image" exactly when there is no file, no '.', the only cut is at index 0, or the text before the last '.' is "image" |
| `DownloadNames.EditedFileName` | components/ImageEditor.tsx:84-85 | the edited image's name is the uploaded name with its last '.' and what follows replaced by "-edited.png"; "image-edited.png" without a file, without a '.', or when the name starts at its last '.' |
| `DownloadNames.NoBackgroundFileName` | components/BackgroundRemover.tsx:86-87 | the same, with "-no-bg.png" |
| `DownloadNames.StemKeepsEarlierDots` | components/ImageEditor.tsx:84 | "a.b.png" has the stem "a.b" |
| `DownloadNames.StemWithoutDot` | components/ImageEditor.tsx:84 | a name without '.' gets the stem "image" |
| `DownloadNames.StemOfBareExtension` | components/BackgroundRemover.tsx:86 | ".png" gets the stem "image" |
| `Controls.ShownError` | components/ImageGenerator.tsx:82 | a non-empty error message is shown as it is; an empty one is replaced by the page's fallback |
| `ImageGenerator.HandleFileChange` | components/ImageGenerator.tsx:42-53 | no file changes nothing; an oversized file only sets "Reference image size must be less than 4MB."; a file within the limit becomes the reference with its object URL and clears the error; nothing else changes |
| `ImageGenerator.HandleClearReference` | components/ImageGenerator.tsx:55-61 | the reference file and its URL are both cleared and nothing else changes |
| `ImageGenerator.StartGenerate` | components/ImageGenerator.tsx:63-79 | no call exactly when the prompt is empty, and then only the error is set; otherwise loading starts with error and result cleared, and the reference path is chosen exactly when a reference file is present |
| `ImageGenerator.CallOf` | components/ImageGenerator.tsx:73-79 | the call carries the page's prompt and aspect ratio, and goes through the reference adapter exactly when a reference file is stored, with that file |
| `ImageGenerator.Perform` | components/ImageGenerator.tsx:72-79 | the prompt path is the text-to-image adapter; an unreadable reference fails with "Invalid file format"; a readable one is passed, as its payload and MIME type, to the reference adapter with the prompt and aspect ratio; failures carry a message |
| `ImageGenerator.FinishGenerate` | components/ImageGenerator.tsx:80-85 | loading ends; success stores the URL, failure stores the message or "An unexpected error occurred."; the prompt, the aspect ratio and the reference are untouched |
| `ImageGenerator.HandleGenerate` | components/ImageGenerator.tsx:63-86 | an empty prompt only sets "Please enter a prompt."; otherwise loading ends with prompt, aspect ratio and reference kept, and the page holds the awaited work's image with no error, or its message with no image |
| `ImageGenerator.HandleDownload` | components/ImageGenerator.tsx:88-95 | a name is offered exactly when there is a non-empty generated image, and it is the prompt-slug name |
| `ImageGenerator.DownloadAfterSuccess` | components/ImageGenerator.tsx:80-95 | after a generation whose awaited work succeeded, the download is offered under the prompt-slug name |
| `ImageGenerator.InitialValid` | components/ImageGenerator.tsx:34-40 | the initial state (no reference, not loading) satisfies the invariant the events preserve |
| `ImageGenerator.EventsPreserveValid` | components/ImageGenerator.tsx:42-86 | every event keeps a stored reference within the size limit, its URL present exactly with it, and nothing loading between events |
| `ImageGenerator.SizeLimitBoundary` | components/ImageGenerator.tsx:45-51 | a file of up to and including 4 MiB is accepted and clears the error; a larger one only sets "Reference image size must be less than 4MB." |
| `ImageGenerator.GenerateEndsSettled` | components/ImageGenerator.tsx:63-86 | a generation ends failed when rejected, otherwise succeeded exactly when the awaited work succeeded and failed exactly when it failed |
| `ImageGenerator.FailureShowsAdapterMessage` | components/ImageGenerator.tsx:81-82 | when the reference file, if any, is read, the page stores the failure's own message, so the fallback text is never shown |
| `ImageGenerator.EmptyPromptMakesNoCall` | components/ImageGenerator.tsx:64-67 | an empty prompt only sets "Please enter a prompt." |
| `ImageEditor.HandleFileChange` | components/ImageEditor.tsx:42-54 | no file changes nothing; an oversized file only sets "File size must be less than 4MB."; a file within the limit is stored with its object URL and clears the previous edit and the error |
| `ImageEditor.StartEdit` | components/ImageEditor.tsx:56-67 | a call is made exactly when there is a file and a non-empty prompt; a missing file is reported before a missing prompt; starting clears error and result and sets loading |
| `ImageEditor.Perform` | components/ImageEditor.tsx:69-72 | an unreadable file fails with "Invalid file format"; a readable one is passed, as its payload and MIME type, to the edit adapter with the prompt; a success has an image URL; failures carry a message |
| `ImageEditor.FinishEdit` | components/ImageEditor.tsx:72-77 | loading ends; success stores the response, failure stores the message or "An unexpected error occurred during editing." |
| `ImageEditor.HandleEdit` | components/ImageEditor.tsx:56-78 | a missing file or prompt only sets the matching error; otherwise loading ends with prompt and file kept, and the page holds the awaited work's response with no error, or its message with no response |
| `ImageEditor.HandleDownload` | components/ImageEditor.tsx:80-85 | a name is offered exactly when the edited response has a non-empty image URL; it is the uploaded name's stem, or "image", followed by "-edited.png" |
| `ImageEditor.DownloadAfterSuccess` | components/ImageEditor.tsx:72-85 | after an edit whose awaited work succeeded, the download is offered under the uploaded name's stem with "-edited.png" |
| `ImageEditor.InitialValid` | components/ImageEditor.tsx:35-40 | the initial state (no file, not loading) satisfies the invariant the events preserve |
| `ImageEditor.EventsPreserveValid` | components/ImageEditor.tsx:42-78 | every event keeps a stored file within the size limit, its URL present exactly with it, and nothing loading between events |
| `ImageEditor.SizeLimitBoundary` | components/ImageEditor.tsx:45-52 | a file of up to and including 4 MiB is stored and clears the previous edit and the error; a larger one only sets "File size must be less than 4MB." |
| `ImageEditor.ValidationOrder` | components/ImageEditor.tsx:57-64 | a rejected edit only sets the error: "Please upload an image first." whenever the file is missing, even with an empty prompt, otherwise "Please enter an editing prompt." |
| `ImageEditor.EditEndsSettled` | components/ImageEditor.tsx:65-77 | an edit ends succeeded exactly when the awaited work succeeded, failed exactly when it failed, and a success has an image URL |
| `ImageEditor.FailureShowsAdapterMessage` | components/ImageEditor.tsx:73-74 | when the file is read, the page stores the failure's own message, never the editing fallback |
| `BackgroundRemover.HandleFileChange` | components/BackgroundRemover.tsx:48-60 | no file changes nothing; an oversized file only sets "File size must be less than 4MB."; a file within the limit is stored with its object URL and clears the previous result and the error |
| `BackgroundRemover.StartRemoval` | components/BackgroundRemover.tsx:62-69 | the call is made exactly when there is a file, with no prompt needed; otherwise only "Please upload an image first." is set |
| `BackgroundRemover.Perform` | components/BackgroundRemover.tsx:71-73 | an unreadable file fails with "Invalid file format"; a readable one is passed, as its payload and MIME type, to the remover adapter; failures carry a message |
| `BackgroundRemover.FinishRemoval` | components/BackgroundRemover.tsx:74-79 | loading ends; success stores the URL, failure stores the message or "An unexpected error occurred." |
| `BackgroundRemover.HandleRemoveBackground` | components/BackgroundRemover.tsx:62-80 | without a file only "Please upload an image first." is set; otherwise loading ends with the file kept, and the page holds the awaited work's URL with no error, or its message with no result |
| `BackgroundRemover.HandleDownload` | components/BackgroundRemover.tsx:82-87 | a name is offered exactly when there is a non-empty result URL; it is the uploaded name's stem, or "image", followed by "-no-bg.png" |
| `BackgroundRemover.DownloadAfterSuccess` | components/BackgroundRemover.tsx:74-87 | after a removal whose awaited work succeeded, the download is offered under the uploaded name's stem with "-no-bg.png" |
| `BackgroundRemover.InitialValid` | components/BackgroundRemover.tsx:42-46 | the initial state (no file, not loading) satisfies the invariant the events preserve |
| `BackgroundRemover.EventsPreserveValid` | components/BackgroundRemover.tsx:48-80 | every event keeps a stored file within the size limit, its URL present exactly with it, and nothing loading between events |
| `BackgroundRemover.SizeLimitBoundary` | components/BackgroundRemover.tsx:51-58 | a file of up to and including 4 MiB is stored and clears the previous result and the error; a larger one only sets "File size must be less than 4MB." |
| `BackgroundRemover.NoFileMakesNoCall` | components/BackgroundRemover.tsx:63-66 | without a file the action only sets "Please upload an image first." |
| `BackgroundRemover.RemovalEndsSettled` | components/BackgroundRemover.tsx:67-79 | a removal ends succeeded exactly when the awaited work succeeded and failed exactly when it failed |
| `BackgroundRemover.FailureShowsAdapterMessage` | components/BackgroundRemover.tsx:75-76 | when the file is read, the page stores the failure's own message, never the fallback |

## Left out

- `Text.Lower`: `toLowerCase` and `toUpperCase` fold ASCII letters only; Unicode case mapping (including mappings that change length) is not modelled.
- `ErrorMessages.GetErrorMessage`: rule matching inherits the ASCII-only lower-casing of `Text.Lower`, so a phrase hidden behind non-ASCII case mapping is not modelled.
- Strings are sequences of characters, not UTF-16 code units: an astral character is one character here, while the slug's `replace` turns it into two '_'.
- The `@google/genai` client, model names, request configuration (image count, output type, response modalities) and the network call: the model is a function parameter from request to outcome.
- The module-level `API_KEY` check and the `console.error` logging in `getErrorMessage`: process environment and I/O.
- A response whose candidate has no `content` or `parts`, or whose generated image has no `image` object: reading through the missing field throws a `TypeError` that the same `catch` classifies; the model takes these fields as present (a missing list is an empty one).
- A missing `imageBytes`, `data` or `mimeType`: the template literal does not throw but writes the text "undefined" into the data URL; the model types these fields as strings, so that URL is not modelled.
- `FileReader` asynchrony and `onerror`: a file carries the data URL its read would yield. A failed read rejects with an event that has no `message`, and that is the only way the pages show their fallback texts ("An unexpected error occurred." and "An unexpected error occurred during editing."); it is not modelled.
- `URL.createObjectURL`/`revokeObjectURL` and the download link's DOM handling: the object URL is an input and the download yields only the file name.
- A late response overwriting a newer request's state: handlers are run to completion one at a time.
- Whether the base64 payload is valid: the source never checks it.
- JSX rendering, the prompt and aspect-ratio setters, the loading messages, `LoadingIndicator.tsx`, `Tabs.tsx`, `Header.tsx` and `App.tsx`: presentation only.
