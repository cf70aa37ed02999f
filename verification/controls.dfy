/** What the three page controllers share: the `err.message || fallback`
    rule for failures and the phase a page is in. */
module Controls {

  const UploadFirst: string := "Please upload an image first."
  const UnexpectedError: string := "An unexpected error occurred."

  /** `err.message || fallback`: a missing message is modelled as "". */
  function ShownError(message: string, fallback: string): (r: string)
    ensures message != "" ==> r == message
    ensures message == "" ==> r == fallback
  {
    if message != "" then message else fallback
  }

  /** The phase a page shows: waiting for input, waiting for the model, or
      showing a result or an error. */
  datatype Phase = Idle | Loading | Succeeded | Failed
}
