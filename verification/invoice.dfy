/** The values exchanged with the two external collaborators: the page images the
    rasteriser produces, the record the extraction service returns, and what either
    of them may throw. */
module Invoice {
  import opened Wrappers

  /** A JavaScript number, kept opaque as its 64-bit IEEE-754 pattern. */
  datatype JsNumber = JsNumber(bits: bv64)

  /** One rendered page, as the base64 payload of a JPEG data URL. */
  type Image = string

  /** An extracted invoice. Every field may be missing: the service's JSON is cast to
      this shape without validation, and the CSV writer reads the fields with optional
      chaining. The pipeline always fills in `fileName`. */
  datatype InvoiceData = InvoiceData(
    fileName: Option<string>,
    invoiceNumber: Option<string>,
    vendorName: Option<string>,
    invoiceDate: Option<string>,
    totalAmount: Option<JsNumber>)

  /** A value a collaborator throws or rejects with: an `Error` object carrying a
      message, or anything else (a reader's error event, a string, ...). */
  datatype Thrown = ErrorObject(message: string) | OtherValue

  /** The text used for values that are not `Error` objects. */
  const UnknownErrorMessage: string := "An unknown error occurred."

  /** The message recorded against a failed file: the error's own message, or the
      fixed fallback text for anything that is not an `Error`. */
  function ErrorMessage(t: Thrown): (m: string)
    ensures t.ErrorObject? ==> m == t.message
    ensures t.OtherValue? ==> m == UnknownErrorMessage
  {
    match t
    case ErrorObject(msg) => msg
    case OtherValue => UnknownErrorMessage
  }

  /** The page handed to the extractor: the first one, or None (`undefined`) when the
      document rendered no page at all. */
  function FirstPage(images: seq<Image>): (r: Option<Image>)
    ensures r.Some? <==> |images| > 0
    ensures r.Some? ==> r.value == images[0]
  {
    if |images| > 0 then Some(images[0]) else None
  }
}
