# Invoice extractor: batch pipeline, CSV export and PDF selection in Dafny

This project models the sequential logic of a small browser application that
extracts invoice data from PDF files. The user picks or drops files. Only PDFs are
kept. Each kept file is rendered to page images. The first page goes to a hosted
model that returns an invoice record. The records are then shown and exported as CSV.
Three pieces of that application are modelled, each as pure Dafny over `seq`s and
strings:

- **File selection** (`Uploader`, from `components/FileUploader.tsx`). The drop handler
  and the file-input handler keep the files whose declared media type is exactly
  `application/pdf`, in order. They call the selection callback whenever the raw list is
  present and non-empty, even if no file survives the filter.
- **Batch pipeline** (`Pipeline`, from `App.tsx`). Selecting files replaces the batch
  with one `pending` entry per file and clears the results and the global error.
  Processing walks the entries one at a time in order. Each entry is marked
  `processing`, then rasterised, and its first page (or `undefined` when there is none)
  goes to the extractor. A success appends the record, tagged with the file name, to a
  local list. A failure marks only that entry `error` with the thrown `Error`'s message,
  or with `An unknown error occurred.` for any other thrown value. Processing always
  continues with the next entry. The results are cleared before the loop and published
  once, after it. The rasteriser and the extractor are function parameters (`Rasterizer`,
  `Extractor`) returning a value or a thrown value. They are modelled as total,
  deterministic functions of their argument, and every property holds for every such pair.
- **CSV export** (`Csv`, from `downloadCSV` in `App.tsx`). The output starts with a fixed,
  unquoted header line. One line per record follows, and lines are joined with `\n`. Each
  of the four string fields is quoted, with every embedded `"` doubled (section 2,
  rule 7 of RFC 4180). The amount is written bare. Nothing is produced for an empty
  result list. The module also contains the RFC 4180 reader used to state the round
  trip: reading the export back gives the header record and then exactly one record per
  invoice, in order, with every field's text.

`Wrappers` holds `Option`/`Result`. `Seqs` holds an order-preserving filter and the
positions it keeps; the upload filter and the success positions of the batch both use it.
`Invoice` holds the record, the opaque number type, thrown values, the error-message
rule and the first-page rule.

Notes on the source's behaviour that the model keeps:

- A document with no pages is not an error of its own. The extractor receives
  `undefined` (`FirstPage` gives `None`), and the abstract extractor decides what happens.
- Lines are joined with a bare line feed, not CRLF.
- A missing string field is written as the quoted text `undefined`. The writer uses
  optional chaining inside a template literal, so `TemplateText(None)` is `"undefined"`.
- A missing amount is written as an empty cell, because `Array.prototype.join` renders
  `undefined` as nothing.
- Re-marking an entry `processing` or `success` keeps any earlier message (`{ ...fs, status }`).
  This matters only when the same batch is processed twice.
- A FileReader failure rejects with an event, not an `Error`, so the recorded message
  is the fixed fallback text. The model covers this through `Thrown.OtherValue`.

## Model

| member | source | states |
|---|---|---|
| Uploader.PdfFiles | components/FileUploader.tsx:37 | `IsPdf` is the exact media-type test `file.type === 'application/pdf'`; every kept file is a PDF and comes from the raw list; every PDF of the raw list is kept; the result is no longer than the input |
| Uploader.HandleDrop | components/FileUploader.tsx:31-40 | the callback fires exactly when the dropped list is present and non-empty, and it receives the PDF-filtered list |
| Uploader.HandleFileChange | components/FileUploader.tsx:42-48 | the callback fires exactly when the chosen list is present and non-empty, and it receives the PDF-filtered list |
| Uploader.SelectionIsOrderedSubsequence | components/FileUploader.tsx:45 | the k-th kept file is the raw file at the k-th PDF position, and those positions ascend (an order-preserving subsequence) |
| Uploader.SelectionKeepsEveryPdf | components/FileUploader.tsx:37 | each PDF occurs in the result as often as in the raw list; no other file occurs in it |
| Uploader.SelectionIdempotent | components/FileUploader.tsx:37 | filtering an already filtered selection returns it unchanged |
| Uploader.DropAndInputAgree | components/FileUploader.tsx:35-46 | the drop path and the input path give the callback the same argument for the same raw list, and neither fires for a missing or empty list |
| Uploader.NoPdfStillFires | components/FileUploader.tsx:35-38 | a non-empty drop without any PDF still fires the callback, with an empty list |
| Uploader.MixedSelectionExample | components/FileUploader.tsx:43-46 | one non-PDF between two PDFs yields exactly the two PDFs, in order |
| Seqs.FilterIsPositionSelection | components/FileUploader.tsx:37 | the filter returns exactly the elements at the satisfying positions, in ascending position order |
| Seqs.FilterIdempotent | components/FileUploader.tsx:45 | filtering twice with the same predicate equals filtering once |
| Seqs.FilterAppend | components/FileUploader.tsx:37 | filtering distributes over concatenation of selections |
| Invoice.ErrorMessage | App.tsx:92 | an `Error`'s own message is recorded; any other thrown value records `An unknown error occurred.` |
| Invoice.FirstPage | App.tsx:86-87 | the extractor receives the first image when there is one, and `undefined` (None) when the document has no page |
| Pipeline.SelectFiles | App.tsx:25-33 | one entry per selected file, same order, each `pending` with no message; results empty and global error cleared |
| Pipeline.SelectionForgetsPreviousBatch | App.tsx:25-33 | the batch a selection starts does not depend on any status, message, result or error left by the previous batch |
| Pipeline.UploadStartsBatch | components/FileUploader.tsx:35-38 | a callback-firing selection starts a batch of exactly the raw list's PDFs, in order, all pending; a selection with no PDF empties the batch |
| Pipeline.SetStatus | App.tsx:82 | a status update changes entry i only: its status becomes the new one, its file and message stay, every other entry is unchanged |
| Pipeline.SetError | App.tsx:93 | an error update changes entry i only: status `error` with the given message, file kept, every other entry unchanged |
| Pipeline.ProcessOne | App.tsx:84-94 | a file succeeds exactly when both rasterising and extracting its first page succeed; the record is the extractor's, tagged with the file name; otherwise the message is that of whichever collaborator threw |
| Pipeline.Step | App.tsx:81-94 | one iteration marks entry i `processing`, then settles entry i alone to `success` (with a record) or `error` (with the message, no record); it rasterises once and extracts only after a successful rasterisation |
| Pipeline.RunBatch | App.tsx:78-96 | every entry ends terminal, settled by the collaborators' answers for its own file; one record per successful entry, in entry order; each update touches only its entry; calls go file by file |
| Pipeline.ProcessFiles | App.tsx:71-99 | an empty batch is a no-op with no calls; otherwise results are cleared first and published once after the loop, the flags are reset, entries keep their files, and each record carries the name of its successful entry's file |
| Pipeline.TwoFileExample | App.tsx:80-97 | a batch whose first file extracts and whose second fails to rasterise ends `success`, then `error` with the rasteriser's message, and publishes exactly the first file's record |
| Csv.EscapeQuotes | App.tsx:108-111 | the escaped text has all quotes paired, is never shorter than the input, and equals the input when there is no quote |
| Csv.EscapeQuotesAppend | App.tsx:108 | escaping distributes over concatenation, character by character |
| Csv.ReadQuotedEscaped | App.tsx:108-111 | reading an escaped field body per rule 7 of RFC 4180 collapses each doubled quote and stops at the closing quote, recovering the original text |
| Csv.QuoteFieldInjective | App.tsx:108-111 | two string fields are written identically only if they hold the same text |
| Csv.TemplateText | App.tsx:108-111 | a field inside the template literal with `?.` gives its string, or the text `undefined` when the field is missing |
| Csv.QuoteField | App.tsx:108-111 | a written string field starts and ends with a quote, and every quote between them is doubled |
| Csv.MissingFieldLikeUndefined | App.tsx:108-111 | two string fields are written alike exactly when they are equal, or when one is missing and the other is the text `undefined` |
| Csv.AmountText | App.tsx:112-113 | the amount cell is the number's text, or empty when the amount is missing (`join` writes `undefined` as nothing) |
| Csv.MissingAmountEndsRow | App.tsx:112-113 | an invoice without an amount gives a line that ends with a comma |
| Csv.RowCells | App.tsx:107-113 | one cell per column, the amount's cell last, written as `AmountText` writes it |
| Csv.RowCellsEncode | App.tsx:107-113 | each cell of an invoice's line is its field's text quoted and escaped, or the amount's plain text, so it reads back as that text |
| Csv.Rows | App.tsx:107-113 | one line per invoice, in order, the k-th line being the k-th invoice's cells joined with commas (`extractedData.map`) |
| Csv.CsvContent | App.tsx:101-114 | no output exactly when there are no records; otherwise the text starts with the header line (`JoinWith`, the model of `Array.prototype.join`, over the column names) followed by a line feed |
| Csv.ReadRecordJoin | App.tsx:107-113 | cells joined with commas, each quoted-escaped or plain, read back as one record of their texts |
| Csv.ReadDocumentJoin | App.tsx:105-114 | lines joined with line feeds read back as one record per line, in order |
| Csv.DocumentRoundTrip | App.tsx:105-114 | a header line followed by the invoices' lines reads back as the header record, then one record per invoice in order |
| Csv.CsvRoundTrip | App.tsx:101-114 | the export reads back as the five column names followed by one record per invoice, in order, each holding the written texts of file name, number, vendor, date and amount |

## Left out

- `fileToImages` (App.tsx:35-69): FileReader, the globally loaded PDF library, canvas
  rendering and data-URL splitting are browser I/O. They are replaced by the `Rasterizer`
  parameter, which returns images or a thrown value.
- `services/geminiService.ts`: the network call, the prompt, the response schema,
  `JSON.parse` and the start-up API-key check. They are replaced by the `Extractor`
  parameter. The extractor's own message wrapping ("Failed to extract data from
  invoice: ...") is whatever the parameter throws. A JSON value of the wrong type
  (a number where a string is expected) is not modelled. The fields are `Option<string>`,
  so a field on which `.replace` would throw cannot occur.
- The rasteriser and the extractor are modelled as total, deterministic functions of
  their argument. In the source neither has a timeout: a promise that never settles
  leaves its entry `processing` and `isProcessing` true for good (App.tsx:82-87, 98). The
  hosted extractor may also answer two equal requests differently. So two entries
  holding the same file always end alike in the model, which the source does not promise.
- Number formatting: the amount is an opaque 64-bit value (`JsNumber`), and its text is
  the caller-supplied `numberText`. `toFixed(2)` in the results table is not modelled.
- Csv.CsvRoundTrip: it assumes that no number's text contains a comma, line feed or quote.
  JavaScript's number-to-string never produces one, but that conversion is not modelled.
- The header line is modelled as `headers.join(',')` over the five names. The round trip
  proves that it reads back as those names. Its literal character content is not
  restated as a separate lemma.
- Blob creation and the download link (App.tsx:116-126). `console.error` logging
  (App.tsx:91).
- React state hooks, `useCallback` closures, batching of updates and re-rendering are
  not modelled. Each state setter is modelled as one sequential update, and processing
  as a loop.
- Interleaving: the drop zone is not disabled while processing, so a drop during a run
  could replace the batch under the running loop. This is concurrency and is not modelled.
- The button guard `disabled={isProcessing || files.length === 0}` (App.tsx:150), the
  drag highlight, `StatusIcon` and `components/ResultsTable.tsx` are presentation only.
- `types.ts` and `components/Icons` are not part of this model. The shape of
  `InvoiceData` is inferred from its uses.
