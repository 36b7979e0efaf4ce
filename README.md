# recono OCR core in Dafny

This project models the core of `app.py`, a Flask application that runs OCR over
uploaded PDF files page by page, and proves properties of that model. It models
four things:

- **Text normaliser.** `clean_text` first turns every newline that has no
  newline next to it into a space. It then deletes every `"- "` in one
  left-to-right pass. Module `TextCleaning` models it over character sequences,
  with no regular-expression engine.
- **Upload names.** `allowed_file` accepts a name whose text after the last
  dot, lower-cased, is `pdf`. `get_uploaded_files` keeps the accepted names of
  the upload folder and sorts them. Module `FileNames` models both; the folder
  listing is an input sequence.
- **Export format.** `export_pdf` builds its output file name from
  `os.path.splitext`, `str` and `'_'.join`, and writes one block per page.
  Module `ExportFormat` models these layouts.
- **OCR result cache.** The `ocr_results` table is keyed by (filename, page).
  Module `OcrStore` models it as the `map` field `rows` of the class `Store`.
  OCR is the function value `ocr`, which the model does not interpret. The
  request handlers `extract_text`, `edit_text`, `export_pdf` (POST) and
  `view_text` are methods that change `rows`. Each method is proved against
  the specification functions `Resolve`, `Filled`, `Fill`, `Saved`,
  `ExportBody` and `PageTexts`.

The central facts about the cache are these:

- A request for page k yields `Resolve(rows, ocr, k)`. That is the stored row
  on a hit, and `CleanText(ocr(k))` on a miss.
- A cache-or-compute step adds at most the row for k and changes no other row.
- No such step changes what any later request yields (`FilledResolve`,
  `FillResolve`). So an export or a view sees the texts the table would have
  given before it started, and repeating a request changes nothing.

## Model

| member | source | states |
|---|---|---|
| TextCleaning.JoinLinesNoLoneNewline | app.py:41 | the newline substitution keeps the length and leaves no newline without a neighbouring newline |
| TextCleaning.JoinLinesIdentity | app.py:41 | text without a newline is left unchanged by the substitution |
| TextCleaning.JoinLinesKeepsSignificant | app.py:41 | the substitution keeps every character other than hyphen, space and newline, in order |
| TextCleaning.JoinLinesSingleBreak | app.py:41 | a single newline between two newline-free texts becomes a space |
| TextCleaning.DropHyphenSpaceLength | app.py:42 | deleting "- " never lengthens the text; the length is unchanged exactly when there is no "- ", and then the text is unchanged |
| TextCleaning.DropHyphenSpaceKeepsSignificant | app.py:42 | the deletion keeps every character other than hyphen, space and newline, in order |
| TextCleaning.DropHyphenSpaceKeepsPairs | app.py:42 | the deletion never separates a newline from its neighbouring newline |
| TextCleaning.DropHyphenSpaceAppend | app.py:42 | the single left-to-right pass leaves alone a leading part that holds no "- " and does not end in a hyphen |
| TextCleaning.DropHyphenSpaceAfterWord | app.py:42 | a hyphen-free word followed by "- " loses just the "- " |
| TextCleaning.DropHyphenSpaceNoHyphen | app.py:42 | text without a hyphen is left unchanged by the deletion |
| TextCleaning.CleanTextNeverLengthens | app.py:40-42 | clean_text never lengthens its input |
| TextCleaning.CleanTextNoLoneNewline | app.py:40-42 | every newline in clean_text's output has a neighbouring newline |
| TextCleaning.CleanTextIdentity | app.py:40-42 | clean_text is the identity on text with no newline and no "- " |
| TextCleaning.CleanTextKeepsSignificant | app.py:40-42 | clean_text keeps every character other than hyphen, space and newline, in order |
| TextCleaning.CleanTextJoinsBrokenWord | app.py:40-42 | for hyphen- and newline-free a, b: a + "-\n" + b becomes a + b ("exam-\nple" becomes "example") |
| TextCleaning.CleanTextJoinsSpacedWord | app.py:40-42 | for hyphen- and newline-free a, b, c: a + "- " + b + "\n" + c becomes a + b + " " + c ("exam- ple\nword" becomes "example word") |
| TextCleaning.CleanTextExample3 | app.py:41 | a blank line between two paragraphs is kept |
| TextCleaning.CleanTextNotIdempotent | app.py:42 | the deletion does not rescan its own output: "--  " cleans to "- ", which cleans to "" |
| FileNames.LastIndex | app.py:38 | the position of the last dot (the rsplit('.', 1) cut): -1 exactly when there is none, otherwise a dot with no dot after it |
| FileNames.AllowedFileIff | app.py:37-38 | a name is accepted exactly when its fourth character from the end is a dot and its last three characters, lower-cased, are "pdf" |
| FileNames.AllowedFileAccepts | app.py:37-38 | "a.PDF", "x.tar.pdf" and ".pdf" are accepted |
| FileNames.AllowedFileRejects | app.py:37-38 | "pdf" and "a.pdf.txt" are refused |
| FileNames.StrLeTotal | app.py:45 | Python's string order relates any two strings |
| FileNames.StrLeAntisymmetric | app.py:45 | two strings ordered both ways are equal |
| FileNames.StrLeTransitive | app.py:45 | the string order is transitive |
| FileNames.Insert | app.py:45 | inserting into a sorted list keeps it sorted and adds exactly the element |
| FileNames.Sort | app.py:45 | sorted() returns a sorted permutation of its input |
| FileNames.SortedUnique | app.py:45 | two sorted lists with the same elements are equal, so the sorted order is the only one |
| FileNames.AcceptedNames | app.py:45 | the filter keeps each accepted name as often as it is listed and drops every other name |
| FileNames.UploadedFiles | app.py:44-45 | get_uploaded_files is sorted, holds exactly the listed accepted names, each as often as listed |
| FileNames.UploadedFilesUnique | app.py:44-45 | any sorted list with those elements is the listing get_uploaded_files returns |
| ExportFormat.SplitExtRoot | app.py:70 | splitext's root is a prefix of the name; it is shorter exactly when the last path component holds a dot after some character that is not a dot, and then the removed extension is the last dot and what follows it, with no further dot or '/' |
| ExportFormat.SplitExtRootExample1 | app.py:70 | "report.pdf" has root "report" |
| ExportFormat.SplitExtRootExample2 | app.py:70 | "x.tar.pdf" has root "x.tar" (only the last extension goes) |
| ExportFormat.SplitExtRootExample3 | app.py:70 | ".pdf" is its own root (a leading dot starts no extension) |
| ExportFormat.IntToStringShape | app.py:71 | str of a page number is non-empty and holds no '_' |
| ExportFormat.ParseIntToString | app.py:67-71 | int(str(n)) == n for every page number |
| ExportFormat.IntToStringInjective | app.py:71 | distinct page numbers are written differently |
| ExportFormat.Join | app.py:71 | a non-empty join starts with its first piece |
| ExportFormat.SplitJoin | app.py:71 | splitting a '_'-join gives back the pieces when no piece holds '_' |
| ExportFormat.ExportNameExample | app.py:70-71 | selecting pages [1, 3] names the file root + "_pages_1_3.txt" |
| ExportFormat.JoinPageNamesInjective | app.py:71 | two selections whose page numbers join to the same text are the same selection |
| ExportFormat.ExportNameInjective | app.py:70-71 | two different page selections of one upload never get the same output file name (order and repeats included) |
| OcrStore.Filled | app.py:171-188 | after a cache-or-compute step k holds the yielded text, the keys are the old keys plus k, and old rows are kept |
| OcrStore.FilledResolve | app.py:171-188 | a cache-or-compute step does not change what any request yields |
| OcrStore.FilledIdempotent | app.py:177-179 | a second request for the same page is a hit and changes nothing |
| OcrStore.FillSpec | app.py:76-103 | after the steps for a page list, the keys are the old keys plus those pages, each row holds what the old table yielded, and every request yields the same as before |
| OcrStore.FillSnoc | app.py:76-103 | one more page adds one more cache-or-compute step |
| OcrStore.FillResolve | app.py:76-103 | a run of cache-or-compute steps does not change what any request yields |
| OcrStore.ConcatAppend | app.py:75-107 | writing two lists of pieces in turn writes the concatenation of their texts |
| OcrStore.PageBlocksAppend | app.py:76-107 | the blocks of a concatenated selection are the blocks of its parts, in order |
| OcrStore.ExportBodyAppend | app.py:76-107 | the export of ps + qs is the export of ps followed by the export of qs, so order and repeats are kept |
| OcrStore.ExportBodySnoc | app.py:105-107 | one more page appends "=== Page p ===\n" + text + "\n\n" with the text the table yields for p |
| OcrStore.ExportStep | app.py:76-107 | one pass of the export loop extends both the table and the body by that page |
| OcrStore.BreakLines | app.py:236 | text.replace('\n', '<br>') leaves no newline, is never shorter, and is the identity on text without a newline |
| OcrStore.BreakLinesChar | app.py:236 | a newline becomes "<br>" and every other character stays itself |
| OcrStore.BreakLinesAppend | app.py:236 | the replacement works piece by piece: the result for a + b is the result for a followed by the result for b |
| OcrStore.Saved | app.py:209-218 | the UPDATE keeps the key set and every other row, and sets k's row only when the action is "save" and the row exists |
| OcrStore.SavedWithoutRow | app.py:214-218 | saving to a page that has no row leaves the table unchanged: the edit is lost |
| OcrStore.Store.CacheOrCompute | app.py:171-191 | returns the text a request yields against the old table, and leaves the table as one cache-or-compute step leaves it |
| OcrStore.Store.ExtractText | app.py:158-191 | a missing file gives 404 "File not found" with the table unchanged; otherwise it returns the stored or freshly cleaned OCR text and records it |
| OcrStore.Store.EditText | app.py:193-222 | a missing file gives 404; GET shows the stored text or "" and changes nothing; POST redirects after the UPDATE-only save |
| OcrStore.Store.ExportPdf | app.py:47-110 | errors come in order: 404 missing file, 500 unreadable PDF, 400 empty selection, each with the table unchanged; otherwise it returns the file named by ExportName whose body is ExportBody over the old table, and the table is filled for the selection |
| OcrStore.Store.ExportPages | app.py:74-108 | the export loop writes ExportBody over the old table and leaves the table filled for the selection |
| OcrStore.Store.ViewText | app.py:224-237 | a missing file gives 404; otherwise the texts of start..end (end defaults to start), each with newlines as <br>, and the table filled for that range |
| OcrStore.PageTextsSnoc | app.py:234-236 | one more page appends one more entry, that page's text with newlines as <br> |
| OcrStore.PageRangeMembers | app.py:232-234 | range(start, end + 1) holds exactly start..end in increasing order, and nothing when end < start |
| OcrStore.PageRangeSnoc | app.py:234 | the range up to end is the range up to end - 1 followed by end |

## Left out

- Flask routing, request parsing, templates, redirects and `url_for` are not modelled. Each handler's reply is a `Response` value: an error body with its status, the edit form's text, a redirect marker, the export file, or the list of page texts.
- `os.path.exists` on the upload is the parameter `fileExists`. PyPDF2's failure to read the PDF is the parameter `pdfReadable`. The page count it computes is unused on the POST path and is not modelled.
- The GET branch of `export_pdf` (app.py:112-117) only renders a template and is not modelled.
- Preview PNG rendering and caching (app.py:88-94, 135-140, 164-169) is file I/O and is not modelled. `pdf2image`, PIL and `pytesseract` together are the uninterpreted function `ocr`. The model assumes it is deterministic and that it cannot fail, so an OCR exception part-way through an export or a view is not modelled.
- `int(page)` on the form values (app.py:67) is not modelled: the selection arrives as integers, so a non-numeric value that would raise ValueError has no counterpart.
- The output file is not written. `ExportPdf` returns its name and its full body as an `ExportFile` value.
- The sqlite connection lifecycle, `init_db` and the schema are not modelled. The table is a map, so at most one row per (filename, page) is assumed, and commits are immediate.
- A POST to `edit_text` with action "save" but no "text" field raises in Flask and is not modelled. A missing "action" field behaves like any other non-"save" value.
- FileNames.Lower: only ASCII letters are lower-cased, because Python's full Unicode `str.lower()` is out of scope.
- ExportFormat.SplitExtRoot: only '/' separates path components, as in POSIX `os.path.splitext`. The Windows separators are not modelled.
- OcrStore.Store.ExtractText, OcrStore.Store.EditText, OcrStore.Store.ExportPdf and OcrStore.Store.ViewText: a page number is an unbounded integer, and the error that sqlite raises when a page number does not fit in a signed 64-bit integer is not modelled. The source lets such a number reach the SELECT (app.py:80-81, 173-176, 201-204), and the request then fails with a 500 where the model answers `Ok`.
- OcrStore.Store.ExportPdf: file-system limits on the output file name are not modelled. A selection long enough to make the name exceed 255 bytes makes `open` fail (app.py:75), and the request fails with a 500 where the model still returns the `ExportFile`.
- Concurrency between requests is not modelled: each handler runs to completion on the table it finds.
- `secure_filename`, `f.save` and the upload route are not modelled. `get_uploaded_files` receives the folder listing as a sequence.
