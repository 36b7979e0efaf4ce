/** The per-page OCR result cache of app.py: the `ocr_results` table, keyed by
    (filename, page number), and the request handlers that read and write it.
    `extract_text` returns the stored text of a page or else runs OCR, cleans
    the output, inserts it and returns it; `edit_text` overwrites a stored row;
    `export_pdf` repeats the cache-or-compute step for every selected page and
    writes one text file; `view_text` does it for an inclusive page range. */
module OcrStore {
  import opened TextCleaning
  import opened ExportFormat

  /** A row key of ocr_results: (filename, page_number). */
  type Key = (string, int)

  datatype Option<T> = None | Some(value: T)

  /** An error reply: its body text and HTTP status. */
  datatype HttpError = HttpError(message: string, status: int)

  const FileNotFound := HttpError("File not found", 404)
  const PdfUnreadable := HttpError("Error reading PDF", 500)
  const NoPagesSelected := HttpError("No pages selected", 400)

  datatype Response<T> = Ok(value: T) | Err(error: HttpError)

  /** The exported text file: its name in the upload folder and its contents. */
  datatype ExportFile = ExportFile(name: string, body: string)

  /** What edit_text answers: the edit form showing a text, or a redirect to
      the page view after a POST. */
  datatype EditPage = EditForm(text: string) | Redirected

  // ---------------------------------------------------------------------------
  // The specification of the cache

  /** The text a request for page k yields: the stored row on a hit, the cleaned
      OCR output on a miss. */
  function Resolve(rows: map<Key, string>, ocr: (string, int) -> string, k: Key): string {
    if k in rows then rows[k] else CleanText(ocr(k.0, k.1))
  }

  /** The table after one cache-or-compute step for k: k now holds the text the
      request yielded, and no other row is added, removed or changed, so every
      later request yields what it would have yielded before. */
  function Filled(rows: map<Key, string>, ocr: (string, int) -> string, k: Key): (r: map<Key, string>)
    ensures k in r && r[k] == Resolve(rows, ocr, k)
    ensures r.Keys == rows.Keys + {k}
    ensures forall k' :: k' in rows ==> r[k'] == rows[k']
  {
    if k in rows then rows else rows[k := CleanText(ocr(k.0, k.1))]
  }

  /** After a cache-or-compute step every request yields what it would have
      yielded before. */
  lemma FilledResolve(rows: map<Key, string>, ocr: (string, int) -> string, k: Key, k': Key)
    ensures Resolve(Filled(rows, ocr, k), ocr, k') == Resolve(rows, ocr, k')
  {
  }

  /** A second request for the same page is a cache hit that changes nothing. */
  lemma FilledIdempotent(rows: map<Key, string>, ocr: (string, int) -> string, k: Key)
    ensures k in Filled(rows, ocr, k)
    ensures Filled(Filled(rows, ocr, k), ocr, k) == Filled(rows, ocr, k)
  {
  }

  /** The table after cache-or-compute steps for the given pages of one file,
      in order. */
  function Fill(rows: map<Key, string>, ocr: (string, int) -> string, filename: string, pages: seq<int>): map<Key, string>
  {
    if pages == [] then rows
    else Filled(Fill(rows, ocr, filename, pages[..|pages| - 1]), ocr, (filename, pages[|pages| - 1]))
  }

  /** After cache-or-compute steps for some pages, the table holds exactly the
      old rows and the rows of those pages, each holding what a request for it
      yielded against the old table; so every request yields what it would have
      yielded before. */
  lemma {:induction false} FillSpec(rows: map<Key, string>, ocr: (string, int) -> string, filename: string, pages: seq<int>)
    ensures forall k :: k in Fill(rows, ocr, filename, pages) <==> k in rows || (k.0 == filename && k.1 in pages)
    ensures forall k :: k in Fill(rows, ocr, filename, pages) ==> Fill(rows, ocr, filename, pages)[k] == Resolve(rows, ocr, k)
    ensures forall k :: Resolve(Fill(rows, ocr, filename, pages), ocr, k) == Resolve(rows, ocr, k)
  {
    if pages != [] {
      var front := pages[..|pages| - 1];
      var p := pages[|pages| - 1];
      FillSpec(rows, ocr, filename, front);
      assert pages == front + [p];
      assert forall q :: q in pages <==> q in front || q == p;
    }
  }

  /** The concatenation of parts, in order (the successive f.write calls). */
  function Concat(parts: seq<string>): string {
    if parts == [] then "" else Concat(parts[..|parts| - 1]) + parts[|parts| - 1]
  }

  /** The block of every selected page, in selection order, each with the text
      a request for that page yields against the given table. */
  function PageBlocks(rows: map<Key, string>, ocr: (string, int) -> string, filename: string, pages: seq<int>): seq<string> {
    seq(|pages|, i requires 0 <= i < |pages| => PageBlock(pages[i], Resolve(rows, ocr, (filename, pages[i]))))
  }

  /** The body of the exported file. */
  function ExportBody(rows: map<Key, string>, ocr: (string, int) -> string, filename: string, pages: seq<int>): string {
    Concat(PageBlocks(rows, ocr, filename, pages))
  }

  /** Exporting a selection writes the export of its first part followed by
      the export of the rest, so a page selected twice is written twice. */
  lemma ExportBodyAppend(rows: map<Key, string>, ocr: (string, int) -> string, filename: string, ps: seq<int>, qs: seq<int>)
    ensures ExportBody(rows, ocr, filename, ps + qs) ==
            ExportBody(rows, ocr, filename, ps) + ExportBody(rows, ocr, filename, qs)
  {
    PageBlocksAppend(rows, ocr, filename, ps, qs);
    ConcatAppend(PageBlocks(rows, ocr, filename, ps), PageBlocks(rows, ocr, filename, qs));
  }

  lemma PageBlocksAppend(rows: map<Key, string>, ocr: (string, int) -> string, filename: string, ps: seq<int>, qs: seq<int>)
    ensures PageBlocks(rows, ocr, filename, ps + qs) ==
            PageBlocks(rows, ocr, filename, ps) + PageBlocks(rows, ocr, filename, qs)
  {
    var all := PageBlocks(rows, ocr, filename, ps + qs);
    var a := PageBlocks(rows, ocr, filename, ps);
    var b := PageBlocks(rows, ocr, filename, qs);
    forall i | 0 <= i < |all| ensures all[i] == (a + b)[i] {
      if i < |ps| {
        assert (ps + qs)[i] == ps[i];
      } else {
        assert (ps + qs)[i] == qs[i - |ps|];
      }
    }
  }

  lemma {:induction false} ConcatAppend(a: seq<string>, b: seq<string>)
    ensures Concat(a + b) == Concat(a) + Concat(b)
  {
    if b != [] {
      var front := b[..|b| - 1];
      ConcatAppend(a, front);
      assert (a + b)[..|a + b| - 1] == a + front;
    } else {
      assert a + b == a;
    }
  }

  /** One more page appends one more block. */
  lemma ExportBodySnoc(rows: map<Key, string>, ocr: (string, int) -> string, filename: string, pages: seq<int>, p: int)
    ensures ExportBody(rows, ocr, filename, pages + [p]) ==
            ExportBody(rows, ocr, filename, pages) + PageBlock(p, Resolve(rows, ocr, (filename, p)))
  {
    var blocks := PageBlocks(rows, ocr, filename, pages + [p]);
    assert blocks[..|pages|] == PageBlocks(rows, ocr, filename, pages);
  }

  /** One pass of export_pdf's loop, started on the table left by the earlier
      pages, extends both the table and the body by that page. */
  lemma ExportStep(rows: map<Key, string>, ocr: (string, int) -> string, filename: string, done: seq<int>, p: int,
                   current: map<Key, string>, text: string, body: string)
    requires current == Fill(rows, ocr, filename, done)
    requires text == Resolve(current, ocr, (filename, p))
    requires body == ExportBody(rows, ocr, filename, done)
    ensures body + PageBlock(p, text) == ExportBody(rows, ocr, filename, done + [p])
    ensures Filled(current, ocr, (filename, p)) == Fill(rows, ocr, filename, done + [p])
  {
    FillResolve(rows, ocr, filename, done, (filename, p));
    ExportBodySnoc(rows, ocr, filename, done, p);
    FillSnoc(rows, ocr, filename, done, p);
  }

  /** One more page appends one more cache-or-compute step. */
  lemma FillSnoc(rows: map<Key, string>, ocr: (string, int) -> string, filename: string, pages: seq<int>, p: int)
    ensures Fill(rows, ocr, filename, pages + [p]) == Filled(Fill(rows, ocr, filename, pages), ocr, (filename, p))
  {
    assert (pages + [p])[..|pages|] == pages;
  }

  /** Cache-or-compute steps do not change what any request yields. */
  lemma FillResolve(rows: map<Key, string>, ocr: (string, int) -> string, filename: string, pages: seq<int>, k: Key)
    ensures Resolve(Fill(rows, ocr, filename, pages), ocr, k) == Resolve(rows, ocr, k)
  {
    FillSpec(rows, ocr, filename, pages);
  }

  /** text.replace('\n', '<br>') */
  function BreakLines(t: string): (r: string)
    ensures '\n' !in r
    ensures '\n' !in t ==> r == t
    ensures |r| >= |t|
  {
    if t == [] then []
    else (if t[0] == '\n' then "<br>" else [t[0]]) + BreakLines(t[1..])
  }

  /** Each character is replaced on its own: a newline by "<br>", any other
      character by itself. */
  lemma BreakLinesChar(c: char)
    ensures BreakLines([c]) == if c == '\n' then "<br>" else [c]
  {
    assert [c][1..] == [];
  }

  /** The replacement works piece by piece, so together with BreakLinesChar it
      fixes the result of every text. */
  lemma {:induction false} BreakLinesAppend(a: string, b: string)
    ensures BreakLines(a + b) == BreakLines(a) + BreakLines(b)
  {
    if a == [] {
      assert a + b == b;
    } else {
      assert (a + b)[0] == a[0] && (a + b)[1..] == a[1..] + b;
      BreakLinesAppend(a[1..], b);
    }
  }

  /** The row after edit_text's UPDATE: it rewrites an existing row and never
      creates one. */
  function Saved(rows: map<Key, string>, k: Key, action: string, text: string): (r: map<Key, string>)
    ensures r.Keys == rows.Keys
    ensures forall k' :: k' in r && k' != k ==> r[k'] == rows[k']
    ensures k in rows ==> r[k] == if action == "save" then text else rows[k]
  {
    if action == "save" && k in rows then rows[k := text] else rows
  }

  /** Saving to a page whose text was never extracted loses the edit. */
  lemma SavedWithoutRow(rows: map<Key, string>, k: Key, text: string)
    requires k !in rows
    ensures Saved(rows, k, "save", text) == rows
    ensures k !in Saved(rows, k, "save", text)
  {
  }

  // ---------------------------------------------------------------------------
  // The table and the request handlers

  class Store {
    /** The ocr_results table. */
    var rows: map<Key, string>
    /** OCR of a page of an uploaded file (rendering at 200 dpi, then
        pytesseract), assumed deterministic. */
    const ocr: (string, int) -> string

    constructor (ocr: (string, int) -> string, rows: map<Key, string>)
      ensures this.ocr == ocr && this.rows == rows
    {
      this.ocr := ocr;
      this.rows := rows;
    }

    /** SELECT the row of (filename, page); on a miss run OCR, clean the text
        and INSERT it. */
    method CacheOrCompute(filename: string, page: int) returns (text: string)
      modifies this
      ensures text == Resolve(old(rows), ocr, (filename, page))
      ensures rows == Filled(old(rows), ocr, (filename, page))
    {
      var key := (filename, page);
      if key in rows {
        text := rows[key];
      } else {
        text := ocr(filename, page);
        text := CleanText(text);
        rows := rows[key := text];
      }
    }

    /** POST /extract_text/<filename>/<page> */
    method ExtractText(filename: string, page: int, fileExists: bool) returns (r: Response<string>)
      modifies this
      ensures !fileExists ==> r == Err(FileNotFound) && rows == old(rows)
      ensures fileExists ==> r == Ok(Resolve(old(rows), ocr, (filename, page)))
      ensures fileExists ==> rows == Filled(old(rows), ocr, (filename, page))
    {
      if !fileExists {
        return Err(FileNotFound);
      }
      var text := CacheOrCompute(filename, page);
      return Ok(text);
    }

    /** GET and POST /edit_text/<filename>/<page>: GET shows the stored text
        (empty when there is none); POST with action "save" UPDATEs the row. */
    method EditText(filename: string, page: int, fileExists: bool, isPost: bool, action: string, newText: string)
      returns (r: Response<EditPage>)
      modifies this
      ensures !fileExists ==> r == Err(FileNotFound) && rows == old(rows)
      ensures fileExists && !isPost ==>
        rows == old(rows) && r == Ok(EditForm(if (filename, page) in rows then rows[(filename, page)] else ""))
      ensures fileExists && isPost ==>
        r == Ok(Redirected) && rows == Saved(old(rows), (filename, page), action, newText)
    {
      if !fileExists {
        return Err(FileNotFound);
      }
      var key := (filename, page);
      var text := if key in rows then rows[key] else "";
      if isPost {
        if action == "save" && key in rows {
          rows := rows[key := newText];
        }
        return Ok(Redirected);
      }
      return Ok(EditForm(text));
    }

    /** POST /export/<filename>: rejects an empty selection; otherwise writes,
        for every selected page in order, a header and the page's text, taking
        each text from the table or computing and storing it. */
    method ExportPdf(filename: string, fileExists: bool, pdfReadable: bool, selected: seq<int>)
      returns (r: Response<ExportFile>)
      modifies this
      ensures !fileExists ==> r == Err(FileNotFound) && rows == old(rows)
      ensures fileExists && !pdfReadable ==> r == Err(PdfUnreadable) && rows == old(rows)
      ensures fileExists && pdfReadable && selected == [] ==> r == Err(NoPagesSelected) && rows == old(rows)
      ensures fileExists && pdfReadable && selected != [] ==>
        r == Ok(ExportFile(ExportName(filename, selected), ExportBody(old(rows), ocr, filename, selected))) &&
        rows == Fill(old(rows), ocr, filename, selected)
    {
      if !fileExists {
        return Err(FileNotFound);
      }
      if !pdfReadable {
        return Err(PdfUnreadable);
      }
      if selected == [] {
        return Err(NoPagesSelected);
      }
      var body := ExportPages(filename, selected);
      return Ok(ExportFile(ExportName(filename, selected), body));
    }

    /** The loop of export_pdf: for every selected page in order, take its text
        from the table or compute and store it, and append its block. */
    method ExportPages(filename: string, selected: seq<int>) returns (body: string)
      modifies this
      ensures body == ExportBody(old(rows), ocr, filename, selected)
      ensures rows == Fill(old(rows), ocr, filename, selected)
    {
      body := "";
      ghost var rows0 := rows;
      ghost var done: seq<int> := [];
      var i := 0;
      while i < |selected|
        invariant 0 <= i <= |selected| && done == selected[..i]
        invariant rows == Fill(rows0, ocr, filename, done)
        invariant body == ExportBody(rows0, ocr, filename, done)
      {
        var page := selected[i];
        ghost var before := rows;
        var text := CacheOrCompute(filename, page);
        ExportStep(rows0, ocr, filename, done, page, before, text, body);
        body := body + PageBlock(page, text);
        done := done + [page];
        i := i + 1;
      }
      assert done == selected;
    }

    /** GET /text/<filename>/<start>/[<end>/]: the text of every page from start
        to end inclusive (end defaults to start), with line breaks as <br>. */
    method ViewText(filename: string, fileExists: bool, start: int, end: Option<int>)
      returns (r: Response<seq<string>>)
      modifies this
      ensures !fileExists ==> r == Err(FileNotFound) && rows == old(rows)
      ensures fileExists ==>
        r == Ok(PageTexts(old(rows), ocr, filename, PageRange(start, LastPage(start, end)))) &&
        rows == Fill(old(rows), ocr, filename, PageRange(start, LastPage(start, end)))
    {
      if !fileExists {
        return Err(FileNotFound);
      }
      var last := if end.Some? then end.value else start;
      var texts := [];
      var page := start;
      while page <= last
        invariant start <= page <= (if last < start then start else last + 1)
        invariant texts == PageTexts(old(rows), ocr, filename, PageRange(start, page - 1))
        invariant rows == Fill(old(rows), ocr, filename, PageRange(start, page - 1))
      {
        ghost var done := PageRange(start, page - 1);
        FillResolve(old(rows), ocr, filename, done, (filename, page));
        var text := ExtractText(filename, page, fileExists);
        texts := texts + [BreakLines(text.value)];
        PageRangeSnoc(start, page);
        FillSnoc(old(rows), ocr, filename, done, page);
        PageTextsSnoc(old(rows), ocr, filename, done, page);
        page := page + 1;
      }
      return Ok(texts);
    }
  }

  /** The last page of a view: the given end, or else the start page. */
  function LastPage(start: int, end: Option<int>): int {
    if end.Some? then end.value else start
  }

  /** What the view shows for the given pages: each page's text as a request
      for it yields against the given table, line breaks as <br>. */
  function PageTexts(rows: map<Key, string>, ocr: (string, int) -> string, filename: string, pages: seq<int>): seq<string> {
    seq(|pages|, i requires 0 <= i < |pages| => BreakLines(Resolve(rows, ocr, (filename, pages[i]))))
  }

  lemma PageTextsSnoc(rows: map<Key, string>, ocr: (string, int) -> string, filename: string, pages: seq<int>, p: int)
    ensures PageTexts(rows, ocr, filename, pages + [p]) ==
            PageTexts(rows, ocr, filename, pages) + [BreakLines(Resolve(rows, ocr, (filename, p)))]
  {
  }

  /** range(start, end + 1) */
  function PageRange(start: int, end: int): seq<int> {
    seq(if end < start then 0 else end - start + 1, i => start + i)
  }

  /** range(start, end + 1) holds exactly the pages from start to end, in
      increasing order, and nothing when end < start. */
  lemma PageRangeMembers(start: int, end: int)
    ensures end < start ==> PageRange(start, end) == []
    ensures forall p :: p in PageRange(start, end) <==> start <= p <= end
    ensures forall i, j :: 0 <= i < j < |PageRange(start, end)| ==> PageRange(start, end)[i] < PageRange(start, end)[j]
  {
    var r := PageRange(start, end);
    forall p | start <= p <= end ensures p in r {
      assert r[p - start] == p;
    }
  }

  lemma PageRangeSnoc(start: int, end: int)
    requires start <= end
    ensures PageRange(start, end) == PageRange(start, end - 1) + [end]
  {
  }
}
