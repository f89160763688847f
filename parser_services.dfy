/**
 * The parser services of src/parser/services.py: `ParserService.parse`,
 * which picks a parser from the file's extension and the configured parser
 * name, and the parsers it dispatches to (PyMuPDF page text, python-docx
 * paragraphs to Markdown, UTF-8 text files).
 *
 * PyMuPDFService and DocxService hold no state; their methods are modelled
 * as methods of this module.
 */
module ParserServices {
  import opened Wrappers
  import opened Strings
  import opened Decimal
  import opened Documents
  import opened ParserUtils
  import DocUtils

  const IndexError := "IndexError: list index out of range"
  const DocxToPdfError := "TypeError: PDFService.__init__() got an unexpected keyword argument 'pdf_file'"
  const BrokenPdfError := "cannot open broken document"

  // ---------------------------------------------------------------------
  // PyMuPDFService

  /** `PyMuPDFService.parse_page`: each block that is not whitespace only
      contributes its stripped text and a newline, in block order. The code
      is the same as the backend's `extract_text_from_pdf_page`, so the
      backend's loop is reused. */
  method PyMuPdfParsePage(page: Page) returns (pageText: string)
    ensures pageText == PageText(page)
  {
    pageText := DocUtils.ExtractTextFromPdfPage(page);
  }

  /** What `PyMuPDFService.parse` makes of a PDF: the text of every page,
      in order; fitz raises on bytes that are no PDF. */
  function PdfParsed(content: Content): Result<string, string> {
    match content.asPdf
    case UnreadablePdf => Failure(BrokenPdfError)
    case Pdf(pages) => Success(PagesText(pages))
  }

  /** `PyMuPDFService.parse` on a stream: rewind, open, and concatenate the
      text of all pages. */
  method PyMuPdfParse(file: Stream) returns (r: Result<string, string>)
    modifies file
    ensures r == PdfParsed(old(file.content))
    ensures file.content == old(file.content) && file.offset == 0
  {
    file.offset := 0;
    if file.content.asPdf.UnreadablePdf? {
      return Failure(BrokenPdfError);
    }
    var document := file.content.asPdf.pages;
    var markdown := "";
    var i := 0;
    while i < |document|
      invariant 0 <= i <= |document|
      invariant markdown == PagesText(document[..i])
      invariant file.content == old(file.content) && file.offset == 0
    {
      var pageText := PyMuPdfParsePage(document[i]);
      PagesTextStep(document, i);
      markdown := markdown + pageText;
      i := i + 1;
    }
    assert document[..i] == document;
    return Success(markdown);
  }

  // ---------------------------------------------------------------------
  // DocxService

  /** `DocxService.parse`: one Markdown line per paragraph, joined by
      newlines. python-docx raises on bytes that are no DOCX package, and
      `int()` raises on a heading level that is not an integer. The code is
      the same as the backend's `convert_docx_to_markdown`, so the backend's
      loop is reused. */
  method DocxParse(doc: Docx) returns (r: Result<string, string>)
    ensures r == DocxMarkdown(doc)
  {
    r := DocUtils.ConvertDocxToMarkdown(doc);
  }

  // ---------------------------------------------------------------------
  // Text files

  /** `convert_txt_to_markdown`: the UTF-8 decoded text, or "" when decoding
      fails. */
  function ConvertTxtToMarkdown(content: Content): string {
    if content.asUtf8.Some? then content.asUtf8.value else ""
  }

  // ---------------------------------------------------------------------
  // ParserService.parse

  /** What `ParserService.parse` returns: Markdown text, the narrowed PDF as
      a stream (parser "Gemini"), or None for an unhandled combination. */
  datatype Parsed = Markdown(text: string) | PdfBuffer(stream: Stream) | NoResult

  /** The same outcome with the returned stream replaced by its content. */
  datatype Outcome = Text(text: string) | SplitPdf(content: Content) | Nothing

  function Last(pages: seq<int>): int
    requires pages != []
  {
    pages[|pages| - 1]
  }

  function AsText(r: Result<string, string>): Result<Outcome, string> {
    match r
    case Success(text) => Success(Text(text))
    case Failure(e) => Failure(e)
  }

  /** `ParserService.parse` on a file with this name and content. A `.pdf`
      is first narrowed to pages[0] .. pages[-1] (raising IndexError when
      the page list is empty), whatever the parser; `llama` stands for
      LlamaParse reading a temporary copy of the narrowed PDF, and fails
      when writing that copy, reading the API key or loading the document
      raises (none of these is caught on the way out of `parse`). */
  function ParseOutcome(parser: string, name: string, content: Content, pages: seq<int>,
                        llama: Content -> Result<string, string>): Result<Outcome, string>
  {
    var ext := Extension(name);
    if ext == ".pdf" then
      if pages == [] then Failure(IndexError)
      else
        var split := SplitContent(content, pages[0], Last(pages));
        if parser == "pyMuPDF" then AsText(PdfParsed(split))
        else if parser == "llamaparse" then AsText(llama(split))
        else if parser == "Gemini" then Success(SplitPdf(split))
        else Success(Nothing)
    else if ext == ".docx" then
      if parser == "python-docx" then AsText(DocxMarkdown(content.asDocx))
      else if parser == "Gemini" then Failure(DocxToPdfError)
      else Success(Nothing)
    else if ext == ".txt" then Success(Text(ConvertTxtToMarkdown(content)))
    else Success(Nothing)
  }

  /** The returned value matches the outcome, a returned stream holding the
      outcome's content and positioned at its start. */
  predicate Realizes(r: Result<Parsed, string>, o: Result<Outcome, string>)
    reads if r.Success? && r.value.PdfBuffer? then {r.value.stream} else {}
  {
    match r
    case Failure(e) => o == Failure(e)
    case Success(Markdown(text)) => o == Success(Text(text))
    case Success(NoResult) => o == Success(Nothing)
    case Success(PdfBuffer(stream)) => o == Success(SplitPdf(stream.content)) && stream.offset == 0
  }

  class ParserService {
    const parser: string

    constructor (parser: string)
      ensures this.parser == parser
    {
      this.parser := parser;
    }

    /** `ParserService.parse(file, pages)`. */
    method Parse(name: string, file: Stream, pages: seq<int>, llama: Content -> Result<string, string>)
      returns (r: Result<Parsed, string>)
      modifies file
      ensures Realizes(r, ParseOutcome(parser, name, old(file.content), pages, llama))
      ensures file.content == old(file.content)
      ensures r.Success? && r.value.PdfBuffer? ==>
                pages != [] && (r.value.stream == file <==> !Splits(old(file.content), pages[0], Last(pages)))
    {
      var fileExtension := Extension(name);
      if fileExtension == ".pdf" {
        if pages == [] {
          return Failure(IndexError);
        }
        var splitPdf := SplitByRange(Buffer(file), pages[0], pages[|pages| - 1]);
        if parser == "pyMuPDF" {
          var text := PyMuPdfParse(splitPdf);
          return AsParsed(text);
        } else if parser == "llamaparse" {
          var text := llama(splitPdf.content);
          return AsParsed(text);
        } else if parser == "Gemini" {
          return Success(PdfBuffer(splitPdf));
        }
        return Success(NoResult);
      } else if fileExtension == ".docx" {
        if parser == "python-docx" {
          var text := DocxParse(file.content.asDocx);
          return AsParsed(text);
        } else if parser == "Gemini" {
          return Failure(DocxToPdfError);
        }
        return Success(NoResult);
      } else if fileExtension == ".txt" {
        return Success(Markdown(ConvertTxtToMarkdown(file.content)));
      }
      return Success(NoResult);
    }
  }

  function AsParsed(r: Result<string, string>): (p: Result<Parsed, string>)
    ensures Realizes(p, AsText(r))
  {
    match r
    case Success(text) => Success(Markdown(text))
    case Failure(e) => Failure(e)
  }

  // ---------------------------------------------------------------------
  // Properties of the dispatch

  /** With PyMuPDF, a `.pdf` whose page list names an in-range run of pages
      gives the text of exactly those pages, in order. */
  lemma PyMuPdfReadsRequestedPages(name: string, content: Content, pages: seq<int>, llama: Content -> Result<string, string>)
    requires Extension(name) == ".pdf" && content.asPdf.Pdf?
    requires pages != [] && 0 <= pages[0] <= Last(pages) < |content.asPdf.pages|
    ensures ParseOutcome("pyMuPDF", name, content, pages, llama)
            == Success(Text(PagesText(content.asPdf.pages[pages[0]..Last(pages) + 1])))
  {
  }

  /** Only the first and the last requested page matter for a `.pdf`: the
      pages in between are never looked at. */
  lemma PdfUsesOnlyEnds(parser: string, name: string, content: Content, pages: seq<int>, other: seq<int>,
                        llama: Content -> Result<string, string>)
    requires Extension(name) == ".pdf"
    requires pages != [] && other != [] && pages[0] == other[0] && Last(pages) == Last(other)
    ensures ParseOutcome(parser, name, content, pages, llama) == ParseOutcome(parser, name, content, other, llama)
  {
  }

  /** An empty page list makes every `.pdf` parse fail, whatever the parser. */
  lemma EmptyPagesFailForPdf(parser: string, name: string, content: Content, llama: Content -> Result<string, string>)
    requires Extension(name) == ".pdf"
    ensures ParseOutcome(parser, name, content, [], llama) == Failure(IndexError)
  {
  }

  /** "Gemini" hands back the narrowed PDF itself. */
  lemma GeminiReturnsSplit(name: string, content: Content, pages: seq<int>, llama: Content -> Result<string, string>)
    requires Extension(name) == ".pdf" && pages != []
    ensures ParseOutcome("Gemini", name, content, pages, llama)
            == Success(SplitPdf(SplitContent(content, pages[0], Last(pages))))
  {
  }

  /** With "llamaparse", a `.pdf` gives LlamaParse's text on the narrowed
      PDF, and a LlamaParse error leaves `parse` as that error. */
  lemma LlamaparseReadsSplit(name: string, content: Content, pages: seq<int>, llama: Content -> Result<string, string>)
    requires Extension(name) == ".pdf" && pages != []
    ensures var loaded := llama(SplitContent(content, pages[0], Last(pages)));
            && (loaded.Success? ==> ParseOutcome("llamaparse", name, content, pages, llama) == Success(Text(loaded.value)))
            && (loaded.Failure? ==> ParseOutcome("llamaparse", name, content, pages, llama) == Failure(loaded.error))
  {
  }

  /** The parse gives None exactly for the combinations the dispatch does
      not list (given a non-empty page list for a `.pdf`). */
  lemma NothingIffUnlisted(parser: string, name: string, content: Content, pages: seq<int>,
                           llama: Content -> Result<string, string>)
    ensures var ext := Extension(name);
            ParseOutcome(parser, name, content, pages, llama) == Success(Nothing)
            <==> (ext == ".pdf" && pages != [] && parser !in {"pyMuPDF", "llamaparse", "Gemini"})
                 || (ext == ".docx" && parser !in {"python-docx", "Gemini"})
                 || ext !in {".pdf", ".docx", ".txt"}
  {
  }

  /** A `.txt` file parses to its decoded text with any parser, and to ""
      when its bytes are not valid UTF-8. */
  lemma TextFileIsDecoded(parser: string, name: string, content: Content, pages: seq<int>,
                          llama: Content -> Result<string, string>)
    requires Extension(name) == ".txt"
    ensures ParseOutcome(parser, name, content, pages, llama)
            == Success(Text(if content.asUtf8.Some? then content.asUtf8.value else ""))
  {
  }

  /** A DOCX never goes through the page range: python-docx reads the whole
      document. */
  lemma DocxIgnoresPages(name: string, content: Content, pages: seq<int>, other: seq<int>,
                         llama: Content -> Result<string, string>)
    requires Extension(name) == ".docx"
    ensures ParseOutcome("python-docx", name, content, pages, llama)
            == ParseOutcome("python-docx", name, content, other, llama)
            == AsText(DocxMarkdown(content.asDocx))
  {
  }

  /** A file named "x.PDF" counts as a PDF: the extension is lower-cased. */
  lemma UpperCaseExtensionIsPdf(stem: string)
    ensures Extension(stem + ".PDF") == ".pdf"
  {
    ExtensionAfterLastDot(stem, "PDF");
    assert stem + ".PDF" == stem + "." + "PDF";
    assert Lower("PDF") == "pdf" by {
      assert LowerChar('P') == 'p' && LowerChar('D') == 'd' && LowerChar('F') == 'f';
    }
  }
}
