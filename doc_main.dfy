/**
 * `convert_document_to_markdown` (backend/apps/doc/main.py): choose a
 * converter from the parser name and the file's extension, and turn every
 * exception into None.
 */
module DocMain {
  import opened Wrappers
  import opened Strings
  import opened Documents
  import opened DocUtils

  /** The parser used when the caller names none. */
  const DefaultParser := "llamaparse"

  function Ok(r: Result<string, string>): (t: Option<string>)
    ensures t.Some? <==> r.Success?
    ensures t.Some? ==> t.value == r.value
  {
    if r.Success? then Some(r.value) else None
  }

  /** The Markdown of an uploaded file with this name and content, or None.
      `loaded` stands for what LlamaParse loads from the temporary copy of
      the upload (None when loading raises). */
  function ConvertDocumentToMarkdown(name: string, content: Content, pages: Option<seq<int>>,
                                     parser: string, loaded: Option<seq<string>>): Option<string>
  {
    var ext := Extension(name);
    if parser == "llamaparse" then Some(LlamaparseText(loaded, pages))
    else if ext == ".docx" && parser == "python-docx" then Ok(DocxMarkdown(content.asDocx))
    else if ext == ".pdf" && parser == "pyMuPDF" then Ok(PdfMarkdown(content.asPdf, pages))
    else None
  }

  /** LlamaParse, the default, is used whatever the extension, and in the
      model never yields None: a load error gives the empty string
      (temporary-file and constructor failures are not modelled). */
  lemma LlamaparseForEveryExtension(name: string, other: string, content: Content, pages: Option<seq<int>>,
                                    loaded: Option<seq<string>>)
    ensures ConvertDocumentToMarkdown(name, content, pages, DefaultParser, loaded)
            == ConvertDocumentToMarkdown(other, content, pages, DefaultParser, loaded)
            == Some(LlamaparseText(loaded, pages))
    ensures loaded.None? ==> ConvertDocumentToMarkdown(name, content, pages, DefaultParser, loaded) == Some("")
  {
  }

  /** A result other than None comes from LlamaParse, from python-docx on a
      `.docx`, or from PyMuPDF on a `.pdf`; any other combination is None. */
  lemma ResultOnlyFromListedCombinations(name: string, content: Content, pages: Option<seq<int>>,
                                         parser: string, loaded: Option<seq<string>>)
    requires ConvertDocumentToMarkdown(name, content, pages, parser, loaded).Some?
    ensures parser == "llamaparse"
            || (Extension(name) == ".docx" && parser == "python-docx")
            || (Extension(name) == ".pdf" && parser == "pyMuPDF")
  {
  }

  /** python-docx on a `.docx` gives the document's Markdown exactly when
      the conversion raises nothing. */
  lemma DocxConversion(name: string, content: Content, pages: Option<seq<int>>, loaded: Option<seq<string>>)
    requires Extension(name) == ".docx"
    ensures var r := ConvertDocumentToMarkdown(name, content, pages, "python-docx", loaded);
            (r.Some? <==> DocxMarkdown(content.asDocx).Success?)
            && (r.Some? ==> r.value == DocxMarkdown(content.asDocx).value)
  {
  }

  /** PyMuPDF with no page list raises while iterating it, so the result is
      None; a page past the end does the same. */
  lemma PdfWithoutPagesIsNone(name: string, content: Content, loaded: Option<seq<string>>)
    requires Extension(name) == ".pdf"
    ensures ConvertDocumentToMarkdown(name, content, None, "pyMuPDF", loaded).None?
  {
  }

  lemma PdfPagePastEndIsNone(name: string, pages: seq<Page>, other: Docx, text: Option<string>,
                             nums: seq<int>, k: nat, loaded: Option<seq<string>>)
    requires Extension(name) == ".pdf"
    requires k < |nums| && nums[k] >= |pages|
    ensures ConvertDocumentToMarkdown(name, Content(Pdf(pages), other, text), Some(nums), "pyMuPDF", loaded).None?
  {
    PageOutOfRangeFails(pages, nums, k);
  }

  /** A name without a dot has "." plus the whole lower-cased name as its
      extension: a file named just "PDF" is converted as a PDF. */
  lemma NameWithoutDotIsItsOwnExtension(content: Content, pages: Option<seq<int>>, loaded: Option<seq<string>>)
    ensures ConvertDocumentToMarkdown("PDF", content, pages, "pyMuPDF", loaded)
            == Ok(PdfMarkdown(content.asPdf, pages))
  {
    ExtensionWithoutDot("PDF");
    assert Lower("PDF") == "pdf" by {
      assert LowerChar('P') == 'p' && LowerChar('D') == 'd' && LowerChar('F') == 'f';
    }
  }
}
