/**
 * The documents the parsers read, as the PDF and DOCX libraries present
 * them, and the text conversions that both the backend helpers
 * (backend/apps/doc/utils.py) and the parser services (src/parser/services.py)
 * perform on them.
 *
 * A PDF page is the list of its text blocks (the text field of fitz's
 * `page.get_text("blocks")`, in the order fitz gives them); a DOCX document
 * is its list of paragraphs (style name and text). The bytes of a file are
 * represented by what each library makes of them.
 */
module Documents {
  import opened Wrappers
  import opened Strings
  import opened Decimal

  /** The texts of a page's blocks, in reading order. */
  type Page = seq<string>

  /** A PDF as a reader sees it: its pages, or bytes it cannot open. */
  datatype Pdf = Pdf(pages: seq<Page>) | UnreadablePdf

  datatype Paragraph = Paragraph(style: string, text: string)

  /** A DOCX as python-docx sees it: its paragraphs, or bytes it cannot open. */
  datatype Docx = Docx(paragraphs: seq<Paragraph>) | UnreadableDocx

  /** The bytes of a file, as each library reads them: as a PDF, as a DOCX,
      and decoded as UTF-8 (None when they are not valid UTF-8). */
  datatype Content = Content(asPdf: Pdf, asDocx: Docx, asUtf8: Option<string>)

  /** The bytes PyPDF2's writer produces for these pages. They open as a PDF
      with exactly these pages; they are no DOCX package, and the binary
      comment line the writer emits after the header is not valid UTF-8. */
  function WrittenPdf(pages: seq<Page>): (c: Content)
    ensures c.asPdf == Pdf(pages)
  {
    Content(Pdf(pages), UnreadableDocx, None)
  }

  /** An in-memory binary stream (`io.BytesIO`): its bytes and its position. */
  class Stream {
    var content: Content
    var offset: nat

    constructor (content: Content)
      ensures this.content == content && offset == 0
    {
      this.content := content;
      this.offset := 0;
    }
  }

  // ---------------------------------------------------------------------
  // File extensions

  /** `"." + name.lower().split('.')[-1]`: a dot and the lower-cased text
      after the last dot of the name. */
  function Extension(name: string): (ext: string)
    ensures |ext| >= 1 && ext[0] == '.' && '.' !in ext[1..]
  {
    var pieces := Split(Lower(name), '.');
    "." + pieces[|pieces| - 1]
  }

  /** The extension is the lower-cased text after the last dot. */
  lemma ExtensionAfterLastDot(stem: string, suffix: string)
    requires '.' !in suffix
    ensures Extension(stem + "." + suffix) == "." + Lower(suffix)
  {
    LowerAppend(stem + ".", suffix);
    LowerAppend(stem, ".");
    assert '.' !in Lower(suffix) by {
      forall i | 0 <= i < |suffix| ensures Lower(suffix)[i] != '.' {
        assert suffix[i] != '.';
      }
    }
    assert Lower(stem + "." + suffix) == Lower(stem) + ['.'] + Lower(suffix);
    SplitLastPiece(Lower(stem), Lower(suffix), '.');
  }

  /** A name without a dot is its own extension, lower-cased, after a dot. */
  lemma ExtensionWithoutDot(name: string)
    requires '.' !in name
    ensures Extension(name) == "." + Lower(name)
  {
    assert '.' !in Lower(name) by {
      forall i | 0 <= i < |name| ensures Lower(name)[i] != '.' {
        assert name[i] != '.';
      }
    }
    SplitNoSeparator(Lower(name), '.');
  }

  // ---------------------------------------------------------------------
  // Page text: blocks with non-whitespace text, stripped, one per line

  /** The stripped texts of the blocks that are not whitespace only, in order. */
  function KeptBlocks(blocks: seq<string>): (r: seq<string>)
    ensures |r| <= |blocks|
    decreases |blocks|
  {
    if blocks == [] then []
    else
      var last := blocks[|blocks| - 1];
      KeptBlocks(blocks[..|blocks| - 1]) + if Strip(last) == "" then [] else [Strip(last)]
  }

  /** A block text that is non-empty and neither starts nor ends with whitespace. */
  predicate Trimmed(t: string)
  {
    t != "" && !IsSpace(t[0]) && !IsSpace(t[|t| - 1])
  }

  /** Every kept block is non-empty and neither starts nor ends with whitespace. */
  lemma {:induction false} KeptBlocksTrimmed(blocks: seq<string>)
    ensures forall k | 0 <= k < |KeptBlocks(blocks)| :: Trimmed(KeptBlocks(blocks)[k])
    decreases |blocks|
  {
    if blocks != [] {
      var last := blocks[|blocks| - 1];
      var init := KeptBlocks(blocks[..|blocks| - 1]);
      KeptBlocksTrimmed(blocks[..|blocks| - 1]);
      StripTrimmed(last);
      var r := KeptBlocks(blocks);
      assert r == init + if Strip(last) == "" then [] else [Strip(last)];
      forall k | 0 <= k < |r|
        ensures Trimmed(r[k])
      {
        if k < |init| {
          assert r[k] == init[k];
        } else {
          assert r[k] == Strip(last);
        }
      }
    }
  }

  /** Each part followed by "\n", concatenated. */
  function Terminated(parts: seq<string>): string
    decreases |parts|
  {
    if parts == [] then "" else Terminated(parts[..|parts| - 1]) + parts[|parts| - 1] + "\n"
  }

  /** The text one PDF page contributes. */
  function PageText(page: Page): string {
    Terminated(KeptBlocks(page))
  }

  /** The text of each page, page by page. */
  function PageTexts(pages: seq<Page>): (r: seq<string>)
    ensures |r| == |pages| && forall k | 0 <= k < |r| :: r[k] == PageText(pages[k])
  {
    seq(|pages|, k requires 0 <= k < |pages| => PageText(pages[k]))
  }

  /** The text of a sequence of pages, page after page. */
  function PagesText(pages: seq<Page>): string {
    Concat(PageTexts(pages))
  }

  /** The text of the first i+1 pages extends that of the first i by page i. */
  lemma PagesTextStep(pages: seq<Page>, i: nat)
    requires i < |pages|
    ensures PagesText(pages[..i + 1]) == PagesText(pages[..i]) + PageText(pages[i])
  {
    assert PageTexts(pages[..i + 1]) == PageTexts(pages[..i]) + [PageText(pages[i])];
    ConcatAppend(PageTexts(pages[..i]), PageText(pages[i]));
  }

  /** The last block is kept exactly when it is not whitespace only. */
  lemma KeptStep(page: Page)
    requires page != []
    ensures var n := |page| - 1;
            KeptBlocks(page) == KeptBlocks(page[..n]) + if AllSpace(page[n]) then [] else [Strip(page[n])]
  {
    StripEmptyIffAllSpace(page[|page| - 1]);
  }

  /** No block is kept exactly when every block is whitespace only. */
  lemma {:induction false} NoneKeptIffAllBlank(page: Page)
    ensures KeptBlocks(page) == [] <==> forall k | 0 <= k < |page| :: AllSpace(page[k])
    decreases |page|
  {
    if page != [] {
      var n := |page| - 1;
      var init := page[..n];
      NoneKeptIffAllBlank(init);
      KeptStep(page);
      if KeptBlocks(page) == [] {
        assert KeptBlocks(init) == [] && AllSpace(page[n]);
        forall k | 0 <= k < |page| ensures AllSpace(page[k]) {
          if k < n {
            assert init[k] == page[k];
          }
        }
      }
    }
  }

  /** Every block is kept exactly when none is whitespace only. */
  lemma {:induction false} AllKeptIffNoneBlank(page: Page)
    ensures |KeptBlocks(page)| == |page| <==> forall k | 0 <= k < |page| :: !AllSpace(page[k])
    decreases |page|
  {
    if page != [] {
      var n := |page| - 1;
      var init := page[..n];
      AllKeptIffNoneBlank(init);
      KeptStep(page);
      assert |KeptBlocks(init)| <= n;
      if |KeptBlocks(page)| == |page| {
        assert |KeptBlocks(init)| == n && !AllSpace(page[n]);
        forall k | 0 <= k < |page| ensures !AllSpace(page[k]) {
          if k < n {
            assert init[k] == page[k];
          }
        }
      }
    }
  }

  lemma TerminatedEmpty(parts: seq<string>)
    ensures Terminated(parts) == "" <==> parts == []
  {
    if parts != [] {
      assert |Terminated(parts)| >= 1;
    }
  }

  /** A page contributes nothing exactly when all of its blocks are
      whitespace only. */
  lemma PageTextEmptyIffBlank(page: Page)
    ensures PageText(page) == "" <==> forall k | 0 <= k < |page| :: AllSpace(page[k])
  {
    NoneKeptIffAllBlank(page);
    TerminatedEmpty(KeptBlocks(page));
  }

  // ---------------------------------------------------------------------
  // DOCX paragraphs to Markdown lines

  /** Length of the run of non-whitespace characters that ends `s`. */
  function TrailingWordLength(s: string): (n: nat)
    ensures n <= |s|
    decreases |s|
  {
    if s == [] || IsSpace(s[|s| - 1]) then 0 else 1 + TrailingWordLength(s[..|s| - 1])
  }

  /** `s.split()[-1]` for a string that is not whitespace only: the last
      whitespace-separated word. */
  function LastWord(s: string): string {
    var t := RStrip(s);
    t[|t| - TrailingWordLength(t)..]
  }

  /** The heading level of a style named "Heading ...":
      `int(style.split()[-1])`, None when that raises ValueError. */
  function HeadingLevel(style: string): Option<int> {
    ParseInt(LastWord(style))
  }

  /** The Markdown line for one paragraph: "Heading N" styles give N hashes
      (`'#' * N` is empty for N <= 0), "List Paragraph" a bullet, any other
      style the bare text. None when the heading level is not an integer. */
  function MarkdownLine(p: Paragraph): Option<string> {
    if StartsWith(p.style, "Heading") then
      match HeadingLevel(p.style)
      case None => None
      case Some(level) => Some(Repeat('#', if level < 0 then 0 else level) + " " + p.text)
    else if p.style == "List Paragraph" then Some("- " + p.text)
    else Some(p.text)
  }

  /** The lines of all paragraphs, or None when one of them raises. */
  function MarkdownLines(paragraphs: seq<Paragraph>): (r: Option<seq<string>>)
    ensures r.Some? ==> |r.value| == |paragraphs|
    ensures r.Some? ==> forall k | 0 <= k < |paragraphs| :: MarkdownLine(paragraphs[k]) == Some(r.value[k])
    ensures r.None? ==> exists k | 0 <= k < |paragraphs| :: MarkdownLine(paragraphs[k]).None?
    decreases |paragraphs|
  {
    if paragraphs == [] then Some([])
    else
      var n := |paragraphs| - 1;
      match MarkdownLines(paragraphs[..n])
      case None => None
      case Some(lines) =>
        match MarkdownLine(paragraphs[n])
        case None => None
        case Some(line) => Some(lines + [line])
  }

  /** A document's Markdown: its paragraph lines joined by "\n". Failure when
      python-docx cannot open it or a heading level is not an integer. */
  function DocxMarkdown(doc: Docx): Result<string, string> {
    match doc
    case UnreadableDocx => Failure("not a DOCX document")
    case Docx(paragraphs) =>
      match MarkdownLines(paragraphs)
      case None => Failure("ValueError: heading level is not an integer")
      case Some(lines) => Success(Join(lines, "\n"))
  }

  lemma MarkdownLinesStep(paragraphs: seq<Paragraph>, i: nat)
    requires i < |paragraphs|
    ensures MarkdownLines(paragraphs[..i + 1]) ==
            match MarkdownLines(paragraphs[..i])
            case None => None
            case Some(lines) =>
              match MarkdownLine(paragraphs[i])
              case None => None
              case Some(line) => Some(lines + [line])
  {
    assert paragraphs[..i + 1][..i] == paragraphs[..i];
    assert paragraphs[..i + 1][i] == paragraphs[i];
  }

  /** Once a prefix of the paragraphs raises, the whole document does. */
  lemma {:induction false} MarkdownLinesNoneExtends(paragraphs: seq<Paragraph>, n: nat)
    requires n <= |paragraphs|
    requires MarkdownLines(paragraphs[..n]).None?
    ensures MarkdownLines(paragraphs).None?
    decreases |paragraphs| - n
  {
    if n < |paragraphs| {
      MarkdownLinesStep(paragraphs, n);
      MarkdownLinesNoneExtends(paragraphs, n + 1);
    } else {
      assert paragraphs[..n] == paragraphs;
    }
  }

  lemma {:induction false} TrailingWordOfSpaced(a: string, w: string)
    requires forall i | 0 <= i < |w| :: !IsSpace(w[i])
    ensures TrailingWordLength(a + " " + w) == |w|
    decreases |w|
  {
    if w == [] {
    } else {
      var s := a + " " + w;
      assert s[..|s| - 1] == a + " " + w[..|w| - 1];
      TrailingWordOfSpaced(a, w[..|w| - 1]);
    }
  }

  /** A paragraph styled "Heading N", N >= 0, becomes exactly N hashes, a
      space and its text. */
  lemma HeadingStyleLine(level: nat, text: string)
    ensures MarkdownLine(Paragraph("Heading " + NatToString(level), text))
            == Some(Repeat('#', level) + " " + text)
  {
    var digits := NatToString(level);
    var style := "Heading " + digits;
    assert style[..7] == "Heading";
    assert style == "Heading" + " " + digits;
    assert TrailingSpaces(style) == 0;
    assert RStrip(style) == style;
    TrailingWordOfSpaced("Heading", digits);
    assert LastWord(style) == digits;
    ParseIntOfIntToString(level);
  }

  /** When no paragraph text contains a newline, the Markdown has one line
      per paragraph: splitting it on "\n" gives each paragraph's line, in
      order. */
  lemma OneLinePerParagraph(paragraphs: seq<Paragraph>)
    requires |paragraphs| >= 1
    requires DocxMarkdown(Docx(paragraphs)).Success?
    requires forall k | 0 <= k < |paragraphs| :: '\n' !in paragraphs[k].text
    ensures var lines := Split(DocxMarkdown(Docx(paragraphs)).value, '\n');
            && |lines| == |paragraphs|
            && forall k | 0 <= k < |paragraphs| :: MarkdownLine(paragraphs[k]) == Some(lines[k])
  {
    var lines := MarkdownLines(paragraphs).value;
    forall k | 0 <= k < |lines| ensures '\n' !in lines[k] {
      var p := paragraphs[k];
      assert MarkdownLine(p) == Some(lines[k]);
      if StartsWith(p.style, "Heading") {
        var level := HeadingLevel(p.style).value;
        var hashes := Repeat('#', if level < 0 then 0 else level);
        assert lines[k] == hashes + " " + p.text;
        assert '\n' !in hashes;
      }
    }
    SplitJoin(lines, '\n');
  }
}
