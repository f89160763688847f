/**
 * `PDFService.split_by_range` (src/parser/utils.py): narrow a PDF, given as
 * raw bytes or as an in-memory stream, to an inclusive range of 0-based
 * pages. An invalid range, or bytes that are no readable PDF, give the
 * original content back; every returned stream is positioned at offset 0.
 */
module ParserUtils {
  import opened Documents

  /** What `split_by_range` accepts: raw bytes, or a `BytesIO` stream. */
  datatype PdfSource = Bytes(content: Content) | Buffer(stream: Stream)

  /** The range test of `split_by_range`: true when the original is
      returned unchanged. */
  predicate OutOfRange(total: nat, from: int, to: int) {
    from < 0 || from >= total || to < 0 || to >= total || from > to
  }

  /** True when `split_by_range` writes a new document: the PDF opens and
      the range is valid. */
  predicate Splits(content: Content, from: int, to: int) {
    content.asPdf.Pdf? && !OutOfRange(|content.asPdf.pages|, from, to)
  }

  /** The content of the stream `split_by_range` returns: the written pages
      from .. to when the PDF opens and the range is valid, the original
      content otherwise (an invalid range or a reader exception). */
  function SplitContent(content: Content, from: int, to: int): (r: Content)
    ensures content.asPdf.UnreadablePdf? ==> r == content
  {
    match content.asPdf
    case UnreadablePdf => content
    case Pdf(pages) =>
      if OutOfRange(|pages|, from, to) then content
      else WrittenPdf(pages[from..to + 1])
  }

  /** The writer loop: the pages from .. to, added one at a time. */
  method CopyPages(pages: seq<Page>, from: int, to: int) returns (written: seq<Page>)
    requires !OutOfRange(|pages|, from, to)
    ensures |written| == to - from + 1
    ensures forall k | 0 <= k < |written| :: written[k] == pages[from + k]
  {
    written := [];
    var i := from;
    while i < to + 1
      invariant from <= i <= to + 1
      invariant |written| == i - from
      invariant forall k | 0 <= k < |written| :: written[k] == pages[from + k]
    {
      written := written + [pages[i]];
      i := i + 1;
    }
  }

  /** `split_by_range`. A stream argument is rewound and, when the split does
      not happen, returned itself; a split, or bytes, give a fresh stream. */
  method SplitByRange(source: PdfSource, from: int, to: int) returns (out: Stream)
    modifies if source.Buffer? then {source.stream} else {}
    ensures source.Bytes? ==> out.content == SplitContent(source.content, from, to)
    ensures source.Buffer? ==> out.content == SplitContent(old(source.stream.content), from, to)
    ensures source.Buffer? ==> source.stream.content == old(source.stream.content)
    ensures out.offset == 0
    ensures source.Bytes? ==> fresh(out)
    ensures source.Buffer? ==> (out == source.stream <==> !Splits(old(source.stream.content), from, to))
    ensures source.Buffer? ==> (fresh(out) <==> Splits(old(source.stream.content), from, to))
  {
    var content: Content;
    if source.Buffer? {
      source.stream.offset := 0;
      content := source.stream.content;
    } else {
      content := source.content;
    }
    if content.asPdf.UnreadablePdf? || OutOfRange(|content.asPdf.pages|, from, to) {
      if source.Buffer? {
        source.stream.offset := 0;
        out := source.stream;
      } else {
        out := new Stream(content);
      }
      return;
    }
    var pages := content.asPdf.pages;
    var written := CopyPages(pages, from, to);
    assert written == pages[from..to + 1];
    out := new Stream(WrittenPdf(written));
  }

  /** A valid range gives exactly to-from+1 pages, page k being page from+k
      of the original. */
  lemma SplitKeepsRange(content: Content, from: int, to: int)
    requires content.asPdf.Pdf? && 0 <= from <= to < |content.asPdf.pages|
    ensures var pages := content.asPdf.pages;
            var r := SplitContent(content, from, to).asPdf;
            r.Pdf? && |r.pages| == to - from + 1
            && forall k | 0 <= k < |r.pages| :: r.pages[k] == pages[from + k]
  {
  }

  /** An out-of-range request returns the original content unchanged, in
      each of the five ways the range can be invalid. */
  lemma InvalidRangeKeepsContent(content: Content, from: int, to: int)
    requires content.asPdf.Pdf?
    requires var total := |content.asPdf.pages|;
             from < 0 || from >= total || to < 0 || to >= total || from > to
    ensures SplitContent(content, from, to) == content
  {
  }

  /** A range of one page yields a single-page document holding that page. */
  lemma SinglePageSplit(content: Content, p: int)
    requires content.asPdf.Pdf? && 0 <= p < |content.asPdf.pages|
    ensures SplitContent(content, p, p).asPdf == Pdf([content.asPdf.pages[p]])
  {
  }

  /** Splitting a split: pages from2 .. to2 of the pages from1 .. to1 are
      pages from1+from2 .. from1+to2 of the original. */
  lemma SplitOfSplit(content: Content, from1: int, to1: int, from2: int, to2: int)
    requires content.asPdf.Pdf? && !OutOfRange(|content.asPdf.pages|, from1, to1)
    requires !OutOfRange(to1 - from1 + 1, from2, to2)
    ensures SplitContent(SplitContent(content, from1, to1), from2, to2).asPdf
            == SplitContent(content, from1 + from2, from1 + to2).asPdf
  {
    var pages := content.asPdf.pages;
    assert pages[from1..to1 + 1][from2..to2 + 1] == pages[from1 + from2..from1 + to2 + 1];
  }
}
