/**
 * The backend's document helpers (backend/apps/doc/utils.py): the page-range
 * parser, the PDF page-text extraction, the DOCX-to-Markdown conversion,
 * the PDF-to-Markdown conversion over chosen page numbers, and the page
 * selection applied to LlamaParse's output.
 */
module DocUtils {
  import opened Wrappers
  import opened Strings
  import opened Decimal
  import opened Documents

  // ---------------------------------------------------------------------
  // Page ranges: `^\s*(\d+)\s*([-,\s]+\s*(\d+)\s*)?$`

  const FormatError := "Invalid page range format."
  const OrderError := "Invalid page range: start page must be less than or equal to end page."

  /** A character of the separator class `[-,\s]`. */
  predicate IsRangeSeparator(c: char) {
    c == '-' || c == ',' || IsSpace(c)
  }

  /** Length of the longest prefix made of separator characters. */
  function SeparatorRun(s: string): (n: nat)
    ensures n <= |s|
    decreases |s|
  {
    if s == [] || !IsRangeSeparator(s[0]) then 0 else 1 + SeparatorRun(s[1..])
  }

  /** The separator run is made of separators, and no separator follows it. */
  lemma {:induction false} SeparatorRunBounds(s: string)
    ensures var n := SeparatorRun(s);
            (forall i | 0 <= i < n :: IsRangeSeparator(s[i])) && (n < |s| ==> !IsRangeSeparator(s[n]))
    decreases |s|
  {
    if s != [] && IsRangeSeparator(s[0]) {
      SeparatorRunBounds(s[1..]);
      assert forall i | 1 <= i < |s| :: s[i] == s[1..][i - 1];
    }
  }

  /** The numbers a matching page-range text holds: group 1, and group 3
      when present. */
  datatype RangeText = RangeText(first: nat, last: Option<nat>)

  /** The match of the page-range pattern. The first number is the whole
      digit run after the leading whitespace (a shorter run would leave a
      digit where the pattern needs a separator or the end). What follows is
      either whitespace only, or a non-empty run of separators, a second digit
      run and trailing whitespace. */
  function MatchRange(s: string): Option<RangeText> {
    var rest := LStrip(s);
    var d1 := DigitRun(rest);
    DigitRunBounds(rest);
    if d1 == 0 then None
    else MatchTail(DigitsValue(rest[..d1]), rest[d1..])
  }

  /** The match of what follows the first number. */
  function MatchTail(first: nat, tail: string): Option<RangeText> {
    if AllSpace(tail) then Some(RangeText(first, None))
    else
      var sep := SeparatorRun(tail);
      var more := tail[sep..];
      var d2 := DigitRun(more);
      DigitRunBounds(more);
      if sep == 0 || d2 == 0 || !AllSpace(more[d2..]) then None
      else Some(RangeText(first, Some(DigitsValue(more[..d2]))))
  }

  /** The text of a number followed by a non-digit matches as that number
      and what follows. */
  lemma MatchAfterNumber(n: nat, tail: string)
    requires tail == [] || !IsDigit(tail[0])
    ensures MatchRange(NatToString(n) + tail) == MatchTail(n, tail)
  {
    var d := NatToString(n);
    var s := d + tail;
    assert s[0] == d[0];
    assert LeadingSpaces(s) == 0;
    assert LStrip(s) == s;
    DigitRunOfDigitsThen(d, tail);
    assert s[..|d|] == d && s[|d|..] == tail;
    DigitsValueOfNatToString(n);
  }

  /** `list(range(lo, hi))` */
  function Range(lo: int, hi: int): (r: seq<int>)
    ensures |r| == if lo <= hi then hi - lo else 0
    ensures forall k | 0 <= k < |r| :: r[k] == lo + k
    decreases hi - lo
  {
    if lo >= hi then [] else Range(lo, hi - 1) + [hi - 1]
  }

  /** `parse_page_range_string`: 1-based "a-b" (or a single "a") to the
      0-based page numbers a-1 .. b-1. Pages are consecutive and ascending;
      nothing checks that a >= 1. */
  function ParsePageRange(s: string): (r: Result<seq<int>, string>)
    ensures r.Success? ==> |r.value| >= 1 && r.value[0] >= -1
                           && forall k | 0 <= k < |r.value| :: r.value[k] == r.value[0] + k
    ensures r.Failure? ==> r.error == FormatError || r.error == OrderError
  {
    match MatchRange(s)
    case None => Failure(FormatError)
    case Some(m) => PagesOf(m)
  }

  /** The pages of a match: group 3 defaults to group 1. */
  function PagesOf(m: RangeText): (r: Result<seq<int>, string>)
    ensures r.Success? ==> |r.value| >= 1 && r.value[0] >= -1
    ensures r.Failure? ==> r.error == OrderError
  {
    var start := m.first;
    var end := if m.last.Some? then m.last.value else start;
    if start <= end then Success(Range(start - 1, end))
    else Failure(OrderError)
  }

  /** A single page number n gives the one 0-based page n-1. */
  lemma ParseSinglePage(n: nat)
    ensures ParsePageRange(NatToString(n)) == Success([n - 1])
  {
    MatchAfterNumber(n, "");
    assert NatToString(n) + "" == NatToString(n);
    assert Range(n - 1, n) == [n - 1];
  }

  /** "a<sep>b", for any non-empty run of '-', ',' and whitespace as the
      separator, gives the pages a-1 .. b-1 when a <= b, and the ordering
      error otherwise. */
  lemma ParseTwoNumbers(a: nat, sep: string, b: nat)
    requires sep != [] && forall i | 0 <= i < |sep| :: IsRangeSeparator(sep[i])
    ensures ParsePageRange(NatToString(a) + sep + NatToString(b))
            == if a <= b then Success(Range(a - 1, b)) else Failure(OrderError)
  {
    MatchOfTwo(a, sep, b);
  }

  /** "a<sep>b" matches with both numbers. */
  lemma MatchOfTwo(a: nat, sep: string, b: nat)
    requires sep != [] && forall i | 0 <= i < |sep| :: IsRangeSeparator(sep[i])
    ensures MatchRange(NatToString(a) + sep + NatToString(b)) == Some(RangeText(a, Some(b)))
  {
    var da, db := NatToString(a), NatToString(b);
    var tail := sep + db;
    assert da + sep + db == da + tail;
    assert !IsDigit(sep[0]);
    MatchAfterNumber(a, tail);
    SeparatedNumber(a, sep, b);
  }

  /** A separator run and a number, after the first number, match as the
      second number. */
  lemma SeparatedNumber(a: nat, sep: string, b: nat)
    requires sep != [] && forall i | 0 <= i < |sep| :: IsRangeSeparator(sep[i])
    ensures MatchTail(a, sep + NatToString(b)) == Some(RangeText(a, Some(b)))
  {
    var db := NatToString(b);
    var tail := sep + db;
    assert !AllSpace(tail) by {
      assert tail[|sep|] == db[0];
    }
    SeparatorRunOf(sep, db);
    assert tail[|sep|..] == db;
    DigitRunOfDigitsThen(db, "");
    assert db + "" == db;
    assert db[|db|..] == [];
    DigitsValueOfNatToString(b);
  }

  lemma {:induction false} SeparatorRunOf(sep: string, rest: string)
    requires forall i | 0 <= i < |sep| :: IsRangeSeparator(sep[i])
    requires rest == [] || !IsRangeSeparator(rest[0])
    ensures SeparatorRun(sep + rest) == |sep|
    decreases |sep|
  {
    if sep == [] {
      assert sep + rest == rest;
    } else {
      assert (sep + rest)[1..] == sep[1..] + rest;
      SeparatorRunOf(sep[1..], rest);
    }
  }

  /** A matching text is made of digits and separator characters only; any
      other character (a letter, a dot, ...) makes the text malformed. */
  lemma MatchedCharsAllowed(s: string)
    requires MatchRange(s).Some?
    ensures forall i | 0 <= i < |s| :: IsDigit(s[i]) || IsRangeSeparator(s[i])
  {
    var a := LeadingSpaces(s);
    LeadingRun(s);
    var rest := s[a..];
    var d1 := DigitRun(rest);
    DigitRunBounds(rest);
    var tail := rest[d1..];
    TailCharsAllowed(DigitsValue(rest[..d1]), tail);
    forall i | 0 <= i < |s| ensures IsDigit(s[i]) || IsRangeSeparator(s[i]) {
      if i < a {
      } else if i < a + d1 {
        assert s[i] == rest[..d1][i - a];
      } else {
        assert s[i] == tail[i - a - d1];
      }
    }
  }

  /** What follows the first number of a match is made of digits and
      separator characters only. */
  lemma TailCharsAllowed(first: nat, tail: string)
    requires MatchTail(first, tail).Some?
    ensures forall j | 0 <= j < |tail| :: IsDigit(tail[j]) || IsRangeSeparator(tail[j])
  {
    if !AllSpace(tail) {
      var sep := SeparatorRun(tail);
      SeparatorRunBounds(tail);
      var more := tail[sep..];
      var d2 := DigitRun(more);
      DigitRunBounds(more);
      forall j | 0 <= j < |tail| ensures IsDigit(tail[j]) || IsRangeSeparator(tail[j]) {
        if j >= sep + d2 {
          assert tail[j] == more[d2..][j - sep - d2];
        } else if j >= sep {
          assert tail[j] == more[..d2][j - sep];
        }
      }
    }
  }

  /** Text with a character that is neither a digit nor a separator (a
      letter, a dot, ...) is malformed. */
  lemma ForeignCharacterRejected(s: string, i: nat)
    requires i < |s| && !IsDigit(s[i]) && !IsRangeSeparator(s[i])
    ensures ParsePageRange(s) == Failure(FormatError)
  {
    if MatchRange(s).Some? {
      MatchedCharsAllowed(s);
    }
  }

  /** Text without a digit, the empty string included, is malformed. */
  lemma NoDigitRejected(s: string)
    requires forall i | 0 <= i < |s| :: !IsDigit(s[i])
    ensures ParsePageRange(s) == Failure(FormatError)
  {
  }

  /** Three numbers are not a range: "a-b-c" is malformed. */
  lemma ThreeNumbersRejected(a: nat, b: nat, c: nat)
    ensures ParsePageRange(NatToString(a) + "-" + NatToString(b) + "-" + NatToString(c)) == Failure(FormatError)
  {
    var da, db, dc := NatToString(a), NatToString(b), NatToString(c);
    var after := "-" + dc;
    var tail := "-" + (db + after);
    ConcatAssoc(da, "-", db, "-", dc);
    MatchAfterNumber(a, tail);
    SecondSeparatorRejected(a, db, dc);
  }

  /** After "-" and a number, a second "-" and number do not match. */
  lemma SecondSeparatorRejected(a: nat, db: string, dc: string)
    requires db != [] && AllDigits(db)
    ensures MatchTail(a, "-" + (db + ("-" + dc))).None?
  {
    var after := "-" + dc;
    var tail := "-" + (db + after);
    assert tail[0] == '-' && !AllSpace(tail);
    SeparatorRunOf("-", db + after);
    assert tail[1..] == db + after;
    DigitRunOfDigitsThen(db, after);
    assert (db + after)[|db|..] == after;
    assert !IsSpace(after[0]);
  }

  lemma ConcatAssoc(p: string, q: string, r: string, t: string, u: string)
    ensures p + q + r + t + u == p + (q + (r + (t + u)))
  {
  }

  // ---------------------------------------------------------------------
  // PDF and DOCX text

  /** `extract_text_from_pdf_page`: each block whose stripped text is not
      empty contributes that text and a newline. */
  method ExtractTextFromPdfPage(page: Page) returns (pageText: string)
    ensures pageText == PageText(page)
  {
    pageText := "";
    var i := 0;
    while i < |page|
      invariant 0 <= i <= |page|
      invariant pageText == Terminated(KeptBlocks(page[..i]))
    {
      var text := Strip(page[i]);
      ghost var kept := KeptBlocks(page[..i]);
      assert page[..i + 1][..i] == page[..i];
      assert page[..i + 1][i] == page[i];
      if text != "" {
        assert KeptBlocks(page[..i + 1]) == kept + [text];
        assert (kept + [text])[..|kept|] == kept;
        pageText := pageText + text + "\n";
      } else {
        assert KeptBlocks(page[..i + 1]) == kept;
      }
      i := i + 1;
    }
    assert page[..i] == page;
  }

  /** `convert_docx_to_markdown`: one Markdown line per paragraph, joined by
      newlines; a heading whose level is not an integer raises. */
  method ConvertDocxToMarkdown(doc: Docx) returns (r: Result<string, string>)
    ensures r == DocxMarkdown(doc)
  {
    if doc.UnreadableDocx? {
      return Failure("not a DOCX document");
    }
    var paragraphs := doc.paragraphs;
    var lines: seq<string> := [];
    var i := 0;
    while i < |paragraphs|
      invariant 0 <= i <= |paragraphs|
      invariant MarkdownLines(paragraphs[..i]) == Some(lines)
    {
      var p := paragraphs[i];
      var line: string;
      if StartsWith(p.style, "Heading") {
        var level := ParseInt(LastWord(p.style));
        if level.None? {
          MarkdownLinesStep(paragraphs, i);
          MarkdownLinesNoneExtends(paragraphs, i + 1);
          return Failure("ValueError: heading level is not an integer");
        }
        line := Repeat('#', if level.value < 0 then 0 else level.value) + " " + p.text;
      } else if p.style == "List Paragraph" {
        line := "- " + p.text;
      } else {
        line := p.text;
      }
      assert MarkdownLine(p) == Some(line);
      MarkdownLinesStep(paragraphs, i);
      lines := lines + [line];
      i := i + 1;
    }
    assert paragraphs[..i] == paragraphs;
    return Success(Join(lines, "\n"));
  }

  /** fitz's `document[i]`: an index below the page count is a page, a
      negative one counts from the end (wrapping around as often as
      needed); an index at or past the page count raises IndexError. */
  function FitzIndex(count: nat, i: int): (r: Option<nat>)
    ensures r.Some? ==> r.value < count
    ensures r.Some? && i >= 0 ==> r.value == i
  {
    if i >= count then None
    else if i >= 0 then Some(i)
    else if count == 0 then None
    else Some(i % count)
  }

  /** The texts of the listed pages, in list order, given the text of every
      page; None when an index is out of range. */
  function PickedPagesText(texts: seq<string>, nums: seq<int>): (r: Option<string>)
    decreases |nums|
  {
    if nums == [] then Some("")
    else
      match PickedPagesText(texts, nums[..|nums| - 1])
      case None => None
      case Some(text) =>
        match FitzIndex(|texts|, nums[|nums| - 1])
        case None => None
        case Some(p) => Some(text + texts[p])
  }

  const PdfError := "Error parsing PDF document"

  /** `convert_pdf_to_markdown`: the text of the listed pages; every failure
      (unreadable PDF, a page list of None, an index out of range) is
      re-raised as one exception. */
  function PdfMarkdown(pdf: Pdf, pages: Option<seq<int>>): Result<string, string> {
    if pdf.UnreadablePdf? || pages.None? then Failure(PdfError)
    else
      match PickedPagesText(PageTexts(pdf.pages), pages.value)
      case None => Failure(PdfError)
      case Some(text) => Success(text)
  }

  method ConvertPdfToMarkdown(content: Content, pages: Option<seq<int>>) returns (r: Result<string, string>)
    ensures r == PdfMarkdown(content.asPdf, pages)
  {
    if content.asPdf.UnreadablePdf? || pages.None? {
      return Failure(PdfError);
    }
    var document := content.asPdf.pages;
    ghost var texts := PageTexts(document);
    var nums := pages.value;
    var markdown := "";
    var i := 0;
    while i < |nums|
      invariant 0 <= i <= |nums|
      invariant PickedPagesText(texts, nums[..i]) == Some(markdown)
    {
      var index := FitzIndex(|document|, nums[i]);
      PickedStep(texts, nums, i);
      if index.None? {
        PickedPagesNoneExtends(texts, nums, i + 1);
        return Failure(PdfError);
      }
      var pageText := ExtractTextFromPdfPage(document[index.value]);
      assert pageText == texts[index.value];
      markdown := markdown + pageText;
      i := i + 1;
    }
    assert nums[..i] == nums;
    return Success(markdown);
  }

  /** Picking one more page appends that page's text, or fails when its
      index is out of range. */
  lemma PickedStep(texts: seq<string>, nums: seq<int>, i: nat)
    requires i < |nums|
    ensures FitzIndex(|texts|, nums[i]).None? ==> PickedPagesText(texts, nums[..i + 1]).None?
    ensures PickedPagesText(texts, nums[..i]).Some? && FitzIndex(|texts|, nums[i]).Some? ==>
              PickedPagesText(texts, nums[..i + 1]) ==
              Some(PickedPagesText(texts, nums[..i]).value + texts[FitzIndex(|texts|, nums[i]).value])
  {
    assert nums[..i + 1][..i] == nums[..i];
  }

  lemma {:induction false} PickedPagesNoneExtends(texts: seq<string>, nums: seq<int>, n: nat)
    requires n <= |nums|
    requires PickedPagesText(texts, nums[..n]).None?
    ensures PickedPagesText(texts, nums).None?
    decreases |nums| - n
  {
    if n < |nums| {
      assert nums[..n + 1][..n] == nums[..n];
      PickedPagesNoneExtends(texts, nums, n + 1);
    } else {
      assert nums[..n] == nums;
    }
  }

  lemma PickedInRange(texts: seq<string>, nums: seq<int>, text: string, x: nat)
    requires PickedPagesText(texts, nums) == Some(text)
    requires x < |texts|
    ensures PickedPagesText(texts, nums + [x]) == Some(text + texts[x])
  {
    assert (nums + [x])[..|nums|] == nums;
  }

  /** Picking a run of in-range pages gives those pages' texts in order. */
  lemma {:induction false} PickedRangeIsSlice(texts: seq<string>, lo: nat, hi: nat)
    requires lo <= hi <= |texts|
    ensures PickedPagesText(texts, Range(lo, hi)) == Some(Concat(texts[lo..hi]))
    decreases hi - lo
  {
    if lo < hi {
      PickedRangeIsSlice(texts, lo, hi - 1);
      PickedRangeStep(texts, lo, hi);
    } else {
      assert Range(lo, hi) == [] && texts[lo..hi] == [];
    }
  }

  lemma PickedRangeStep(texts: seq<string>, lo: nat, hi: nat)
    requires lo < hi <= |texts|
    requires PickedPagesText(texts, Range(lo, hi - 1)) == Some(Concat(texts[lo..hi - 1]))
    ensures PickedPagesText(texts, Range(lo, hi)) == Some(Concat(texts[lo..hi]))
  {
    var nums := Range(lo, hi - 1);
    PickedInRange(texts, nums, Concat(texts[lo..hi - 1]), hi - 1);
    assert Range(lo, hi) == nums + [hi - 1];
    ConcatSlice(texts, lo, hi);
  }

  lemma ConcatSlice(texts: seq<string>, lo: nat, hi: nat)
    requires lo < hi <= |texts|
    ensures Concat(texts[lo..hi]) == Concat(texts[lo..hi - 1]) + texts[hi - 1]
  {
    assert texts[lo..hi] == texts[lo..hi - 1] + [texts[hi - 1]];
    ConcatAppend(texts[lo..hi - 1], texts[hi - 1]);
  }

  /** Pages "a-b" of a document with at least b pages convert to the text of
      pages a .. b (1-based), in order. */
  lemma ConvertParsedRange(pages: seq<Page>, a: nat, sep: string, b: nat)
    requires 1 <= a <= b <= |pages|
    requires sep != [] && forall i | 0 <= i < |sep| :: IsRangeSeparator(sep[i])
    ensures var parsed := ParsePageRange(NatToString(a) + sep + NatToString(b));
            parsed.Success? && PdfMarkdown(Pdf(pages), Some(parsed.value)) == Success(PagesText(pages[a - 1..b]))
  {
    ParseTwoNumbers(a, sep, b);
    ConvertRange(pages, a - 1, b);
  }

  /** Converting pages lo .. hi-1, all in range, gives their text in order. */
  lemma ConvertRange(pages: seq<Page>, lo: nat, hi: nat)
    requires lo <= hi <= |pages|
    ensures PdfMarkdown(Pdf(pages), Some(Range(lo, hi))) == Success(PagesText(pages[lo..hi]))
  {
    PickedRangeIsSlice(PageTexts(pages), lo, hi);
    assert PageTexts(pages)[lo..hi] == PageTexts(pages[lo..hi]);
  }

  /** A page number at or past the page count makes the conversion fail. */
  lemma PageOutOfRangeFails(pages: seq<Page>, nums: seq<int>, k: nat)
    requires k < |nums| && nums[k] >= |pages|
    ensures PdfMarkdown(Pdf(pages), Some(nums)) == Failure(PdfError)
  {
    PickedOutOfRange(PageTexts(pages), nums, k);
  }

  lemma {:induction false} PickedOutOfRange(texts: seq<string>, nums: seq<int>, k: nat)
    requires k < |nums| && nums[k] >= |texts|
    ensures PickedPagesText(texts, nums).None?
    decreases |nums|
  {
    if k < |nums| - 1 {
      assert nums[..|nums| - 1][k] == nums[k];
      PickedOutOfRange(texts, nums[..|nums| - 1], k);
    }
  }

  // ---------------------------------------------------------------------
  // LlamaParse page selection

  /** Python's `list[i]` on a list of length n: -n <= i < n is valid,
      negative indices count from the end. */
  function PyIndex(n: nat, i: int): (r: Option<nat>)
    ensures r.Some? <==> -(n as int) <= i < n
    ensures r.Some? ==> r.value < n && (r.value == i || r.value == i + n)
  {
    if 0 <= i < n then Some(i) else if -(n as int) <= i < 0 then Some(i + n) else None
  }

  /** The parsed pages picked by the given indices, in the given order;
      None as soon as one index is invalid. */
  function Picked(parsed: seq<string>, nums: seq<int>): (r: Option<seq<string>>)
    ensures r.Some? <==> forall k | 0 <= k < |nums| :: PyIndex(|parsed|, nums[k]).Some?
    ensures r.Some? ==> |r.value| == |nums|
                        && forall k | 0 <= k < |nums| :: r.value[k] == parsed[PyIndex(|parsed|, nums[k]).value]
    decreases |nums|
  {
    if nums == [] then Some([])
    else
      var n := |nums| - 1;
      match Picked(parsed, nums[..n])
      case None => None
      case Some(sel) =>
        match PyIndex(|parsed|, nums[n])
        case None => None
        case Some(p) => Some(sel + [parsed[p]])
  }

  /** The page selection of `parse_with_llamaparse`: no (or an empty) page
      list, or any invalid index, gives all pages; otherwise the picked
      pages. The result is the pages' texts concatenated. */
  function SelectedText(parsed: seq<string>, pages: Option<seq<int>>): string {
    if pages.None? || pages.value == [] then Concat(parsed)
    else
      match Picked(parsed, pages.value)
      case None => Concat(parsed)
      case Some(sel) => Concat(sel)
  }

  /** `parse_with_llamaparse` given what LlamaParse loaded (None when
      loading raised): the empty string on a load error, the selection
      otherwise. */
  function LlamaparseText(loaded: Option<seq<string>>, pages: Option<seq<int>>): string {
    if loaded.None? then "" else SelectedText(loaded.value, pages)
  }

  method ParseWithLlamaparse(loaded: Option<seq<string>>, pages: Option<seq<int>>) returns (text: string)
    ensures text == LlamaparseText(loaded, pages)
  {
    if loaded.None? {
      return "";
    }
    var parsed := loaded.value;
    var extracted: seq<string> := [];
    if pages.Some? && pages.value != [] {
      var nums := pages.value;
      var i := 0;
      while i < |nums|
        invariant 0 <= i <= |nums|
        invariant Picked(parsed, nums[..i]) == Some(extracted)
      {
        assert nums[..i + 1][..i] == nums[..i];
        var index := PyIndex(|parsed|, nums[i]);
        if index.None? {
          extracted := parsed;
          break;
        }
        extracted := extracted + [parsed[index.value]];
        i := i + 1;
      }
      if i == |nums| {
        assert nums[..i] == nums;
      }
    } else {
      extracted := parsed;
    }
    text := Concat(extracted);
  }

  /** Picking every page, in order, selects the same text as picking none. */
  lemma SelectingAllPages(parsed: seq<string>)
    requires |parsed| >= 1
    ensures SelectedText(parsed, Some(Range(0, |parsed|))) == SelectedText(parsed, None)
  {
    var n := |parsed|;
    var nums := Range(0, n);
    PickedAll(parsed, nums);
    assert nums != [];
  }

  /** Picking indices 0 .. n-1, in order, picks the whole list. */
  lemma PickedAll(parsed: seq<string>, nums: seq<int>)
    requires nums == Range(0, |parsed|)
    ensures Picked(parsed, nums) == Some(parsed)
  {
    var n := |parsed|;
    forall k | 0 <= k < n ensures PyIndex(n, nums[k]) == Some(k) {
      assert nums[k] == k;
    }
    var sel := Picked(parsed, nums);
    assert |sel.value| == n;
    forall k | 0 <= k < n ensures sel.value[k] == parsed[k] {
      assert PyIndex(n, nums[k]) == Some(k);
    }
    assert sel.value == parsed;
  }

  /** One invalid index discards the picks already made: all pages. */
  lemma InvalidPageSelectsAll(parsed: seq<string>, nums: seq<int>, k: nat)
    requires k < |nums| && !(-(|parsed| as int) <= nums[k] < |parsed|)
    ensures SelectedText(parsed, Some(nums)) == Concat(parsed)
  {
    assert PyIndex(|parsed|, nums[k]).None?;
  }
}
