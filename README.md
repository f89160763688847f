# MatrixCurator core, modelled in Dafny

MatrixCurator extracts morphological characters and their states from a
publication with language models and writes them into a NEXUS matrix file.
This project models the core of that pipeline and proves properties of the
model:

- **The extract/evaluate retry cycle** (`LlmServices`, src/llm/services.py).
  For one character index, it extracts, evaluates and accepts at score 8 or
  more. A low score retries with feedback, up to the attempt ceiling. A
  rate-limit error backs off; any other error is retried. The run over all
  character indices sorts the results into accepted records and failed
  indexes, in submission order, and reports progress.
- **The NEXUS rewriter** (`NexServices`, src/nex/services.py). It builds the
  CHARSTATELABELS lines, deletes the file's old CHARSTATELABELS block and
  inserts the new block before the MATRIX command, at MATRIX's indentation.
- **The document helpers**:
  - `DocUtils`, `DocMain` (backend/apps/doc): the page-range parser, PDF
    page text, DOCX to Markdown, PDF to Markdown over chosen pages, the
    LlamaParse page selection, and the backend's dispatch on parser and
    extension.
  - `ParserUtils`, `ParserServices` (src/parser): page-range splitting of a
    PDF, the PyMuPDF, python-docx and text parsers, and `ParserService.parse`.
- **The settings derivation** (`ConfigMain`, src/config/main.py): the worker
  count, the model names, the default-model indices and the validator.

Shared modules:

- `Wrappers`: `Option` and `Result`.
- `Strings`: the parts of Python's `str` the code uses.
- `Decimal`: `str(int)` and `int(str)`.
- `Documents`: how the PDF and DOCX libraries see a file, and the
  page-text and Markdown conversions that both the backend and the parser
  services perform.

A file's bytes are represented by what each library makes of them:

- fitz or PyPDF2 read them as a PDF, either a list of pages (each page the
  list of its text blocks) or unreadable;
- python-docx reads them as a DOCX, either a list of (style, text)
  paragraphs or unreadable;
- UTF-8 decoding gives a string, or fails.

An in-memory `BytesIO` is a `Stream` class holding that content and its
position.

The language-model clients are a finite script. For each character index
there is a list of rounds, and each round records what one pass of the
retry loop got back. A cycle that reaches the end of its script is
`Stalled`: the program would go on calling the clients. A stalled cycle
makes the collection loop block at that future.

Three consequences of the code that its docstrings and its
`max_attempts = 5` do not make obvious:

- A cycle gives up after six low scores, not five. The loop runs while
  `attempt <= max_attempts`, and only a low score increments `attempt`.
- An exception other than rate limiting does not consume an attempt. A
  cycle whose calls keep raising never gives up.
- Every task reaches a terminal state only if its clients eventually
  return a score. The run's partition is exact only for runs without a
  stalled cycle.

## Model

| member | source | states |
|---|---|---|
| LlmServices.Cycle | src/llm/services.py:53-92 | the retry loop's outcome and every call it makes equal the recursive cycle `Run` from attempt 0 and the initial prompt |
| LlmServices.RunAfterRaise | src/llm/services.py:62-89 | a round whose extract or evaluate call raised leaves `attempt` and the prompt unchanged; it backs off at the current attempt only when the error text marks rate limiting |
| LlmServices.RunAfterScoreError | src/llm/services.py:72-89 | an evaluation without an integer score raises inside the loop and is retried with no backoff and no attempt consumed |
| LlmServices.RunAfterLowScore | src/llm/services.py:77-80 | a score below 8 increments `attempt` and appends "\nAttempt n: <rejected extraction>" to the extraction prompt |
| LlmServices.Merge | src/llm/services.py:75 | the accepted record has the character index, the extraction's keys and the evaluation's keys; the evaluation's values win, then the extraction's |
| LlmServices.AcceptedIsLastRoundMerged | src/llm/services.py:74-76 | an accepted cycle ends at the round whose evaluation scored 8 or more, and its result is the index merged with that round's extraction and evaluation |
| LlmServices.LowScoresBounded | src/llm/services.py:62-80 | at most six evaluations score low, and the cycle gives up exactly when six did |
| LlmServices.PersistentLowScoresGiveUp | src/llm/services.py:62-92 | when every evaluation scores low, the cycle returns None after exactly six extract/evaluate pairs; each prompt is the previous one plus feedback on the rejected extraction |
| LlmServices.LowScoresShape | src/llm/services.py:62-92 | with only low scores the cycle gives up after `MaxAttempts + 1 - attempt` rounds, the first starting from the given prompt |
| LlmServices.LowScoresExtractionPrompts | src/llm/services.py:77-80 | with only low scores each extraction prompt is the previous one plus "Attempt n:" feedback on the rejected extraction |
| LlmServices.LowScoresEvaluationPrompts | src/llm/services.py:68-72 | with only low scores each evaluation prompt is built from that round's extraction |
| LlmServices.RaisingRoundsNeverGiveUp | src/llm/services.py:82-89 | calls that keep raising never end the cycle; they resend the same prompt and back off at the same attempt once per rate-limit error |
| LlmServices.BackoffAttemptsBounded | src/llm/services.py:83-86 | every backoff happens at an attempt between the start and 5, at non-decreasing attempts |
| LlmServices.BackoffDelay | src/llm/services.py:85 | the delay never exceeds 60 seconds |
| LlmServices.BackoffWithinCeiling | src/llm/services.py:85 | for attempts 0..5 and jitter in [0, 1], the delay is 2^attempt plus the jitter; the 60-second cap never applies |
| LlmServices.BackoffMonotone | src/llm/services.py:85 | for the same jitter, the delay does not decrease as the attempt grows |
| LlmServices.RateLimitMarkersAnyCase | src/llm/services.py:83 | an error text containing "429" or "exceeded your current quota", in any letter case, counts as rate limiting |
| LlmServices.Indices | src/llm/services.py:99-104 | the submitted indices run from 0 or 1, by the indexing mode, through `total_characters`, one each |
| LlmServices.SubmitAll | src/llm/services.py:104-106 | the submission loop makes one future per index, in index order, each holding that index's cycle |
| LlmServices.Collected | src/llm/services.py:112-113 | collection gets through every future before the first stalled one and stops there |
| LlmServices.CollectResults | src/llm/services.py:108-124 | the collected futures are split into accepted records and failed indexes in submission order; progress (i+1)/total is reported once per collected future when a callback is given |
| LlmServices.RunCycle | src/llm/services.py:96-124 | `run_cycle` raises the pool's ValueError exactly when `max_workers` is below one; otherwise it returns the accepted records and the failed indexes of the cycles of all indices, in order, with progress after each |
| LlmServices.FinishedRunPartitionsIndices | src/llm/services.py:96-124 | when `run_cycle` finishes, successful plus failed equals the number of indices, an index is failed exactly when its cycle gave up, and failed indexes are ascending |
| LlmServices.PartitionIsExact | src/llm/services.py:108-117 | without a stalled cycle, accepted plus failed equals the number of tasks; an index is failed exactly when its cycle gave up; failed indexes are ascending |
| NexServices.EscapeQuotes | src/nex/services.py:29 | the name keeps its length, every single quote becomes '?', and every other character is kept |
| NexServices.CharacterLabels | src/nex/services.py:24-42 | one label line per character, in input order |
| NexServices.LabelTerminators | src/nex/services.py:35-40 | every label line starts with two tabs; only the last ends with ';', the others with ',' |
| NexServices.StrippedLabel | src/nex/services.py:34-40 | stripping a label line removes exactly the two tabs |
| NexServices.LabelNumbering | src/nex/services.py:28-34 | the first word of a stripped label reads back as the character's index |
| NexServices.LabelsBlock | src/nex/services.py:51-59 | the block to delete starts before it ends, within the file |
| NexServices.LabelsBlockIsFirstClosedBlock | src/nex/services.py:51-62 | the deleted block runs from the latest CHARSTATELABELS line before the first terminator that follows a header, to that terminator; without such a terminator nothing is deleted |
| NexServices.FindLabelsBlock | src/nex/services.py:51-59 | the deletion scan finds exactly that block |
| NexServices.DeleteLabelsBlock | src/nex/services.py:61-62 | deleting leaves the lines before the block and after it |
| NexServices.MatrixFrom | src/nex/services.py:67-72 | the MATRIX line found is the first line at or after the start whose stripped text starts with "MATRIX" |
| NexServices.FindMatrix | src/nex/services.py:65-72 | the insertion scan finds exactly the first MATRIX line |
| NexServices.MatrixKind | src/nex/services.py:69 | a line is classed as MATRIX exactly when its stripped text starts with "MATRIX" |
| NexServices.InsertedBlock | src/nex/services.py:76-77 | the inserted block is the header and one line per label |
| NexServices.InsertedBlockHasNoMatrix | src/nex/services.py:76-77 | no inserted line is a MATRIX line |
| NexServices.MatrixFollowsInsertedBlock | src/nex/services.py:74-77 | after the insertion, the MATRIX line is still the first MATRIX line and directly follows the inserted block |
| NexServices.UnchangedWithoutBlockOrMatrix | src/nex/services.py:48-80 | a file with neither a closed block nor a MATRIX line comes back unchanged, apart from a final newline |
| NexServices.NexService.constructor | src/nex/services.py:6-8 | the service holds the file text and no labels |
| NexServices.NexService.BuildCharacterStates | src/nex/services.py:12-42 | the label loop and the final comma-to-semicolon rewrite give exactly `CharacterLabels` |
| NexServices.NexService.NexusUpdate | src/nex/services.py:46-80 | the rewrite deletes the old block, inserts the stored labels before MATRIX and joins the lines; with no stored labels and a MATRIX line it raises TypeError |
| NexServices.NexService.Update | src/nex/services.py:82-84 | `update` stores the new labels, leaves the file text alone and returns the rewrite |
| Documents.Extension | src/parser/services.py:19 | the extension is a dot followed by text without a dot |
| Documents.ExtensionAfterLastDot | src/parser/services.py:19 | the extension is the lower-cased text after the last dot |
| Documents.ExtensionWithoutDot | backend/apps/doc/main.py:17 | a name without a dot has its whole lower-cased name as its extension |
| Documents.KeptBlocksTrimmed | backend/apps/doc/utils.py:26-30 | the kept blocks are non-empty and neither start nor end with whitespace |
| Documents.NoneKeptIffAllBlank | backend/apps/doc/utils.py:26-30 | no block is kept exactly when every block is whitespace only |
| Documents.AllKeptIffNoneBlank | backend/apps/doc/utils.py:26-30 | every block is kept exactly when none is whitespace only |
| Documents.PageTextEmptyIffBlank | backend/apps/doc/utils.py:16-31 | a page contributes no text exactly when all of its blocks are whitespace only |
| Documents.PagesTextStep | src/parser/services.py:97-100 | the text of the first i+1 pages is that of the first i followed by page i's |
| Documents.MarkdownLines | backend/apps/doc/utils.py:64-78 | one line per paragraph when no heading level raises; None exactly when some paragraph's heading level is not an integer |
| Documents.HeadingStyleLine | backend/apps/doc/utils.py:68-70 | a "Heading N" paragraph becomes N hashes, a space and its text |
| Documents.OneLinePerParagraph | backend/apps/doc/utils.py:64-82 | when no paragraph text holds a newline, splitting the Markdown on newlines gives back each paragraph's line, in order |
| DocUtils.ParsePageRange | backend/apps/doc/utils.py:33-55 | a parsed range is non-empty and consecutive, starting at -1 or above; an error is one of the two ValueError messages |
| DocUtils.Range | backend/apps/doc/utils.py:51 | `list(range(lo, hi))` has hi-lo elements, element k being lo+k |
| DocUtils.ParseSinglePage | backend/apps/doc/utils.py:46-51 | a single page number n gives the one page n-1 |
| DocUtils.ParseTwoNumbers | backend/apps/doc/utils.py:46-53 | "a<sep>b" gives pages a-1 .. b-1 when a <= b and the order error otherwise, for any run of '-', ',' and whitespace |
| DocUtils.MatchedCharsAllowed | backend/apps/doc/utils.py:46 | a text the pattern matches holds only digits and separator characters |
| DocUtils.ForeignCharacterRejected | backend/apps/doc/utils.py:46-55 | a character that is neither a digit nor a separator makes the text malformed |
| DocUtils.NoDigitRejected | backend/apps/doc/utils.py:46-55 | a text without a digit, the empty text included, is malformed |
| DocUtils.ThreeNumbersRejected | backend/apps/doc/utils.py:46-55 | "a-b-c" is malformed |
| DocUtils.ExtractTextFromPdfPage | backend/apps/doc/utils.py:16-31 | the block loop gives exactly the page text: each non-blank block stripped and followed by a newline |
| DocUtils.ConvertDocxToMarkdown | backend/apps/doc/utils.py:58-82 | the paragraph loop gives the paragraphs' Markdown lines joined by newlines, or the error of an unreadable file or a non-integer heading level |
| DocUtils.FitzIndex | backend/apps/doc/utils.py:98 | an index that selects a page selects one within the document, and a non-negative one selects itself |
| DocUtils.ConvertPdfToMarkdown | backend/apps/doc/utils.py:84-102 | the page loop gives the chosen pages' text, in list order, or the PDF error |
| DocUtils.PickedStep | backend/apps/doc/utils.py:96-99 | one more page number appends that page's text, or fails the whole conversion when the index is out of range |
| DocUtils.PickedRangeIsSlice | backend/apps/doc/utils.py:96-99 | picking a run of in-range pages gives those pages' texts concatenated in order |
| DocUtils.ConvertRange | backend/apps/doc/utils.py:84-102 | converting pages lo .. hi-1, all in range, gives exactly their text |
| DocUtils.ConvertParsedRange | backend/apps/doc/utils.py:84-102 | the pages parsed from "a<sep>b", with b within the document, convert to the text of pages a .. b |
| DocUtils.PageOutOfRangeFails | backend/apps/doc/utils.py:96-102 | one page number at or past the page count makes the whole conversion fail |
| DocUtils.PyIndex | backend/apps/doc/utils.py:158 | a list index is valid exactly from -n to n-1 and selects i or i+n |
| DocUtils.Picked | backend/apps/doc/utils.py:155-158 | the picked pages exist exactly when every index is valid; pick k is the page index k selects |
| DocUtils.ParseWithLlamaparse | backend/apps/doc/utils.py:146-166 | the selection loop, with its fall-back to all pages, gives the selected text |
| DocUtils.SelectingAllPages | backend/apps/doc/utils.py:155-166 | picking every page, in order, gives the same text as picking none |
| DocUtils.InvalidPageSelectsAll | backend/apps/doc/utils.py:156-161 | one invalid index discards the picks already made and selects all pages |
| ParserUtils.CopyPages | src/parser/utils.py:59-61 | the writer loop adds to-from+1 pages, page k being page from+k |
| ParserUtils.SplitContent | src/parser/utils.py:46-71 | unreadable bytes come back as they were |
| ParserUtils.SplitByRange | src/parser/utils.py:46-71 | the returned stream holds the split content at offset 0; bytes get a fresh stream; a stream argument keeps its content, and is returned itself exactly when the PDF is unreadable or the range invalid, a fresh stream exactly when it is split |
| ParserUtils.SplitKeepsRange | src/parser/utils.py:52-61 | a valid range gives to-from+1 pages, page k being page from+k |
| ParserUtils.InvalidRangeKeepsContent | src/parser/utils.py:52-57 | each of the five invalid-range conditions returns the original content |
| ParserUtils.SinglePageSplit | src/parser/utils.py:60-61 | from == to gives a one-page document holding that page |
| ParserUtils.SplitOfSplit | src/parser/utils.py:59-61 | splitting a split equals one split at the composed offsets |
| ParserServices.PyMuPdfParsePage | src/parser/services.py:55-72 | gives exactly the page text (each non-blank block stripped and followed by a newline), through the backend's identical block loop |
| ParserServices.PyMuPdfParse | src/parser/services.py:76-100 | the page loop gives the text of every page in order, or the error of an unreadable PDF |
| ParserServices.DocxParse | src/parser/services.py:106-139 | one Markdown line per paragraph joined by newlines, or the load or heading-level error, through the backend's identical paragraph loop |
| ParserServices.ParserService.constructor | src/parser/services.py:12-13 | the service keeps the parser name |
| ParserServices.ParserService.Parse | src/parser/services.py:17-48 | the dispatch returns the outcome for its extension and parser; a returned PDF stream holds the split content at offset 0, and is the uploaded stream itself exactly when no split happened; a LlamaParse error is the parse's error |
| ParserServices.PyMuPdfReadsRequestedPages | src/parser/services.py:21-27 | PyMuPDF on a `.pdf` with an in-range page list gives the text of pages pages[0] .. pages[-1] |
| ParserServices.PdfUsesOnlyEnds | src/parser/services.py:23 | only the first and the last requested page matter |
| ParserServices.EmptyPagesFailForPdf | src/parser/services.py:23 | an empty page list raises IndexError for every `.pdf`, whatever the parser |
| ParserServices.LlamaparseReadsSplit | src/parser/services.py:29-32 | "llamaparse" gives LlamaParse's text on the narrowed PDF, and a LlamaParse, temporary-file or API-key error leaves the parse as that error |
| ParserServices.GeminiReturnsSplit | src/parser/services.py:34-35 | "Gemini" returns the split PDF itself |
| ParserServices.NothingIffUnlisted | src/parser/services.py:21-48 | the parse returns None exactly for the extension/parser combinations the dispatch does not list |
| ParserServices.TextFileIsDecoded | src/parser/services.py:47-48 | a `.txt` gives its decoded text with any parser, or "" when it is not valid UTF-8 |
| ParserServices.DocxIgnoresPages | src/parser/services.py:39-41 | python-docx reads the whole DOCX, whatever the page list |
| ParserServices.UpperCaseExtensionIsPdf | src/parser/services.py:19 | "x.PDF" counts as a PDF |
| ParserServices.AsParsed | src/parser/services.py:27 | a parser's text or error is returned as the parse outcome |
| ConfigMain.Keys | src/config/main.py:49-51 | the model names are the MODELS keys in insertion order |
| ConfigMain.Lookup | src/config/main.py:57 | a key lookup succeeds exactly for the dict's keys |
| ConfigMain.LookupOfEntry | src/config/main.py:57 | on a dict with distinct keys, looking up an entry's key gives that entry's value |
| ConfigMain.FallbackWorkersBounded | src/config/main.py:45 | without MAX_WORKERS the count lies in [5, 32]: CPUs + 4 up to 28 CPUs, 32 from then on |
| ConfigMain.NonPositiveWorkersOnlyWhenSet | src/config/main.py:42-46 | `max_workers` is below one exactly when MAX_WORKERS is set to such a value; the fallback never is |
| ConfigMain.SetWorkersVerbatim | src/config/main.py:42-43 | a set MAX_WORKERS is returned as is, whatever the machine |
| ConfigMain.FallbackWorkersMonotone | src/config/main.py:45 | the fallback never decreases as CPUs are added |
| ConfigMain.IndexOf | src/config/main.py:70 | `list.index` finds the first position of a present name and fails exactly for an absent one |
| ConfigMain.DefaultIdxMeaning | src/config/main.py:67-81 | the default index names the default model when it is known, and is 0 otherwise |
| ConfigMain.FirstUnknown | src/config/main.py:87-88 | the validator finds no unknown model exactly when every default model is a MODELS key; one it reports is an entry whose model is not a key |
| ConfigMain.ValidationFailsIffUnknownDefault | src/config/main.py:85-93 | validation raises exactly when some default model is not a MODELS key |
| ConfigMain.ValidatedDefaultsIndexed | src/config/main.py:67-93 | on validated settings, each default index names its default model |
| ConfigMain.BuiltInDefaults | src/config/main.py:22-30 | the built-in settings validate and give extraction index 1 and evaluation index 0 |
| DocMain.Ok | backend/apps/doc/main.py:30-32 | a conversion error becomes None, and a success its text |
| DocMain.LlamaparseForEveryExtension | backend/apps/doc/main.py:19-21 | LlamaParse, the default parser, is used whatever the extension; a load error gives "" |
| DocMain.ResultOnlyFromListedCombinations | backend/apps/doc/main.py:19-28 | a non-None result comes from LlamaParse, python-docx on `.docx` or PyMuPDF on `.pdf` |
| DocMain.DocxConversion | backend/apps/doc/main.py:22-23 | python-docx on a `.docx` gives its Markdown exactly when the conversion raises nothing |
| DocMain.PdfWithoutPagesIsNone | backend/apps/doc/main.py:24-32 | PyMuPDF with no page list gives None |
| DocMain.PdfPagePastEndIsNone | backend/apps/doc/main.py:24-32 | a page number past the end gives None |
| DocMain.NameWithoutDotIsItsOwnExtension | backend/apps/doc/main.py:17 | a file named just "PDF" is converted as a PDF |

## Left out

- The thread pool is a sequential map over the indices. The tasks share no state, and the results are collected in submission order, which the model keeps. `max_workers` is modelled (`ConfigMain`). A pool size below one raises before any task runs (`RunCycle`'s `raised`); any other size does not affect the results.
- `time.sleep` and `random.uniform` are left out. The trace records the attempt at each backoff, and `BackoffDelay` takes the jitter as a parameter.
- LlmServices.Cycle: a cycle whose calls never succeed runs forever in the source. The model bounds each cycle by its finite script and reports `Stalled`.
- The client calls, Langfuse prompt loading, `str.format` templating and `str()` of a response are left out. They are parameters (`Formatting`, `Oracle`); GeminiService is not part of this model.
- The streamlit app, logging, Sentry and the exception decorators are left out. `handle_exceptions` re-raises what it catches, so it is the identity on results.
- fitz, PyPDF2, python-docx and LlamaParse are left out. A file is what each library reads from it (`Content`), and LlamaParse's output is a parameter (`loaded`, `llama`). Each may fail: the backend's `loaded` is None when `load_data` raises, and src/parser's `llama` returns the error that leaves `parse` (temporary file, API key or load failure).
- Temporary files (`create_temp_file`) and the LibreOffice conversion (`create_from_docx`) are left out.
- ParserServices.ParserService.Parse: the `.docx` + "Gemini" branch passes an argument that `PDFService()` does not take. It is modelled only as the TypeError it raises; the conversion behind it is not modelled.
- Documents.Stream: the position after `read()` is not modelled. The parsers rewind, then read the whole content.
- DocUtils.ConvertPdfToMarkdown: the backend reads from the stream's current position. The model reads the whole content.
- DocUtils.FitzIndex: fitz makes a negative index non-negative by adding the page count repeatedly. On a document with no pages that never ends; the model reports an error instead.
- Strings.SplitLines: only "\n" separates lines. `str.splitlines` also splits on "\r", "\r\n" and other separators.
- Strings.IsSpace: only ASCII whitespace is modelled, and `lower()` changes only ASCII letters.
- Decimal.ParseInt: digit-group underscores and non-ASCII digits, which `int()` accepts, are not modelled.
- NexServices.NexService.constructor: takes the decoded text. UTF-8 decoding of the uploaded bytes is not modelled.
- The response records are dicts with integer, string and string-list values. The entries of `_character_states`'s input are typed records, so a missing key (KeyError) is not modelled.
- src/config.py, environment and secret loading, and `LOG_LEVEL` are left out. Settings arrive as a value.
- ConfigMain.Lookup: a dict is its entries in insertion order. A Python dict holds each key once, so entries with a repeated key are outside the model; `LookupOfEntry` states lookup on dicts with distinct keys.
