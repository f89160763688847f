/**
 * The NEXUS rewriter of src/nex/services.py: it turns the extracted
 * characters into CHARSTATELABELS lines, deletes the file's existing
 * CHARSTATELABELS block and inserts the new one right before the MATRIX
 * command, at the MATRIX line's indentation.
 */
module NexServices {
  import opened Wrappers
  import opened Strings
  import opened Decimal

  /** One extracted character: its number, its name and its state names. */
  datatype CharacterEntry = CharacterEntry(characterIndex: int, character: string, states: seq<string>)

  // ---------------------------------------------------------------------
  // Building the labels

  /** The name with every single quote replaced by '?'. */
  function EscapeQuotes(name: string): (r: string)
    ensures |r| == |name| && '\'' !in r
    ensures forall i | 0 <= i < |name| :: name[i] == '\'' ==> r[i] == '?'
    ensures forall i | 0 <= i < |name| :: name[i] != '\'' ==> r[i] == name[i]
  {
    seq(|name|, i requires 0 <= i < |name| => if name[i] == '\'' then '?' else name[i])
  }

  /** Each state wrapped in single quotes, with no escaping. */
  function QuotedStates(states: seq<string>): seq<string> {
    seq(|states|, k requires 0 <= k < |states| => "'" + states[k] + "'")
  }

  /** `{index} '{name}' / 'state' 'state' ...` */
  function Label(e: CharacterEntry): string {
    IntToString(e.characterIndex) + " '" + EscapeQuotes(e.character) + "' / " + Join(QuotedStates(e.states), " ")
  }

  /** The labels block: one line per character, in input order, each indented
      by two tabs; every line ends with a comma except the last, which ends
      with a semicolon. */
  function CharacterLabels(entries: seq<CharacterEntry>): (r: seq<string>)
    ensures |r| == |entries|
  {
    seq(|entries|, k requires 0 <= k < |entries| =>
      "\t\t" + Label(entries[k]) + if k == |entries| - 1 then ";" else ",")
  }

  /** Only the last label is closed by a semicolon. */
  lemma LabelTerminators(entries: seq<CharacterEntry>, k: nat)
    requires k < |entries|
    ensures var l := CharacterLabels(entries)[k];
            |l| >= 3 && l[..2] == "\t\t" && l[|l| - 1] == (if k == |entries| - 1 then ';' else ',')
  {
  }

  /** Two leading tabs are stripped from a body that neither starts nor
      ends with whitespace. */
  lemma StripTabbed(body: string)
    requires body != [] && !IsSpace(body[0]) && !IsSpace(body[|body| - 1])
    ensures Strip("\t\t" + body) == body
  {
    StripAfterSpaces("\t\t", body);
    assert LStrip("\t\t" + body) == body;
    assert TrailingSpaces(body) == 0;
  }

  /** A label starts with its index, and the index is followed by a space. */
  lemma LabelShape(e: CharacterEntry, sep: string) returns (tail: string)
    ensures var index := IntToString(e.characterIndex);
            && ' ' !in index && (index[0] == '-' || IsDigit(index[0]))
            && Label(e) + sep == index + [' '] + tail
  {
    var index := IntToString(e.characterIndex);
    tail := "'" + EscapeQuotes(e.character) + "' / " + Join(QuotedStates(e.states), " ") + sep;
    assert Label(e) + sep == index + [' '] + tail;
    assert forall i | 1 <= i < |index| :: index[i] == index[1..][i - 1];
  }

  /** A label line's text after the two tabs: it starts with the index's
      first character, a sign or a digit, and ends with the terminator. */
  lemma LabelBody(entries: seq<CharacterEntry>, k: nat) returns (body: string)
    requires k < |entries|
    ensures body == Label(entries[k]) + if k == |entries| - 1 then ";" else ","
    ensures CharacterLabels(entries)[k] == "\t\t" + body
    ensures |body| >= 2 && (body[0] == '-' || IsDigit(body[0]))
    ensures body[|body| - 1] == if k == |entries| - 1 then ';' else ','
  {
    var e := entries[k];
    var sep := if k == |entries| - 1 then ";" else ",";
    var tail := LabelShape(e, sep);
    body := Label(e) + sep;
    assert body[0] == IntToString(e.characterIndex)[0];
    assert body[|body| - 1] == sep[0];
  }

  /** Stripping a label line removes exactly the two tabs. */
  lemma StrippedLabel(entries: seq<CharacterEntry>, k: nat)
    requires k < |entries|
    ensures Strip(CharacterLabels(entries)[k]) == Label(entries[k]) + if k == |entries| - 1 then ";" else ","
  {
    var body := LabelBody(entries, k);
    assert !IsSpace(body[0]) && !IsSpace(body[|body| - 1]);
    StripTabbed(body);
  }

  /** The first space-separated word of a label is its index. */
  lemma FirstWordOfLabel(e: CharacterEntry, sep: string)
    ensures ParseInt(Split(Label(e) + sep, ' ')[0]) == Some(e.characterIndex)
  {
    var index := IntToString(e.characterIndex);
    var tail := LabelShape(e, sep);
    SplitAfterPiece(index, tail, ' ');
    ParseIntOfIntToString(e.characterIndex);
  }

  /** The first word of a stripped label reads back as the character's index:
      the labels are numbered by `character_index`. */
  lemma LabelNumbering(entries: seq<CharacterEntry>, k: nat)
    requires k < |entries|
    ensures ParseInt(Split(Strip(CharacterLabels(entries)[k]), ' ')[0]) == Some(entries[k].characterIndex)
  {
    StrippedLabel(entries, k);
    FirstWordOfLabel(entries[k], if k == |entries| - 1 then ";" else ",");
  }

  // ---------------------------------------------------------------------
  // Finding the old block and the MATRIX command

  /** What the two scans see in a line, by the start of its stripped text. */
  datatype LineKind = Header | Terminator | Matrix | Plain

  function KindOf(line: string): LineKind {
    var t := Strip(line);
    if StartsWith(t, "CHARSTATELABELS") then Header
    else if StartsWith(t, ";") then Terminator
    else if StartsWith(t, "MATRIX") then Matrix
    else Plain
  }

  function Kinds(lines: seq<string>): (r: seq<LineKind>)
    ensures |r| == |lines|
  {
    seq(|lines|, i requires 0 <= i < |lines| => KindOf(lines[i]))
  }

  /** The deletion scan from line `i` on, `start` being the latest header
      seen so far: a header moves the start, a terminator after a start ends
      the block. */
  function ScanBlock(kinds: seq<LineKind>, i: nat, start: Option<nat>): (r: Option<(nat, nat)>)
    requires i <= |kinds|
    requires start.Some? ==> start.value < i
    ensures r.Some? ==> r.value.0 < r.value.1 < |kinds|
    decreases |kinds| - i
  {
    if i == |kinds| then None
    else if kinds[i] == Header then ScanBlock(kinds, i + 1, Some(i))
    else if start.Some? && kinds[i] == Terminator then Some((start.value, i))
    else ScanBlock(kinds, i + 1, start)
  }

  /** The first and last line of the CHARSTATELABELS block to delete. */
  function LabelsBlock(lines: seq<string>): (r: Option<(nat, nat)>)
    ensures r.Some? ==> r.value.0 < r.value.1 < |lines|
  {
    ScanBlock(Kinds(lines), 0, None)
  }

  /** No terminator before `upTo` has a header before it. */
  predicate Unclosed(kinds: seq<LineKind>, upTo: nat)
    requires upTo <= |kinds|
  {
    forall j | 0 <= j < upTo :: kinds[j] == Terminator ==> forall h | 0 <= h < j :: kinds[h] != Header
  }

  lemma {:induction false} ScanBlockFrom(kinds: seq<LineKind>, i: nat, start: Option<nat>)
    requires i <= |kinds|
    requires start.None? ==> forall h | 0 <= h < i :: kinds[h] != Header
    requires start.Some? ==> start.value < i && kinds[start.value] == Header
                             && forall h | start.value < h < i :: kinds[h] != Header
    requires Unclosed(kinds, i)
    ensures ScanBlock(kinds, i, start).None? ==> Unclosed(kinds, |kinds|)
    ensures ScanBlock(kinds, i, start).Some? ==>
              var (s, e) := ScanBlock(kinds, i, start).value;
              && kinds[s] == Header && kinds[e] == Terminator
              && (forall h | s < h < e :: kinds[h] != Header)
              && Unclosed(kinds, e)
    decreases |kinds| - i
  {
    if i < |kinds| {
      if kinds[i] == Header {
        ScanBlockFrom(kinds, i + 1, Some(i));
      } else if start.Some? && kinds[i] == Terminator {
      } else {
        ScanBlockFrom(kinds, i + 1, start);
      }
    }
  }

  /** The block deleted starts at a header and ends at a terminator with no
      header in between, and no earlier terminator follows any header; when
      no block is found, no terminator follows any header at all. */
  lemma LabelsBlockIsFirstClosedBlock(lines: seq<string>)
    ensures var kinds := Kinds(lines);
            LabelsBlock(lines).None? ==> Unclosed(kinds, |lines|)
    ensures var kinds := Kinds(lines);
            LabelsBlock(lines).Some? ==>
              var (s, e) := LabelsBlock(lines).value;
              && kinds[s] == Header && kinds[e] == Terminator
              && (forall h | s < h < e :: kinds[h] != Header)
              && Unclosed(kinds, e)
  {
    ScanBlockFrom(Kinds(lines), 0, None);
  }

  /** The first MATRIX line at or after line `i`. */
  function MatrixFrom(kinds: seq<LineKind>, i: nat): (r: Option<nat>)
    requires i <= |kinds|
    ensures r.Some? ==> i <= r.value < |kinds| && kinds[r.value] == Matrix
                        && forall j | i <= j < r.value :: kinds[j] != Matrix
    ensures r.None? ==> forall j | i <= j < |kinds| :: kinds[j] != Matrix
    decreases |kinds| - i
  {
    if i == |kinds| then None
    else if kinds[i] == Matrix then Some(i)
    else MatrixFrom(kinds, i + 1)
  }

  /** The first MATRIX line. */
  function MatrixLine(lines: seq<string>): (r: Option<nat>)
    ensures r.Some? ==> r.value < |lines|
  {
    MatrixFrom(Kinds(lines), 0)
  }

  lemma ScanStep(kinds: seq<LineKind>, i: nat, start: Option<nat>)
    requires i < |kinds|
    requires start.Some? ==> start.value < i
    ensures kinds[i] == Header ==> ScanBlock(kinds, i, start) == ScanBlock(kinds, i + 1, Some(i))
    ensures kinds[i] != Header && !(start.Some? && kinds[i] == Terminator)
            ==> ScanBlock(kinds, i, start) == ScanBlock(kinds, i + 1, start)
  {
  }

  /** The tests the deletion scan makes on one line: `strip()`, then
      `startswith("CHARSTATELABELS")`, then `startswith(";")`. */
  method ClassifyLine(line: string) returns (kind: LineKind)
    ensures kind == KindOf(line)
    ensures kind == Header <==> StartsWith(Strip(line), "CHARSTATELABELS")
    ensures kind == Terminator <==> !StartsWith(Strip(line), "CHARSTATELABELS") && StartsWith(Strip(line), ";")
  {
    var stripped := Strip(line);
    if StartsWith(stripped, "CHARSTATELABELS") {
      return Header;
    } else if StartsWith(stripped, ";") {
      return Terminator;
    }
    kind := KindOf(line);
  }

  /** The loop that finds the block to delete. */
  method FindLabelsBlock(lines: seq<string>) returns (block: Option<(nat, nat)>)
    ensures block == LabelsBlock(lines)
  {
    ghost var kinds := Kinds(lines);
    ghost var whole := LabelsBlock(lines);
    var start: Option<nat> := None;
    var i := 0;
    while i < |lines|
      invariant 0 <= i <= |lines|
      invariant start.Some? ==> start.value < i
      invariant ScanBlock(kinds, i, start) == whole
    {
      var kind := ClassifyLine(lines[i]);
      assert kinds[i] == kind;
      if kind == Header {
        ScanStep(kinds, i, start);
        start := Some(i);
      } else if start.Some? && kind == Terminator {
        return Some((start.value, i));
      } else {
        ScanStep(kinds, i, start);
      }
      i := i + 1;
    }
    return None;
  }

  lemma MatrixKind(line: string)
    ensures KindOf(line) == Matrix <==> StartsWith(Strip(line), "MATRIX")
  {
    var t := Strip(line);
    if StartsWith(t, "MATRIX") {
      assert t[0] == 'M';
    }
  }

  /** The loop that finds the MATRIX line. */
  method FindMatrix(lines: seq<string>) returns (matrix: Option<nat>)
    ensures matrix == MatrixLine(lines)
  {
    ghost var kinds := Kinds(lines);
    var i := 0;
    while i < |lines|
      invariant 0 <= i <= |lines|
      invariant MatrixFrom(kinds, i) == MatrixLine(lines)
    {
      MatrixKind(lines[i]);
      if StartsWith(Strip(lines[i]), "MATRIX") {
        return Some(i);
      }
      i := i + 1;
    }
    return None;
  }

  // ---------------------------------------------------------------------
  // The rewrite

  /** The lines without the old block (unchanged when there is none). */
  function WithoutLabelsBlock(lines: seq<string>): seq<string> {
    match LabelsBlock(lines)
    case None => lines
    case Some((s, e)) => lines[..s] + lines[e + 1..]
  }

  /** The lines inserted before MATRIX: the header, then the labels, each
      indented by `indent` spaces and carrying its own "\n". */
  function InsertedBlock(indent: nat, labels: seq<string>): (r: seq<string>)
    ensures |r| == 1 + |labels|
  {
    [Repeat(' ', indent) + "\tCHARSTATELABELS\n"]
    + seq(|labels|, k requires 0 <= k < |labels| => Repeat(' ', indent) + labels[k] + "\n")
  }

  /** The line list after deletion and insertion; None when a MATRIX line
      exists but there are no labels to insert (iterating over None raises
      TypeError). */
  function UpdatedLines(lines: seq<string>, labels: Option<seq<string>>): Option<seq<string>> {
    var kept := WithoutLabelsBlock(lines);
    match MatrixLine(kept)
    case None => Some(kept)
    case Some(m) =>
      if labels.None? then None
      else Some(kept[..m] + InsertedBlock(LeadingSpaces(kept[m]), labels.value) + kept[m..])
  }

  /** The new file text: the updated lines joined by "\n". */
  function RewriteNexus(file: string, labels: Option<seq<string>>): Result<string, string> {
    match UpdatedLines(SplitLines(file), labels)
    case None => Failure("TypeError: 'NoneType' object is not iterable")
    case Some(lines) => Success(Join(lines, "\n"))
  }

  /** A file with neither a closed CHARSTATELABELS block nor a MATRIX line
      comes back unchanged, except for a final newline. */
  lemma UnchangedWithoutBlockOrMatrix(file: string, labels: Option<seq<string>>)
    requires LabelsBlock(SplitLines(file)).None?
    requires MatrixLine(SplitLines(file)).None?
    ensures RewriteNexus(file, labels)
            == Success(if |file| > 0 && file[|file| - 1] == '\n' then file[..|file| - 1] else file)
  {
    JoinSplitLines(file);
  }

  /** A line made of whitespace and then a character other than 'M' is no
      MATRIX line. */
  lemma NoMatrixAfterSpaces(w: string, x: string)
    requires AllSpace(w)
    requires x != [] && !IsSpace(x[0]) && x[0] != 'M'
    ensures KindOf(w + x) != Matrix
  {
    StripAfterSpaces(w, x);
  }

  /** No inserted label line is a MATRIX line: it starts with the index. */
  lemma LabelLineIsNoMatrix(indent: string, entries: seq<CharacterEntry>, k: nat)
    requires AllSpace(indent)
    requires k < |entries|
    ensures KindOf(indent + CharacterLabels(entries)[k] + "\n") != Matrix
  {
    var body := LabelBody(entries, k);
    assert indent + CharacterLabels(entries)[k] + "\n" == (indent + "\t\t") + (body + "\n");
    NoMatrixAfterSpaces(indent + "\t\t", body + "\n");
  }

  /** No line of the inserted block is a MATRIX line. */
  lemma InsertedBlockHasNoMatrix(indent: nat, entries: seq<CharacterEntry>)
    ensures var block := InsertedBlock(indent, CharacterLabels(entries));
            forall j | 0 <= j < |block| :: KindOf(block[j]) != Matrix
  {
    var labels := CharacterLabels(entries);
    var block := InsertedBlock(indent, labels);
    var spaces := Repeat(' ', indent);
    assert block[0] == (spaces + "\t") + "CHARSTATELABELS\n";
    NoMatrixAfterSpaces(spaces + "\t", "CHARSTATELABELS\n");
    forall j | 1 <= j < |block| ensures KindOf(block[j]) != Matrix {
      assert block[j] == spaces + labels[j - 1] + "\n";
      LabelLineIsNoMatrix(spaces, entries, j - 1);
    }
  }

  /** Lines without MATRIX inserted before the first MATRIX line leave it the
      first MATRIX line, moved down by their number. */
  lemma MatrixAfterInsertion(kept: seq<string>, block: seq<string>)
    requires MatrixLine(kept).Some?
    requires forall j | 0 <= j < |block| :: KindOf(block[j]) != Matrix
    ensures var m := MatrixLine(kept).value;
            MatrixLine(kept[..m] + block + kept[m..]) == Some(m + |block|)
  {
    var m := MatrixLine(kept).value;
    var updated := kept[..m] + block + kept[m..];
    var kinds := Kinds(updated);
    forall j | 0 <= j < m + |block| ensures kinds[j] != Matrix {
      if j < m {
        assert updated[j] == kept[j];
        assert Kinds(kept)[j] != Matrix;
      } else {
        assert updated[j] == block[j - m];
      }
    }
    assert updated[m + |block|] == kept[m];
    assert kinds[m + |block|] == Matrix;
  }

  /** After the insertion the MATRIX line is still the first MATRIX line,
      right after the header and the labels: none of the inserted lines is
      taken for a MATRIX command. */
  lemma MatrixFollowsInsertedBlock(lines: seq<string>, entries: seq<CharacterEntry>)
    requires MatrixLine(WithoutLabelsBlock(lines)).Some?
    ensures var kept := WithoutLabelsBlock(lines);
            var m := MatrixLine(kept).value;
            var updated := UpdatedLines(lines, Some(CharacterLabels(entries))).value;
            && |updated| == |kept| + 1 + |entries|
            && MatrixLine(updated) == Some(m + 1 + |entries|)
            && updated[m + 1 + |entries|] == kept[m]
  {
    var kept := WithoutLabelsBlock(lines);
    var m := MatrixLine(kept).value;
    var block := InsertedBlock(LeadingSpaces(kept[m]), CharacterLabels(entries));
    InsertedBlockHasNoMatrix(LeadingSpaces(kept[m]), entries);
    MatrixAfterInsertion(kept, block);
    assert (kept[..m] + block + kept[m..])[m + |block|] == kept[m];
  }

  /** `del lines[start:end + 1]` for the block found, if any. */
  method DeleteLabelsBlock(lines: seq<string>) returns (kept: seq<string>)
    ensures kept == WithoutLabelsBlock(lines)
  {
    kept := lines;
    var block := FindLabelsBlock(lines);
    if block.Some? {
      kept := lines[..block.value.0] + lines[block.value.1 + 1..];
    }
  }

  // ---------------------------------------------------------------------
  // The service

  /** A NEXUS file being rewritten, with the labels of the last `Update`. */
  class NexService {
    var nexusFile: string
    var characterStates: Option<seq<string>>

    /** Opens the service on the file's (UTF-8 decoded) text; no labels yet. */
    constructor (text: string)
      ensures nexusFile == text && characterStates == None
    {
      nexusFile := text;
      characterStates := None;
    }

    /** Builds the labels: appends one comma-terminated label per entry,
        then replaces the last comma by a semicolon. */
    method BuildCharacterStates(entries: seq<CharacterEntry>) returns (labels: seq<string>)
      ensures labels == CharacterLabels(entries)
    {
      labels := [];
      var i := 0;
      while i < |entries|
        invariant 0 <= i <= |entries|
        invariant |labels| == i
        invariant forall k | 0 <= k < i :: labels[k] == "\t\t" + Label(entries[k]) + ","
      {
        labels := labels + ["\t\t" + Label(entries[i]) + ","];
        i := i + 1;
      }
      if |labels| > 0 {
        var n := |labels| - 1;
        var last := labels[n];
        assert last[..|last| - 1] == "\t\t" + Label(entries[n]);
        labels := labels[..n] + [last[..|last| - 1] + ";"];
      }
    }

    /** Deletes the old block, inserts the stored labels before MATRIX and
        returns the joined text. */
    method NexusUpdate() returns (r: Result<string, string>)
      ensures r == RewriteNexus(nexusFile, characterStates)
    {
      var lines := SplitLines(nexusFile);
      lines := DeleteLabelsBlock(lines);
      var matrix := FindMatrix(lines);
      if matrix.Some? {
        if characterStates.None? {
          return Failure("TypeError: 'NoneType' object is not iterable");
        }
        var m := matrix.value;
        var indent := LeadingSpaces(lines[m]);
        var labels := characterStates.value;
        var indented := seq(|labels|, k requires 0 <= k < |labels| => Repeat(' ', indent) + labels[k] + "\n");
        var inserted := [Repeat(' ', indent) + "\tCHARSTATELABELS\n"] + indented;
        assert inserted == InsertedBlock(indent, labels);
        lines := lines[..m] + inserted + lines[m..];
      }
      return Success(Join(lines, "\n"));
    }

    /** Stores the labels built from `entries`, then rewrites the file. */
    method Update(entries: seq<CharacterEntry>) returns (r: Result<string, string>)
      modifies this
      ensures characterStates == Some(CharacterLabels(entries))
      ensures nexusFile == old(nexusFile)
      ensures r == RewriteNexus(nexusFile, characterStates)
    {
      var labels := BuildCharacterStates(entries);
      characterStates := Some(labels);
      r := NexusUpdate();
    }
  }
}
