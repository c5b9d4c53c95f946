/**
  Junk-line classifier, header locator and line cleaning
  (components/csv-uploader.tsx:93-129 and 171).
 */
module Header {
  import opened Text
  import opened Seqs
  import opened Delimiter

  /** `isDelimiterOnlyLine`: nothing but the delimiter and whitespace, the
      empty line included. */
  function IsDelimiterOnlyLine(line: string, d: char): (junk: bool)
    ensures junk <==> forall i :: 0 <= i < |line| ==> line[i] == d || IsWhitespace(line[i])
  {
    RemoveAllBlank(line, d);
    TrimBlank(RemoveAll(line, d));
    |Trim(RemoveAll(line, d))| == 0
  }

  /** Lines examined by the header search. */
  const ScanLimit: nat := 200

  /** `Math.min(200, lines.length)`. */
  function Window(lines: seq<string>): nat {
    Min(ScanLimit, |lines|)
  }

  /** Number of cells whose trimmed text is non-empty. */
  function TextCells(cells: seq<string>): nat {
    |Filter(cells, HasText)|
  }

  /** `line.split(delimiter).length`. */
  function CellCount(line: string, d: Delim): nat {
    |Split(line, d)|
  }

  /** The four tests a line must pass before it competes for the header:
      non-empty, holds the delimiter, not junk, at least two cells with text. */
  predicate IsHeaderCandidate(line: string, d: Delim) {
    && line != ""
    && Count(line, d) >= 1
    && !IsDelimiterOnlyLine(line, d)
    && TextCells(Split(line, d)) >= 2
  }

  /** The last test subsumes the other three: a line is a candidate exactly
      when at least two of its cells have text. */
  lemma CandidateIffTwoTextCells(line: string, d: Delim)
    ensures IsHeaderCandidate(line, d) <==> TextCells(Split(line, d)) >= 2
  {
    var cells := Split(line, d);
    if TextCells(cells) >= 2 {
      var k := SomeTextCell(cells);
      assert d !in cells[k];
      TrimBlank(cells[k]);
      var j :| 0 <= j < |cells[k]| && !IsWhitespace(cells[k][j]);
      JoinContains(cells, d, k, j);
      NotDelimiterOnly(line, d, cells[k][j]);
    }
  }

  /** A cell with text exists when some cell is counted. */
  lemma SomeTextCell(cells: seq<string>) returns (k: nat)
    requires TextCells(cells) > 0
    ensures k < |cells| && HasText(cells[k])
  {
    var kept := Filter(cells, HasText);
    FilterCounts(cells, HasText);
    assert kept[0] in cells;
    k :| 0 <= k < |cells| && cells[k] == kept[0];
    TrimBlank(cells[k]);
  }

  /** One character that is neither the delimiter nor whitespace makes a line carry data. */
  lemma NotDelimiterOnly(line: string, d: char, c: char)
    requires c in line && c != d && !IsWhitespace(c)
    ensures !IsDelimiterOnlyLine(line, d)
  {
    var i :| 0 <= i < |line| && line[i] == c;
  }

  /** The width a line competes with in the header search: its cell count
      when it is a candidate, 0 when the loop skips it with `continue`. */
  function Width(line: string, d: Delim): (w: nat)
    ensures w > 0 <==> IsHeaderCandidate(line, d)
  {
    if IsHeaderCandidate(line, d) then CellCount(line, d) else 0
  }

  /** The widths of the lines in the scanned window. */
  function Widths(lines: seq<string>, d: Delim): (ws: seq<nat>)
    ensures |ws| == Window(lines)
    ensures forall j :: 0 <= j < |ws| ==> ws[j] == Width(lines[j], d)
  {
    seq(Window(lines), (j: int) requires 0 <= j < Window(lines) => Width(lines[j], d))
  }

  /** Best line so far: its index and its cell count (`bestIdx`, `bestCellCount`). */
  datatype Best = Best(index: nat, cells: nat)

  /** The header search loop from position `i` on: a line replaces the best
      one only on a strictly greater width. */
  function Scan(ws: seq<nat>, i: nat, best: Best): Best
    requires i <= |ws|
    decreases |ws| - i
  {
    if i == |ws| then best
    else if ws[i] > best.cells then Scan(ws, i + 1, Best(i, ws[i]))
    else Scan(ws, i + 1, best)
  }

  /** `best` is the first of the widest positions among the first `upto`,
      or the initial state when all of them have width 0. */
  ghost predicate IsFirstWidest(ws: seq<nat>, upto: nat, best: Best)
    requires upto <= |ws|
  {
    && (best.cells == 0 ==> best.index == 0 && forall j :: 0 <= j < upto ==> ws[j] == 0)
    && (best.cells > 0 ==>
          && best.index < upto
          && best.cells == ws[best.index]
          && (forall j :: 0 <= j < upto ==> ws[j] <= best.cells)
          && (forall j :: 0 <= j < best.index ==> ws[j] < best.cells))
  }

  /** The loop keeps `IsFirstWidest` as its invariant. */
  lemma {:induction false} ScanFindsFirstWidest(ws: seq<nat>, i: nat, best: Best)
    requires i <= |ws|
    requires IsFirstWidest(ws, i, best)
    ensures IsFirstWidest(ws, |ws|, Scan(ws, i, best))
    decreases |ws| - i
  {
    if i < |ws| {
      if ws[i] > best.cells {
        ScanFindsFirstWidest(ws, i + 1, Best(i, ws[i]));
      } else {
        ScanFindsFirstWidest(ws, i + 1, best);
      }
    }
  }

  /** `findHeaderIndex`: index 0 when no line of the first 200 has a
      positive width (is a candidate); otherwise a line of that window with
      a positive width that no line of the window outranks and every
      earlier line falls short of, that is, the first of the widest. */
  function FindHeaderIndex(lines: seq<string>, d: Delim): (h: nat)
    ensures (forall j :: 0 <= j < Window(lines) ==> Width(lines[j], d) == 0) ==> h == 0
    ensures (exists j :: 0 <= j < Window(lines) && Width(lines[j], d) > 0) ==>
      && h < Window(lines)
      && Width(lines[h], d) > 0
      && (forall j :: 0 <= j < Window(lines) ==> Width(lines[j], d) <= Width(lines[h], d))
      && (forall j :: 0 <= j < h ==> Width(lines[j], d) < Width(lines[h], d))
  {
    var ws := Widths(lines, d);
    ScanFindsFirstWidest(ws, 0, Best(0, 0));
    var best := Scan(ws, 0, Best(0, 0));
    if best.cells > 0 then best.index else 0
  }

  /** The header search in terms of candidates and cell counts: with no
      candidate among the first 200 lines it answers 0. */
  lemma NoCandidateGivesZero(lines: seq<string>, d: Delim)
    requires forall j :: 0 <= j < Window(lines) ==> !IsHeaderCandidate(lines[j], d)
    ensures FindHeaderIndex(lines, d) == 0
  {
    forall j | 0 <= j < Window(lines) ensures Width(lines[j], d) == 0 {
      WidthOfCandidate(lines[j], d);
    }
  }

  /** Otherwise it answers a candidate of that window with at least as many
      cells as any candidate of the window and strictly more than any
      earlier candidate. */
  lemma HeaderIsFirstWidestCandidate(lines: seq<string>, d: Delim, j: nat)
    requires j < Window(lines) && IsHeaderCandidate(lines[j], d)
    ensures FindHeaderIndex(lines, d) < Window(lines)
    ensures IsHeaderCandidate(lines[FindHeaderIndex(lines, d)], d)
    ensures CellCount(lines[j], d) <= CellCount(lines[FindHeaderIndex(lines, d)], d)
    ensures j < FindHeaderIndex(lines, d) ==>
      CellCount(lines[j], d) < CellCount(lines[FindHeaderIndex(lines, d)], d)
  {
    var h := FindHeaderIndex(lines, d);
    WidthOfCandidate(lines[j], d);
    assert Width(lines[h], d) > 0;
    WidthOfCandidate(lines[h], d);
  }

  lemma WidthOfCandidate(line: string, d: Delim)
    ensures IsHeaderCandidate(line, d) ==> Width(line, d) == CellCount(line, d) > 0
    ensures !IsHeaderCandidate(line, d) ==> Width(line, d) == 0
  {
  }

  /** The line cleaning: the lines from the header on, junk removed, order
      and multiplicity of the rest unchanged. */
  function CleanLines(lines: seq<string>, headerIndex: nat, d: char): (clean: seq<string>)
    ensures forall i :: 0 <= i < |clean| ==> !IsDelimiterOnlyLine(clean[i], d)
    ensures IsSubsequence(clean, Drop(lines, headerIndex))
    ensures forall x :: !IsDelimiterOnlyLine(x, d) ==> multiset(clean)[x] == multiset(Drop(lines, headerIndex))[x]
  {
    FilterIsSubsequence(Drop(lines, headerIndex), (line: string) => !IsDelimiterOnlyLine(line, d));
    FilterCounts(Drop(lines, headerIndex), (line: string) => !IsDelimiterOnlyLine(line, d));
    Filter(Drop(lines, headerIndex), (line: string) => !IsDelimiterOnlyLine(line, d))
  }

  /** A located header survives cleaning and is the first clean line, so it
      is the line the parser reads as the header row. */
  lemma HeaderLeadsCleanLines(lines: seq<string>, d: Delim)
    requires exists j :: 0 <= j < Window(lines) && IsHeaderCandidate(lines[j], d)
    ensures |CleanLines(lines, FindHeaderIndex(lines, d), d)| > 0
    ensures CleanLines(lines, FindHeaderIndex(lines, d), d)[0] == lines[FindHeaderIndex(lines, d)]
  {
    var h := FindHeaderIndex(lines, d);
    var rest := lines[h..];
    assert rest[0] == lines[h];
  }

  /** Cleaning clean lines again removes nothing. */
  lemma CleanLinesIdempotent(lines: seq<string>, headerIndex: nat, d: char)
    ensures CleanLines(CleanLines(lines, headerIndex, d), 0, d) == CleanLines(lines, headerIndex, d)
  {
    var clean := CleanLines(lines, headerIndex, d);
    FilterAllKept(clean, (line: string) => !IsDelimiterOnlyLine(line, d));
  }
}
