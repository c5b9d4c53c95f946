/** Line splitting: `text.split(/\r\n|\n|\r/)` (components/csv-uploader.tsx:149). */
module Lines {
  import opened Text

  /** A physical line holds no line-break character. */
  predicate HasNoBreak(line: string) {
    '\n' !in line && '\r' !in line
  }

  /** The text with every `\r\n` and every lone `\r` rewritten to `\n`. */
  function NormalizeNewlines(text: string): (r: string)
    ensures '\r' !in r
  {
    if |text| == 0 then ""
    else if |text| >= 2 && text[0] == '\r' && text[1] == '\n' then "\n" + NormalizeNewlines(text[2..])
    else if text[0] == '\r' then "\n" + NormalizeNewlines(text[1..])
    else [text[0]] + NormalizeNewlines(text[1..])
  }

  /** The lines of `text`. The regular expression tries `\r\n` before `\r`
      at each position, so a Windows line end is one break, not two; every
      break yields exactly one boundary, and empty lines are kept. */
  function SplitLines(text: string): (lines: seq<string>)
    ensures |lines| >= 1
    ensures forall i :: 0 <= i < |lines| ==> HasNoBreak(lines[i])
    ensures Join(lines, '\n') == NormalizeNewlines(text)
  {
    if |text| == 0 then [""]
    else if |text| >= 2 && text[0] == '\r' && text[1] == '\n' then
      var rest := SplitLines(text[2..]);
      JoinEmptyFirst(rest, '\n');
      [""] + rest
    else if text[0] == '\n' || text[0] == '\r' then
      var rest := SplitLines(text[1..]);
      JoinEmptyFirst(rest, '\n');
      [""] + rest
    else
      var rest := SplitLines(text[1..]);
      JoinPrepend(text[0], rest, '\n');
      [[text[0]] + rest[0]] + rest[1..]
  }

  /** Line splitting is the one-character split on `\n` of the normalized
      text; so there is one line more than there are line breaks. */
  lemma SplitLinesIsSplit(text: string)
    ensures SplitLines(text) == Split(NormalizeNewlines(text), '\n')
    ensures |SplitLines(text)| == Count(NormalizeNewlines(text), '\n') + 1
  {
    SplitJoin(SplitLines(text), '\n');
  }
}
