/** Delimiter vote (components/csv-uploader.tsx:152-161). */
module Delimiter {
  import opened Text
  import opened Seqs

  /** The only two field separators the uploader chooses between. */
  type Delim = c: char | c == ',' || c == ';' witness ','

  /** Number of leading lines that take part in the vote. */
  const SampleSize: nat := 20

  /** `lines.slice(0, 20)`. */
  function Sample(lines: seq<string>): seq<string> {
    Take(lines, SampleSize)
  }

  /** The running total of the `forEach` loop: occurrences of `c`, line by line. */
  function Tally(lines: seq<string>, c: char): nat {
    if |lines| == 0 then 0 else Count(lines[0], c) + Tally(lines[1..], c)
  }

  /** Summing per-line counts is counting in the sample read as one text. */
  lemma {:induction false} TallyIsCount(lines: seq<string>, c: char)
    ensures Tally(lines, c) == Count(Concat(lines), c)
  {
    if |lines| > 0 {
      TallyIsCount(lines[1..], c);
      CountAppend(lines[0], Concat(lines[1..]), c);
    }
  }

  /** `;` exactly when the first 20 lines hold strictly more semicolons than
      commas; `,` otherwise, ties and delimiter-free files included. */
  function DetectDelimiter(lines: seq<string>): (d: Delim)
    ensures d == ';' <==> Count(Concat(Sample(lines)), ';') > Count(Concat(Sample(lines)), ',')
    ensures d == ',' <==> Count(Concat(Sample(lines)), ';') <= Count(Concat(Sample(lines)), ',')
  {
    var sample := Sample(lines);
    TallyIsCount(sample, ';');
    TallyIsCount(sample, ',');
    if Tally(sample, ';') > Tally(sample, ',') then ';' else ','
  }

  /** Lines after the twentieth never change the vote. */
  lemma DelimiterIgnoresLaterLines(lines: seq<string>, more: seq<string>)
    requires |lines| >= SampleSize
    ensures DetectDelimiter(lines + more) == DetectDelimiter(lines)
  {
    assert Sample(lines + more) == Sample(lines);
  }
}
