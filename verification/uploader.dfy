/**
  The upload pipeline of `processFile` (components/csv-uploader.tsx:141-216):
  split the text into lines, vote the delimiter, locate the header line,
  drop junk lines, hand the rejoined text to the CSV parser, keep the
  non-blank header names, untranspose a pivoted table and normalize it.
  The CSV parser is a parameter: the model fixes what it is given and what
  is done with its answer, not how it parses.
 */
module Uploader {
  import opened Text
  import opened Seqs
  import opened Values
  import opened Wrappers
  import opened Lines
  import opened Delimiter
  import opened Header
  import opened Transpose
  import opened Normalizer

  /** Why an upload yields no table. */
  datatype UploadError =
    | EmptyRead    // the file text is empty (or could not be read)
    | ParseFailed  // the parser reported an error
    | NoData       // no usable header name, or no parsed row

  /** What the parser returns: `results.meta.fields`, possibly absent, and
      `results.data`. */
  datatype Parsed = Parsed(fields: Option<seq<string>>, rows: seq<Record>)

  /** What is handed to `onUploadSuccess`. */
  datatype Upload = Upload(headers: seq<string>, preview: seq<Record>, data: seq<Record>)

  /** The text prepared for the parser: the voted delimiter, the header
      line's index, the kept lines and those lines joined with `\n`. */
  datatype Prepared = Prepared(delimiter: Delim, headerIndex: nat, clean: seq<string>, csv: string)

  /** Steps 1 to 4 of `processFile`. The delimiter is the vote over the
      lines and the header index is the located header line. The kept lines
      are the lines from the header line on, in order: every junk line is
      dropped and every other line kept as often as it occurs. No kept line
      holds a line break, so splitting the parser's input on `\n` gives
      exactly the kept lines back. */
  function Prepare(text: string): (p: Prepared)
    ensures p.delimiter == DetectDelimiter(SplitLines(text))
    ensures p.headerIndex == FindHeaderIndex(SplitLines(text), p.delimiter)
    ensures forall x :: !IsDelimiterOnlyLine(x, p.delimiter) ==>
      multiset(p.clean)[x] == multiset(Drop(SplitLines(text), p.headerIndex))[x]
    ensures forall i :: 0 <= i < |p.clean| ==> !IsDelimiterOnlyLine(p.clean[i], p.delimiter)
    ensures forall i :: 0 <= i < |p.clean| ==> HasNoBreak(p.clean[i])
    ensures IsSubsequence(p.clean, Drop(SplitLines(text), p.headerIndex))
    ensures |p.clean| > 0 ==> Split(p.csv, '\n') == p.clean
    ensures |p.clean| == 0 ==> p.csv == ""
  {
    var lines := SplitLines(text);
    var d := DetectDelimiter(lines);
    var h := FindHeaderIndex(lines, d);
    var clean := CleanLines(lines, h, d);
    KeptLinesRejoin(lines, h, d);
    Prepared(d, h, clean, Join(clean, '\n'))
  }

  /** Kept lines hold no line break, so joining them with `\n` and splitting
      on `\n` again gives them back. */
  lemma KeptLinesRejoin(lines: seq<string>, headerIndex: nat, d: Delim)
    requires forall i :: 0 <= i < |lines| ==> HasNoBreak(lines[i])
    ensures forall i :: 0 <= i < |CleanLines(lines, headerIndex, d)| ==> HasNoBreak(CleanLines(lines, headerIndex, d)[i])
    ensures |CleanLines(lines, headerIndex, d)| > 0 ==>
      Split(Join(CleanLines(lines, headerIndex, d), '\n'), '\n') == CleanLines(lines, headerIndex, d)
  {
    var clean := CleanLines(lines, headerIndex, d);
    forall i | 0 <= i < |clean| ensures HasNoBreak(clean[i]) {
      assert clean[i] in Drop(lines, headerIndex);
    }
    if |clean| > 0 {
      SplitJoin(clean, '\n');
    }
  }

  /** `results.meta.fields || []`. */
  function Fields(parsed: Parsed): seq<string> {
    match parsed.fields
    case Some(fields) => fields
    case None => []
  }

  /** The header names kept from the parser: every field name with text
      after trimming, as often as it occurs and in parser order, and no
      other. */
  function HeaderNames(parsed: Parsed): (headers: seq<string>)
    ensures forall i :: 0 <= i < |headers| ==> HasText(headers[i])
    ensures IsSubsequence(headers, Fields(parsed))
    ensures forall x :: HasText(x) ==> multiset(headers)[x] == multiset(Fields(parsed))[x]
  {
    FilterIsSubsequence(Fields(parsed), HasText);
    FilterCounts(Fields(parsed), HasText);
    Filter(Fields(parsed), HasText)
  }

  /** The table after step 6: untransposed when it looks pivoted, as parsed
      otherwise. */
  function Untranspose(headers: seq<string>, rows: seq<Record>): (t: Table)
    requires |headers| >= 1
    ensures |t.headers| >= 1 && t.headers[0] == headers[0]
    ensures forall h :: h in t.headers ==> h in headers || h in Labels(rows, headers[0])
  {
    if IsProbablyTransposed(headers, rows) then TransposeAttributeRows(headers, rows) else Table(headers, rows)
  }

  /** The parser's `complete` callback. It fails exactly when no header name
      has text or no row was parsed. On success the header list is
      non-empty and every name has text; every data row has exactly the
      headers as keys and at least one value; and the preview is the first
      `min(5, n)` data rows. */
  function Complete(parsed: Parsed): (r: Result<Upload, UploadError>)
    ensures r.Failure? <==> (forall i :: 0 <= i < |Fields(parsed)| ==> !HasText(Fields(parsed)[i])) || |parsed.rows| == 0
    ensures r.Failure? ==> r.error == NoData
    ensures r.Success? ==> |r.value.headers| >= 1 && forall i :: 0 <= i < |r.value.headers| ==> HasText(r.value.headers[i])
    ensures r.Success? ==> forall i :: 0 <= i < |r.value.data| ==>
      r.value.data[i].Keys == (set h | h in r.value.headers) && HasData(r.value.data[i])
    ensures r.Success? ==> |r.value.preview| == Min(PreviewSize, |r.value.data|) && r.value.preview == r.value.data[..|r.value.preview|]
  {
    var headers := HeaderNames(parsed);
    NoHeaderNames(parsed);
    if |headers| == 0 || |parsed.rows| == 0 then Failure(NoData)
    else
      var t := Untranspose(headers, parsed.rows);
      LabelsHaveText(parsed.rows, headers[0]);
      assert forall i :: 0 <= i < |t.headers| ==> HasText(t.headers[i]) by {
        forall i | 0 <= i < |t.headers| ensures HasText(t.headers[i]) {
          assert t.headers[i] in t.headers;
        }
      }
      var data := Normalize(t.headers, t.rows);
      Success(Upload(t.headers, Preview(data), data))
  }

  /** The filtered header list is empty exactly when no parsed field name has text. */
  lemma NoHeaderNames(parsed: Parsed)
    ensures |HeaderNames(parsed)| == 0 <==> forall i :: 0 <= i < |Fields(parsed)| ==> !HasText(Fields(parsed)[i])
  {
    var fields := Fields(parsed);
    FilterCounts(fields, HasText);
    if |HeaderNames(parsed)| == 0 {
      forall i | 0 <= i < |fields| ensures !HasText(fields[i]) {
        assert multiset(HeaderNames(parsed))[fields[i]] == 0;
      }
    } else {
      var h := HeaderNames(parsed)[0];
      assert h in fields;
      var i :| 0 <= i < |fields| && fields[i] == h;
      assert HasText(fields[i]);
    }
  }

  /** `processFile` from the file text on. An empty text stops with no
      result; a parser error stops with `ParseFailed`; otherwise the
      outcome is that of `Complete`, so every upload delivered carries a
      non-empty list of named headers and rows keyed exactly by them. The
      parser is handed the prepared text with the voted delimiter. */
  function Process(text: string, parse: (string, Delim) -> Result<Parsed, string>): (r: Result<Upload, UploadError>)
    ensures r.Failure? && r.error == EmptyRead <==> text == ""
    ensures text != "" ==> var p := Prepare(text);
      match parse(p.csv, p.delimiter)
      case Failure(_) => r == Failure(ParseFailed)
      case Success(parsed) => r == Complete(parsed)
    ensures r.Success? ==> |r.value.headers| >= 1 && forall i :: 0 <= i < |r.value.headers| ==> HasText(r.value.headers[i])
    ensures r.Success? ==> forall i :: 0 <= i < |r.value.data| ==>
      r.value.data[i].Keys == (set h | h in r.value.headers) && HasData(r.value.data[i])
  {
    if text == "" then Failure(EmptyRead)
    else
      var p := Prepare(text);
      match parse(p.csv, p.delimiter)
      case Failure(_) => Failure(ParseFailed)
      case Success(parsed) => Complete(parsed)
  }

  /** A table that does not look pivoted goes through unchanged apart from
      normalization: its headers are the named fields, in parser order. */
  lemma CompleteKeepsPlainTable(parsed: Parsed)
    requires |HeaderNames(parsed)| > 0 && |parsed.rows| > 0
    requires !IsProbablyTransposed(HeaderNames(parsed), parsed.rows)
    ensures Complete(parsed).Success?
    ensures Complete(parsed).value.headers == HeaderNames(parsed)
    ensures Complete(parsed).value.data == Normalize(HeaderNames(parsed), parsed.rows)
  {
    NoHeaderNames(parsed);
  }

  /** A pivoted table is delivered untransposed: the headers are the first
      header and the distinct row labels, and there is at most one data row
      per distinct id header. */
  lemma CompleteUntransposesPivot(parsed: Parsed)
    requires |HeaderNames(parsed)| > 0 && |parsed.rows| > 0
    requires IsProbablyTransposed(HeaderNames(parsed), parsed.rows)
    ensures Complete(parsed).Success?
    ensures Complete(parsed).value.headers == TransposeAttributeRows(HeaderNames(parsed), parsed.rows).headers
    ensures |Complete(parsed).value.data| <= |Dedup(TrimAll(IdHeaders(HeaderNames(parsed))))|
  {
    NoHeaderNames(parsed);
  }

  /** The rows delivered for a pivoted table are the transposed records,
      normalized over the transposed headers. */
  lemma CompletePivotData(parsed: Parsed)
    requires |HeaderNames(parsed)| > 0 && |parsed.rows| > 0
    requires IsProbablyTransposed(HeaderNames(parsed), parsed.rows)
    ensures Complete(parsed).Success?
    ensures var t := TransposeAttributeRows(HeaderNames(parsed), parsed.rows);
      Complete(parsed).value.data == Normalize(t.headers, t.rows)
  {
    NoHeaderNames(parsed);
  }
}
