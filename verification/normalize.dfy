/**
  The normalizer (components/csv-uploader.tsx:201-213): every row is
  rebuilt over the header list with empty and missing cells turned into
  null, rows left without any value are dropped, and the first five rows
  form the preview.
 */
module Normalizer {
  import opened Seqs
  import opened Values

  /** Number of rows shown in the preview. */
  const PreviewSize: nat := 5

  /** The cell under `h`, with an empty string or a missing cell read as null. */
  function NormalCell(row: Record, h: string): (v: Value)
    ensures v == Null <==> h !in row || row[h] == Null || row[h] == Str("")
    ensures v != Null ==> v == row[h]
  {
    if h !in row || row[h] == Str("") then Null else row[h]
  }

  /** A row rebuilt over the headers. Each header becomes a key, holding
      null when the source cell is missing, null or empty, and the source
      cell otherwise. Keys outside the header list are dropped. */
  function NormalizeRow(headers: seq<string>, row: Record): (out: Record)
    ensures out.Keys == set h | h in headers
    ensures forall h :: h in out ==> (out[h] == Null <==> h !in row || row[h] == Null || row[h] == Str(""))
    ensures forall h :: h in out && out[h] != Null ==> out[h] == row[h]
  {
    map h | h in headers :: NormalCell(row, h)
  }

  /** Some value of the row is neither null nor the empty string (a missing
      value cannot occur in a map). */
  predicate HasData(row: Record) {
    exists k :: k in row && row[k] != Null && row[k] != Str("")
  }

  /** Every row rebuilt over the headers, in order. */
  function NormalizeAll(headers: seq<string>, rows: seq<Record>): (out: seq<Record>)
    ensures |out| == |rows|
    ensures forall i :: 0 <= i < |rows| ==> out[i] == NormalizeRow(headers, rows[i])
  {
    seq(|rows|, (i: int) requires 0 <= i < |rows| => NormalizeRow(headers, rows[i]))
  }

  /** The normalized data. Every row has exactly the headers as keys and at
      least one non-null value; no row is added, and each kept row is the
      normalization of an input row. */
  function Normalize(headers: seq<string>, rows: seq<Record>): (data: seq<Record>)
    ensures |data| <= |rows|
    ensures forall i :: 0 <= i < |data| ==> data[i] in NormalizeAll(headers, rows)
    ensures forall i :: 0 <= i < |data| ==> data[i].Keys == set h | h in headers
    ensures forall i :: 0 <= i < |data| ==> HasData(data[i])
  {
    NormalizedKeys(headers, rows);
    FilterCounts(NormalizeAll(headers, rows), HasData);
    Filter(NormalizeAll(headers, rows), HasData)
  }

  lemma NormalizedKeys(headers: seq<string>, rows: seq<Record>)
    ensures forall r :: r in NormalizeAll(headers, rows) ==> r.Keys == set h | h in headers
  {
  }

  /** A row survives exactly when some header names a cell of it that is
      neither missing, null nor empty. */
  lemma KeptIff(headers: seq<string>, row: Record)
    ensures HasData(NormalizeRow(headers, row)) <==>
      exists h :: h in headers && h in row && row[h] != Null && row[h] != Str("")
  {
    var out := NormalizeRow(headers, row);
    if HasData(out) {
      var k :| k in out && out[k] != Null && out[k] != Str("");
      assert k in headers && k in row && row[k] != Null && row[k] != Str("");
    }
    if exists h :: h in headers && h in row && row[h] != Null && row[h] != Str("") {
      var h :| h in headers && h in row && row[h] != Null && row[h] != Str("");
      assert h in out && out[h] == row[h];
    }
  }

  /** Surviving rows keep their relative order: the output is an
      order-preserving selection of the normalized rows, and it holds every
      normalized row that has a value, as often as the input does. */
  lemma NormalizeKeepsOrder(headers: seq<string>, rows: seq<Record>)
    ensures IsSubsequence(Normalize(headers, rows), NormalizeAll(headers, rows))
    ensures forall r :: HasData(r) ==>
      multiset(Normalize(headers, rows))[r] == multiset(NormalizeAll(headers, rows))[r]
  {
    FilterIsSubsequence(NormalizeAll(headers, rows), HasData);
    FilterCounts(NormalizeAll(headers, rows), HasData);
  }

  /** Rebuilding a rebuilt row changes nothing. */
  lemma NormalizeRowIdempotent(headers: seq<string>, row: Record)
    ensures NormalizeRow(headers, NormalizeRow(headers, row)) == NormalizeRow(headers, row)
  {
  }

  /** Normalizing normalized data changes nothing. */
  lemma NormalizeIdempotent(headers: seq<string>, rows: seq<Record>)
    ensures Normalize(headers, Normalize(headers, rows)) == Normalize(headers, rows)
  {
    var data := Normalize(headers, rows);
    var again := NormalizeAll(headers, data);
    forall i | 0 <= i < |data| ensures again[i] == data[i] {
      var j :| 0 <= j < |rows| && NormalizeAll(headers, rows)[j] == data[i];
      NormalizeRowIdempotent(headers, rows[j]);
    }
    assert again == data;
    FilterAllKept(data, HasData);
  }

  /** `data.slice(0, 5)`: the first `min(5, |data|)` rows. */
  function Preview(data: seq<Record>): (preview: seq<Record>)
    ensures |preview| == Min(PreviewSize, |data|)
    ensures forall i :: 0 <= i < |preview| ==> preview[i] == data[i]
  {
    Take(data, PreviewSize)
  }
}
