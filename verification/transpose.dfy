/**
  Detection and reversal of pivoted tables, where attributes are rows and
  entities are columns (components/csv-uploader.tsx:13-91).
 */
module Transpose {
  import opened Text
  import opened Seqs
  import opened Values
  import opened Wrappers

  /** Thresholds of `isProbablyTransposedCsv`. */
  const MinHeaders: nat := 5
  const MinRows: nat := 2
  const MinColumns: nat := 50
  const MaxRows: nat := 50
  const HeaderSample: nat := 30
  const MinNumericHeaders: nat := 5
  const RowSample: nat := 10
  const MinLabels: nat := 3

  /** `row?.[key]` as trimmed text; "" when the cell is null or missing. */
  function FieldName(row: Record, key: string): (name: string)
    ensures (key !in row || row[key] == Null) ==> name == ""
  {
    if key in row && row[key] != Null then Trim(ToText(row[key])) else ""
  }

  /** A header that looks like an entity id: `/^\d+$/.test(h.trim())`. */
  predicate IsIdLike(h: string) {
    IsDigits(Trim(h))
  }

  /** Number of id-like headers among the `min(30, |headers| - 1)` after the first. */
  function NumericHeaderCount(headers: seq<string>): nat
    requires |headers| >= 1
  {
    |Filter(headers[1..1 + Min(HeaderSample, |headers| - 1)], IsIdLike)|
  }

  /** The label column: `row?.[key]` as trimmed text for every row. */
  function LabelColumn(rows: seq<Record>, key: string): (col: seq<string>)
    ensures |col| == |rows|
    ensures forall i :: 0 <= i < |rows| ==> col[i] == FieldName(rows[i], key)
  {
    if |rows| == 0 then [] else LabelColumn(rows[..|rows| - 1], key) + [FieldName(rows[|rows| - 1], key)]
  }

  /** A label that is not blank (`v.length > 0` after trimming). */
  predicate IsLabel(name: string) {
    |name| > 0
  }

  /** The non-blank labels of the rows, in row order. */
  function Labels(rows: seq<Record>, key: string): (names: seq<string>)
    ensures forall i :: 0 <= i < |names| ==> names[i] != ""
  {
    Filter(LabelColumn(rows, key), IsLabel)
  }

  /** One more row adds its label when it is not blank. */
  lemma LabelsSnoc(rows: seq<Record>, key: string)
    requires |rows| > 0
    ensures var field := FieldName(rows[|rows| - 1], key);
      Labels(rows, key) == Labels(rows[..|rows| - 1], key) + (if field == "" then [] else [field])
  {
    FilterSnoc(LabelColumn(rows[..|rows| - 1], key), FieldName(rows[|rows| - 1], key), IsLabel);
  }

  /** Every label is trimmed text that is not blank. */
  lemma LabelsHaveText(rows: seq<Record>, key: string)
    ensures forall n :: n in Labels(rows, key) ==> HasText(n) && Trim(n) == n
  {
    FilterCounts(LabelColumn(rows, key), IsLabel);
    forall n | n in Labels(rows, key) ensures HasText(n) && Trim(n) == n {
      var i :| 0 <= i < |rows| && LabelColumn(rows, key)[i] == n;
      var row := rows[i];
      assert n == Trim(ToText(row[key]));
      TrimIdempotent(ToText(row[key]));
    }
  }

  /** The labels the detector inspects: those of the first 10 rows. */
  function SampleLabels(rows: seq<Record>, key: string): (names: seq<string>)
    ensures |names| <= RowSample
  {
    Labels(Take(rows, RowSample), key)
  }

  /** `isProbablyTransposedCsv`. It answers true exactly when the table has at
      least 50 columns, between 2 and 50 rows and fewer rows than columns;
      at least 5 of the 30 headers after the first are digit strings; and
      among the non-blank labels of the first 10 rows at least `min(3, n)`
      are not digit strings and at least `min(3, n)` are distinct. */
  function IsProbablyTransposed(headers: seq<string>, rows: seq<Record>): (pivoted: bool)
    ensures pivoted <==>
      && |headers| >= MinColumns
      && MinRows <= |rows| <= MaxRows
      && |rows| < |headers|
      && headers[0] != ""
      && |Filter(headers[1..1 + HeaderSample], IsIdLike)| >= MinNumericHeaders
      && var names := SampleLabels(rows, headers[0]);
         && |Filter(names, (n: string) => !IsDigits(n))| >= Min(MinLabels, |names|)
         && |set n | n in names| >= Min(MinLabels, |names|)
  {
    if |headers| < MinHeaders then false
    else if |rows| < MinRows then false
    else if |headers| < MinColumns then false
    else if |rows| > MaxRows then false
    else if |rows| >= |headers| then false
    else if headers[0] == "" then false
    else if NumericHeaderCount(headers) < Min(MinNumericHeaders, Min(HeaderSample, |headers| - 1)) then false
    else
      var names := SampleLabels(rows, headers[0]);
      var labels := |Filter(names, (n: string) => !IsDigits(n))|;
      var distinct := |set n | n in names|;
      labels >= Min(MinLabels, |names|) && distinct >= Min(MinLabels, |names|)
  }

  /** Any small table is left alone. */
  lemma NarrowTablesStay(headers: seq<string>, rows: seq<Record>)
    requires |headers| < MinColumns || |rows| < MinRows || |rows| > MaxRows || |rows| >= |headers|
    ensures !IsProbablyTransposed(headers, rows)
  {
  }

  /** The id headers: every header after the first that has text after trimming. */
  function IdHeaders(headers: seq<string>): (ids: seq<string>)
    requires |headers| >= 1
    ensures forall i :: 0 <= i < |ids| ==> HasText(ids[i])
    ensures IsSubsequence(ids, headers[1..])
    ensures forall x :: HasText(x) ==> multiset(ids)[x] == multiset(headers[1..])[x]
  {
    FilterIsSubsequence(headers[1..], HasText);
    FilterCounts(headers[1..], HasText);
    Filter(headers[1..], HasText)
  }

  /** Every header trimmed. */
  function TrimAll(hs: seq<string>): (r: seq<string>)
    ensures |r| == |hs| && forall i :: 0 <= i < |hs| ==> r[i] == Trim(hs[i])
  {
    if |hs| == 0 then [] else TrimAll(hs[..|hs| - 1]) + [Trim(hs[|hs| - 1])]
  }

  /** The running state of the transposer: the output header list and
      `recordsById`. The `seen` set of the source is the set of output headers. */
  datatype Pivot = Pivot(headers: seq<string>, records: map<string, Record>)

  /** One record per trimmed id, seeded with `{ [firstHeader]: id }`. */
  function Seed(firstHeader: string, keys: seq<string>): map<string, Record> {
    map k | k in keys :: map[firstHeader := Str(k)]
  }

  /** The inner loop over the id headers: each record receives the row's
      cell under its own (untrimmed) id header, or null when the row lacks it. */
  function Fill(records: map<string, Record>, ids: seq<string>, row: Record, field: string): (out: map<string, Record>)
    ensures out.Keys == records.Keys
  {
    if |ids| == 0 then records
    else
      var before := Fill(records, ids[..|ids| - 1], row, field);
      var id := ids[|ids| - 1];
      var key := Trim(id);
      if key in before then before[key := before[key][field := CellOrNull(row, id)]] else before
  }

  /** One pass of the outer loop. A row whose label is blank changes nothing. */
  function Step(p: Pivot, firstHeader: string, ids: seq<string>, row: Record): Pivot {
    var field := FieldName(row, firstHeader);
    if field == "" then p
    else
      Pivot(if field in p.headers then p.headers else p.headers + [field],
            Fill(p.records, ids, row, field))
  }

  /** The outer loop after the given rows. */
  function Run(firstHeader: string, ids: seq<string>, rows: seq<Record>): Pivot {
    if |rows| == 0 then Pivot([firstHeader], Seed(firstHeader, TrimAll(ids)))
    else Step(Run(firstHeader, ids, rows[..|rows| - 1]), firstHeader, ids, rows[|rows| - 1])
  }

  /** The last row whose non-blank label is `field`. */
  function LastRowFor(rows: seq<Record>, firstHeader: string, field: string): Option<Record> {
    if |rows| == 0 then None
    else
      var last := rows[|rows| - 1];
      var name := FieldName(last, firstHeader);
      if name != "" && name == field then Some(last) else LastRowFor(rows[..|rows| - 1], firstHeader, field)
  }

  /** The last id header whose trimmed text is `key`: the one whose cell a
      record finally keeps when several id headers trim to the same key. */
  function ResolvedId(ids: seq<string>, key: string): (id: Option<string>)
    ensures id.Some? <==> key in TrimAll(ids)
    ensures id.Some? ==> Trim(id.value) == key && id.value in ids
  {
    if |ids| == 0 then None
    else if Trim(ids[|ids| - 1]) == key then Some(ids[|ids| - 1])
    else
      ResolvedId(ids[..|ids| - 1], key)
  }

  /** What a record keyed `key` holds under `field` once every row is
      processed: the cell, under the key's id header, of the last row
      labelled `field`; the seeded id when no row carries that label. */
  function Expected(rows: seq<Record>, firstHeader: string, ids: seq<string>, key: string, field: string): Value
    requires key in TrimAll(ids)
  {
    match LastRowFor(rows, firstHeader, field)
    case Some(row) => CellOrNull(row, ResolvedId(ids, key).value)
    case None => Str(key)
  }

  /** A record after its field `field` is set from `row` under the id
      header `id`, or unchanged when there is no such header. */
  function SetFrom(rec: Record, field: string, row: Record, id: Option<string>): Record {
    match id
    case Some(i) => rec[field := CellOrNull(row, i)]
    case None => rec
  }

  /** The inner loop sets `field` on every record whose key some id header
      trims to, taking the cell of the last such header; other records and
      other fields stay as they were. */
  lemma {:induction false} FillSets(records: map<string, Record>, ids: seq<string>, row: Record, field: string, key: string)
    requires key in records
    ensures Fill(records, ids, row, field)[key] == SetFrom(records[key], field, row, ResolvedId(ids, key))
  {
    if |ids| > 0 {
      var prefix := ids[..|ids| - 1];
      var id := ids[|ids| - 1];
      FillSets(records, prefix, row, field, key);
      var before := Fill(records, prefix, row, field);
      assert before[key] == SetFrom(records[key], field, row, ResolvedId(prefix, key));
      assert Fill(records, ids, row, field) ==
        if Trim(id) in before then before[Trim(id) := before[Trim(id)][field := CellOrNull(row, id)]] else before;
      if Trim(id) == key {
        assert ResolvedId(ids, key) == Some(id);
        match ResolvedId(prefix, key)
        case Some(i) =>
          OverwriteField(records[key], field, CellOrNull(row, i), CellOrNull(row, id));
        case None =>
      } else {
        assert ResolvedId(ids, key) == ResolvedId(prefix, key);
      }
    }
  }

  /** Setting a field forgets what it held before. */
  lemma OverwriteField(rec: Record, field: string, u: Value, v: Value)
    ensures rec[field := u][field := v] == rec[field := v]
  {
  }

  /** The output headers are the first header followed by the distinct
      labels, in first-seen order. */
  lemma {:induction false} RunHeaders(firstHeader: string, ids: seq<string>, rows: seq<Record>)
    ensures Run(firstHeader, ids, rows).headers == Dedup([firstHeader] + Labels(rows, firstHeader))
  {
    if |rows| == 0 {
      RunHeadersStart(firstHeader, ids, rows);
    } else {
      RunHeaders(firstHeader, ids, rows[..|rows| - 1]);
      RunHeadersStep(firstHeader, ids, rows);
    }
  }

  lemma RunHeadersStart(firstHeader: string, ids: seq<string>, rows: seq<Record>)
    requires |rows| == 0
    ensures Run(firstHeader, ids, rows).headers == Dedup([firstHeader] + Labels(rows, firstHeader))
  {
    assert Labels(rows, firstHeader) == [];
    assert [firstHeader] + Labels(rows, firstHeader) == [firstHeader];
    DedupSnoc([], firstHeader);
    assert [] + [firstHeader] == [firstHeader];
  }

  lemma RunHeadersStep(firstHeader: string, ids: seq<string>, rows: seq<Record>)
    requires |rows| > 0
    requires Run(firstHeader, ids, rows[..|rows| - 1]).headers == Dedup([firstHeader] + Labels(rows[..|rows| - 1], firstHeader))
    ensures Run(firstHeader, ids, rows).headers == Dedup([firstHeader] + Labels(rows, firstHeader))
  {
    var prefix := rows[..|rows| - 1];
    LabelsSnoc(rows, firstHeader);
    StepHeaders(Run(firstHeader, ids, prefix), firstHeader, ids, rows[|rows| - 1]);
    HeadersSnoc(Run(firstHeader, ids, prefix).headers, firstHeader, Labels(prefix, firstHeader),
                Labels(rows, firstHeader), FieldName(rows[|rows| - 1], firstHeader));
  }

  lemma StepHeaders(p: Pivot, firstHeader: string, ids: seq<string>, row: Record)
    ensures var field := FieldName(row, firstHeader);
      Step(p, firstHeader, ids, row).headers ==
        if field == "" then p.headers else if field in p.headers then p.headers else p.headers + [field]
  {
  }

  /** The header update of one step keeps the headers equal to the
      de-duplicated labels seen so far. */
  lemma HeadersSnoc(ph: seq<string>, firstHeader: string, before: seq<string>, after: seq<string>, field: string)
    requires ph == Dedup([firstHeader] + before)
    requires after == before + (if field == "" then [] else [field])
    ensures (if field == "" then ph else if field in ph then ph else ph + [field]) == Dedup([firstHeader] + after)
  {
    if field == "" {
      assert after == before;
    } else {
      assert [firstHeader] + after == ([firstHeader] + before) + [field];
      DedupSnoc([firstHeader] + before, field);
    }
  }

  /** There is one record per trimmed id. */
  lemma {:induction false} RunKeys(firstHeader: string, ids: seq<string>, rows: seq<Record>)
    ensures Run(firstHeader, ids, rows).records.Keys == set k | k in TrimAll(ids)
  {
    if |rows| > 0 {
      RunKeys(firstHeader, ids, rows[..|rows| - 1]);
    }
  }

  /** Every record has exactly the output headers as keys. */
  lemma {:induction false} RunRecordKeys(firstHeader: string, ids: seq<string>, rows: seq<Record>, key: string)
    requires key in TrimAll(ids)
    ensures key in Run(firstHeader, ids, rows).records
    ensures Run(firstHeader, ids, rows).records[key].Keys == set h | h in Run(firstHeader, ids, rows).headers
  {
    if |rows| == 0 {
      assert Run(firstHeader, ids, rows).records[key] == map[firstHeader := Str(key)];
    } else {
      RunRecordKeys(firstHeader, ids, rows[..|rows| - 1], key);
      StepRecordKeys(Run(firstHeader, ids, rows[..|rows| - 1]), firstHeader, ids, rows[|rows| - 1], key);
    }
  }

  /** One step keeps a record's keys equal to the output headers. */
  lemma StepRecordKeys(p: Pivot, firstHeader: string, ids: seq<string>, row: Record, key: string)
    requires key in TrimAll(ids)
    requires key in p.records && p.records[key].Keys == set h | h in p.headers
    ensures key in Step(p, firstHeader, ids, row).records
    ensures Step(p, firstHeader, ids, row).records[key].Keys == set h | h in Step(p, firstHeader, ids, row).headers
  {
    var field := FieldName(row, firstHeader);
    if field != "" {
      var q := Step(p, firstHeader, ids, row);
      FillSets(p.records, ids, row, field, key);
      assert q.records[key] == p.records[key][field := CellOrNull(row, ResolvedId(ids, key).value)];
      assert (set h | h in q.headers) == (set h | h in p.headers) + {field};
    }
  }

  /** The loop invariant of the transposer for one record: under every key
      it holds the value `Expected` names. */
  lemma {:induction false} RunRecord(firstHeader: string, ids: seq<string>, rows: seq<Record>, key: string)
    requires key in TrimAll(ids)
    ensures key in Run(firstHeader, ids, rows).records
    ensures forall field :: field in Run(firstHeader, ids, rows).records[key] ==>
      Run(firstHeader, ids, rows).records[key][field] == Expected(rows, firstHeader, ids, key, field)
  {
    RunKeys(firstHeader, ids, rows);
    if |rows| == 0 {
      assert Run(firstHeader, ids, rows).records[key] == map[firstHeader := Str(key)];
    } else {
      RunRecord(firstHeader, ids, rows[..|rows| - 1], key);
      StepRecord(Run(firstHeader, ids, rows[..|rows| - 1]), firstHeader, ids, rows, key);
    }
  }

  /** One step moves the invariant of `RunRecord` from the rows before the
      last to all rows. */
  lemma StepRecord(p: Pivot, firstHeader: string, ids: seq<string>, rows: seq<Record>, key: string)
    requires |rows| > 0 && key in TrimAll(ids) && key in p.records
    requires forall field :: field in p.records[key] ==>
      p.records[key][field] == Expected(rows[..|rows| - 1], firstHeader, ids, key, field)
    ensures key in Step(p, firstHeader, ids, rows[|rows| - 1]).records
    ensures forall field :: field in Step(p, firstHeader, ids, rows[|rows| - 1]).records[key] ==>
      Step(p, firstHeader, ids, rows[|rows| - 1]).records[key][field] == Expected(rows, firstHeader, ids, key, field)
  {
    var prefix := rows[..|rows| - 1];
    var last := rows[|rows| - 1];
    var q := Step(p, firstHeader, ids, last);
    var field := FieldName(last, firstHeader);
    if field == "" {
      forall g | g in q.records[key]
        ensures q.records[key][g] == Expected(rows, firstHeader, ids, key, g)
      {
        assert LastRowFor(rows, firstHeader, g) == LastRowFor(prefix, firstHeader, g);
      }
    } else {
      var id := ResolvedId(ids, key).value;
      FillSets(p.records, ids, last, field, key);
      assert q.records[key] == p.records[key][field := CellOrNull(last, id)];
      forall g | g in q.records[key]
        ensures q.records[key][g] == Expected(rows, firstHeader, ids, key, g)
      {
        if g == field {
          assert LastRowFor(rows, firstHeader, g) == Some(last);
        } else {
          assert LastRowFor(rows, firstHeader, g) == LastRowFor(prefix, firstHeader, g);
        }
      }
    }
  }

  /** `transposeAttributeRowsToRecords`. The output headers start with the
      first input header, hold no duplicate, and are the first header and
      the non-blank row labels, in first-seen order. There is one record
      per distinct trimmed id header, in first-insertion order, and every
      record has exactly the output headers as keys. */
  function TransposeAttributeRows(headers: seq<string>, rows: seq<Record>): (t: Table)
    requires |headers| >= 1
    ensures |t.headers| >= 1 && t.headers[0] == headers[0]
    ensures NoDup(t.headers)
    ensures forall h :: h in t.headers <==> h == headers[0] || h in Labels(rows, headers[0])
    ensures |t.rows| == |Dedup(TrimAll(IdHeaders(headers)))|
    ensures forall n :: 0 <= n < |t.rows| ==> t.rows[n].Keys == set h | h in t.headers
  {
    var ids := IdHeaders(headers);
    var p := Run(headers[0], ids, rows);
    RunShape(headers[0], ids, rows);
    Table(p.headers, Records(p, Dedup(TrimAll(ids))))
  }

  /** What the transposer's final state looks like: the headers of
      `RunHeaders`, one record per trimmed id, each keyed by the headers. */
  lemma RunShape(firstHeader: string, ids: seq<string>, rows: seq<Record>)
    ensures var p := Run(firstHeader, ids, rows);
      && p.headers == Dedup([firstHeader] + Labels(rows, firstHeader))
      && |p.headers| >= 1 && p.headers[0] == firstHeader
      && (forall k :: k in TrimAll(ids) ==> k in p.records && p.records[k].Keys == set h | h in p.headers)
  {
    var p := Run(firstHeader, ids, rows);
    RunHeaders(firstHeader, ids, rows);
    DedupHead([firstHeader] + Labels(rows, firstHeader));
    forall k | k in TrimAll(ids) ensures k in p.records && p.records[k].Keys == set h | h in p.headers {
      RunRecordKeys(firstHeader, ids, rows, k);
    }
  }

  /** The records listed in the insertion order of their keys. */
  function Records(p: Pivot, keys: seq<string>): (recs: seq<Record>)
    requires forall k :: k in keys ==> k in p.records
    ensures |recs| == |keys|
    ensures forall n :: 0 <= n < |keys| ==> recs[n] == p.records[keys[n]]
  {
    seq(|keys|, (n: int) requires 0 <= n < |keys| => p.records[keys[n]])
  }

  /** Header order is first-seen order: of two output headers, the earlier
      one appears first in the first header followed by the labels. */
  lemma TransposedHeadersFirstSeen(headers: seq<string>, rows: seq<Record>)
    requires |headers| >= 1
    ensures var t := TransposeAttributeRows(headers, rows);
      var all := [headers[0]] + Labels(rows, headers[0]);
      forall i, j :: 0 <= i < j < |t.headers| ==> FirstIndex(all, t.headers[i]) < FirstIndex(all, t.headers[j])
  {
    RunHeaders(headers[0], IdHeaders(headers), rows);
    DedupFirstSeen([headers[0]] + Labels(rows, headers[0]));
  }

  /** Record `n` belongs to the `n`-th distinct trimmed id, in first-seen
      order of the id headers; under each output header it holds the cell,
      under that id's column, of the last row with that label, and it keeps
      its id under the first header unless some row is labelled with the
      first header itself. */
  lemma TransposedRecord(headers: seq<string>, rows: seq<Record>, n: nat)
    requires |headers| >= 1
    requires n < |TransposeAttributeRows(headers, rows).rows|
    ensures var ids := IdHeaders(headers);
      var key := Dedup(TrimAll(ids))[n];
      var rec := TransposeAttributeRows(headers, rows).rows[n];
      && HasText(key)
      && key in TrimAll(ids)
      && (forall field :: field in rec ==> rec[field] == Expected(rows, headers[0], ids, key, field))
      && (LastRowFor(rows, headers[0], headers[0]).None? ==> rec[headers[0]] == Str(key))
  {
    var ids := IdHeaders(headers);
    var key := Dedup(TrimAll(ids))[n];
    assert key in TrimAll(ids);
    TransposedRowIs(headers, rows, n);
    RunRecord(headers[0], ids, rows, key);
    KeyHasText(ids, key);
  }

  /** Output record `n` is the transposer's record for the `n`-th distinct key. */
  lemma TransposedRowIs(headers: seq<string>, rows: seq<Record>, n: nat)
    requires |headers| >= 1
    requires n < |TransposeAttributeRows(headers, rows).rows|
    ensures var ids := IdHeaders(headers);
      var p := Run(headers[0], ids, rows);
      var key := Dedup(TrimAll(ids))[n];
      && key in p.records && headers[0] in p.records[key]
      && TransposeAttributeRows(headers, rows).rows[n] == p.records[key]
  {
    var ids := IdHeaders(headers);
    RunShape(headers[0], ids, rows);
  }

  /** A trimmed id header has text. */
  lemma KeyHasText(ids: seq<string>, key: string)
    requires forall i :: 0 <= i < |ids| ==> HasText(ids[i])
    requires key in TrimAll(ids)
    ensures HasText(key)
  {
    var i :| 0 <= i < |ids| && TrimAll(ids)[i] == key;
    TrimIdempotent(ids[i]);
  }

  /** A row whose label is blank contributes nothing, wherever it stands. */
  lemma BlankLabelRowIgnored(headers: seq<string>, before: seq<Record>, row: Record, after: seq<Record>)
    requires |headers| >= 1
    requires FieldName(row, headers[0]) == ""
    ensures TransposeAttributeRows(headers, before + [row] + after) == TransposeAttributeRows(headers, before + after)
  {
    RunDropsBlank(headers[0], IdHeaders(headers), before, row, after);
  }

  lemma {:induction false} RunDropsBlank(firstHeader: string, ids: seq<string>, before: seq<Record>, row: Record, after: seq<Record>)
    requires FieldName(row, firstHeader) == ""
    ensures Run(firstHeader, ids, before + [row] + after) == Run(firstHeader, ids, before + after)
    decreases |after|
  {
    if |after| == 0 {
      assert before + [row] + after == before + [row];
      assert before + after == before;
      RunSnoc(firstHeader, ids, before, row);
    } else {
      var a := after[..|after| - 1];
      var last := after[|after| - 1];
      assert before + [row] + after == (before + [row] + a) + [last];
      assert before + after == (before + a) + [last];
      RunDropsBlank(firstHeader, ids, before, row, a);
      RunSnoc(firstHeader, ids, before + [row] + a, last);
      RunSnoc(firstHeader, ids, before + a, last);
    }
  }

  /** The outer loop over one more row is one more step. */
  lemma RunSnoc(firstHeader: string, ids: seq<string>, rows: seq<Record>, row: Record)
    ensures Run(firstHeader, ids, rows + [row]) == Step(Run(firstHeader, ids, rows), firstHeader, ids, row)
  {
    assert (rows + [row])[..|rows|] == rows;
  }

  /** A table the detector flags yields at least one record: some header of
      the sampled window is an id. */
  lemma DetectedTableHasRecords(headers: seq<string>, rows: seq<Record>)
    requires IsProbablyTransposed(headers, rows)
    ensures |TransposeAttributeRows(headers, rows).rows| >= 1
  {
    var window := headers[1..1 + HeaderSample];
    var numeric := Filter(window, IsIdLike);
    FilterCounts(window, IsIdLike);
    FilterCounts(headers[1..], HasText);
    var h := numeric[0];
    assert h in window && IsIdLike(h);
    assert HasText(h);
    assert h in headers[1..];
    var ids := IdHeaders(headers);
    assert multiset(ids)[h] == multiset(headers[1..])[h] > 0;
    assert h in ids;
    var i :| 0 <= i < |ids| && ids[i] == h;
    assert TrimAll(ids)[i] in Dedup(TrimAll(ids));
  }
}
