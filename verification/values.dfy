/**
  Cell values and records of a parsed table (`RawCsvRow` in types/schema.ts:
  a record from string keys to `string | number | null`).
 */
module Values {
  import opened Text

  /** A cell. A JavaScript number is carried by its `String()` rendering:
      the only thing the pipeline ever does with a number is convert it to
      text or copy it unchanged. */
  datatype Value = Str(s: string) | Num(text: string) | Null

  /** A row object. A key that is absent stands for JavaScript `undefined`. */
  type Record = map<string, Value>

  /** `String(v)` for a non-null cell. */
  function ToText(v: Value): string
    requires v != Null
  {
    match v
    case Str(s) => s
    case Num(t) => t
  }

  /** The row's own cell under `key`, or null when the row has no such key. */
  function CellOrNull(row: Record, key: string): (v: Value)
    ensures key !in row ==> v == Null
    ensures key in row ==> v == row[key]
  {
    if key in row then row[key] else Null
  }

  /** A parsed table: the ordered header list and the rows. */
  datatype Table = Table(headers: seq<string>, rows: seq<Record>)
}
