/** The mock answer source of the backend (`loadTable`): the answer payload is read
    from a data file on every question, and a built-in fallback payload replaces it
    when the file cannot be read or parsed. */
module MockAnswer {
  import opened JsString

  /** A table of the answer: column headers and rows of cells. */
  datatype Table = Table(columns: seq<string>, rows: seq<seq<string>>)

  /** Every row has exactly one cell per column. */
  predicate WellShaped(t: Table) {
    forall i :: 0 <= i < |t.rows| ==> |t.rows[i]| == |t.columns|
  }

  /** An answer payload as the data file provides it; any field may be missing. */
  datatype Payload = Payload(answerText: Option<string>, table: Option<Table>, description: Option<string>)

  /** The payload used when the data file cannot be loaded. */
  const Fallback: Payload :=
    Payload(
      Some("Fallback sample answer"),
      Some(Table(["Col1", "Col2"], [["A", "B"], ["C", "D"]])),
      Some("Fallback description"))

  /** loadTable. `file` is the parsed content of the data file, or None when reading
      or parsing it failed. The file's payload is passed through untouched; the
      fallback has an answer, a description and a 2-column table whose every row has
      2 cells. */
  function LoadTable(file: Option<Payload>): (p: Payload)
    ensures file.Some? ==> p == file.value
    ensures file.None? ==> Truthy(p.answerText) && Truthy(p.description)
    ensures file.None? ==>
      p.table.Some? && |p.table.value.columns| == 2 && |p.table.value.rows| == 2 && WellShaped(p.table.value)
  {
    match file
    case Some(payload) => payload
    case None => Fallback
  }
}
