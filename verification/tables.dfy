/**
 * The table models of the interface (`TableModel` in `src/ui/model.rs`) and
 * the plain one over the records of the older reader (`LogData` in
 * `src/logdata.rs`): a grid of text cells with named columns.
 */
module Tables {
  import opened Base
  import opened Host
  import LP = LegacyParser

  /** A `TableModel` as a caller sees it: the number of rows and columns,
      the column of a header name, the name of a column, and the text of a
      cell addressed by row and column (`ModelIndex`). */
  datatype Table = Table(
    rows: nat,
    cols: nat,
    headerIndex: string -> Option<nat>,
    headerData: nat -> Option<string>,
    data: (nat, nat) -> Option<string>)

  /** `LogData`: the records received so far and the column headers. */
  datatype LogData = LogData(lines: seq<LP.Record>, headers: seq<string>)

  /** The columns the viewer opens its table with. */
  const MainHeaders: seq<string> := ["time", "event", "duration", "process", "OSThread"]

  /** `Iterator::position`: the first place of `x` in `s`. */
  function Position(s: seq<string>, x: string): (r: Option<nat>)
    ensures r.Some? ==> r.value < |s| && s[r.value] == x
    ensures r.Some? ==> forall j :: 0 <= j < r.value ==> s[j] != x
    ensures r.None? <==> x !in s
    decreases |s|
  {
    if s == [] then None
    else if s[0] == x then Some(0)
    else match Position(s[1..], x)
      case None => assert forall j :: 1 <= j < |s| ==> s[j] == s[1..][j - 1]; None
      case Some(j) => Some(j + 1)
  }

  /** `header_index`: the first column with that name. */
  function HeaderIndex(d: LogData, name: string): (r: Option<nat>)
    ensures r.None? <==> name !in d.headers
    ensures r.Some? ==> r.value < |d.headers| && d.headers[r.value] == name
    ensures r.Some? ==> forall j :: 0 <= j < r.value ==> d.headers[j] != name
  {
    Position(d.headers, name)
  }

  /** `header_data`: the name of a column, if there is such a column. */
  function HeaderData(d: LogData, column: nat): Option<string>
  {
    if column < |d.headers| then Some(d.headers[column]) else None
  }

  /** `data`: nothing outside the grid; in a `time` column the record's
      instant written as `%d-%m-%y %T%.9f`; in any other column the text of
      the field with that name, or the empty text when the record has none. */
  function Data(h: Host, d: LogData, row: nat, column: nat): (r: Option<string>)
    ensures r.Some? <==> row < |d.lines| && column < |d.headers|
    ensures r.Some? && d.headers[column] == "time" ==> r.value == h.formatTableTime(d.lines[row].time)
    ensures r.Some? && d.headers[column] != "time" && LP.Get(d.lines[row].fields, d.headers[column]).None?
      ==> r.value == ""
    ensures r.Some? && d.headers[column] != "time" ==>
      (forall j :: 0 <= j < |d.lines[row].fields| && d.lines[row].fields[j].0 == d.headers[column]
         && (forall i :: 0 <= i < j ==> d.lines[row].fields[i].0 != d.headers[column])
         ==> r.value == d.lines[row].fields[j].1)
  {
    if row < |d.lines| && column < |d.headers| then
      var name := d.headers[column];
      var line := d.lines[row];
      if name == "time" then Some(h.formatTableTime(line.time))
      else
        match LP.Get(line.fields, name)
        case None => Some("")
        case Some(v) => Some(v)
    else None
  }

  /** `LogData` behind the `TableModel` interface. */
  function AsTable(h: Host, d: LogData): (t: Table)
    ensures t.rows == |d.lines| && t.cols == |d.headers|
    ensures forall name :: t.headerIndex(name) == HeaderIndex(d, name)
    ensures forall column :: t.headerData(column) == HeaderData(d, column)
    ensures forall row, column :: t.data(row, column) == Data(h, d, row, column)
  {
    Table(|d.lines|, |d.headers|, name => HeaderIndex(d, name), (column: nat) => HeaderData(d, column),
      (row: nat, column: nat) => Data(h, d, row, column))
  }

  // ---------------------------------------------------------------------
  // Properties

  /** The name of a column leads back to that column exactly when no earlier
      column has the same name, and every name found names its column. */
  lemma HeaderInverse(d: LogData, column: nat, name: string)
    ensures HeaderIndex(d, name).Some? ==> HeaderData(d, HeaderIndex(d, name).value) == Some(name)
    ensures column < |d.headers|
      ==> (HeaderIndex(d, d.headers[column]) == Some(column)
        <==> forall j :: 0 <= j < column ==> d.headers[j] != d.headers[column])
  {
    if column < |d.headers| {
      var r := HeaderIndex(d, d.headers[column]);
      if forall j :: 0 <= j < column ==> d.headers[j] != d.headers[column] {
        assert r.value >= column;
      }
    }
  }

  /** The columns of the viewer's table are told apart by name, and its first
      column shows the formatted instant of each record. */
  lemma MainTableColumns(h: Host, lines: seq<LP.Record>, column: nat, row: nat)
    requires column < 5
    ensures HeaderIndex(LogData(lines, MainHeaders), MainHeaders[column]) == Some(column)
    ensures row < |lines| ==> Data(h, LogData(lines, MainHeaders), row, 0) == Some(h.formatTableTime(lines[row].time))
  {
    HeaderInverse(LogData(lines, MainHeaders), column, MainHeaders[column]);
  }
}
