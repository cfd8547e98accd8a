/**
 * The record collection of `src/parser/logdata.rs` (`LogCollection`): the
 * records received so far, the compiled query, and the mapping from shown
 * rows to records that a background scan extends by testing one record at a
 * time against the query. The reading thread appends records; a new query
 * restarts the scan.
 */
module LogCollections {
  import opened Base
  import opened Values
  import opened Host
  import Records
  import Q = Queries
  import L = Lexer
  import C = QueryCompiler

  /** `Inner`, with the next row the scan looks at (a local of the scanning
      thread in the original). */
  datatype Collection = Collection(lines: seq<Records.LogString>, filter: Option<Q.Query>, mapping: seq<nat>, row: nat)

  /** How `accept` sees a record; the record type `accept` takes is not part
      of this model. */
  type View = Records.LogString -> Q.Record

  // ---------------------------------------------------------------------
  // `accept_row`

  /** `accept_row`: a row past the records reaches `unreachable!()`; without
      a query every record is accepted; otherwise the query decides. */
  function AcceptRow(h: Host, view: View, c: Collection, row: nat): (r: Exec<bool>)
    ensures !r.Loops?
    ensures r.Panics? <==> row >= |c.lines|
    ensures r.Returns? && c.filter.None? ==> r.value
  {
    if row >= |c.lines| then Panics
    else if c.filter.None? then Returns(true)
    else Returns(Q.Accept(h, c.filter.value, view(c.lines[row])))
  }

  /** The records the scan keeps: those `accept_row` accepts. They depend
      only on the records and the query. */
  function Passes(h: Host, view: View, lines: seq<Records.LogString>, filter: Option<Q.Query>): nat -> bool
  {
    (row: nat) => AcceptRow(h, view, Collection(lines, filter, [], 0), row) == Returns(true)
  }

  /** The mapping holds exactly the accepted rows among those the scan has
      looked at, in order, and the scan is not past the records. */
  predicate Consistent(h: Host, view: View, c: Collection)
  {
    c.row <= |c.lines| && c.mapping == Selected(Passes(h, view, c.lines, c.filter), c.row)
  }

  // ---------------------------------------------------------------------
  // The threads

  /** The reading thread pushes a record. */
  function AddLine(c: Collection, l: Records.LogString): (r: Collection)
    ensures r.lines == c.lines + [l]
    ensures r.filter == c.filter && r.mapping == c.mapping && r.row == c.row
  {
    c.(lines := c.lines + [l])
  }

  /** The scanning thread receives a query: it replaces the old one, the
      mapping is cleared and the scan starts again at the first record. */
  function Receive(c: Collection, filter: Option<Q.Query>): (r: Collection)
    ensures r.lines == c.lines && r.filter == filter && r.mapping == [] && r.row == 0
  {
    Collection(c.lines, filter, [], 0)
  }

  /** One turn of the scanning loop: at the end of the records it sleeps and
      looks again; otherwise it tests the next record, keeps it when
      accepted, and moves on. */
  function WorkerStep(h: Host, view: View, c: Collection): (r: Collection)
    ensures r.lines == c.lines && r.filter == c.filter
    ensures c.row >= |c.lines| ==> r == c
    ensures c.row < |c.lines| ==> r.row == c.row + 1
    ensures c.row < |c.lines| && c.filter.None? ==> r.mapping == c.mapping + [c.row]
  {
    if c.row >= |c.lines| then c
    else if AcceptRow(h, view, c, c.row) == Returns(true) then c.(mapping := c.mapping + [c.row], row := c.row + 1)
    else c.(row := c.row + 1)
  }

  /** `n` turns of the scan. */
  function Work(h: Host, view: View, c: Collection, n: nat): Collection
    decreases n
  {
    if n == 0 then c else Work(h, view, WorkerStep(h, view, c), n - 1)
  }

  /** `set_filter`: a query that compiles is sent to the scanning thread
      (its receipt is folded in here) and `Ok(())` returned; a compile
      error is returned and nothing changes; a panic of the lexer ends the
      program. */
  function SetFilter(comp: L.Compiler, c: Collection, text: string): (r: Exec<(Result<(), C.Error>, Collection)>)
    ensures !r.Loops?
    ensures r.Panics? <==> C.Compile(comp, text).Panics?
    ensures r.Returns? ==> (r.value.0.Err? <==> C.Compile(comp, text).value.Err?)
    ensures r.Returns? && r.value.0.Err? ==> r.value.0.error == C.Compile(comp, text).value.error && r.value.1 == c
    ensures r.Returns? && r.value.0.Ok? ==> r.value.1 == Receive(c, Some(C.Compile(comp, text).value.value))
  {
    match C.Compile(comp, text)
    case Returns(Ok(q)) => Returns((Ok(()), Receive(c, Some(q))))
    case Returns(Err(e)) => Returns((Err(e), c))
    case Panics => Panics
    case Loops => Loops
  }

  // ---------------------------------------------------------------------
  // The table interface

  /** `line`: the record shown at a row, if the row is shown. */
  function Line(c: Collection, row: nat): (r: Option<Records.LogString>)
    ensures r.Some? <==> row < |c.mapping| && c.mapping[row] < |c.lines|
  {
    if row < |c.mapping| && c.mapping[row] < |c.lines| then Some(c.lines[c.mapping[row]]) else None
  }

  /** `rows`: the rows found so far. */
  function Rows(c: Collection): nat { |c.mapping| }

  /** `cols`: the five fixed columns. */
  const Cols: nat := 5

  /** `header_index`. */
  function HeaderIndex(name: string): Option<nat>
  {
    match name
    case "time" => Some(0)
    case "event" => Some(1)
    case "duration" => Some(2)
    case "process" => Some(3)
    case "OSThread" => Some(4)
    case _ => None
  }

  /** `header_data`. */
  function HeaderData(column: nat): Option<string>
  {
    match column
    case 0 => Some("time")
    case 1 => Some("event")
    case 2 => Some("duration")
    case 3 => Some("process")
    case 4 => Some("OSThread")
    case _ => None
  }

  /** `data`: a cell of a shown row in one of the five columns is the
      record's value of that field, or the empty string when the record has
      none; anything else has no cell. Looking a field up reads the record's
      line again, which can fail. */
  function Data(c: Collection, row: nat, column: nat): (r: Exec<Option<Value>>)
    ensures Line(c, row).None? || column >= Cols ==> r == Returns(None)
    ensures Line(c, row).Some? && column == 0 ==> r == Returns(Some(DateTime(Line(c, row).value.time)))
    ensures Line(c, row).Some? && HeaderData(column).Some? ==>
      var g := Records.Get(Line(c, row).value, HeaderData(column).value);
      && (r.Returns? <==> g.Returns?)
      && (g == Returns(None) ==> r == Returns(Some(Default())))
      && (g.Returns? && g.value.Some? ==> r == Returns(g.value))
  {
    match Line(c, row)
    case None => Returns(None)
    case Some(l) =>
      match HeaderData(column)
      case None => Returns(None)
      case Some(name) =>
        match Records.Get(l, name)
        case Panics => Panics
        case Loops => Loops
        case Returns(o) => Returns(Some(if o.Some? then o.value else Default()))
  }

  // ---------------------------------------------------------------------
  // Properties

  /** The five header names and the five columns are each other's inverse. */
  lemma HeadersInverse(column: nat, name: string)
    ensures HeaderData(column).Some? <==> column < Cols
    ensures HeaderData(column).Some? ==> HeaderIndex(HeaderData(column).value) == Some(column)
    ensures HeaderIndex(name).Some? ==> HeaderData(HeaderIndex(name).value) == Some(name)
  {
  }

  /** A new query leaves a consistent state; a query that does not compile
      leaves the state as it was. */
  lemma SetFilterConsistent(h: Host, view: View, comp: L.Compiler, c: Collection, text: string)
    requires Consistent(h, view, c)
    ensures SetFilter(comp, c, text).Returns? ==> Consistent(h, view, SetFilter(comp, c, text).value.1)
  {
  }

  /** A record pushed by the reading thread does not disturb the scan: the
      rows it has looked at are the same. */
  lemma AddLineConsistent(h: Host, view: View, c: Collection, l: Records.LogString)
    requires Consistent(h, view, c)
    ensures Consistent(h, view, AddLine(c, l))
  {
    var c' := AddLine(c, l);
    forall k: nat | k < c.row ensures Passes(h, view, c.lines, c.filter)(k) == Passes(h, view, c'.lines, c'.filter)(k) {
      assert c'.lines[k] == c.lines[k];
    }
    SelectedAgree(Passes(h, view, c.lines, c.filter), Passes(h, view, c'.lines, c'.filter), c.row);
  }

  /** A turn of the scan keeps the state consistent. */
  lemma WorkerStepConsistent(h: Host, view: View, c: Collection)
    requires Consistent(h, view, c)
    ensures Consistent(h, view, WorkerStep(h, view, c))
  {
    if c.row < |c.lines| {
      assert Passes(h, view, c.lines, c.filter)(c.row) == (AcceptRow(h, view, c, c.row) == Returns(true));
    }
  }

  /** Any number of turns keeps it consistent; the scan moves one record per
      turn until it reaches the end of the records. */
  lemma {:induction false} WorkConsistent(h: Host, view: View, c: Collection, n: nat)
    requires Consistent(h, view, c)
    ensures Consistent(h, view, Work(h, view, c, n))
    ensures Work(h, view, c, n).lines == c.lines && Work(h, view, c, n).filter == c.filter
    ensures Work(h, view, c, n).row == if c.row + n <= |c.lines| then c.row + n else |c.lines|
    decreases n
  {
    if n > 0 {
      WorkerStepConsistent(h, view, c);
      WorkConsistent(h, view, WorkerStep(h, view, c), n - 1);
    }
  }

  /** Every shown row is a record the query accepts, shown rows keep the
      order of the records, and every accepted record the scan has passed is
      shown. */
  lemma ShownLinesAccepted(h: Host, view: View, c: Collection, row: nat, k: nat)
    requires Consistent(h, view, c) && row < Rows(c)
    ensures c.mapping[row] < c.row && Line(c, row) == Some(c.lines[c.mapping[row]])
    ensures c.filter.Some? ==> Q.Accept(h, c.filter.value, view(c.lines[c.mapping[row]]))
    ensures forall a, b :: 0 <= a < b < |c.mapping| ==> c.mapping[a] < c.mapping[b]
    ensures k < c.row && (c.filter.None? || Q.Accept(h, c.filter.value, view(c.lines[k]))) ==> k in c.mapping
  {
    assert c.mapping[row] in c.mapping;
    assert Passes(h, view, c.lines, c.filter)(c.mapping[row]) == (AcceptRow(h, view, c, c.mapping[row]) == Returns(true));
    assert Passes(h, view, c.lines, c.filter)(k) == (AcceptRow(h, view, c, k) == Returns(true));
  }

  /** Without a query, once the scan has had a turn per record every record
      is shown, each at its own row. */
  lemma NoFilterShowsAll(h: Host, view: View, lines: seq<Records.LogString>, n: nat)
    requires n >= |lines|
    ensures var c := Work(h, view, Collection(lines, None, [], 0), n);
      Rows(c) == |lines| && forall k :: 0 <= k < |lines| ==> Line(c, k) == Some(lines[k])
  {
    var c0 := Collection(lines, None, [], 0);
    WorkConsistent(h, view, c0, n);
    var c := Work(h, view, c0, n);
    forall k: nat | k < |lines| ensures Passes(h, view, c.lines, c.filter)(k) {
    }
    SelectedAll(Passes(h, view, c.lines, c.filter), |lines|);
  }
}
