/**
 * The filtering table of `src/ui/filter.rs` (`DataModelFilter`): a table
 * model in front of another one that, while its map of column patterns is
 * not empty, shows only the rows every pattern matches. A background scan
 * looks at the rows of the inner table one after another and appends the
 * accepted ones to the mapping from shown rows to inner rows.
 */
module TableFilter {
  import opened Base
  import opened Host
  import opened Tables

  /** The shared state: the inner table, the patterns by column name, the
      rows found so far, and the next row the scan looks at. */
  datatype Filter = Filter(inner: Table, filter: map<string, string>, mapping: seq<nat>, row: nat)

  // ---------------------------------------------------------------------
  // `accept_row`

  /** One pattern against one row: the column must exist, the inner table
      must have a cell there, and the pattern must match its text. */
  predicate Holds(h: Host, t: Table, filter: map<string, string>, name: string, row: nat)
    requires name in filter
  {
    match t.headerIndex(name)
    case None => false
    case Some(column) =>
      match t.data(row, column)
      case None => false
      case Some(text) => h.regexMatch(filter[name], text)
  }

  /** The loop of `accept_row` over the patterns, in the order `names` in
      which the hash map hands them out: it returns `false` at the first
      pattern that does not hold and `true` once all have been seen. */
  function AcceptLoop(h: Host, t: Table, filter: map<string, string>, names: seq<string>, row: nat): (r: bool)
    requires forall k :: 0 <= k < |names| ==> names[k] in filter
    ensures r <==> forall k :: 0 <= k < |names| ==> Holds(h, t, filter, names[k], row)
    decreases |names|
  {
    if names == [] then true
    else if !Holds(h, t, filter, names[0], row) then false
    else
      assert forall k :: 1 <= k < |names| ==> names[k] == names[1..][k - 1];
      AcceptLoop(h, t, filter, names[1..], row)
  }

  /** A row is accepted when every pattern holds of it. */
  predicate Accepts(h: Host, t: Table, filter: map<string, string>, row: nat)
  {
    forall name :: name in filter ==> Holds(h, t, filter, name, row)
  }

  /** Whatever order the hash map hands the patterns out in, the loop
      accepts exactly the rows of which every pattern holds. */
  lemma AcceptLoopAnyOrder(h: Host, t: Table, filter: map<string, string>, names: seq<string>, row: nat)
    requires forall name :: name in filter <==> name in names
    ensures (forall k :: 0 <= k < |names| ==> names[k] in filter)
      && (AcceptLoop(h, t, filter, names, row) <==> Accepts(h, t, filter, row))
  {
    assert forall k :: 0 <= k < |names| ==> names[k] in names;
    if !Accepts(h, t, filter, row) {
      var name :| name in filter && !Holds(h, t, filter, name, row);
      var k :| 0 <= k < |names| && names[k] == name;
    }
  }

  /** A pattern on a column the inner table does not have rejects every row. */
  lemma MissingColumnRejects(h: Host, t: Table, filter: map<string, string>, name: string, row: nat)
    requires name in filter && t.headerIndex(name).None?
    ensures !Accepts(h, t, filter, row)
  {
    assert !Holds(h, t, filter, name, row);
  }

  /** The rows of `t` the patterns accept. */
  function Accepted(h: Host, t: Table, filter: map<string, string>): nat -> bool
  {
    (row: nat) => Accepts(h, t, filter, row)
  }

  // ---------------------------------------------------------------------
  // The table interface

  /** `rows`: the rows found so far while there are patterns, all the inner
      table's rows otherwise. */
  function Rows(f: Filter): nat
  {
    if |f.filter| != 0 then |f.mapping| else f.inner.rows
  }

  /** `data`: with patterns, the shown row is looked up in the mapping first,
      and indexing past its end panics; without, the cell is the inner one. */
  function Data(f: Filter, row: nat, column: nat): (r: Exec<Option<string>>)
    ensures !r.Loops?
    ensures r.Panics? <==> |f.filter| != 0 && row >= |f.mapping|
    ensures |f.filter| == 0 ==> r == Returns(f.inner.data(row, column))
  {
    if |f.filter| == 0 then Returns(f.inner.data(row, column))
    else if row < |f.mapping| then Returns(f.inner.data(f.mapping[row], column))
    else Panics
  }

  /** `cols`, `header_index` and `header_data` ask the inner table. */
  function Cols(f: Filter): nat { f.inner.cols }

  function HeaderIndex(f: Filter, name: string): Option<nat> { f.inner.headerIndex(name) }

  function HeaderData(f: Filter, column: nat): Option<string> { f.inner.headerData(column) }

  // ---------------------------------------------------------------------
  // The background scan of `filter_changed`

  /** `set_filter` followed by `filter_changed`, once the earlier scan has
      stopped: the patterns replaced, the mapping cleared, and a new scan
      starting at the first row. The earlier scan is signalled through the
      dropped channel and stops at its next `try_recv`; this is the state
      when it stops without pushing a row, which is what a join of the
      earlier scan would guarantee. */
  function SetFilter(f: Filter, filter: map<string, string>): (r: Filter)
    ensures r.inner == f.inner && r.filter == filter
    ensures r.mapping == [] && r.row == 0
  {
    Filter(f.inner, filter, [], 0)
  }

  /** `set_filter` as written, with a turn of the earlier scan in flight.
      `join` is never stored, so the earlier scan is never joined: `stop` is
      taken and dropped, and the scan notices only at its next `try_recv`.
      A turn already past that check that pushes a row (`pending`) puts it
      into the mapping just cleared. */
  function SetFilterAsWritten(f: Filter, filter: map<string, string>, pending: Option<nat>): (r: Filter)
    ensures pending.None? ==> r == SetFilter(f, filter)
    ensures pending.Some? ==> r == SetFilter(f, filter).(mapping := [pending.value])
  {
    match pending
    case None => SetFilter(f, filter)
    case Some(row) => Filter(f.inner, filter, [row], 0)
  }

  /** How far the scan goes as written: `rows().saturating_sub(1)`. */
  function LimitAsWritten(rows: nat): (n: nat)
    ensures rows > 0 ==> n == rows - 1
    ensures rows == 0 ==> n == 0
  {
    if rows == 0 then 0 else rows - 1
  }

  /** How far the scan should go: every row of the inner table. */
  function Limit(rows: nat): nat
  {
    rows
  }

  /** One turn of the scan's loop with the given bound: at the bound it
      sleeps and looks again; below it, it appends the row when the row is
      accepted and moves on. */
  function ScanStep(h: Host, f: Filter, limit: nat): (r: Filter)
    ensures r.inner == f.inner && r.filter == f.filter
    ensures f.row >= limit ==> r == f
    ensures f.row < limit ==>
      r.row == f.row + 1 && r.mapping == f.mapping + (if Accepts(h, f.inner, f.filter, f.row) then [f.row] else [])
  {
    if f.row >= limit then f
    else
      var keep := Accepts(h, f.inner, f.filter, f.row);
      Filter(f.inner, f.filter, if keep then f.mapping + [f.row] else f.mapping, f.row + 1)
  }

  /** `n` turns of the scan. */
  function Scan(h: Host, f: Filter, limit: nat, n: nat): Filter
    decreases n
  {
    if n == 0 then f else Scan(h, ScanStep(h, f, limit), limit, n - 1)
  }

  /** The mapping holds exactly the accepted rows among those the scan has
      looked at, in order. */
  predicate Consistent(h: Host, f: Filter)
  {
    f.mapping == Selected(Accepted(h, f.inner, f.filter), f.row)
  }

  /** Setting the patterns leaves a consistent state. */
  lemma SetFilterConsistent(h: Host, f: Filter, filter: map<string, string>)
    ensures Consistent(h, SetFilter(f, filter))
  {
  }

  /** A turn of the scan keeps the state consistent. */
  lemma ScanStepConsistent(h: Host, f: Filter, limit: nat)
    requires Consistent(h, f)
    ensures Consistent(h, ScanStep(h, f, limit))
  {
    if f.row < limit {
      assert Accepted(h, f.inner, f.filter)(f.row) == Accepts(h, f.inner, f.filter, f.row);
    }
  }

  /** Any number of turns keeps it consistent, and the scan never passes the
      bound or goes back. */
  lemma {:induction false} ScanConsistent(h: Host, f: Filter, limit: nat, n: nat)
    requires Consistent(h, f)
    ensures Consistent(h, Scan(h, f, limit, n))
    ensures Scan(h, f, limit, n).inner == f.inner && Scan(h, f, limit, n).filter == f.filter
    ensures Scan(h, f, limit, n).row == if f.row >= limit then f.row else Min(f.row + n, limit)
    decreases n
  {
    if n > 0 {
      ScanStepConsistent(h, f, limit);
      ScanConsistent(h, ScanStep(h, f, limit), limit, n - 1);
    }
  }

  function Min(a: nat, b: nat): nat { if a <= b then a else b }

  /** Every row shown while there are patterns is an inner row the scan
      accepted, the shown rows keep the inner order, and a shown cell is the
      inner table's cell of that row. */
  lemma ShownRowsAccepted(h: Host, f: Filter, row: nat, column: nat)
    requires Consistent(h, f) && |f.filter| != 0 && row < Rows(f)
    ensures f.mapping[row] < f.row && Accepts(h, f.inner, f.filter, f.mapping[row])
    ensures Data(f, row, column) == Returns(f.inner.data(f.mapping[row], column))
    ensures forall a, b :: 0 <= a < b < |f.mapping| ==> f.mapping[a] < f.mapping[b]
  {
    assert f.mapping[row] in f.mapping;
  }

  /** A row in front of the mapping rides along with every turn of the
      scan. */
  lemma {:induction false} ScanWithStale(h: Host, f: Filter, limit: nat, n: nat, row: nat)
    ensures Scan(h, f.(mapping := [row] + f.mapping), limit, n)
      == Scan(h, f, limit, n).(mapping := [row] + Scan(h, f, limit, n).mapping)
    decreases n
  {
    if n > 0 {
      var s := ScanStep(h, f, limit);
      if f.row < limit && Accepts(h, f.inner, f.filter, f.row) {
        assert [row] + f.mapping + [f.row] == [row] + (f.mapping + [f.row]);
      }
      assert ScanStep(h, f.(mapping := [row] + f.mapping), limit) == s.(mapping := [row] + s.mapping);
      ScanWithStale(h, s, limit, n - 1, row);
    }
  }

  /** As written, a row pushed by the earlier scan's last turn is shown
      first under the new patterns, whether they accept it or not, and stays
      first however long the new scan runs: the mapping no longer holds just
      the accepted rows the scan has looked at. */
  lemma StaleRowStays(h: Host, f: Filter, filter: map<string, string>, row: nat, limit: nat, n: nat, column: nat)
    requires |filter| != 0
    ensures var g := Scan(h, SetFilterAsWritten(f, filter, Some(row)), limit, n);
      && |g.mapping| > 0 && g.mapping[0] == row && Rows(g) == |g.mapping|
      && Data(g, 0, column) == Returns(f.inner.data(row, column))
      && !Consistent(h, g)
  {
    var c := SetFilter(f, filter);
    assert SetFilterAsWritten(f, filter, Some(row)) == c.(mapping := [row] + c.mapping);
    ScanWithStale(h, c, limit, n, row);
    ScanConsistent(h, c, limit, n);
    var s := Scan(h, c, limit, n);
    assert |[row] + s.mapping| != |s.mapping|;
  }

  // ---------------------------------------------------------------------
  // The inner table grows while the scan runs

  /** `t'` is `t` with rows appended, as the reading thread of `LogData`
      appends records: the columns and the cells of the rows already there
      stay as they were. */
  ghost predicate Extends(t: Table, t': Table)
  {
    && t.rows <= t'.rows && t'.cols == t.cols
    && (forall name :: t'.headerIndex(name) == t.headerIndex(name))
    && (forall column: nat :: t'.headerData(column) == t.headerData(column))
    && (forall row: nat, column: nat :: row < t.rows ==> t'.data(row, column) == t.data(row, column))
  }

  /** The scan never goes past the rows of the inner table. */
  predicate InBounds(f: Filter)
  {
    f.row <= f.inner.rows
  }

  /** What the scanning thread can observe between two of its turns: the
      reading thread has appended rows, or the scan takes a turn with the
      bound it reads from the table as it now is. */
  datatype Event = Push(table: Table) | Turn

  /** The filter after one event; a table that is not an extension of the
      current one is not something the reading thread produces, and leaves
      the state as it was. */
  ghost function Apply(h: Host, f: Filter, e: Event): (r: Filter)
    ensures r.filter == f.filter
    ensures e.Push? && Extends(f.inner, e.table) ==> r == f.(inner := e.table)
    ensures e.Turn? ==> r == ScanStep(h, f, LimitAsWritten(f.inner.rows))
  {
    match e
    case Push(t) => if Extends(f.inner, t) then f.(inner := t) else f
    case Turn => ScanStep(h, f, LimitAsWritten(f.inner.rows))
  }

  /** The events in order. */
  ghost function Run(h: Host, f: Filter, es: seq<Event>): Filter
    decreases |es|
  {
    if es == [] then f else Run(h, Apply(h, f, es[0]), es[1..])
  }

  /** Appending rows keeps the mapping consistent: the rows the scan has
      looked at are still there, with the same cells. */
  lemma GrowConsistent(h: Host, f: Filter, t: Table)
    requires Consistent(h, f) && InBounds(f) && Extends(f.inner, t)
    ensures Consistent(h, f.(inner := t)) && InBounds(f.(inner := t))
  {
    var p, q := Accepted(h, f.inner, f.filter), Accepted(h, t, f.filter);
    forall k: nat | k < f.row ensures p(k) == q(k) {
      forall name | name in f.filter ensures Holds(h, f.inner, f.filter, name, k) == Holds(h, t, f.filter, name, k) {
        assert t.headerIndex(name) == f.inner.headerIndex(name);
      }
    }
    SelectedAgree(p, q, f.row);
  }

  /** One event keeps the state consistent and the scan within the table. */
  lemma ApplyConsistent(h: Host, f: Filter, e: Event)
    requires Consistent(h, f) && InBounds(f)
    ensures Consistent(h, Apply(h, f, e)) && InBounds(Apply(h, f, e))
    ensures Apply(h, f, e).row <= f.row + 1 && f.row <= Apply(h, f, e).row
  {
    match e
    case Push(t) =>
      if Extends(f.inner, t) {
        GrowConsistent(h, f, t);
      }
    case Turn =>
      ScanStepConsistent(h, f, LimitAsWritten(f.inner.rows));
  }

  /** However the reading thread's appends interleave with the turns of the
      scan, the mapping holds exactly the accepted rows the scan has looked
      at, and the scan stays within the table. */
  lemma {:induction false} RunConsistent(h: Host, f: Filter, es: seq<Event>)
    requires Consistent(h, f) && InBounds(f)
    ensures Consistent(h, Run(h, f, es)) && InBounds(Run(h, f, es))
    ensures Run(h, f, es).filter == f.filter
    decreases |es|
  {
    if es != [] {
      ApplyConsistent(h, f, es[0]);
      RunConsistent(h, Apply(h, f, es[0]), es[1..]);
    }
  }

  // ---------------------------------------------------------------------
  // The bound of the scan

  /** As written, once the inner table has stopped growing, the scan never
      looks at its last row: however long it runs, that row is not shown,
      accepted or not. */
  lemma LastRowSkipped(h: Host, t: Table, filter: map<string, string>, n: nat)
    requires t.rows > 0
    ensures var f := Scan(h, SetFilter(Filter(t, map[], [], 0), filter), LimitAsWritten(t.rows), n);
      t.rows - 1 !in f.mapping
  {
    var f0 := SetFilter(Filter(t, map[], [], 0), filter);
    ScanConsistent(h, f0, LimitAsWritten(t.rows), n);
  }

  /** So a table of one row that the patterns accept shows no row at all. */
  lemma OneAcceptedRowNeverShown(h: Host, t: Table, filter: map<string, string>, n: nat)
    requires t.rows == 1 && |filter| != 0 && Accepts(h, t, filter, 0)
    ensures Rows(Scan(h, SetFilter(Filter(t, map[], [], 0), filter), LimitAsWritten(t.rows), n)) == 0
  {
    var f0 := SetFilter(Filter(t, map[], [], 0), filter);
    ScanConsistent(h, f0, LimitAsWritten(t.rows), n);
  }

  /** With every row in bounds, once the scan has had as many turns as the
      inner table has rows, the rows shown are exactly the accepted ones. */
  lemma ScanCatchesUp(h: Host, t: Table, filter: map<string, string>, n: nat, row: nat)
    requires n >= t.rows
    ensures var f := Scan(h, SetFilter(Filter(t, map[], [], 0), filter), Limit(t.rows), n);
      f.row == t.rows && (row in f.mapping <==> row < t.rows && Accepts(h, t, filter, row))
  {
    var f0 := SetFilter(Filter(t, map[], [], 0), filter);
    ScanConsistent(h, f0, Limit(t.rows), n);
    var f := Scan(h, f0, Limit(t.rows), n);
    assert Accepted(h, t, filter)(row) == Accepts(h, t, filter, row);
  }
}
