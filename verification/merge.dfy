/**
 * The merge loop of `LogParser::parse_dir` (`src/parser/mod.rs`) and the
 * whole reader built from it. Within a run of files of one hour, every file
 * keeps a head line; each round first refills the empty heads by reading
 * the next line of their files, then stops when every head is empty, and
 * otherwise sends the head with the earliest time and empties it.
 */
module HourMerge {
  import opened Base
  import opened Host
  import opened Calendar
  import opened FieldParser
  import opened Records
  import opened Directory
  import opened HeadMerge

  /** One file of a run: its tokenizer and the hour its name stands for. */
  datatype Slot = Slot(fields: Fields, hour: int)

  /** As many heads as files, every tokenizer within its text. */
  predicate SlotsOk(slots: seq<Slot>, heads: seq<Option<LogString>>)
  {
    |slots| == |heads| && forall i :: 0 <= i < |slots| ==> FieldParser.Valid(slots[i].fields)
  }

  // ---------------------------------------------------------------------
  // Reading the next line of one file

  /** How a line before the requested instant is passed over: as written,
      reading on from the field after its time (which is `duration`, not
      `time`, so `unreachable!()` is reached: see `PollSkipPanics`); or, as
      evidently intended, reading the rest of the line first. */
  datatype Skip = AsWritten | WholeLine

  /** The inner `loop` of a round for one empty head: the first field read
      must be `time` (anything else is `unreachable!()`); a line before the
      requested instant is passed over, otherwise the rest of the line is
      read and the line becomes the head; nothing read means the head stays
      empty. */
  function Poll(h: Host, date: Option<int>, skip: Skip, f: Fields, hour: int): (r: Exec<(Option<LogString>, Fields)>)
    requires FieldParser.Valid(f)
    ensures r.Returns? ==> var n := r.value.1;
      FieldParser.Valid(n) && n.reader == f.reader && f.index <= n.index
    ensures r.Returns? && r.value.0.Some? ==> f.index < r.value.1.index
    decreases |f.reader| - f.index
  {
    match ParseField(f)
    case Panics => Panics
    case Loops => Loops
    case Returns(NoMore(n)) => Returns((None, n))
    case Returns(Yield(k, v, n)) =>
      if k != "time" then Panics
      else
        var t := h.parseTime(hour, v);
        var early := date.Some? && t < date.value;
        if early && skip == AsWritten then Poll(h, date, skip, n, hour)
        else
          match Collect(n)
          case Panics => Panics
          case Loops => Loops
          case Returns((_, m)) =>
            if early then Poll(h, date, skip, m, hour)
            else Returns((Some(LogString(t, f.reader[f.index..m.index])), m))
  }

  // ---------------------------------------------------------------------
  // Refilling the heads

  /** What is left to do: the unread text of every file and one for every
      full head. It falls with every line sent. */
  function Cost(s: Slot, o: Option<LogString>): nat
    requires FieldParser.Valid(s.fields)
  {
    (|s.fields.reader| - s.fields.index) + (if o.Some? then 1 else 0)
  }

  function Measure(slots: seq<Slot>, heads: seq<Option<LogString>>): nat
    requires SlotsOk(slots, heads)
    decreases |slots|
  {
    if slots == [] then 0 else Cost(slots[0], heads[0]) + Measure(slots[1..], heads[1..])
  }

  lemma {:induction false} MeasureUpdate(slots: seq<Slot>, heads: seq<Option<LogString>>, i: nat, s: Slot, o: Option<LogString>)
    requires SlotsOk(slots, heads) && i < |slots| && FieldParser.Valid(s.fields)
    ensures SlotsOk(slots[i := s], heads[i := o])
    ensures Measure(slots[i := s], heads[i := o]) == Measure(slots, heads) - Cost(slots[i], heads[i]) + Cost(s, o)
    decreases i
  {
    if i > 0 {
      assert slots[i := s][1..] == slots[1..][i - 1 := s];
      assert heads[i := o][1..] == heads[1..][i - 1 := o];
      MeasureUpdate(slots[1..], heads[1..], i - 1, s, o);
    }
  }

  /** The `for` over the files: every empty head is refilled in turn, full
      heads are left alone. */
  function Fill(h: Host, date: Option<int>, skip: Skip, slots: seq<Slot>, heads: seq<Option<LogString>>, i: nat)
    : (r: Exec<(seq<Slot>, seq<Option<LogString>>)>)
    requires SlotsOk(slots, heads) && i <= |slots|
    ensures r.Returns? ==> SlotsOk(r.value.0, r.value.1) && |r.value.0| == |slots|
    ensures r.Returns? ==> Measure(r.value.0, r.value.1) <= Measure(slots, heads)
    ensures r.Returns? ==> forall j :: 0 <= j < |slots| && heads[j].Some? ==> r.value.1[j] == heads[j]
    decreases |slots| - i
  {
    if i == |slots| then Returns((slots, heads))
    else if heads[i].Some? then Fill(h, date, skip, slots, heads, i + 1)
    else
      match Poll(h, date, skip, slots[i].fields, slots[i].hour)
      case Panics => Panics
      case Loops => Loops
      case Returns((o, n)) =>
        MeasureUpdate(slots, heads, i, Slot(n, slots[i].hour), o);
        Fill(h, date, skip, slots[i := Slot(n, slots[i].hour)], heads[i := o], i + 1)
  }

  // ---------------------------------------------------------------------
  // The rounds

  /** The outer `loop` of one run. */
  function Merge(h: Host, date: Option<int>, skip: Skip, slots: seq<Slot>, heads: seq<Option<LogString>>): (r: Stream<LogString>)
    requires SlotsOk(slots, heads)
    decreases Measure(slots, heads)
  {
    match Fill(h, date, skip, slots, heads, 0)
    case Panics => Stream([], Panics)
    case Loops => Stream([], Loops)
    case Returns((ss, hs)) =>
      match FirstMin(hs)
      case None => Stream([], Returns(()))
      case Some(m) =>
        MeasureUpdate(ss, hs, m, ss[m], None);
        assert ss[m := ss[m]] == ss;
        var rest := Merge(h, date, skip, ss, hs[m := None]);
        Stream([hs[m].value] + rest.items, rest.end)
  }

  /** The files of a run that have text, each with a fresh tokenizer. */
  function Open(g: seq<Kept>): (slots: seq<Slot>)
    ensures forall i :: 0 <= i < |slots| ==> FieldParser.Valid(slots[i].fields)
    ensures forall i :: 0 <= i < |slots| ==> slots[i].fields.state == StartLogLine && slots[i].fields.index == 0
    decreases |g|
  {
    if g == [] then []
    else (if g[0].0.data == [] then [] else [Slot(New(g[0].0.data), g[0].1)]) + Open(g[1..])
  }

  /** `vec![None; part.len()]`. */
  function Nones(n: nat): (heads: seq<Option<LogString>>)
    ensures |heads| == n && AllNone(heads)
  {
    seq(n, _ => None)
  }

  /** One run, from empty heads. */
  function RunGroup(h: Host, date: Option<int>, skip: Skip, g: seq<Kept>): Stream<LogString>
  {
    var slots := Open(g);
    Merge(h, date, skip, slots, Nones(|slots|))
  }

  /** The runs one after the other; a run that does not finish ends the
      thread, and nothing after it is sent. */
  function RunGroups(h: Host, date: Option<int>, skip: Skip, gs: seq<seq<Kept>>): Stream<LogString>
    decreases |gs|
  {
    if gs == [] then Stream([], Returns(()))
    else
      var first := RunGroup(h, date, skip, gs[0]);
      if !first.end.Returns? then first
      else
        var rest := RunGroups(h, date, skip, gs[1..]);
        Stream(first.items + rest.items, rest.end)
  }

  /** `LogParser::parse_dir`: the lines sent for the files of a directory,
      from the requested instant on if there is one. */
  function ParseDir(h: Host, date: Option<int>, fs: seq<DirFile>): Stream<LogString>
  {
    match SelectAll(h, HourOf(date), fs)
    case Panics => Stream([], Panics)
    case Loops => Stream([], Loops)
    case Returns(kept) => RunGroups(h, date, AsWritten, Groups(SortByHour(kept)))
  }

  // ---------------------------------------------------------------------
  // Files of well-formed lines

  /** A tokenizer at the start of a line, with the lines `ls` and nothing
      else before the end of its text. */
  predicate Reads(f: Fields, ls: seq<Line>)
  {
    && f.state == StartLogLine
    && Occurs(f.reader, f.index, Text(ls))
    && f.index + |Text(ls)| == |f.reader|
    && AllWellFormed(ls)
  }

  /** The line is before the requested instant. */
  predicate Early(h: Host, date: Option<int>, hour: int, l: Line)
  {
    date.Some? && h.parseTime(hour, l.time) < date.value
  }

  /** The records a file of lines `ls` should contribute, in file order: a
      record for every line not before the requested instant. */
  function Entries(h: Host, date: Option<int>, hour: int, ls: seq<Line>): (r: seq<LogString>)
    ensures |r| <= |ls|
  {
    if ls == [] then []
    else
      (if Early(h, date, hour, ls[0]) then []
       else [LogString(h.parseTime(hour, ls[0].time), Render(ls[0]))])
      + Entries(h, date, hour, ls[1..])
  }

  /** The lines left after the next record is taken. */
  function After(h: Host, date: Option<int>, hour: int, ls: seq<Line>): seq<Line>
  {
    if ls == [] then []
    else if Early(h, date, hour, ls[0]) then After(h, date, hour, ls[1..])
    else ls[1..]
  }

  /** The lines of a file can be polled in mode `skip`: passing over whole
      lines, or, as written, with no line to pass over. */
  predicate Passable(h: Host, date: Option<int>, skip: Skip, hour: int, ls: seq<Line>)
  {
    skip == WholeLine || forall k :: 0 <= k < |ls| ==> !Early(h, date, hour, ls[k])
  }

  /** The lines left after a record are still passable. */
  lemma PassableAfter(h: Host, date: Option<int>, skip: Skip, hour: int, ls: seq<Line>)
    requires Passable(h, date, skip, hour, ls)
    ensures Passable(h, date, skip, hour, After(h, date, hour, ls))
  {
    if skip == AsWritten && ls != [] {
      assert !Early(h, date, hour, ls[0]);
      forall k | 0 <= k < |ls[1..]| ensures !Early(h, date, hour, ls[1..][k]) {
        assert ls[1..][k] == ls[k + 1];
      }
    }
  }

  function Head(q: seq<LogString>): Option<LogString>
  {
    if q == [] then None else Some(q[0])
  }

  /** Taking a record leaves the records after it. */
  lemma {:induction false} AfterEntries(h: Host, date: Option<int>, hour: int, ls: seq<Line>)
    ensures Pop(Entries(h, date, hour, ls), None)
      == (Entries(h, date, hour, After(h, date, hour, ls)), Head(Entries(h, date, hour, ls)))
    decreases |ls|
  {
    if ls != [] {
      var rest := Entries(h, date, hour, ls[1..]);
      if Early(h, date, hour, ls[0]) {
        assert Entries(h, date, hour, ls) == rest;
        AfterEntries(h, date, hour, ls[1..]);
      } else {
        var x := LogString(h.parseTime(hour, ls[0].time), Render(ls[0]));
        assert Entries(h, date, hour, ls) == [x] + rest;
        assert ([x] + rest)[1..] == rest;
      }
    }
  }

  lemma WellFormedTail(ls: seq<Line>)
    requires ls != [] && AllWellFormed(ls)
    ensures WellFormed(ls[0]) && AllWellFormed(ls[1..])
  {
  }

  /** The text of the first line of `ls` and what follows it. */
  lemma LineText(f: Fields, ls: seq<Line>)
    requires Reads(f, ls) && ls != []
    ensures WellFormed(ls[0])
    ensures Occurs(f.reader, f.index, Render(ls[0]))
    ensures f.reader[f.index..f.index + |Render(ls[0])|] == Render(ls[0])
    ensures Reads(NextLine(f, ls), ls[1..])
  {
    var s, p, l := f.reader, f.index, ls[0];
    WellFormedTail(ls);
    TextFirst(ls);
    OccursSplit(s, p, Render(l), Text(ls[1..]));
    OccursSlice(s, p, Render(l));
    NextReads(f, ls, p + |Render(l)|);
  }

  lemma TextFirst(ls: seq<Line>)
    requires ls != []
    ensures Text(ls) == Render(ls[0]) + Text(ls[1..])
  {
  }

  /** The lines after the first, read from the end of the first. */
  lemma NextReads(f: Fields, ls: seq<Line>, e: nat)
    requires ls != [] && e == f.index + |Render(ls[0])|
    requires e + |Text(ls[1..])| == |f.reader| && Occurs(f.reader, e, Text(ls[1..])) && AllWellFormed(ls[1..])
    ensures Reads(NextLine(f, ls), ls[1..])
  {
    var g := NextLine(f, ls);
    assert g.reader == f.reader && g.index == e && g.state == StartLogLine;
  }

  /** The time of a well-formed line is read first; the rest of the line is
      read after it. */
  lemma FirstField(s: string, p: nat, l: Line)
    requires WellFormed(l) && Occurs(s, p, Render(l))
    ensures var n := Fields(s, Duration, p + |l.time| + 1);
      && ParseField(Fields(s, StartLogLine, p)) == Returns(Yield("time", l.time, n))
      && Collect(n) == Returns((Expected(l)[1..], Fields(s, StartLogLine, p + |Render(l)|)))
  {
    var n := Fields(s, Duration, p + |l.time| + 1);
    var m := Fields(s, StartLogLine, p + |Render(l)|);
    LineRoundTrip(s, p, l);
    var r1 := l.duration + ("," + (l.event + ("," + (l.level + ("," +
      (RenderPairs(l.pairs) + Terminator(l.crlf)))))));
    assert Render(l) == l.time + ("-" + r1);
    TimeStep(s, p, l.time, r1, p + |l.time| + 1);
    match Collect(n)
    case Panics =>
    case Loops =>
    case Returns((ps, last)) =>
      assert Collect(Fields(s, StartLogLine, p)) == Returns(([("time", l.time)] + ps, last));
      assert ([("time", l.time)] + ps)[1..] == ps;
  }

  /** One step of the corrected poll after a `time` field, the line read
      to `m` holding `text`. */
  lemma PollTime(h: Host, date: Option<int>, skip: Skip, f: Fields, hour: int, v: string, n: Fields,
                 ps: seq<(string, string)>, m: Fields, text: string)
    requires FieldParser.Valid(f) && ParseField(f) == Returns(Yield("time", v, n))
    requires FieldParser.Valid(n) && Collect(n) == Returns((ps, m))
    requires f.index <= m.index <= |f.reader| && f.reader[f.index..m.index] == text
    ensures FieldParser.Valid(m)
    ensures skip == WholeLine && date.Some? && h.parseTime(hour, v) < date.value ==>
      Poll(h, date, skip, f, hour) == Poll(h, date, skip, m, hour)
    ensures !(date.Some? && h.parseTime(hour, v) < date.value) ==>
      Poll(h, date, skip, f, hour) == Returns((Some(LogString(h.parseTime(hour, v), text)), m))
  {
  }

  /** The tokenizer after the first line of `ls`. */
  function NextLine(f: Fields, ls: seq<Line>): (n: Fields)
    requires ls != []
  {
    Fields(f.reader, StartLogLine, f.index + |Render(ls[0])|)
  }

  /** At the end of the text the poll yields nothing. */
  lemma PollEnd(h: Host, date: Option<int>, skip: Skip, f: Fields, hour: int)
    requires Reads(f, [])
    ensures FieldParser.Valid(f) && Poll(h, date, skip, f, hour) == Returns((None, f))
  {
    assert f.index == |f.reader|;
  }

  /** What the tokenizer reads of the first line of a file of lines: its
      time, then the rest of the line, ending before the next line. */
  lemma FirstLine(f: Fields, ls: seq<Line>, n: Fields)
    requires Reads(f, ls) && ls != []
    requires n == Fields(f.reader, Duration, f.index + |ls[0].time| + 1)
    ensures FieldParser.Valid(f) && FieldParser.Valid(n)
    ensures ParseField(f) == Returns(Yield("time", ls[0].time, n))
    ensures Collect(n) == Returns((Expected(ls[0])[1..], NextLine(f, ls)))
    ensures f.index <= NextLine(f, ls).index <= |f.reader|
    ensures f.reader[f.index..NextLine(f, ls).index] == Render(ls[0])
    ensures Reads(NextLine(f, ls), ls[1..])
  {
    assert NextLine(f, ls).index == f.index + |Render(ls[0])|;
    LineText(f, ls);
    FirstFieldAt(f, ls[0], n, NextLine(f, ls));
  }

  /** `FirstField` at a tokenizer at the start of a line, with the
      tokenizers after the time and after the line given by name. */
  lemma FirstFieldAt(f: Fields, l: Line, n: Fields, m: Fields)
    requires f.state == StartLogLine && WellFormed(l) && Occurs(f.reader, f.index, Render(l))
    requires n == Fields(f.reader, Duration, f.index + |l.time| + 1)
    requires m == Fields(f.reader, StartLogLine, f.index + |Render(l)|)
    ensures FieldParser.Valid(f) && FieldParser.Valid(n)
    ensures ParseField(f) == Returns(Yield("time", l.time, n))
    ensures Collect(n) == Returns((Expected(l)[1..], m))
  {
    FirstField(f.reader, f.index, l);
    TimeAt(f, l, n);
  }

  /** The time of a well-formed line is read first. */
  lemma TimeAt(f: Fields, l: Line, n: Fields)
    requires f.state == StartLogLine
    requires n == Fields(f.reader, Duration, f.index + |l.time| + 1)
    requires FieldParser.Valid(Fields(f.reader, StartLogLine, f.index))
    requires ParseField(Fields(f.reader, StartLogLine, f.index)) == Returns(Yield("time", l.time, n))
    ensures FieldParser.Valid(f) && ParseField(f) == Returns(Yield("time", l.time, n))
  {
    assert f == Fields(f.reader, StartLogLine, f.index);
  }

  /** What the poll of a file of lines `ls` should give: its next record, if
      any, and the tokenizer before the lines after it. */
  function Next(h: Host, date: Option<int>, hour: int, f: Fields, ls: seq<Line>): (Option<LogString>, Fields)
    requires Reads(f, ls)
    decreases |ls|
  {
    if ls == [] then (None, f)
    else
      LineText(f, ls);
      if Early(h, date, hour, ls[0]) then Next(h, date, hour, NextLine(f, ls), ls[1..])
      else (Some(LogString(h.parseTime(hour, ls[0].time), Render(ls[0]))), NextLine(f, ls))
  }

  /** The next record is the first of the records the file should
      contribute, and the tokenizer is left before the lines after it. */
  lemma {:induction false} NextAfter(h: Host, date: Option<int>, hour: int, f: Fields, ls: seq<Line>)
    requires Reads(f, ls)
    ensures Next(h, date, hour, f, ls).0 == Head(Entries(h, date, hour, ls))
    ensures Next(h, date, hour, f, ls).1.reader == f.reader
    ensures Reads(Next(h, date, hour, f, ls).1, After(h, date, hour, ls))
    decreases |ls|
  {
    if ls == [] {
      assert After(h, date, hour, ls) == [];
    } else {
      var g := NextLine(f, ls);
      assert Reads(g, ls[1..]) by {
        LineText(f, ls);
      }
      if Early(h, date, hour, ls[0]) {
        assert After(h, date, hour, ls) == After(h, date, hour, ls[1..]);
        assert Entries(h, date, hour, ls) == Entries(h, date, hour, ls[1..]);
        NextAfter(h, date, hour, g, ls[1..]);
      } else {
        assert After(h, date, hour, ls) == ls[1..];
        var x := LogString(h.parseTime(hour, ls[0].time), Render(ls[0]));
        assert Entries(h, date, hour, ls) == [x] + Entries(h, date, hour, ls[1..]);
      }
    }
  }

  /** A file of well-formed lines: the poll yields the file's next record,
      if any, and leaves the tokenizer before the lines after it. */
  lemma {:induction false} PollLines(h: Host, date: Option<int>, skip: Skip, f: Fields, hour: int, ls: seq<Line>)
    requires Reads(f, ls) && Passable(h, date, skip, hour, ls)
    ensures FieldParser.Valid(f)
    ensures Poll(h, date, skip, f, hour) == Returns(Next(h, date, hour, f, ls))
    decreases |ls|
  {
    if ls == [] {
      PollEnd(h, date, skip, f, hour);
    } else if Early(h, date, hour, ls[0]) {
      assert skip == WholeLine;
      PollFirstEarly(h, date, skip, f, hour, ls);
      PollLines(h, date, skip, NextLine(f, ls), hour, ls[1..]);
      NextEarly(h, date, hour, f, ls);
    } else {
      PollFirstTaken(h, date, skip, f, hour, ls);
      NextTaken(h, date, hour, f, ls);
    }
  }

  /** The poll passes over a first line before the requested instant. */
  lemma PollFirstEarly(h: Host, date: Option<int>, skip: Skip, f: Fields, hour: int, ls: seq<Line>)
    requires Reads(f, ls) && ls != [] && Early(h, date, hour, ls[0]) && skip == WholeLine
    ensures FieldParser.Valid(f) && Reads(NextLine(f, ls), ls[1..])
    ensures Poll(h, date, skip, f, hour) == Poll(h, date, skip, NextLine(f, ls), hour)
  {
    var n := Fields(f.reader, Duration, f.index + |ls[0].time| + 1);
    FirstLine(f, ls, n);
    PollTime(h, date, skip, f, hour, ls[0].time, n, Expected(ls[0])[1..], NextLine(f, ls), Render(ls[0]));
  }

  /** The poll takes any other first line. */
  lemma PollFirstTaken(h: Host, date: Option<int>, skip: Skip, f: Fields, hour: int, ls: seq<Line>)
    requires Reads(f, ls) && ls != [] && !Early(h, date, hour, ls[0])
    ensures FieldParser.Valid(f)
    ensures Poll(h, date, skip, f, hour) == Returns((Some(LogString(h.parseTime(hour, ls[0].time), Render(ls[0]))), NextLine(f, ls)))
  {
    var n := Fields(f.reader, Duration, f.index + |ls[0].time| + 1);
    FirstLine(f, ls, n);
    PollTime(h, date, skip, f, hour, ls[0].time, n, Expected(ls[0])[1..], NextLine(f, ls), Render(ls[0]));
  }

  /** `Next` passes over a line before the requested instant. */
  lemma NextEarly(h: Host, date: Option<int>, hour: int, f: Fields, ls: seq<Line>)
    requires Reads(f, ls) && ls != [] && Early(h, date, hour, ls[0])
    ensures Reads(NextLine(f, ls), ls[1..])
    ensures Next(h, date, hour, f, ls) == Next(h, date, hour, NextLine(f, ls), ls[1..])
  {
    LineText(f, ls);
  }

  /** `Next` stops at any other line. */
  lemma NextTaken(h: Host, date: Option<int>, hour: int, f: Fields, ls: seq<Line>)
    requires Reads(f, ls) && ls != [] && !Early(h, date, hour, ls[0])
    ensures Next(h, date, hour, f, ls) == (Some(LogString(h.parseTime(hour, ls[0].time), Render(ls[0]))), NextLine(f, ls))
  {
  }

  /** As written, a line before the requested instant stops the reader: the
      field read after its time is `duration`, which reaches
      `unreachable!()`. */
  lemma PollSkipPanics(h: Host, date: Option<int>, f: Fields, hour: int, ls: seq<Line>)
    requires Reads(f, ls) && ls != [] && Early(h, date, hour, ls[0])
    ensures FieldParser.Valid(f)
    ensures Poll(h, date, AsWritten, f, hour) == Panics
  {
    var s, p, l := f.reader, f.index, ls[0];
    var i1 := p + |l.time| + 1;
    var r2 := l.event + ("," + (l.level + ("," + (RenderPairs(l.pairs) + Terminator(l.crlf)))));
    var r1 := l.duration + ("," + r2);
    assert Render(l) == l.time + ("-" + r1);
    LineText(f, ls);
    TimeStep(s, p, l.time, r1, i1);
    CommaStep(s, i1, l.duration, r2, i1 + |l.duration| + 1);
    var n := Fields(s, Duration, i1);
    assert Poll(h, date, AsWritten, f, hour) == Poll(h, date, AsWritten, n, hour);
  }

  // ---------------------------------------------------------------------
  // The merge computes the reference merge

  /** The files of a run as queues of the records they should contribute. */
  predicate Sim(h: Host, date: Option<int>, skip: Skip, slots: seq<Slot>, heads: seq<Option<LogString>>,
                lss: seq<seq<Line>>, qs: seq<seq<LogString>>)
  {
    && |slots| == |heads| == |lss| == |qs|
    && forall j :: 0 <= j < |slots| ==>
         && Reads(slots[j].fields, lss[j]) && Passable(h, date, skip, slots[j].hour, lss[j])
         && qs[j] == Entries(h, date, slots[j].hour, lss[j])
  }

  lemma SimSlotsOk(h: Host, date: Option<int>, skip: Skip, slots: seq<Slot>, heads: seq<Option<LogString>>,
                   lss: seq<seq<Line>>, qs: seq<seq<LogString>>)
    requires Sim(h, date, skip, slots, heads, lss, qs)
    ensures SlotsOk(slots, heads)
  {
  }

  /** What a refill from position `i` on leaves: heads before `i` and full
      heads untouched, every other head holding its file's next record. */
  predicate Filled(h: Host, date: Option<int>, slots: seq<Slot>, heads: seq<Option<LogString>>,
                   lss: seq<seq<Line>>, i: nat, ss: seq<Slot>, hs: seq<Option<LogString>>)
    requires |slots| == |heads| == |lss|
  {
    && |ss| == |slots| && |hs| == |slots|
    && forall j :: 0 <= j < |slots| ==>
         && ss[j].hour == slots[j].hour
         && (j < i || heads[j].Some? ==> ss[j] == slots[j] && hs[j] == heads[j])
         && (i <= j && heads[j].None? ==>
               && hs[j] == Head(Entries(h, date, slots[j].hour, lss[j]))
               && Reads(ss[j].fields, After(h, date, slots[j].hour, lss[j])))
  }

  /** The refill of the heads from files of well-formed lines: every empty
      head takes its file's next record. */
  lemma {:induction false} FillLines(h: Host, date: Option<int>, skip: Skip, slots: seq<Slot>, heads: seq<Option<LogString>>,
                                     lss: seq<seq<Line>>, i: nat)
    requires |slots| == |heads| == |lss| && i <= |slots|
    requires forall j :: 0 <= j < |slots| ==> Reads(slots[j].fields, lss[j]) && Passable(h, date, skip, slots[j].hour, lss[j])
    ensures SlotsOk(slots, heads)
    ensures Fill(h, date, skip, slots, heads, i).Returns?
    ensures Filled(h, date, slots, heads, lss, i, Fill(h, date, skip, slots, heads, i).value.0,
                   Fill(h, date, skip, slots, heads, i).value.1)
    decreases |slots| - i, 1
  {
    if i == |slots| {
      assert Fill(h, date, skip, slots, heads, i) == Returns((slots, heads));
      assert Filled(h, date, slots, heads, lss, i, slots, heads);
    } else if heads[i].Some? {
      FillLinesFull(h, date, skip, slots, heads, lss, i);
    } else {
      FillLinesPoll(h, date, skip, slots, heads, lss, i);
    }
  }

  /** `FillLines` at a full head. */
  lemma {:induction false} FillLinesFull(h: Host, date: Option<int>, skip: Skip, slots: seq<Slot>, heads: seq<Option<LogString>>,
                                         lss: seq<seq<Line>>, i: nat)
    requires |slots| == |heads| == |lss| && i < |slots| && heads[i].Some?
    requires forall j :: 0 <= j < |slots| ==> Reads(slots[j].fields, lss[j]) && Passable(h, date, skip, slots[j].hour, lss[j])
    ensures SlotsOk(slots, heads)
    ensures Fill(h, date, skip, slots, heads, i).Returns?
    ensures Filled(h, date, slots, heads, lss, i, Fill(h, date, skip, slots, heads, i).value.0,
                   Fill(h, date, skip, slots, heads, i).value.1)
    decreases |slots| - i, 0
  {
    FillSkip(h, date, skip, slots, heads, i);
    FillLines(h, date, skip, slots, heads, lss, i + 1);
    var ss, hs := Fill(h, date, skip, slots, heads, i + 1).value.0, Fill(h, date, skip, slots, heads, i + 1).value.1;
    FilledFull(h, date, slots, heads, lss, i, ss, hs);
  }

  lemma FillSkip(h: Host, date: Option<int>, skip: Skip, slots: seq<Slot>, heads: seq<Option<LogString>>, i: nat)
    requires SlotsOk(slots, heads) && i < |slots| && heads[i].Some?
    ensures Fill(h, date, skip, slots, heads, i) == Fill(h, date, skip, slots, heads, i + 1)
  {
  }

  lemma FilledFull(h: Host, date: Option<int>, slots: seq<Slot>, heads: seq<Option<LogString>>,
                   lss: seq<seq<Line>>, i: nat, ss: seq<Slot>, hs: seq<Option<LogString>>)
    requires |slots| == |heads| == |lss| && i < |slots| && heads[i].Some?
    requires Filled(h, date, slots, heads, lss, i + 1, ss, hs)
    ensures Filled(h, date, slots, heads, lss, i, ss, hs)
  {
  }

  /** `FillLines` at an empty head. */
  lemma {:induction false} FillLinesPoll(h: Host, date: Option<int>, skip: Skip, slots: seq<Slot>, heads: seq<Option<LogString>>,
                                         lss: seq<seq<Line>>, i: nat)
    requires |slots| == |heads| == |lss| && i < |slots| && heads[i].None?
    requires forall j :: 0 <= j < |slots| ==> Reads(slots[j].fields, lss[j]) && Passable(h, date, skip, slots[j].hour, lss[j])
    ensures SlotsOk(slots, heads)
    ensures Fill(h, date, skip, slots, heads, i).Returns?
    ensures Filled(h, date, slots, heads, lss, i, Fill(h, date, skip, slots, heads, i).value.0,
                   Fill(h, date, skip, slots, heads, i).value.1)
    decreases |slots| - i, 0
  {
    var sl := slots[i];
    PollLines(h, date, skip, sl.fields, sl.hour, lss[i]);
    NextAfter(h, date, sl.hour, sl.fields, lss[i]);
    PassableAfter(h, date, skip, sl.hour, lss[i]);
    var o, n := Poll(h, date, skip, sl.fields, sl.hour).value.0, Poll(h, date, skip, sl.fields, sl.hour).value.1;
    var slots', heads', lss' := slots[i := Slot(n, sl.hour)], heads[i := o], lss[i := After(h, date, sl.hour, lss[i])];
    FillPoll(h, date, skip, slots, heads, i, o, n);
    FillLines(h, date, skip, slots', heads', lss', i + 1);
    var ss, hs := Fill(h, date, skip, slots', heads', i + 1).value.0, Fill(h, date, skip, slots', heads', i + 1).value.1;
    FilledPoll(h, date, slots, heads, lss, i, o, n, ss, hs);
  }

  lemma FilledPoll(h: Host, date: Option<int>, slots: seq<Slot>, heads: seq<Option<LogString>>,
                   lss: seq<seq<Line>>, i: nat, o: Option<LogString>, n: Fields,
                   ss: seq<Slot>, hs: seq<Option<LogString>>)
    requires |slots| == |heads| == |lss| && i < |slots| && heads[i].None?
    requires o == Head(Entries(h, date, slots[i].hour, lss[i]))
    requires Reads(n, After(h, date, slots[i].hour, lss[i]))
    requires Filled(h, date, slots[i := Slot(n, slots[i].hour)], heads[i := o],
                    lss[i := After(h, date, slots[i].hour, lss[i])], i + 1, ss, hs)
    ensures Filled(h, date, slots, heads, lss, i, ss, hs)
  {
    var slots', heads', lss' := slots[i := Slot(n, slots[i].hour)], heads[i := o], lss[i := After(h, date, slots[i].hour, lss[i])];
    forall j | 0 <= j < |slots|
      ensures ss[j].hour == slots[j].hour
      ensures j < i || heads[j].Some? ==> ss[j] == slots[j] && hs[j] == heads[j]
      ensures i <= j && heads[j].None? ==>
             && hs[j] == Head(Entries(h, date, slots[j].hour, lss[j]))
             && Reads(ss[j].fields, After(h, date, slots[j].hour, lss[j]))
    {
      if j != i {
        assert slots'[j] == slots[j] && heads'[j] == heads[j] && lss'[j] == lss[j];
      }
    }
  }

  /** One refill step for an empty head whose poll returns. */
  lemma FillPoll(h: Host, date: Option<int>, skip: Skip, slots: seq<Slot>, heads: seq<Option<LogString>>, i: nat,
                 o: Option<LogString>, n: Fields)
    requires SlotsOk(slots, heads) && i < |slots| && heads[i].None?
    requires Poll(h, date, skip, slots[i].fields, slots[i].hour) == Returns((o, n))
    ensures FieldParser.Valid(n) && SlotsOk(slots[i := Slot(n, slots[i].hour)], heads[i := o])
    ensures Fill(h, date, skip, slots, heads, i) == Fill(h, date, skip, slots[i := Slot(n, slots[i].hour)], heads[i := o], i + 1)
  {
    MeasureUpdate(slots, heads, i, Slot(n, slots[i].hour), o);
  }

  /** The lines each file has left after a refill. */
  function Advance(h: Host, date: Option<int>, slots: seq<Slot>, heads: seq<Option<LogString>>,
                   lss: seq<seq<Line>>): (r: seq<seq<Line>>)
    requires |slots| == |heads| == |lss|
    ensures |r| == |lss|
  {
    seq(|lss|, j requires 0 <= j < |lss| =>
      if heads[j].None? then After(h, date, slots[j].hour, lss[j]) else lss[j])
  }

  /** A refill of the files does what the reference refill does to the
      queues. */
  lemma FillSim(h: Host, date: Option<int>, skip: Skip, slots: seq<Slot>, heads: seq<Option<LogString>>,
                lss: seq<seq<Line>>, qs: seq<seq<LogString>>)
    requires Sim(h, date, skip, slots, heads, lss, qs)
    ensures SlotsOk(slots, heads)
    ensures Fill(h, date, skip, slots, heads, 0).Returns?
    ensures Fill(h, date, skip, slots, heads, 0).value.1 == KFill(qs, heads).1
    ensures Sim(h, date, skip, Fill(h, date, skip, slots, heads, 0).value.0, Fill(h, date, skip, slots, heads, 0).value.1,
                Advance(h, date, slots, heads, lss), KFill(qs, heads).0)
  {
    FillLines(h, date, skip, slots, heads, lss, 0);
    var (ss, hs) := Fill(h, date, skip, slots, heads, 0).value;
    assert Filled(h, date, slots, heads, lss, 0, ss, hs);
    var (q2, h2) := KFill(qs, heads);
    var lss2 := Advance(h, date, slots, heads, lss);
    forall j | 0 <= j < |slots|
      ensures hs[j] == h2[j]
      ensures Reads(ss[j].fields, lss2[j]) && q2[j] == Entries(h, date, ss[j].hour, lss2[j])
      ensures Passable(h, date, skip, ss[j].hour, lss2[j])
    {
      assert (q2[j], h2[j]) == Pop(qs[j], heads[j]);
      if heads[j].None? {
        AfterEntries(h, date, slots[j].hour, lss[j]);
        PassableAfter(h, date, skip, slots[j].hour, lss[j]);
      }
    }
  }

  /** The merge over files of well-formed lines sends what the reference
      merge sends over their records, and finishes. */
  lemma {:induction false} MergeSim(h: Host, date: Option<int>, skip: Skip, slots: seq<Slot>, heads: seq<Option<LogString>>,
                                    lss: seq<seq<Line>>, qs: seq<seq<LogString>>)
    requires Sim(h, date, skip, slots, heads, lss, qs)
    ensures SlotsOk(slots, heads)
    ensures Merge(h, date, skip, slots, heads) == Stream(KMerge(qs, heads), Returns(()))
    decreases Measure(slots, heads)
  {
    FillSim(h, date, skip, slots, heads, lss, qs);
    var (ss, hs) := Fill(h, date, skip, slots, heads, 0).value;
    var (q2, h2) := KFill(qs, heads);
    MergeRound(h, date, skip, slots, heads, ss, hs);
    KMergeStep(qs, heads);
    if FirstMin(hs).Some? {
      MergeSim(h, date, skip, ss, hs[FirstMin(hs).value := None], Advance(h, date, slots, heads, lss), q2);
    }
  }

  /** One round of the merge, after the refill. */
  lemma MergeRound(h: Host, date: Option<int>, skip: Skip, slots: seq<Slot>, heads: seq<Option<LogString>>,
                   ss: seq<Slot>, hs: seq<Option<LogString>>)
    requires SlotsOk(slots, heads) && Fill(h, date, skip, slots, heads, 0) == Returns((ss, hs))
    ensures SlotsOk(ss, hs)
    ensures FirstMin(hs).None? ==> Merge(h, date, skip, slots, heads) == Stream([], Returns(()))
    ensures FirstMin(hs).Some? ==>
      var m := FirstMin(hs).value;
      && SlotsOk(ss, hs[m := None])
      && Measure(ss, hs[m := None]) < Measure(slots, heads)
      && Merge(h, date, skip, slots, heads)
         == Stream([hs[m].value] + Merge(h, date, skip, ss, hs[m := None]).items, Merge(h, date, skip, ss, hs[m := None]).end)
  {
    if FirstMin(hs).Some? {
      var m := FirstMin(hs).value;
      MeasureUpdate(ss, hs, m, ss[m], None);
      assert ss[m := ss[m]] == ss;
    }
  }

  /** For files of well-formed lines, a run sends every record the files
      should contribute, each once, and finishes; when every file is in
      time order, so is what is sent. */
  lemma RunMerges(h: Host, date: Option<int>, skip: Skip, slots: seq<Slot>, lss: seq<seq<Line>>)
    requires |lss| == |slots|
    requires forall j :: 0 <= j < |slots| ==> Reads(slots[j].fields, lss[j]) && Passable(h, date, skip, slots[j].hour, lss[j])
    ensures SlotsOk(slots, Nones(|slots|))
    ensures var out := Merge(h, date, skip, slots, Nones(|slots|));
      var qs := seq(|slots|, j requires 0 <= j < |slots| => Entries(h, date, slots[j].hour, lss[j]));
      && out.end == Returns(())
      && multiset(out.items) == Items(qs, Nones(|slots|))
      && ((forall j :: 0 <= j < |slots| ==> SortedByTime(qs[j])) ==> SortedByTime(out.items))
  {
    var heads := Nones(|slots|);
    var qs := seq(|slots|, j requires 0 <= j < |slots| => Entries(h, date, slots[j].hour, lss[j]));
    MergeSim(h, date, skip, slots, heads, lss, qs);
    KMergeKeepsAll(qs, heads);
    if forall j :: 0 <= j < |slots| ==> SortedByTime(qs[j]) {
      forall j | 0 <= j < |slots| ensures SlotOrdered(qs[j], heads[j], None) {}
      KMergeSorted(qs, heads, None);
    }
  }
}
