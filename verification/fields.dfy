/**
 * The journal line tokenizer of `src/parser/fields.rs`: a byte cursor over the
 * text of a log file that yields, line by line, the `time`, `duration` and
 * `event` fields, skips one unnamed field, and then yields `key=value` pairs
 * whose values may be quoted with `'` or `"`.
 *
 * One `char` of the model stands for one byte of the file; every delimiter
 * the tokenizer looks for is ASCII.
 */
module FieldParser {
  import opened Base

  /** `ParseState`. */
  datatype State = StartLogLine | Duration | EventField | Undefined | Key | Value | Finish

  /** `Fields`: the text, the parse state and the byte cursor. */
  datatype Fields = Fields(reader: string, state: State, index: nat)

  predicate Valid(f: Fields) { f.index <= |f.reader| }

  /** `Fields::new`. */
  function New(reader: string): (f: Fields)
    ensures Valid(f)
  {
    Fields(reader, StartLogLine, 0)
  }

  /** `read_byte`: the byte under the cursor and the advanced cursor; at the
      end of the text, nothing and the same cursor. */
  function ReadByte(s: string, i: nat): (r: (Option<char>, nat))
    requires i <= |s|
    ensures r.0.None? <==> i == |s|
    ensures r.1 <= |s|
    ensures r.0.None? ==> r.1 == i
    ensures r.0.Some? ==> r.0.value == s[i] && r.1 == i + 1
  {
    if i == |s| then (None, i) else (Some(s[i]), i + 1)
  }

  /** `read_until`: counts the bytes read up to and including `find` (or to
      the end of the text), drops one, and returns that many bytes from the
      start, or nothing when that leaves zero bytes. */
  function ReadUntil(s: string, i: nat, find: char): (r: (Option<string>, nat))
    requires i <= |s|
    ensures i <= r.1 <= |s|
    ensures r.0.Some? ==> r.1 >= i + 2 && |r.0.value| > 0 && find !in r.0.value
  {
    var p := ScanFor(s, i, find);
    var size := if p < |s| then p + 1 - i else |s| - i;
    var kept := if size == 0 then 0 else size - 1;
    (if kept == 0 then None else Some(s[i..i + kept]), if p < |s| then p + 1 else |s|)
  }

  /** When `find` occurs, `read_until` returns exactly the bytes before it
      (nothing if there are none) and leaves the cursor just past it. */
  lemma ReadUntilDelimited(s: string, i: nat, find: char, t: string)
    requires i + |t| < |s|
    requires s[i..i + |t|] == t && find !in t && s[i + |t|] == find
    ensures ReadUntil(s, i, find) == (if t == [] then None else Some(t), i + |t| + 1)
  {
  }

  /** Without `find` in the rest of the text, `read_until` runs to the end and
      drops the last byte it read. */
  lemma ReadUntilUndelimited(s: string, i: nat, find: char)
    requires i <= |s|
    requires find !in s[i..]
    ensures ReadUntil(s, i, find)
      == (if |s| - i <= 1 then None else Some(s[i..|s| - 1]), |s|)
  {
  }

  // ---------------------------------------------------------------------
  // `read_value`

  /** What `read_value` leaves behind: the value and the next state, or, when
      a `\r` ends the text, nothing (the `?` on the extra `read_byte`). */
  datatype ValueRead = Read(value: string, state: State, index: nat) | Stopped(index: nat)

  predicate IsValueEnd(c: char) { c == '\r' || c == '\n' || c == ',' }

  predicate IsQuote(c: char) { c == '\'' || c == '"' }

  /** `ParseValueState::Finish(c)`: `\r` eats one more byte and ends the
      line, `\n` ends the line, `,` moves on to the next key; any other byte
      is `unreachable!()`. */
  function FinishValue(s: string, value: string, c: char, i: nat): (r: Exec<ValueRead>)
    requires i <= |s|
    ensures r.Returns? ==> i <= r.value.index <= |s|
    ensures r.Returns? && r.value.Read? ==> r.value.value == value
    ensures r.Panics? <==> !IsValueEnd(c)
  {
    if c == '\r' then
      if i == |s| then Returns(Stopped(i)) else Returns(Read(value, Finish, i + 1))
    else if c == '\n' then Returns(Read(value, Finish, i))
    else if c == ',' then Returns(Read(value, Key, i))
    else Panics
  }

  /** `ParseValueState::ReadValueUntil(q)`: the value starts at `begin` and
      ends before a `q` that is not immediately doubled; a doubled quote is
      part of the value. Reaching the end of the text leaves the loop
      spinning forever. */
  function ReadQuoted(s: string, begin: nat, j: nat, q: char): (r: Exec<ValueRead>)
    requires begin <= j <= |s|
    ensures r.Returns? ==> j < r.value.index <= |s|
    decreases |s| - j
  {
    if j == |s| then Loops
    else if s[j] != q then ReadQuoted(s, begin, j + 1, q)
    else if j + 1 < |s| && s[j + 1] == q then ReadQuoted(s, begin, j + 2, q)
    else if j + 1 == |s| then Panics
    else FinishValue(s, s[begin..j], s[j + 1], j + 2)
  }

  /** `ParseValueState::ReadValueToNext`: the value starts at `begin` and runs
      to the first `,`, `\r` or `\n`; reaching the end of the text leaves the
      loop spinning forever. */
  function ReadPlain(s: string, begin: nat, j: nat): (r: Exec<ValueRead>)
    requires begin <= j <= |s|
    ensures r.Returns? ==> j < r.value.index <= |s|
    decreases |s| - j
  {
    if j == |s| then Loops
    else if IsValueEnd(s[j]) then FinishValue(s, s[begin..j], s[j], j + 1)
    else ReadPlain(s, begin, j + 1)
  }

  /** `read_value`. Calling it at the end of the text is `unreachable!()`. */
  function ReadValue(s: string, i: nat): (r: Exec<ValueRead>)
    requires i <= |s|
    ensures r.Returns? ==> i < r.value.index <= |s|
    ensures i == |s| ==> r.Panics?
  {
    if i == |s| then Panics
    else if IsValueEnd(s[i]) then FinishValue(s, "", s[i], i + 1)
    else if IsQuote(s[i]) then ReadQuoted(s, i + 1, i + 1, s[i])
    else ReadPlain(s, i, i + 1)
  }

  // ---------------------------------------------------------------------
  // `parse_field`

  datatype FieldStep = Yield(key: string, value: string, next: Fields) | NoMore(next: Fields)

  predicate StepOk(f: Fields, r: Exec<FieldStep>)
    requires Valid(f)
  {
    r.Returns? ==>
      var n := r.value.next;
      && Valid(n) && n.reader == f.reader && f.index <= n.index
      && (r.value.Yield? ==> n.index > f.index)
  }

  /** The `Value` state: read the value of `key`. */
  function ParseValue(s: string, i: nat, key: string): (r: Exec<FieldStep>)
    requires i <= |s|
    ensures StepOk(Fields(s, Value, i), r)
    ensures r.Returns? && r.value.Yield? ==> r.value.key == key
  {
    match ReadValue(s, i)
    case Panics => Panics
    case Loops => Loops
    case Returns(Stopped(j)) => Returns(NoMore(Fields(s, Value, j)))
    case Returns(Read(v, st, j)) => Returns(Yield(key, v, Fields(s, st, j)))
  }

  /** The `Key` state: read a key up to `=`, then its value. */
  function ParseKey(s: string, i: nat): (r: Exec<FieldStep>)
    requires i <= |s|
    ensures StepOk(Fields(s, Key, i), r)
  {
    match ReadUntil(s, i, '=')
    case (None, j) => Returns(NoMore(Fields(s, Key, j)))
    case (Some(k), j) => ParseValue(s, j, k)
  }

  /** `Fields::parse_field`: the next (key, value) pair of the current line,
      or nothing at the end of the line (resetting to the start of the next
      line) or when a read comes back empty. */
  function ParseField(f: Fields): (r: Exec<FieldStep>)
    requires Valid(f)
    ensures StepOk(f, r)
  {
    var s := f.reader;
    match f.state
    case StartLogLine =>
      (match ReadUntil(s, f.index, '-')
       case (None, j) => Returns(NoMore(Fields(s, StartLogLine, j)))
       case (Some(v), j) => Returns(Yield("time", v, Fields(s, Duration, j))))
    case Duration =>
      (match ReadUntil(s, f.index, ',')
       case (None, j) => Returns(NoMore(Fields(s, Duration, j)))
       case (Some(v), j) => Returns(Yield("duration", v, Fields(s, EventField, j))))
    case EventField =>
      (match ReadUntil(s, f.index, ',')
       case (None, j) => Returns(NoMore(Fields(s, EventField, j)))
       case (Some(v), j) => Returns(Yield("event", v, Fields(s, Undefined, j))))
    case Undefined =>
      (match ReadUntil(s, f.index, ',')
       case (None, j) => Returns(NoMore(Fields(s, Undefined, j)))
       case (Some(_), j) => ParseKey(s, j))
    case Key => ParseKey(s, f.index)
    case Value => ParseValue(s, f.index, "")
    case Finish => Returns(NoMore(Fields(s, StartLogLine, f.index)))
  }

  /** `Iter`: calling `parse_field` until it first returns nothing, i.e. the
      pairs of the current line; this is also what `From<Fields> for
      FieldMap` inserts. */
  function Collect(f: Fields): (r: Exec<(seq<(string, string)>, Fields)>)
    requires Valid(f)
    ensures r.Returns? ==> Valid(r.value.1) && r.value.1.reader == f.reader && f.index <= r.value.1.index
    decreases |f.reader| - f.index
  {
    match ParseField(f)
    case Panics => Panics
    case Loops => Loops
    case Returns(NoMore(n)) => Returns(([], n))
    case Returns(Yield(k, v, n)) =>
      match Collect(n)
      case Panics => Panics
      case Loops => Loops
      case Returns((ps, last)) => Returns(([(k, v)] + ps, last))
  }

  /** `Iterator::find` over `Iter`: stops at the first pair with key `name`
      without reading further. */
  function FindField(f: Fields, name: string): Exec<Option<string>>
    requires Valid(f)
    decreases |f.reader| - f.index
  {
    match ParseField(f)
    case Panics => Panics
    case Loops => Loops
    case Returns(NoMore(_)) => Returns(None)
    case Returns(Yield(k, v, n)) => if k == name then Returns(Some(v)) else FindField(n, name)
  }

  /** The value of the first pair with key `name`. */
  function FirstText(ps: seq<(string, string)>, name: string): Option<string>
  {
    if ps == [] then None else if ps[0].0 == name then Some(ps[0].1) else FirstText(ps[1..], name)
  }

  /** The lazy search agrees with searching the collected pairs whenever
      collecting succeeds. */
  lemma {:induction false} FindFieldAgreesWithCollect(f: Fields, name: string)
    requires Valid(f)
    requires Collect(f).Returns?
    ensures FindField(f, name) == Returns(FirstText(Collect(f).value.0, name))
    decreases |f.reader| - f.index
  {
    match ParseField(f)
    case Returns(NoMore(_)) =>
    case Returns(Yield(k, v, n)) =>
      if k != name {
        FindFieldAgreesWithCollect(n, name);
      }
  }

  // ---------------------------------------------------------------------
  // A well-formed journal line and what the tokenizer makes of it

  /** A value as written in the file: bare, or between quotes with every
      quote character of the content doubled. */
  datatype RawValue = Plain(text: string) | Quoted(quote: char, content: string)

  /** One journal line: `time-duration,event,level,key=value,...` ended by
      `\n` or `\r\n`. */
  datatype Line = Line(
    time: string, duration: string, event: string, level: string,
    pairs: seq<(string, RawValue)>, crlf: bool)

  function Escape(t: string, q: char): string
  {
    if t == [] then [] else (if t[0] == q then [q, q] else [t[0]]) + Escape(t[1..], q)
  }

  function RenderValue(v: RawValue): string
  {
    match v
    case Plain(t) => t
    case Quoted(q, t) => [q] + (Escape(t, q) + [q])
  }

  /** The text the tokenizer returns for a value: the bytes between the
      quotes, with doubled quotes left doubled. */
  function ValueText(v: RawValue): string
  {
    match v
    case Plain(t) => t
    case Quoted(q, t) => Escape(t, q)
  }

  function RenderPair(p: (string, RawValue)): string
  {
    p.0 + ("=" + RenderValue(p.1))
  }

  function RenderPairs(ps: seq<(string, RawValue)>): string
  {
    if ps == [] then []
    else if |ps| == 1 then RenderPair(ps[0])
    else RenderPair(ps[0]) + ("," + RenderPairs(ps[1..]))
  }

  function Terminator(crlf: bool): string { if crlf then "\r\n" else "\n" }

  function Render(l: Line): string
  {
    l.time + ("-" + (l.duration + ("," + (l.event + ("," + (l.level + ("," +
      (RenderPairs(l.pairs) + Terminator(l.crlf)))))))))
  }

  predicate ValueOk(v: RawValue)
  {
    match v
    case Plain(t) => (forall c :: c in t ==> !IsValueEnd(c)) && (t == [] || !IsQuote(t[0]))
    case Quoted(q, _) => IsQuote(q)
  }

  predicate PairOk(p: (string, RawValue))
  {
    |p.0| > 0 && '=' !in p.0 && ValueOk(p.1)
  }

  predicate WellFormed(l: Line)
  {
    && |l.time| > 0 && '-' !in l.time
    && |l.duration| > 0 && ',' !in l.duration
    && |l.event| > 0 && ',' !in l.event
    && |l.level| > 0 && ',' !in l.level
    && |l.pairs| > 0
    && forall i :: 0 <= i < |l.pairs| ==> PairOk(l.pairs[i])
  }

  function PairTexts(ps: seq<(string, RawValue)>): (r: seq<(string, string)>)
    ensures |r| == |ps|
  {
    if ps == [] then [] else [(ps[0].0, ValueText(ps[0].1))] + PairTexts(ps[1..])
  }

  /** What the tokenizer should yield for a line. */
  function Expected(l: Line): seq<(string, string)>
  {
    [("time", l.time), ("duration", l.duration), ("event", l.event)] + PairTexts(l.pairs)
  }

  /** The text of a file holding the lines `ls`. */
  function Text(ls: seq<Line>): string
  {
    if ls == [] then [] else Render(ls[0]) + Text(ls[1..])
  }

  predicate AllWellFormed(ls: seq<Line>)
  {
    ls == [] || (WellFormed(ls[0]) && AllWellFormed(ls[1..]))
  }

  lemma ReadUntilFinds(s: string, i: nat, find: char, t: string)
    requires Occurs(s, i, t) && i + |t| < |s| && s[i + |t|] == find && find !in t
    ensures ReadUntil(s, i, find) == (if t == [] then None else Some(t), i + |t| + 1)
  {
    OccursSlice(s, i, t);
    ReadUntilDelimited(s, i, find, t);
  }

  lemma {:induction false} ReadPlainSkips(s: string, begin: nat, j: nat, t: string)
    requires begin <= j && Occurs(s, j, t)
    requires forall c :: c in t ==> !IsValueEnd(c)
    ensures ReadPlain(s, begin, j) == ReadPlain(s, begin, j + |t|)
    decreases |t|
  {
    if t != [] {
      OccursIndex(s, j, t, 0);
      assert t[0] in t;
      assert [t[0]] + t[1..] == t;
      OccursSplit(s, j, [t[0]], t[1..]);
      ReadPlainSkips(s, begin, j + 1, t[1..]);
    }
  }

  lemma {:induction false} ReadQuotedSkips(s: string, begin: nat, j: nat, t: string, q: char, d: char)
    requires begin <= j && Occurs(s, j, Escape(t, q))
    requires j + |Escape(t, q)| + 1 < |s|
    requires s[j + |Escape(t, q)|] == q && s[j + |Escape(t, q)| + 1] == d && d != q
    ensures ReadQuoted(s, begin, j, q)
      == FinishValue(s, s[begin..j + |Escape(t, q)|], d, j + |Escape(t, q)| + 2)
    decreases |t|
  {
    if t != [] {
      var head := if t[0] == q then [q, q] else [t[0]];
      var rest := Escape(t[1..], q);
      assert Escape(t, q) == head + rest;
      OccursSplit(s, j, head, rest);
      OccursIndex(s, j, head, 0);
      if t[0] == q {
        OccursIndex(s, j, head, 1);
      }
      ReadQuotedSkips(s, begin, j + |head|, t[1..], q, d);
    }
  }

  /** A rendered value followed by a delimiter reads back as its text; `,`
      continues with the next key, a line end finishes the line. */
  lemma ValueRoundTrip(s: string, i: nat, v: RawValue, d: char)
    requires ValueOk(v) && IsValueEnd(d) && Occurs(s, i, RenderValue(v))
    requires i + |RenderValue(v)| + (if d == '\r' then 1 else 0) < |s|
    requires s[i + |RenderValue(v)|] == d
    ensures ReadValue(s, i) == Returns(Read(ValueText(v), if d == ',' then Key else Finish,
      i + |RenderValue(v)| + 1 + (if d == '\r' then 1 else 0)))
  {
    match v
    case Plain(t) =>
      if t != [] {
        PlainValueRoundTrip(s, i, t, d);
      }
    case Quoted(q, t) =>
      QuotedValueRoundTrip(s, i, q, t, d);
  }

  lemma PlainValueRoundTrip(s: string, i: nat, t: string, d: char)
    requires ValueOk(Plain(t)) && t != [] && IsValueEnd(d) && Occurs(s, i, t)
    requires i + |t| + (if d == '\r' then 1 else 0) < |s|
    requires s[i + |t|] == d
    ensures ReadValue(s, i) == Returns(Read(ValueText(Plain(t)), if d == ',' then Key else Finish,
      i + |t| + 1 + (if d == '\r' then 1 else 0)))
  {
    assert s[i] == t[0] && Occurs(s, i + 1, t[1..]) by {
      OccursIndex(s, i, t, 0);
      assert [t[0]] + t[1..] == t;
      OccursSplit(s, i, [t[0]], t[1..]);
    }
    assert ReadPlain(s, i, i + 1) == ReadPlain(s, i, i + |t|) by {
      forall c | c in t[1..] ensures !IsValueEnd(c) {
        assert c in t;
      }
      ReadPlainSkips(s, i, i + 1, t[1..]);
    }
    OccursSlice(s, i, t);
  }

  lemma QuotedValueRoundTrip(s: string, i: nat, q: char, t: string, d: char)
    requires ValueOk(Quoted(q, t)) && IsValueEnd(d) && Occurs(s, i, RenderValue(Quoted(q, t)))
    requires i + |RenderValue(Quoted(q, t))| + (if d == '\r' then 1 else 0) < |s|
    requires s[i + |RenderValue(Quoted(q, t))|] == d
    ensures ReadValue(s, i) == Returns(Read(ValueText(Quoted(q, t)), if d == ',' then Key else Finish,
      i + |RenderValue(Quoted(q, t))| + 1 + (if d == '\r' then 1 else 0)))
  {
    var e := Escape(t, q);
    assert s[i] == q && s[i + 1 + |e|] == q && s[i + 1..i + 1 + |e|] == e && Occurs(s, i + 1, e) by {
      OccursSplit(s, i, [q], e + [q]);
      OccursSplit(s, i + 1, e, [q]);
      OccursIndex(s, i, [q], 0);
      OccursIndex(s, i + 1 + |e|, [q], 0);
      OccursSlice(s, i + 1, e);
    }
    ReadQuotedSkips(s, i + 1, i + 1, t, q, d);
  }


  /** A rendered `key=value` pair followed by a delimiter is yielded as the
      key with the value's text. */
  lemma PairRoundTrip(s: string, i: nat, p: (string, RawValue), d: char)
    requires PairOk(p) && IsValueEnd(d) && Occurs(s, i, RenderPair(p))
    requires i + |RenderPair(p)| + (if d == '\r' then 1 else 0) < |s|
    requires s[i + |RenderPair(p)|] == d
    ensures ParseKey(s, i) == Returns(Yield(p.0, ValueText(p.1), Fields(s, if d == ',' then Key else Finish,
      i + |RenderPair(p)| + 1 + (if d == '\r' then 1 else 0))))
  {
    var v := i + |p.0| + 1;
    PairKey(s, i, p, v);
    ValueRoundTrip(s, v, p.1, d);
  }

  /** The key of a rendered pair is read up to its `=`, and its value starts
      at `v`. */
  lemma PairKey(s: string, i: nat, p: (string, RawValue), v: nat)
    requires PairOk(p) && Occurs(s, i, RenderPair(p)) && v == i + |p.0| + 1
    ensures ReadUntil(s, i, '=') == (Some(p.0), v)
    ensures Occurs(s, v, RenderValue(p.1)) && v + |RenderValue(p.1)| == i + |RenderPair(p)|
  {
    OccursSplit(s, i, p.0, "=" + RenderValue(p.1));
    OccursSplit(s, i + |p.0|, "=", RenderValue(p.1));
    OccursIndex(s, i + |p.0|, "=", 0);
    ReadUntilFinds(s, i, '=', p.0);
  }

  /** A pair followed by `,` is yielded and the next key follows. */
  lemma NextPairStep(s: string, i: nat, p: (string, RawValue), tail: string)
    requires PairOk(p) && Occurs(s, i, RenderPair(p) + ("," + tail))
    ensures ParseField(Fields(s, Key, i))
      == Returns(Yield(p.0, ValueText(p.1), Fields(s, Key, i + |RenderPair(p)| + 1)))
    ensures Occurs(s, i + |RenderPair(p)| + 1, tail)
  {
    var head := RenderPair(p);
    OccursSplit(s, i, head, "," + tail);
    OccursSplit(s, i + |head|, ",", tail);
    OccursIndex(s, i + |head|, ",", 0);
    PairRoundTrip(s, i, p, ',');
  }

  /** The last pair, followed by the line end, is yielded and the line is
      finished. */
  lemma LastPairStep(s: string, i: nat, p: (string, RawValue), crlf: bool)
    requires PairOk(p) && Occurs(s, i, RenderPair(p) + Terminator(crlf))
    ensures ParseField(Fields(s, Key, i)) == Returns(Yield(p.0, ValueText(p.1),
      Fields(s, Finish, i + |RenderPair(p)| + |Terminator(crlf)|)))
  {
    var head := RenderPair(p);
    var term := Terminator(crlf);
    OccursSplit(s, i, head, term);
    OccursIndex(s, i + |head|, term, 0);
    if crlf {
      PairRoundTrip(s, i, p, '\r');
    } else {
      PairRoundTrip(s, i, p, '\n');
    }
  }

  /** A line's last pair is its last yield. */
  lemma LastPairRoundTrip(s: string, i: nat, p: (string, RawValue), crlf: bool, e: nat)
    requires PairOk(p) && Occurs(s, i, RenderPair(p) + Terminator(crlf))
    requires e == i + |RenderPair(p) + Terminator(crlf)|
    ensures Collect(Fields(s, Key, i)) == Returns(([(p.0, ValueText(p.1))], Fields(s, StartLogLine, e)))
  {
    LastPairStep(s, i, p, crlf);
    FinishEndsLine(s, e);
    CollectCons(Fields(s, Key, i), p.0, ValueText(p.1), Fields(s, Finish, e));
    assert [(p.0, ValueText(p.1))] + [] == [(p.0, ValueText(p.1))];
  }

  /** A pair followed by `,` is yielded in front of what the rest of the
      line yields. */
  lemma ConsPairRoundTrip(s: string, i: nat, p: (string, RawValue), tail: string,
                          rest: seq<(string, string)>, last: Fields, j: nat)
    requires PairOk(p) && Occurs(s, i, RenderPair(p) + ("," + tail))
    requires j == i + |RenderPair(p)| + 1 && j <= |s|
    requires Collect(Fields(s, Key, j)) == Returns((rest, last))
    ensures Collect(Fields(s, Key, i)) == Returns(([(p.0, ValueText(p.1))] + rest, last))
  {
    NextPairStep(s, i, p, tail);
    CollectCons(Fields(s, Key, i), p.0, ValueText(p.1), Fields(s, Key, j));
  }

  /** The pairs of a line, from the `Key` state up to and including the line
      end (which ends at `e`), are yielded in order, and the following call
      ends the line. */
  lemma {:induction false} PairsRoundTrip(s: string, i: nat, ps: seq<(string, RawValue)>, crlf: bool, e: nat)
    requires |ps| > 0 && forall k :: 0 <= k < |ps| ==> PairOk(ps[k])
    requires Occurs(s, i, RenderPairs(ps) + Terminator(crlf))
    requires e == i + |RenderPairs(ps) + Terminator(crlf)|
    ensures Collect(Fields(s, Key, i)) == Returns((PairTexts(ps), Fields(s, StartLogLine, e)))
    decreases |ps|, 1
  {
    if |ps| == 1 {
      assert PairOk(ps[0]);
      assert RenderPairs(ps) == RenderPair(ps[0]) && PairTexts(ps) == [(ps[0].0, ValueText(ps[0].1))];
      LastPairRoundTrip(s, i, ps[0], crlf, e);
    } else {
      MorePairsRoundTrip(s, i, ps, crlf, e);
    }
  }

  /** The inductive step of `PairsRoundTrip`: a line with more than one pair. */
  lemma {:induction false} MorePairsRoundTrip(s: string, i: nat, ps: seq<(string, RawValue)>, crlf: bool, e: nat)
    requires |ps| > 1 && forall k :: 0 <= k < |ps| ==> PairOk(ps[k])
    requires Occurs(s, i, RenderPairs(ps) + Terminator(crlf))
    requires e == i + |RenderPairs(ps) + Terminator(crlf)|
    ensures Collect(Fields(s, Key, i)) == Returns((PairTexts(ps), Fields(s, StartLogLine, e)))
    decreases |ps|, 0
  {
    var j := i + |RenderPair(ps[0])| + 1;
    var tail := RenderPairs(ps[1..]) + Terminator(crlf);
    assert Occurs(s, j, tail) && e == j + |tail| by {
      PairsTextSplit(s, i, ps, crlf);
    }
    assert Collect(Fields(s, Key, j)) == Returns((PairTexts(ps[1..]), Fields(s, StartLogLine, e))) by {
      PairsOkTail(ps);
      PairsRoundTrip(s, j, ps[1..], crlf, e);
    }
    assert PairOk(ps[0]);
    FirstPairThenRest(s, i, ps, crlf, e, j);
  }

  /** Given what the pairs after the first yield from `j` on, the whole
      line's pairs yield the first pair in front of them. */
  lemma FirstPairThenRest(s: string, i: nat, ps: seq<(string, RawValue)>, crlf: bool, e: nat, j: nat)
    requires |ps| > 1 && PairOk(ps[0])
    requires Occurs(s, i, RenderPairs(ps) + Terminator(crlf))
    requires j == i + |RenderPair(ps[0])| + 1 && j <= |s|
    requires Collect(Fields(s, Key, j)) == Returns((PairTexts(ps[1..]), Fields(s, StartLogLine, e)))
    ensures Collect(Fields(s, Key, i)) == Returns((PairTexts(ps), Fields(s, StartLogLine, e)))
  {
    var tail := RenderPairs(ps[1..]) + Terminator(crlf);
    PairsTextSplit(s, i, ps, crlf);
    PairTextsCons(ps);
    ConsPairRoundTrip(s, i, ps[0], tail, PairTexts(ps[1..]), Fields(s, StartLogLine, e), j);
  }

  lemma PairTextsCons(ps: seq<(string, RawValue)>)
    requires ps != []
    ensures PairTexts(ps) == [(ps[0].0, ValueText(ps[0].1))] + PairTexts(ps[1..])
  {
  }

  /** The text of more than one pair is the first pair, a comma and the
      text of the others. */
  lemma PairsTextSplit(s: string, i: nat, ps: seq<(string, RawValue)>, crlf: bool)
    requires |ps| > 1 && Occurs(s, i, RenderPairs(ps) + Terminator(crlf))
    ensures var tail := RenderPairs(ps[1..]) + Terminator(crlf);
      && Occurs(s, i, RenderPair(ps[0]) + ("," + tail))
      && Occurs(s, i + |RenderPair(ps[0])| + 1, tail)
      && |RenderPairs(ps) + Terminator(crlf)| == |RenderPair(ps[0])| + 1 + |tail|
  {
    PairsTextCat(ps, crlf);
    CommaSplit(s, i, RenderPair(ps[0]), RenderPairs(ps[1..]) + Terminator(crlf));
  }

  /** A text, a comma and a tail: the tail starts after the comma. */
  lemma CommaSplit(s: string, i: nat, head: string, tail: string)
    requires Occurs(s, i, head + ("," + tail))
    ensures Occurs(s, i + |head| + 1, tail) && |head + ("," + tail)| == |head| + 1 + |tail|
  {
    OccursSplit(s, i, head, "," + tail);
    OccursSplit(s, i + |head|, ",", tail);
  }

  /** The text of more than one pair and the line end, cut after the
      first pair's comma. */
  lemma PairsTextCat(ps: seq<(string, RawValue)>, crlf: bool)
    requires |ps| > 1
    ensures RenderPairs(ps) + Terminator(crlf)
      == RenderPair(ps[0]) + ("," + (RenderPairs(ps[1..]) + Terminator(crlf)))
  {
    var head := RenderPair(ps[0]);
    var rest := RenderPairs(ps[1..]);
    assert RenderPairs(ps) == head + ("," + rest);
    AppendAssoc(head, "," + rest, Terminator(crlf));
    AppendAssoc(",", rest, Terminator(crlf));
  }

  lemma PairsOkTail(ps: seq<(string, RawValue)>)
    requires |ps| > 0 && forall k :: 0 <= k < |ps| ==> PairOk(ps[k])
    ensures forall k :: 0 <= k < |ps[1..]| ==> PairOk(ps[1..][k])
  {
    forall k | 0 <= k < |ps[1..]| ensures PairOk(ps[1..][k]) {
      assert ps[1..][k] == ps[k + 1];
    }
  }

  /** After the line end, the next call yields nothing and moves to the start
      of the next line. */
  lemma FinishEndsLine(s: string, j: nat)
    requires j <= |s|
    ensures Collect(Fields(s, Finish, j)) == Returns(([], Fields(s, StartLogLine, j)))
  {
  }

  /** Collecting after a yielded pair puts that pair in front. */
  lemma CollectCons(f: Fields, k: string, v: string, n: Fields)
    requires Valid(f) && ParseField(f) == Returns(Yield(k, v, n)) && Collect(n).Returns?
    ensures Collect(f) == Returns(([(k, v)] + Collect(n).value.0, Collect(n).value.1))
  {
  }

  /** A field followed by its delimiter is read by `read_until`, which
      leaves the cursor at what follows. */
  lemma DelimitedField(s: string, j: nat, t: string, c: char, rest: string)
    requires Occurs(s, j, t + ([c] + rest)) && c !in t
    ensures j + |t| < |s|
    ensures ReadUntil(s, j, c) == (if t == [] then None else Some(t), j + |t| + 1)
    ensures Occurs(s, j + |t| + 1, rest)
  {
    OccursSplit(s, j, t, [c] + rest);
    OccursSplit(s, j + |t|, [c], rest);
    OccursIndex(s, j + |t|, [c], 0);
    ReadUntilFinds(s, j, c, t);
  }

  /** The first field of a line is its time, up to `-`, after which the
      cursor is at `n`. */
  lemma TimeStep(s: string, j: nat, t: string, rest: string, n: nat)
    requires Occurs(s, j, t + ("-" + rest)) && '-' !in t && t != [] && n == j + |t| + 1
    ensures ParseField(Fields(s, StartLogLine, j)) == Returns(Yield("time", t, Fields(s, Duration, n)))
    ensures Occurs(s, n, rest)
  {
    DelimitedField(s, j, t, '-', rest);
  }

  /** The duration and the event are read up to `,`. */
  lemma CommaStep(s: string, j: nat, t: string, rest: string, n: nat)
    requires Occurs(s, j, t + ("," + rest)) && ',' !in t && t != [] && n == j + |t| + 1
    ensures ParseField(Fields(s, Duration, j)) == Returns(Yield("duration", t, Fields(s, EventField, n)))
    ensures ParseField(Fields(s, EventField, j)) == Returns(Yield("event", t, Fields(s, Undefined, n)))
    ensures Occurs(s, n, rest)
  {
    DelimitedField(s, j, t, ',', rest);
  }

  /** The unnamed field after the event is skipped and the same call goes on
      to read the first pair. */
  lemma LevelStep(s: string, j: nat, t: string, rest: string, n: nat)
    requires Occurs(s, j, t + ("," + rest)) && ',' !in t && t != [] && n == j + |t| + 1
    ensures n <= |s|
    ensures ParseField(Fields(s, Undefined, j)) == ParseField(Fields(s, Key, n))
    ensures Occurs(s, n, rest)
  {
    DelimitedField(s, j, t, ',', rest);
  }

  /** A call that behaves like another collects like it too. */
  lemma CollectSameStep(f: Fields, g: Fields)
    requires Valid(f) && Valid(g) && ParseField(f) == ParseField(g)
    ensures Collect(f) == Collect(g)
  {
  }

  /** Putting the header fields in front of what the pairs yield. */
  lemma HeaderThenPairs(s: string, i: nat, l: Line, i1: nat, i2: nat, i3: nat, i4: nat, e: nat)
    requires i <= i1 <= i2 <= i3 <= i4 <= e <= |s|
    requires ParseField(Fields(s, StartLogLine, i)) == Returns(Yield("time", l.time, Fields(s, Duration, i1)))
    requires ParseField(Fields(s, Duration, i1)) == Returns(Yield("duration", l.duration, Fields(s, EventField, i2)))
    requires ParseField(Fields(s, EventField, i2)) == Returns(Yield("event", l.event, Fields(s, Undefined, i3)))
    requires ParseField(Fields(s, Undefined, i3)) == ParseField(Fields(s, Key, i4))
    requires Collect(Fields(s, Key, i4)) == Returns((PairTexts(l.pairs), Fields(s, StartLogLine, e)))
    ensures Collect(Fields(s, StartLogLine, i)) == Returns((Expected(l), Fields(s, StartLogLine, e)))
  {
    var ps := PairTexts(l.pairs);
    CollectSameStep(Fields(s, Undefined, i3), Fields(s, Key, i4));
    CollectCons(Fields(s, EventField, i2), "event", l.event, Fields(s, Undefined, i3));
    CollectCons(Fields(s, Duration, i1), "duration", l.duration, Fields(s, EventField, i2));
    CollectCons(Fields(s, StartLogLine, i), "time", l.time, Fields(s, Duration, i1));
    ExpectedShape(l);
  }

  lemma ExpectedShape(l: Line)
    ensures Expected(l)
      == [("time", l.time)] + ([("duration", l.duration)] + ([("event", l.event)] + PairTexts(l.pairs)))
  {
  }

  /** A well-formed line is tokenized into `time`, `duration`, `event` and its
      pairs, in that order, with the level field skipped; afterwards the
      cursor stands at the start of the next line, ready to read it. */
  lemma LineRoundTrip(s: string, i: nat, l: Line)
    requires WellFormed(l) && Occurs(s, i, Render(l))
    ensures Collect(Fields(s, StartLogLine, i))
      == Returns((Expected(l), Fields(s, StartLogLine, i + |Render(l)|)))
  {
    LineRoundTripTo(s, i, l, i + |Render(l)|);
  }

  /** `LineRoundTrip` with the end of the line named `e`. */
  lemma LineRoundTripTo(s: string, i: nat, l: Line, e: nat)
    requires WellFormed(l) && Occurs(s, i, Render(l)) && e == i + |Render(l)|
    ensures Collect(Fields(s, StartLogLine, i)) == Returns((Expected(l), Fields(s, StartLogLine, e)))
  {
    var i1 := i + |l.time| + 1;
    var i2 := i1 + |l.duration| + 1;
    var i3 := i2 + |l.event| + 1;
    var i4 := i3 + |l.level| + 1;
    var rest := RenderPairs(l.pairs) + Terminator(l.crlf);
    var r3 := l.level + ("," + rest);
    var r2 := l.event + ("," + r3);
    var r1 := l.duration + ("," + r2);
    assert e == i4 + |rest|;
    TimeStep(s, i, l.time, r1, i1);
    CommaStep(s, i1, l.duration, r2, i2);
    CommaStep(s, i2, l.event, r3, i3);
    LevelStep(s, i3, l.level, rest, i4);
    PairsRoundTrip(s, i4, l.pairs, l.crlf, e);
    HeaderThenPairs(s, i, l, i1, i2, i3, i4, e);
  }
}
