/**
 * The older generation of the journal reader, `src/parser.rs`: a state
 * machine over the bytes of one log file that turns every line into a
 * record holding the instant of the line and an insertion-ordered map of
 * its fields. The file is read whole, its first character (the byte-order
 * mark) is dropped, and the date and hour of the lines come from the path.
 *
 * One `char` of the model stands for one byte of the file; the byte-order
 * mark counts as one character.
 */
module LegacyParser {
  import opened Base
  import opened Host
  import opened Calendar
  import FieldParser

  // ---------------------------------------------------------------------
  // `IndexMap<String, String>`

  /** The map of a record: its pairs in insertion order. */
  type FieldList = seq<(string, string)>

  /** `LogString` of the older reader: the instant and the fields. */
  datatype Record = Record(time: int, fields: FieldList)

  predicate UniqueKeys(m: FieldList)
  {
    forall a, b :: 0 <= a < b < |m| ==> m[a].0 != m[b].0
  }

  function Keys(m: FieldList): (ks: seq<string>)
    ensures |ks| == |m| && forall j :: 0 <= j < |m| ==> ks[j] == m[j].0
  {
    seq(|m|, j requires 0 <= j < |m| => m[j].0)
  }

  /** The position of the first pair with key `k`. */
  function KeyIndex(m: FieldList, k: string): (r: Option<nat>)
    ensures r.Some? ==> r.value < |m| && m[r.value].0 == k
    ensures r.Some? ==> forall j :: 0 <= j < r.value ==> m[j].0 != k
    ensures r.None? ==> forall j :: 0 <= j < |m| ==> m[j].0 != k
    decreases |m|
  {
    if m == [] then None
    else if m[0].0 == k then Some(0)
    else match KeyIndex(m[1..], k)
      case None => None
      case Some(j) => Some(j + 1)
  }

  /** `IndexMap::get`. */
  function Get(m: FieldList, k: string): (r: Option<string>)
    ensures r.None? <==> forall j :: 0 <= j < |m| ==> m[j].0 != k
  {
    match KeyIndex(m, k)
    case None => None
    case Some(j) => Some(m[j].1)
  }

  /** `IndexMap::insert`: a key already present takes the new value in its
      place; a new key goes last. */
  function Insert(m: FieldList, k: string, v: string): (r: FieldList)
  {
    match KeyIndex(m, k)
    case None => m + [(k, v)]
    case Some(j) => m[j := (k, v)]
  }

  /** After an insertion the key holds the new value, and every other key
      holds what it held before. */
  lemma InsertGet(m: FieldList, k: string, v: string)
    ensures Get(Insert(m, k, v), k) == Some(v)
    ensures forall k' :: k' != k ==> Get(Insert(m, k, v), k') == Get(m, k')
  {
    match KeyIndex(m, k)
    case None =>
      var r := m + [(k, v)];
      assert r[|m|] == (k, v);
      assert forall j :: 0 <= j < |m| ==> r[j] == m[j];
      GetAppend(m, (k, v));
    case Some(j) =>
      var r := m[j := (k, v)];
      forall k' ensures KeyIndex(r, k') == KeyIndex(m, k') {
        KeyIndexSameKeys(m, r, k');
      }
  }

  /** Two maps with the same keys in the same order find every key at the
      same place. */
  lemma KeyIndexSameKeys(m: FieldList, r: FieldList, k: string)
    requires |r| == |m| && forall i :: 0 <= i < |m| ==> r[i].0 == m[i].0
    ensures KeyIndex(r, k) == KeyIndex(m, k)
  {
  }

  /** An insertion keeps the order of the keys, adding a new key last. */
  lemma InsertKeys(m: FieldList, k: string, v: string)
    ensures Keys(Insert(m, k, v)) == if Get(m, k).Some? then Keys(m) else Keys(m) + [k]
  {
    match KeyIndex(m, k)
    case None =>
    case Some(j) =>
      assert Keys(m[j := (k, v)]) == Keys(m);
  }

  /** An insertion never duplicates a key. */
  lemma InsertUnique(m: FieldList, k: string, v: string)
    ensures UniqueKeys(m) ==> UniqueKeys(Insert(m, k, v))
  {
    match KeyIndex(m, k)
    case None =>
      var r := m + [(k, v)];
      assert forall j :: 0 <= j < |m| ==> r[j] == m[j];
    case Some(j) =>
      var r := m[j := (k, v)];
      assert forall i :: 0 <= i < |m| ==> r[i].0 == m[i].0;
  }

  /** Appending a pair leaves every other key as it was. */
  lemma GetAppend(m: FieldList, p: (string, string))
    ensures forall k :: k != p.0 ==> Get(m + [p], k) == Get(m, k)
  {
    forall k | k != p.0 ensures Get(m + [p], k) == Get(m, k) {
      var r := m + [p];
      assert forall j :: 0 <= j < |m| ==> r[j] == m[j];
      assert r[|m|] == p;
      match KeyIndex(m, k)
      case None =>
        assert KeyIndex(r, k).None?;
      case Some(j) =>
        assert KeyIndex(r, k) == Some(j);
    }
  }

  /** The pairs `ps` inserted one after the other. */
  function InsertAll(m: FieldList, ps: seq<(string, string)>): (r: FieldList)
    ensures UniqueKeys(m) ==> UniqueKeys(r)
    decreases |ps|
  {
    if ps == [] then m
    else
      InsertUnique(m, ps[0].0, ps[0].1);
      InsertAll(Insert(m, ps[0].0, ps[0].1), ps[1..])
  }

  /** The value of the last of the pairs `ps` with key `k`. */
  function LastText(ps: seq<(string, string)>, k: string): (r: Option<string>)
    ensures r.None? <==> forall j :: 0 <= j < |ps| ==> ps[j].0 != k
    decreases |ps|
  {
    if ps == [] then None
    else if ps[|ps| - 1].0 == k then Some(ps[|ps| - 1].1)
    else LastText(ps[..|ps| - 1], k)
  }

  lemma {:induction false} LastTextCons(ps: seq<(string, string)>, k: string)
    requires ps != []
    ensures LastText(ps, k)
      == if LastText(ps[1..], k).Some? then LastText(ps[1..], k)
         else if ps[0].0 == k then Some(ps[0].1) else None
    decreases |ps|
  {
    if |ps| > 1 {
      var init := ps[..|ps| - 1];
      assert init[1..] == ps[1..][..|ps[1..]| - 1];
      assert ps[1..][|ps[1..]| - 1] == ps[|ps| - 1];
      assert init[0] == ps[0];
      LastTextCons(init, k);
    }
  }

  /** Inserting pairs one after the other leaves each key with the value of
      its last pair, and every other key as it was. */
  lemma {:induction false} InsertAllGet(m: FieldList, ps: seq<(string, string)>, k: string)
    ensures Get(InsertAll(m, ps), k)
      == if LastText(ps, k).Some? then LastText(ps, k) else Get(m, k)
    decreases |ps|
  {
    if ps != [] {
      InsertAllGet(Insert(m, ps[0].0, ps[0].1), ps[1..], k);
      InsertGet(m, ps[0].0, ps[0].1);
      LastTextCons(ps, k);
    }
  }

  /** Inserting a pair whose key is present replaces the value in place and
      keeps the number of entries. */
  lemma InsertPresent(m: FieldList, k: string, v: string)
    requires Get(m, k).Some?
    ensures |Insert(m, k, v)| == |m|
  {
  }

  // ---------------------------------------------------------------------
  // Scanning and numbers

  /** `LogParser::read_until`: the position of the first `search` at or
      after `i`, or nothing when the text ends first. */
  function Find(s: string, i: nat, search: char): (r: Option<nat>)
    requires i <= |s|
    ensures r.Some? ==> i <= r.value < |s| && s[r.value] == search
    ensures r.Some? ==> forall k :: i <= k < r.value ==> s[k] != search
    ensures r.None? ==> forall k :: i <= k < |s| ==> s[k] != search
  {
    var p := ScanFor(s, i, search);
    if p < |s| then Some(p) else None
  }

  const U32Limit: nat := 0x1_0000_0000

  /** `u32::from_str`: an optional `+`, then one or more ASCII digits,
      accumulated from the left with checked arithmetic. */
  function ParseU32(t: string): (r: Option<nat>)
    ensures r.Some? ==> r.value < U32Limit
    ensures r.Some? ==> t != [] && (t[0] == '+' || IsDigit(t[0]))
  {
    var d := if t != [] && t[0] == '+' then t[1..] else t;
    if d == [] then None else Accumulate(d, 0)
  }

  /** The digits of `d` appended one by one to the value `acc`; a character
      that is not a digit, or a value of 2^32 or more, fails. */
  function Accumulate(d: string, acc: nat): (r: Option<nat>)
    requires acc < U32Limit
    ensures r.Some? ==> r.value < U32Limit
    ensures r.Some? && d != [] ==> IsDigit(d[0])
    decreases |d|
  {
    if d == [] then Some(acc)
    else if !IsDigit(d[0]) then None
    else if acc * 10 + DigitValue(d[0]) >= U32Limit then None
    else Accumulate(d[1..], acc * 10 + DigitValue(d[0]))
  }

  /** One more digit on the right multiplies the value by ten. */
  lemma DigitsSnoc(p: string, c: char)
    requires AllDigits(p) && IsDigit(c)
    ensures AllDigits(p + [c]) && DigitsValue(p + [c]) == DigitsValue(p) * 10 + DigitValue(c)
  {
    assert (p + [c])[..|p|] == p;
  }

  /** A digit string is worth at least as much as any of its prefixes. */
  lemma {:induction false} DigitsPrefix(p: string, d: string)
    requires AllDigits(p) && AllDigits(d) && AllDigits(p + d)
    ensures DigitsValue(p) <= DigitsValue(p + d)
    decreases |d|
  {
    if d == [] {
      assert p + d == p;
    } else {
      var e := d[..|d| - 1];
      assert (p + d)[..|p + d| - 1] == p + e;
      assert AllDigits(p + e) by {
        forall k | 0 <= k < |p + e| ensures IsDigit((p + e)[k]) {
          assert (p + e)[k] == (p + d)[k];
        }
      }
      DigitsPrefix(p, e);
    }
  }

  /** Accumulating the digits `d` after the prefix `p` gives the value of
      the whole string, or fails exactly when that value needs more than 32
      bits: an intermediate value never exceeds the final one. */
  lemma {:induction false} AccumulateDigits(p: string, d: string)
    requires AllDigits(p) && AllDigits(d) && DigitsValue(p) < U32Limit
    ensures AllDigits(p + d)
    ensures Accumulate(d, DigitsValue(p))
      == if DigitsValue(p + d) < U32Limit then Some(DigitsValue(p + d)) else None
    decreases |d|
  {
    assert AllDigits(p + d) by {
      forall k | 0 <= k < |p + d| ensures IsDigit((p + d)[k]) {
        if k >= |p| { assert (p + d)[k] == d[k - |p|]; }
      }
    }
    if d == [] {
      assert p + d == p;
    } else {
      var q := p + [d[0]];
      DigitsSnoc(p, d[0]);
      assert q + d[1..] == p + d;
      if DigitsValue(q) >= U32Limit {
        DigitsPrefix(q, d[1..]);
      } else {
        AccumulateDigits(q, d[1..]);
      }
    }
  }

  /** A 32-bit number written in decimal, with or without `+`, reads back;
      the empty text, a lone sign and a minus sign do not. */
  lemma ParseU32RoundTrip(n: nat)
    requires n < U32Limit
    ensures ParseU32(NatToDigits(n)) == Some(n)
    ensures ParseU32("+" + NatToDigits(n)) == Some(n)
    ensures ParseU32("") == None && ParseU32("+") == None
    ensures ParseU32("-" + NatToDigits(n)) == None
  {
    var d := NatToDigits(n);
    NatToDigitsRoundTrip(n);
    ParseU32Digits(d);
    assert ("+" + d)[1..] == d;
    assert ("-" + d)[0] == '-' && !IsDigit('-');
  }

  /** A digit string reads as its value when that fits in 32 bits. */
  lemma ParseU32Digits(d: string)
    requires d != [] && AllDigits(d)
    ensures ParseU32(d) == if DigitsValue(d) < U32Limit then Some(DigitsValue(d)) else None
  {
    assert IsDigit(d[0]);
    AccumulateDigits([], d);
    assert [] + d == d;
  }

  // ---------------------------------------------------------------------
  // The instant of a line

  /** A fraction of `count` digits whose digits read `f`, in nanoseconds:
      milliseconds up to three digits, microseconds up to six, nanoseconds
      beyond. */
  function Scaled(f: nat, count: nat): (n: nat)
    ensures n >= f
  {
    if count <= 3 then f * 1_000_000 else if count <= 6 then f * 1_000 else f
  }

  /** `date.date().and_hms_nano(date.time().hour(), mm, ss, nano)`: the
      instant `mm:ss` and `nano` nanoseconds into the hour of `date`; an
      impossible time panics. The hour of an instant is always below 24, so
      only the minutes, seconds and fraction can be out of range, and the
      day and hour of `date` together are the start of its hour. */
  function Instant(date: int, mm: nat, ss: nat, nano: nat): (r: Exec<int>)
    ensures !r.Loops?
    ensures r.Returns? <==> mm < 60 && ss < 60 && nano < 2 * NanosPerSecond
    ensures r.Returns? ==> HourStart(date) <= r.value < HourStart(date) + NanosPerHour + NanosPerSecond
  {
    match TimeOfDay(0, mm, ss, nano)
    case None => Panics
    case Some(d) => Returns(HourStart(date) + d)
  }

  /** The instant of a line's first segment `MM:SS.fff-…` in a file of the
      hour `date`: the day and hour of `date`, the minutes before the first
      `:`, the seconds up to the first `.`, and the fraction up to the first
      `-`, scaled by its number of digits. A missing separator, separators
      out of order, a field that is not a 32-bit number and an impossible
      time all panic. (`from_hms_milli` and `from_hms_micro` multiply in 32
      bits first; a product that overflows is also at least two seconds, so
      it panics either way.) */
  function SegmentTime(date: int, t: string): (r: Exec<int>)
    ensures !r.Loops?
    ensures IndexOf(t, ':').None? || IndexOf(t, '.').None? || IndexOf(t, '-').None? ==> r.Panics?
    ensures r.Returns? ==> HourStart(date) <= r.value < HourStart(date) + NanosPerHour + NanosPerSecond
  {
    match (IndexOf(t, ':'), IndexOf(t, '.'), IndexOf(t, '-'))
    case (Some(mp), Some(sp), Some(np)) =>
      if sp < mp + 1 || np < sp + 1 then Panics
      else SegmentAt(date, t, mp, sp, np)
    case _ => Panics
  }

  /** The instant of a first segment whose separators are at `mp`, `sp` and
      `np`. */
  function SegmentAt(date: int, t: string, mp: nat, sp: nat, np: nat): (r: Exec<int>)
    requires mp < sp < np <= |t|
    ensures !r.Loops?
    ensures r.Returns? ==> HourStart(date) <= r.value < HourStart(date) + NanosPerHour + NanosPerSecond
  {
    match (ParseU32(t[..mp]), ParseU32(t[mp + 1..sp]), ParseU32(t[sp + 1..np]))
    case (Some(mm), Some(ss), Some(f)) => Instant(date, mm, ss, Scaled(f, np - sp - 1))
    case _ => Panics
  }

  // ---------------------------------------------------------------------
  // Values

  /** `ParseValueState::BeginParse` and what follows it: the value and the
      position of the byte that ends it (`ParseValueState::Finish`). A line
      end or `,` right away is the empty value; a quote opens a quoted
      value; anything else starts a bare one. The end of the text is
      `unreachable!()`. */
  function BeginValue(s: string, i: nat): (r: Exec<(string, nat)>)
    requires i <= |s|
    ensures r.Returns? ==> i <= r.value.1 < |s|
    ensures i == |s| ==> r.Panics?
    ensures r.Returns? && !FieldParser.IsQuote(s[i]) ==> FieldParser.IsValueEnd(s[r.value.1])
  {
    if i == |s| then Panics
    else if FieldParser.IsValueEnd(s[i]) then Returns(("", i))
    else if FieldParser.IsQuote(s[i]) then ReadQuoted(s, i + 1, i + 1, s[i])
    else ReadPlain(s, i, i + 1)
  }

  /** `ParseValueState::ReadValueUntil(quote)`: either quote character
      followed by the same character is skipped as a pair; `quote` on its
      own ends the value, and the byte after it is taken as the value's end.
      A quote character on the last byte is read past the end of the text,
      and running out of text leaves `end` at 0, so that the slice from the
      value's start panics. */
  function ReadQuoted(s: string, begin: nat, j: nat, quote: char): (r: Exec<(string, nat)>)
    requires 0 < begin <= j <= |s|
    ensures !r.Loops?
    ensures r.Returns? ==> j < r.value.1 < |s| && s[r.value.1 - 1] == quote
    ensures r.Returns? ==> r.value.0 == s[begin..r.value.1 - 1]
    decreases |s| - j
  {
    if j == |s| then Panics
    else if !FieldParser.IsQuote(s[j]) then ReadQuoted(s, begin, j + 1, quote)
    else if j + 1 == |s| then Panics
    else if s[j + 1] == s[j] then ReadQuoted(s, begin, j + 2, quote)
    else if s[j] == quote then Returns((s[begin..j], j + 1))
    else ReadQuoted(s, begin, j + 1, quote)
  }

  /** `ParseValueState::ReadValueToNext`: the value runs from `begin` to the
      first `,`, `\r` or `\n`; when the text ends first, the loop around it
      spins forever. */
  function ReadPlain(s: string, begin: nat, j: nat): (r: Exec<(string, nat)>)
    requires begin <= j <= |s|
    ensures !r.Panics?
    ensures r.Loops? <==> forall k :: j <= k < |s| ==> !FieldParser.IsValueEnd(s[k])
    ensures r.Returns? ==> var e := r.value.1;
      && j <= e < |s| && FieldParser.IsValueEnd(s[e])
      && (forall k :: j <= k < e ==> !FieldParser.IsValueEnd(s[k]))
      && r.value.0 == s[begin..e]
    decreases |s| - j
  {
    if j == |s| then Loops
    else if FieldParser.IsValueEnd(s[j]) then Returns((s[begin..j], j))
    else ReadPlain(s, begin, j + 1)
  }

  // ---------------------------------------------------------------------
  // Lines and files

  // The states of the loop in `parse_file`, one function each. The
  // iterator and `last_index` are both at position `i` whenever the state
  // changes, so one position stands for both; `t` and `m` are the instant
  // and the fields of the `LogString` being filled. Each state returns what
  // the line ends with: the record sent at `ParseState::Finish` and the
  // position after it.

  /** `ParseState::StartLogLine` with a fresh `LogString`: the first segment
      up to `,` gives the instant, and `EventField` follows. With no `,`
      left the file is done. */
  function ParseLine(date: int, s: string, i: nat): (r: Exec<Option<(Record, nat)>>)
    requires i <= |s|
    ensures r == Returns(None) <==> Find(s, i, ',').None?
    ensures r.Returns? && r.value.Some? ==> i < r.value.value.1 <= |s|
    ensures r.Returns? && r.value.Some? ==> UniqueKeys(r.value.value.0.fields)
  {
    match Find(s, i, ',')
    case None => Returns(None)
    case Some(e) => LineFrom(date, s, i, e)
  }

  /** `StartLogLine` once the `,` after the first segment is found at `e`:
      the segment gives the instant, or the line panics. */
  function LineFrom(date: int, s: string, i: nat, e: nat): (r: Exec<Option<(Record, nat)>>)
    requires i <= e < |s|
    ensures r.Returns? ==> r.value.Some? && i < r.value.value.1 <= |s|
    ensures r.Returns? ==> UniqueKeys(r.value.value.0.fields)
  {
    match SegmentTime(date, s[i..e])
    case Panics => Panics
    case Loops => Loops
    case Returns(t) => ReadField(EventField, date, s, e + 1, t, [])
  }

  /** The states of `ParseState` that read up to a separator. */
  datatype Stage = EventField | Duration | Key

  /** `ParseState::EventField` and `ParseState::Duration` store the text up
      to the next `,` as `event` and `duration`; `ParseState::Key` takes the
      text up to the next `=` as the key. With no separator left the
      `unwrap` panics. */
  function ReadField(st: Stage, date: int, s: string, i: nat, t: int, m: FieldList)
    : (r: Exec<Option<(Record, nat)>>)
    requires i <= |s|
    ensures r.Returns? ==> r.value.Some? && i < r.value.value.1 <= |s|
    ensures r.Returns? && UniqueKeys(m) ==> UniqueKeys(r.value.value.0.fields)
    decreases |s| - i, 2
  {
    match st
    case EventField =>
      (match Find(s, i, ',')
       case None => Panics
       case Some(e) =>
         InsertUnique(m, "event", s[i..e]);
         ReadField(Duration, date, s, e + 1, t, Insert(m, "event", s[i..e])))
    case Duration =>
      (match Find(s, i, ',')
       case None => Panics
       case Some(e) =>
         InsertUnique(m, "duration", s[i..e]);
         ReadField(Key, date, s, e + 1, t, Insert(m, "duration", s[i..e])))
    case Key =>
      match Find(s, i, '=')
      case None => Panics
      case Some(k) => ValueField(date, s, k + 1, s[i..k], t, m)
  }

  /** `ParseState::Value`: the value is read and the pair inserted. */
  function ValueField(date: int, s: string, i: nat, key: string, t: int, m: FieldList)
    : (r: Exec<Option<(Record, nat)>>)
    requires i <= |s|
    ensures r.Returns? ==> r.value.Some? && i < r.value.value.1 <= |s|
    ensures r.Returns? && UniqueKeys(m) ==> UniqueKeys(r.value.value.0.fields)
    decreases |s| - i, 1
  {
    match BeginValue(s, i)
    case Panics => Panics
    case Loops => Loops
    case Returns((v, at)) =>
      InsertUnique(m, key, v);
      AfterValue(date, s, at, t, Insert(m, key, v))
  }

  /** `ParseValueState::Finish` for the byte at `at` that ended a value, the
      pair already inserted: `,` reads the next key, `\n` finishes the line,
      `\r` finishes it and skips one more byte (panicking at the end of the
      text), and any other byte is `unreachable!()`. */
  function AfterValue(date: int, s: string, at: nat, t: int, m: FieldList): (r: Exec<Option<(Record, nat)>>)
    requires at < |s|
    ensures r.Returns? ==> r.value.Some? && at < r.value.value.1 <= |s|
    ensures r.Returns? && UniqueKeys(m) ==> UniqueKeys(r.value.value.0.fields)
    decreases |s| - at, 0
  {
    if s[at] == ',' then ReadField(Key, date, s, at + 1, t, m)
    else if s[at] == '\n' then Returns(Some((Record(t, m), at + 1)))
    else if s[at] == '\r' then (if at + 1 < |s| then Returns(Some((Record(t, m), at + 2))) else Panics)
    else Panics
  }

  /** The map after the `EventField` and `Duration` states. */
  function Header(event: string, duration: string): (m: FieldList)
    ensures UniqueKeys(m)
  {
    [("event", event), ("duration", duration)]
  }

  /** The header is what inserting `event` and then `duration` into an empty
      map gives. */
  lemma HeaderInserts(event: string, duration: string)
    ensures Header(event, duration) == Insert(Insert([], "event", event), "duration", duration)
  {
    var m1 := Insert([], "event", event);
    assert m1 == [("event", event)];
  }

  /** The records sent for the text from `i` on: each one as its line is
      finished; a line that panics or spins ends the thread. */
  function Records(date: int, s: string, i: nat): (r: Stream<Record>)
    requires i <= |s|
    ensures |r.items| <= |s| - i
    decreases |s| - i
  {
    match ParseLine(date, s, i)
    case Panics => Stream([], Panics)
    case Loops => Stream([], Loops)
    case Returns(None) => Stream([], Returns(()))
    case Returns(Some((rec, n))) =>
      var rest := Records(date, s, n);
      Stream([rec] + rest.items, rest.end)
  }

  /** No record of a file has a key twice. */
  lemma {:induction false} RecordsUnique(date: int, s: string, i: nat)
    requires i <= |s|
    ensures forall k :: 0 <= k < |Records(date, s, i).items| ==> UniqueKeys(Records(date, s, i).items[k].fields)
    decreases |s| - i
  {
    match ParseLine(date, s, i)
    case Panics =>
    case Loops =>
    case Returns(None) =>
    case Returns(Some((rec, n))) =>
      RecordsUnique(date, s, n);
  }

  /** `LogParser::parse_file` over the contents of a file: the first
      character is removed (which panics on an empty file) and the hour is
      taken from the path. */
  function ParseFile(h: Host, path: string, data: string): (r: Stream<Record>)
    ensures data == [] ==> r == Stream([], Panics)
    ensures PathHour(h, path).Panics? ==> r.items == [] && !r.end.Returns?
  {
    if data == [] then Stream([], Panics)
    else
      match PathHour(h, path)
      case Panics => Stream([], Panics)
      case Loops => Stream([], Loops)
      case Returns(date) => Records(date, data[1..], 0)
  }

  /** A file met by the directory walk: its path, its name and its contents. */
  datatype Entry = Entry(path: string, name: string, data: string)

  /** `LogParser::parse_dir`: every file named with eight decimal digits,
      of any script, and `.log`, in the order of the walk; a file whose
      reading does not finish ends the thread. */
  function ParseDir(h: Host, es: seq<Entry>): (r: Stream<Record>)
    decreases |es|
  {
    if es == [] then Stream([], Returns(()))
    else if !IsLogName(h, es[0].name) then ParseDir(h, es[1..])
    else
      var first := ParseFile(h, es[0].path, es[0].data);
      if !first.end.Returns? then first
      else
        var rest := ParseDir(h, es[1..]);
        Stream(first.items + rest.items, rest.end)
  }


  // ---------------------------------------------------------------------
  // A well-formed line, read by the older reader

  /** The time of a line as the journal writes it, `MM:SS.fff…`: minutes,
      seconds and a fraction of a second. */
  datatype Clock = Clock(min: string, sec: string, frac: string)

  function ClockText(c: Clock): string
  {
    c.min + (":" + (c.sec + ("." + c.frac)))
  }

  predicate ClockOk(c: Clock)
  {
    && c.min != [] && c.sec != [] && c.frac != []
    && AllDigits(c.min) && AllDigits(c.sec) && AllDigits(c.frac)
  }

  /** The instant a clock stands for in the hour `date`, if it is a time of
      day: a fraction of three digits or fewer counts milliseconds, of four
      to six microseconds, of more nanoseconds. */
  function ClockTime(date: int, c: Clock): Option<int>
    requires ClockOk(c)
  {
    match TimeOfDay(0, DigitsValue(c.min), DigitsValue(c.sec), Scaled(DigitsValue(c.frac), |c.frac|))
    case None => None
    case Some(d) => Some(HourStart(date) + d)
  }

  /** A line the older reader can read: well formed for the newer tokenizer,
      with a clock for its time that is a time of day. */
  predicate LineOk(date: int, l: FieldParser.Line, c: Clock)
  {
    && FieldParser.WellFormed(l) && ClockOk(c) && l.time == ClockText(c)
    && ClockTime(date, c).Some?
  }

  /** The record the older reader should make of such a line: the clock's
      instant; `event` holding the event and `duration` holding the level
      field, then the line's pairs inserted in order. */
  function Expected(date: int, l: FieldParser.Line, c: Clock): Record
    requires LineOk(date, l, c)
  {
    Record(ClockTime(date, c).value, InsertAll(Header(l.event, l.level), FieldParser.PairTexts(l.pairs)))
  }

  /** Each line has its clock, and each is a line the older reader can read. */
  predicate AllLinesOk(date: int, ls: seq<FieldParser.Line>, cs: seq<Clock>)
    decreases |ls|
  {
    |cs| == |ls| && (ls == [] || (LineOk(date, ls[0], cs[0]) && AllLinesOk(date, ls[1..], cs[1..])))
  }

  /** The records those lines should give, in order. */
  function ExpectedAll(date: int, ls: seq<FieldParser.Line>, cs: seq<Clock>): (r: seq<Record>)
    requires AllLinesOk(date, ls, cs)
    ensures |r| == |ls|
    decreases |ls|
  {
    if ls == [] then [] else [Expected(date, ls[0], cs[0])] + ExpectedAll(date, ls[1..], cs[1..])
  }

  lemma IndexOfAt(s: string, c: char, k: nat)
    requires k < |s| && s[k] == c && forall j :: 0 <= j < k ==> s[j] != c
    ensures IndexOf(s, c) == Some(k)
  {
  }

  /** Searching past a prefix without the character. */
  lemma IndexOfAfter(a: string, b: string, c: char)
    requires c !in a
    ensures IndexOf(a + b, c) == match IndexOf(b, c) case None => None case Some(k) => Some(|a| + k)
  {
    var s := a + b;
    match IndexOf(b, c)
    case None =>
      forall j | 0 <= j < |s| ensures s[j] != c {
        if j < |a| {
          assert s[j] == a[j] && a[j] in a;
        } else {
          assert s[j] == b[j - |a|];
        }
      }
    case Some(k) =>
      forall j | 0 <= j < |a| + k ensures s[j] != c {
        if j < |a| {
          assert s[j] == a[j] && a[j] in a;
        } else {
          assert s[j] == b[j - |a|];
        }
      }
      IndexOfAt(s, c, |a| + k);
  }

  lemma DigitsWithout(d: string, c: char)
    requires AllDigits(d) && !IsDigit(c)
    ensures c !in d
  {
  }

  /** A clock's segment, split where its separators are. */
  lemma ClockSplit(c: Clock, rest: string)
    ensures ClockText(c) + ("-" + rest)
      == c.min + (":" + (c.sec + ("." + (c.frac + ("-" + rest)))))
  {
    AppendAssoc(c.min, ":" + (c.sec + ("." + c.frac)), "-" + rest);
    AppendAssoc(":", c.sec + ("." + c.frac), "-" + rest);
    AppendAssoc(c.sec, "." + c.frac, "-" + rest);
    AppendAssoc(".", c.frac, "-" + rest);
  }

  /** The first `:` ends the minutes. */
  lemma ColonAt(c: Clock, t2: string)
    requires ClockOk(c)
    ensures IndexOf(c.min + (":" + t2), ':') == Some(|c.min|)
  {
    DigitsWithout(c.min, ':');
    IndexOfAfter(c.min, ":" + t2, ':');
    IndexOfAt(":" + t2, ':', 0);
  }

  /** The first `.` ends the seconds. */
  lemma DotAt(c: Clock, t3: string)
    requires ClockOk(c)
    ensures IndexOf(c.min + (":" + (c.sec + ("." + t3))), '.') == Some(|c.min| + 1 + |c.sec|)
  {
    DigitsWithout(c.min, '.');
    DigitsWithout(c.sec, '.');
    IndexOfAfter(c.min, ":" + (c.sec + ("." + t3)), '.');
    IndexOfAfter(":", c.sec + ("." + t3), '.');
    IndexOfAfter(c.sec, "." + t3, '.');
    IndexOfAt("." + t3, '.', 0);
  }

  /** The first `-` ends the fraction. */
  lemma DashAt(c: Clock, rest: string)
    requires ClockOk(c)
    ensures IndexOf(c.sec + ("." + (c.frac + ("-" + rest))), '-') == Some(|c.sec| + 1 + |c.frac|)
  {
    DigitsWithout(c.sec, '-');
    DigitsWithout(c.frac, '-');
    IndexOfAfter(c.sec, "." + (c.frac + ("-" + rest)), '-');
    IndexOfAfter(".", c.frac + ("-" + rest), '-');
    IndexOfAfter(c.frac, "-" + rest, '-');
    IndexOfAt("-" + rest, '-', 0);
  }

  /** Where the separators of a clock's segment are. */
  lemma ClockParts(c: Clock, rest: string)
    requires ClockOk(c)
    ensures var t := ClockText(c) + ("-" + rest);
      var mp := |c.min|;
      var sp := mp + 1 + |c.sec|;
      var np := sp + 1 + |c.frac|;
      && IndexOf(t, ':') == Some(mp) && IndexOf(t, '.') == Some(sp) && IndexOf(t, '-') == Some(np)
  {
    var t3 := c.frac + ("-" + rest);
    var t2 := c.sec + ("." + t3);
    ClockSplit(c, rest);
    ColonAt(c, t2);
    DotAt(c, t3);
    DashAt(c, rest);
    DigitsWithout(c.min, '-');
    IndexOfAfter(c.min, ":" + t2, '-');
    IndexOfAfter(":", t2, '-');
  }

  /** What lies between the separators of a clock's segment. */
  lemma ClockSlices(c: Clock, rest: string)
    ensures var t := ClockText(c) + ("-" + rest);
      var mp := |c.min|;
      var sp := mp + 1 + |c.sec|;
      var np := sp + 1 + |c.frac|;
      && np <= |t| && t[..mp] == c.min && t[mp + 1..sp] == c.sec && t[sp + 1..np] == c.frac
  {
    var t3 := c.frac + ("-" + rest);
    var t2 := c.sec + ("." + t3);
    var t := c.min + (":" + t2);
    ClockSplit(c, rest);
    SliceAfter(c.min, ":", t2);
    SliceAfter(c.sec, ".", t3);
    SliceAfter(c.frac, "-", rest);
    SlicePrefix(t, |c.min| + 1, t2, c.sec);
    SlicePrefix(t2, |c.sec| + 1, t3, c.frac);
    SliceShift(t, |c.min| + 1, t2, |c.sec| + 1, |c.frac|);
  }

  /** In `a + (sep + b)`, `a` comes first and `b` starts after the
      separator. */
  lemma SliceAfter(a: string, sep: string, b: string)
    requires |sep| == 1
    ensures (a + (sep + b))[..|a|] == a && (a + (sep + b))[|a| + 1..] == b
  {
  }

  lemma SlicePrefix(t: string, k: nat, u: string, a: string)
    requires k <= |t| && t[k..] == u && |a| <= |u| && u[..|a|] == a
    ensures t[k..k + |a|] == a
  {
    assert t[k..k + |a|] == t[k..][..|a|];
  }

  lemma SliceShift(t: string, k: nat, u: string, j: nat, n: nat)
    requires k <= |t| && t[k..] == u && j + n <= |u|
    ensures t[k + j..k + j + n] == u[j..j + n]
  {
    forall i | k + j <= i < k + j + n
      ensures t[i] == u[i - k]
    {
      assert t[k..][i - k] == u[i - k];
    }
    assert t[k + j..k + j + n] == u[j..j + n];
  }

  /** The first segment of a line with a clock: the separators are found
      where the clock puts them, and the instant is the clock's. */
  lemma ClockSegment(date: int, c: Clock, rest: string, t: string)
    requires ClockOk(c) && t == ClockText(c) + ("-" + rest)
    ensures SegmentTime(date, t)
      == match ClockTime(date, c) case None => Panics case Some(x) => Returns(x)
  {
    var mp := |c.min|;
    var sp := mp + 1 + |c.sec|;
    var np := sp + 1 + |c.frac|;
    ClockParts(c, rest);
    ClockSlices(c, rest);
    SeparatorsFound(date, t, mp, sp, np);
    NumbersRead(date, t, mp, sp, np, c.min, c.sec, c.frac);
    ParseU32Digits(c.min);
    ParseU32Digits(c.sec);
    ParseU32Digits(c.frac);
    ClockInstant(date, c);
  }

  /** `SegmentTime` with its separators in order goes on to `SegmentAt`. */
  lemma SeparatorsFound(date: int, t: string, mp: nat, sp: nat, np: nat)
    requires IndexOf(t, ':') == Some(mp) && IndexOf(t, '.') == Some(sp) && IndexOf(t, '-') == Some(np)
    requires mp + 1 <= sp && sp + 1 <= np <= |t|
    ensures SegmentTime(date, t) == SegmentAt(date, t, mp, sp, np)
  {
  }

  /** `SegmentAt` reads the three numbers between the separators. */
  lemma NumbersRead(date: int, t: string, mp: nat, sp: nat, np: nat, a: string, b: string, d: string)
    requires mp < sp < np <= |t|
    requires t[..mp] == a && t[mp + 1..sp] == b && t[sp + 1..np] == d
    ensures SegmentAt(date, t, mp, sp, np) == match (ParseU32(a), ParseU32(b), ParseU32(d))
      case (Some(mm), Some(ss), Some(f)) => Instant(date, mm, ss, Scaled(f, |d|))
      case _ => Panics
  {
  }

  /** The instant of a clock's numbers, read as 32-bit numbers, is the
      clock's; a number too wide for 32 bits is no time of day. */
  lemma ClockInstant(date: int, c: Clock)
    requires ClockOk(c)
    ensures var mm, ss, f := DigitsValue(c.min), DigitsValue(c.sec), DigitsValue(c.frac);
      (match ClockTime(date, c) case None => Panics case Some(x) => Returns(x))
      == if mm < U32Limit && ss < U32Limit && f < U32Limit then Instant(date, mm, ss, Scaled(f, |c.frac|)) else Panics
  {
  }

  /** A field ended by `c` is found by `read_until`; `n` is where the text
      after `c` starts. */
  lemma FindAt(s: string, j: nat, t: string, c: char, rest: string) returns (e: nat, n: nat)
    requires Occurs(s, j, t + ([c] + rest)) && c !in t
    ensures e == j + |t| && n == e + 1 && n <= |s|
    ensures Find(s, j, c) == Some(e) && s[j..e] == t
    ensures Occurs(s, n, rest)
  {
    e := OccursCut(s, j, t, [c] + rest);
    n := OccursHead(s, e, c, rest);
    OccursSlice(s, j, t);
    assert forall k :: j <= k < e ==> s[k] == t[k - j];
  }

  lemma {:induction false} PlainSkips(s: string, begin: nat, j: nat, t: string)
    requires begin <= j && Occurs(s, j, t)
    requires forall c :: c in t ==> !FieldParser.IsValueEnd(c)
    ensures ReadPlain(s, begin, j) == ReadPlain(s, begin, j + |t|)
    decreases |t|
  {
    if t != [] {
      OccursIndex(s, j, t, 0);
      assert t[0] in t;
      assert [t[0]] + t[1..] == t;
      OccursSplit(s, j, [t[0]], t[1..]);
      PlainSkips(s, begin, j + 1, t[1..]);
    }
  }

  /** Inside quotes, the text of a value written with its quote character
      doubled is passed over up to the closing quote, also when it holds the
      other quote character, alone or doubled. */
  lemma {:induction false} QuotedSkips(s: string, begin: nat, j: nat, t: string, q: char, d: char, e: nat)
    requires 0 < begin <= j && FieldParser.IsQuote(q) && !FieldParser.IsQuote(d)
    requires Occurs(s, j, FieldParser.Escape(t, q) + [q, d]) && e == j + |FieldParser.Escape(t, q)|
    ensures e < |s| && ReadQuoted(s, begin, j, q) == Returns((s[begin..e], e + 1))
    decreases |t|
  {
    if t == [] {
      assert FieldParser.Escape(t, q) + [q, d] == [q, d];
      QuotedClose(s, begin, j, q, d);
    } else {
      var k, more := QuotedHead(s, begin, j, t, q, d);
      QuotedSkips(s, begin, j + k, more, q, d, e);
      StepThenRest(s, begin, j, q, k, e);
    }
  }

  /** The closing quote, not followed by another quote character, ends the
      value. */
  lemma QuotedClose(s: string, begin: nat, j: nat, q: char, d: char)
    requires 0 < begin <= j && FieldParser.IsQuote(q) && !FieldParser.IsQuote(d)
    requires Occurs(s, j, [q, d])
    ensures j < |s| && ReadQuoted(s, begin, j, q) == Returns((s[begin..j], j + 1))
  {
    OccursIndex(s, j, [q, d], 0);
    OccursIndex(s, j, [q, d], 1);
  }

  /** The first `k` characters of the escaped text are passed over: a quote
      character doubled, or any other character on its own, a lone quote
      of the other kind included. */
  lemma QuotedHead(s: string, begin: nat, j: nat, t: string, q: char, d: char) returns (k: nat, more: string)
    requires 0 < begin <= j && FieldParser.IsQuote(q) && !FieldParser.IsQuote(d)
    requires Occurs(s, j, FieldParser.Escape(t, q) + [q, d]) && t != []
    ensures |more| < |t| && j + k <= |s|
    ensures ReadQuoted(s, begin, j, q) == ReadQuoted(s, begin, j + k, q)
    ensures Occurs(s, j + k, FieldParser.Escape(more, q) + [q, d])
    ensures |FieldParser.Escape(t, q)| == k + |FieldParser.Escape(more, q)|
  {
    if t[0] == q || (FieldParser.IsQuote(t[0]) && |t| >= 2 && t[1] == t[0]) {
      k, more := 2, if t[0] == q then t[1..] else t[2..];
      QuotedHeadPair(s, begin, j, t, q, d, more);
    } else {
      k, more := 1, t[1..];
      QuotedHeadOne(s, begin, j, t, q, d);
    }
  }

  /** A quote character doubled: both are passed over. */
  lemma QuotedHeadPair(s: string, begin: nat, j: nat, t: string, q: char, d: char, more: string)
    requires 0 < begin <= j && FieldParser.IsQuote(q)
    requires Occurs(s, j, FieldParser.Escape(t, q) + [q, d])
    requires t != [] && (t[0] == q || (FieldParser.IsQuote(t[0]) && |t| >= 2 && t[1] == t[0]))
    requires more == if t[0] == q then t[1..] else t[2..]
    ensures j + 2 <= |s| && ReadQuoted(s, begin, j, q) == ReadQuoted(s, begin, j + 2, q)
    ensures Occurs(s, j + 2, FieldParser.Escape(more, q) + [q, d])
    ensures |FieldParser.Escape(t, q)| == 2 + |FieldParser.Escape(more, q)|
  {
    EscapePair(t, q, more);
    PairInText(s, j, FieldParser.Escape(t, q) + [q, d], t[0]);
    QuotedStep(s, j, t, q, d, [t[0], t[0]], more);
    ReadQuotedPair(s, begin, j, q);
  }

  /** Any other character is passed over on its own. */
  lemma QuotedHeadOne(s: string, begin: nat, j: nat, t: string, q: char, d: char)
    requires 0 < begin <= j && FieldParser.IsQuote(q) && !FieldParser.IsQuote(d)
    requires Occurs(s, j, FieldParser.Escape(t, q) + [q, d])
    requires t != [] && t[0] != q && !(FieldParser.IsQuote(t[0]) && |t| >= 2 && t[1] == t[0])
    ensures j + 1 <= |s| && ReadQuoted(s, begin, j, q) == ReadQuoted(s, begin, j + 1, q)
    ensures Occurs(s, j + 1, FieldParser.Escape(t[1..], q) + [q, d])
    ensures |FieldParser.Escape(t, q)| == 1 + |FieldParser.Escape(t[1..], q)|
  {
    OneInText(s, j, t, q, d);
    QuotedStep(s, j, t, q, d, [t[0]], t[1..]);
    ReadQuotedOne(s, begin, j, q);
  }

  /** Text that starts with a character twice has it at its first two
      places. */
  lemma PairInText(s: string, j: nat, u: string, c: char)
    requires Occurs(s, j, u) && |u| >= 2 && u[0] == c && u[1] == c
    ensures j + 1 < |s| && s[j] == c && s[j + 1] == c
  {
    OccursIndex(s, j, u, 0);
    OccursIndex(s, j, u, 1);
  }

  /** `ReadQuoted` that passes over `k` characters and then reads on to
      its closing quote at `e` reads to `e`. */
  lemma StepThenRest(s: string, begin: nat, j: nat, q: char, k: nat, e: nat)
    requires 0 < begin <= j && j + k <= |s| && begin <= e < |s|
    requires ReadQuoted(s, begin, j, q) == ReadQuoted(s, begin, j + k, q)
    requires ReadQuoted(s, begin, j + k, q) == Returns((s[begin..e], e + 1))
    ensures ReadQuoted(s, begin, j, q) == Returns((s[begin..e], e + 1))
  {
  }

  /** A quote character written twice: the quote itself, or the other
      quote character already doubled in the text. */
  lemma EscapePair(t: string, q: char, more: string)
    requires t != [] && (t[0] == q || (FieldParser.IsQuote(t[0]) && |t| >= 2 && t[1] == t[0]))
    requires more == if t[0] == q then t[1..] else t[2..]
    ensures FieldParser.Escape(t, q) == [t[0], t[0]] + FieldParser.Escape(more, q)
  {
    if t[0] != q {
      assert t[1..][0] == t[0] && t[1..][1..] == t[2..];
      assert FieldParser.Escape(t[1..], q) == [t[0]] + FieldParser.Escape(t[2..], q);
    }
  }

  /** A character that is not the quote and does not start a doubled quote
      is escaped as itself, and what follows it in the text is not the same
      quote character. */
  lemma OneInText(s: string, j: nat, t: string, q: char, d: char)
    requires FieldParser.IsQuote(q) && !FieldParser.IsQuote(d)
    requires Occurs(s, j, FieldParser.Escape(t, q) + [q, d])
    requires t != [] && t[0] != q && !(FieldParser.IsQuote(t[0]) && |t| >= 2 && t[1] == t[0])
    ensures FieldParser.Escape(t, q) == [t[0]] + FieldParser.Escape(t[1..], q)
    ensures j < |s| && s[j] == t[0]
    ensures FieldParser.IsQuote(t[0]) ==> j + 1 < |s| && s[j + 1] != t[0]
  {
    var t0 := t[0];
    var after := FieldParser.Escape(t[1..], q) + [q, d];
    assert FieldParser.Escape(t, q) == [t0] + FieldParser.Escape(t[1..], q);
    QuotedStep(s, j, t, q, d, [t0], t[1..]);
    OccursIndex(s, j, FieldParser.Escape(t, q) + [q, d], 0);
    if FieldParser.IsQuote(t0) {
      NextDiffers(t, q, d);
      OccursIndex(s, j + 1, after, 0);
    }
  }

  /** After a character that is not the quote and is not doubled, the
      escaped text goes on with a different character. */
  lemma NextDiffers(t: string, q: char, d: char)
    requires t != [] && t[0] != q && !(|t| >= 2 && t[1] == t[0])
    ensures (FieldParser.Escape(t[1..], q) + [q, d])[0] != t[0]
  {
    var u := t[1..];
    if u == [] {
      assert FieldParser.Escape(u, q) == [];
    } else {
      assert u[0] == t[1];
      assert FieldParser.Escape(u, q) == (if u[0] == q then [q, q] else [u[0]]) + FieldParser.Escape(u[1..], q);
    }
  }

  /** `ReadQuoted` passes over a doubled quote character. */
  lemma ReadQuotedPair(s: string, begin: nat, j: nat, q: char)
    requires 0 < begin <= j && j + 1 < |s| && FieldParser.IsQuote(s[j]) && s[j + 1] == s[j]
    ensures ReadQuoted(s, begin, j, q) == ReadQuoted(s, begin, j + 2, q)
  {
  }

  /** `ReadQuoted` passes over a character that is not `quote` and does not
      start a doubled quote. */
  lemma ReadQuotedOne(s: string, begin: nat, j: nat, q: char)
    requires 0 < begin <= j < |s| && s[j] != q
    requires FieldParser.IsQuote(s[j]) ==> j + 1 < |s| && s[j + 1] != s[j]
    ensures ReadQuoted(s, begin, j, q) == ReadQuoted(s, begin, j + 1, q)
  {
  }

  /** The escaped text splits into the part read in one step and the rest. */
  lemma QuotedStep(s: string, j: nat, t: string, q: char, d: char, head: string, more: string)
    requires t != [] && Occurs(s, j, FieldParser.Escape(t, q) + [q, d])
    requires FieldParser.Escape(t, q) == head + FieldParser.Escape(more, q)
    ensures Occurs(s, j + |head|, FieldParser.Escape(more, q) + [q, d])
    ensures |FieldParser.Escape(t, q)| == |head| + |FieldParser.Escape(more, q)|
    ensures j + |FieldParser.Escape(t, q)| + 2 <= |s|
  {
    AppendAssoc(head, FieldParser.Escape(more, q), [q, d]);
    OccursSplit(s, j, head, FieldParser.Escape(more, q) + [q, d]);
  }

  /** A value as the journal writes it, followed by a `,` or line end, reads
      back as the text the newer tokenizer gives for it, and the cursor stops
      at the delimiter. */
  lemma ValueRoundTrip(s: string, i: nat, v: FieldParser.RawValue, d: char)
    requires FieldParser.ValueOk(v) && FieldParser.IsValueEnd(d)
    requires Occurs(s, i, FieldParser.RenderValue(v) + [d])
    ensures BeginValue(s, i) == Returns((FieldParser.ValueText(v), i + |FieldParser.RenderValue(v)|))
  {
    match v
    case Plain(t) => PlainRoundTrip(s, i, t, d);
    case Quoted(q, t) => QuotedRoundTrip(s, i, q, t, d);
  }

  /** A bare value is read up to the delimiter after it. */
  lemma PlainRoundTrip(s: string, i: nat, t: string, d: char)
    requires (forall c :: c in t ==> !FieldParser.IsValueEnd(c)) && (t == [] || !FieldParser.IsQuote(t[0]))
    requires FieldParser.IsValueEnd(d) && Occurs(s, i, t + [d])
    ensures BeginValue(s, i) == Returns((t, i + |t|))
  {
    OccursSplit(s, i, t, [d]);
    OccursIndex(s, i + |t|, [d], 0);
    if t != [] {
      assert s[i] == t[0] by {
        OccursIndex(s, i, t, 0);
      }
      assert ReadPlain(s, i, i + 1) == ReadPlain(s, i, i + |t|) by {
        assert [t[0]] + t[1..] == t;
        OccursSplit(s, i, [t[0]], t[1..]);
        forall c | c in t[1..] ensures !FieldParser.IsValueEnd(c) {
          assert c in t;
        }
        PlainSkips(s, i, i + 1, t[1..]);
      }
      assert s[i..i + |t|] == t by {
        OccursSlice(s, i, t);
      }
    }
  }

  /** A quoted value is read up to its closing quote; the cursor stops at
      the delimiter after it. */
  lemma QuotedRoundTrip(s: string, i: nat, q: char, t: string, d: char)
    requires FieldParser.IsQuote(q) && FieldParser.IsValueEnd(d)
    requires Occurs(s, i, [q] + (FieldParser.Escape(t, q) + [q]) + [d])
    ensures BeginValue(s, i) == Returns((FieldParser.Escape(t, q), i + |FieldParser.Escape(t, q)| + 2))
  {
    var e := FieldParser.Escape(t, q);
    assert Occurs(s, i + 1, e + [q, d]) && s[i] == q by {
      assert [q] + (e + [q]) + [d] == [q] + (e + [q, d]);
      OccursSplit(s, i, [q], e + [q, d]);
      OccursIndex(s, i, [q], 0);
    }
    assert s[i + 1..i + 1 + |e|] == e by {
      OccursSplit(s, i + 1, e, [q, d]);
      OccursSlice(s, i + 1, e);
    }
    QuotedSkips(s, i + 1, i + 1, t, q, d, i + 1 + |e|);
  }

  /** A pair as written, followed by its delimiter `d`: `=` is found after
      the key, and the value reads back up to `d`. */
  lemma PairStep(s: string, i: nat, p: (string, FieldParser.RawValue), d: char) returns (k: nat, n: nat, at: nat)
    requires FieldParser.PairOk(p) && FieldParser.IsValueEnd(d)
    requires Occurs(s, i, FieldParser.RenderPair(p) + [d])
    ensures n == k + 1 && at == i + |FieldParser.RenderPair(p)| && at < |s|
    ensures Find(s, i, '=') == Some(k) && s[i..k] == p.0
    ensures BeginValue(s, n) == Returns((FieldParser.ValueText(p.1), at))
  {
    var rv := FieldParser.RenderValue(p.1);
    assert FieldParser.RenderPair(p) + [d] == p.0 + ("=" + (rv + [d])) by {
      AppendAssoc(p.0, "=" + rv, [d]);
      AppendAssoc("=", rv, [d]);
    }
    k, n := FindAt(s, i, p.0, '=', rv + [d]);
    ValueRoundTrip(s, n, p.1, d);
    at := n + |rv|;
  }

  /** The `Key` and `Value` states over a pair as written, followed by its
      delimiter `d`: the pair is inserted and the cursor stops at `d`. */
  lemma PairRead(date: int, s: string, i: nat, p: (string, FieldParser.RawValue), d: char, t: int, m: FieldList)
      returns (at: nat)
    requires FieldParser.PairOk(p) && FieldParser.IsValueEnd(d)
    requires Occurs(s, i, FieldParser.RenderPair(p) + [d])
    ensures at == i + |FieldParser.RenderPair(p)| && at < |s|
    ensures ReadField(Key, date, s, i, t, m) == AfterValue(date, s, at, t, Insert(m, p.0, FieldParser.ValueText(p.1)))
  {
    var k, n;
    k, n, at := PairStep(s, i, p, d);
    KeyStep(date, s, i, k, n, p.0, t, m);
    ValueStep(date, s, n, p.0, FieldParser.ValueText(p.1), at, t, m);
  }

  /** `Key` once the `=` after the key is found. */
  lemma KeyStep(date: int, s: string, i: nat, k: nat, n: nat, key: string, t: int, m: FieldList)
    requires i <= |s| && Find(s, i, '=') == Some(k) && n == k + 1 && s[i..k] == key
    ensures ReadField(Key, date, s, i, t, m) == ValueField(date, s, n, key, t, m)
  {
  }

  /** `Value` once the value is read. */
  lemma ValueStep(date: int, s: string, i: nat, key: string, v: string, at: nat, t: int, m: FieldList)
    requires i <= |s| && BeginValue(s, i) == Returns((v, at))
    ensures at < |s| && ValueField(date, s, i, key, t, m) == AfterValue(date, s, at, t, Insert(m, key, v))
  {
  }

  /** After a value, `,` goes on to the next key. */
  lemma CommaStep(date: int, s: string, at: nat, n: nat, t: int, m: FieldList)
    requires at < |s| && s[at] == ',' && n == at + 1
    ensures AfterValue(date, s, at, t, m) == ReadField(Key, date, s, n, t, m)
  {
  }

  /** After a value, a line end finishes the line. */
  lemma EndStep(date: int, s: string, at: nat, t: int, m: FieldList, crlf: bool)
    requires at < |s|
    requires if crlf then s[at] == '\r' && at + 1 < |s| else s[at] == '\n'
    ensures AfterValue(date, s, at, t, m) == Returns(Some((Record(t, m), at + if crlf then 2 else 1)))
  {
  }

  /** The pairs of a line as written, up to and including the line end that
      finishes at `e`, are inserted in order and the line's record is sent. */
  lemma {:induction false} PairsRoundTrip(date: int, s: string, i: nat, ps: seq<(string, FieldParser.RawValue)>,
                                          crlf: bool, t: int, m: FieldList, e: nat)
    requires |ps| > 0 && forall k :: 0 <= k < |ps| ==> FieldParser.PairOk(ps[k])
    requires Occurs(s, i, FieldParser.RenderPairs(ps) + FieldParser.Terminator(crlf))
    requires e == i + |FieldParser.RenderPairs(ps) + FieldParser.Terminator(crlf)|
    ensures ReadField(Key, date, s, i, t, m) == Returns(Some((Record(t, InsertAll(m, FieldParser.PairTexts(ps))), e)))
    decreases |ps|, 1
  {
    if |ps| == 1 {
      LastPair(date, s, i, ps, crlf, t, m, e);
    } else {
      MorePairs(date, s, i, ps, crlf, t, m, e);
    }
  }

  lemma LastPair(date: int, s: string, i: nat, ps: seq<(string, FieldParser.RawValue)>,
                 crlf: bool, t: int, m: FieldList, e: nat)
    requires |ps| == 1 && FieldParser.PairOk(ps[0])
    requires Occurs(s, i, FieldParser.RenderPairs(ps) + FieldParser.Terminator(crlf))
    requires e == i + |FieldParser.RenderPairs(ps) + FieldParser.Terminator(crlf)|
    ensures ReadField(Key, date, s, i, t, m) == Returns(Some((Record(t, InsertAll(m, FieldParser.PairTexts(ps))), e)))
  {
    assert FieldParser.RenderPairs(ps) == FieldParser.RenderPair(ps[0]);
    OnlyPair(date, s, i, ps[0], crlf, t, m, e);
    LastPairTexts(m, ps);
  }

  /** A single pair as written, then the line end that finishes at `e`. */
  lemma OnlyPair(date: int, s: string, i: nat, p: (string, FieldParser.RawValue),
                 crlf: bool, t: int, m: FieldList, e: nat)
    requires FieldParser.PairOk(p)
    requires Occurs(s, i, FieldParser.RenderPair(p) + FieldParser.Terminator(crlf))
    requires e == i + |FieldParser.RenderPair(p) + FieldParser.Terminator(crlf)|
    ensures ReadField(Key, date, s, i, t, m) == Returns(Some((Record(t, Insert(m, p.0, FieldParser.ValueText(p.1))), e)))
  {
    var r := FieldParser.RenderPair(p);
    var at := OccursCut(s, i, r, FieldParser.Terminator(crlf));
    assert e == at + (if crlf then 2 else 1);
    TerminatorAt(s, at, crlf);
    OccursSnoc(s, i, r, s[at]);
    var at' := PairRead(date, s, i, p, s[at], t, m);
    EndStep(date, s, at, t, Insert(m, p.0, FieldParser.ValueText(p.1)), crlf);
  }

  lemma LastPairTexts(m: FieldList, ps: seq<(string, FieldParser.RawValue)>)
    requires |ps| == 1
    ensures InsertAll(m, FieldParser.PairTexts(ps)) == Insert(m, ps[0].0, FieldParser.ValueText(ps[0].1))
  {
    var q := (ps[0].0, FieldParser.ValueText(ps[0].1));
    assert FieldParser.PairTexts(ps) == [q];
    assert [q][1..] == [];
  }

  /** A line end as written. */
  lemma TerminatorAt(s: string, at: nat, crlf: bool)
    requires Occurs(s, at, FieldParser.Terminator(crlf))
    ensures at < |s| && FieldParser.IsValueEnd(s[at])
    ensures if crlf then s[at] == '\r' && at + 1 < |s| else s[at] == '\n'
  {
    OccursIndex(s, at, FieldParser.Terminator(crlf), 0);
  }

  lemma {:induction false} MorePairs(date: int, s: string, i: nat, ps: seq<(string, FieldParser.RawValue)>,
                                     crlf: bool, t: int, m: FieldList, e: nat)
    requires |ps| > 1 && forall k :: 0 <= k < |ps| ==> FieldParser.PairOk(ps[k])
    requires Occurs(s, i, FieldParser.RenderPairs(ps) + FieldParser.Terminator(crlf))
    requires e == i + |FieldParser.RenderPairs(ps) + FieldParser.Terminator(crlf)|
    ensures ReadField(Key, date, s, i, t, m) == Returns(Some((Record(t, InsertAll(m, FieldParser.PairTexts(ps))), e)))
    decreases |ps|, 0
  {
    var m' := Insert(m, ps[0].0, FieldParser.ValueText(ps[0].1));
    var j := FirstPair(date, s, i, ps, crlf, t, m);
    FieldParser.PairsOkTail(ps);
    PairsRoundTrip(date, s, j, ps[1..], crlf, t, m', e);
    InsertAllFirst(m, ps);
  }

  /** The first pair of several and the `,` after it: the cursor moves to
      the next key. */
  lemma FirstPair(date: int, s: string, i: nat, ps: seq<(string, FieldParser.RawValue)>,
                  crlf: bool, t: int, m: FieldList) returns (j: nat)
    requires |ps| > 1 && FieldParser.PairOk(ps[0])
    requires Occurs(s, i, FieldParser.RenderPairs(ps) + FieldParser.Terminator(crlf))
    ensures j <= |s|
    ensures ReadField(Key, date, s, i, t, m)
      == ReadField(Key, date, s, j, t, Insert(m, ps[0].0, FieldParser.ValueText(ps[0].1)))
    ensures Occurs(s, j, FieldParser.RenderPairs(ps[1..]) + FieldParser.Terminator(crlf))
    ensures j + |FieldParser.RenderPairs(ps[1..]) + FieldParser.Terminator(crlf)|
      == i + |FieldParser.RenderPairs(ps) + FieldParser.Terminator(crlf)|
  {
    var p := ps[0];
    var r := FieldParser.RenderPair(p);
    var tail := FieldParser.RenderPairs(ps[1..]) + FieldParser.Terminator(crlf);
    MoreSplit(ps, crlf);
    var at := OccursCut(s, i, r, [','] + tail);
    j := OccursHead(s, at, ',', tail);
    OccursSnoc(s, i, r, ',');
    var at' := PairRead(date, s, i, p, ',', t, m);
    CommaStep(date, s, at', j, t, Insert(m, p.0, FieldParser.ValueText(p.1)));
  }

  /** Inserting the texts of several pairs starts with the first one. */
  lemma InsertAllFirst(m: FieldList, ps: seq<(string, FieldParser.RawValue)>)
    requires |ps| > 0
    ensures InsertAll(m, FieldParser.PairTexts(ps))
      == InsertAll(Insert(m, ps[0].0, FieldParser.ValueText(ps[0].1)), FieldParser.PairTexts(ps[1..]))
  {
    assert FieldParser.PairTexts(ps)[1..] == FieldParser.PairTexts(ps[1..]);
  }

  /** The first pair of several, then `,` and the rest. */
  lemma MoreSplit(ps: seq<(string, FieldParser.RawValue)>, crlf: bool)
    requires |ps| > 1
    ensures FieldParser.RenderPairs(ps) + FieldParser.Terminator(crlf)
      == FieldParser.RenderPair(ps[0]) + ([','] + (FieldParser.RenderPairs(ps[1..]) + FieldParser.Terminator(crlf)))
  {
    var r := FieldParser.RenderPair(ps[0]);
    var rest := FieldParser.RenderPairs(ps[1..]);
    var term := FieldParser.Terminator(crlf);
    assert FieldParser.RenderPairs(ps) == r + ([','] + rest);
    AppendAssoc(r, [','] + rest, term);
    AppendAssoc([','], rest, term);
  }

  /** A well-formed line with a clock is read into the record it should
      give, and the cursor ends at the start of the next line. */
  lemma LineRoundTrip(date: int, s: string, i: nat, l: FieldParser.Line, c: Clock, e: nat)
    requires LineOk(date, l, c) && Occurs(s, i, FieldParser.Render(l)) && e == i + |FieldParser.Render(l)|
    ensures ParseLine(date, s, i) == Returns(Some((Expected(date, l, c), e)))
  {
    var v := ClockTime(date, c).value;
    var e1 := LineStart(date, s, i, l, c);
    var e3 := LineEventLevel(date, s, e1, l, v);
    PairsRoundTrip(date, s, e3, l.pairs, l.crlf, v, Header(l.event, l.level), e);
  }

  /** A file whose text from `i` on is well-formed lines with clocks is read
      into the records those lines should give, one per line and in order,
      and the thread ends normally at the end of the text. */
  lemma {:induction false} FileRoundTrip(date: int, s: string, i: nat, ls: seq<FieldParser.Line>, cs: seq<Clock>)
    requires AllLinesOk(date, ls, cs)
    requires Occurs(s, i, FieldParser.Text(ls)) && i + |FieldParser.Text(ls)| == |s|
    ensures Records(date, s, i) == Stream(ExpectedAll(date, ls, cs), Returns(()))
    decreases |ls|
  {
    if ls == [] {
      assert Find(s, i, ',').None?;
    } else {
      var e := FileFirstLine(date, s, i, ls, cs);
      FileRoundTrip(date, s, e, ls[1..], cs[1..]);
    }
  }

  /** A file of the byte-order mark and then such lines, on a path that
      names its hour, sends exactly the records of its lines and finishes. */
  lemma ParseFileRoundTrip(h: Host, path: string, bom: char, ls: seq<FieldParser.Line>, cs: seq<Clock>, date: int)
    requires PathHour(h, path) == Returns(date) && AllLinesOk(date, ls, cs)
    ensures ParseFile(h, path, [bom] + FieldParser.Text(ls)) == Stream(ExpectedAll(date, ls, cs), Returns(()))
  {
    var text := FieldParser.Text(ls);
    assert ([bom] + text)[1..] == text;
    FileRoundTrip(date, text, 0, ls, cs);
  }

  /** The first line of such a file gives its record and leaves the rest. */
  lemma FileFirstLine(date: int, s: string, i: nat, ls: seq<FieldParser.Line>, cs: seq<Clock>) returns (e: nat)
    requires ls != [] && |cs| == |ls| && LineOk(date, ls[0], cs[0])
    requires Occurs(s, i, FieldParser.Text(ls)) && i + |FieldParser.Text(ls)| == |s|
    ensures e <= |s| && Occurs(s, e, FieldParser.Text(ls[1..])) && e + |FieldParser.Text(ls[1..])| == |s|
    ensures Records(date, s, i) == Stream([Expected(date, ls[0], cs[0])] + Records(date, s, e).items, Records(date, s, e).end)
  {
    var r := FieldParser.Render(ls[0]);
    assert FieldParser.Text(ls) == r + FieldParser.Text(ls[1..]);
    OccursSplit(s, i, r, FieldParser.Text(ls[1..]));
    e := i + |r|;
    LineRoundTrip(date, s, i, ls[0], cs[0], e);
    RecordsStep(date, s, i, Expected(date, ls[0], cs[0]), e);
  }

  lemma RecordsStep(date: int, s: string, i: nat, rec: Record, e: nat)
    requires i <= |s| && ParseLine(date, s, i) == Returns(Some((rec, e)))
    ensures e <= |s| && Records(date, s, i) == Stream([rec] + Records(date, s, e).items, Records(date, s, e).end)
  {
  }

  /** What follows the first segment of a line as written and its `,`. */
  function AfterTime(l: FieldParser.Line): string
  {
    l.event + ("," + (l.level + ("," + (FieldParser.RenderPairs(l.pairs) + FieldParser.Terminator(l.crlf)))))
  }

  /** The first segment of a line as written is read up to its `,` and
      gives the clock's instant. */
  lemma LineStart(date: int, s: string, i: nat, l: FieldParser.Line, c: Clock) returns (e1: nat)
    requires LineOk(date, l, c) && Occurs(s, i, FieldParser.Render(l))
    ensures e1 <= |s| && ParseLine(date, s, i) == ReadField(EventField, date, s, e1, ClockTime(date, c).value, [])
    ensures Occurs(s, e1, AfterTime(l)) && e1 + |AfterTime(l)| == i + |FieldParser.Render(l)|
  {
    var seg := l.time + ("-" + l.duration);
    assert Occurs(s, i, seg + ([','] + AfterTime(l))) && |FieldParser.Render(l)| == |seg| + 1 + |AfterTime(l)| by {
      RenderSplit(l);
    }
    assert ',' !in seg by {
      SegmentNoComma(l, c);
    }
    e1 := FirstSegment(date, s, i, seg, AfterTime(l), c, l.duration);
  }

  /** The event and the level of a line as written are read, each up to
      its `,`, into the header of the record; the pairs follow. */
  lemma LineEventLevel(date: int, s: string, e1: nat, l: FieldParser.Line, t: int) returns (e3: nat)
    requires FieldParser.WellFormed(l) && Occurs(s, e1, AfterTime(l))
    ensures e3 <= |s| && ReadField(EventField, date, s, e1, t, []) == ReadField(Key, date, s, e3, t, Header(l.event, l.level))
    ensures Occurs(s, e3, FieldParser.RenderPairs(l.pairs) + FieldParser.Terminator(l.crlf))
    ensures e3 + |FieldParser.RenderPairs(l.pairs) + FieldParser.Terminator(l.crlf)| == e1 + |AfterTime(l)|
  {
    var rest := FieldParser.RenderPairs(l.pairs) + FieldParser.Terminator(l.crlf);
    var x, e2 := FindAt(s, e1, l.event, ',', l.level + ("," + rest));
    EventStep(date, s, e1, x, e2, l.event, t, []);
    var y;
    y, e3 := FindAt(s, e2, l.level, ',', rest);
    DurationStep(date, s, e2, y, e3, l.level, t, Insert([], "event", l.event));
    HeaderInserts(l.event, l.level);
  }

  /** `EventField` once its `,` is found. */
  lemma EventStep(date: int, s: string, i: nat, e: nat, n: nat, x: string, t: int, m: FieldList)
    requires i <= |s| && Find(s, i, ',') == Some(e) && n == e + 1 && s[i..e] == x
    ensures ReadField(EventField, date, s, i, t, m) == ReadField(Duration, date, s, n, t, Insert(m, "event", x))
  {
    assert e < |s| && n <= |s|;
  }

  /** `Duration` once its `,` is found. */
  lemma DurationStep(date: int, s: string, i: nat, e: nat, n: nat, x: string, t: int, m: FieldList)
    requires i <= |s| && Find(s, i, ',') == Some(e) && n == e + 1 && s[i..e] == x
    ensures ReadField(Duration, date, s, i, t, m) == ReadField(Key, date, s, n, t, Insert(m, "duration", x))
  {
    assert e < |s| && n <= |s|;
  }

  /** A line as written, cut at the `,` after its first segment. */
  lemma RenderSplit(l: FieldParser.Line)
    ensures FieldParser.Render(l)
      == (l.time + ("-" + l.duration)) + ([','] + (l.event + ("," + (l.level + ("," +
           (FieldParser.RenderPairs(l.pairs) + FieldParser.Terminator(l.crlf)))))))
  {
    var r2 := l.event + ("," + (l.level + ("," + (FieldParser.RenderPairs(l.pairs) + FieldParser.Terminator(l.crlf)))));
    AppendAssoc(l.time, "-" + l.duration, "," + r2);
    AppendAssoc("-", l.duration, "," + r2);
  }

  /** The first segment of a line with a clock is read up to its `,` and
      gives the clock's instant. */
  lemma FirstSegment(date: int, s: string, i: nat, seg: string, r2: string, c: Clock, d: string)
      returns (e1: nat)
    requires ClockOk(c) && ClockTime(date, c).Some? && seg == ClockText(c) + ("-" + d)
    requires Occurs(s, i, seg + ([','] + r2)) && ',' !in seg
    ensures e1 == i + |seg| + 1 && e1 <= |s|
    ensures ParseLine(date, s, i) == ReadField(EventField, date, s, e1, ClockTime(date, c).value, [])
    ensures Occurs(s, e1, r2)
  {
    var e, n := FindAt(s, i, seg, ',', r2);
    assert SegmentTime(date, s[i..e]) == Returns(ClockTime(date, c).value) by {
      ClockSegment(date, c, d, s[i..e]);
    }
    StartStep(date, s, i, e, n, ClockTime(date, c).value);
    e1 := n;
  }

  /** The first segment of a line with a clock holds no `,`. */
  lemma SegmentNoComma(l: FieldParser.Line, c: Clock)
    requires FieldParser.WellFormed(l) && ClockOk(c) && l.time == ClockText(c)
    ensures ',' !in l.time + ("-" + l.duration)
  {
    var seg := l.time + ("-" + l.duration);
    assert seg == c.min + [':'] + c.sec + ['.'] + c.frac + ['-'] + l.duration;
    forall k | 0 <= k < |seg| ensures seg[k] != ',' {
      if k < |c.min| {
        assert IsDigit(c.min[k]);
      } else if |c.min| < k < |c.min| + 1 + |c.sec| {
        assert IsDigit(c.sec[k - |c.min| - 1]);
      } else if |c.min| + 1 + |c.sec| < k < |l.time| {
        assert IsDigit(c.frac[k - |c.min| - 2 - |c.sec|]);
      } else if k > |l.time| {
        assert l.duration[k - |l.time| - 1] in l.duration;
      }
    }
  }

  /** `StartLogLine` once the first segment is read. */
  lemma StartStep(date: int, s: string, i: nat, e: nat, n: nat, t: int)
    requires i <= |s| && Find(s, i, ',') == Some(e) && n == e + 1 && SegmentTime(date, s[i..e]) == Returns(t)
    ensures ParseLine(date, s, i) == ReadField(EventField, date, s, n, t, [])
  {
    CommaFound(date, s, i, e);
    TimeRead(date, s, i, e, t);
  }

  /** A line goes on from the first `,` after its start. */
  lemma CommaFound(date: int, s: string, i: nat, e: nat)
    requires i <= |s| && Find(s, i, ',') == Some(e)
    ensures ParseLine(date, s, i) == LineFrom(date, s, i, e)
  {
  }

  /** A first segment that gives an instant leads to `EventField`. */
  lemma TimeRead(date: int, s: string, i: nat, e: nat, t: int)
    requires i <= e < |s| && SegmentTime(date, s[i..e]) == Returns(t)
    ensures LineFrom(date, s, i, e) == ReadField(EventField, date, s, e + 1, t, [])
  {
  }

  // ---------------------------------------------------------------------
  // Properties of the directory reader

  /** Files not named like a log contribute nothing. */
  lemma {:induction false} ParseDirSkips(h: Host, es: seq<Entry>)
    requires forall k :: 0 <= k < |es| ==> !IsLogName(h, es[k].name)
    ensures ParseDir(h, es) == Stream([], Returns(()))
    decreases |es|
  {
    if es != [] {
      assert !IsLogName(h, es[0].name);
      ParseDirSkips(h, es[1..]);
    }
  }

  /** A file named with eight decimal digits, one of them outside ASCII,
      matches the pattern and then ends the walk in a panic: the date is
      cut from the name by bytes and parsed as ASCII digits. */
  lemma ParseDirNonAsciiPanics(h: Host, dir: string, e: Entry, rest: seq<Entry>)
    requires DecimalOnAscii(h) && IsLogName(h, e.name) && !AsciiLogName(e.name)
    requires dir == [] || dir[|dir| - 1] == '/'
    requires forall j :: !MatchesAt(h, dir, j)
    requires e.path == dir + e.name && e.data != []
    ensures ParseDir(h, [e] + rest) == Stream([], Panics)
  {
    PathHourOfFile(h, dir, e.name);
    assert ([e] + rest)[0] == e;
  }

  /** The walk is read in order: the records of the first files come first,
      and the later files are read only if the earlier ones finish. */
  lemma {:induction false} ParseDirAppend(h: Host, a: seq<Entry>, b: seq<Entry>)
    ensures ParseDir(h, a + b)
      == if ParseDir(h, a).end.Returns?
         then Stream(ParseDir(h, a).items + ParseDir(h, b).items, ParseDir(h, b).end)
         else ParseDir(h, a)
    decreases |a|
  {
    if a == [] {
      assert a + b == b;
    } else {
      assert (a + b)[0] == a[0] && (a + b)[1..] == a[1..] + b;
      ParseDirAppend(h, a[1..], b);
      if IsLogName(h, a[0].name) {
        var first := ParseFile(h, a[0].path, a[0].data);
        if first.end.Returns? {
          AppendAssoc(first.items, ParseDir(h, a[1..]).items, ParseDir(h, b).items);
        }
      }
    }
  }
}
