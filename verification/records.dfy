/**
 * One journal record as the directory reader hands it on (`LogString` in
 * `src/parser/mod.rs`): the instant of its time field and the text of the
 * line, which is parsed again whenever a field is looked up, and the
 * `FieldMap` built from a line's fields (`From<Fields> for FieldMap` in
 * `src/parser/fields.rs`).
 */
module Records {
  import opened Base
  import opened Values
  import opened FieldMaps
  import opened FieldParser

  /** `LogString`: the instant of the line and its text. The original keeps
      a file offset and a length and reads the text back from the file; here
      the text is kept directly. */
  datatype LogString = LogString(time: int, text: string)

  /** `Value::from` applied to a field's text, if there is one. */
  function Convert(o: Option<string>): (r: Option<Value>)
    ensures r.None? <==> o.None?
    ensures r.Some? ==> r.value == FromText(o.value)
  {
    match o
    case None => None
    case Some(t) => Some(FromText(t))
  }

  /** `From<Fields> for FieldMap`: every pair `parse_field` yields up to the
      end of the line, inserted in order with its text converted. */
  function ToFieldMap(f: Fields): (r: Exec<FieldMap>)
    requires FieldParser.Valid(f)
    ensures r.Returns? <==> Collect(f).Returns?
    ensures r.Returns? ==> FieldMaps.Valid(r.value) && Size(r.value) == |Collect(f).value.0|
  {
    match Collect(f)
    case Panics => Panics
    case Loops => Loops
    case Returns((ps, _)) =>
      FromPairsSize(ps);
      Returns(FromPairs(ps))
  }

  /** `LogString::fields`, converted into a map. */
  function FieldsOf(l: LogString): Exec<FieldMap>
  {
    ToFieldMap(New(l.text))
  }

  /** `LogString::get`: `time` is the record's instant; any other name is
      looked up among the line's fields, stopping at the first pair with
      that key. */
  function Get(l: LogString, name: string): (r: Exec<Option<Value>>)
    ensures name == "time" ==> r == Returns(Some(DateTime(l.time)))
  {
    if name == "time" then Returns(Some(DateTime(l.time))) else Lookup(New(l.text), name)
  }

  /** The lazy search of `get` over the line's pairs, converted. */
  function Lookup(f: Fields, name: string): Exec<Option<Value>>
    requires FieldParser.Valid(f)
  {
    match FindField(f, name)
    case Panics => Panics
    case Loops => Loops
    case Returns(o) => Returns(Convert(o))
  }

  // ---------------------------------------------------------------------
  // Properties

  /** `find` stops at the first pair with the key, so whenever the line can be
      read to its end `get` gives the converted value of the first such pair
      among all the pairs of the line. */
  lemma GetFindsFirstPair(l: LogString, name: string)
    requires name != "time" && Collect(New(l.text)).Returns?
    ensures Get(l, name) == Returns(Convert(FirstText(Collect(New(l.text)).value.0, name)))
  {
    FindFieldAgreesWithCollect(New(l.text), name);
  }

  /** On a well-formed line, `get` of a field other than `time` finds the
      first pair the tokenizer yields for it: `duration`, `event` or the
      first pair of the line with that key. */
  lemma GetRenderedLine(t: int, l: Line, name: string)
    requires WellFormed(l) && name != "time"
    ensures Get(LogString(t, Render(l)), name) == Returns(Convert(FirstText(Expected(l), name)))
  {
    var s := Render(l);
    assert Collect(New(s)) == Returns((Expected(l), Fields(s, StartLogLine, |s|))) by {
      LineRoundTrip(s, 0, l);
    }
    GetFindsFirstPair(LogString(t, s), name);
  }

  /** `get` never reads the `time` text of the line: the record's instant
      wins, whatever the line holds. */
  lemma {:induction false} GetTimeIgnoresText(t: int, l: Line)
    requires WellFormed(l)
    ensures Get(LogString(t, Render(l)), "time") == Returns(Some(DateTime(t)))
    ensures FirstText(Expected(l), "time") == Some(l.time)
  {
    ExpectedShape(l);
  }

  lemma {:induction false} FirstTextSnoc(ps: seq<(string, string)>, p: (string, string), k: string)
    ensures FirstText(ps + [p], k)
      == if FirstText(ps, k).Some? then FirstText(ps, k) else if p.0 == k then Some(p.1) else None
    decreases |ps|
  {
    if ps == [] {
      assert ps + [p] == [p];
    } else {
      assert (ps + [p])[0] == ps[0];
      assert (ps + [p])[1..] == ps[1..] + [p];
      FirstTextSnoc(ps[1..], p, k);
    }
  }

  /** The first of a key's converted values is the conversion of its first
      text. */
  lemma {:induction false} ValuesOfFirst(ps: seq<(string, string)>, k: string)
    ensures ValuesOf(ps, k) == [] <==> FirstText(ps, k).None?
    ensures ValuesOf(ps, k) != [] ==> ValuesOf(ps, k)[0] == FromText(FirstText(ps, k).value)
    decreases |ps|
  {
    if ps != [] {
      var init := ps[..|ps| - 1];
      ValuesOfFirst(init, k);
      assert ps == init + [ps[|ps| - 1]];
      FirstTextSnoc(init, ps[|ps| - 1], k);
    }
  }

  /** Looking a field up through `get` and through the `FieldMap` built from
      the same line agree: both give the first value of that key. */
  lemma GetAgreesWithFieldMap(l: LogString, name: string)
    requires name != "time" && Collect(New(l.text)).Returns?
    ensures FieldsOf(l).Returns?
    ensures Get(l, name) == Returns(FirstValue(Flatten(FieldsOf(l).value.entries), name))
  {
    var ps := Collect(New(l.text)).value.0;
    var m := FromPairs(ps);
    assert FieldsOf(l) == Returns(m);
    GetFindsFirstPair(l, name);
    FirstValueOfFlatten(m.entries, name);
    FromPairsKeepsEveryValue(ps, name);
    ValuesOfFirst(ps, name);
  }
}
