/**
 * The `--filter` argument of `src/main.rs` (`parse_kv`): lines of
 * `column=pattern`, separated by the platform's line ending, become a map
 * from column name to pattern. A compiled `Regex` is represented by its
 * source text, which the regular-expression engine accepted.
 */
module Arguments {
  import opened Base
  import opened Host

  /** `LINE_ENDING`: `\r\n` when built for Windows, `\n` otherwise. */
  function LineEnding(windows: bool): (sep: string)
    ensures sep != [] && forall k :: 0 <= k < |sep| ==> sep[k] == '\r' || sep[k] == '\n'
  {
    if windows then "\r\n" else "\n"
  }

  // ---------------------------------------------------------------------
  // `str::split`

  /** The first occurrence of `sep` in `s` at or after `j`. */
  function FindSep(s: string, sep: string, j: nat): (r: Option<nat>)
    requires sep != [] && j <= |s|
    ensures r.Some? ==> j <= r.value && Occurs(s, r.value, sep)
    ensures forall k :: j <= k && (r.None? || k < r.value) ==> !Occurs(s, k, sep)
    decreases |s| - j
  {
    if j + |sep| > |s| then None
    else if Occurs(s, j, sep) then Some(j)
    else FindSep(s, sep, j + 1)
  }

  /** `str::split(sep)`: the pieces between the occurrences of `sep`, found
      from the left; a text without `sep`, the empty one included, is one
      piece. */
  function Split(s: string, sep: string): (r: seq<string>)
    requires sep != []
    ensures |r| >= 1
    decreases |s|
  {
    match FindSep(s, sep, 0)
    case None => [s]
    case Some(k) => [s[..k]] + Split(s[k + |sep|..], sep)
  }

  /** The pieces written one after another with `sep` between them. */
  function Join(ps: seq<string>, sep: string): string
    decreases |ps|
  {
    if ps == [] then [] else if |ps| == 1 then ps[0] else ps[0] + sep + Join(ps[1..], sep)
  }

  /** A piece followed by at least one more is written with a separator. */
  lemma JoinCons(p: string, ps: seq<string>, sep: string)
    requires ps != []
    ensures Join([p] + ps, sep) == p + sep + Join(ps, sep)
  {
    assert ([p] + ps)[1..] == ps;
  }

  /** Splitting loses nothing: the pieces joined again give the text. */
  lemma {:induction false} JoinSplit(s: string, sep: string)
    requires sep != []
    ensures Join(Split(s, sep), sep) == s
    decreases |s|
  {
    match FindSep(s, sep, 0)
    case None =>
      assert Split(s, sep) == [s];
    case Some(k) =>
      var head, rest := s[..k], s[k + |sep|..];
      var tail := Split(rest, sep);
      assert Split(s, sep) == [head] + tail;
      JoinSplit(rest, sep);
      JoinCons(head, tail, sep);
      OccursSlice(s, k, sep);
      assert s == head + s[k..k + |sep|] + rest;
  }

  /** No line-ending character in `t`. */
  predicate OneLine(t: string)
  {
    forall k :: 0 <= k < |t| ==> t[k] != '\r' && t[k] != '\n'
  }

  /** A separator made of line-ending characters cannot occur where a piece
      without them starts. */
  lemma NoSepIn(s: string, sep: string, t: string, k: nat)
    requires sep != [] && (forall i :: 0 <= i < |sep| ==> sep[i] == '\r' || sep[i] == '\n')
    requires OneLine(t) && k < |t| && Occurs(s, 0, t)
    ensures !Occurs(s, k, sep)
  {
    assert s[k + 0] == t[k];
    assert sep[0] == '\r' || sep[0] == '\n';
  }

  /** Where the parts of `a + b + c` sit. */
  lemma ThreeParts(a: string, b: string, c: string)
    ensures var s := a + b + c;
      Occurs(s, 0, a) && Occurs(s, |a|, b) && s[..|a|] == a && s[|a| + |b|..] == c
  {
    var s := a + b + c;
    forall i | 0 <= i < |a| ensures s[i] == a[i] {
      assert s[i] == (a + b)[i];
    }
    forall i | 0 <= i < |b| ensures s[|a| + i] == b[i] {
      assert s[|a| + i] == (a + b)[|a| + i];
    }
  }

  /** A separator made of line-ending characters does not start inside a
      first piece without them. */
  lemma NoSepBefore(s: string, sep: string, p: string)
    requires sep != [] && (forall i :: 0 <= i < |sep| ==> sep[i] == '\r' || sep[i] == '\n')
    requires OneLine(p) && Occurs(s, 0, p)
    ensures forall k: nat :: k < |p| ==> !Occurs(s, k, sep)
  {
    forall k: nat | k < |p| ensures !Occurs(s, k, sep) {
      NoSepIn(s, sep, p, k);
    }
  }

  /** Lines without line-ending characters, joined by a line ending, split
      back into the same lines. */
  lemma {:induction false} SplitJoin(ps: seq<string>, sep: string)
    requires |ps| >= 1 && sep != [] && (forall i :: 0 <= i < |sep| ==> sep[i] == '\r' || sep[i] == '\n')
    requires forall i :: 0 <= i < |ps| ==> OneLine(ps[i])
    ensures Split(Join(ps, sep), sep) == ps
    decreases |ps|
  {
    var s := Join(ps, sep);
    var p := ps[0];
    if |ps| == 1 {
      assert s == p;
      ThreeParts(p, [], []);
      NoSepBefore(s, sep, p);
      assert FindSep(s, sep, 0).None?;
    } else {
      var rest := Join(ps[1..], sep);
      assert ps == [p] + ps[1..];
      JoinCons(p, ps[1..], sep);
      ThreeParts(p, sep, rest);
      NoSepBefore(s, sep, p);
      assert FindSep(s, sep, 0) == Some(|p|);
      SplitJoin(ps[1..], sep);
    }
  }

  // ---------------------------------------------------------------------
  // `parse_kv`

  /** One line of the argument cut at its first `=` (`splitn(2, "=")`): the
      column before it and the pattern after it, which keeps any later `=`.
      A line without `=` reaches `unreachable!()`, and a pattern the engine
      refuses makes `unwrap` panic. */
  function KeyPattern(h: Host, line: string): (r: Exec<(string, string)>)
    ensures !r.Loops?
    ensures r.Returns? ==> line == r.value.0 + "=" + r.value.1 && '=' !in r.value.0 && h.regexValid(r.value.1)
    ensures '=' !in line ==> r.Panics?
  {
    match IndexOf(line, '=')
    case None => Panics
    case Some(k) =>
      assert line == line[..k] + "=" + line[k + 1..];
      assert forall i :: 0 <= i < k ==> line[..k][i] == line[i];
      if h.regexValid(line[k + 1..]) then Returns((line[..k], line[k + 1..])) else Panics
  }

  /** The lines' pairs inserted in order: `collect` into a `HashMap` keeps
      the later of two equal keys. */
  function CollectLines(h: Host, lines: seq<string>, acc: map<string, string>): (r: Exec<map<string, string>>)
    ensures !r.Loops?
    ensures r.Panics? <==> exists i :: 0 <= i < |lines| && KeyPattern(h, lines[i]).Panics?
    decreases |lines|
  {
    if lines == [] then Returns(acc)
    else
      match KeyPattern(h, lines[0])
      case Panics => Panics
      case Loops => Loops
      case Returns((k, p)) =>
        assert forall i :: 1 <= i < |lines| ==> lines[i] == lines[1..][i - 1];
        CollectLines(h, lines[1..], acc[k := p])
  }

  /** `parse_kv`: the map from column name to pattern. */
  function ParseKv(h: Host, windows: bool, kv: string): (r: Exec<map<string, string>>)
    ensures !r.Loops?
    ensures r.Panics? <==> exists line :: line in Split(kv, LineEnding(windows)) && KeyPattern(h, line).Panics?
  {
    var lines := Split(kv, LineEnding(windows));
    assert forall line :: line in lines <==> exists i :: 0 <= i < |lines| && lines[i] == line;
    CollectLines(h, lines, map[])
  }

  /** The empty argument splits into one empty line, which has no `=`. */
  lemma EmptyArgumentPanics(h: Host, windows: bool)
    ensures ParseKv(h, windows, "") == Panics
  {
    assert FindSep("", LineEnding(windows), 0).None?;
    assert Split("", LineEnding(windows)) == [""];
  }

  // ---------------------------------------------------------------------
  // Writing an argument: the partner of `parse_kv`

  /** The pattern of the last pair with key `k`, if any. */
  function LastPattern(ps: seq<(string, string)>, k: string): Option<string>
    decreases |ps|
  {
    if ps == [] then None
    else if ps[|ps| - 1].0 == k then Some(ps[|ps| - 1].1)
    else LastPattern(ps[..|ps| - 1], k)
  }

  /** The pairs inserted into `acc` in order. */
  function InsertPairs(ps: seq<(string, string)>, acc: map<string, string>): map<string, string>
    decreases |ps|
  {
    if ps == [] then acc else InsertPairs(ps[1..], acc[ps[0].0 := ps[0].1])
  }

  lemma {:induction false} InsertPairsSnoc(ps: seq<(string, string)>, p: (string, string), acc: map<string, string>)
    ensures InsertPairs(ps + [p], acc) == InsertPairs(ps, acc)[p.0 := p.1]
    decreases |ps|
  {
    if ps != [] {
      assert (ps + [p])[1..] == ps[1..] + [p];
      InsertPairsSnoc(ps[1..], p, acc[ps[0].0 := ps[0].1]);
    }
  }

  /** Inserting the pairs into an empty map keeps, for every key, the
      pattern of its last pair, and no other key. */
  lemma {:induction false} InsertPairsLast(ps: seq<(string, string)>, k: string)
    ensures k in InsertPairs(ps, map[]) <==> LastPattern(ps, k).Some?
    ensures k in InsertPairs(ps, map[]) ==> InsertPairs(ps, map[])[k] == LastPattern(ps, k).value
    decreases |ps|
  {
    if ps != [] {
      var init := ps[..|ps| - 1];
      assert ps == init + [ps[|ps| - 1]];
      InsertPairsSnoc(init, ps[|ps| - 1], map[]);
      InsertPairsLast(init, k);
    }
  }

  /** A line `column=pattern`. */
  function Line(p: (string, string)): string
  {
    p.0 + "=" + p.1
  }

  function Lines(ps: seq<(string, string)>): (r: seq<string>)
    ensures |r| == |ps| && forall i :: 0 <= i < |ps| ==> r[i] == Line(ps[i])
  {
    seq(|ps|, i requires 0 <= i < |ps| => Line(ps[i]))
  }

  /** A pair the argument can carry: a column without `=` and line endings,
      and a valid pattern without line endings. */
  predicate PairOk(h: Host, p: (string, string))
  {
    '=' !in p.0 && OneLine(p.0) && OneLine(p.1) && h.regexValid(p.1)
  }

  lemma KeyPatternOfLine(h: Host, p: (string, string))
    requires PairOk(h, p)
    ensures KeyPattern(h, Line(p)) == Returns(p)
  {
    var l := Line(p);
    assert l[|p.0|] == '=';
    forall i | 0 <= i < |p.0| ensures l[i] != '=' {
      assert l[i] == p.0[i];
    }
    assert l[..|p.0|] == p.0 && l[|p.0| + 1..] == p.1;
  }

  lemma {:induction false} CollectPairs(h: Host, ps: seq<(string, string)>, acc: map<string, string>)
    requires forall i :: 0 <= i < |ps| ==> PairOk(h, ps[i])
    ensures CollectLines(h, Lines(ps), acc) == Returns(InsertPairs(ps, acc))
    decreases |ps|
  {
    if ps != [] {
      KeyPatternOfLine(h, ps[0]);
      assert Lines(ps)[1..] == Lines(ps[1..]);
      CollectPairs(h, ps[1..], acc[ps[0].0 := ps[0].1]);
    }
  }

  /** An argument written as lines `column=pattern` reads back as the map in
      which every column holds the pattern of its last line. */
  lemma ParseKvRoundTrip(h: Host, windows: bool, ps: seq<(string, string)>, k: string)
    requires |ps| >= 1 && forall i :: 0 <= i < |ps| ==> PairOk(h, ps[i])
    ensures ParseKv(h, windows, Join(Lines(ps), LineEnding(windows))) == Returns(InsertPairs(ps, map[]))
    ensures k in InsertPairs(ps, map[]) <==> LastPattern(ps, k).Some?
    ensures k in InsertPairs(ps, map[]) ==> InsertPairs(ps, map[])[k] == LastPattern(ps, k).value
  {
    var ls := Lines(ps);
    forall i | 0 <= i < |ls| ensures OneLine(ls[i]) {
      var p := ps[i];
      forall j | 0 <= j < |Line(p)| ensures Line(p)[j] != '\r' && Line(p)[j] != '\n' {
        if j < |p.0| {
          assert Line(p)[j] == p.0[j];
        } else if j > |p.0| {
          assert Line(p)[j] == p.1[j - |p.0| - 1];
        }
      }
    }
    SplitJoin(ls, LineEnding(windows));
    CollectPairs(h, ps, map[]);
    InsertPairsLast(ps, k);
  }
}
