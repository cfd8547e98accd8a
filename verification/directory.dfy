/**
 * The pure logic of `LogParser::parse_dir` (`src/parser/mod.rs`): choosing
 * the journal files of a directory by name, ordering them by the hour they
 * hold, cutting them into runs of equal hour, and merging the lines of each
 * run by time. The directory walk and the file reads are replaced by the
 * list of files with their text (after the three bytes of the byte-order
 * mark), in the order of the walk; the channel by the `Stream` of lines it
 * receives.
 */
module Directory {
  import opened Base
  import opened Host
  import opened Calendar
  import opened FieldParser
  import opened Records

  /** A file of the walk: its name and its text. */
  datatype DirFile = DirFile(name: string, data: string)

  /** A kept file with the hour its name stands for. */
  type Kept = (DirFile, int)

  // ---------------------------------------------------------------------
  // Choosing the files

  /** One step of the `filter_map`: a log name is decoded (an impossible
      date panics) and kept unless its hour is before the requested one. */
  function Select(h: Host, hourDate: Option<int>, f: DirFile): (r: Exec<Option<int>>)
    ensures !r.Loops?
    ensures !IsLogName(h, f.name) ==> r == Returns(None)
  {
    if !IsLogName(h, f.name) then Returns(None)
    else match NameHour(h, f.name)
      case Panics => Panics
      case Loops => Loops
      case Returns(t) => if hourDate.Some? && t < hourDate.value then Returns(None) else Returns(Some(t))
  }

  /** The `filter_map` and `collect`: the kept files in the order of the walk. */
  function SelectAll(h: Host, hourDate: Option<int>, fs: seq<DirFile>): (r: Exec<seq<Kept>>)
    ensures !r.Loops?
    ensures r.Returns? ==> |r.value| <= |fs|
    decreases |fs|
  {
    if fs == [] then Returns([])
    else match Select(h, hourDate, fs[0])
      case Panics => Panics
      case Loops => Loops
      case Returns(o) =>
        match SelectAll(h, hourDate, fs[1..])
        case Panics => Panics
        case Loops => Loops
        case Returns(ks) => Returns(if o.None? then ks else [(fs[0], o.value)] + ks)
  }

  /** A file is kept, with its hour, exactly when its name is a log name
      that decodes to that hour and the hour is not before the requested
      one. */
  lemma {:induction false} SelectAllKeeps(h: Host, hourDate: Option<int>, fs: seq<DirFile>, f: DirFile, t: int)
    requires SelectAll(h, hourDate, fs).Returns?
    ensures (f, t) in SelectAll(h, hourDate, fs).value <==>
      && f in fs && IsLogName(h, f.name) && NameHour(h, f.name) == Returns(t)
      && !(hourDate.Some? && t < hourDate.value)
    decreases |fs|
  {
    if fs != [] {
      SelectAllKeeps(h, hourDate, fs[1..], f, t);
      assert f in fs <==> f == fs[0] || f in fs[1..] by {
        assert fs == [fs[0]] + fs[1..];
      }
    }
  }

  /** Selection panics exactly when some log name of the walk names an
      impossible date or hour. */
  lemma {:induction false} SelectAllPanics(h: Host, hourDate: Option<int>, fs: seq<DirFile>)
    ensures SelectAll(h, hourDate, fs).Panics? <==>
      exists i :: 0 <= i < |fs| && IsLogName(h, fs[i].name) && NameHour(h, fs[i].name).Panics?
    decreases |fs|
  {
    if fs != [] {
      SelectAllPanics(h, hourDate, fs[1..]);
      if exists i :: 0 <= i < |fs[1..]| && IsLogName(h, fs[1..][i].name) && NameHour(h, fs[1..][i].name).Panics? {
        var i :| 0 <= i < |fs[1..]| && IsLogName(h, fs[1..][i].name) && NameHour(h, fs[1..][i].name).Panics?;
        assert fs[i + 1] == fs[1..][i];
      }
      if exists i :: 0 <= i < |fs| && IsLogName(h, fs[i].name) && NameHour(h, fs[i].name).Panics? {
        var i :| 0 <= i < |fs| && IsLogName(h, fs[i].name) && NameHour(h, fs[i].name).Panics?;
        if i > 0 {
          assert fs[1..][i - 1] == fs[i];
        }
      }
    }
  }

  /** `date.date().and_hms(date.hour(), 0, 0)` for the requested instant. */
  function HourOf(date: Option<int>): Option<int>
  {
    match date
    case None => None
    case Some(t) => Some(HourStart(t))
  }

  // ---------------------------------------------------------------------
  // Ordering by hour

  predicate SortedByHour(s: seq<Kept>)
  {
    forall i, j :: 0 <= i < j < |s| ==> s[i].1 <= s[j].1
  }

  /** Inserting before the first file of the same or a later hour. */
  function InsertByHour(x: Kept, s: seq<Kept>): (r: seq<Kept>)
    ensures multiset(r) == multiset(s) + multiset{x}
    ensures r != [] && (r[0] == x || (s != [] && r[0] == s[0]))
    ensures SortedByHour(s) ==> SortedByHour(r)
    decreases |s|
  {
    if s == [] || x.1 <= s[0].1 then [x] + s
    else
      var t := InsertByHour(x, s[1..]);
      InsertBehind(x, s, t);
      [s[0]] + t
  }

  /** The step of `InsertByHour` that keeps the head in front. */
  lemma InsertBehind(x: Kept, s: seq<Kept>, t: seq<Kept>)
    requires s != [] && s[0].1 < x.1
    requires multiset(t) == multiset(s[1..]) + multiset{x}
    requires t != [] && (t[0] == x || (s[1..] != [] && t[0] == s[1..][0]))
    requires SortedByHour(s[1..]) ==> SortedByHour(t)
    ensures multiset([s[0]] + t) == multiset(s) + multiset{x}
    ensures SortedByHour(s) ==> SortedByHour([s[0]] + t)
  {
    assert s == [s[0]] + s[1..];
    if SortedByHour(s) {
      assert SortedByHour(s[1..]);
      var r := [s[0]] + t;
      forall i, j | 0 <= i < j < |r|
        ensures r[i].1 <= r[j].1
      {
        if i == 0 {
          assert r[1] == t[0] && t[0].1 <= r[j].1;
        }
      }
    }
  }

  /** `sort_by` on the hour. The sort is stable, and a stable sort has only
      one possible result, so insertion sort stands for it. */
  function SortByHour(s: seq<Kept>): (r: seq<Kept>)
    ensures multiset(r) == multiset(s)
    ensures SortedByHour(r)
    decreases |s|
  {
    if s == [] then []
    else
      assert s == [s[0]] + s[1..];
      InsertByHour(s[0], SortByHour(s[1..]))
  }

  /** The files of hour `t`, in order. */
  function WithHour(s: seq<Kept>, t: int): seq<Kept>
    decreases |s|
  {
    if s == [] then [] else (if s[0].1 == t then [s[0]] else []) + WithHour(s[1..], t)
  }

  lemma {:induction false} InsertWithHour(x: Kept, s: seq<Kept>, t: int)
    ensures WithHour(InsertByHour(x, s), t) == (if x.1 == t then [x] else []) + WithHour(s, t)
    decreases |s|
  {
    var r := InsertByHour(x, s);
    var hx: seq<Kept> := if x.1 == t then [x] else [];
    if s == [] || x.1 <= s[0].1 {
      assert r == [x] + s;
      assert r[0] == x && r[1..] == s;
    } else {
      var rest := InsertByHour(x, s[1..]);
      var h0: seq<Kept> := if s[0].1 == t then [s[0]] else [];
      assert r == [s[0]] + rest;
      assert r[0] == s[0] && r[1..] == rest;
      assert WithHour(r, t) == h0 + WithHour(rest, t);
      assert WithHour(rest, t) == hx + WithHour(s[1..], t) by {
        InsertWithHour(x, s[1..], t);
      }
      assert WithHour(s, t) == h0 + WithHour(s[1..], t);
      assert h0 == [] || hx == [];
      AppendAssoc(h0, hx, WithHour(s[1..], t));
      AppendAssoc(hx, h0, WithHour(s[1..], t));
    }
  }

  /** Sorting keeps the walk order among files of the same hour. */
  lemma {:induction false} SortStable(s: seq<Kept>, t: int)
    ensures WithHour(SortByHour(s), t) == WithHour(s, t)
    decreases |s|
  {
    if s != [] {
      SortStable(s[1..], t);
      InsertWithHour(s[0], SortByHour(s[1..]), t);
    }
  }

  // ---------------------------------------------------------------------
  // Runs of equal hour

  function Last<T>(s: seq<T>): T
    requires s != []
  {
    s[|s| - 1]
  }

  /** One step of the `fold`: a file starts a new run when there is none,
      when the last run is empty, or when the last file's hour differs;
      otherwise it joins the last run. */
  function GroupStep(acc: seq<seq<Kept>>, x: Kept): (r: seq<seq<Kept>>)
    ensures r != []
  {
    if acc == [] then [[x]]
    else if Last(acc) == [] || Last(Last(acc)).1 != x.1 then acc + [[x]]
    else acc[..|acc| - 1] + [Last(acc) + [x]]
  }

  /** The `fold` over the sorted files. */
  function Groups(s: seq<Kept>): (gs: seq<seq<Kept>>)
    ensures gs == [] <==> s == []
    decreases |s|
  {
    if s == [] then [] else GroupStep(Groups(s[..|s| - 1]), Last(s))
  }

  function Concat(gs: seq<seq<Kept>>): seq<Kept>
    decreases |gs|
  {
    if gs == [] then [] else Concat(gs[..|gs| - 1]) + Last(gs)
  }

  /** Non-empty runs, each of one hour, neighbours of different hours. */
  predicate Grouped(gs: seq<seq<Kept>>)
  {
    && (forall k :: 0 <= k < |gs| ==> gs[k] != [])
    && (forall k, i :: 0 <= k < |gs| && 0 <= i < |gs[k]| ==> gs[k][i].1 == gs[k][0].1)
    && (forall k :: 0 <= k < |gs| - 1 ==> gs[k][0].1 != gs[k + 1][0].1)
  }

  predicate Ascending(gs: seq<seq<Kept>>)
    requires forall k :: 0 <= k < |gs| ==> gs[k] != []
  {
    forall k :: 0 <= k < |gs| - 1 ==> gs[k][0].1 < gs[k + 1][0].1
  }

  lemma ConcatSnoc(gs: seq<seq<Kept>>, g: seq<Kept>)
    ensures Concat(gs + [g]) == Concat(gs) + g
  {
    assert (gs + [g])[..|gs|] == gs;
  }

  lemma ConcatReplaceLast(gs: seq<seq<Kept>>, x: Kept)
    requires gs != []
    ensures Concat(gs[..|gs| - 1] + [Last(gs) + [x]]) == Concat(gs) + [x]
  {
    var init := gs[..|gs| - 1];
    ConcatSnoc(init, Last(gs) + [x]);
    AppendAssoc(Concat(init), Last(gs), [x]);
  }

  lemma LastOfConcat(gs: seq<seq<Kept>>)
    requires gs != [] && Last(gs) != []
    ensures Concat(gs) != [] && Last(Concat(gs)) == Last(Last(gs))
  {
  }

  /** The runs are a partition of the sorted files into maximal runs of
      equal hour; for sorted files they come in ascending order of hour. */
  lemma {:induction false} GroupsPartition(s: seq<Kept>)
    ensures Concat(Groups(s)) == s
    ensures Grouped(Groups(s))
    ensures SortedByHour(s) ==> Ascending(Groups(s))
    decreases |s|
  {
    if s != [] {
      var init := s[..|s| - 1];
      var x := Last(s);
      var acc := Groups(init);
      assert Concat(acc) == init && Grouped(acc) && (SortedByHour(init) ==> Ascending(acc)) by {
        GroupsPartition(init);
      }
      assert s == init + [x];
      assert SortedByHour(s) ==> SortedByHour(init);
      assert Groups(s) == GroupStep(acc, x);
      GroupStepKeeps(acc, x, s);
    }
  }

  lemma GroupStepKeeps(acc: seq<seq<Kept>>, x: Kept, s: seq<Kept>)
    requires s != [] && s == Concat(acc) + [x]
    requires Grouped(acc) && (SortedByHour(s[..|s| - 1]) ==> Ascending(acc))
    requires SortedByHour(s) ==> SortedByHour(s[..|s| - 1])
    ensures Concat(GroupStep(acc, x)) == s
    ensures Grouped(GroupStep(acc, x))
    ensures SortedByHour(s) ==> Ascending(GroupStep(acc, x))
  {
    assert s[..|s| - 1] == Concat(acc);
    if acc == [] {
      assert Concat(acc) == [];
      assert GroupStep(acc, x) == [[x]];
      assert Concat([[x]]) == Concat([]) + [x];
    } else if Last(acc) == [] || Last(Last(acc)).1 != x.1 {
      assert GroupStep(acc, x) == acc + [[x]];
      ConcatSnoc(acc, [x]);
      GroupStepNew(acc, x, s);
    } else {
      assert GroupStep(acc, x) == acc[..|acc| - 1] + [Last(acc) + [x]];
      ConcatReplaceLast(acc, x);
      GroupStepJoin(acc, x);
    }
  }

  lemma GroupStepNew(acc: seq<seq<Kept>>, x: Kept, s: seq<Kept>)
    requires acc != [] && Grouped(acc) && Last(Last(acc)).1 != x.1
    requires s == Concat(acc) + [x]
    requires SortedByHour(s[..|s| - 1]) ==> Ascending(acc)
    ensures Grouped(acc + [[x]])
    ensures SortedByHour(s) ==> Ascending(acc + [[x]])
  {
    LastHour(acc);
    GroupedSnoc(acc, [x]);
    if SortedByHour(s) {
      LastBefore(acc, x, s);
      AscendingSnoc(acc, [x]);
    }
  }

  /** In a run of one hour the last file's hour is the run's. */
  lemma LastHour(acc: seq<seq<Kept>>)
    requires acc != [] && Grouped(acc)
    ensures Last(acc)[0].1 == Last(Last(acc)).1
  {
    var n := |acc| - 1;
    assert Last(acc) == acc[n];
    assert acc[n][|acc[n]| - 1].1 == acc[n][0].1;
  }

  /** In sorted files the last run's hour is at most the next file's. */
  lemma LastBefore(acc: seq<seq<Kept>>, x: Kept, s: seq<Kept>)
    requires acc != [] && Last(acc) != []
    requires s == Concat(acc) + [x] && SortedByHour(s)
    ensures SortedByHour(s[..|s| - 1]) && Last(Last(acc)).1 <= x.1
  {
    LastOfConcat(acc);
    var p := s[..|s| - 1];
    assert p == Concat(acc);
    assert forall i :: 0 <= i < |p| ==> p[i] == s[i];
    assert s[|s| - 2] == Last(Last(acc)) && s[|s| - 1] == x;
    assert SortedByHour(p);
  }

  lemma GroupedSnoc(acc: seq<seq<Kept>>, g: seq<Kept>)
    requires Grouped(acc) && g != []
    requires forall i :: 0 <= i < |g| ==> g[i].1 == g[0].1
    requires acc != [] ==> Last(acc)[0].1 != g[0].1
    ensures Grouped(acc + [g])
  {
    var r := acc + [g];
    assert forall k :: 0 <= k < |acc| ==> r[k] == acc[k];
    assert r[|acc|] == g;
  }

  lemma AscendingSnoc(acc: seq<seq<Kept>>, g: seq<Kept>)
    requires (forall k :: 0 <= k < |acc| ==> acc[k] != []) && Ascending(acc) && g != []
    requires acc != [] ==> Last(acc)[0].1 < g[0].1
    ensures Ascending(acc + [g])
  {
    var r := acc + [g];
    assert forall k :: 0 <= k < |acc| ==> r[k] == acc[k];
    assert r[|acc|] == g;
  }

  lemma GroupStepJoin(acc: seq<seq<Kept>>, x: Kept)
    requires acc != [] && Grouped(acc) && Last(acc) != [] && Last(Last(acc)).1 == x.1
    ensures Grouped(acc[..|acc| - 1] + [Last(acc) + [x]])
    ensures Ascending(acc) ==> Ascending(acc[..|acc| - 1] + [Last(acc) + [x]])
  {
    var r := acc[..|acc| - 1] + [Last(acc) + [x]];
    var n := |acc|;
    assert forall k :: 0 <= k < n - 1 ==> r[k] == acc[k];
    assert r[n - 1] == Last(acc) + [x];
    assert r[n - 1][0] == acc[n - 1][0];
    assert Last(acc)[|Last(acc)| - 1].1 == Last(acc)[0].1;
  }
}
