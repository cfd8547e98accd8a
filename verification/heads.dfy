/**
 * The selection rule of the merge in `LogParser::parse_dir`
 * (`src/parser/mod.rs`) and a reference k-way merge over queues of records
 * built from it: every queue lends its first record as a head, and each
 * round sends the first head with the earliest time. The merge over files
 * is shown to compute this reference merge when the files hold well-formed
 * lines; here the reference merge is shown to keep every record and, for
 * queues in time order, to send them in time order.
 */
module HeadMerge {
  import opened Base
  import opened Records

  predicate AllNone(heads: seq<Option<LogString>>)
  {
    forall i :: 0 <= i < |heads| ==> heads[i].None?
  }

  /** The `min_by` fold over the full heads, comparing `get("time")`, which
      is the head's instant: a later head replaces the best so far only when
      it is strictly earlier. */
  function MinFrom(heads: seq<Option<LogString>>, i: nat, best: Option<nat>): (r: Option<nat>)
    requires i <= |heads|
    requires best.Some? ==> best.value < i && heads[best.value].Some?
    requires best.Some? ==> forall j :: 0 <= j < i && heads[j].Some? ==>
      heads[best.value].value.time <= heads[j].value.time
    requires best.Some? ==> forall j :: 0 <= j < best.value && heads[j].Some? ==>
      heads[best.value].value.time < heads[j].value.time
    requires best.None? ==> forall j :: 0 <= j < i ==> heads[j].None?
    ensures r.None? <==> AllNone(heads)
    ensures r.Some? ==> r.value < |heads| && heads[r.value].Some?
    ensures r.Some? ==> forall j :: 0 <= j < |heads| && heads[j].Some? ==>
      heads[r.value].value.time <= heads[j].value.time
    ensures r.Some? ==> forall j :: 0 <= j < r.value && heads[j].Some? ==>
      heads[r.value].value.time < heads[j].value.time
    decreases |heads| - i
  {
    if i == |heads| then best
    else if heads[i].None? then MinFrom(heads, i + 1, best)
    else if best.None? || heads[best.value].value.time > heads[i].value.time then MinFrom(heads, i + 1, Some(i))
    else MinFrom(heads, i + 1, best)
  }

  /** The index of the first head with the earliest time, if any head is
      full. */
  function FirstMin(heads: seq<Option<LogString>>): (r: Option<nat>)
    ensures r.None? <==> AllNone(heads)
    ensures r.Some? ==> r.value < |heads| && heads[r.value].Some?
    ensures r.Some? ==> forall j :: 0 <= j < |heads| && heads[j].Some? ==>
      heads[r.value].value.time <= heads[j].value.time
    ensures r.Some? ==> forall j :: 0 <= j < r.value && heads[j].Some? ==>
      heads[r.value].value.time < heads[j].value.time
  {
    MinFrom(heads, 0, None)
  }
  /** One queue and its head after a refill: an empty head takes the first
      record of its queue, if there is one. */
  function Pop(q: seq<LogString>, o: Option<LogString>): (r: (seq<LogString>, Option<LogString>))
    ensures r.1.None? ==> r.0 == []
    ensures o.Some? ==> r == (q, o)
    ensures o.None? && q != [] ==> r.1.Some? && [r.1.value] + r.0 == q
  {
    if o.None? && q != [] then (q[1..], Some(q[0])) else (q, o)
  }

  /** Every empty head takes the first record of its queue. */
  function KFill(qs: seq<seq<LogString>>, heads: seq<Option<LogString>>)
    : (r: (seq<seq<LogString>>, seq<Option<LogString>>))
    requires |qs| == |heads|
    ensures |r.0| == |qs| && |r.1| == |qs|
    ensures forall j :: 0 <= j < |qs| ==> (r.0[j], r.1[j]) == Pop(qs[j], heads[j])
  {
    (seq(|qs|, j requires 0 <= j < |qs| => Pop(qs[j], heads[j]).0),
     seq(|qs|, j requires 0 <= j < |qs| => Pop(qs[j], heads[j]).1))
  }

  function Size(q: seq<LogString>, o: Option<LogString>): nat
  {
    |q| + if o.Some? then 1 else 0
  }

  /** The number of records still to send: all queues and all full heads. */
  function KSize(qs: seq<seq<LogString>>, heads: seq<Option<LogString>>): nat
    requires |qs| == |heads|
    decreases |qs|
  {
    if qs == [] then 0 else Size(qs[0], heads[0]) + KSize(qs[1..], heads[1..])
  }

  lemma {:induction false} KSizeUpdate(qs: seq<seq<LogString>>, heads: seq<Option<LogString>>, i: nat,
                                       q: seq<LogString>, o: Option<LogString>)
    requires |qs| == |heads| && i < |qs|
    ensures KSize(qs[i := q], heads[i := o]) + Size(qs[i], heads[i]) == KSize(qs, heads) + Size(q, o)
    decreases i
  {
    if i > 0 {
      assert qs[i := q][1..] == qs[1..][i - 1 := q];
      assert heads[i := o][1..] == heads[1..][i - 1 := o];
      KSizeUpdate(qs[1..], heads[1..], i - 1, q, o);
    }
  }

  lemma {:induction false} KSizePointwise(qs: seq<seq<LogString>>, heads: seq<Option<LogString>>,
                                          qs': seq<seq<LogString>>, heads': seq<Option<LogString>>)
    requires |qs| == |heads| == |qs'| == |heads'|
    requires forall j :: 0 <= j < |qs| ==> Size(qs[j], heads[j]) == Size(qs'[j], heads'[j])
    ensures KSize(qs, heads) == KSize(qs', heads')
    decreases |qs|
  {
    if qs != [] {
      KSizePointwise(qs[1..], heads[1..], qs'[1..], heads'[1..]);
    }
  }

  lemma KFillSize(qs: seq<seq<LogString>>, heads: seq<Option<LogString>>)
    requires |qs| == |heads|
    ensures KSize(KFill(qs, heads).0, KFill(qs, heads).1) == KSize(qs, heads)
  {
    var (q2, h2) := KFill(qs, heads);
    forall j | 0 <= j < |qs| ensures Size(q2[j], h2[j]) == Size(qs[j], heads[j]) {
      assert (q2[j], h2[j]) == Pop(qs[j], heads[j]);
    }
    KSizePointwise(q2, h2, qs, heads);
  }

  /** Rounds of refilling and sending the first earliest head, until every
      head stays empty. */
  function KMerge(qs: seq<seq<LogString>>, heads: seq<Option<LogString>>): seq<LogString>
    requires |qs| == |heads|
    decreases KSize(qs, heads)
  {
    var (q2, h2) := KFill(qs, heads);
    match FirstMin(h2)
    case None => []
    case Some(m) =>
      KFillSize(qs, heads);
      KSizeUpdate(q2, h2, m, q2[m], None);
      assert q2[m := q2[m]] == q2;
      [h2[m].value] + KMerge(q2, h2[m := None])
  }

  /** One round of the reference merge. */
  lemma KMergeStep(qs: seq<seq<LogString>>, heads: seq<Option<LogString>>)
    requires |qs| == |heads|
    ensures var (q2, h2) := KFill(qs, heads);
      && (FirstMin(h2).None? ==> KMerge(qs, heads) == [])
      && (FirstMin(h2).Some? ==>
            var m := FirstMin(h2).value;
            && KSize(q2, h2[m := None]) < KSize(qs, heads)
            && KMerge(qs, heads) == [h2[m].value] + KMerge(q2, h2[m := None]))
  {
    var (q2, h2) := KFill(qs, heads);
    if FirstMin(h2).Some? {
      var m := FirstMin(h2).value;
      KFillSize(qs, heads);
      KSizeUpdate(q2, h2, m, q2[m], None);
      assert q2[m := q2[m]] == q2;
    }
  }

  // ---------------------------------------------------------------------
  // Nothing is lost

  function Bag(q: seq<LogString>, o: Option<LogString>): multiset<LogString>
  {
    multiset(q) + if o.Some? then multiset{o.value} else multiset{}
  }

  /** All records still to send, as a multiset. */
  function Items(qs: seq<seq<LogString>>, heads: seq<Option<LogString>>): multiset<LogString>
    requires |qs| == |heads|
    decreases |qs|
  {
    if qs == [] then multiset{} else Bag(qs[0], heads[0]) + Items(qs[1..], heads[1..])
  }

  /** Emptying a full head removes just its record. */
  lemma {:induction false} ItemsTake(qs: seq<seq<LogString>>, heads: seq<Option<LogString>>, i: nat)
    requires |qs| == |heads| && i < |qs| && heads[i].Some?
    ensures Items(qs, heads[i := None]) + multiset{heads[i].value} == Items(qs, heads)
    decreases i
  {
    var heads' := heads[i := None];
    if i > 0 {
      assert heads'[1..] == heads[1..][i - 1 := None];
      ItemsTake(qs[1..], heads[1..], i - 1);
      assert Items(qs, heads') == Bag(qs[0], heads[0]) + Items(qs[1..], heads'[1..]);
    } else {
      assert heads'[1..] == heads[1..];
      assert Items(qs, heads') == Bag(qs[0], None) + Items(qs[1..], heads[1..]);
    }
  }

  lemma {:induction false} ItemsPointwise(qs: seq<seq<LogString>>, heads: seq<Option<LogString>>,
                                          qs': seq<seq<LogString>>, heads': seq<Option<LogString>>)
    requires |qs| == |heads| == |qs'| == |heads'|
    requires forall j :: 0 <= j < |qs| ==> Bag(qs[j], heads[j]) == Bag(qs'[j], heads'[j])
    ensures Items(qs, heads) == Items(qs', heads')
    decreases |qs|
  {
    if qs != [] {
      ItemsPointwise(qs[1..], heads[1..], qs'[1..], heads'[1..]);
    }
  }

  lemma KFillItems(qs: seq<seq<LogString>>, heads: seq<Option<LogString>>)
    requires |qs| == |heads|
    ensures Items(KFill(qs, heads).0, KFill(qs, heads).1) == Items(qs, heads)
  {
    var (q2, h2) := KFill(qs, heads);
    forall j | 0 <= j < |qs| ensures Bag(q2[j], h2[j]) == Bag(qs[j], heads[j]) {
      assert (q2[j], h2[j]) == Pop(qs[j], heads[j]);
      if heads[j].None? && qs[j] != [] {
        assert qs[j] == [h2[j].value] + q2[j];
      }
    }
    ItemsPointwise(q2, h2, qs, heads);
  }

  /** Nothing is left once every head is empty after a refill. */
  lemma {:induction false} EmptyItems(qs: seq<seq<LogString>>, heads: seq<Option<LogString>>)
    requires |qs| == |heads| && AllNone(heads)
    requires forall j :: 0 <= j < |qs| ==> qs[j] == []
    ensures Items(qs, heads) == multiset{}
    decreases |qs|
  {
    if qs != [] {
      EmptyItems(qs[1..], heads[1..]);
    }
  }

  /** The merge sends every record of every queue and every full head,
      each exactly as often as it occurs. */
  lemma {:induction false} KMergeKeepsAll(qs: seq<seq<LogString>>, heads: seq<Option<LogString>>)
    requires |qs| == |heads|
    ensures multiset(KMerge(qs, heads)) == Items(qs, heads)
    decreases KSize(qs, heads)
  {
    var (q2, h2) := KFill(qs, heads);
    KFillItems(qs, heads);
    KMergeStep(qs, heads);
    match FirstMin(h2)
    case None =>
      forall j | 0 <= j < |q2| ensures q2[j] == [] {
        assert (q2[j], h2[j]) == Pop(qs[j], heads[j]);
      }
      EmptyItems(q2, h2);
    case Some(m) =>
      var x, h3 := h2[m].value, h2[m := None];
      KMergeKeepsAll(q2, h3);
      ItemsTake(q2, h2, m);
      assert multiset([x] + KMerge(q2, h3)) == multiset{x} + multiset(KMerge(q2, h3));
  }

  // ---------------------------------------------------------------------
  // Records come out in time order

  predicate SortedByTime(s: seq<LogString>)
  {
    forall i, j :: 0 <= i < j < |s| ==> s[i].time <= s[j].time
  }

  /** `lo`, when there is one, is at most `t`. */
  predicate Above(lo: Option<int>, t: int)
  {
    lo.None? || lo.value <= t
  }

  /** A queue in time order that starts no earlier than its head, with
      nothing earlier than `lo`. */
  predicate SlotOrdered(q: seq<LogString>, o: Option<LogString>, lo: Option<int>)
  {
    && SortedByTime(q)
    && (forall k :: 0 <= k < |q| ==> Above(lo, q[k].time))
    && (o.Some? ==> Above(lo, o.value.time))
    && (o.Some? ==> forall k :: 0 <= k < |q| ==> o.value.time <= q[k].time)
  }

  predicate Ordered(qs: seq<seq<LogString>>, heads: seq<Option<LogString>>, lo: Option<int>)
    requires |qs| == |heads|
  {
    forall i :: 0 <= i < |qs| ==> SlotOrdered(qs[i], heads[i], lo)
  }

  lemma PopOrdered(q: seq<LogString>, o: Option<LogString>, lo: Option<int>)
    requires SlotOrdered(q, o, lo)
    ensures SlotOrdered(Pop(q, o).0, Pop(q, o).1, lo)
  {
    if o.None? && q != [] {
      var q' := q[1..];
      forall k | 0 <= k < |q'| ensures q'[k] == q[k + 1] {}
    }
  }

  lemma KFillOrdered(qs: seq<seq<LogString>>, heads: seq<Option<LogString>>, lo: Option<int>)
    requires |qs| == |heads| && Ordered(qs, heads, lo)
    ensures Ordered(KFill(qs, heads).0, KFill(qs, heads).1, lo)
  {
    var (q2, h2) := KFill(qs, heads);
    forall i | 0 <= i < |qs| ensures SlotOrdered(q2[i], h2[i], lo) {
      assert (q2[i], h2[i]) == Pop(qs[i], heads[i]);
      PopOrdered(qs[i], heads[i], lo);
    }
  }

  lemma Raise(q: seq<LogString>, o: Option<LogString>, lo: Option<int>, t: int)
    requires SlotOrdered(q, o, lo) && (o.Some? ==> t <= o.value.time) && (o.None? ==> q == [])
    ensures SlotOrdered(q, o, Some(t))
  {
  }

  lemma SendOrdered(q2: seq<seq<LogString>>, h2: seq<Option<LogString>>, lo: Option<int>, m: nat)
    requires |q2| == |h2| && Ordered(q2, h2, lo)
    requires forall j :: 0 <= j < |q2| && h2[j].None? ==> q2[j] == []
    requires FirstMin(h2) == Some(m)
    ensures Ordered(q2, h2[m := None], Some(h2[m].value.time))
  {
    var t := h2[m].value.time;
    var h3 := h2[m := None];
    forall i | 0 <= i < |q2| ensures SlotOrdered(q2[i], h3[i], Some(t)) {
      if i == m {
        assert SlotOrdered(q2[m], h2[m], lo);
        assert forall k :: 0 <= k < |q2[m]| ==> t <= q2[m][k].time;
      } else {
        Raise(q2[i], h2[i], lo, t);
      }
    }
  }

  lemma ConsSorted(x: LogString, rest: seq<LogString>, lo: Option<int>)
    requires SortedByTime(rest) && Above(lo, x.time)
    requires forall k :: 0 <= k < |rest| ==> Above(Some(x.time), rest[k].time)
    ensures SortedByTime([x] + rest)
    ensures forall k :: 0 <= k < |[x] + rest| ==> Above(lo, ([x] + rest)[k].time)
  {
    var out := [x] + rest;
    forall i, j | 0 <= i < j < |out| ensures out[i].time <= out[j].time {
      assert out[j] == rest[j - 1];
      if i > 0 {
        assert out[i] == rest[i - 1];
      }
    }
  }

  /** For queues in time order, the merge sends records in time order, none
      earlier than `lo`. */
  lemma {:induction false} KMergeSorted(qs: seq<seq<LogString>>, heads: seq<Option<LogString>>, lo: Option<int>)
    requires |qs| == |heads| && Ordered(qs, heads, lo)
    ensures SortedByTime(KMerge(qs, heads))
    ensures forall k :: 0 <= k < |KMerge(qs, heads)| ==> Above(lo, KMerge(qs, heads)[k].time)
    decreases KSize(qs, heads)
  {
    var (q2, h2) := KFill(qs, heads);
    KFillOrdered(qs, heads, lo);
    KMergeStep(qs, heads);
    match FirstMin(h2)
    case None =>
    case Some(m) =>
      var t, h3 := h2[m].value.time, h2[m := None];
      assert Above(lo, t) by {
        assert SlotOrdered(q2[m], h2[m], lo);
      }
      forall j | 0 <= j < |q2| && h2[j].None? ensures q2[j] == [] {
        assert (q2[j], h2[j]) == Pop(qs[j], heads[j]);
      }
      SendOrdered(q2, h2, lo, m);
      var rest := KMerge(q2, h3);
      KMergeSorted(q2, h3, Some(t));
      ConsSorted(h2[m].value, rest, lo);
  }
}
