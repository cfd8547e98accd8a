/**
 * `FieldMap` (`src/parser/mod.rs`): an insertion-ordered map from field name
 * to value in which a repeated key turns its value into a `MultiValue`, read
 * back through a flattened sequence of (key, value) pairs.
 */
module FieldMaps {
  import opened Base
  import opened Values

  type Entry = (string, Value)

  /** The `IndexMap` behind a `FieldMap`, as its entries in insertion order. */
  datatype FieldMap = FieldMap(entries: seq<Entry>)

  /** Keys of an `IndexMap` are pairwise distinct. */
  predicate Valid(m: FieldMap)
  {
    forall i, j :: 0 <= i < j < |m.entries| ==> m.entries[i].0 != m.entries[j].0
  }

  function Empty(): (m: FieldMap)
    ensures Valid(m) && m.entries == []
  {
    FieldMap([])
  }

  /** Position of the entry holding key `k`. */
  function Find(es: seq<Entry>, k: string): (r: Option<nat>)
    ensures r.Some? ==> r.value < |es| && es[r.value].0 == k
    ensures r.Some? ==> forall i :: 0 <= i < r.value ==> es[i].0 != k
    ensures r.None? ==> forall i :: 0 <= i < |es| ==> es[i].0 != k
  {
    if es == [] then None
    else if es[0].0 == k then Some(0)
    else match Find(es[1..], k)
      case None => None
      case Some(p) => Some(p + 1)
  }

  /** The value a repeated key ends up with: a scalar becomes a two-element
      list, a list gets the new value appended. */
  function Promote(prev: Value, v: Value): (r: Value)
    ensures r.MultiValue? && Elements(r) == Elements(prev) + [v]
  {
    if prev.MultiValue? then MultiValue(prev.items + [v]) else MultiValue([prev, v])
  }

  /** `FieldMap::insert`. */
  function Insert(m: FieldMap, k: string, v: Value): (r: FieldMap)
    requires Valid(m)
    ensures Valid(r)
    ensures Find(m.entries, k).None? ==> r.entries == m.entries + [(k, v)]
    ensures Find(m.entries, k).Some? ==>
      var p := Find(m.entries, k).value;
      && |r.entries| == |m.entries|
      && r.entries[p].0 == k
      && Elements(r.entries[p].1) == Elements(m.entries[p].1) + [v]
      && (forall i :: 0 <= i < |m.entries| && i != p ==> r.entries[i] == m.entries[i])
  {
    match Find(m.entries, k)
    case None => FieldMap(m.entries + [(k, v)])
    case Some(p) => FieldMap(m.entries[p := (k, Promote(m.entries[p].1, v))])
  }

  /** `FieldMap::get`: the whole value stored under a key. */
  function Get(m: FieldMap, k: string): (r: Option<Value>)
    ensures r.Some? <==> exists i :: 0 <= i < |m.entries| && m.entries[i].0 == k
    ensures r.Some? ==> Find(m.entries, k).Some? && r.value == m.entries[Find(m.entries, k).value].1
    ensures Valid(m) ==> forall i :: 0 <= i < |m.entries| && m.entries[i].0 == k ==> r == Some(m.entries[i].1)
  {
    match Find(m.entries, k)
    case None => None
    case Some(p) => Some(m.entries[p].1)
  }

  function KeyPairs(k: string, vs: seq<Value>): (r: seq<Entry>)
    ensures |r| == |vs|
    ensures forall i :: 0 <= i < |vs| ==> r[i] == (k, vs[i])
  {
    if vs == [] then [] else [(k, vs[0])] + KeyPairs(k, vs[1..])
  }

  /** The pairs `FieldMap::iter` yields: every element of every value, paired
      with its key, in key order. */
  function Flatten(es: seq<Entry>): seq<Entry>
  {
    if es == [] then [] else KeyPairs(es[0].0, Elements(es[0].1)) + Flatten(es[1..])
  }

  function SumLen(es: seq<Entry>): nat
  {
    if es == [] then 0 else Len(es[0].1) + SumLen(es[1..])
  }

  /** `FieldMap::len`: the sum of the value lengths. */
  function Size(m: FieldMap): nat
  {
    SumLen(m.entries)
  }

  /** `len` counts exactly the pairs `iter` yields. */
  lemma {:induction false} SizeIsFlattenLength(es: seq<Entry>)
    ensures SumLen(es) == |Flatten(es)|
  {
    if es != [] {
      SizeIsFlattenLength(es[1..]);
    }
  }

  /** The loop of `FieldMap::get_index`: `inner` is the flattened position of
      the first pair of `es`. */
  function GetIndexFrom(es: seq<Entry>, index: nat, inner: nat): Option<Entry>
    requires inner <= index
    decreases |es|
  {
    if es == [] then None
    else if inner + Len(es[0].1) > index then Some((es[0].0, At(es[0].1, index - inner)))
    else GetIndexFrom(es[1..], index, inner + Len(es[0].1))
  }

  /** `FieldMap::get_index`. */
  function GetIndex(m: FieldMap, index: nat): Option<Entry>
  {
    GetIndexFrom(m.entries, index, 0)
  }

  lemma {:induction false} GetIndexFromIsFlattenIndex(es: seq<Entry>, index: nat, inner: nat)
    requires inner <= index
    ensures GetIndexFrom(es, index, inner)
      == if index - inner < |Flatten(es)| then Some(Flatten(es)[index - inner]) else None
    decreases |es|
  {
    if es != [] {
      var head := KeyPairs(es[0].0, Elements(es[0].1));
      if inner + Len(es[0].1) > index {
        IndexAgreesWithElements(es[0].1, index - inner);
      } else {
        GetIndexFromIsFlattenIndex(es[1..], index, inner + Len(es[0].1));
        assert Flatten(es) == head + Flatten(es[1..]);
      }
    }
  }

  /** `get_index(i)` is the i-th pair of the flattened iteration, and `None`
      from `len` on. */
  lemma GetIndexIsFlattenIndex(m: FieldMap, index: nat)
    ensures Size(m) == |Flatten(m.entries)|
    ensures GetIndex(m, index)
      == if index < Size(m) then Some(Flatten(m.entries)[index]) else None
  {
    GetIndexFromIsFlattenIndex(m.entries, index, 0);
    SizeIsFlattenLength(m.entries);
  }

  lemma FlattenAppend(es: seq<Entry>, more: seq<Entry>)
    ensures Flatten(es + more) == Flatten(es) + Flatten(more)
    decreases |es|
  {
    if es != [] {
      var kp := KeyPairs(es[0].0, Elements(es[0].1));
      assert Flatten(es + more) == kp + Flatten(es[1..] + more) by {
        assert (es + more)[0] == es[0];
        assert (es + more)[1..] == es[1..] + more;
      }
      assert Flatten(es[1..] + more) == Flatten(es[1..]) + Flatten(more) by {
        FlattenAppend(es[1..], more);
      }
      AppendAssoc(kp, Flatten(es[1..]), Flatten(more));
    } else {
      assert es + more == more;
    }
  }

  lemma SumLenAppend(es: seq<Entry>, more: seq<Entry>)
    ensures SumLen(es + more) == SumLen(es) + SumLen(more)
    decreases |es|
  {
    if es != [] {
      assert (es + more)[0] == es[0];
      assert (es + more)[1..] == es[1..] + more;
      SumLenAppend(es[1..], more);
    } else {
      assert es + more == more;
    }
  }

  lemma SumLenUpdate(es: seq<Entry>, p: nat, e: Entry)
    requires p < |es|
    ensures SumLen(es[p := e]) == SumLen(es) - Len(es[p].1) + Len(e.1)
    decreases |es|
  {
    if p > 0 {
      assert es[p := e][1..] == es[1..][p - 1 := e];
      SumLenUpdate(es[1..], p - 1, e);
    }
  }

  /** Inserting never loses a value: a new key adds all elements of the
      value, an existing key exactly one more. */
  lemma InsertSize(m: FieldMap, k: string, v: Value)
    requires Valid(m)
    ensures Find(m.entries, k).None? ==> Size(Insert(m, k, v)) == Size(m) + Len(v)
    ensures Find(m.entries, k).Some? ==> Size(Insert(m, k, v)) == Size(m) + 1
  {
    match Find(m.entries, k)
    case None =>
      SumLenAppend(m.entries, [(k, v)]);
    case Some(p) =>
      SumLenUpdate(m.entries, p, (k, Promote(m.entries[p].1, v)));
  }

  // ---------------------------------------------------------------------
  // Building a map from parsed text pairs: `From<Fields> for FieldMap`

  /** Inserting every pair, in order, with its text converted by
      `Value::from`. */
  function FromPairs(ps: seq<(string, string)>): (m: FieldMap)
    ensures Valid(m)
    decreases |ps|
  {
    if ps == [] then Empty()
    else Insert(FromPairs(ps[..|ps| - 1]), ps[|ps| - 1].0, FromText(ps[|ps| - 1].1))
  }

  /** The converted values of the pairs with key `k`, in order. */
  function ValuesOf(ps: seq<(string, string)>, k: string): seq<Value>
    decreases |ps|
  {
    if ps == [] then []
    else ValuesOf(ps[..|ps| - 1], k) + (if ps[|ps| - 1].0 == k then [FromText(ps[|ps| - 1].1)] else [])
  }

  /** How one insertion changes the entry of a key `k`. */
  lemma InsertFind(m: FieldMap, key: string, v: Value, k: string)
    requires Valid(m)
    ensures key != k ==> Find(Insert(m, key, v).entries, k) == Find(m.entries, k)
    ensures key != k && Find(m.entries, k).Some? ==>
      Insert(m, key, v).entries[Find(m.entries, k).value] == m.entries[Find(m.entries, k).value]
    ensures key == k ==> Find(Insert(m, key, v).entries, k).Some?
    ensures key == k ==>
      var r := Insert(m, key, v).entries;
      Elements(r[Find(r, k).value].1)
        == (if Find(m.entries, k).Some? then Elements(m.entries[Find(m.entries, k).value].1) + [v]
            else Elements(v))
  {
    var r := Insert(m, key, v).entries;
    match Find(m.entries, key)
    case None =>
      assert r == m.entries + [(key, v)];
      if key == k {
        assert r[|m.entries|].0 == k;
        assert Find(r, k) == Some(|m.entries|);
      } else {
        match Find(m.entries, k)
        case None =>
        case Some(q) =>
          assert r[q] == m.entries[q];
      }
    case Some(p) =>
      if key == k {
        assert r[p].0 == k;
        assert Find(r, k) == Some(p);
      } else {
        match Find(m.entries, k)
        case None =>
          assert forall i :: 0 <= i < |r| ==> r[i].0 != k by {
            forall i | 0 <= i < |r|
              ensures r[i].0 != k
            {
              if i != p {
                assert r[i] == m.entries[i];
              }
            }
          }
        case Some(q) =>
          assert r[q] == m.entries[q];
          forall i | 0 <= i < q
            ensures r[i].0 != k
          {
            if i != p {
              assert r[i] == m.entries[i];
            }
          }
          assert Find(r, k) == Some(q);
      }
  }

  /** After inserting a sequence of pairs, a key is present exactly when some
      pair carries it, and its elements are that key's values in order: no
      value is lost and none is reordered. */
  lemma {:induction false} FromPairsKeepsEveryValue(ps: seq<(string, string)>, k: string)
    ensures Find(FromPairs(ps).entries, k).None? <==> ValuesOf(ps, k) == []
    ensures Find(FromPairs(ps).entries, k).Some? ==>
      Elements(FromPairs(ps).entries[Find(FromPairs(ps).entries, k).value].1) == ValuesOf(ps, k)
    decreases |ps|
  {
    if ps != [] {
      var init := ps[..|ps| - 1];
      var (key, text) := ps[|ps| - 1];
      FromPairsKeepsEveryValue(init, k);
      InsertFind(FromPairs(init), key, FromText(text), k);
    }
  }

  /** Every converted pair is a scalar, so the map's `len` is the number of
      pairs inserted. */
  lemma {:induction false} FromPairsSize(ps: seq<(string, string)>)
    ensures Size(FromPairs(ps)) == |ps|
    decreases |ps|
  {
    if ps != [] {
      var init := ps[..|ps| - 1];
      FromPairsSize(init);
      InsertSize(FromPairs(init), ps[|ps| - 1].0, FromText(ps[|ps| - 1].1));
    }
  }

  // ---------------------------------------------------------------------
  // Looking a key up through the flattened pairs

  /** The value of the first pair with key `k`. */
  function FirstValue(ps: seq<Entry>, k: string): (r: Option<Value>)
    ensures r.Some? ==> exists i :: 0 <= i < |ps| && ps[i] == (k, r.value)
    ensures r.None? ==> forall i :: 0 <= i < |ps| ==> ps[i].0 != k
  {
    if ps == [] then None
    else if ps[0].0 == k then Some(ps[0].1)
    else FirstValue(ps[1..], k)
  }

  lemma FirstValueAppend(a: seq<Entry>, b: seq<Entry>, k: string)
    ensures FirstValue(a + b, k) == if FirstValue(a, k).Some? then FirstValue(a, k) else FirstValue(b, k)
    decreases |a|
  {
    if a != [] {
      assert (a + b)[0] == a[0];
      assert (a + b)[1..] == a[1..] + b;
      FirstValueAppend(a[1..], b, k);
    } else {
      assert a + b == b;
    }
  }

  /** Searching the flattened pairs for a key finds the first element of that
      key's value. */
  lemma {:induction false} FirstValueOfFlatten(es: seq<Entry>, k: string)
    requires Valid(FieldMap(es))
    ensures FirstValue(Flatten(es), k)
      == match Find(es, k)
         case None => None
         case Some(p) => if Elements(es[p].1) == [] then None else Some(Elements(es[p].1)[0])
    decreases |es|
  {
    if es != [] {
      var head := KeyPairs(es[0].0, Elements(es[0].1));
      FirstValueAppend(head, Flatten(es[1..]), k);
      assert Valid(FieldMap(es[1..])) by {
        forall i, j | 0 <= i < j < |es[1..]|
          ensures es[1..][i].0 != es[1..][j].0
        {
          assert es[1..][i] == es[i + 1] && es[1..][j] == es[j + 1];
        }
      }
      FirstValueOfFlatten(es[1..], k);
      if es[0].0 == k {
        if Elements(es[0].1) != [] {
          assert head[0] == (k, Elements(es[0].1)[0]);
        }
        forall i | 0 <= i < |es[1..]|
          ensures es[1..][i].0 != k
        {
          assert es[1..][i] == es[i + 1];
        }
      }
    }
  }
}
