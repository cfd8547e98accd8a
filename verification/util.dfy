/**
 * The helpers of `src/util.rs`: the search of an indexed iterator for an
 * item, and the cutting of a text into pieces of bounded width for display.
 */
module Util {
  import opened Base

  // ---------------------------------------------------------------------
  // `read_until`

  /** `read_until` over the items an iterator has left, each paired with its
      index: the index of the first item equal to `search`, and how many
      items the loop took from the iterator (through the match, or all of
      them). */
  function ReadUntil<T(==)>(items: seq<(nat, T)>, search: T): (r: (Option<nat>, nat))
    ensures r.1 <= |items|
    ensures r.0.None? ==> r.1 == |items| && forall k :: 0 <= k < |items| ==> items[k].1 != search
    ensures r.0.Some? ==> 0 < r.1 && items[r.1 - 1] == (r.0.value, search)
    ensures r.0.Some? ==> forall k :: 0 <= k < r.1 - 1 ==> items[k].1 != search
    decreases |items|
  {
    if items == [] then (None, 0)
    else if items[0].1 == search then (Some(items[0].0), 1)
    else
      var (o, n) := ReadUntil(items[1..], search);
      (o, n + 1)
  }

  /** The characters of `s` from position `j` on, each with its position, as
      `chars().enumerate()` yields them once `j` of them are taken. */
  function Indexed(s: string, j: nat): (r: seq<(nat, char)>)
    requires j <= |s|
    ensures |r| == |s| - j && forall k :: 0 <= k < |r| ==> r[k] == (j + k, s[j + k])
  {
    seq(|s| - j, k requires 0 <= k < |s| - j => (j + k, s[j + k]))
  }

  /** Over an enumerated text the search finds the first occurrence at or
      after `j`, as the scan of the older reader does, and leaves the
      iterator just past it (or at the end). */
  lemma ReadUntilScan(s: string, j: nat, c: char)
    requires j <= |s|
    ensures var p := ScanFor(s, j, c);
      ReadUntil(Indexed(s, j), c) == if p < |s| then (Some(p), p - j + 1) else (None, |s| - j)
  {
    var items := Indexed(s, j);
    var (o, n) := ReadUntil(items, c);
    if o.Some? {
      assert items[n - 1] == (j + n - 1, s[j + n - 1]);
      forall k | j <= k < j + n - 1 ensures s[k] != c {
        assert items[k - j].1 == s[k];
      }
      ScanForUnique(s, j, c, j + n - 1);
    } else {
      forall k | j <= k < |s| ensures s[k] != c {
        assert items[k - j].1 == s[k];
      }
      ScanForUnique(s, j, c, |s|);
    }
  }

  // ---------------------------------------------------------------------
  // `sub_strings`

  /** The length of the piece that starts `s`, counted from `k`: the inner
      loop takes up to `width` characters and stops after a line feed. */
  function PieceLength(s: string, width: nat, k: nat): (n: nat)
    requires k <= width && k <= |s|
    ensures k <= n <= |s| && n <= width
    ensures k < width && k < |s| ==> k < n
    ensures forall i :: k <= i < n - 1 ==> s[i] != '\n'
    ensures n == width || n == |s| || (k < n && s[n - 1] == '\n')
    decreases width - k
  {
    if k == width || k == |s| then k
    else if s[k] == '\n' then k + 1
    else PieceLength(s, width, k + 1)
  }

  /** The pieces of `s`, each as long as `PieceLength` allows. */
  function Pieces(s: string, width: nat): seq<string>
    requires width > 0
    decreases |s|
  {
    if s == [] then []
    else
      var n := PieceLength(s, width, 0);
      [s[..n]] + Pieces(s[n..], width)
  }

  function Concat(ps: seq<string>): string
    decreases |ps|
  {
    if ps == [] then [] else ps[0] + Concat(ps[1..])
  }

  /** A piece as `sub_strings` cuts it: one to `width` characters, with a
      line feed at most as its last character. */
  predicate PieceOk(p: string, width: nat)
  {
    0 < |p| <= width && forall k :: 0 <= k < |p| - 1 ==> p[k] != '\n'
  }

  /** A piece that more text follows is full: `width` long, or ending in a
      line feed. */
  predicate Full(p: string, width: nat)
  {
    |p| == width || (p != [] && p[|p| - 1] == '\n')
  }

  /** A cut of a text into valid pieces, each but the last one full. */
  predicate Cut(ps: seq<string>, width: nat)
  {
    && (forall i :: 0 <= i < |ps| ==> PieceOk(ps[i], width))
    && (forall i :: 0 <= i < |ps| - 1 ==> Full(ps[i], width))
  }

  /** `sub_strings`. The capacity reserved first divides by `width`, so a
      zero width panics whatever the text. Otherwise the pieces put back
      together are the text, and each is a valid piece, full unless last.
      A character here is a Unicode scalar value: the loop counts `chars()`
      and measures each with `len_utf8` only to slice at its boundary, so a
      piece is `width` characters whatever their length in bytes. */
  function SubStrings(s: string, width: nat): (r: Exec<seq<string>>)
    ensures r.Panics? <==> width == 0
    ensures !r.Loops?
    ensures r.Returns? ==> Concat(r.value) == s && Cut(r.value, width)
  {
    if width == 0 then Panics
    else
      PiecesCut(s, width);
      Returns(Pieces(s, width))
  }

  /** The pieces put back together give the text, and they form a cut. */
  lemma {:induction false} PiecesCut(s: string, width: nat)
    requires width > 0
    ensures Concat(Pieces(s, width)) == s && Cut(Pieces(s, width), width)
    decreases |s|
  {
    if s != [] {
      var n := PieceLength(s, width, 0);
      var ps := Pieces(s, width);
      PiecesCut(s[n..], width);
      assert ps[1..] == Pieces(s[n..], width);
      assert s[..n] + s[n..] == s;
      forall i | 0 <= i < |ps| ensures PieceOk(ps[i], width) {
        if i == 0 {
          assert forall k :: 0 <= k < n - 1 ==> s[..n][k] == s[k];
        } else {
          assert ps[i] == ps[1..][i - 1];
        }
      }
      forall i | 0 <= i < |ps| - 1 ensures Full(ps[i], width) {
        if i > 0 {
          assert ps[i] == ps[1..][i - 1];
        }
      }
    }
  }

  /** Where a piece ends once its length `n` is known to fit the rules. */
  lemma {:induction false} PieceLengthAt(s: string, width: nat, k: nat, n: nat)
    requires k < n <= |s| && n <= width
    requires forall i :: k <= i < n - 1 ==> s[i] != '\n'
    requires n == width || n == |s| || s[n - 1] == '\n'
    ensures PieceLength(s, width, k) == n
    decreases n - k
  {
    if k < n - 1 {
      PieceLengthAt(s, width, k + 1, n);
    }
  }

  /** The cut is unique: any cut of the text into valid pieces, each but the
      last full, is the one `sub_strings` makes. */
  lemma {:induction false} PiecesUnique(s: string, width: nat, ps: seq<string>)
    requires width > 0 && Cut(ps, width) && Concat(ps) == s
    ensures ps == Pieces(s, width)
    decreases |ps|
  {
    if ps != [] {
      var p := ps[0];
      var n := |p|;
      assert PieceOk(p, width);
      assert s == p + Concat(ps[1..]);
      assert s[..n] == p;
      forall i | 0 <= i < n - 1 ensures s[i] != '\n' {
        assert s[i] == p[i];
      }
      if |ps| > 1 {
        assert Full(ps[0], width);
        if n < width {
          assert s[n - 1] == p[n - 1];
        }
      }
      PieceLengthAt(s, width, 0, n);
      assert Cut(ps[1..], width) by {
        forall i | 0 <= i < |ps[1..]| ensures PieceOk(ps[1..][i], width) {
          assert ps[1..][i] == ps[i + 1];
        }
        forall i | 0 <= i < |ps[1..]| - 1 ensures Full(ps[1..][i], width) {
          assert ps[1..][i] == ps[i + 1];
        }
      }
      assert s[n..] == Concat(ps[1..]);
      PiecesUnique(s[n..], width, ps[1..]);
    }
  }
}
