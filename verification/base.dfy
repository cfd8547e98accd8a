/**
 * Shared vocabulary: optional values, results, the outcome of code that may
 * panic or spin, ASCII character classes, decimal digit strings and the
 * code-point order Rust uses for `str`.
 */
module Base {

  datatype Option<+T> = None | Some(value: T)

  datatype Result<+T, +E> = Ok(value: T) | Err(error: E)

  /** What running a piece of the original program does: it returns a value,
      it panics (`unwrap` on `None`, `unreachable!()`, an out-of-range slice),
      or it never returns (a loop that spins without consuming input). */
  datatype Exec<+T> = Returns(value: T) | Panics | Loops

  /** What a producer thread delivers through its channel: the items it
      sent, in order, and how it stopped (`Returns(())` when it finished). */
  datatype Stream<+T> = Stream(items: seq<T>, end: Exec<()>)

  /** `std::cmp::Ordering`. */
  datatype Ordering = Less | Equal | Greater

  predicate IsDigit(c: char) { '0' <= c <= '9' }

  predicate IsAsciiLetter(c: char) { 'a' <= c <= 'z' || 'A' <= c <= 'Z' }

  predicate AllDigits(s: string) { forall i :: 0 <= i < |s| ==> IsDigit(s[i]) }

  function DigitValue(c: char): (d: nat)
    requires IsDigit(c)
    ensures d < 10
  {
    c as int - '0' as int
  }

  /** The value of a decimal digit string, most significant digit first. */
  function DigitsValue(s: string): nat
    requires AllDigits(s)
    decreases |s|
  {
    if s == [] then 0 else DigitsValue(s[..|s| - 1]) * 10 + DigitValue(s[|s| - 1])
  }

  function DigitChar(d: nat): (c: char)
    requires d < 10
    ensures IsDigit(c) && DigitValue(c) == d
  {
    ('0' as int + d) as char
  }

  /** The shortest decimal rendering of a natural number. */
  function NatToDigits(n: nat): (s: string)
    ensures |s| > 0 && AllDigits(s)
    decreases n
  {
    if n < 10 then [DigitChar(n)] else NatToDigits(n / 10) + [DigitChar(n % 10)]
  }

  lemma {:induction false} NatToDigitsRoundTrip(n: nat)
    ensures DigitsValue(NatToDigits(n)) == n
    decreases n
  {
    if n >= 10 {
      NatToDigitsRoundTrip(n / 10);
      var s := NatToDigits(n);
      assert s[..|s| - 1] == NatToDigits(n / 10);
    }
  }

  /** Number of leading characters of `s` that satisfy `p`. */
  function PrefixRun(s: string, p: char -> bool): (k: nat)
    ensures k <= |s|
    ensures forall i :: 0 <= i < k ==> p(s[i])
    ensures k < |s| ==> !p(s[k])
    decreases |s|
  {
    if s == [] || !p(s[0]) then 0 else 1 + PrefixRun(s[1..], p)
  }

  /** Position of the first occurrence of `c` in `s`, if any. */
  function IndexOf(s: string, c: char): (r: Option<nat>)
    ensures r.Some? ==> r.value < |s| && s[r.value] == c
    ensures r.Some? ==> forall i :: 0 <= i < r.value ==> s[i] != c
    ensures r.None? ==> forall i :: 0 <= i < |s| ==> s[i] != c
    decreases |s|
  {
    if s == [] then None
    else if s[0] == c then Some(0)
    else match IndexOf(s[1..], c)
      case None => None
      case Some(k) => Some(k + 1)
  }

  /** `Ord for str`: lexicographic comparison by code point (the order of the
      UTF-8 bytes coincides with the order of the code points). */
  function CompareStr(a: string, b: string): Ordering
    decreases |a|
  {
    if a == [] then (if b == [] then Equal else Less)
    else if b == [] then Greater
    else if a[0] < b[0] then Less
    else if a[0] > b[0] then Greater
    else CompareStr(a[1..], b[1..])
  }

  function Flip(o: Ordering): Ordering
  {
    match o
    case Less => Greater
    case Equal => Equal
    case Greater => Less
  }

  /** The string order is a total order: equal exactly on equal strings and
      antisymmetric. */
  lemma {:induction false} CompareStrProperties(a: string, b: string)
    ensures CompareStr(a, b) == Equal <==> a == b
    ensures CompareStr(b, a) == Flip(CompareStr(a, b))
    decreases |a|
  {
    if a != [] && b != [] && a[0] == b[0] {
      CompareStrProperties(a[1..], b[1..]);
      if a[1..] == b[1..] {
        assert a == [a[0]] + a[1..] && b == [b[0]] + b[1..];
      }
    }
  }

  /** The position of the first `find` at or after `j`, or the end of `s`. */
  function ScanFor(s: string, j: nat, find: char): (p: nat)
    requires j <= |s|
    ensures j <= p <= |s|
    ensures p < |s| ==> s[p] == find
    ensures forall k :: j <= k < p ==> s[k] != find
    decreases |s| - j
  {
    if j == |s| then j else if s[j] == find then j else ScanFor(s, j + 1, find)
  }

  /** The end of the run of characters satisfying `p` that starts at `j`. */
  function ScanWhile(s: string, j: nat, p: char -> bool): (e: nat)
    requires j <= |s|
    ensures j <= e <= |s|
    ensures forall k :: j <= k < e ==> p(s[k])
    ensures e < |s| ==> !p(s[e])
    decreases |s| - j
  {
    if j == |s| || !p(s[j]) then j else ScanWhile(s, j + 1, p)
  }

  /** A run is determined by where it starts. */
  lemma ScanWhileUnique(s: string, j: nat, p: char -> bool, e: nat)
    requires j <= e <= |s|
    requires forall k :: j <= k < e ==> p(s[k])
    requires e < |s| ==> !p(s[e])
    ensures ScanWhile(s, j, p) == e
  {
  }

  /** A scan for a character is determined by where it starts. */
  lemma ScanForUnique(s: string, j: nat, find: char, e: nat)
    requires j <= e <= |s|
    requires forall k :: j <= k < e ==> s[k] != find
    requires e < |s| ==> s[e] == find
    ensures ScanFor(s, j, find) == e
  {
  }

  /** `t` occurs in `s` at position `j`. */
  predicate Occurs(s: string, j: nat, t: string)
  {
    j + |t| <= |s| && forall k {:trigger t[k]} :: 0 <= k < |t| ==> s[j + k] == t[k]
  }

  lemma OccursSplit(s: string, j: nat, a: string, b: string)
    requires Occurs(s, j, a + b)
    ensures Occurs(s, j, a) && Occurs(s, j + |a|, b)
  {
    forall k | 0 <= k < |a| ensures s[j + k] == a[k] {
      assert (a + b)[k] == a[k];
    }
    forall k | 0 <= k < |b| ensures s[j + |a| + k] == b[k] {
      assert (a + b)[|a| + k] == b[k];
    }
  }

  lemma AppendAssoc<T>(a: seq<T>, b: seq<T>, c: seq<T>)
    ensures (a + b) + c == a + (b + c)
  {
  }

  /** A non-empty sequence is its head in front of its tail. */
  lemma HeadTail<T>(a: seq<T>, b: seq<T>)
    requires a != []
    ensures [a[0]] + (a[1..] + b) == a + b
  {
    assert [a[0]] + a[1..] == a;
  }

  /** `OccursSplit` naming the position where `b` starts. */
  lemma OccursCut(s: string, j: nat, a: string, b: string) returns (n: nat)
    requires Occurs(s, j, a + b)
    ensures n == j + |a| && Occurs(s, j, a) && Occurs(s, n, b)
  {
    OccursSplit(s, j, a, b);
    n := j + |a|;
  }

  /** The first character of an occurrence, and where the rest starts. */
  lemma OccursHead(s: string, j: nat, c: char, rest: string) returns (n: nat)
    requires Occurs(s, j, [c] + rest)
    ensures n == j + 1 && n <= |s| && s[j] == c && Occurs(s, n, rest)
  {
    OccursSplit(s, j, [c], rest);
    assert ([c] + rest)[0] == c;
    n := j + 1;
  }

  lemma OccursSnoc(s: string, j: nat, t: string, c: char)
    requires Occurs(s, j, t) && j + |t| < |s| && s[j + |t|] == c
    ensures Occurs(s, j, t + [c])
  {
    forall k | 0 <= k < |t| + 1 ensures s[j + k] == (t + [c])[k] {
      if k < |t| {
        assert (t + [c])[k] == t[k];
      }
    }
  }

  lemma OccursIndex(s: string, j: nat, t: string, k: nat)
    requires Occurs(s, j, t) && k < |t|
    ensures s[j + k] == t[k]
  {
  }

  lemma OccursSlice(s: string, j: nat, t: string)
    requires Occurs(s, j, t)
    ensures s[j..j + |t|] == t
  {
  }


  // ---------------------------------------------------------------------
  // The rows a background scan has kept

  /** The numbers below `n` that pass `p`, in increasing order: the rows a
      scan that has looked at rows `0` to `n - 1` in turn keeps. */
  function Selected(p: nat -> bool, n: nat): (r: seq<nat>)
    ensures forall k: nat :: k in r <==> k < n && p(k)
    ensures forall a :: 0 <= a < |r| ==> r[a] < n
    ensures forall a, b :: 0 <= a < b < |r| ==> r[a] < r[b]
    ensures |r| <= n
    decreases n
  {
    if n == 0 then []
    else
      var prev := Selected(p, n - 1);
      if p(n - 1) then prev + [n - 1] else prev
  }

  /** The kept rows depend only on the test of the rows scanned. */
  lemma {:induction false} SelectedAgree(p: nat -> bool, q: nat -> bool, n: nat)
    requires forall k: nat :: k < n ==> p(k) == q(k)
    ensures Selected(p, n) == Selected(q, n)
    decreases n
  {
    if n > 0 {
      SelectedAgree(p, q, n - 1);
    }
  }

  /** Every number below `n` passes `p` exactly when all of them are kept,
      each at its own position. */
  lemma {:induction false} SelectedAll(p: nat -> bool, n: nat)
    requires forall k: nat :: k < n ==> p(k)
    ensures |Selected(p, n)| == n && forall k :: 0 <= k < n ==> Selected(p, n)[k] == k
    decreases n
  {
    if n > 0 {
      SelectedAll(p, n - 1);
    }
  }
}
