/**
 * The typed field value of a journal record (`src/parser/value.rs`): a string,
 * a number, a date-time or a list of values collected under one repeated key,
 * with the cross-variant comparison rules the query evaluator relies on.
 */
module Values {
  import opened Base

  /** `Value`. Numbers are exact decimals (the source stores an `f64`),
      date-times are instants in nanoseconds. */
  datatype Value =
    | String(text: string)
    | Number(num: real)
    | DateTime(time: int)
    | MultiValue(items: seq<Value>)

  /** `Value::len`: the element count of a list, 1 for any scalar. */
  function Len(v: Value): nat
  {
    if v.MultiValue? then |v.items| else 1
  }

  /** `Value::iter`: the elements of a list, or the scalar itself once. */
  function Elements(v: Value): (r: seq<Value>)
    ensures |r| == Len(v)
    ensures !v.MultiValue? ==> r == [v]
    ensures v.MultiValue? ==> r == v.items
  {
    if v.MultiValue? then v.items else [v]
  }

  /** `Index<usize> for Value`: a list is indexed (out of range panics, so it
      is the caller's obligation), a scalar returns itself for every index. */
  function At(v: Value, i: nat): Value
    requires v.MultiValue? ==> i < |v.items|
  {
    if v.MultiValue? then v.items[i] else v
  }

  /** Indexing walks the same elements `iter` yields, in the same order. */
  lemma IndexAgreesWithElements(v: Value, i: nat)
    requires i < Len(v)
    ensures At(v, i) == Elements(v)[i]
    ensures !v.MultiValue? ==> forall j: nat :: At(v, j) == v
  {
  }

  // ---------------------------------------------------------------------
  // Text to value: `From<String>` / `From<&str>`

  function Pow10(n: nat): (p: nat)
    ensures p >= 1
  {
    if n == 0 then 1 else 10 * Pow10(n - 1)
  }

  /** The value of `whole.frac` for digit strings `whole` and `frac`. */
  function DecimalValue(negative: bool, whole: nat, frac: string): real
    requires AllDigits(frac)
  {
    var magnitude := whole as real + DigitsValue(frac) as real / Pow10(|frac|) as real;
    if negative then -magnitude else magnitude
  }

  /** `str::parse::<f64>` restricted to the positional decimal forms
      `[+-]? ( d+ | d+ '.' d* | d* '.' d+ )`; the value is the exact decimal. */
  function ParseNumber(s: string): Option<real>
  {
    var negative := |s| > 0 && s[0] == '-';
    var body := if |s| > 0 && (s[0] == '-' || s[0] == '+') then s[1..] else s;
    ParseUnsigned(negative, body)
  }

  /** The text after the optional sign. */
  function ParseUnsigned(negative: bool, body: string): Option<real>
  {
    var k := PrefixRun(body, IsDigit);
    var whole := body[..k];
    var rest := body[k..];
    if rest == [] then
      if k > 0 then Some(DecimalValue(negative, DigitsValue(whole), "")) else None
    else if rest[0] == '.' && AllDigits(rest[1..]) && (k > 0 || |rest| > 1) then
      Some(DecimalValue(negative, DigitsValue(whole), rest[1..]))
    else
      None
  }

  /** `Value::from(text)`: a number when the text parses as one, otherwise
      the text itself. */
  function FromText(s: string): (v: Value)
    ensures v.Number? || v == String(s)
    ensures v.Number? <==> ParseNumber(s).Some?
  {
    match ParseNumber(s)
    case Some(n) => Number(n)
    case None => String(s)
  }

  /** `Value::default()`: the empty string, which is also what converting
      empty text yields. */
  function Default(): (v: Value)
    ensures v == FromText("")
    ensures Len(v) == 1
  {
    String("")
  }

  /** The canonical text of a decimal: an optional minus, the whole part
      without leading zeros, and the fraction digits after a point. */
  function DecimalText(negative: bool, whole: nat, frac: string): string
  {
    (if negative then "-" else "") + NatToDigits(whole) + (if frac == [] then "" else "." + frac)
  }

  lemma DigitsPrefixRun(d: string, tail: string)
    requires AllDigits(d)
    requires tail == [] || !IsDigit(tail[0])
    ensures PrefixRun(d + tail, IsDigit) == |d|
    decreases |d|
  {
    if d != [] {
      assert (d + tail)[1..] == d[1..] + tail;
      DigitsPrefixRun(d[1..], tail);
    }
  }

  /** The text after the sign: the whole digits, then the fraction. */
  function DecimalBody(whole: nat, frac: string): string
  {
    NatToDigits(whole) + (if frac == [] then "" else "." + frac)
  }

  /** What `ParseNumber` reads from a rendered body: the digit run is exactly
      the whole part and the rest is the point and the fraction. */
  lemma DecimalBodyParts(whole: nat, frac: string)
    requires AllDigits(frac)
    ensures var body := DecimalBody(whole, frac);
      var k := |NatToDigits(whole)|;
      && IsDigit(body[0])
      && PrefixRun(body, IsDigit) == k
      && body[..k] == NatToDigits(whole)
      && body[k..] == (if frac == [] then "" else "." + frac)
  {
    var w := NatToDigits(whole);
    var tail := if frac == [] then "" else "." + frac;
    DigitsPrefixRun(w, tail);
    assert DecimalBody(whole, frac)[..|w|] == w;
    assert DecimalBody(whole, frac)[|w|..] == tail;
  }

  /** A sign in front of a body that starts with a digit. */
  lemma SignedParse(negative: bool, body: string)
    requires body != [] && IsDigit(body[0])
    ensures ParseNumber((if negative then "-" else "") + body) == ParseUnsigned(negative, body)
  {
    var s := (if negative then "-" else "") + body;
    if negative {
      assert s[1..] == body;
    } else {
      assert s == body;
    }
  }

  /** The parse of a rendered body. */
  lemma DecimalBodyParses(negative: bool, whole: nat, frac: string)
    requires AllDigits(frac)
    ensures ParseUnsigned(negative, DecimalBody(whole, frac)) == Some(DecimalValue(negative, whole, frac))
  {
    DecimalBodyParts(whole, frac);
    NatToDigitsRoundTrip(whole);
    var body := DecimalBody(whole, frac);
    var rest := body[|NatToDigits(whole)|..];
    if frac != [] {
      assert rest[1..] == frac;
    }
  }

  /** Rendering a decimal and converting the text back yields a number of the
      same value. */
  lemma DecimalTextRoundTrip(negative: bool, whole: nat, frac: string)
    requires AllDigits(frac)
    ensures FromText(DecimalText(negative, whole, frac)) == Number(DecimalValue(negative, whole, frac))
  {
    var body := DecimalBody(whole, frac);
    DecimalBodyParts(whole, frac);
    assert DecimalText(negative, whole, frac) == (if negative then "-" else "") + body;
    SignedParse(negative, body);
    DecimalBodyParses(negative, whole, frac);
  }

  /** Text holding a character that cannot occur in a decimal stays a
      string. */
  lemma NonNumericStaysString(s: string, i: nat)
    requires i < |s|
    requires !IsDigit(s[i]) && s[i] != '.' && s[i] != '-' && s[i] != '+'
    ensures FromText(s) == String(s)
  {
    var body := if |s| > 0 && (s[0] == '-' || s[0] == '+') then s[1..] else s;
    var k := PrefixRun(body, IsDigit);
    var off := |s| - |body|;
    assert body[i - off] == s[i];
    assert k <= i - off;
    var rest := body[k..];
    if rest != [] && rest[0] == '.' {
      assert i - off != k;
      assert rest[1..][i - off - k - 1] == s[i];
    }
  }

  // ---------------------------------------------------------------------
  // Comparison

  function CompareReal(x: real, y: real): Ordering
  {
    if x < y then Less else if x > y then Greater else Equal
  }

  function CompareInt(x: int, y: int): Ordering
  {
    if x < y then Less else if x > y then Greater else Equal
  }

  /** `PartialEq for Value`: only two scalars of the same variant can be
      equal; a list is not even equal to itself. */
  predicate Eq(a: Value, b: Value)
  {
    match (a, b)
    case (String(x), String(y)) => x == y
    case (Number(x), Number(y)) => x == y
    case (DateTime(x), DateTime(y)) => x == y
    case _ => false
  }

  /** `PartialOrd for Value`: only two scalars of the same variant are
      ordered. */
  function Cmp(a: Value, b: Value): Option<Ordering>
  {
    match (a, b)
    case (String(x), String(y)) => Some(CompareStr(x, y))
    case (Number(x), Number(y)) => Some(CompareReal(x, y))
    case (DateTime(x), DateTime(y)) => Some(CompareInt(x, y))
    case _ => None
  }

  /** The comparison operators of `PartialOrd`, read off an optional
      ordering: every one of them is false when the ordering is `None`. */
  predicate IsLt(o: Option<Ordering>) { o == Some(Less) }
  predicate IsLe(o: Option<Ordering>) { o == Some(Less) || o == Some(Equal) }
  predicate IsGt(o: Option<Ordering>) { o == Some(Greater) }
  predicate IsGe(o: Option<Ordering>) { o == Some(Greater) || o == Some(Equal) }

  /** Values of different variants are never equal nor ordered, and a list
      is neither equal nor ordered, not even against itself. */
  lemma CrossVariantIncomparable(a: Value, b: Value)
    requires a.MultiValue? || b.MultiValue?
      || (a.String? != b.String?) || (a.Number? != b.Number?)
    ensures !Eq(a, b) && Cmp(a, b) == None
    ensures !IsLt(Cmp(a, b)) && !IsLe(Cmp(a, b)) && !IsGt(Cmp(a, b)) && !IsGe(Cmp(a, b))
  {
  }

  function FlipOpt(o: Option<Ordering>): Option<Ordering>
  {
    if o.Some? then Some(Flip(o.value)) else None
  }

  /** Equality and ordering agree, and the ordering is antisymmetric. */
  lemma {:induction false} EqAgreesWithCmp(a: Value, b: Value)
    ensures Eq(a, b) <==> Cmp(a, b) == Some(Equal)
    ensures Cmp(b, a) == FlipOpt(Cmp(a, b))
  {
    if a.String? && b.String? {
      CompareStrProperties(a.text, b.text);
    }
  }

  // Comparisons against the literal types of the query language.

  /** `PartialEq<String> for Value`. */
  predicate EqText(v: Value, s: string) { v.String? && v.text == s }

  /** `PartialOrd<String> for Value`. */
  function CmpText(v: Value, s: string): (o: Option<Ordering>)
    ensures o.Some? <==> v.String?
  {
    if v.String? then Some(CompareStr(v.text, s)) else None
  }

  /** `PartialEq<f64> for Value`. */
  predicate EqNum(v: Value, x: real) { v.Number? && v.num == x }

  /** `PartialOrd<f64> for Value`. */
  function CmpNum(v: Value, x: real): (o: Option<Ordering>)
    ensures o.Some? <==> v.Number?
  {
    if v.Number? then Some(CompareReal(v.num, x)) else None
  }

  /** `PartialEq<NaiveDateTime> for Value`. */
  predicate EqTime(v: Value, t: int) { v.DateTime? && v.time == t }

  /** `PartialOrd<NaiveDateTime> for Value`. */
  function CmpTime(v: Value, t: int): (o: Option<Ordering>)
    ensures o.Some? <==> v.DateTime?
  {
    if v.DateTime? then Some(CompareInt(v.time, t)) else None
  }

  /** Comparing with a literal behaves like comparing with the value of the
      literal's own variant: so a value of another variant is never equal
      and never ordered against it. */
  lemma LiteralComparisonsAgree(v: Value, s: string, x: real, t: int)
    ensures EqText(v, s) == Eq(v, String(s)) && CmpText(v, s) == Cmp(v, String(s))
    ensures EqNum(v, x) == Eq(v, Number(x)) && CmpNum(v, x) == Cmp(v, Number(x))
    ensures EqTime(v, t) == Eq(v, DateTime(t)) && CmpTime(v, t) == Cmp(v, DateTime(t))
  {
  }
}
