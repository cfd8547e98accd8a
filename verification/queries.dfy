/**
 * The query tree the compiler builds and its evaluation against one journal
 * record (`Query`, `Query::accept` in `src/parser/compiler.rs`). A record is
 * seen only through what `accept` reads of it: the event and process values,
 * the parsed fields and the lookup of a field by name.
 */
module Queries {
  import opened Base
  import opened Values
  import opened FieldMaps
  import opened Host
  import L = Lexer

  /** `Query`. A comparison keeps the two tokens it was compiled from; the
      compiler only ever puts an identifier on the left and a literal on the
      right, and `accept` rejects every other combination. */
  datatype Query =
    | Expr(where: Option<Query>, order: Option<Query>)
    | Regex(pattern: string)
    | And(left: Query, right: Query)
    | Or(left: Query, right: Query)
    | Equal(l: L.Token, r: L.Token)
    | GE(l: L.Token, r: L.Token)
    | LE(l: L.Token, r: L.Token)
    | Greater(l: L.Token, r: L.Token)
    | Less(l: L.Token, r: L.Token)
    | NE(l: L.Token, r: L.Token)

  /** The record `accept` is given. Its type is not part of this model: only
      the four things `accept` reads of it are. */
  datatype Record = Record(event: Value, process: Value, fields: FieldMap, get: string -> Option<Value>)

  /** The six comparison operators. */
  datatype Op = OpEq | OpGe | OpLe | OpGt | OpLt | OpNe

  predicate IsComparison(q: Query)
  {
    q.Equal? || q.GE? || q.LE? || q.Greater? || q.Less? || q.NE?
  }

  function OpOf(q: Query): Op
    requires IsComparison(q)
  {
    match q
    case Equal(_, _) => OpEq
    case GE(_, _) => OpGe
    case LE(_, _) => OpLe
    case Greater(_, _) => OpGt
    case Less(_, _) => OpLt
    case NE(_, _) => OpNe
  }

  /** The comparison node of an operator. */
  function Compare(op: Op, l: L.Token, r: L.Token): (q: Query)
    ensures IsComparison(q) && OpOf(q) == op && q.l == l && q.r == r
  {
    match op
    case OpEq => Query.Equal(l, r)
    case OpGe => GE(l, r)
    case OpLe => LE(l, r)
    case OpGt => Query.Greater(l, r)
    case OpLt => Query.Less(l, r)
    case OpNe => NE(l, r)
  }

  /** Reading an ordering through an operator. */
  predicate Ordered(op: Op, o: Option<Ordering>)
  {
    match op
    case OpGe => IsGe(o)
    case OpLe => IsLe(o)
    case OpGt => IsGt(o)
    case OpLt => IsLt(o)
    case _ => false
  }

  /** The field value `x` against the literal token `lit` under `op`:
      strings, numbers and dates compare with the operators of `Value`, a
      pattern only under `=` and against the value's display text, and any
      other token never holds. */
  predicate Holds(h: Host, op: Op, x: Value, lit: L.Token)
  {
    match lit
    case String(t) =>
      if op == OpEq then EqText(x, t) else if op == OpNe then !EqText(x, t) else Ordered(op, CmpText(x, t))
    case Number(n) =>
      if op == OpEq then EqNum(x, n as real) else if op == OpNe then !EqNum(x, n as real) else Ordered(op, CmpNum(x, n as real))
    case Date(d) =>
      if op == OpEq then EqTime(x, d) else if op == OpNe then !EqTime(x, d) else Ordered(op, CmpTime(x, d))
    case Regex(p) => op == OpEq && h.regexMatch(p, Display(h, x))
    case _ => false
  }

  /** One comparison: the field named on the left is looked up and, when the
      record has it, held against the literal; a missing field fails. */
  predicate Test(h: Host, op: Op, l: L.Token, lit: L.Token, rec: Record)
  {
    l.Identifier? && match rec.get(l.name)
      case None => false
      case Some(x) => Holds(h, op, x, lit)
  }

  /** The `for` loop over `fields.iter()`: some string value matches. */
  predicate AnyStringMatches(h: Host, p: string, ps: seq<Entry>)
  {
    ps != [] && ((ps[0].1.String? && h.regexMatch(p, ps[0].1.text)) || AnyStringMatches(h, p, ps[1..]))
  }

  /** A bare pattern: the event, then the process, then every field. */
  predicate Search(h: Host, p: string, rec: Record)
  {
    || (rec.event.String? && h.regexMatch(p, rec.event.text))
    || (rec.process.String? && h.regexMatch(p, rec.process.text))
    || AnyStringMatches(h, p, Flatten(rec.fields.entries))
  }

  /** `Query::accept`. */
  predicate Accept(h: Host, q: Query, rec: Record)
  {
    match q
    case Expr(w, _) => w.None? || Accept(h, w.value, rec)
    case Regex(p) => Search(h, p, rec)
    case And(a, b) => Accept(h, a, rec) && Accept(h, b, rec)
    case Or(a, b) => Accept(h, a, rec) || Accept(h, b, rec)
    case _ => Test(h, OpOf(q), q.l, q.r, rec)
  }

  // ---------------------------------------------------------------------
  // Properties

  /** A query without a condition accepts every record. */
  lemma EmptyAcceptsAll(h: Host, order: Option<Query>, rec: Record)
    ensures Accept(h, Expr(None, order), rec)
  {
  }

  /** A comparison on a field the record lacks is false, whatever the
      operator (`!=` included) and whatever the literal. */
  lemma MissingFieldRejects(h: Host, op: Op, name: string, lit: L.Token, rec: Record)
    requires rec.get(name).None?
    ensures !Accept(h, Compare(op, L.Identifier(name), lit), rec)
  {
  }

  /** A pattern is searched in string values only: the loop over the fields
      succeeds exactly when some string-valued pair matches. */
  lemma {:induction false} AnyStringMatchesIff(h: Host, p: string, ps: seq<Entry>)
    ensures AnyStringMatches(h, p, ps) <==>
      exists i :: 0 <= i < |ps| && ps[i].1.String? && h.regexMatch(p, ps[i].1.text)
    decreases |ps|
  {
    if ps != [] {
      AnyStringMatchesIff(h, p, ps[1..]);
      if AnyStringMatches(h, p, ps[1..]) {
        var i :| 0 <= i < |ps[1..]| && ps[1..][i].1.String? && h.regexMatch(p, ps[1..][i].1.text);
        assert ps[i + 1] == ps[1..][i];
      }
      if exists i :: 0 <= i < |ps| && ps[i].1.String? && h.regexMatch(p, ps[i].1.text) {
        var i :| 0 <= i < |ps| && ps[i].1.String? && h.regexMatch(p, ps[i].1.text);
        if i > 0 {
          assert ps[1..][i - 1] == ps[i];
        }
      }
    }
  }

  /** A bare pattern accepts a record exactly when it matches the event, the
      process, or one of the string values among the fields' pairs; numbers,
      dates and lists are never searched. */
  lemma RegexAcceptsIff(h: Host, p: string, rec: Record)
    ensures Accept(h, Regex(p), rec) <==>
      || (rec.event.String? && h.regexMatch(p, rec.event.text))
      || (rec.process.String? && h.regexMatch(p, rec.process.text))
      || exists i :: 0 <= i < |Flatten(rec.fields.entries)| && Flatten(rec.fields.entries)[i].1.String?
           && h.regexMatch(p, Flatten(rec.fields.entries)[i].1.text)
  {
    var ps := Flatten(rec.fields.entries);
    AnyStringMatchesIff(h, p, ps);
    assert Accept(h, Regex(p), rec) == Search(h, p, rec);
  }

  /** `!=` is not the negation of `=`: both are false on a missing field,
      and on a present field exactly one of them holds. */
  lemma {:induction false} NotEqualVersusEqual(h: Host, name: string, lit: L.Token, rec: Record)
    requires lit.String? || lit.Number? || lit.Date?
    ensures Accept(h, NE(L.Identifier(name), lit), rec) ==> !Accept(h, Query.Equal(L.Identifier(name), lit), rec)
    ensures rec.get(name).None? ==>
      !Accept(h, NE(L.Identifier(name), lit), rec) && !Accept(h, Query.Equal(L.Identifier(name), lit), rec)
    ensures rec.get(name).Some? ==>
      (Accept(h, NE(L.Identifier(name), lit), rec) <==> !Accept(h, Query.Equal(L.Identifier(name), lit), rec))
  {
  }

  /** The literal's variant decides: a field value of another variant
      satisfies `!=` and nothing else. */
  lemma {:induction false} OtherVariantOnlyDiffers(h: Host, op: Op, name: string, lit: L.Token, rec: Record)
    requires lit.String? || lit.Number? || lit.Date?
    requires rec.get(name).Some?
    requires var x := rec.get(name).value;
      (lit.String? && !x.String?) || (lit.Number? && !x.Number?) || (lit.Date? && !x.DateTime?)
    ensures Accept(h, Compare(op, L.Identifier(name), lit), rec) <==> op == OpNe
  {
  }

  /** A pattern literal only compares under `=`. */
  lemma PatternOnlyUnderEqual(h: Host, op: Op, name: string, p: string, rec: Record)
    requires op != OpEq
    ensures !Accept(h, Compare(op, L.Identifier(name), L.Regex(p)), rec)
  {
  }

  /** For a present field of the literal's variant the operators relate as
      on a total order: `>=` is `>` or `=`, `<=` is `<` or `=`, and `<` is the
      negation of `>=`. */
  lemma {:induction false} OrderOperatorsAgree(h: Host, name: string, lit: L.Token, rec: Record)
    requires lit.String? || lit.Number? || lit.Date?
    requires rec.get(name).Some?
    requires var x := rec.get(name).value;
      (lit.String? && x.String?) || (lit.Number? && x.Number?) || (lit.Date? && x.DateTime?)
    ensures var id := L.Identifier(name);
      && (Accept(h, GE(id, lit), rec) <==> Accept(h, Query.Greater(id, lit), rec) || Accept(h, Query.Equal(id, lit), rec))
      && (Accept(h, LE(id, lit), rec) <==> Accept(h, Query.Less(id, lit), rec) || Accept(h, Query.Equal(id, lit), rec))
      && (Accept(h, Query.Less(id, lit), rec) <==> !Accept(h, GE(id, lit), rec))
      && (Accept(h, Query.Greater(id, lit), rec) <==> !Accept(h, LE(id, lit), rec))
  {
    var x := rec.get(name).value;
    if lit.String? {
      CompareStrProperties(x.text, lit.text);
    }
  }
}
