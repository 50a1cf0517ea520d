/**
 * The record-matching predicate `match_options?` and the value
 * normalisation `normalize` it compares by (lib/patch.rb:86-109, the same
 * code as lib/active_hash/relation.rb:119-141).
 */
module Matching {
  import opened RubyText
  import opened Values

  /** A record, addressed by field name; `record[col]` of a missing field is nil. */
  type Record = map<string, Value>

  function Get(r: Record, col: string): (v: Value)
    ensures col in r ==> v == r[col]
    ensures col !in r ==> v == Nil
  {
    if col in r then r[col] else Nil
  }

  /** The identifier field, `:id`. */
  const IdField: string := "id"

  /** `value.to_i`; a Symbol has no `to_i` (see README) and reads as 0 here. */
  function IdOf(v: Value): (n: int)
    ensures v.Int? ==> n == v.i
    ensures v.Str? ==> n == ToI(v.s)
    ensures v.Nil? || v.Sym? ==> n == 0
  {
    match v
    case Int(n) => n
    case Str(s) => ToI(s)
    case Sym(_) => 0
    case Nil => 0
  }

  /**
   * `normalize(field_name, value)`: on `:id` the integer the value reads as;
   * elsewhere Strings and Symbols become Symbols; anything else as it is.
   */
  function Normalize(field: string, v: Value): (n: Value)
    ensures field == IdField ==> n == Int(IdOf(v))
    ensures field != IdField && v.Str? ==> n == Sym(v.s)
    ensures field != IdField && !v.Str? ==> n == v
  {
    if field == IdField then Int(IdOf(v))
    else if v.Str? then Sym(v.s)
    else v
  }

  /** What a query key is compared against. */
  datatype Matcher =
    | Exact(value: Value)                          // any other object
    | AnyOf(values: seq<Value>)                    // an Array
    | IntRange(lo: int, hi: int, exclusiveEnd: bool) // a Range `lo..hi` or `lo...hi`

  /** A query hash: field names with what they must match. */
  type Query = seq<(string, Matcher)>

  /** `Range#include?` of an Integer range: raw, without normalisation. */
  predicate InRange(v: Value, lo: int, hi: int, exclusiveEnd: bool)
    ensures !v.Int? ==> !InRange(v, lo, hi, exclusiveEnd)
    ensures v.Int? && exclusiveEnd ==> (InRange(v, lo, hi, exclusiveEnd) <==> lo <= v.i < hi)
    ensures v.Int? && !exclusiveEnd ==> (InRange(v, lo, hi, exclusiveEnd) <==> lo <= v.i <= hi)
  {
    v.Int? && lo <= v.i && (if exclusiveEnd then v.i < hi else v.i <= hi)
  }

  /** One key of `match_options?`. */
  predicate KeyMatches(r: Record, col: string, m: Matcher)
    ensures m.AnyOf? ==> (KeyMatches(r, col, m) <==> exists v :: v in m.values && Normalize(col, Get(r, col)) == Normalize(col, v))
    ensures m.IntRange? ==> (KeyMatches(r, col, m) <==> InRange(Get(r, col), m.lo, m.hi, m.exclusiveEnd))
    ensures m.Exact? ==> (KeyMatches(r, col, m) <==> Normalize(col, Get(r, col)) == Normalize(col, m.value))
  {
    var attr := Get(r, col);
    match m
    case AnyOf(vs) => exists k :: 0 <= k < |vs| && Normalize(col, attr) == Normalize(col, vs[k])
    case IntRange(lo, hi, excl) => InRange(attr, lo, hi, excl)
    case Exact(v) => Normalize(col, attr) == Normalize(col, v)
  }

  /** `match_options?(record, options)`: `all?` over the keys, left to right. */
  predicate MatchOptions(r: Record, q: Query)
    ensures q == [] ==> MatchOptions(r, q)
    ensures MatchOptions(r, q) && q != [] ==> KeyMatches(r, q[0].0, q[0].1)
    decreases |q|
  {
    q == [] || (KeyMatches(r, q[0].0, q[0].1) && MatchOptions(r, q[1..]))
  }

  /** A record matches exactly when every key of the query matches. */
  lemma {:induction false} MatchOptionsAll(r: Record, q: Query)
    ensures MatchOptions(r, q) <==> forall k :: 0 <= k < |q| ==> KeyMatches(r, q[k].0, q[k].1)
  {
    if q != [] {
      MatchOptionsAll(r, q[1..]);
      assert forall k :: 1 <= k < |q| ==> q[k] == q[1..][k - 1];
    }
  }

  /** The order of the keys does not matter: matching a concatenation is the AND of both halves. */
  lemma MatchOptionsAppend(r: Record, p: Query, q: Query)
    ensures MatchOptions(r, p + q) <==> MatchOptions(r, p) && MatchOptions(r, q)
  {
    MatchOptionsAll(r, p);
    MatchOptionsAll(r, q);
    MatchOptionsAll(r, p + q);
    assert forall k :: 0 <= k < |p| ==> (p + q)[k] == p[k];
    assert forall k :: 0 <= k < |q| ==> (p + q)[|p| + k] == q[k];
  }

  /** On `:id`, the numeral "7" and the integer 7 normalise alike. */
  lemma NormalizeIdNumeral(n: int)
    ensures Normalize(IdField, Str(Show(n))) == Normalize(IdField, Int(n))
  {
    ToIShow(n);
  }

  /** On `:id`, any text that does not start with a sign or a digit normalises to 0. */
  lemma NormalizeIdNonNumeric(s: string)
    requires DropSpaces(s) == [] || (!IsDigit(DropSpaces(s)[0]) && DropSpaces(s)[0] != '-' && DropSpaces(s)[0] != '+')
    ensures Normalize(IdField, Str(s)) == Int(0)
  {
  }

  /** Off `:id`, a String and the Symbol of the same name normalise alike ("active" vs :active). */
  lemma NormalizeTextAsSymbol(field: string, s: string)
    requires field != IdField
    ensures Normalize(field, Str(s)) == Normalize(field, Sym(s)) == Sym(s)
  {
  }

  /** Normalising twice changes nothing. */
  lemma NormalizeIdempotent(field: string, v: Value)
    ensures Normalize(field, Normalize(field, v)) == Normalize(field, v)
  {
  }

  /** An Array of one element matches exactly as that element on its own. */
  lemma AnyOfSingleton(r: Record, col: string, v: Value)
    ensures KeyMatches(r, col, AnyOf([v])) <==> KeyMatches(r, col, Exact(v))
  {
    assert [v][0] == v;
  }

  /** An empty Array matches nothing (`[].any?` is false). */
  lemma AnyOfEmpty(r: Record, col: string)
    ensures !KeyMatches(r, col, AnyOf([]))
  {
  }

  /**
   * A Range compares the raw value: the text "2" is not in 1..3, even on
   * `:id` where the equality matcher would accept it.
   */
  lemma RangeIsRaw(lo: int, hi: int, excl: bool)
    requires lo <= 2 <= hi && (excl ==> 2 < hi)
    ensures KeyMatches(map[IdField := Str("2")], IdField, Exact(Int(2)))
    ensures !KeyMatches(map[IdField := Str("2")], IdField, IntRange(lo, hi, excl))
  {
    assert Show(2) == "2";
    NormalizeIdNumeral(2);
  }
}
