/**
 * Field values of a record, and Ruby's `<=>` on them as `sort!` uses it.
 */
module Values {
  import opened RubyText

  /** The values a record field holds: an Integer, a String, a Symbol or nil. */
  datatype Value = Int(i: int) | Str(s: string) | Sym(name: string) | Nil

  /** The Ruby class of a value; `<=>` is defined only within one class. */
  datatype Kind = IntKind | StrKind | SymKind | NilKind

  function KindOf(v: Value): (k: Kind) {
    match v
    case Int(_) => IntKind
    case Str(_) => StrKind
    case Sym(_) => SymKind
    case Nil => NilKind
  }

  /** `to_s`: what `find_using_index` looks an identifier up by. */
  function ToS(v: Value): (t: string)
    ensures v.Int? ==> t == Show(v.i) && ToI(t) == v.i
    ensures v.Str? ==> t == v.s
    ensures v.Sym? ==> t == v.name
    ensures v.Nil? ==> t == ""
  {
    match v
    case Int(n) => ToIShow(n); Show(n)
    case Str(s) => s
    case Sym(n) => n
    case Nil => ""
  }

  /** `String#<=>` as "less or equal": code-point (byte) lexicographic order. */
  predicate LexLe(a: string, b: string)
    ensures a == [] ==> LexLe(a, b)
    ensures a != [] && b == [] ==> !LexLe(a, b)
    ensures a != [] && b != [] && a[0] != b[0] ==> (LexLe(a, b) <==> a[0] < b[0])
    ensures a != [] && b != [] && a[0] == b[0] ==> (LexLe(a, b) <==> LexLe(a[1..], b[1..]))
  {
    a == [] || (b != [] && (a[0] < b[0] || (a[0] == b[0] && LexLe(a[1..], b[1..]))))
  }

  lemma {:induction false} LexLeTotal(a: string, b: string)
    ensures LexLe(a, b) || LexLe(b, a)
  {
    if a != [] && b != [] && a[0] == b[0] {
      LexLeTotal(a[1..], b[1..]);
    }
  }

  lemma {:induction false} LexLeTransitive(a: string, b: string, c: string)
    requires LexLe(a, b) && LexLe(b, c)
    ensures LexLe(a, c)
  {
    if a != [] && a[0] == b[0] && b[0] == c[0] {
      LexLeTransitive(a[1..], b[1..], c[1..]);
    }
  }

  lemma {:induction false} LexLeAntisymmetric(a: string, b: string)
    requires LexLe(a, b) && LexLe(b, a)
    ensures a == b
  {
    if a != [] {
      LexLeAntisymmetric(a[1..], b[1..]);
    }
  }

  /**
   * `u <=> v` is -1 or 0. Ruby's `<=>` gives nil across classes (and
   * `sort!` then raises); here that reads as "not in order".
   */
  predicate ValueLe(u: Value, v: Value)
    ensures ValueLe(u, v) ==> KindOf(u) == KindOf(v)
    ensures u.Int? && v.Int? ==> (ValueLe(u, v) <==> u.i <= v.i)
    ensures u.Str? && v.Str? ==> (ValueLe(u, v) <==> LexLe(u.s, v.s))
    ensures u.Sym? && v.Sym? ==> (ValueLe(u, v) <==> LexLe(u.name, v.name))
    ensures u.Nil? && v.Nil? ==> ValueLe(u, v)
  {
    match (u, v)
    case (Int(a), Int(b)) => a <= b
    case (Str(a), Str(b)) => LexLe(a, b)
    case (Sym(a), Sym(b)) => LexLe(a, b)
    case (Nil, Nil) => true
    case _ => false
  }

  /** Within one class, `<=>` is a total preorder. */
  lemma ValueLeTotal(u: Value, v: Value)
    requires KindOf(u) == KindOf(v)
    ensures ValueLe(u, v) || ValueLe(v, u)
  {
    match (u, v)
    case (Str(a), Str(b)) => LexLeTotal(a, b);
    case (Sym(a), Sym(b)) => LexLeTotal(a, b);
    case _ =>
  }

  lemma ValueLeTransitive(u: Value, v: Value, w: Value)
    requires ValueLe(u, v) && ValueLe(v, w)
    ensures ValueLe(u, w)
  {
    match (u, v, w)
    case (Str(a), Str(b), Str(c)) => LexLeTransitive(a, b, c);
    case (Sym(a), Sym(b), Sym(c)) => LexLeTransitive(a, b, c);
    case _ =>
  }
}
