/**
 * `order(*options)` (lib/patch.rb:71-82) and the private helpers it uses
 * from lib/active_hash/relation.rb: `check_if_method_has_arguments!`,
 * `preprocess_order_args` and `order_by_args!`.
 */
module Ordering {
  import opened Wrappers
  import opened RubyText
  import opened Values
  import opened Matching
  import opened ActiveHash
  import opened Query

  /** An argument of `order`. */
  datatype OrderArg =
    | Text(s: string)                    // a String such as "name, age DESC"
    | SymbolArg(name: string)            // a Symbol such as :name
    | Group(items: seq<string>)          // an Array such as [:age, :desc]
    | Assoc(pairs: seq<(string, string)>) // a Hash such as {age: :desc}
    | NilArg                             // nil

  /** `blank?` of an argument. */
  predicate IsBlank(a: OrderArg)
    ensures a.NilArg? ==> IsBlank(a)
    ensures a.Text? ==> (IsBlank(a) <==> forall i :: 0 <= i < |a.s| ==> IsSpace(a.s[i]))
    ensures !a.Text? && !a.NilArg? ==> (IsBlank(a) <==> a in {SymbolArg(""), Group([]), Assoc([])})
  {
    match a
    case Text(s) => IsBlankText(s)
    case SymbolArg(n) => n == ""
    case Group(items) => items == []
    case Assoc(pairs) => pairs == []
    case NilArg => true
  }

  /** `check_if_method_has_arguments!`: ArgumentError exactly when no argument was given. */
  function CheckIfMethodHasArguments(args: seq<OrderArg>): (r: Option<Error>)
    ensures r.Some? <==> args == []
    ensures r.Some? ==> r.value == ArgumentError
  {
    if args == [] then Some(ArgumentError) else None
  }

  /** `reject!(&:blank?)`. */
  function RejectBlank(args: seq<OrderArg>): (r: seq<OrderArg>)
    ensures forall a :: a in r <==> a in args && !IsBlank(a)
    ensures forall a :: multiset(r)[a] == if IsBlank(a) then 0 else multiset(args)[a]
    ensures IsSubsequence(r, args)
  {
    if args == [] then []
    else
      var rest := RejectBlank(args[1..]);
      assert args == [args[0]] + args[1..];
      if IsBlank(args[0]) then rest
      else [args[0]] + rest
  }

  /** `reverse!`. */
  function Reverse<T>(s: seq<T>): (r: seq<T>)
    ensures |r| == |s| && forall i :: 0 <= i < |s| ==> r[i] == s[|s| - 1 - i]
  {
    if s == [] then [] else Reverse(s[1..]) + [s[0]]
  }

  /** The pieces of a String argument: `split(', ')`, each piece `split(/\W+/)`. */
  function TextCriteria(s: string): (r: seq<OrderArg>)
    ensures |r| == |SplitCommaSpace(s)|
    ensures forall i :: 0 <= i < |r| ==> r[i] == Group(SplitWords(SplitCommaSpace(s)[i]))
  {
    var pieces := SplitCommaSpace(s);
    seq(|pieces|, i requires 0 <= i < |pieces| => Group(SplitWords(pieces[i])))
  }

  /**
   * `preprocess_order_args`: drop the blank arguments and reverse them,
   * unless the first one left is a String, in which case only that String
   * counts: its comma-separated pieces, each split into words, reversed.
   */
  function PreprocessOrderArgs(args: seq<OrderArg>): (r: seq<OrderArg>)
    ensures forall i :: 0 <= i < |r| ==> !r[i].NilArg?
    ensures var kept := RejectBlank(args);
            kept == [] || !kept[0].Text? ==> r == Reverse(kept)
    ensures var kept := RejectBlank(args);
            kept != [] && kept[0].Text? ==> r == Reverse(TextCriteria(kept[0].s))
  {
    var kept := RejectBlank(args);
    if kept == [] || !kept[0].Text? then
      assert forall i :: 0 <= i < |kept| ==> kept[i] in kept;
      Reverse(kept)
    else Reverse(TextCriteria(kept[0].s))
  }

  /**
   * The criterion whose pass runs last is the first one declared: the
   * first non-blank argument, or the first piece of a leading String.
   */
  lemma LastPassIsFirstCriterion(args: seq<OrderArg>)
    ensures var kept := RejectBlank(args);
            var r := PreprocessOrderArgs(args);
            && (kept != [] && !kept[0].Text? ==> r != [] && r[|r| - 1] == kept[0])
            && (kept != [] && kept[0].Text? && SplitCommaSpace(kept[0].s) != [] ==>
                  r != [] && r[|r| - 1] == Group(SplitWords(SplitCommaSpace(kept[0].s)[0])))
            && (kept != [] && !kept[0].Text? ==> |r| == |kept|)
  {
  }

  /** Text of word characters and spaces has no comma. */
  lemma WordsAndSpacesHaveNoComma(s: string)
    requires forall i :: 0 <= i < |s| ==> s[i] == ' ' || IsWordChar(s[i])
    ensures forall i :: 0 <= i < |s| ==> s[i] != ','
  {
  }

  /** `"f1, f2 dir".split(', ')` is `[f1, "f2 dir"]`. */
  lemma TwoCriteriaPieces(f1: string, second: string)
    requires IsWord(f1)
    requires second != [] && forall i :: 0 <= i < |second| ==> second[i] == ' ' || IsWordChar(second[i])
    ensures SplitCommaSpace(f1 + ", " + second) == [f1, second]
  {
    CommaSplitPrefix(f1, second);
    WordsAndSpacesHaveNoComma(second);
    CommaSplitNone(second);
  }

  /** `"f2 dir".split(/\W+/)` is `[f2, dir]`. */
  lemma TwoWords(f2: string, dir: string)
    requires IsWord(f2)
    requires dir != [] && IsWord(dir)
    ensures SplitWords(f2 + " " + dir) == [f2, dir]
  {
    WordSplitNone(dir);
    WordSplitPrefix(f2, " ", dir);
  }

  /** A String that does not start with whitespace survives `reject!(&:blank?)`. */
  lemma TextKept(text: string)
    requires text != [] && !IsSpace(text[0])
    ensures RejectBlank([Text(text)]) == [Text(text)]
  {
    assert !IsBlank(Text(text));
  }

  /** The criteria of `"f1, f2 dir"` are the groups `[f1]` and `[f2, dir]`. */
  lemma TwoCriteriaGroups(f1: string, f2: string, dir: string)
    requires f1 != [] && IsWord(f1) && IsWord(f2)
    requires dir != [] && IsWord(dir)
    ensures TextCriteria(f1 + ", " + (f2 + " " + dir)) == [Group([f1]), Group([f2, dir])]
  {
    var second := f2 + " " + dir;
    assert forall i :: 0 <= i < |second| ==> second[i] == ' ' || IsWordChar(second[i]);
    TwoCriteriaPieces(f1, second);
    WordSplitNone(f1);
    assert SplitWords(f1) == [f1];
    TwoWords(f2, dir);
  }

  /**
   * `order("f1, f2 dir")` with word-character names: two passes, the
   * second criterion `[f2, dir]` first and the first criterion `[f1]` last.
   */
  lemma OrderTextTwoCriteria(f1: string, f2: string, dir: string)
    requires f1 != [] && IsWord(f1)
    requires IsWord(f2)
    requires dir != [] && IsWord(dir)
    ensures PreprocessOrderArgs([Text(f1 + ", " + f2 + " " + dir)]) == [Group([f2, dir]), Group([f1])]
  {
    var text := f1 + ", " + (f2 + " " + dir);
    assert f1 + ", " + f2 + " " + dir == text;
    assert text[0] == f1[0];
    TextKept(text);
    assert PreprocessOrderArgs([Text(text)]) == Reverse(TextCriteria(text));
    TwoCriteriaGroups(f1, f2, dir);
    assert Reverse([Group([f1]), Group([f2, dir])]) == [Group([f2, dir]), Group([f1])];
  }

  /** One pass of `order_by_args!`: the field to sort by (nil reads nil) and whether descending. */
  datatype SortKey = SortKey(field: Option<string>, desc: bool)

  /** `dir.present? && dir.to_sym.upcase.equal?(:DESC)`. */
  predicate IsDesc(dir: Option<string>)
    ensures dir.None? ==> !IsDesc(dir)
    ensures dir.Some? ==> (IsDesc(dir) <==> Upcase(dir.value) == "DESC")
  {
    dir.Some? && dir.value != "" && Upcase(dir.value) == "DESC"
  }

  /**
   * `field, dir = ...` in `order_by_args!`: a Hash gives its first key and
   * value (`to_a.flatten`), an Array its first two elements, a String or a
   * Symbol itself with no direction. nil never reaches it.
   */
  function KeyOf(a: OrderArg): (k: SortKey)
    requires !a.NilArg?
    ensures a.Text? ==> k == SortKey(Some(a.s), false)
    ensures a.SymbolArg? ==> k == SortKey(Some(a.name), false)
    ensures a.Group? && |a.items| == 1 ==> k == SortKey(Some(a.items[0]), false)
    ensures a.Group? && a.items == [] ==> k == SortKey(None, false)
    ensures a.Group? && |a.items| >= 2 ==> k == SortKey(Some(a.items[0]), IsDesc(Some(a.items[1])))
    ensures a.Assoc? && a.pairs != [] ==> k == SortKey(Some(a.pairs[0].0), IsDesc(Some(a.pairs[0].1)))
  {
    match a
    case Text(s) => SortKey(Some(s), false)
    case SymbolArg(n) => SortKey(Some(n), false)
    case Group(items) =>
      SortKey(if |items| > 0 then Some(items[0]) else None,
              IsDesc(if |items| > 1 then Some(items[1]) else None))
    case Assoc(pairs) =>
      if pairs == [] then SortKey(None, false)
      else SortKey(Some(pairs[0].0), IsDesc(Some(pairs[0].1)))
  }

  /** A direction is descending exactly when it upcases to DESC ("desc", "Desc", ...). */
  lemma DescIffUpcased(field: string, dir: string)
    ensures KeyOf(Group([field, dir])).desc <==> Upcase(dir) == "DESC"
    ensures KeyOf(Assoc([(field, dir)])).desc <==> Upcase(dir) == "DESC"
  {
    if Upcase(dir) == "DESC" {
      assert |dir| == 4;
    }
  }

  /** `record[field]`, where a missing field name (nil) reads nil. */
  function FieldValue(r: Record, f: Option<string>): (v: Value)
    ensures f.Some? ==> v == Get(r, f.value)
    ensures f.None? ==> v == Nil
  {
    if f.Some? then Get(r, f.value) else Nil
  }

  /** The sort block answers "x before y" (`<=>` is -1 or 0) for this key. */
  predicate InOrder(x: Record, y: Record, key: SortKey)
    ensures !key.desc ==> (InOrder(x, y, key) <==> ValueLe(FieldValue(x, key.field), FieldValue(y, key.field)))
    ensures key.desc ==> (InOrder(x, y, key) <==> ValueLe(FieldValue(y, key.field), FieldValue(x, key.field)))
  {
    if key.desc then ValueLe(FieldValue(y, key.field), FieldValue(x, key.field))
    else ValueLe(FieldValue(x, key.field), FieldValue(y, key.field))
  }

  predicate SortedBy(s: seq<Record>, key: SortKey) {
    forall i, j :: 0 <= i < j < |s| ==> InOrder(s[i], s[j], key)
  }

  /** Every record's value for the field is of one Ruby class, so `<=>` never gives nil. */
  predicate Uniform(s: seq<Record>, f: Option<string>) {
    forall x, y :: x in s && y in s ==> KindOf(FieldValue(x, f)) == KindOf(FieldValue(y, f))
  }

  lemma InOrderTotal(x: Record, y: Record, key: SortKey)
    requires KindOf(FieldValue(x, key.field)) == KindOf(FieldValue(y, key.field))
    ensures InOrder(x, y, key) || InOrder(y, x, key)
  {
    ValueLeTotal(FieldValue(x, key.field), FieldValue(y, key.field));
  }

  lemma InOrderTransitive(x: Record, y: Record, z: Record, key: SortKey)
    requires InOrder(x, y, key) && InOrder(y, z, key)
    ensures InOrder(x, z, key)
  {
    if key.desc {
      ValueLeTransitive(FieldValue(z, key.field), FieldValue(y, key.field), FieldValue(x, key.field));
    } else {
      ValueLeTransitive(FieldValue(x, key.field), FieldValue(y, key.field), FieldValue(z, key.field));
    }
  }

  /** Whether `sort!` can compare everything depends only on which records there are. */
  lemma UniformPermutation(s: seq<Record>, t: seq<Record>, f: Option<string>)
    requires multiset(s) == multiset(t)
    ensures Uniform(s, f) <==> Uniform(t, f)
  {
    assert forall x :: x in s <==> x in multiset(s);
    assert forall x :: x in t <==> x in multiset(t);
  }

  lemma UniformFromKinds(s: seq<Record>, t: seq<Record>, f: Option<string>, kind: Kind)
    requires multiset(s) == multiset(t)
    requires forall m :: 0 <= m < |t| ==> KindOf(FieldValue(t[m], f)) == kind
    ensures Uniform(s, f)
  {
    forall x | x in s
      ensures KindOf(FieldValue(x, f)) == kind
    {
      assert x in multiset(t);
      var m :| 0 <= m < |t| && t[m] == x;
    }
  }

  /** `s` with its neighbours at `j - 1` and `j` exchanged. */
  function Swapped(s: seq<Record>, j: int): (t: seq<Record>)
    requires 0 < j < |s|
    ensures |t| == |s| && t[j - 1] == s[j] && t[j] == s[j - 1]
    ensures forall m :: 0 <= m < |s| && m != j - 1 && m != j ==> t[m] == s[m]
    ensures multiset(t) == multiset(s)
  {
    s[j - 1 := s[j]][j := s[j - 1]]
  }

  method SwapAdjacent(a: array<Record>, j: int)
    requires 0 < j < a.Length
    modifies a
    ensures a[..] == Swapped(old(a[..]), j)
  {
    a[j - 1], a[j] := a[j], a[j - 1];
  }

  /** The key values of `s[..hi+1]` are all of class `kind`. */
  predicate KindsUpTo(s: seq<Record>, hi: int, f: Option<string>, kind: Kind) {
    hi < |s| && forall m :: 0 <= m <= hi ==> KindOf(FieldValue(s[m], f)) == kind
  }

  /** `s[..hi+1]` is in order, except possibly at position `hole`. */
  predicate OrderedBut(s: seq<Record>, hi: int, hole: int, key: SortKey) {
    hi < |s| && forall m, n :: 0 <= m < n <= hi && m != hole && n != hole ==> InOrder(s[m], s[n], key)
  }

  /** The element at `hole` is in order with everything after it up to `hi`. */
  predicate HoleFirst(s: seq<Record>, hi: int, hole: int, key: SortKey) {
    0 <= hole <= hi < |s| && forall n :: hole < n <= hi ==> InOrder(s[hole], s[n], key)
  }

  /**
   * The loop step of `Insert`: swapping the out-of-order neighbours at
   * `j - 1` and `j` moves the hole of the sortedness invariant to `j - 1`,
   * and keeps the classes, the multiset and everything after `i`.
   */
  lemma SwapStep(b: seq<Record>, i: int, j: int, key: SortKey, kind: Kind)
    requires 0 < j <= i < |b|
    requires InOrder(b[j], b[j - 1], key)
    requires OrderedBut(b, i, j, key) && HoleFirst(b, i, j, key)
    requires KindsUpTo(b, i, key.field, kind)
    ensures var c := Swapped(b, j);
            && OrderedBut(c, i, j - 1, key) && HoleFirst(c, i, j - 1, key)
            && KindsUpTo(c, i, key.field, kind)
            && c[i + 1..] == b[i + 1..]
  {
    var c := Swapped(b, j);
    forall m, n | 0 <= m < n <= i && m != j - 1 && n != j - 1
      ensures InOrder(c[m], c[n], key)
    {
      if n == j {
        assert InOrder(b[m], b[j - 1], key);
      } else if m == j {
        assert InOrder(b[j - 1], b[n], key);
      } else {
        assert InOrder(b[m], b[n], key);
      }
    }
    assert forall m :: 0 <= m <= i ==> c[m] == b[m] || c[m] == b[j] || c[m] == b[j - 1];
  }

  /** Once the hole is in order with its left neighbour, the whole prefix is in order. */
  lemma CloseHole(s: seq<Record>, i: int, j: int, key: SortKey)
    requires OrderedBut(s, i, j, key) && HoleFirst(s, i, j, key)
    requires j == 0 || InOrder(s[j - 1], s[j], key)
    ensures OrderedBut(s, i, -1, key)
  {
    forall m, n | 0 <= m < n <= i
      ensures InOrder(s[m], s[n], key)
    {
      if n == j && m < j - 1 {
        InOrderTransitive(s[m], s[j - 1], s[j], key);
      }
    }
  }

  /**
   * Insertion of `a[i]` into the sorted prefix `a[..i]` by adjacent swaps;
   * all of `a[..i+1]` has values of one class.
   */
  method Insert(a: array<Record>, i: int, key: SortKey, ghost kind: Kind)
    requires 0 < i < a.Length
    requires KindsUpTo(a[..], i, key.field, kind)
    requires OrderedBut(a[..], i, i, key)
    modifies a
    ensures multiset(a[..]) == multiset(old(a[..]))
    ensures a[i + 1..] == old(a[i + 1..])
    ensures KindsUpTo(a[..], i, key.field, kind)
    ensures OrderedBut(a[..], i, -1, key)
  {
    var j := i;
    while 0 < j && !InOrder(a[j - 1], a[j], key)
      invariant 0 <= j <= i
      invariant multiset(a[..]) == multiset(old(a[..]))
      invariant a[i + 1..] == old(a[i + 1..])
      invariant KindsUpTo(a[..], i, key.field, kind)
      invariant OrderedBut(a[..], i, j, key) && HoleFirst(a[..], i, j, key)
    {
      InOrderTotal(a[j - 1], a[j], key);
      SwapStep(a[..], i, j, key, kind);
      SwapAdjacent(a, j);
      j := j - 1;
    }
    CloseHole(a[..], i, j, key);
  }

  /**
   * One `candidates.sort!` of `order_by_args!`, by one key. It raises
   * ArgumentError (here: `ok` is false) when two values of different
   * classes meet, which a correct comparison sort cannot avoid once the
   * values span two classes; otherwise it leaves a permutation sorted by
   * the key. Tie order is unspecified, as Ruby's `sort!` is not stable.
   */
  method SortPass(a: array<Record>, key: SortKey) returns (ok: bool)
    modifies a
    ensures multiset(a[..]) == multiset(old(a[..]))
    ensures ok == Uniform(old(a[..]), key.field)
    ensures ok ==> SortedBy(a[..], key)
  {
    if a.Length < 2 {
      assert forall x, y :: x in old(a[..]) && y in old(a[..]) ==> x == y;
      return true;
    }
    ghost var kind := KindOf(FieldValue(a[0], key.field));
    var i := 1;
    while i < a.Length
      invariant 1 <= i <= a.Length
      invariant multiset(a[..]) == multiset(old(a[..]))
      invariant a[i..] == old(a[i..])
      invariant kind == KindOf(FieldValue(old(a[0]), key.field))
      invariant KindsUpTo(a[..], i - 1, key.field, kind)
      invariant OrderedBut(a[..], i - 1, -1, key)
    {
      if KindOf(FieldValue(a[i], key.field)) != KindOf(FieldValue(a[i - 1], key.field)) {
        assert old(a[..])[i] == a[i] && old(a[..])[0] == old(a[0]);
        return false;
      }
      assert OrderedBut(a[..], i, i, key);
      assert KindsUpTo(a[..], i, key.field, kind);
      Insert(a, i, key, kind);
      i := i + 1;
    }
    UniformFromKinds(old(a[..]), a[..], key.field, kind);
    assert SortedBy(a[..], key);
    ok := true;
  }

  /**
   * `order_by_args!(candidates, args)`: one `sort!` per argument, in
   * order. It succeeds exactly when every key's values are of one class,
   * and then the records are permuted and sorted by the last key.
   */
  method OrderByArgs(candidates: array<Record>, args: seq<OrderArg>) returns (ok: bool)
    requires forall k :: 0 <= k < |args| ==> !args[k].NilArg?
    modifies candidates
    ensures multiset(candidates[..]) == multiset(old(candidates[..]))
    ensures ok == forall k :: 0 <= k < |args| ==> Uniform(old(candidates[..]), KeyOf(args[k]).field)
    ensures ok && args != [] ==> SortedBy(candidates[..], KeyOf(args[|args| - 1]))
    ensures args == [] ==> candidates[..] == old(candidates[..])
  {
    ok := true;
    for k := 0 to |args|
      invariant ok
      invariant multiset(candidates[..]) == multiset(old(candidates[..]))
      invariant forall k' :: 0 <= k' < k ==> Uniform(old(candidates[..]), KeyOf(args[k']).field)
      invariant k > 0 ==> SortedBy(candidates[..], KeyOf(args[k - 1]))
      invariant k == 0 ==> candidates[..] == old(candidates[..])
    {
      var key := KeyOf(args[k]);
      ghost var before := candidates[..];
      UniformPermutation(before, old(candidates[..]), key.field);
      ok := SortPass(candidates, key);
      if !ok {
        return;
      }
    }
  }

  /**
   * The patched `order(*options)`: ArgumentError for no arguments;
   * otherwise a sorted copy of `records` (the relation itself is a value
   * and stays as it was), or the ArgumentError a pass raises.
   */
  method Order(rel: Relation, args: seq<OrderArg>) returns (r: Result<seq<Record>>)
    ensures args == [] ==> r == Err(ArgumentError)
    ensures r.Err? ==> r.error == ArgumentError
    ensures var passes := PreprocessOrderArgs(args);
            args != [] ==> (r.Ok? <==> forall k :: 0 <= k < |passes| ==> Uniform(rel.records, KeyOf(passes[k]).field))
    ensures r.Ok? ==> multiset(r.value) == multiset(rel.records)
    ensures var passes := PreprocessOrderArgs(args);
            r.Ok? && passes != [] ==> SortedBy(r.value, KeyOf(passes[|passes| - 1]))
    ensures r.Ok? && PreprocessOrderArgs(args) == [] ==> r.value == rel.records
  {
    var check := CheckIfMethodHasArguments(args);
    if check.Some? {
      return Err(check.value);
    }
    var relation := Where(rel, []);
    // `return relation if options.blank?` cannot fire: the check above passed
    var processed := PreprocessOrderArgs(args);
    var candidates := new Record[|relation.records|](i requires 0 <= i < |relation.records| => relation.records[i]);
    assert candidates[..] == rel.records;
    var ok := OrderByArgs(candidates, processed);
    assert ok == forall k :: 0 <= k < |processed| ==> Uniform(rel.records, KeyOf(processed[k]).field);
    assert multiset(candidates[..]) == multiset(rel.records);
    if !ok {
      return Err(ArgumentError);
    }
    return Ok(candidates[..]);
  }
}
