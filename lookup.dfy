/**
 * The two paths of the patched `find_by_id` (lib/patch.rb:63-69): the
 * index lookup `find_using_index` (lib/patch.rb:9-12) taken by an unscoped
 * relation, and the scan `find_by(id: id)` taken by a scoped one.
 */
module Lookup {
  import opened Wrappers
  import opened RubyText
  import opened Values
  import opened Matching
  import opened ActiveHash
  import Base
  import opened Query

  /** `Base.all` is unscoped when the class's `data` is absent or has as many entries as were loaded. */
  lemma BaseAllUnscoped(k: Klass)
    requires k.records.Some?
    requires k.data.None? || |k.data.value| == |k.records.value|
    ensures !Scoped(Base.All(k))
  {
  }

  /** The index entry for the numeral of an id that some record has names that record. */
  lemma IndexHit(k: Klass, n: int, p: int)
    requires Base.IndexConsistent(k)
    requires 0 <= p < |k.records.value| && Get(k.records.value[p], IdField) == Int(n)
    ensures Show(n) in k.recordIndex && k.recordIndex[Show(n)] == p
  {
    assert ToS(Get(k.records.value[p], IdField)) == Show(n);
  }

  /** No record has the id `n`, so the index has no entry for its numeral. */
  lemma IndexMiss(k: Klass, n: int)
    requires Base.IndexConsistent(k)
    requires forall p :: 0 <= p < |k.records.value| ==> Get(k.records.value[p], IdField) != Int(n)
    ensures Show(n) !in k.recordIndex
  {
    if Show(n) in k.recordIndex {
      var p := k.recordIndex[Show(n)];
      ShowInjective(Get(k.records.value[p], IdField).i, n);
    }
  }

  /** The scan finds the one record with the integer id. */
  lemma ScanHit(rel: Relation, v: Value, n: int, p: int)
    requires IdOf(v) == n
    requires 0 <= p < |rel.records| && Get(rel.records[p], IdField) == Int(n)
    requires forall q :: 0 <= q < |rel.records| && q != p ==> IdOf(Get(rel.records[q], IdField)) != n
    ensures FindBy(rel, IdQuery(v)) == Some(rel.records[p])
  {
    IdQueryMatches(v);
    assert MatchOptions(rel.records[p], IdQuery(v));
    var scan := FindBy(rel, IdQuery(v));
    var i :| FirstMatchAt(rel.records, IdQuery(v), i) && rel.records[i] == scan.value;
    assert i == p;
  }

  /** The scan finds nothing when no record has the integer id. */
  lemma ScanMiss(rel: Relation, v: Value, n: int)
    requires IdOf(v) == n
    requires forall q :: 0 <= q < |rel.records| ==> IdOf(Get(rel.records[q], IdField)) != n
    ensures FindBy(rel, IdQuery(v)) == None
  {
    IdQueryMatches(v);
    assert forall x :: x in rel.records ==> !MatchOptions(x, IdQuery(v));
  }

  /**
   * On a consistently loaded class, the index and the scan find the same
   * record for an identifier given as an Integer `n` or as its numeral.
   */
  lemma IndexAgreesWithScan(k: Klass, v: Value, n: int)
    requires Base.IndexConsistent(k)
    requires v == Int(n) || v == Str(Show(n))
    ensures Base.FindUsingIndex(k, v) == FindBy(Base.All(k), IdQuery(v))
  {
    var rs := k.records.value;
    ToIShow(n);
    assert IdOf(v) == n && ToS(v) == Show(n);
    var rel := Base.All(k);
    assert rel.records == rs;
    assert forall q :: 0 <= q < |rs| ==> IdOf(Get(rs[q], IdField)) == Get(rs[q], IdField).i;
    if p :| 0 <= p < |rs| && Get(rs[p], IdField) == Int(n) {
      IndexHit(k, n, p);
      assert forall q :: 0 <= q < |rs| && q != p ==> Get(rs[q], IdField) != Get(rs[p], IdField);
      ScanHit(rel, v, n, p);
    } else {
      IndexMiss(k, n);
      ScanMiss(rel, v, n);
    }
  }

  /**
   * So, on such a class, `Base.all.find_by_id` gives what the scan gives,
   * whichever path `scoped?` picks.
   */
  lemma FindByIdPathsAgree(k: Klass, v: Value, n: int)
    requires Base.IndexConsistent(k)
    requires v == Int(n) || v == Str(Show(n))
    ensures FindById(Base.All(k), v) == FindBy(Base.All(k), IdQuery(v))
  {
    IndexAgreesWithScan(k, v, n);
  }

  /**
   * The paths part for a numeral that is not the canonical one: the index
   * is keyed by `to_s`, the scan compares `to_i`, so a zero-padded numeral
   * such as "07" always misses the index, while the scan finds what the
   * integer finds.
   */
  lemma PaddedNumeralPathsDiffer(k: Klass, n: nat)
    requires Base.IndexConsistent(k)
    ensures Base.FindUsingIndex(k, Str("0" + Show(n))) == None
    ensures FindBy(Base.All(k), IdQuery(Str("0" + Show(n)))) == Base.FindUsingIndex(k, Int(n))
  {
    var padded := "0" + Show(n);
    if padded in k.recordIndex {
      var p := k.recordIndex[padded];
      PaddedNumeral(n, Get(k.records.value[p], IdField).i);
    }
    PaddedNumeral(n, 0);
    IdQueryMatches(Str(padded));
    IdQueryMatches(Int(n));
    assert forall x :: MatchOptions(x, IdQuery(Str(padded))) == MatchOptions(x, IdQuery(Int(n)));
    FilterSameMatches(k.records.value, IdQuery(Str(padded)), IdQuery(Int(n)), true);
    IndexAgreesWithScan(k, Int(n), n);
  }

  /**
   * So on a loaded class whose `data` matches, `find_by_id("07")` gives
   * nil although the record with id 7 is there and `find_by(id: "07")`
   * finds it.
   */
  lemma FindByIdPaddedNumeral()
    ensures var r7 := map[IdField := Int(7)];
            var k := Klass(Some([r7]), Some([r7]), map[Show(7) := 0]);
            && Base.IndexConsistent(k)
            && !Scoped(Base.All(k))
            && FindById(Base.All(k), Str("0" + Show(7))) == None
            && FindBy(Base.All(k), IdQuery(Str("0" + Show(7)))) == Some(r7)
  {
    var r7 := map[IdField := Int(7)];
    var k := Klass(Some([r7]), Some([r7]), map[Show(7) := 0]);
    assert Get(r7, IdField) == Int(7);
    assert Base.IndexConsistent(k);
    PaddedNumeralPathsDiffer(k, 7);
    IndexHit(k, 7, 0);
  }

  /** On any relation, the scan gives the first record when its id reads as the same integer. */
  lemma ScanTakesFirst(rel: Relation, v: Value)
    requires rel.records != [] && IdOf(Get(rel.records[0], IdField)) == IdOf(v)
    ensures FindBy(rel, IdQuery(v)) == Some(rel.records[0])
  {
    IdQueryMatches(v);
    var scan := FindBy(rel, IdQuery(v));
    var i :| FirstMatchAt(rel.records, IdQuery(v), i) && rel.records[i] == scan.value;
    assert i == 0;
  }

  /**
   * `Base.IndexConsistent` takes ids to be Integers; with String ids the
   * two paths part. For distinct String ids `a`, `b`, `c` where `a` and `b`
   * read as the same integer under `to_i`, the scan for `b` gives the
   * record whose id is `a`, whereas the index, keyed by `to_s`, gives the
   * record whose id is `b`; the scan does so both on the unscoped
   * `Base.all` and on a scoped relation over the first two records.
   */
  lemma FindByIdStringIds(a: string, b: string, c: string)
    requires a != b && b != c && a != c && ToI(a) == ToI(b)
    ensures var ra, rb, rc := map[IdField := Str(a)], map[IdField := Str(b)], map[IdField := Str(c)];
            var k := Klass(Some([ra, rb, rc]), Some([ra, rb, rc]), map[a := 0, b := 1, c := 2]);
            var rel := Relation(k, [ra, rb]);
            && !Scoped(Base.All(k)) && Scoped(rel)
            && FindById(Base.All(k), Str(b)) == Some(rb)
            && FindBy(Base.All(k), IdQuery(Str(b))) == Some(ra)
            && FindById(rel, Str(b)) == Some(ra)
  {
    var ra, rb, rc := map[IdField := Str(a)], map[IdField := Str(b)], map[IdField := Str(c)];
    var k := Klass(Some([ra, rb, rc]), Some([ra, rb, rc]), map[a := 0, b := 1, c := 2]);
    var rel := Relation(k, [ra, rb]);
    assert Get(ra, IdField) == Str(a);
    ScanTakesFirst(Base.All(k), Str(b));
    ScanTakesFirst(rel, Str(b));
  }

  /** The ids "a" and "b" both read as 0, so `find_by_id("b")` depends on the path. */
  lemma FindByIdLetterIds()
    ensures var ra, rb, rc := map[IdField := Str("a")], map[IdField := Str("b")], map[IdField := Str("c")];
            var k := Klass(Some([ra, rb, rc]), Some([ra, rb, rc]), map["a" := 0, "b" := 1, "c" := 2]);
            && FindById(Base.All(k), Str("b")) == Some(rb)
            && FindById(Relation(k, [ra, rb]), Str("b")) == Some(ra)
  {
    var a, b, c := "a", "b", "c";
    assert ToI(a) == 0 && ToI(b) == 0;
    FindByIdStringIds(a, b, c);
  }

  /**
   * `scoped?` needs `data`: on a class without it, a filtered relation is
   * unscoped, and `find_by_id` returns, through the index, a record the
   * relation does not hold.
   */
  lemma FindByIdUnscopedWithoutData()
    ensures var r1, r2 := map[IdField := Int(1)], map[IdField := Int(2)];
            var k := Klass(None, Some([r1, r2]), map["1" := 0, "2" := 1]);
            var rel := Where(Base.All(k), IdQuery(Int(2)));
            && rel.records == [r2]
            && !Scoped(rel)
            && FindById(rel, Int(1)) == Some(r1)
            && r1 !in rel.records
  {
    var r1, r2 := map[IdField := Int(1)], map[IdField := Int(2)];
    var k := Klass(None, Some([r1, r2]), map["1" := 0, "2" := 1]);
    IdQueryMatches(Int(2));
    assert !MatchOptions(r1, IdQuery(Int(2))) && MatchOptions(r2, IdQuery(Int(2)));
    assert [r1, r2][1..] == [r2];
    assert Filter([r1, r2], IdQuery(Int(2)), true) == [r2];
    assert Show(1) == "1";
  }
}
