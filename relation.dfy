/**
 * The query methods of `ActiveHash::Relation` as lib/patch.rb leaves them:
 * the patched `where`, `not`, `all`, `find`, `find_by_id` and `scoped?`,
 * and the unpatched `find_by`, `find_by!`, `count`, `to_ary`, `pluck` and
 * `pick` of lib/active_hash/relation.rb.
 */
module Query {
  import opened Wrappers
  import opened Values
  import opened Matching
  import opened ActiveHash
  import Base

  // ---------------------------------------------------------------------
  // Order-preserving selection
  // ---------------------------------------------------------------------

  /** `a` can be obtained from `b` by deleting elements. */
  predicate IsSubsequence<T(==)>(a: seq<T>, b: seq<T>) {
    a == [] || (b != [] && ((a[0] == b[0] && IsSubsequence(a[1..], b[1..])) || IsSubsequence(a, b[1..])))
  }

  lemma {:induction false} SubsequenceReflexive<T>(s: seq<T>)
    ensures IsSubsequence(s, s)
  {
    if s != [] {
      SubsequenceReflexive(s[1..]);
    }
  }

  /** `c` is an order-preserving merge of `a` and `b`. */
  predicate IsInterleaving<T(==)>(a: seq<T>, b: seq<T>, c: seq<T>)
    decreases |c|
  {
    if c == [] then a == [] && b == []
    else
      || (a != [] && a[0] == c[0] && IsInterleaving(a[1..], b, c[1..]))
      || (b != [] && b[0] == c[0] && IsInterleaving(a, b[1..], c[1..]))
  }

  /**
   * `records.select { match_options? }` when `keep` holds and
   * `records.reject { match_options? }` when it does not.
   */
  function Filter(rs: seq<Record>, q: Query, keep: bool): (r: seq<Record>)
    ensures forall x :: x in r <==> x in rs && MatchOptions(x, q) == keep
    ensures IsSubsequence(r, rs)
  {
    if rs == [] then []
    else if MatchOptions(rs[0], q) == keep then [rs[0]] + Filter(rs[1..], q, keep)
    else Filter(rs[1..], q, keep)
  }

  /** Filtering distributes over concatenation: it never reorders. */
  lemma {:induction false} FilterAppend(a: seq<Record>, b: seq<Record>, q: Query, keep: bool)
    ensures Filter(a + b, q, keep) == Filter(a, q, keep) + Filter(b, q, keep)
  {
    if a != [] {
      assert (a + b)[0] == a[0] && (a + b)[1..] == a[1..] + b;
      FilterAppend(a[1..], b, q, keep);
    } else {
      assert a + b == b;
    }
  }

  /** `select` and `reject` with the same block split the records between them, in order. */
  lemma {:induction false} FilterPartition(rs: seq<Record>, q: Query)
    ensures IsInterleaving(Filter(rs, q, true), Filter(rs, q, false), rs)
    ensures multiset(Filter(rs, q, true)) + multiset(Filter(rs, q, false)) == multiset(rs)
    ensures |Filter(rs, q, true)| + |Filter(rs, q, false)| == |rs|
  {
    if rs != [] {
      var t, f := Filter(rs, q, true), Filter(rs, q, false);
      var t', f' := Filter(rs[1..], q, true), Filter(rs[1..], q, false);
      FilterPartition(rs[1..], q);
      assert multiset(rs) == multiset{rs[0]} + multiset(rs[1..]) by {
        assert rs == [rs[0]] + rs[1..];
      }
      if MatchOptions(rs[0], q) {
        assert t == [rs[0]] + t' && f == f';
        assert t[0] == rs[0] && t[1..] == t';
        assert multiset(t) == multiset{rs[0]} + multiset(t');
      } else {
        assert f == [rs[0]] + f' && t == t';
        assert f[0] == rs[0] && f[1..] == f';
        assert multiset(f) == multiset{rs[0]} + multiset(f');
      }
    }
  }

  /** Selecting a second time with the same query keeps everything. */
  lemma {:induction false} FilterIdempotent(rs: seq<Record>, q: Query, keep: bool)
    ensures Filter(Filter(rs, q, keep), q, keep) == Filter(rs, q, keep)
  {
    if rs != [] {
      FilterIdempotent(rs[1..], q, keep);
      if MatchOptions(rs[0], q) == keep {
        assert ([rs[0]] + Filter(rs[1..], q, keep))[1..] == Filter(rs[1..], q, keep);
      }
    }
  }

  /** Two queries that accept the same records select the same records. */
  lemma {:induction false} FilterSameMatches(rs: seq<Record>, p: Query, q: Query, keep: bool)
    requires forall x :: MatchOptions(x, p) == MatchOptions(x, q)
    ensures Filter(rs, p, keep) == Filter(rs, q, keep)
  {
    if rs != [] {
      FilterSameMatches(rs[1..], p, q, keep);
    }
  }

  /** The first record `select` yields is the first record that passes. */
  predicate FirstMatchAt(rs: seq<Record>, q: Query, i: int) {
    0 <= i < |rs| && MatchOptions(rs[i], q)
    && forall j :: 0 <= j < i ==> !MatchOptions(rs[j], q)
  }

  lemma {:induction false} FilterHead(rs: seq<Record>, q: Query)
    requires Filter(rs, q, true) != []
    ensures exists i :: FirstMatchAt(rs, q, i) && rs[i] == Filter(rs, q, true)[0]
  {
    if MatchOptions(rs[0], q) {
      assert FirstMatchAt(rs, q, 0);
    } else {
      FilterHead(rs[1..], q);
      var i :| FirstMatchAt(rs[1..], q, i) && rs[1..][i] == Filter(rs[1..], q, true)[0];
      assert FirstMatchAt(rs, q, i + 1);
    }
  }

  // ---------------------------------------------------------------------
  // where, not, all
  // ---------------------------------------------------------------------

  /**
   * `where(query_hash)`: the receiver itself for an empty query, otherwise
   * a relation over the records that match, in their original order.
   */
  function Where(rel: Relation, q: Query): (r: Relation)
    ensures r.klass == rel.klass
    ensures q == [] ==> r == rel
    ensures q != [] ==> forall x :: x in r.records <==> x in rel.records && MatchOptions(x, q)
    ensures IsSubsequence(r.records, rel.records)
  {
    if q == [] then SubsequenceReflexive(rel.records); rel
    else Relation(rel.klass, Filter(rel.records, q, true))
  }

  /**
   * `not(query_hash)`: a new relation over the same records for an empty
   * query, otherwise over the records that do not match, in order.
   */
  function Not(rel: Relation, q: Query): (r: Relation)
    ensures r.klass == rel.klass
    ensures q == [] ==> r.records == rel.records
    ensures q != [] ==> forall x :: x in r.records <==> x in rel.records && !MatchOptions(x, q)
    ensures IsSubsequence(r.records, rel.records)
  {
    if q == [] then SubsequenceReflexive(rel.records); Relation(rel.klass, rel.records)
    else Relation(rel.klass, Filter(rel.records, q, false))
  }

  /** `all`: `where` with no conditions. */
  function All(rel: Relation): (r: Relation)
    ensures r == rel
  {
    Where(rel, [])
  }

  /** `to_ary`: a copy of `records`. */
  function ToAry(rel: Relation): (r: seq<Record>)
    ensures |r| == |rel.records| && forall i :: 0 <= i < |r| ==> r[i] == rel.records[i]
  {
    rel.records
  }

  /** `count`, which is `length`, delegated to `records`: as many as `to_ary` lists. */
  function Count(rel: Relation): (n: nat)
    ensures n == |ToAry(rel)|
  {
    |rel.records|
  }

  /**
   * For a non-empty query, `where` and `not` split the relation between
   * them, each in the original order, with no record in both.
   */
  lemma WhereNotPartition(rel: Relation, q: Query)
    requires q != []
    ensures IsInterleaving(Where(rel, q).records, Not(rel, q).records, rel.records)
    ensures multiset(Where(rel, q).records) + multiset(Not(rel, q).records) == multiset(rel.records)
    ensures forall x :: !(x in Where(rel, q).records && x in Not(rel, q).records)
    ensures Count(Where(rel, q)) + Count(Not(rel, q)) == Count(rel)
  {
    FilterPartition(rel.records, q);
  }

  /** `where(q).where(q) == where(q)`. */
  lemma WhereIdempotent(rel: Relation, q: Query)
    ensures Where(Where(rel, q), q) == Where(rel, q)
  {
    if q != [] {
      FilterIdempotent(rel.records, q, true);
    }
  }

  /** Chained `where`s filter by both queries at once. */
  lemma {:induction false} WhereWhere(rel: Relation, p: Query, q: Query)
    ensures Where(Where(rel, p), q) == Where(rel, p + q)
  {
    if p == [] {
      assert p + q == q;
    } else if q == [] {
      assert p + q == p;
    } else {
      FilterConjunction(rel.records, p, q);
    }
  }

  lemma {:induction false} FilterConjunction(rs: seq<Record>, p: Query, q: Query)
    ensures Filter(Filter(rs, p, true), q, true) == Filter(rs, p + q, true)
  {
    if rs != [] {
      MatchOptionsAppend(rs[0], p, q);
      FilterConjunction(rs[1..], p, q);
      if MatchOptions(rs[0], p) {
        assert ([rs[0]] + Filter(rs[1..], p, true))[1..] == Filter(rs[1..], p, true);
      }
    }
  }

  // ---------------------------------------------------------------------
  // find_by, find_by!
  // ---------------------------------------------------------------------

  /** `first` of a list of records: nil when empty. */
  function First(rs: seq<Record>): (r: Option<Record>)
    ensures r.None? <==> rs == []
    ensures r.Some? ==> r.value == rs[0]
  {
    if rs == [] then None else Some(rs[0])
  }

  /** `find_by(options)`, which is `where(options).first`. */
  function FindBy(rel: Relation, o: Query): (r: Option<Record>)
    ensures o == [] ==> r == First(rel.records)
    ensures o != [] ==> (r.None? <==> forall x :: x in rel.records ==> !MatchOptions(x, o))
    ensures o != [] && r.Some? ==>
              exists i :: FirstMatchAt(rel.records, o, i) && rel.records[i] == r.value
  {
    var found := Where(rel, o).records;
    if o != [] && found != [] then FilterHead(rel.records, o); First(found)
    else First(found)
  }

  /** `find_by!(options)`: `find_by`, raising RecordNotFound in place of nil. */
  function FindByBang(rel: Relation, o: Query): (r: Result<Record>)
    ensures r.Err? <==> FindBy(rel, o).None?
    ensures r.Err? ==> r.error == RecordNotFound
    ensures r.Ok? ==> FindBy(rel, o) == Some(r.value)
  {
    match FindBy(rel, o)
    case Some(x) => Ok(x)
    case None => Err(RecordNotFound)
  }

  // ---------------------------------------------------------------------
  // scoped?, find_by_id, find
  // ---------------------------------------------------------------------

  /**
   * `scoped?`: the class has `data` (any Array is truthy, an empty one
   * too) whose size differs from the relation's.
   */
  predicate Scoped(rel: Relation)
    ensures rel.klass.data.None? ==> !Scoped(rel)
    ensures rel.klass.data.Some? ==> (Scoped(rel) <==> |rel.klass.data.value| != |rel.records|)
  {
    rel.klass.data.Some? && |rel.klass.data.value| != |rel.records|
  }

  /** The query `find_by(id: id)` runs. */
  function IdQuery(id: Value): (q: Query) {
    [(IdField, Exact(id))]
  }

  /** `find_by(id: id)` accepts exactly the records whose id reads as the same integer. */
  lemma IdQueryMatches(id: Value)
    ensures forall x :: MatchOptions(x, IdQuery(id)) <==> IdOf(Get(x, IdField)) == IdOf(id)
  {
    assert IdQuery(id)[1..] == [];
  }

  /**
   * The patched `find_by_id`: a scan of the relation's own records when it
   * is scoped, the class's index when it is not.
   */
  function FindById(rel: Relation, id: Value): (r: Option<Record>)
    ensures Scoped(rel) && r.Some? ==> r.value in rel.records && IdOf(Get(r.value, IdField)) == IdOf(id)
    ensures Scoped(rel) && r.Some? ==>
              exists i :: FirstMatchAt(rel.records, IdQuery(id), i) && rel.records[i] == r.value
    ensures Scoped(rel) && r.None? ==> forall x :: x in rel.records ==> IdOf(Get(x, IdField)) != IdOf(id)
    ensures !Scoped(rel) ==> r == Base.FindUsingIndex(rel.klass, id)
  {
    if Scoped(rel) then IdQueryMatches(id); FindBy(rel, IdQuery(id))
    else Base.FindUsingIndex(rel.klass, id)
  }

  /** The argument of `find`: one identifier (nil included) or an Array of arguments. */
  datatype FindArg = One(id: Value) | Many(ids: seq<FindArg>)

  /** What `find` returns: a record or nil, or an Array of results. */
  datatype Found = Single(record: Option<Record>) | Batch(items: seq<Found>)

  /** Enumerable#find: the first record the block accepts, or nil. */
  function FirstWhere(rs: seq<Record>, block: Record -> bool): (r: Option<Record>)
    ensures r.None? <==> forall x :: x in rs ==> !block(x)
    ensures r.Some? ==> exists i :: 0 <= i < |rs| && rs[i] == r.value && block(rs[i])
                                   && forall j :: 0 <= j < i ==> !block(rs[j])
  {
    if rs == [] then None
    else if block(rs[0]) then Some(rs[0])
    else
      var r := FirstWhere(rs[1..], block);
      assert r.Some? ==> exists i :: 0 <= i < |rs| - 1 && rs[1..][i] == r.value && block(rs[1..][i])
                                     && forall j :: 0 <= j < i ==> !block(rs[1..][j]);
      assert forall x :: x in rs ==> x == rs[0] || x in rs[1..];
      r
  }

  /**
   * The patched `find(id = nil, &block)`. An Array maps `find` over its
   * elements (without the block); nil needs a block; anything else goes
   * through `find_by_id` and raises RecordNotFound when that gives nil.
   */
  function Find(rel: Relation, id: FindArg, block: Option<Record -> bool>): (r: Result<Found>)
    ensures r.Err? ==> r.error == RecordNotFound
    ensures id == One(Nil) && block.None? ==> r == Err(RecordNotFound)
    ensures id == One(Nil) && block.Some? ==> r == Ok(Single(FirstWhere(rel.records, block.value)))
    ensures id.One? && !id.id.Nil? ==>
              (r.Err? <==> FindById(rel, id.id).None?)
              && (r.Ok? ==> r.value == Single(FindById(rel, id.id)))
    ensures id.Many? ==> r == FindEach(rel, id.ids)
    ensures id.Many? ==> (r.Ok? ==> r.value.Batch? && |r.value.items| == |id.ids|)
    decreases id, 1
  {
    match id
    case Many(ids) => FindEach(rel, ids)
    case One(v) =>
      if v.Nil? then
        if block.None? then Err(RecordNotFound) else Ok(Single(FirstWhere(rel.records, block.value)))
      else
        match FindById(rel, v)
        case Some(x) => Ok(Single(Some(x)))
        case None => Err(RecordNotFound)
  }

  /**
   * `ids.map { |i| find(i) }`: every element found, in order, or the
   * exception of the first element that fails.
   */
  function FindEach(rel: Relation, ids: seq<FindArg>): (r: Result<Found>)
    ensures r.Err? ==> r.error == RecordNotFound
    ensures r.Ok? <==> forall k :: 0 <= k < |ids| ==> Find(rel, ids[k], None).Ok?
    ensures r.Ok? ==> r.value.Batch? && |r.value.items| == |ids|
                      && forall k :: 0 <= k < |ids| ==> r.value.items[k] == Find(rel, ids[k], None).value
    decreases ids, 0
  {
    if ids == [] then Ok(Batch([]))
    else
      match Find(rel, ids[0], None)
      case Err(e) => Err(e)
      case Ok(f) =>
        match FindEach(rel, ids[1..])
        case Err(e) =>
          assert forall k :: 1 <= k < |ids| ==> ids[k] == ids[1..][k - 1];
          Err(e)
        case Ok(rest) =>
          assert forall k :: 1 <= k < |ids| ==> ids[k] == ids[1..][k - 1];
          Ok(Batch([f] + rest.items))
  }

  // ---------------------------------------------------------------------
  // pluck, pick
  // ---------------------------------------------------------------------

  /** An element of a `pluck` result: a value, or a pair `[a, b]` that `zip` made. */
  datatype Plucked = Scalar(v: Value) | Pair(left: Plucked, right: Plucked)

  /** `all.map(&column)`. */
  function Column(rs: seq<Record>, col: string): (c: seq<Plucked>)
    ensures |c| == |rs| && forall i :: 0 <= i < |rs| ==> c[i] == Scalar(Get(rs[i], col))
  {
    seq(|rs|, i requires 0 <= i < |rs| => Scalar(Get(rs[i], col)))
  }

  /** `xs.zip(ys)`, padding with nil when `ys` is shorter. */
  function Zip(xs: seq<Plucked>, ys: seq<Plucked>): (z: seq<Plucked>)
    ensures |z| == |xs|
    ensures forall i :: 0 <= i < |xs| ==> z[i] == Pair(xs[i], if i < |ys| then ys[i] else Scalar(Nil))
  {
    seq(|xs|, i requires 0 <= i < |xs| => Pair(xs[i], if i < |ys| then ys[i] else Scalar(Nil)))
  }

  /** `columns.inject(&:zip)` on a non-empty list of columns. */
  function InjectZip(cols: seq<seq<Plucked>>): (z: seq<Plucked>)
    requires cols != []
    ensures |z| == |cols[0]|
  {
    if |cols| == 1 then cols[0] else Zip(InjectZip(cols[..|cols| - 1]), cols[|cols| - 1])
  }

  /**
   * `pluck(*column_names)`: nil for no columns (`[].inject` is nil);
   * otherwise the columns transposed into one element per record, in record
   * order: the bare value for one column, `[a, b]` for two, and for more
   * columns the nested pairs `[[a, b], c]` that repeated `zip` builds.
   */
  function Pluck(rel: Relation, cols: seq<string>): (r: Option<seq<Plucked>>)
    ensures r.None? <==> cols == []
    ensures r.Some? ==> |r.value| == |rel.records| && forall i :: 0 <= i < |rel.records| ==> r.value[i] == Row(rel.records[i], cols)
  {
    if cols == [] then None
    else
      InjectZipRows(rel.records, cols);
      Some(InjectZip(seq(|cols|, k requires 0 <= k < |cols| => Column(All(rel).records, cols[k]))))
  }

  /** What `pluck` yields for one record: its values, paired up from the left. */
  function Row(r: Record, cols: seq<string>): (p: Plucked)
    requires cols != []
  {
    if |cols| == 1 then Scalar(Get(r, cols[0]))
    else Pair(Row(r, cols[..|cols| - 1]), Scalar(Get(r, cols[|cols| - 1])))
  }

  lemma {:induction false} InjectZipRows(rs: seq<Record>, cols: seq<string>)
    requires cols != []
    ensures var z := InjectZip(seq(|cols|, k requires 0 <= k < |cols| => Column(rs, cols[k])));
            |z| == |rs| && forall i :: 0 <= i < |rs| ==> z[i] == Row(rs[i], cols)
  {
    var columns := seq(|cols|, k requires 0 <= k < |cols| => Column(rs, cols[k]));
    if |cols| > 1 {
      var init := cols[..|cols| - 1];
      InjectZipRows(rs, init);
      assert columns[..|cols| - 1] == seq(|init|, k requires 0 <= k < |init| => Column(rs, init[k]));
    }
  }

  /** `pluck(:name)` is the flat list of names; `pluck(:a, :b)` the list of pairs `[a, b]`. */
  lemma PluckOneAndTwo(rel: Relation, a: string, b: string)
    ensures Pluck(rel, []) == None
    ensures Pluck(rel, [a]) == Some(Column(rel.records, a))
    ensures |Pluck(rel, [a, b]).value| == |rel.records|
    ensures forall i :: 0 <= i < |rel.records| ==>
              Pluck(rel, [a, b]).value[i] == Pair(Scalar(Get(rel.records[i], a)), Scalar(Get(rel.records[i], b)))
  {
    assert Pluck(rel, [a]).Some? && Pluck(rel, [a, b]).Some?;
    assert [a, b][..1] == [a];
  }

  /**
   * `pick(*column_names)`, which is `pluck(...).first`: the first record's
   * element, nil for an empty relation, and NoMethodError (`nil.first`)
   * for no columns.
   */
  function Pick(rel: Relation, cols: seq<string>): (r: Result<Option<Plucked>>)
    ensures cols == [] ==> r == Err(NoMethodError)
    ensures cols != [] && rel.records == [] ==> r == Ok(None)
    ensures cols != [] && rel.records != [] ==> r == Ok(Some(Row(rel.records[0], cols)))
  {
    match Pluck(rel, cols)
    case None => Err(NoMethodError)
    case Some(rows) =>
      Ok(if rows == [] then None else Some(rows[0]))
  }
}
