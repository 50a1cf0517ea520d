/**
 * Concrete uses of the relation on the records `[{id: 1, name: "A", age: 30},
 * {id: 2, name: "B", age: 25}, {id: 3, name: "A", age: 20}]`, and how
 * `order` reads its arguments.
 */
module Scenarios {
  import opened Wrappers
  import opened RubyText
  import opened Values
  import opened Matching
  import opened ActiveHash
  import opened Query
  import opened Ordering

  const A30: Record := map["id" := Int(1), "name" := Str("A"), "age" := Int(30)]
  const B25: Record := map["id" := Int(2), "name" := Str("B"), "age" := Int(25)]
  const A20: Record := map["id" := Int(3), "name" := Str("A"), "age" := Int(20)]

  function People(): Relation {
    Relation(Klass(None, Some([A30, B25, A20]), map["1" := 0, "2" := 1, "3" := 2]), [A30, B25, A20])
  }

  /** `where(name: "A")` keeps records 1 and 3, in order. */
  lemma WhereExample()
    ensures Where(People(), [("name", Exact(Str("A")))]).records == [A30, A20]
  {
    var q := [("name", Exact(Str("A")))];
    assert q[1..] == [];
    assert MatchOptions(A30, q) && !MatchOptions(B25, q) && MatchOptions(A20, q);
    assert [A30, B25, A20][1..] == [B25, A20] && [B25, A20][1..] == [A20];
  }

  /** `find_by!(id: 99)` raises RecordNotFound: no record has that id. */
  lemma FindByBangExample()
    ensures FindByBang(People(), IdQuery(Int(99))) == Err(RecordNotFound)
  {
    IdQueryMatches(Int(99));
    assert forall x :: x in People().records ==> IdOf(Get(x, IdField)) != 99;
  }

  /** `pluck(:name)` is flat; `pluck(:name, :age)` pairs, in record order. */
  lemma PluckExample()
    ensures Pluck(People(), ["name"]) == Some([Scalar(Str("A")), Scalar(Str("B")), Scalar(Str("A"))])
    ensures Pluck(People(), ["name", "age"]) == Some([
              Pair(Scalar(Str("A")), Scalar(Int(30))),
              Pair(Scalar(Str("B")), Scalar(Int(25))),
              Pair(Scalar(Str("A")), Scalar(Int(20)))])
  {
    var rel := People();
    PluckOneAndTwo(rel, "name", "age");
    assert Get(A30, "name") == Str("A") && Get(B25, "name") == Str("B") && Get(A20, "name") == Str("A");
    assert Get(A30, "age") == Int(30) && Get(B25, "age") == Int(25) && Get(A20, "age") == Int(20);
    var one := Pluck(rel, ["name"]).value;
    assert one == Query.Column(rel.records, "name");
    assert |one| == 3 && one[0] == Scalar(Str("A")) && one[1] == Scalar(Str("B")) && one[2] == Scalar(Str("A"));
    var two := Pluck(rel, ["name", "age"]).value;
    assert |two| == 3;
    assert two[0] == Pair(Scalar(Str("A")), Scalar(Int(30)));
    assert two[1] == Pair(Scalar(Str("B")), Scalar(Int(25)));
    assert two[2] == Pair(Scalar(Str("A")), Scalar(Int(20)));
    assert one == [Scalar(Str("A")), Scalar(Str("B")), Scalar(Str("A"))];
    assert two == [Pair(Scalar(Str("A")), Scalar(Int(30))), Pair(Scalar(Str("B")), Scalar(Int(25))), Pair(Scalar(Str("A")), Scalar(Int(20)))];
  }

  lemma TextJoins()
    ensures "name, age DESC" == "name" + ", " + "age" + " " + "DESC"
  {
  }

  /** "name, age DESC" becomes two passes: age descending first, then name ascending. */
  lemma OrderTextExample()
    ensures PreprocessOrderArgs([Text("name, age DESC")]) == [Group(["age", "DESC"]), Group(["name"])]
  {
    TextJoins();
    OrderTextTwoCriteria("name", "age", "DESC");
  }

  /** The two passes' keys: age descending, name ascending. */
  lemma OrderTextKeys()
    ensures KeyOf(Group(["age", "DESC"])) == SortKey(Some("age"), true)
    ensures KeyOf(Group(["name"])) == SortKey(Some("name"), false)
  {
    assert Upcase("DESC") == "DESC";
  }

  /**
   * A Hash argument contributes only its first pair: `order(name: :asc,
   * age: :desc)` sorts by name alone.
   */
  lemma OrderHashUsesFirstPair()
    ensures var arg := Assoc([("name", "asc"), ("age", "desc")]);
            PreprocessOrderArgs([arg]) == [arg] && KeyOf(arg) == SortKey(Some("name"), false)
  {
    var arg := Assoc([("name", "asc"), ("age", "desc")]);
    assert RejectBlank([arg]) == [arg];
    assert Upcase("asc") == "ASC";
  }

  /** In any order of the three records sorted by name ascending, B is last. */
  lemma SortedByNameEndsWithB(s: seq<Record>)
    requires multiset(s) == multiset{A30, B25, A20}
    requires SortedBy(s, SortKey(Some("name"), false))
    ensures |s| == 3 && s[2] == B25
  {
    assert |s| == |multiset(s)| == 3;
    var name := SortKey(Some("name"), false);
    assert forall i :: 0 <= i < 3 ==> s[i] in multiset(s);
    assert B25 in multiset(s);
    assert !LexLe("B", "A");
  }

  /** Ages are all Integers and names all Strings, so neither pass raises. */
  lemma PeopleUniform()
    ensures Uniform(People().records, Some("age")) && Uniform(People().records, Some("name"))
  {
    assert forall x :: x in People().records ==> FieldValue(x, Some("age")).Int? && FieldValue(x, Some("name")).Str?;
  }

  /**
   * Arguments that come down to two passes, each over a field whose values
   * are of one class, order the relation: the call succeeds, permutes the
   * records, and leaves them sorted by the second pass's key.
   */
  method OrderInTwoPasses(rel: Relation, args: seq<OrderArg>, first: OrderArg, second: OrderArg)
    returns (r: Result<seq<Record>>)
    requires args != [] && PreprocessOrderArgs(args) == [first, second]
    requires !first.NilArg? && !second.NilArg?
    requires Uniform(rel.records, KeyOf(first).field) && Uniform(rel.records, KeyOf(second).field)
    ensures r.Ok? && multiset(r.value) == multiset(rel.records)
    ensures SortedBy(r.value, KeyOf(second))
  {
    ghost var passes := PreprocessOrderArgs(args);
    assert passes[0] == first && passes[1] == second;
    r := Order(rel, args);
  }

  /**
   * On the three records, `order("name, age DESC")` succeeds and puts the
   * B record last; which A comes first is up to the unstable sort.
   */
  method OrderExample() returns (r: Result<seq<Record>>)
    ensures r.Ok? && |r.value| == 3 && r.value[2] == B25
    ensures multiset(r.value) == multiset{A30, B25, A20}
  {
    OrderTextExample();
    OrderTextKeys();
    PeopleUniform();
    r := OrderInTwoPasses(People(), [Text("name, age DESC")], Group(["age", "DESC"]), Group(["name"]));
    SortedByNameEndsWithB(r.value);
  }
}
