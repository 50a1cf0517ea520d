/** The class-side methods lib/patch.rb adds to `ActiveHash::Base`. */
module Base {
  import opened Wrappers
  import opened Values
  import opened Matching
  import opened ActiveHash

  /** `Base.all`: a relation over the loaded records, or over none when nothing is loaded. */
  function All(k: Klass): (r: Relation)
    ensures r.klass == k
    ensures k.records.Some? ==> r.records == k.records.value
    ensures k.records.None? ==> r.records == []
  {
    Relation(k, if k.records.Some? then k.records.value else [])
  }

  /**
   * `Base.find_using_index(id)`: the record at `record_index[id.to_s]`, or
   * nil when the key is absent or the position is past the end.
   */
  function FindUsingIndex(k: Klass, id: Value): (r: Option<Record>)
    ensures r.Some? <==> ToS(id) in k.recordIndex && k.records.Some?
                         && k.recordIndex[ToS(id)] < |k.records.value|
    ensures r.Some? ==> r.value in k.records.value
    ensures r.Some? ==> r.value == k.records.value[k.recordIndex[ToS(id)]]
  {
    var key := ToS(id);
    if key in k.recordIndex && k.records.Some? && k.recordIndex[key] < |k.records.value|
    then Some(k.records.value[k.recordIndex[key]])
    else None
  }

  /**
   * What the model takes loading to establish: every loaded record has a
   * distinct id, taken to be an Integer, and `record_index` maps exactly
   * the `to_s` of each id to the record's position. The code itself does
   * not demand Integer ids (`Lookup.FindByIdStringIds` shows what String
   * ids do).
   */
  ghost predicate IndexConsistent(k: Klass) {
    && k.records.Some?
    && (forall p :: 0 <= p < |k.records.value| ==> Get(k.records.value[p], IdField).Int?)
    && (forall p, p' :: 0 <= p < p' < |k.records.value| ==>
          Get(k.records.value[p], IdField) != Get(k.records.value[p'], IdField))
    && (forall p :: 0 <= p < |k.records.value| ==>
          ToS(Get(k.records.value[p], IdField)) in k.recordIndex
          && k.recordIndex[ToS(Get(k.records.value[p], IdField))] == p)
    && (forall key :: key in k.recordIndex ==>
          k.recordIndex[key] < |k.records.value|
          && ToS(Get(k.records.value[k.recordIndex[key]], IdField)) == key)
  }
}
