/**
 * The two entities: the record class that owns the data (`ActiveHash::Base`
 * seen from the relation) and `ActiveHash::Relation`.
 */
module ActiveHash {
  import opened Wrappers
  import opened Matching

  /**
   * The owning class as the relation sees it: its raw `data` (only its
   * size is consulted), its loaded `@records`, and `record_index`, which
   * maps `id.to_s` to a position in `@records`. All three are given.
   */
  datatype Klass = Klass(
    data: Option<seq<Record>>,
    records: Option<seq<Record>>,
    recordIndex: map<string, nat>)

  /**
   * A relation after lib/patch.rb: the owning class and the records it is
   * scoped over. The patched `initialize(klass, records)` is this
   * constructor; no method assigns either field afterwards.
   */
  datatype Relation = Relation(klass: Klass, records: seq<Record>)
}
