# ActiveHash::Relation in Dafny

A model of `ActiveHash::Relation`, the in-memory query object of the
`active_hash` gem, as `lib/patch.rb` leaves it. The patch reopens the class
of `lib/active_hash/relation.rb` and replaces `initialize`, `where`, `not`,
`all`, `find`, `find_by_id`, `order`, `match_options?` and `normalize`. It
adds `scoped?` and the class-side `Base.all` and `Base.find_using_index`.
The methods it does not replace are modelled as written in
`lib/active_hash/relation.rb`: `find_by`, `find_by!`, `count`, `pluck`,
`pick`, `to_ary`, `check_if_method_has_arguments!`, `preprocess_order_args`
and `order_by_args!`.

The patch declares `attr_accessor :records`, and its `initialize(klass,
records)` sets that accessor. This supersedes the lazy `records` reader and
its dirty flag in the base file. A relation is therefore a value: a
`Relation(klass, records)` datatype that no method changes after
construction. The owning class is a `Klass` datatype with three fields:
its `data` (only its size is read), its loaded `@records`, and
`record_index`, a map from `id.to_s` to a position. All three are given;
loading them is not modelled.

Values a record field holds are `Int | Str | Sym | Nil`. A record is a map
from field name to value, and a missing field reads nil. A query hash is a
sequence of `(field, matcher)` pairs. A matcher is an exact value, an Array
(`AnyOf`) or an Integer Range (`IntRange`). The Ruby library pieces the
relation relies on are written out in `RubyText`:
- `String#to_i`: leading whitespace, an optional sign, and digits with
  single underscores; anything else reads 0.
- `Integer#to_s`.
- `blank?` on a String.
- ASCII `upcase`.
- `split(', ')` and `split(/\W+/)` with Ruby's dropping of trailing empty
  fields.

Modules follow the program. `Matching` is `match_options?` and `normalize`.
`Base` holds the class-side methods. `Query` holds the relation's query
methods. `Ordering` holds `order` and its helpers. `Lookup` proves how the
two paths of `find_by_id` relate. `Scenarios` works the three-record
example `[{id: 1, name: "A", age: 30}, {id: 2, name: "B", age: 25},
{id: 3, name: "A", age: 20}]` through the operations.

`order` is imperative, as in the source. `Ordering.Order` copies the
relation's records into a fresh array, as `relation.records.dup` does.
`Ordering.OrderByArgs` runs one in-place sort pass per processed
argument, and each pass is an insertion sort by adjacent swaps
(`Ordering.SortPass`). A pass raises ArgumentError (`ok == false`) exactly
when the key's values are of more than one Ruby class. Ruby's `<=>` gives
nil across classes, and a correct comparison sort cannot avoid comparing
two values of different classes once both kinds are present. Each pass
leaves a permutation sorted by its key. The first criterion declared is
processed last, so the result is sorted by it.

Sorting by each key in reverse priority would give a full multi-key order
only if every pass were stable; the code calls `Array#sort!`, which is
not. The model promises the permutation and the order by the first
criterion, and nothing about ties. Apart from
`OrderExample`, where the unsorted choice between the two "A" records is
left open, no lemma assumes a tie order.

Some behaviours of the code are proved as they are, not corrected:
- `find_by_id` on an unscoped relation looks the id up by `to_s` in
  `record_index`. A scoped one compares `to_i` of the ids.
  `Lookup.IndexAgreesWithScan` proves the two agree for an Integer id and
  for its canonical numeral. `Lookup.FindByIdPaddedNumeral` shows that
  `"07"` misses the index and hits the scan. The same holds for other
  texts that `to_i` reads as a number but that are no `to_s` of it, such
  as `" 7"` (`RubyText.ToISkipsSpaces`) and `"1_000"`
  (`RubyText.ToIUnderscore`).
- Nothing in the code requires Integer ids: the index is keyed by `to_s`
  of any id, while the scan compares `to_i`. `Base.IndexConsistent` is
  the model's assumption that ids are distinct Integers, and the agreement
  lemmas rest on it. With String ids the paths part:
  `Lookup.FindByIdStringIds` shows that for ids `"a"`, `"b"`, `"c"`
  (all `to_i` 0), `find_by_id("b")` gives the `"b"` record through the
  index but the `"a"` record through the scan.
- `scoped?` is false for a class without `data`, even for a filtered
  relation. `Lookup.FindByIdUnscopedWithoutData` shows `find_by_id` then
  returning a record the relation does not hold.
- A Hash argument of `order` contributes only its first pair
  (`Scenarios.OrderHashUsesFirstPair`).
- `pluck` with three or more columns nests the zips as `[[a, b], c]`
  (`Query.Pluck`).
- `pick` with no columns is `nil.first`, a NoMethodError (`Query.Pick`).

## Model

| member | source | states |
|---|---|---|
| Base.All | lib/patch.rb:5-7 | `Base.all` is a relation of the class over its loaded `@records`, or over no records when nothing is loaded |
| Base.FindUsingIndex | lib/patch.rb:9-12 | a record is found exactly when `id.to_s` is a key of `record_index` whose position lies inside `@records`, and it is the record at that position |
| Query.Filter | lib/patch.rb:28-30 | `select`/`reject` by `match_options?`: a record is in the result iff it is in the input and its match equals `keep`, and the result is a subsequence of the input |
| Query.FilterAppend | lib/patch.rb:28-30 | filtering a concatenation is the concatenation of the filtered halves |
| Query.FilterPartition | lib/patch.rb:28-40 | `select` and `reject` with the same block interleave back to the input, with multisets and sizes adding up |
| Query.FilterIdempotent | lib/patch.rb:28-30 | filtering twice by the same query equals filtering once |
| Query.FilterConjunction | lib/patch.rb:28-30 | filtering by `p` then by `q` equals filtering once by `p + q` |
| Query.FilterSameMatches | lib/patch.rb:28-30 | two queries that accept the same records select the same records |
| Query.FilterHead | lib/active_hash/relation.rb:40-42 | the first selected record is the record at the first position that matches |
| Query.Where | lib/patch.rb:25-33 | an empty query gives the receiver itself; otherwise, with the same class, exactly the matching records, in their original order |
| Query.Not | lib/patch.rb:35-43 | an empty query gives a relation over the same records; otherwise exactly the records that do not match, in order |
| Query.All | lib/patch.rb:45-47 | `all` (`where` with no conditions) is the receiver |
| Query.Scoped | lib/patch.rb:111-113 | `scoped?` is false for a class without `data`; otherwise true exactly when `data` and the relation differ in size |
| Query.WhereNotPartition | lib/patch.rb:25-43 | for a non-empty query, `where` and `not` are disjoint, interleave to the receiver's records, and their counts add up to its count |
| Query.WhereIdempotent | lib/patch.rb:25-33 | `where(q).where(q) == where(q)` |
| Query.WhereWhere | lib/patch.rb:25-33 | chained `where`s equal one `where` on the concatenated query, empty queries included |
| Query.ToAry | lib/active_hash/relation.rb:95-97 | `to_ary` lists the relation's records, element by element |
| Query.Count | lib/active_hash/relation.rb:66-68 | `count` is the number of records `to_ary` lists |
| Query.First | lib/active_hash/relation.rb:41 | `first` is nil exactly for no records, else the first record |
| Query.FindBy | lib/active_hash/relation.rb:40-42 | `where(o).first`: for an empty query the first record; otherwise nil iff no record matches, and else the record at the first matching position |
| Query.FindByBang | lib/active_hash/relation.rb:44-46 | raises RecordNotFound exactly when `find_by` gives nil, and otherwise returns `find_by`'s record |
| Query.IdQueryMatches | lib/patch.rb:65 | `find_by(id: id)` accepts exactly the records whose id reads as the same integer as `id` |
| Query.FindById | lib/patch.rb:63-69 | scoped: nil only when no record of the relation has the same integer id, else the first record that has it; unscoped: exactly `Base.find_using_index(id)` |
| Query.FirstWhere | lib/patch.rb:55 | `Enumerable#find`: nil iff the block rejects every record, else the first record it accepts |
| Query.Find | lib/patch.rb:49-61 | an Array is exactly `FindEach`, `find` element-wise; nil without a block raises RecordNotFound; nil with a block is `records.find`; any other id is `find_by_id`, raising RecordNotFound exactly when that is nil |
| Query.FindEach | lib/patch.rb:52 | `id.map { find(i) }` succeeds iff every element is found, with one result per element in order; otherwise RecordNotFound |
| Query.Column | lib/active_hash/relation.rb:71 | `all.map(&column)`: one value per record, in record order |
| Query.Zip | lib/active_hash/relation.rb:71 | `zip` pairs element-wise, padding with nil |
| Query.InjectZip | lib/active_hash/relation.rb:71 | `inject(&:zip)` has as many elements as the first column |
| Query.InjectZipRows | lib/active_hash/relation.rb:71 | `inject(&:zip)` over the columns gives one row per record, the row's values paired from the left |
| Query.Pluck | lib/active_hash/relation.rb:70-72 | nil for no columns; otherwise one element per record, in record order, each the record's row: the bare value for one column, pairs nested `[[a, b], c]` for more |
| Query.PluckOneAndTwo | lib/active_hash/relation.rb:70-72 | `pluck()` is nil, `pluck(a)` is the flat column, `pluck(a, b)` the list of `[a, b]` pairs |
| Query.Pick | lib/active_hash/relation.rb:74-76 | `pluck(...).first`: NoMethodError for no columns, nil for no records, else the first record's row |
| Matching.Normalize | lib/patch.rb:100-109 | on `:id` the Integer `value.to_i`; elsewhere a String becomes the Symbol of the same text; anything else is unchanged |
| Matching.IdOf | lib/patch.rb:103 | `to_i` of an Integer is itself, of a String its `String#to_i`, of nil 0 |
| Matching.Get | lib/patch.rb:89 | `record[col]` is the field's value, or nil when the record has no such field |
| Matching.NormalizeIdNumeral | lib/patch.rb:102-103 | on `:id`, the numeral of `n` and `n` normalise alike ("7" and 7) |
| Matching.NormalizeIdNonNumeric | lib/patch.rb:102-103 | on `:id`, text not starting (after spaces) with a sign or a digit normalises to 0 |
| Matching.NormalizeTextAsSymbol | lib/patch.rb:104-105 | off `:id`, `"active"` and `:active` normalise to the same Symbol |
| Matching.NormalizeIdempotent | lib/patch.rb:100-109 | normalising twice is normalising once |
| Matching.KeyMatches | lib/patch.rb:88-96 | an Array matches when some element normalises like the record's value; a Range tests the raw value; anything else compares normalised values |
| Matching.MatchOptions | lib/patch.rb:86-98 | `all?` over the keys: an empty query matches, and a match satisfies the first key |
| Matching.MatchOptionsAll | lib/patch.rb:86-98 | `match_options?` holds iff every key of the query matches |
| Matching.MatchOptionsAppend | lib/patch.rb:87 | matching a concatenated query is the AND of matching both parts |
| Matching.AnyOfSingleton | lib/patch.rb:90-91 | an Array of one value matches exactly as the value itself |
| Matching.AnyOfEmpty | lib/patch.rb:90-91 | an empty Array matches no record |
| Matching.RangeIsRaw | lib/patch.rb:92-93 | a Range tests the raw value: `"2"` equals 2 on `:id`, yet is not in an Integer range holding 2 |
| Matching.InRange | lib/patch.rb:92-93 | `Range#include?` holds only for an Integer, between the bounds, the end included or not as the range says |
| Values.ToS | lib/patch.rb:10 | `to_s` of an Integer is its canonical numeral `Integer#to_s`, which reads back with `to_i`; of a String the String; of a Symbol its name; of nil `""` |
| Values.ValueLe | lib/active_hash/relation.rb:170-172 | `<=>` answers only within one class: Integers numerically, Strings and Symbols by their text, `nil <=> nil` is 0 |
| Values.LexLe | lib/active_hash/relation.rb:170-172 | String `<=>` as "at most": the empty String is at most any String, no non-empty String is at most the empty one, differing first characters decide, and equal first characters leave the decision to the rest of both Strings |
| Values.LexLeTotal | lib/active_hash/relation.rb:170-172 | String `<=>` relates any two Strings |
| Values.LexLeTransitive | lib/active_hash/relation.rb:170-172 | String `<=>` is transitive |
| Values.LexLeAntisymmetric | lib/active_hash/relation.rb:170-172 | two Strings each `<=` the other are equal |
| Values.ValueLeTotal | lib/active_hash/relation.rb:170-172 | `<=>` relates any two values of one class |
| Values.ValueLeTransitive | lib/active_hash/relation.rb:170-172 | `<=>` is transitive |
| RubyText.Upcase | lib/active_hash/relation.rb:169 | `upcase` keeps the length and upcases each character |
| RubyText.IsBlankText | lib/active_hash/relation.rb:151 | `String#blank?`: the empty String is blank, and one starting with a non-space character is not |
| RubyText.DropSpaces | lib/patch.rb:103 | `to_i` skips the whole run of leading whitespace: every dropped character is a space and the rest does not start with one |
| RubyText.LeadingDigits | lib/patch.rb:103 | the digits `to_i` reads are decimal digits, none when the text does not start with one; `LeadingDigitsPrefix` says which they are when no `_` follows, and `LeadingDigitsUnderscore` that a `_` between two digits is skipped |
| RubyText.LeadingDigitsUnderscore | lib/patch.rb:103 | in `a_b…`, with `a` and `b` digits, the digits read are `a` followed by those read from `b…` |
| RubyText.DropSpacesPrefix | lib/patch.rb:103 | whitespace in front of a text is dropped entirely before the number is read |
| RubyText.LeadingDigitsPrefix | lib/patch.rb:103 | a digit string followed by text that continues the number neither by a digit nor by `_` and a digit is read exactly |
| RubyText.ToIDigitsThen | lib/patch.rb:103 | `to_i` of a numeral followed by such text is the numeral's value |
| RubyText.ToITrailingText | lib/patch.rb:103 | `"12abc".to_i == 12` |
| RubyText.ToI | lib/patch.rb:103 | `to_i` of text that is empty or starts with neither a sign nor a digit is 0; `ToIDigitsThen`, `ToISkipsSpaces` and `ToIUnderscore` give the numbers it reads |
| RubyText.ToISkipsSpaces | lib/patch.rb:103 | `to_i` skips leading whitespace: `(w + s).to_i == s.to_i` for blank `w`, so `" 7".to_i == 7` |
| RubyText.ToIUnderscore | lib/patch.rb:103 | an underscore between two leading digits does not change `to_i`: `"1_000"` reads as `"1000"` |
| RubyText.ToIShow | lib/patch.rb:10 | `n.to_s.to_i == n` for every integer |
| RubyText.Show | lib/patch.rb:10 | `Integer#to_s` is a non-empty string of decimal digits, with a leading `-` exactly when the number is negative |
| RubyText.ShowInjective | lib/patch.rb:10 | distinct integers have distinct `to_s` |
| RubyText.DigitsValueLeadingZero | lib/patch.rb:103 | a leading `0` does not change the value of a digit string |
| RubyText.ShowNatLeadingZero | lib/patch.rb:10 | the only natural number whose `to_s` starts with `0` is 0 |
| RubyText.PaddedNumeral | lib/patch.rb:103 | a numeral with one leading zero reads back as its number with `to_i`, yet is the `to_s` of no integer |
| RubyText.DropTrailingEmpty | lib/active_hash/relation.rb:154-155 | `split` drops exactly the empty fields at the end |
| RubyText.RawSplitCommaSpace | lib/active_hash/relation.rb:154 | the raw fields of `split(', ')`: joined with `", "` they give back the text, none contains `", "`, and the first is a prefix of the text; these fix the fields |
| RubyText.DropNonWord | lib/active_hash/relation.rb:155 | the separator `split(/\W+/)` skips: exactly the leading run of non-word characters, leaving a suffix that is empty or starts with a word character |
| RubyText.SplitCommaSpace | lib/active_hash/relation.rb:154 | `split(', ')` is the raw fields up to the last non-empty one |
| RubyText.SplitWords | lib/active_hash/relation.rb:155 | `split(/\W+/)` is the raw fields up to the last non-empty one |
| RubyText.RawSplitWords | lib/active_hash/relation.rb:155 | `split(/\W+/)` yields fields of word characters only, all non-empty except the first and last |
| RubyText.SplitWordsAreWords | lib/active_hash/relation.rb:155 | after dropping trailing empties, every word but the first is non-empty and made of word characters |
| RubyText.CommaSplitNone | lib/active_hash/relation.rb:154 | text without a comma is one raw field of `split(', ')` |
| RubyText.CommaSplitPrefix | lib/active_hash/relation.rb:154 | `(a + ", " + b).split(', ')` is `a` followed by the split of `b` |
| RubyText.WordSplitNone | lib/active_hash/relation.rb:155 | a run of word characters is one raw field of `split(/\W+/)` |
| RubyText.WordSplitPrefix | lib/active_hash/relation.rb:155 | a word, a run of separators, and the rest split as the word followed by the split of the rest |
| Lookup.BaseAllUnscoped | lib/patch.rb:111-113 | `Base.all` is unscoped when the class has no `data` or as many entries as are loaded |
| Lookup.IndexHit | lib/patch.rb:9-12 | on a consistently loaded class, the index maps the numeral of a present id to that record's position |
| Lookup.IndexMiss | lib/patch.rb:9-12 | on such a class, the numeral of an absent id is not a key of the index |
| Lookup.ScanHit | lib/patch.rb:65 | when exactly one record has the integer id, the scan `find_by(id:)` returns that record |
| Lookup.ScanMiss | lib/patch.rb:65 | when no record has the integer id, the scan returns nil |
| Lookup.IndexAgreesWithScan | lib/patch.rb:63-69 | on such a class, `find_using_index` and the scan `find_by(id:)` give the same record for an Integer id and for its numeral |
| Lookup.FindByIdPathsAgree | lib/patch.rb:63-69 | so `Base.all.find_by_id` equals the scan for such ids |
| Lookup.PaddedNumeralPathsDiffer | lib/patch.rb:63-69 | on a consistently loaded class, a zero-padded numeral such as `"07"` always misses the index, while the scan finds exactly what the index finds for the integer |
| Lookup.FindByIdPaddedNumeral | lib/patch.rb:63-69 | for a class loaded with one record of id 7, `find_by_id("07")` on `Base.all` is nil while `find_by(id: "07")` finds the record |
| Lookup.FindByIdStringIds | lib/patch.rb:63-69 | for distinct String ids `a`, `b` with the same `to_i`, the index gives the `b` record and the scan the `a` record, on `Base.all` and on a scoped relation |
| Lookup.FindByIdLetterIds | lib/patch.rb:63-69 | with ids `"a"`, `"b"`, `"c"`, `find_by_id("b")` is the `"b"` record on `Base.all` and the `"a"` record on a scoped relation over the first two |
| Lookup.FindByIdUnscopedWithoutData | lib/patch.rb:111-113 | without `data`, a filtered relation is unscoped and `find_by_id` returns a record it does not hold |
| Ordering.CheckIfMethodHasArguments | lib/active_hash/relation.rb:143-148 | ArgumentError exactly when `order` gets no arguments |
| Ordering.IsBlank | lib/active_hash/relation.rb:151 | nil is blank; a String is blank iff it is all whitespace; a Symbol, Array or Hash iff it is empty |
| Ordering.RejectBlank | lib/active_hash/relation.rb:151 | `reject!(&:blank?)` keeps every non-blank argument as many times as it occurs, and no blank one, in order |
| Ordering.Reverse | lib/active_hash/relation.rb:152 | `reverse!` puts element `i` at position `n - 1 - i` |
| Ordering.TwoCriteriaPieces | lib/active_hash/relation.rb:154 | a comma-free first field followed by `", "` and a comma-free second field splits into those two pieces |
| Ordering.TwoWords | lib/active_hash/relation.rb:155 | a word, a space and a word split into those two words |
| Ordering.TextKept | lib/active_hash/relation.rb:151 | a String that starts with a non-space character is not blank and survives `reject!` |
| Ordering.TwoCriteriaGroups | lib/active_hash/relation.rb:154-155 | `"f1, f2 dir"` yields the groups `[f1]` and `[f2, dir]` |
| Ordering.OrderTextTwoCriteria | lib/active_hash/relation.rb:150-156 | `order("f1, f2 dir")` processes the pass `[f2, dir]` first and `[f1]` last |
| Ordering.TextCriteria | lib/active_hash/relation.rb:154-155 | one `[field, direction]` group per `", "` piece, each the piece's `split(/\W+/)` |
| Ordering.PreprocessOrderArgs | lib/active_hash/relation.rb:150-156 | the non-blank arguments reversed, unless the first is a String, then its pieces' word groups reversed; nil never remains |
| Ordering.LastPassIsFirstCriterion | lib/active_hash/relation.rb:150-156 | the pass processed last is the first criterion declared |
| Ordering.KeyOf | lib/active_hash/relation.rb:160-166 | a Hash gives its first key and value; an Array its first two elements, its only element ascending, or no field when empty; a String or Symbol itself ascending |
| Ordering.IsDesc | lib/active_hash/relation.rb:169 | a direction is descending iff it is present and upcases to `DESC`; none is ascending |
| Ordering.DescIffUpcased | lib/active_hash/relation.rb:169 | a pass is descending iff its direction upcases to `DESC` |
| Ordering.FieldValue | lib/active_hash/relation.rb:170 | `a[field]` is the record's value for the field, and nil when the field is nil |
| Ordering.InOrder | lib/active_hash/relation.rb:168-174 | the sort block puts `a` before `b` iff `a[field] <=> b[field]` is -1 or 0 ascending, `b[field] <=> a[field]` descending |
| Ordering.InOrderTotal | lib/active_hash/relation.rb:168-174 | the sort block orders any two records whose key values are of one class |
| Ordering.InOrderTransitive | lib/active_hash/relation.rb:168-174 | the sort block's order is transitive, in both directions |
| Ordering.UniformPermutation | lib/active_hash/relation.rb:159-175 | whether a pass can compare all values depends only on which records there are, not their order |
| Ordering.UniformFromKinds | lib/active_hash/relation.rb:168-174 | a permutation of records whose key values share one class has uniform key values |
| Ordering.Swapped | lib/active_hash/relation.rb:168 | exchanging two neighbours keeps the length and the multiset and moves nothing else |
| Ordering.SwapAdjacent | lib/active_hash/relation.rb:168 | the array after the swap is the old contents with the two neighbours exchanged |
| Ordering.SwapStep | lib/active_hash/relation.rb:168-174 | swapping an out-of-order element back over its neighbour keeps the rest of the prefix ordered, keeps the moved element before all that follow it, and leaves the suffix alone |
| Ordering.CloseHole | lib/active_hash/relation.rb:168-174 | once the moved element is at the front or in order with its left neighbour, the whole prefix is sorted |
| Ordering.Insert | lib/active_hash/relation.rb:168-174 | inserting one element into a sorted prefix leaves a sorted, permuted prefix and the rest untouched |
| Ordering.SortPass | lib/active_hash/relation.rb:168-174 | one `sort!`: succeeds iff the key's values are of one class, then leaves a permutation sorted by the key |
| Ordering.OrderByArgs | lib/active_hash/relation.rb:158-176 | succeeds iff every pass's key has values of one class, leaving a permutation sorted by the last pass's key |
| Ordering.Order | lib/patch.rb:71-82 | no arguments raise ArgumentError; otherwise a permutation of the relation's records sorted by the first criterion, or ArgumentError iff some key mixes classes; the relation is not changed |
| Scenarios.WhereExample | lib/patch.rb:25-33 | `where(name: "A")` on the three records keeps records 1 and 3, in order |
| Scenarios.FindByBangExample | lib/active_hash/relation.rb:44-46 | `find_by!(id: 99)` on the three records raises RecordNotFound |
| Scenarios.PluckExample | lib/active_hash/relation.rb:70-72 | `pluck(:name)` is `["A", "B", "A"]`; `pluck(:name, :age)` the three pairs |
| Scenarios.OrderTextExample | lib/active_hash/relation.rb:150-156 | `order("name, age DESC")` runs an age-descending pass, then a name-ascending pass |
| Scenarios.OrderTextKeys | lib/active_hash/relation.rb:160-169 | the pass `["age", "DESC"]` sorts by age descending, the pass `["name"]` by name ascending |
| Scenarios.OrderHashUsesFirstPair | lib/active_hash/relation.rb:160-161 | `order(name: :asc, age: :desc)` sorts by name alone |
| Scenarios.SortedByNameEndsWithB | lib/active_hash/relation.rb:168-174 | any permutation of the three records sorted by name puts B last |
| Scenarios.PeopleUniform | lib/active_hash/relation.rb:168-174 | the three records' ages are all Integers and their names all Strings, so no pass meets `<=>` giving nil |
| Scenarios.OrderInTwoPasses | lib/patch.rb:71-82 | arguments that come down to two passes over single-class fields succeed with a permutation sorted by the second pass's key |
| Scenarios.OrderExample | lib/patch.rb:71-82 | `order("name, age DESC")` on the three records succeeds with a permutation that puts B last |

## Left out

- Query keys are taken to be Symbols: a field name is a plain string in the model, and `normalize` treats the field `"id"` as `:id`, whereas in Ruby a String key `"id"` differs from `:id` and would not be read with `to_i`.
- Matching.IdOf: a Symbol reads as 0, while Ruby's `Symbol#to_i` does not exist and raises NoMethodError.
- Matching.Normalize: `:id` of a Symbol reads as 0, while Ruby's `Symbol#to_i` does not exist and raises NoMethodError. Floats and other `to_i` receivers are not modelled.
- RubyText.ToI: the `0d` prefix Ruby's base-10 `to_i` accepts is not modelled, nor non-ASCII whitespace.
- RubyText.Upcase: ASCII only; Unicode case mapping is not modelled.
- RubyText.IsBlankText: ASCII whitespace only; ActiveSupport's `blank?` matches `[[:space:]]`, which also covers Unicode spaces.
- Ordering.SortPass: tie order is left open, and nothing is said about stability. Ruby's `sort!` is not stable, and its algorithm is not modelled; any correct comparison sort fits this contract.
- Ordering.Order: the `return relation if options.blank?` line cannot fire after `check_if_method_has_arguments!`, so it has no branch. `order` arguments other than Strings, Symbols, Arrays, Hashes and nil are not modelled. A String piece with no words splits to `[]`; `[].map(&:to_sym)` calls nothing and `field, dir = []` sets both to nil, so the sort reads `record[nil]`, which is nil. `KeyOf(Group([]))` has no field, and a missing field reads nil, so the model does the same.
- Ordering.PreprocessOrderArgs: `reject!`, `reverse!` and `map!` mutate the splat array of `order`, which no caller can see. The model is a function on the sequence.
- Query.Pluck: a column some record lacks reads nil. Ruby's `&:column` calls a method and raises NoMethodError for an unknown one.
- Query.Where: "returns self" is value equality, since a relation is a value and object identity is not modelled.
- Query.FirstWhere: the block is a pure function; its side effects are not modelled.
- Query.Find: a Range argument is not modelled.
- Base.FindUsingIndex: a class whose `@records` is nil but whose `record_index` has a key would raise NoMethodError in Ruby; the model reads such a lookup as nil.
- String Ranges and endless Ranges are not modelled; only Integer Ranges are.
- Matching.MatchOptionsAll: a query is a sequence of pairs, so a key may repeat. Ruby Hash keys are distinct; the model ANDs every pair.
- Error messages and `klass.name` are not modelled; ArgumentError, RecordNotFound and NoMethodError are error kinds.
- The `delegate` and `Enumerable` forwarding (lib/active_hash/relation.rb:3-8) is not modelled. It is plumbing, and `sample` is random. `count` is modelled as the `length` it forwards to.
- The base file's `initialize`, `where`, `not`, `all`, `find`, `find_by_id`, `order`, `match_options?` and `normalize` are superseded by the patch. The lazy `records` reader, `reload` and `filter_all_records_by_query_hash` (lib/active_hash/relation.rb:78-80, 106-117) are superseded by `attr_accessor :records`. Were `reload` called after the patch, it would set `@records` to `all_records`, which the patched `initialize` never assigns.
- Loading `data`, `@records` and `record_index` happens outside the relation. They are inputs; `Base.IndexConsistent` states what loading is taken to establish, including distinct Integer ids, which the code does not demand.
- Lookup.IndexAgreesWithScan: holds only under `Base.IndexConsistent`, whose Integer ids are an assumption of the model; with String ids the two `find_by_id` paths differ (`Lookup.FindByIdStringIds`).
