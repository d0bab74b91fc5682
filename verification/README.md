# unionid in Dafny

unionid is a small typed database: tables of algebraic values with stable row IDs,
secondary indexes over order-preserving byte keys, a query pipeline, cursors for
pagination and a type-directed binary codec. This project models its hard core and proves
what the engine relies on, from the bytes of an index key to whole runs of mutations.

## How it is laid out

- `Bytes`, `Scalars`, `Model`, `Schema`: byte order, number domains, typed values with
  their two comparisons, field paths, tables and index definitions.
- `OrderedKey`, `KeyBounds`: index keys whose byte order is the typed order, and the exact
  meaning of every byte range built from them.
- `Codec`, `CodecCanonical`, `CodecDocument`, `CodecBuffers`: the value codec as functions
  on byte strings, what it accepts, and the buffer encoder and cursor decoder that
  implement it.
- `Postings`, `TableStore`, `Tables`, `TableRuns`: one index, one change set, the table
  object and all its mutations, and whole runs against a plain map.
- `Expressions`, `Planner`, `IndexPredicates`, `IndexScan`, `IndexAccess`, `OrderedScan`,
  `AccessPlans`: from filters to a byte range to the rows a full scan would give, in the
  order a sort would give, and the choice of an index.
- `IndexReads`, `StableReads`: sorted queries answered from an index, with no more entries
  read than needed, and when the read is the stable sort.
- `Paging`, `PageOrders`: pages and walks, and when an order is strict.
- `PageSeek`, `SeekConditions`, `PageReads`: seeking to a cursor inside an index, when that is
  safe, and whole pages read that way. `Selections` holds their sequence lemmas.
- `IntTables`, `SeekExactness`: tables of integers, and the inputs that make conditions exact.
- `Streaming`, `Exists`, `ExistsReads`, `SetOperations`, `Windows`, `ValueKeys`,
  `Aggregation`: the executor.
- `WriteSets`, `Durable`: net effects, committing them, and the durable round trip.

The parts build on each other. Key order makes planned ranges exact, exact ranges make
index access agree with a full scan, the uniqueness invariant of the tables makes accepted
page orders strict, strict orders make page walks complete, and the codec round trip
together with "incremental equals rebuilt" gives the durable round trip.

Code that updates state is modelled by classes and loops proved against functions: the
encoder and decoder, the table, the write set, the row stream, the aggregator and the
window, which writes into an array of rows. I/O, clocks and limits on working memory are
not modelled, expression builtins and the hasher are parameters, and the iteration order
of an ordered map is given as its sorted key sequence.

## Properties that hold only under a condition

- A page seek. The scan comes from the first sort after the leading filters, while the page
  takes its order and its cursor from the last sort. The next page loses rows when the two
  sorts run in opposite directions (`SeekExactness.OppositeSorts`), when a stage between
  them derives a sort column (`DerivedColumn`) and when the page order names the index
  columns in another order (`PermutedOrder`). The condition is `SeekConditions.SeekSafe`,
  which looks only at the stages and the indexes. Either the cursor does not reach far enough
  to seek. Or the filters fix all columns of a unique index. Or every boundary value is a
  stored one, and the page keys, fixed columns left out, run along the index in the scan's
  direction as far as they decide anything: to the last one, or to the point where they and
  the filters cover a unique index (`DecidedEarly`). `SeekConditions.SafeSeek` proves it
  sufficient for every schema and query. `SeekExactness.SeekExact` proves the equivalence.
  It needs columns with enough values to build the losing table, so it ranges over integer
  columns, with any indexes and any equality filters; the stages between the sorts drop no
  row.
- A page order that ends in the primary key. The acceptance test compares derived names
  with the whole key path. A key such as `meta.id` is also replaced by a derived field
  `meta`, and then the accepted order may compare all rows equal
  (`PageOrders.DerivedRootAccepted`). `PageOrders.KeepsKeyExact` gives the condition, in
  both directions: following the key through the derive and select stages must end at the
  stored value. Where it does not, the key decides nothing (`PageOrders.LostKeyTies`).
- A sort read from an index. It is always a sorted permutation of the kept rows. It is the
  stable sort under `StableReads.StableSafe`: an equality filter fixes every component behind
  the sort keys, or the sort keys and the filtered columns cover a unique index, so that no
  two rows tie (`StableReads.KeyedExample`). `StableReads.SafeReadsStably` proves it
  sufficient for every schema, and `StableReads.StableExact` that over integer columns it is
  exactly when all tables read stably; otherwise ties may follow the index
  (`StableReads.TiesExample`).
- A stream with an early stop. It never meets an error in a row behind its stop, so it may
  succeed where running each stage over all rows fails (`Streaming.StopHidesError`).
  `Streaming.StreamRows` says which rows it consumes and that its result, or error, is that
  of running each stage over them.
- Bounded uniqueness validation. It looks at unique and primary indexes only, so a row that
  an ordinary index cannot file passes it (`Tables.OversizedPasses`). The replacing path
  accepts exactly what it accepts and the ordinary indexes can file
  (`Tables.Table.ValidateSourceUnique`).

## Model

| member | source | states |
|---|---|---|
| `OrderedKey.KeyOrder` | src/ordered_key.rs:144-330 | for every bound type and depth, two encodable values have a typed order, their encodings compare byte by byte exactly that way, and neither encoding is a proper prefix of the other |
| `OrderedKey.EqualIsTyped` | src/model.rs:104-148 | on encodable values of a well-formed type, the typed order says Equal exactly when structural equality holds |
| `OrderedKey.EscapeOrder` | src/ordered_key.rs:332-341 | escaped byte strings decide their comparison exactly as the unescaped strings compare, zero bytes and prefixes included |
| `OrderedKey.FloatRankOrder` | src/ordered_key.rs:144-330 | the sign-folded bits of finite doubles order as the numbers they denote, both zeros together |
| `OrderedKey.TupleOrder` | src/ordered_key.rs:22-54 | keys of component tuples compare as the tuples do, with descending components reversed, and stay prefix-free |
| `OrderedKey.EncodeTuple` | src/ordered_key.rs:22-54 | the loop that appends components and complements them in place yields the concatenation of the component encodings; no component, more than 16, or an unencodable value is refused |
| `Codec.RoundTrip` | src/codec.rs:98-282 | decoding the encoding of a normal-form value, with any bytes behind it, gives back the value and exactly those bytes, at the same depth, for recursive named types too |
| `CodecCanonical.DecodeExtends` | src/codec.rs:320-515 | a decode that succeeds reads the same value from any longer input and leaves the extra bytes |
| `CodecCanonical.Reencodes` | src/codec.rs:320-515 | whatever the decoder accepts is a normal-form value of the type that encodes again, to as many bytes as were read |
| `CodecDocument.DocumentRoundTrip` | src/codec.rs:29-86 | a complete encoding in a permitted version decodes to its value, and its header holds the version |
| `CodecDocument.DocumentPrefixFree` | src/codec.rs:50-86 | no accepted byte string is a proper prefix of another: truncating or extending one is always rejected |
| `CodecDocument.DocumentReencodes` | src/codec.rs:50-86 | every accepted byte string decodes to a well-typed value whose own encoding has the same length and decodes to it again |
| `CodecBuffers.EncodeValue` | src/codec.rs:29-48 | the encoder that appends to a bounded buffer produces the specified document or fails exactly when it does not exist or exceeds the byte limit |
| `CodecBuffers.DecodeValue` | src/codec.rs:50-86 | the cursor decoder accepts exactly the specified documents and returns their values, terminating on every input |
| `CodecBuffers.Encoder.Value` | src/codec.rs:98-282 | one recursive step appends exactly the specified encoding, or fails when there is none or it does not fit |
| `CodecBuffers.Decoder.Value` | src/codec.rs:320-515 | one recursive step reads exactly the specified value and leaves the cursor behind its last byte |
| `KeyBounds.NextAfterPrefix` | src/db.rs:8730-8738 | dropping trailing 0xFF bytes and incrementing computes the prefix successor |
| `KeyBounds.SuccessorSplits` | src/db.rs:8730-8738 | keys split into those below a prefix, those with it, and those at or above its successor; without a successor there are none of the last |
| `KeyBounds.PrefixBoundsExact` | src/db.rs:8740-8747 | the range of a prefix holds precisely the keys with that prefix, all-0xFF and empty prefixes included |
| `KeyBounds.StricterExact` | src/db.rs:8767-8807 | the stricter of two bounds admits exactly the keys both admit |
| `KeyBounds.PageSeekExact` | src/db.rs:8749-8765 | a page seek is the range intersected with strictly after, or strictly before, every key that starts with the boundary; where it gives no range, no key of the range is left |
| `KeyBounds.IndexRangeExact` | src/db.rs:8830-8902 | the byte range of a component range holds exactly the keys whose component lies in it, ascending or descending, each end inclusive or not |
| `KeyBounds.IndexRangeKeepsPrefix` | src/db.rs:8830-8902 | every key in a component range starts with the equality prefix |
| `KeyBounds.IndexRangeNotInverted` | src/db.rs:8649-8661 | a range that passes the emptiness test is never encoded with its start above its end |
| `Postings.Search` | src/db.rs:3949-4102 | the binary search over a posting finds the row ID exactly when present, at the number of smaller IDs |
| `Postings.ListsUnique` | src/db.rs:2251-2263 | a table and an index determine one posting: any two ways of building it agree key by key and ID by ID |
| `TableStore.RemoveBeforeImages` | src/db.rs:3949-4102 | removing before images never misses an entry and leaves the posting of the rows that stay |
| `TableStore.InsertAfterImages` | src/db.rs:3949-4102 | inserting after images succeeds exactly when the index is not unique or the final table has no duplicate key, and then lists exactly the final rows |
| `TableStore.HalfwayFiling` | src/db.rs:3979-4088 | between removal and insertion, the old index without what leaves equals the new one without what arrives |
| `TableStore.BuildIndex` | src/db.rs:2251-2263 | the plain rebuild lists exactly the included rows under their keys, and fails exactly when an included row has no key |
| `Tables.Table.constructor` | src/db.rs:2251-2263 | an empty table satisfies the table invariant |
| `Tables.Table.ReplaceRowsAndIndexes` | src/db.rs:3949-4102 | a change set is accepted exactly when it is replaceable: every new row can be filed by every index and the final table has no duplicate unique key; then rows and indexes are those of the final table, otherwise nothing changes and the error is never an internal index error |
| `Tables.Table.InsertFields` | src/db.rs:3044-3130 | a single insert is accepted exactly when fileable, without duplicate and with ID space left, and appends one row under the next ID |
| `Tables.Table.InsertMany` | src/db.rs:2351-2420 | a batch is inserted under consecutive IDs, all or nothing, under the same exact condition |
| `Tables.Table.Update` | src/db.rs:3132-3212 | existing rows are overwritten, all or nothing, exactly when the targets exist and the result is acceptable; the only index error is an unknown target |
| `Tables.Table.Delete` | src/db.rs:3448-3490 | exactly the targets disappear; it is refused only for an unknown target |
| `Tables.Table.Upsert` | src/db.rs:2524-2576 | the row with the same primary key is replaced, or else a new row inserted, under the same exact condition |
| `Tables.Table.ValidateSourceUnique` | src/db.rs:3309-3389 | the bounded check of in-batch duplicates and index hits outside the batch accepts a change set exactly when the unique indexes can file the new rows and the final table has no duplicate; the replacing path accepts exactly the change sets this check accepts and the other indexes can file |
| `Tables.OversizedPasses` | src/db.rs:3326-3328 | counterexample: a row too large for an ordinary index passes the bounded check and is refused by the replacing path |
| `Tables.SourceAccepts` | src/db.rs:3309-3389 | from a unique table, distinct keys inside the batch and no foreign holder of a written key is equivalent to a unique final table |
| `Tables.KeyOccupied` | src/db.rs:3044-3130 | a new row duplicates a key exactly when the posting already has that key |
| `TableRuns.Execute` | src/db.rs:3949-4102 | every request does to the table object what a plain machine over a map does that commits exactly the acceptable states |
| `TableRuns.Run` | src/db.rs:3949-4102 | over every run of requests the table holds the plain machine's rows and cursor and its incremental indexes stay those of its rows |
| `TableRuns.Rebuild` | src/db.rs:6806-6878 | rebuilding every index from the rows gives the maintained ones, posting for posting |
| `TableRuns.UniquePostings` | src/db.rs:3949-4102 | postings of unique and primary indexes hold exactly one row |
| `TableRuns.SwapAccepted` | src/db.rs:3979-4088 | two rows may exchange all their keys in one batch |
| `Expressions.EqualTransitive` | src/model.rs:104-148 | structural equality of values is transitive |
| `Expressions.EqualSymmetric` | src/model.rs:104-148 | structural equality of values is symmetric |
| `Planner.ConstraintsAreFilters` | src/db.rs:8553-8574 | every planning constraint is one of the leading filters |
| `Planner.FilterMeaning` | src/expression.rs:2214-2248 | evaluating a bound simple filter, written either way round, is checking its constraint in the typed order |
| `Planner.MatchIndex` | src/db.rs:5634-5874 | the loop over components computes the specified equality prefix, range and impossibility |
| `Planner.MergeExact` | src/db.rs:8615-8647 | merging range constraints keeps exactly the values every one of them admits |
| `Planner.EmptyRange` | src/db.rs:8649-8661 | a range found empty holds no value |
| `Planner.EqualityExact` | src/db.rs:8597-8613 | an equality whose literal meets the other constraints stands for all of them |
| `Planner.AccessExact` | src/db.rs:5634-5874 | the planned access holds of a typed row exactly when all constraints on the components it used do |
| `Planner.BoundsExact` | src/db.rs:5634-5874 | the planned byte range holds a row's key exactly when the access holds of the row |
| `IndexPredicates.AtomsHold` | src/db/index_predicate.rs:108-164 | a filter that holds makes each atom collected from it hold |
| `IndexPredicates.ProvenIncludes` | src/db/index_predicate.rs:97-101 | an index whose predicate is implied by the query atoms includes every row that passes the filters |
| `IndexScan.ScanIndex` | src/db.rs:1717-1760 | the scan reads the entries of the range in key order or reversed, row IDs ascending under one key, up to the limit |
| `IndexScan.ScanMeaning` | src/db.rs:1717-1760 | a scan reads exactly the rows filed in the range, in key order and then row ID order |
| `IndexScan.ScanDistinct` | src/db.rs:5959-5964 | no row ID is read twice, so the duplicate row ID error cannot occur |
| `IndexScan.SelectHits` | src/db.rs:5876-6006 | the candidate loop keeps all hits, or the first that pass the filters up to the number needed, and reports no storage error when filters evaluate |
| `IndexAccess.SelectionExact` | src/db.rs:5634-5874 | on a filed row the planned range says exactly what the constraints on the used components say |
| `IndexAccess.PassingSelected` | src/db.rs:5443-5549 | a row that passes the leading filters is filed in a proven index and its key is in the planned range |
| `IndexAccess.AccessAgrees` | src/db.rs:5876-6006 | candidates of an unordered plan, sorted by row ID and re-filtered, are exactly the full scan's row sequence |
| `IndexAccess.AccessErrors` | src/db.rs:5876-6006 | for filters that fail on some rows: the index read fails exactly when a row of the planned range does, otherwise gives exactly the rows that pass in row ID order, and equals the full scan wherever that succeeds |
| `AccessPlans.PlanAccess` | src/db.rs:5443-5549 | the chosen index is proven and useful and no other candidate beats it in the order of fixed components, range, sort, fewer components and age; without a candidate the table is scanned |
| `OrderedScan.SortIsKeyOrder` | src/db.rs:8663-8710 | between rows of one range the requested order never contradicts the key order, and is the key order between rows that agree on the components it does not name |
| `OrderedScan.OrderedScanAgrees` | src/db.rs:8663-8710 | when a sort is accepted, the scan filtered is a permutation of the rows the full scan keeps, sorted as asked; it is the stable sort itself when an equality filter fixes every component behind the sort keys |
| `OrderedScan.ScanAhead` | src/db.rs:1717-1760 | whatever range is scanned, the rows read and kept are the passing rows whose key lies in it, in key order or its reverse |
| `StableReads.SafeReadsStably` | src/db.rs:8663-8710 | for every schema, index, query and table: the read is the stable sort when an equality filter fixes every component behind the sort keys, or when some unique index has all its components among the sort keys and the filtered columns |
| `StableReads.StableExact` | src/db.rs:8663-8710 | the exact condition: over integer columns, with or without a primary key, with any further indexes, unique or not, any equality filters and any accepted sort, every table that respects its unique indexes reads stably if and only if that condition holds |
| `StableReads.TiesFollowIndex` | src/db.rs:8663-8710 | wherever the condition fails, two tied rows that respect every unique index are read against their row IDs |
| `StableReads.TiesExample` | src/db.rs:8663-8710 | counterexample: sorting by a through an index on a and b, two rows equal on a come in the order of b |
| `StableReads.FixedExample` | src/db.rs:8663-8710 | with b fixed by a filter the same index reads stably although the sort does not name b |
| `StableReads.KeyedExample` | src/db.rs:8663-8710 | with a as primary key the index on a and b reads a sort by a stably although b is neither named nor fixed |
| `IndexReads.StableUnique` | src/db.rs:8663-8710 | a set of comparable rows has one stable sort |
| `IndexReads.ChooseEntries` | src/db.rs:5925-6005 | scanning and choosing entries, up to the number needed of those that pass, leaves exactly the first rows of the whole filtered read |
| `IndexReads.RunFromIndex` | src/db.rs:5891-6005 | a sort the index satisfies followed by takes and row-local stages: reading no more entries than the stages need and streaming them gives what the stages give on the sorted rows of the full scan whenever they go through on those, and an error exactly when one of the rows streamed has one; where the condition of StableReads holds those sorted rows are the stable sort and no other |
| `OrderedScan.EarlyStop` | src/db.rs:5891-6005 | stopping after n eligible entries keeps the first n rows of the whole read |
| `Streaming.NeededSuffices` | src/db.rs:5891-5923 | the number of rows computed from the stages after the sort is enough: where the pipeline goes through on all rows, reading no more gives the same result |
| `Paging.ApplyPage` | src/db.rs:5135-5217 | the forward and backward selection loops compute the page of the rows beyond the boundary, with its cursors; they fail exactly when a row they reach cannot be compared or a cursor the page carries cannot be built |
| `Paging.ForwardPage` | src/db.rs:5135-5217 | over a strictly ordered result a forward page is the limit rows right after its boundary; has_more and both cursors are exact |
| `Paging.BackwardPage` | src/db.rs:5135-5217 | a backward page is the limit rows right before its boundary; has_more and both cursors are exact |
| `Paging.WalkForward` | src/db.rs:5135-5217 | following next from the first page ends after exactly ceil(n / limit) pages, which concatenate to the whole result |
| `Paging.NextThenPrevious` | src/db.rs:5135-5217 | going to the next page and back returns the same rows with the same next and previous cursors |
| `PageOrders.CursorCompare` | src/db.rs:693-719 | comparing a row with another row's cursor is comparing their sort tuples |
| `PageOrders.SortedIsStrict` | src/db.rs:693-719 | a sorted result in which no two rows tie is strictly ordered, as page walks need |
| `PageOrders.PrimaryOrderStrict` | src/db.rs:4940-4950 | an accepted order ending in the primary key separates every two rows, provided the key is kept on the way to the sort |
| `PageOrders.KeepsKeyExact` | src/db.rs:4940-4950 | the exact condition: where KeepsKey holds every derivation leaves the key alone, and where it fails some derivation makes every two rows agree on it |
| `PageOrders.LostKeyTies` | src/db.rs:4940-4950 | where KeepsKey fails some derivation makes the accepted order compare any two stored rows exactly as it does without the key; an order of the key alone ties them all |
| `PageOrders.DerivedRootAccepted` | src/db.rs:4940-4950 | counterexample: with key meta.id and a derived field meta, an order that compares all rows equal is accepted |
| `PageOrders.UniqueIndexOrderStrict` | src/db.rs:5089-5133 | an order accepted through a unique index separates every two rows that pass the filters |
| `PageOrders.TiedSame` | src/db.rs:5089-5133 | kept rows that tie on sort keys which, with the filtered columns, cover a unique index are one row |
| `PageOrders.PrimaryResultStrict` | src/db.rs:4852-5087 | a result sorted by an accepted primary-key order, key kept, is strictly ordered |
| `PageOrders.UniqueIndexResultStrict` | src/db.rs:5089-5133 | a result sorted by an order accepted through a unique index is strictly ordered |
| `PageSeek.BoundaryIs` | src/db.rs:5750-5801 | the boundary tuple is the equality prefix followed by the boundary row's own components |
| `PageSeek.SeekPageRows` | src/db.rs:5750-5801 | for an order that runs along the index with the scan, the rows read through the seek and filtered are exactly the kept rows beyond the boundary; a lookup of one complete key reads all kept rows |
| `PageSeek.SeekSides` | src/db.rs:5750-5801 | the seek key of a row's cursor splits the planned range exactly as the page order splits the rows, in both directions |
| `SeekConditions.SafeSeek` | src/db.rs:5750-5801 | on every schema, index, query, table, derivation and cursor that meet SeekSafe the scan reads every row on the asked side of the cursor |
| `SeekConditions.OwnSortSafe` | src/db.rs:8663-8710 | a page whose own sort is the one the index satisfies always meets SeekSafe |
| `SeekExactness.SeekExact` | src/db.rs:5750-5801 | the exact condition: over integer columns, for any indexes, unique or not, any equality filters and every accepted paged query whose stages between the two sorts drop no row, the seek loses no row on any table, derivation and cursor if and only if SeekSafe holds |
| `SeekExactness.OppositeSorts` | src/db.rs:5750-5801 | counterexample: sort id descending, sort id, page |
| `SeekExactness.DerivedColumn` | src/db.rs:5750-5801 | counterexample: sort x and id, derive x, sort x and id, page: the cursor holds derived values and the scan stored ones |
| `SeekExactness.PermutedOrder` | src/db.rs:5750-5801 | counterexample: on an index on a, b and id, sort a, sort b, a and id, page |
| `SeekExactness.DecidedEarly` | src/db.rs:5750-5801 | with a unique index on u, sort u and id, sort u and id descending, page loses nothing: u alone decides |
| `PageReads.SafePage` | src/db.rs:5135-5217 | whenever SeekSafe holds, the page made of the sorted rows the scan reads is the page of the whole sorted result, whatever is derived between the sorts |
| `PageReads.PageFromIndex` | src/db.rs:5876-6005 | for the page's own sort, with and without a cursor, forward and backward: planning the sought scan, reading it in the page's direction up to one row more than the page, turning a backward read around, filtering and cutting gives the page of the whole sorted result |
| `Streaming.RowStream.Push` | src/db.rs:6702-6792 | one row through the fused stages fails exactly when running each stage over the rows so far and this one fails; otherwise it adds exactly what it adds to that run, keeps the take counters exact, and reports exhaustion exactly when it fills a take |
| `Streaming.StreamRows` | src/db.rs:6116-6269 | pushing rows one at a time with the early stop outputs what running each stage over the rows consumed outputs, errors included; it is what running each stage over all rows outputs wherever that goes through |
| `Streaming.ConsumedSuffices` | src/db.rs:6116-6269 | a whole run that goes through has the same output as the run over the rows consumed before the stop |
| `Streaming.StopHidesError` | src/db.rs:6116-6269 | counterexample: with a derive that fails on the second row and a take of one, the whole run fails and the stream succeeds |
| `Streaming.FullStays` | src/db.rs:6460-6462 | once a take is full, further input rows change nothing, unless a stage fails on one of them |
| `Exists.SubstitutionMeaning` | src/db.rs:8308-8398 | replacing outer references by literals, except under a binder named outer, leaves every evaluation unchanged, errors included |
| `Exists.CorrelationHolds` | src/db.rs:8272-8306 | a filter that holds makes each correlation collected from its conjunctions hold as an equality with the outer value |
| `Exists.Decorrelated` | src/db.rs:6628-6700 | on a row where the original filters evaluate, the equality in front plus the substituted filters give the same answer |
| `Exists.EvaluateExists` | src/db.rs:6628-6700 | the rewritten pipeline returns a row exactly when some target row satisfies all inner filters; a vanished outer field is an error |
| `ExistsReads.EvaluateThroughIndex` | src/db.rs:6628-6700 | through the index bound to the correlation, with the added sort and take and the filters bound again, the answer is whether some target row satisfies all inner filters |
| `ExistsReads.SimpleFiltersOrdered` | src/db.rs:6679-6684 | when all rewritten filters are simple the bound index satisfies the added sort, so one entry decides |
| `SetOperations.ApplySetOperation` | src/db.rs:737-812 | union, intersect and except with hash buckets return exactly the first occurrences, in left-then-right order, that the set definition selects, for any hash that agrees with row equality |
| `SetOperations.RowInBuckets` | src/db.rs:788-800 | bucket lookup finds an equal row exactly when there is one, collisions or not |
| `SetOperations.RowHashAgrees` | src/db.rs:814-917 | equal rows feed the hasher the same input, so the row hash agrees with row equality |
| `SetOperations.EqualTokens` | src/db.rs:825-917 | equal values feed the hasher the same input, both zeros and every nested type included |
| `Windows.ApplyWindow` | src/db.rs:4738-4829 | every row keeps its position and fields and gains row_number, rank and dense_rank as counted over its partition in the input |
| `Windows.AssignPartition` | src/db.rs:4790-4824 | the running rank and dense rank over one sorted partition are those counts, although compared rows already carry new fields |
| `Windows.PartitionedByEquality` | src/db.rs:4744-4770 | two rows share a partition exactly when their partition fields are equal values |
| `Windows.CompareByPlace` | src/db.rs:8521-8551 | the comparison of rows by sort keys is the byte order of their sort tuples |
| `Windows.NumbersDistinct` | src/db.rs:4738-4829 | two rows of one partition never get the same row number |
| `Windows.NumbersBounded` | src/db.rs:4738-4829 | row numbers stay within the partition's size |
| `Windows.NumbersAreAll` | src/db.rs:4738-4829 | the row numbers of a partition of n rows are exactly the numbers 1 to n |
| `Aggregation.AggregateRows` | src/db.rs:4653-4736 | streaming rows into accumulators leaves, per group, exactly the fold over the group's rows, and fails exactly when some group's fold does |
| `Aggregation.Aggregator.AddRow` | src/db.rs:4680-4722 | one row updates exactly its own group |
| `Aggregation.CountMeaning` | src/db.rs:342-346 | a count is the number of rows and fails only beyond 64 bits |
| `Aggregation.DistinctMeaning` | src/db.rs:347-354 | the state of a distinct count is the set of the inputs' printed keys, and fails exactly when an input does |
| `Aggregation.DistinctCounts` | src/db.rs:347-354 | a distinct count is the number of inputs no two of which are equal and one of which equals every input |
| `Aggregation.GroupedByEquality` | src/db.rs:4680-4722 | two rows fall into one group exactly when their group fields are equal values |
| `ValueKeys.FormIsEquality` | src/model.rs:196-244 | two values without NaN print the same key exactly when they are equal, both zeros, renamed variants and every nested type included |
| `ValueKeys.FormIsKey` | src/model.rs:196-244 | on encodable values the printed key and the index key bytes tell the same values apart |
| `Aggregation.SumMeaning` | src/db.rs:408-467 | int and duration sums are exact and fail exactly when a running total leaves 64 bits or an input is not of the type |
| `Aggregation.AverageMeaning` | src/db.rs:355-392 | the unchecked 128-bit duration total is the exact sum and can never overflow, because the 64-bit count fails first |
| `Aggregation.AverageBetween` | src/db.rs:525-533 | the truncated duration average lies between the smallest and the largest input, so it always fits |
| `Aggregation.AverageFinishes` | src/db.rs:508-533 | a duration average that could be accumulated always finishes, with the truncated quotient of the exact total, or with nothing for no rows |
| `Aggregation.ExtremeMeaning` | src/db.rs:605-632 | min and max are the first least and the first greatest input, absent without rows |
| `Aggregation.GroupsCoverRows` | src/db.rs:4653-4736 | group sizes add up to the number of rows, and without group fields there is exactly one group |
| `WriteSets.WriteSet.RecordRows` | src/db.rs:1768-1783 | after any fitting changes the coalesced rows hold the initial before images and the current after images, and unrecorded rows are unchanged |
| `WriteSets.WriteSet.RecordIndex` | src/db.rs:1796-1861 | after any fitting changes the recorded entries of an index are exactly those that changed since the start, the way they changed, and other indexes' entries stay |
| `WriteSets.WriteSet.RecordEntry` | src/db.rs:1835-1861 | merging one entry that leaves or arrives keeps the entries the net effect between the first and the new filing, and touches no other index |
| `WriteSets.CoalesceEntry` | src/db.rs:1835-1861 | the merged entry map is the net effect on the new filing: a change back to the start disappears, any other entry changed exactly as recorded |
| `WriteSets.WriteSet.RecordIndexes` | src/db.rs:1796-1833 | one change set through every index of the table keeps the entries the net effect on all of them |
| `WriteSets.WriteSet.constructor` | src/db.rs:1764-1766 | an empty write set is the net effect of no change, for every table |
| `WriteSets.WriteSet.Record` | src/db.rs:4096-4101 | recording a mutation's rows, entries and watermark keeps the write set the net effect since the start |
| `WriteSets.WriteSet.RecordWatermark` | src/db.rs:1785-1794 | the watermark is the pair of initial and current allocation cursors, absent when equal |
| `WriteSets.WriteSet.Summarise` | src/db.rs:240-265 | from the net effect alone: every row change and every entry change is counted as exactly one kind, so the unreachable arms are unreachable |
| `WriteSets.CommitRows` | src/redb_storage.rs:4546-4602 | writing the recorded after images over their expected before images never meets an unexpected row and gives the final rows |
| `WriteSets.CommitIndex` | src/redb_storage.rs:4604-4625 | deleting the entries that go and inserting those that come never misses an entry and gives the posting of the final table |
| `WriteSets.RecordAndCommit` | src/redb_storage.rs:4464-4625 | for every run of mutations, committing the coalesced write set to the state before the run gives the rows, every posting and the cursor after it |
| `Durable.StoreRows` | src/db.rs:7366-7410 | every row is encoded under its own ID, failing exactly when some row has no encoding |
| `Durable.LoadRows` | src/db.rs:7863-7899 | stored rows are decoded in strictly increasing ID order, failing exactly on unordered IDs or an undecodable row |
| `Durable.RebuildIndex` | src/db.rs:6806-6878 | a rebuilt index lists its rows, and a duplicate key of a unique index is refused exactly when there is one |
| `Durable.RoundTrip` | src/db.rs:7856-7916 | storing and loading a table restores its rows, row IDs with gaps, allocation cursor and, by rebuilding, exactly the incrementally maintained indexes |

## Left out

- CodecBuffers.EncodeValue: takes a value as coercion leaves it; the coercion in front of encoding is not modelled.
- Planner.FilterMeaning: is stated for filters as binding leaves them (operand type of the field, literal of that type); binding and coercion themselves are not modelled.
- IndexAccess.AccessAgrees: is stated for filters that evaluate without error on the stored rows; `IndexAccess.AccessErrors` covers the others, where a full scan may fail on a row the index skips.
- OrderedScan.OrderedScanAgrees: is stated for filters that evaluate without error on the stored rows, and so are the reads built on it.
- IndexReads.RunFromIndex: models stages behind the sort that fail on a row, and supposes as `OrderedScan.OrderedScanAgrees` does that the filters in front of it do not.
- Exists.EvaluateExists: is stated for inner filters that evaluate without error and reads the rows directly; `ExistsReads.EvaluateThroughIndex` reads them through the bound index.
- ExistsReads.EvaluateThroughIndex: takes the filters bound a second time as a parameter and supposes that binding keeps their value on the stored rows.
- SeekExactness.SeekExact: ranges over integer columns, indexes without predicate, filters that are equalities to one value, orders that end in the primary key and stages between the sorts that drop no row; on a type with a single value, or under filters no row passes, an unsafe seek has nothing to lose.
- StableReads.StableExact: ranges over integer columns, indexes without predicate and equality filters for the same reason; `StableReads.SafeReadsStably` has no such restriction.
- Windows.PartitionedByEquality: supposes that different key forms have different texts, as `Aggregation.DistinctCounts` does.
- Windows.ApplyWindow: is stated for rows whose sort fields have the bound types; a comparison error is not modelled.
- Durable.RoundTrip: covers one table; catalog entries, sequences, references and migration history are not modelled.
- Tables.Table.Delete: removes rows one at a time by binary search instead of collecting positions and removing them from the highest down.
- Tables.Table.InsertFields: does not fix which of several applicable errors is reported first.
- WriteSets.WriteSet.RecordIndex: identifies an entry by its index key bytes where the source uses the printed form of the value; `ValueKeys.FormIsKey` shows that both tell the same values apart.
- Aggregation.DistinctCounts: supposes that different key forms have different texts; the JSON text itself is not modelled.
- Bulk upsert and the page shape checks are not modelled; they would add members of the same kind.
- Foreign references, generated defaults, coercion of literals, migrations, sequences and receipts are not modelled.
- Complete index keys of the storage engine and older key codecs are not modelled; the in-memory tuple keys are.
- Float and decimal sums and averages, decimal rounding and calendar functions are not modelled.
- Equality of text-keyed maps is modelled entry by entry in key order, which is how both sides store them.
- Field paths inside index predicates are compared by name instead of by stable field IDs.
- Working-byte, group and row limits, deadlines, observations, cursor signing and schema hashes are not modelled; runs are those where no limit fires.
- Lookup stages, match expressions, the parser, the formatter, the network protocol, backups and the command line are not modelled.
