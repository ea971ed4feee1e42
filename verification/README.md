# KiteSQL: ranges, keys, scans, catalog and caches

A Dafny model of the path along which KiteSQL answers a query from an index, and of the state around it.

A `WHERE` predicate is turned into ranges of a column (`Ranges`, `RangeLaws`, `ClosedRanges`, `OpenLists`, `AndLists`,
`HalfOpenLists`, `Restarts`, `Predicates`, `TreeRestarts`, `Narrowing`, `RangeLimits`, `InLists`, after the rewrites
of `Simplify`). Ranges of leading index columns are combined (`Combinations`) and encoded as byte intervals over ordered keys (`KeyBytes`, `DecimalKeys`, `TupleKeys`,
`CompositeScan`); `IndexRange` joins the whole path into one theorem, from the predicate to the bytes read.
`ScanIter` models the two iterators with their offset and limit. `KeySpace`, `Catalog`, `TableScan`, `StoreSteps`
and `Storage` model the key families, the table catalogs and the DDL state machine with its catalog and view caches.
`LruSpec`, `Lru` and `SharedLru` model the cache itself, a doubly linked list with a map. `RowCodec` and `RefCodec`
model the row and reference codecs.

Values are compared by an arbitrary total preorder where the code only compares, and by their own order where bytes
matter. Predicates have three-valued meaning. The store is a finite map from keys, whose bytes order them. Loops of
the source are loops here, each proved equal to a recursive function about which the laws are stated; objects that
the source changes in place are classes.

Where the code does not do what it is for, the model follows the code, shows an input, and says when the code is
right. The main such results:

- detaching a predicate never returns exactly when some OR in it is stuck (`TreeRestarts.DetachStuck`,
  `Restarts.OrMergeStuck`);
- merging ranges by OR is exact on lower-bounded ranges but drops entries on others; `OpenLists.OrUnderExact` says
  when for a range without a lower end, `HalfOpenLists.OrAnchoredExact` for strict upper ends;
- AND of two lists loses rows exactly when entries are tangled (`AndLists.AndListsExact`), and a negated conjunction
  unless it does not bound the column (`Predicates.NotExact`);
- OR of two scopes takes in the one value in a gap between them (`Ranges.OrSimpleUnion`);
- moving a constant across a comparison is right exactly when constants left of a `+` cancel
  (`Simplify.ArithmeticMoveExact`);
- zero padding of the key buffer breaks the order of texts (`KeyBytes.TextOrderExact`);
- a composite equality scan misses entries whose remaining bytes exceed a single 0xFF (`CompositeScan.EqScanExact`);
- a missed point lookup ends a scan early (`ScanIter.MissEndsScan`);
- index ids are stored little-endian, so from 257 indexes on a reload permutes them, and a new index can take the id
  of an existing one (`TableScan.ReloadsAsBuilt`, `TableScan.NextIndexId`);
- dropping a view by the name of a table frees that name for a view (`Storage.Database.DropView`);
- a null column outside the projection shifts the projected values (`RowCodec.RowBack`).

`depth` in the range modules is the stack left for the one recursive arm of the merge; the outcome `StackOverflow`
stands for using it up. The arm of that merge that a debug build marks unreachable returns an empty list, as a
release build does.

## Model

| member | source | states |
|---|---|---|
| `Ranges.AndSimpleExact` | src/expression/range_detacher.rs:639-671 | AND of two scopes or equalities with non-null ends denotes exactly the intersection, for every mix of included, excluded and unbounded ends and any total preorder |
| `Ranges.OrScopesExact` | src/expression/range_detacher.rs:581-637 | or_scope_merge is exactly the union of two scopes whose ends are the right way round, unless there is a gap between them |
| `Ranges.OrSimpleGap` | src/expression/range_detacher.rs:581-637 | over a gap (one scope ends just below the value just above which the other starts) OR gains that value, which neither operand holds, and nothing else |
| `Ranges.OrSimpleUnion` | src/expression/range_detacher.rs:289-387 | OR of two simple ranges is exactly the union if and only if there is no gap between them |
| `Ranges.ExtractMergeRanges` | src/expression/range_detacher.rs:454-579 | the in-place loop with insert, remove and cursor computes the recursive merge that the range theorems are about |
| `RangeLaws.ExtractOr` | src/expression/range_detacher.rs:454-579 | merging one lower-bounded range into a list by OR, from any cursor and whatever the order of the list, gives exactly the union, in lower-bounded entries again, without using stack |
| `RangeLaws.OrExact` | src/expression/range_detacher.rs:389-441 | OR of lower-bounded operands, lists included, is exactly the union and never restarts the merge |
| `ClosedRanges.ExtractSeparated` | src/expression/range_detacher.rs:454-579 | the loop invariant: merging a closed range into a strictly ascending, pairwise separated list keeps it so, and the entries the cursor has passed stay below what is merged next |
| `ClosedRanges.ExtractAnd` | src/expression/range_detacher.rs:454-579 | AND of any simple range with a separated list is exactly the cut of the first entry it meets beside all other entries whole, or beside the range itself when it meets none |
| `ClosedRanges.OrClosed` | src/expression/range_detacher.rs:397-441 | OR of closed operands, two lists with one cursor included, is exactly the union as a strictly ascending, pairwise separated list |
| `ClosedRanges.AndOneList` | src/expression/range_detacher.rs:397-441 | AND of a closed operand with a range that is no list loses no common value, gains none outside the two, and is closed again when both are |
| `OpenLists.ExtractUnder` | src/expression/range_detacher.rs:454-579 | merging a range without a lower end into a separated list by OR stops at the first entry that is no equality inside it: there it stands in front of the rest, takes the entry in, or makes a list with it and restarts on that |
| `OpenLists.OrUnderExact` | src/expression/range_detacher.rs:389-441 | OR of a range without a lower end with a separated list, in either order, is exactly the union if and only if it makes no such list or every entry after the next one ends inside the range; one stack frame is enough, and without it the stack runs out exactly when there is a restart |
| `Restarts.PairForever` | src/expression/range_detacher.rs:557-564 | a range merged by OR into two others, of which it and the second both stick to the first, changes places with the second for ever |
| `Restarts.ExtractStuck` | src/expression/range_detacher.rs:454-579 | OR of a range into a list uses up every stack if and only if the walk of the merge makes a list `[u, z]` before an entry that sticks to `u` as `z` does; otherwise five frames are enough, and three when no entry is itself a list |
| `Restarts.MoreStack` | src/expression/range_detacher.rs:454-579 | a merge, by whatever operator, that returns does so with more stack too, and with the same result |
| `Restarts.OrMergeStuck` | src/expression/range_detacher.rs:289-441 | the same for OR of any two ranges that detaching can build, two lists included; three frames for a range and a list without lists inside |
| `Restarts.AndMergeReturns` | src/expression/range_detacher.rs:289-441 | AND of any two such ranges returns with two frames, and its result is such a range again |
| `TreeRestarts.DetachStuck` | src/expression/range_detacher.rs:181-270 | for every nesting of AND, OR and NOT over comparisons, detach uses up every stack if and only if some OR in it is stuck; otherwise five frames are enough and more give the same range |
| `HalfOpenLists.HaltKeeps` | src/expression/range_detacher.rs:557-564 | where a carried list meets an entry and returns, exactly the two in the list and that entry are kept |
| `HalfOpenLists.OrAnchoredExact` | src/expression/range_detacher.rs:454-579 | OR of a range that starts at a value it holds, strict upper ends included, into a list of such ranges in any order: the union if and only if no list made on the way meets another entry or the entries it drops lie in the three it keeps; no stack is enough if and only if that entry sticks too, otherwise one frame |
| `AndLists.MergeListsIs` | src/expression/range_detacher.rs:429-441 | after each entry of the left list the merge by AND stands as computed in closed form: the pieces of the entries passed, then the rest of the right list, the cursor on the last piece |
| `AndLists.AndListsExact` | src/expression/range_detacher.rs:429-441 | AND of two separated lists keeps every common value if and only if no two entries that meet each meet another one besides |
| `AndLists.AndOfListsExact` | src/expression/range_detacher.rs:429-452 | the same for the ranges the lists stand for, which never use up the stack |
| `Predicates.LeafExact` | src/expression/range_detacher.rs:707-759 | a comparison bounds the target column exactly for >, <, >=, <=, = against a constant, flipped forms included, and its range is exactly the values that make it true |
| `Predicates.ConjunctionExact` | src/expression/range_detacher.rs:181-270 | for every AND tree of comparisons over any columns detach returns no range exactly when no conjunct bounds the target, and otherwise exactly the values that meet all that do |
| `Predicates.MeetsIsTrue` | src/expression/range_detacher.rs:181-270 | when every conjunct bounds the target, meeting them all is the same as the predicate being true in three-valued logic |
| `Predicates.ConjunctionEnds` | src/expression/range_detacher.rs:639-671 | which ends of a conjunction's range are unbounded or excluded follows from the operators among its conjuncts |
| `Predicates.DisjunctionExact` | src/expression/range_detacher.rs:181-270 | OR trees over lower-bounded conjunctions detach to exactly the values for which the predicate is true; with closed leaves to a strictly ascending, pairwise separated list |
| `Predicates.AcceptedMeets` | src/expression/range_detacher.rs:181-209 | a row a conjunction accepts has a non-null target value that meets every bounding conjunct |
| `Predicates.MixedCovers` | src/expression/range_detacher.rs:181-270 | in AND and OR trees of closed conjunctions and of comparisons that do not bound the target, where AND never meets two lists, no accepted row falls outside the detached range |
| `Predicates.NotExact` | src/expression/range_detacher.rs:181-270 | over an order without ends, for every conjunction the range detached from its negation covers the rows the negation accepts if and only if no conjunct bounds the target |
| `Predicates.NotOfBoundsExact` | src/expression/range_detacher.rs:181-270 | over any order, with ends or without, the negation of a conjunction all of whose conjuncts bound the target covers its rows if and only if every value meets every conjunct |
| `Predicates.NotOfOrLoses` | src/expression/range_detacher.rs:181-270 | the negation of an OR tree of lower-bounded conjunctions always loses rows |
| `Narrowing.ExtractNarrow` | src/expression/range_detacher.rs:454-579 | AND of a range, open ends included, with an ascending list replaces one entry by a cut of it and keeps a value that is in the range and in the list |
| `Narrowing.AndNoLists` | src/expression/range_detacher.rs:454-579 | AND of ranges that are no lists with lists that hold none makes no list inside a list and uses no stack |
| `Narrowing.NarrowedRow` | src/expression/range_detacher.rs:181-270 | for mixed trees narrowed any number of times, on either side, by conjunctions with any ends: an accepted row's value is non-null and in the range, which holds no list inside a list |
| `Narrowing.NarrowedCovers` | src/expression/range_detacher.rs:181-270 | no accepted row falls outside the range of such a tree |
| `Narrowing.MixedAndConjunctionCovers` | src/expression/range_detacher.rs:181-270 | AND of a mixed tree and any conjunction, in either order, loses no accepted row |
| `Narrowing.FlooredCovers` | src/expression/range_detacher.rs:181-270 | OR trees over conjunctions with a lower end and no strict upper end, conditions on other columns beside them, lose no accepted row |
| `Narrowing.OrTreeFloored` | src/expression/range_detacher.rs:181-270 | the OR trees that `DisjunctionExact` is about are such trees |
| `RangeLimits.OrLosesRow` | src/expression/range_detacher.rs:557-564 | the arm that restarts on a carried list drops entries: `c BETWEEN 3 AND 5 OR c = 20 OR c = 30 OR c <= 10` loses the row 30 |
| `RangeLimits.OrDropsEntry` | src/expression/range_detacher.rs:557-564 | `[1, 3]` merged by OR into `[0, 1)`, `[5, 6]`, `[8, 9]` drops the value 8 |
| `RangeLimits.AndOfListsLosesRow` | src/expression/range_detacher.rs:454-579 | AND of two lists loses rows: the cut of one entry forgets what a later entry of the other list needs |
| `RangeLimits.NotLosesRow` | src/expression/range_detacher.rs:181-270 | NOT is passed over: `NOT c > 1` detaches to the range of `c > 1` and loses the row 0 |
| `RangeLimits.NotOverIntegers` | src/expression/range_detacher.rs:181-270 | over the integers the range of a negated conjunction covers the rows it accepts if and only if no conjunct bounds the column |
| `RangeLimits.RestartsForever` | src/expression/range_detacher.rs:557-564 | merging everything into a list that ends in everything restarts on the same list for ever, whatever stack there is |
| `RangeLimits.DetachNeverReturns` | src/expression/range_detacher.rs:181-270 | `((c < 1 OR c >= 0) OR c <= 5) OR (c < 1 OR c >= 0)` exhausts every stack |
| `RangeLimits.BoundedNeverReturns` | src/expression/range_detacher.rs:557-564 | `(c >= 0 AND c < 1) OR c BETWEEN 1 AND 2 OR c BETWEEN 1 AND 3` exhausts every stack too |
| `InLists.RewriteIn` | src/expression/simplify.rs:196-236 | the loop builds the right-to-left OR chain of equalities (AND chain of inequalities for NOT IN); an empty list is left alone |
| `InLists.InListRange` | src/expression/simplify.rs:196-236 | for any non-empty list of constants, in any order and with duplicates, rewriting then detaching gives exactly the distinct constants, strictly ascending; a lone equality when there is one |
| `InLists.NotInUnbounded` | src/expression/simplify.rs:196-236 | NOT IN detaches to no range at all |
| `Simplify.FixExprLoop` | src/expression/simplify.rs:294-316 | the pop loop over the replace stack computes the recursive unstacking |
| `Simplify.VisitChain` | src/expression/simplify.rs:120-181 | visiting a chain of + and - constants on a column pushes one entry for each operator, the innermost first, and keeps the column recoverable from what is left |
| `Simplify.PopChain` | src/expression/simplify.rs:367-415 | popping the entries of a chain leaves `column op constant`, the comparison flipped exactly when the column enters with a minus |
| `Simplify.PopValue` | src/expression/simplify.rs:367-415 | the constant it leaves is the one that balances the comparison, off by the skew of the chain |
| `Simplify.ArithmeticMoveExact` | src/expression/simplify.rs:120-181 | the move keeps the truth value for all integers if and only if the skew is zero: twice the signed sum of the constants standing left of a `+` |
| `Simplify.RightArithmeticMoveExact` | src/expression/simplify.rs:120-181 | the same with the chain on the right of the comparison |
| `Simplify.LeftPlusIsWrong` | src/expression/simplify.rs:367-415 | `k + c > t` is rewritten to a comparison that differs for some integer, for every k but 0 |
| `KeyBytes.BigEndianOrder` | src/types/value.rs:206-210 | fixed-width big-endian numbers part at a byte in the order of the numbers |
| `KeyBytes.EncodeBytesLoop` | src/types/value.rs:866-898 | the group loop, with the buffer first grown by zeros, appends the recursive group encoding |
| `KeyBytes.GroupsOrder` | src/types/value.rs:866-889 | the groups of two byte strings compare as the strings do and neither is a prefix of the other |
| `KeyBytes.EncodeBytesInjective` | src/types/value.rs:866-898 | from any common buffer, zero padding included, different strings give different buffers |
| `KeyBytes.TextOrderExact` | src/types/value.rs:866-898 | for texts the padded keys order as the texts do if and only if the smaller text does not start earlier in the padded buffer; the empty text may start up to seven bytes earlier |
| `KeyBytes.EmptyOrderExact` | src/types/value.rs:866-898 | the empty text sorts before another if and only if that starts less than eight bytes later, or eight bytes later with a byte above the marker of the empty group |
| `KeyBytes.LongTextSortsFirst` | src/types/value.rs:891-898 | "b" and "cccccccc" after a 10-byte key prefix sort the wrong way round |
| `DecimalKeys.DecimalEM` | src/types/value.rs:1001-1075 | exponent and marked base-100 digits of the number, computed by precision, parity and stripping of zeros |
| `DecimalKeys.SerializeDecimal` | src/types/value.rs:959-999 | appends the key of the number, which does not depend on how the number is split into mantissa and scale |
| `DecimalKeys.NumberKeyOrder` | src/types/value.rs:959-999 | keys of different numbers part at a byte in the order of the numbers, across signs and exponents |
| `DecimalKeys.DecimalKeyOrder` | src/types/value.rs:959-1075 | decimal keys order as numbers, both ways; equal numbers such as 1.0 and 1.00 have equal keys; no key is a proper prefix of another |
| `TupleKeys.ScalarKeyOrder` | src/types/value.rs:901-940 | keys of two values of one type part at a byte in the order of the values, and are equal for equal values |
| `TupleKeys.EncodeTupleLoop` | src/types/value.rs:941-952 | the loop over the components with its tag bytes computes the recursive tuple encoding |
| `TupleKeys.PlainAppends` | src/types/value.rs:901-956 | without text components the encoding appends a key that does not depend on the buffer |
| `TupleKeys.TupleKeyOrder` | src/types/value.rs:941-952 | smaller tuples have smaller keys, whatever their lengths and whether or not either is an upper bound |
| `TupleKeys.UpperAbove` | src/types/value.rs:941-952 | the upper form of a prefix is above every tuple that extends it |
| `TupleKeys.LowerPrefix` | src/types/value.rs:941-952 | the lower form of a prefix is a byte prefix of every tuple that extends it |
| `TupleKeys.TupleKeysExact` | src/types/value.rs:941-952 | for equal-length tuples of the same types byte order is exactly component-wise order, and equal bytes mean equal tuples |
| `Combinations.Enumeration` | src/expression/range_detacher.rs:45-60 | the walk with one pushed and popped path lists the leaf paths in order and leaves the path as it was |
| `Combinations.CombineIsProduct` | src/expression/range_detacher.rs:62-98 | build_tree plus enumeration lists exactly the Cartesian product of the equality levels, in order |
| `Combinations.NonEqGivesNone` | src/expression/range_detacher.rs:62-98 | a level with a member that is no equality gives None, wherever it stands |
| `Combinations.ProductMember` | src/expression/range_detacher.rs:45-98 | a combination is listed if and only if it picks a member of each level |
| `Combinations.ProductAscending` | src/expression/range_detacher.rs:45-98 | strictly ascending levels give strictly ascending, hence distinct, combinations |
| `CompositeScan.ExclusiveStart` | src/storage/rocksdb.rs:86-110 | appending a zero byte to an excluded lower bound excludes exactly that bound |
| `CompositeScan.LowerBoundExact` | src/storage/table_codec.rs:351-384 | a lower bound lets through exactly the index entries that are not smaller in its components |
| `CompositeScan.UpperBoundExact` | src/storage/table_codec.rs:351-384 | an upper bound lets through exactly the entries that are not larger in its components |
| `CompositeScan.ScopeScanExact` | src/storage/mod.rs:1158-1202 | a scope under an equality prefix reads exactly the entries with that prefix whose next component lies in it, its ends taken as closed |
| `CompositeScan.EqScanExact` | src/storage/mod.rs:1025-1038 | an equality under a prefix reads a matching entry if and only if the rest of its bytes is at most a single 0xFF |
| `CompositeScan.CompositeScanComplete` | src/expression/range_detacher.rs:109-165 | every entry that agrees with one combination and whose next component lies in the trailing range is read by some interval of the scan; only a trailing equality needs the 0xFF condition |
| `CompositeScan.EqScanMisses` | src/storage/mod.rs:1025-1038 | the entry (1, 1) of the row with Int32 key 2147483647 is missed by the scan for (1, 1) |
| `IndexRange.DetachOk` | src/expression/range_detacher.rs:181-270 | a detached range holds only constants that the predicate compares with its column |
| `IndexRange.LeadingCatches` | src/optimizer/rule/normalization/pushdown_predicates.rs:245-262 | each leading column's range holds the accepted row's value for that column |
| `IndexRange.EqualitiesRead` | src/optimizer/rule/normalization/pushdown_predicates.rs:263-300 | a row whose leading columns are all held to equalities is read, also after eq_to_scope on a proper prefix |
| `IndexRange.AcceptedRowIsRead` | src/optimizer/rule/normalization/pushdown_predicates.rs:245-300 | end to end: whenever composite_range finds a range, every row the predicate accepts has its index entry inside one of the byte intervals the scan reads; only where an equality ends the bound must the bytes behind it be at most a single 0xFF |
| `IndexRange.SplitColumnsSupported` | src/expression/range_detacher.rs:181-270 | `(c1 = a OR c1 = b) AND c2 > k`, in either order, is within reach for every column |
| `ScanIter.IndexIter.NextTuple` | src/storage/mod.rs:1137-1246 | one call skips what is left of the offset, returns the next item and counts it; past the end or at limit 0 it returns None for ever; it always returns |
| `ScanIter.TupleIter.NextTuple` | src/storage/mod.rs:1067-1098 | the same for the table scan, which at limit 0 still consumes a row |
| `ScanIter.DrainIndex` | src/storage/mod.rs:1118-1246 | calling until None collects the offset/limit window of all items up to the first missed point lookup |
| `ScanIter.DrainTable` | src/storage/mod.rs:1067-1098 | a table scan returns exactly take(limit, drop(offset, rows)) |
| `ScanIter.ScanWindow` | src/storage/mod.rs:1137-1246 | on scopes, and on equalities of non-unique indexes, an index scan returns exactly the window of the concatenated rows |
| `ScanIter.MissEndsScan` | src/storage/mod.rs:1158-1180 | stopping at the first None gives the window of the found rows, for every offset and limit, if and only if no row is found after a missed point lookup |
| `ScanIter.MissHidesRow` | src/storage/mod.rs:1158-1180 | a lookup that misses hides the row of the next lookup |
| `LruSpec.PutEvictsOnlyLast` | src/utils/lru.rs:256-270 | a present key and a new key with room evict nothing; a new key into a full cache evicts the least recent entry and only that |
| `LruSpec.RunKeeps` | src/utils/lru.rs:256-343 | after any run of put, get, remove and get_or_insert there is no duplicate key and never more than cap entries |
| `LruSpec.RunByRecency` | src/utils/lru.rs:256-343 | after any run of put, get, remove and get_or_insert, hits, misses and failing makers included, the entries stand in the order of last use |
| `LruSpec.EvictsLeastRecent` | src/utils/lru.rs:245-343 | whatever the run before it, an operation makes no other key disappear but the least recently used one, and that only from a full cache for a key that is not there |
| `LruSpec.HoldsMostRecent` | src/utils/lru.rs:245-270 | after any run of insertions the cache holds exactly the cap most recently used keys in order of last use |
| `Lru.LruCache.Detach` | src/utils/lru.rs:198-221 | unlinks a node: the list read head to tail and tail to head loses it and nothing else |
| `Lru.LruCache.Attach` | src/utils/lru.rs:223-243 | links a node at the head, both directions kept |
| `Lru.LruCache.Expulsion` | src/utils/lru.rs:245-254 | drops the tail from list and map exactly when the cache is full |
| `Lru.LruCache.PutEntry` | src/utils/lru.rs:256-270 | refines the recency-sequence put and returns the value replaced; list, back links, map and capacity stay consistent |
| `Lru.LruCache.GetEntry` | src/utils/lru.rs:272-295 | refines get: a hit moves to the front, a miss changes nothing |
| `Lru.LruCache.RemoveEntry` | src/utils/lru.rs:297-305 | refines remove: the entry leaves list and map |
| `Lru.LruCache.GetOrInsert` | src/utils/lru.rs:307-343 | refines get_or_insert: a hit moves to the front, a failing maker changes nothing, a made value is put |
| `SharedLru.SharedLruCache.Operate` | src/utils/lru.rs:130-166 | one locked operation is the single cache's operation on the key's own shard object and touches no other shard; the total never exceeds the capacity |
| `SharedLru.SharedLruCache.OnlyOwnShard` | src/utils/lru.rs:173-179 | a key can be found in no shard but the one its hash names |
| `SharedLru.Create` | src/utils/lru.rs:116-128 | fails exactly when the capacity is not a multiple of the shard count or is zero; otherwise the shards' capacities add up to it |
| `SharedLru.TotalBound` | src/utils/lru.rs:114-179 | shards within their capacity hold no more than the total capacity together |
| `KeySpace.FamilyBoundsExact` | src/storage/table_codec.rs:149-240 | each family's interval holds exactly that family's keys of that table |
| `KeySpace.IndexBoundExact` | src/storage/table_codec.rs:171-186 | the interval of one index holds exactly the entries of that index of that table |
| `KeySpace.MarkerBoundsExact` | src/storage/table_codec.rs:199-253 | the root and view intervals hold exactly the tables and the views |
| `KeySpace.TableBoundExact` | src/storage/table_codec.rs:211-219 | the interval scanned for a catalog holds exactly the table's columns and index metas, and its lower end is a prefix of exactly the columns |
| `TableScan.EncodeInjective` | src/storage/table_codec.rs:96-147 | different keys, of whatever family and table, have different bytes |
| `Catalog.NewIsReload` | src/catalog/table.rs:185-246 | building a table column by column gives what reloading its columns gives |
| `Catalog.CreatedShape` | src/storage/mod.rs:671-709 | for distinct column names adding the unique and primary indexes succeeds, numbers them from 0, one per unique column outside the key and one more, and leaves the rest as a reload gives it |
| `TableScan.ListingUnique` | src/storage/mod.rs:624-653 | a scan of a set of keys can return them in one order only |
| `TableScan.AgreesFrame` | src/storage/mod.rs:535-552 | a step that leaves a table's columns and index metas alone leaves its catalog right |
| `TableScan.ReloadsAsBuilt` | src/storage/mod.rs:624-653 | a table written with indexes numbered from 0 is reloaded as it was built if and only if it has at most 256 of them |
| `TableScan.IndexesAre` | src/storage/mod.rs:624-653 | a catalog that agrees with the store lists exactly the stored index metas |
| `TableScan.NextIdAfterLast` | src/catalog/table.rs:126-140 | whatever ids are stored, gaps included, the listed last id comes last in little-endian order and the id after it is unused unless its low byte is 255 |
| `TableScan.NextIndexId` | src/catalog/table.rs:126-140 | with indexes 0 to n - 1 stored, the id the next index gets is unused if and only if n is at most 256 or, again and again, a multiple of 256 with such a quotient; otherwise it takes the key of an existing index |
| `TableScan.IndexTakesStoredId` | src/catalog/table.rs:126-140 | with 257 indexes the next one takes the key of index 256 |
| `StoreSteps.TableLosesName` | src/storage/mod.rs:389-412 | after dropping a view of its name a table is left without the hash of its name |
| `StoreSteps.SplitScan` | src/storage/mod.rs:624-653 | the loop splits a scan into exactly its columns and its index metas, in order |
| `StoreSteps.NewTableCoherent` | src/storage/mod.rs:340-375 | after create_table every cached catalog, the new one included, agrees with a reload if and only if the table has at most 256 indexes |
| `StoreSteps.CoherentAfter` | src/storage/mod.rs:146-165 | a step on one table that takes its name out of the cache leaves all other cached catalogs right |
| `StoreSteps.GoneKeeps` | src/storage/mod.rs:283-317 | dropping a column and indexes with all they own leaves no orphan, touches no other table and no owner of a name |
| `StoreSteps.SchemaIs` | src/catalog/table.rs:217-246 | a catalog that agrees with the store lists exactly the stored columns |
| `StoreSteps.ColumnByName` | src/catalog/table.rs:57-61 | the name map finds a stored column of that name, and finds one whenever there is one |
| `Storage.Database.DropRange` | src/storage/mod.rs:655-669 | _drop_data removes exactly the keys within its bounds |
| `Storage.Database.TableCollect` | src/storage/mod.rs:624-653 | table_collect plus reload gives the one catalog that agrees with the store, or nothing exactly when no column is stored |
| `Storage.Database.Lookup` | src/storage/mod.rs:535-552 | table returns the cached catalog or the reloaded one, which agrees with the store, and keeps the cache right |
| `Storage.Database.Evict` | src/utils/lru.rs:245-254 | forgetting any entry keeps the cache right |
| `Storage.Database.HasBadKey` | src/storage/table_codec.rs:72-89 | finds whether some primary-key column has a type other than the integers and texts |
| `Storage.Database.CreateTable` | src/storage/mod.rs:340-387 | outcome in every case, key types included; on success exactly the columns, index metas, root and hash key of the new table are added, no row, entry or statistics of it exists, and the cache stays right if and only if fewer than 256 columns get an index of their own |
| `Storage.Database.AddColumn` | src/storage/mod.rs:236-281 | writes the column, and one index over it with its type exactly when it is unique; error and existing-column outcomes; every other key unchanged, the cache kept right |
| `Storage.Database.AddIndexMeta` | src/storage/mod.rs:146-165 | writes one index meta; under an unused id the index starts without entries; fails on a name the table already uses; the cache kept right |
| `Storage.Database.DropColumn` | src/storage/mod.rs:283-317 | removes the column and, for exactly the stored indexes over it, meta, entries and statistics; nothing else changes, the cache kept right |
| `Storage.Database.DropIndex` | src/storage/mod.rs:414-455 | removes meta, entries and statistics of exactly the named index, never one of a primary key or unique constraint; all outcomes; the cache kept right |
| `Storage.Database.DropTable` | src/storage/mod.rs:457-501 | removes every key of the table and its name and no other key, exactly when the table has a stored column; the cache kept right |
| `Storage.Database.PutData` | src/storage/mod.rs:167-227 | writing rows, entries and statistics under an existing table and index keeps every invariant |
| `Storage.Database.LookupView` | src/storage/mod.rs:503-519 | the cached view, or the stored one, which is then cached; the view cache kept right |
| `Storage.Database.CreateView` | src/storage/mod.rs:319-338 | outcome in every case; a name keeps one owner; the view cache stays right if and only if no other cached name with the same hash has a different view |
| `Storage.Database.DropView` | src/storage/mod.rs:389-412 | drops the hash of the name before looking for the view: a name keeps one owner if and only if it is not a table's; the view cache stays right if and only if no other cached name has the hash |
| `RowCodec.ValueBack` | src/types/value.rs:530-811 | a value read where it was written comes back, a CHAR without its trailing spaces; read or skipped, the cursor ends behind it |
| `RowCodec.TextBack` | src/types/value.rs:722-761 | a stored text reads back as it was if and only if its column is no CHAR or it does not end in a space |
| `RowCodec.Serialize` | src/types/tuple.rs:86-114 | the bitmap marks exactly the null columns and the other values follow in column order |
| `RowCodec.Deserialize` | src/types/tuple.rs:38-82 | the loop computes the recursive decoding, short input included |
| `RowCodec.DecodeFills` | src/types/tuple.rs:38-82 | on an encoded row the loop never runs short and fills in what its projection index says, whatever the projection |
| `RowCodec.RowBack` | src/types/tuple.rs:38-114 | for every type list, row and ascending projection, decoding an encoded row gives exactly the projected values if and only if no null column outside the projection precedes a projected value |
| `RowCodec.HiddenNullShifts` | src/types/tuple.rs:59-75 | the row (NULL, 7) read through the second column alone comes back as NULL |
| `RefCodec.ItemBack` | src/serdes/column.rs:80-141 | any nesting of relations, options, vectors and bounds, encoded while the table of names grows, decodes against the final table to itself and leaves the remaining bytes |
| `RefCodec.ItemsBack` | src/serdes/vec.rs:10-34 | the same for the elements of a vector, each encoded with the names its predecessors left |
| `RefCodec.ReadNamesBack` | src/serdes/mod.rs:103-130 | the table of names reads back as it was written |
| `RefCodec.ViewBack` | src/storage/table_codec.rs:459-496 | the framed view is taken apart into the same names and the same body |
| `RefCodec.Encoder.PushOrReplace` | src/serdes/mod.rs:93-101 | returns the index of the name, which is added only if it was not there; earlier indexes stay valid |
| `RefCodec.Encoder.Write` | src/serdes/option.rs:10-25 | writes exactly the recursive encoding and leaves the names it grew |
| `RefCodec.EncodeView` | src/storage/table_codec.rs:459-475 | reserving four bytes and patching them afterwards gives the frame that `ViewBack` takes apart |

## Left out

- RangeLaws.OrExact: states that lower-bounded operands suffice, not that they are necessary; the exact conditions are `OpenLists.OrUnderExact` for a range without a lower end and a separated list, and `HalfOpenLists.OrAnchoredExact` for strict upper ends; lists that mix these with ranges without a lower end have an exact condition for returning (`Restarts.ExtractStuck`) but none for the union.
- Predicates.MixedCovers: states that no accepted row is lost, not that nothing is gained, because AND with a list keeps the entries it does not cut (`ClosedRanges.ExtractAnd`).
- ClosedRanges.AndOneList: states both bounds and not the intersection, for the same reason.
- Narrowing.FlooredCovers: does not cover AND of two trees that both bound the target, because narrowing a list of overlapping scopes can lose rows.
- Predicates.NotExact: is about an order without ends; with ends `Predicates.NotOfBoundsExact` covers conjunctions on the target alone, and negated OR trees are covered by `Predicates.NotOfOrLoses`.
- KeyBytes.TextOrderExact: leaves out texts that start with a NUL byte, which looks like padding.
- TableScan.NextIdAfterLast: does not say which ids with low byte 255 are followed by a stored one, which depends on the store alone.
- IndexRange.AcceptedRowIsRead: covers predicates that are conjunctions or mixed trees narrowed by conjunctions (`Narrowing.Narrowed`) or OR trees with lower ends (`Narrowing.Floored`), on non-null columns without text, whose encoding depends on the buffer.
- TupleKeys.TupleKeysExact: covers booleans, integers and decimals without nulls; text components pad the buffer with zeros, which `KeyBytes.TextOrderExact` treats on its own.
- Simplify.ArithmeticMoveExact: is about mathematical integers; overflow, multiplication, division and unary operators are not modelled.
- CompositeScan.EqScanExact: is about composite indexes; the bounds of normal, unique and primary-key indexes are not modelled.
- Storage.Database.CreateTable: takes column ids in ascending order, as the id generator yields them, and fewer than 2^32 columns.
- Storage.Database.AddIndexMeta: counts an index id past 32 bits as a panic, because debug and release builds differ there.
- Storage.Database.Lookup: the cache is a map that may forget entries at any time, because the cache proper is the subject of `Lru`.
- Storage.Database.CreateView: a view is its name and a number for its query.
- SharedLru.SharedLruCache.Operate: models one locked operation at a time, not the interleaving of threads.
- LruSpec.HoldsMostRecent: is about runs of insertions; `LruSpec.RunByRecency` and `LruSpec.EvictsLeastRecent` are about every run.
- TableScan.NextIndexId: is about ids without gaps; `TableScan.NextIdAfterLast` is about any ids.
- RowCodec.RowBack: projections are strictly ascending; a position named twice is not modelled. Texts are their bytes, floats and decimals the bytes their libraries give.
- RefCodec.ItemBack: the leaves are column relations; column descriptions, which go through another codec or through the catalog, are not modelled.
- Names with equal hashes in the cache, and hashes that start with one of the three markers, are excluded by the conditions `Apart` and `ValidHash`.
- IS NULL predicates and null constants in ranges, scalar casts in predicates, floats, dates and times as keys.
- Null components of tuple keys beyond the encoding function itself.
- extract_join_keys, constant folding and the other optimizer rules, which would add only easier members.
- RocksDB itself, transactions and commit, statistics files, executors, planner, parser, server and command line.
