# mileage, modelled in Dafny

This project models the core of the Rust crate `mileage`. The crate stores
sets and maps of Unicode scalar values (`char`) as sorted lists of closed
character ranges. It also builds three-level compressed bit tries for static
character sets.

- **`CharRange`** is modelled in `range.dfy`, and its double-ended iterator
  in `range_iter.dfy`.
  - A `char` is an integer subtype: `0..=0x10FFFF` without the surrogate
    block `0xD800..=0xDFFF`.
  - A range is empty when `low > high`.
  - Equality, ordering and hashing all treat every empty range as the same
    range.
  - Converting from Rust's `Bound`s and stepping the iterator both jump
    from 0xD7FF to 0xE000.
  - The reference for the iterator is `ScalarsIn(lo, hi)`: the ascending
    scalar values of an integer interval, which is what the crate's tests
    compare against.
- **Range lists** are in `range_list.dfy`. This covers the set invariant,
  membership (`Covers`), the binary search by `cmp_char` that sets and maps
  share, `len` and `chars`.
- **`CharSet`** (src/set/mod.rs) and **`CharSetBuf`** (src/set/owned.rs) are
  modelled in `set.dfy` and `set_owned.dfy`.
  - Each is a class whose `ranges: seq<CharRange>` field the methods
    reassign, edit by edit, as the `Vec` is edited in place.
  - The pure descriptions of the edits are in `set_spec.dfy`. There is a
    corrected specification for each operation (`InsertRangeSpec`,
    `RemoveSpec`, `RemoveRangeSpec`), with its invariant and membership
    proved.
  - There is also an as-written description of each defective operation,
    with the exact conditions under which it meets the specification and a
    concrete input where it does not.
- **The slice iterators** `RangeIter` (src/set/iter.rs) and `RangeValueIter`
  (src/map/iter.rs) are classes holding a cursor into the slice. They are in
  `set_iter.dfy` and `map_iter.dfy`.
- **`CharMapRef`** (src/map/mod.rs) is modelled as a datatype of two parallel
  sequences in `map.dfy`.
- **`CharTrie`** (src/trie/mod.rs) is modelled in `trie.dfy`, and the table
  construction of `new_with` in `trie_gen.dfy`.
  - `contains` returns `None` where Rust would panic on an index out of
    range.
  - `assert_optimal` is a method whose loops mark referenced leaves in an
    `array<bool>`.
  - `new_with` runs the `level2` and `level3` loops over `IndexSet` objects
    (a sequence with "index of, else append").
  - It is proved that `new_with` fails exactly when more than 256 distinct
    leaves or rows are needed.
  - It is also proved that, otherwise, the trie answers `contains(c) ==
    f(c)` for every character and passes `assert_optimal`.
  - No leaf or row is stored twice. Leaves and rows are numbered in the
    order the generator first meets their chunks and blocks.
  - For `is_ascii`, `new_with` returns exactly the tables the test
    `new_with_ascii` expects.

Characters in lemmas about concrete inputs are written as code points: 'a'
is 97.

## Model

| member | source | states |
|---|---|---|
| CharRanges.ScalarsInMembers | src/range/iter.rs:135-137 | the reference enumeration holds exactly the scalar values of the interval, never a surrogate |
| CharRanges.ScalarsInAscending | src/range/iter.rs:135-137 | the reference enumeration is strictly ascending |
| CharRanges.Succ | src/range/iter.rs:34-40 | the successor is above `c` and no scalar value lies between them (so 0xD7FF steps to 0xE000) |
| CharRanges.Pred | src/range/iter.rs:50-56 | the predecessor is below `c` and no scalar value lies between them (so 0xE000 steps to 0xD7FF) |
| CharRanges.Singleton | src/range/mod.rs:91-93 | `singleton(c)` is non-empty, has length 1 and contains exactly `c` |
| CharRanges.Empty | src/range/mod.rs:96-101 | `empty()` is empty, has length 0 and contains nothing |
| CharRanges.FromBounds | src/range/mod.rs:104-140 | the range holds exactly the scalar values both bounds admit; an excluded start `char::MAX` or excluded end `'\0'` gives `empty()`; unbounded ends become `'\0'` and `char::MAX`; excluded 0xD7FF / 0xE000 step over the surrogates; other bounds move by exactly one scalar |
| CharRanges.CmpChar | src/range/mod.rs:166-175 | `Equal` iff the range contains `c`, `Less` iff `high < c`, and for a non-empty range `Greater` iff `c < low` |
| CharRanges.CountScalars | src/range/iter.rs:115-123 | the closed form (integer count, less 0x800 when the interval spans the surrogates) is the length of the enumeration |
| CharRanges.Len | src/range/mod.rs:178-180 | `len()` is the number of scalar values in the range |
| CharRanges.EmptyIffNoMembers | src/range/mod.rs:183-185 | a range is empty iff it contains (`CharRanges.Contains`, `contains`) no scalar value iff its length is 0 |
| CharRanges.FullRangeLen | src/range/iter.rs:157-161 | `CharRange::from(..)` has 0x110000 − 0x800 characters |
| CharRanges.EqIffSameMembers | src/range/mod.rs:46-50 | `CharRanges.Eq` (`PartialEq`) holds iff the two ranges contain the same scalar values (all empty ranges are equal) |
| CharRanges.PartialCmpConsistent | src/range/mod.rs:55-63 | `CharRanges.PartialCmp` (`partial_cmp`) is `None` iff a side is empty, `Equal` iff both are non-empty and equal, antisymmetric and transitive |
| CharRanges.HashKeyIffEq | src/range/mod.rs:65-73 | the key `CharRanges.HashKey` feeds to the hasher agrees with equality in both directions |
| RangeIters.Iter.FromRange | src/range/iter.rs:20-25 | a new iterator has every scalar value of the range still to yield |
| RangeIters.Iter.Len | src/range/iter.rs:115-123 | `len()` is the number of values still to yield, 0 iff the iterator is empty |
| RangeIters.Iter.SizeHint | src/range/iter.rs:84-87 | the hint is exact in both bounds |
| RangeIters.Iter.Count | src/range/iter.rs:89-91 | `count()` is the number of values still to yield, without stepping through them |
| RangeIters.Iter.StepForward | src/range/iter.rs:30-43 | `low` moves to its successor, or at `char::MAX` `high` becomes `'\0'`; the front value is dropped from what remains |
| RangeIters.Iter.StepBackward | src/range/iter.rs:46-59 | `high` moves to its predecessor, or at `'\0'` `low` becomes `char::MAX`; the back value is dropped from what remains |
| RangeIters.Iter.Next | src/range/iter.rs:71-80 | yields the front value and drops it, lowering `len()` by one; `None` with nothing changed once empty (fused) |
| RangeIters.Iter.NextBack | src/range/iter.rs:100-109 | yields the back value and drops it, lowering `len()` by one; `None` once empty |
| RangeIters.Iter.Last | src/range/iter.rs:93-95 | `None` iff empty, else the current `high` |
| RangeIters.CollectForward | src/range/iter.rs:156-161 | collecting from the front gives the ascending scalar values of the range, exactly `len()` of them, each in the range |
| RangeIters.CollectBackward | src/range/iter.rs:163-170 | collecting from the back gives the same values reversed |
| RangeLists.Search | src/set/mod.rs:64-72 | `Ok(i)` names a range containing `c`; over a sorted list `Ok` iff some range holds `c`, and `Err(i)` has every range before `i` below `c` and every range from `i` above it |
| RangeLists.SearchUnique | src/map/mod.rs:59-67 | over a sorted list the index found is the one range holding `c` |
| RangeLists.SumLenIsCharsLength | src/set/mod.rs:55-57 | the sum of range lengths (`RangeLists.SumLen`) is the number of characters `chars()` (`RangeLists.Chars`) yields |
| RangeLists.CharsMembers | src/set/iter.rs:31-34 | `chars()` yields exactly the covered characters |
| RangeLists.CharsAscending | src/set/iter.rs:31-34 | over a sorted list `chars()` is strictly ascending |
| CharSets.CharSet.New | src/set/mod.rs:38-40 | the empty set, valid |
| CharSets.CharSet.WithCapacity | src/set/mod.rs:43-47 | the empty set, valid |
| CharSets.CharSet.FromRange | src/set/mod.rs:28-34 | the one range as given; valid iff it is non-empty |
| CharSets.CharSet.Search | src/set/mod.rs:70-72 | as `RangeLists.Search`, over the set's ranges |
| CharSets.CharSet.Contains | src/set/mod.rs:50-52 | in a valid set, `contains(c)` iff some stored range holds `c` |
| CharSets.CharSet.Len | src/set/mod.rs:55-57 | `len()` is the number of characters `chars()` yields |
| CharSets.CharSet.IsEmpty | src/set/mod.rs:60-62 | `is_empty()` iff no range is stored; in a valid set iff no character is covered |
| CharSets.CharSet.InsertAt | src/set/mod.rs:82-107 | under the documented assumptions the list becomes `SetSpec.InsertAt` of the old one |
| CharSets.CharSet.Insert | src/set/mod.rs:172-176 | the list becomes the as-written insert; away from the two shapes under Findings the set stays valid and gains exactly `c` |
| CharSets.CharSet.InsertRange | src/set/mod.rs:178-215 | panics exactly where `drain` would; for a non-empty `r` it does not panic, and the set stays valid and gains exactly `r` |
| CharSets.CharSet.RemoveAt | src/set/mod.rs:116-133 | the list becomes `SetSpec.RemoveAt` of the old one (the interior case keeps `c`) |
| CharSets.CharSet.Remove | src/set/mod.rs:217-221 | the list becomes the as-written remove; away from a high end and a range's interior the set stays valid and loses exactly `c` |
| CharSets.CharSet.RemoveRange | src/set/mod.rs:223-236 | panics exactly where the loop indexes past the end or its `assert!` fails; otherwise the list is the as-written result |
| CharSetBufs.CharSetBuf.New | src/set/owned.rs:47-49 | the empty set, valid |
| CharSetBufs.CharSetBuf.WithCapacity | src/set/owned.rs:52-56 | the empty set, valid |
| CharSetBufs.CharSetBuf.FromRange | src/set/owned.rs:37-43 | the one range as given; valid iff it is non-empty |
| CharSetBufs.CharSetBuf.Search | src/set/mod.rs:70-72 | as `RangeLists.Search`, over the set's ranges |
| CharSetBufs.CharSetBuf.Clear | src/set/owned.rs:61-63 | no range is left and the set is valid |
| CharSetBufs.CharSetBuf.Insert | src/set/owned.rs:76-101 | the list becomes the as-written insert; away from the two shapes under Findings it is valid, equals inserting the singleton range, and gains exactly `c` |
| CharSetBufs.CharSetBuf.InsertAtGap | src/set/owned.rs:78-99 | the in-place edits for an uncovered `c` give `SetSpec.InsertAt` of the old list |
| CharSetBufs.CharSetBuf.InsertRange | src/set/owned.rs:103-144 | the list becomes `InsertRangeSpec`; it stays valid and gains exactly the characters of `r` |
| CharSetBufs.CharSetBuf.Remove | src/set/owned.rs:156-174 | the list becomes the as-written remove; away from a high end the set stays valid and loses exactly `c` |
| CharSetBufs.CharSetBuf.RemoveRange | src/set/owned.rs:176-227 | the list becomes the as-written result; the covered characters lose exactly those of `r`; if no empty range is left the set is valid and equals `RemoveRangeSpec` |
| CharSetBufs.CharSetBuf.EditOne | src/set/owned.rs:193-217 | the single-range edits replace the range at `low` by the as-written pieces |
| CharSetBufs.CharSetBuf.EditBlock | src/set/owned.rs:218-226 | trimming both ends and draining between replaces the block by the two trimmed ends |
| CharSetBufs.CharSetBuf.ExtendRanges | src/set/owned.rs:230-234 | the fold of `insert_range`: valid, holding the old characters and every inserted range's, nothing else |
| CharSetBufs.CharSetBuf.ExtendChars | src/set/owned.rs:236-240 | the fold of `insert`, where each step works: valid, holding the old characters and the given ones, nothing else |
| CharSetBufs.FromRanges | src/set/owned.rs:242-249 | a fresh valid set holding exactly the characters of the ranges |
| CharSetBufs.FromChars | src/set/owned.rs:251-257 | a fresh valid set holding exactly the given characters, where each insert works |
| SetSpec.DrainAndSet | src/set/owned.rs:139-142 | draining `lo+1..hi` and overwriting `lo` is the splice of one range over `lo..hi` |
| SetSpec.InsertLowFacts | src/set/owned.rs:108-118 | `low_idx` counts the ranges ending before `r.low` without touching it; `low_char` is the first other range's low when that reaches `r.low` |
| SetSpec.InsertHighFacts | src/set/owned.rs:120-131 | `high_idx` counts the ranges starting no later than just after `r.high`; `high_char` is the last of them's high when that reaches `r.high` |
| SetSpec.InsertIndicesOrdered | src/set/owned.rs:133-143 | for a non-empty range `low_idx <= high_idx` |
| SetSpec.InsertSplice | src/set/owned.rs:133-143 | `insert_range` is a splice of a merged range that spans `r` and the replaced block |
| SetSpec.InsertMerge | src/set/owned.rs:108-131 | the merged range spans `r` and the block, reaching beyond `r` only through the outermost replaced ranges |
| SetSpec.InsertRangeValid | src/set/owned.rs:103-144 | `insert_range` keeps the set invariant |
| SetSpec.InsertRangeMembers | src/set/owned.rs:103-144 | after `insert_range` the set covers the old characters and those of `r`, nothing else |
| SetSpec.InsertRangeBlock | src/set/owned.rs:133-143 | exactly the contiguous ranges that overlap or touch `r` are replaced; ranges below and above keep their places |
| SetSpec.InsertRangeTableMerge | src/set/mod.rs:283 | [a..=c, e..=g] + d..=d = [a..=g] |
| SetSpec.InsertRangeTableSeparate | src/set/mod.rs:287 | [a..=b, h..=j] + d..=f = [a..=b, d..=f, h..=j] |
| SetSpec.InsertRangeTableEmpty | src/set/owned.rs:267 | inserting the empty range z..=a changes nothing |
| SetSpec.InsertRangeUncheckedNonEmpty | src/set/mod.rs:178-215 | for a non-empty range the unchecked `insert_range` (`SetSpec.InsertRangeUnchecked`) does what the checked one does |
| SetSpec.InsertRangeUncheckedStoresEmpty | src/set/mod.rs:178-215 | inserting e..=a into {a..=c} stores an empty range and breaks the invariant |
| SetSpec.InsertRangeUncheckedPanics | src/set/mod.rs:209-211 | inserting n..=a into {a, c} makes `drain` panic |
| SetSpec.InsertAsWritten | src/set/owned.rs:76-101 | inserting a covered character changes nothing |
| SetSpec.InsertAsWrittenWorks | src/set/owned.rs:76-101 | away from the two wrong shapes the as-written insert equals inserting the singleton range |
| SetSpec.InsertAsWrittenMeaning | src/set/owned.rs:76-101 | away from the two wrong shapes the result is valid and gains exactly `c` |
| SetSpec.InsertAtEndMisses | src/set/owned.rs:78-81 | inserting c into {a..=b} gives two touching ranges where a..=c belongs |
| SetSpec.InsertLowerOnlyMisses | src/set/owned.rs:85-98 | inserting b into {a, e} makes c and d members and two ranges overlap |
| SetSpec.InsertDocExample | src/set/owned.rs:70-74 | {a..=b}, insert d, insert c gives {a..=d} |
| SetSpec.InsertDocExampleWorks | src/set/owned.rs:70-74 | neither insert of the example meets a wrong shape |
| SetSpec.ReplaceOneShapes | src/set/owned.rs:158-171 | `Vec::remove`, an element write, and a write then an `insert` are replacements of one range by 0, 1 or 2 pieces |
| SetSpec.TrimAndDrain | src/set/owned.rs:219-225 | overwriting both ends and draining between replaces the block with the two new ends |
| SetSpec.Above | src/set/owned.rs:162 | `from((Excluded(c), Included(high)))` holds exactly `c < y <= high`, and is empty iff `high <= c` |
| SetSpec.Below | src/set/owned.rs:170 | `from((Included(low), Excluded(c)))` holds exactly `low <= y < c`, and is empty iff `c <= low` |
| SetSpec.RemovePiecesFacts | src/set/owned.rs:159-171 | what is left of a range without `c` is valid, inside it, and holds all of it but `c` |
| SetSpec.RemoveCorrect | src/set/owned.rs:156-174 | the corrected `remove` keeps the invariant and takes out exactly `c` |
| SetSpec.RemoveOwnedWorks | src/set/owned.rs:156-174 | away from a high end `CharSetBuf::remove` as written (`SetSpec.RemoveOwnedAsWritten`) equals the corrected one; a non-member changes nothing |
| SetSpec.RemoveSetWorks | src/set/mod.rs:116-133 | `CharSet::remove` as written (`SetSpec.RemoveSetAsWritten` over `SetSpec.RemoveAt`, the as-written `remove_at`) equals the corrected one only away from a high end and a range's interior |
| SetSpec.RemoveHighEndMisses | src/set/owned.rs:163-164 | removing c from {a..=c} changes nothing, in both versions |
| SetSpec.RemoveAtInteriorMisses | src/set/mod.rs:127-131 | removing b from {a..=c} with `CharSet::remove` keeps b and leaves touching ranges |
| SetSpec.RemoveDocExample | src/set/owned.rs:150-154 | {a..=c} without b is {a, c} |
| SetSpec.RemoveIndexFacts | src/set/owned.rs:181-187 | the edited block `low..high` is exactly the ranges sharing a character with `r` |
| SetSpec.RemoveMidNonEmpty | src/set/owned.rs:189-226 | dropping the empty parts of what the code builds gives the trimmed parts |
| SetSpec.RemoveRangeValid | src/set/owned.rs:176-227 | the corrected `remove_range` keeps the invariant |
| SetSpec.RemoveRangeMembers | src/set/owned.rs:176-227 | the corrected `remove_range` takes out exactly the characters of `r` |
| SetSpec.RemoveRangeAsWrittenCovers | src/set/owned.rs:176-227 | the as-written result covers the same characters as the corrected one |
| SetSpec.RemoveRangeAsWrittenWorks | src/set/owned.rs:176-227 | when the as-written result holds no empty range it equals the corrected one |
| SetSpec.RemoveRangeAsWrittenMeaning | src/set/owned.rs:176-227 | as written, the covered characters lose exactly those of `r`; with no empty range left, the set is valid |
| SetSpec.RemoveRangeLeavesEmpty | src/set/owned.rs:218-226 | removing a..=e from {a..=b, d..=e} leaves two empty ranges where nothing should remain |
| SetSpec.RemoveRangeTable | src/set/owned.rs:295-317 | the empty range, splitting b out of a..=c, and b..=d out of {a..=b, d..=e} give the table's results |
| SetSpec.RemoveRangeSetPanicsOnEmpty | src/set/mod.rs:232 | on an empty set `CharSet::remove_range` always panics |
| SetSpec.RemoveRangeSetPanicsInside | src/set/mod.rs:232-235 | removing c..=d from {a..=z} fails the `assert!` |
| SetSpec.RemoveRangeSetPanicsAbove | src/set/mod.rs:232 | removing x..=y from {a..=b} indexes past the end |
| SetSpec.RemoveRangeSetGap | src/set/mod.rs:223-236 | `CharSet::remove_range` as written (`SetSpec.RemoveRangeSetAsWritten`) removes b..=d from {a, c, e} and gives {a, e} |
| SetSpec.RemoveRangeSpecGap | src/set/owned.rs:176-227 | the corrected `remove_range` gives {a, e} there too |
| SetSpec.InsertRanges | src/set/owned.rs:230-234 | folding `insert_range` keeps the set valid |
| SetSpec.InsertRangesMembers | src/set/owned.rs:230-234 | the fold covers the old characters and those of every range, nothing else |
| SetSpec.InsertCharsMembers | src/set/owned.rs:236-240 | folding singleton inserts adds exactly the given characters |
| SetIters.FoldBackIsFoldLeftOfReverse | src/set/iter.rs:100-106 | `rfold` is `fold` over the reversed ranges |
| SetIters.RangeIter.Ranges | src/set/iter.rs:25-29 | a new iterator has every stored range still to yield, in stored order |
| SetIters.RangeIter.Len | src/set/iter.rs:39-44 | `len()` is the number of ranges still to come |
| SetIters.RangeIter.SizeHint | src/set/iter.rs:54-57 | the hint is exact in both bounds |
| SetIters.RangeIter.Next | src/set/iter.rs:49-52 | yields the front range and drops it; `None` once used up |
| SetIters.RangeIter.NextBack | src/set/iter.rs:95-98 | yields the back range and drops it; `None` once used up |
| SetIters.RangeIter.Nth | src/set/iter.rs:64-67 | yields the range `n` past the front and resumes after it; past the end yields `None` and is used up |
| SetIters.RangeIter.Fold | src/set/iter.rs:69-75 | combines the remaining ranges first to last |
| SetIters.RangeIter.RFold | src/set/iter.rs:100-106 | combines the remaining ranges last to first |
| SetIters.RangeIter.Position | src/set/iter.rs:77-83 | the index of the first range satisfying the predicate, the iterator left just past it; `None` when none does |
| SetIters.RangeIter.RPosition | src/set/iter.rs:85-91 | the index of the last range satisfying the predicate, the iterator left just before it; `None` when none does |
| SetIters.FlatChars | src/set/iter.rs:33 | flattening the remaining ranges yields their characters range by range |
| SetIters.SetChars | src/set/iter.rs:31-34 | `chars()` yields the characters of every stored range, `len()` of them |
| MapRefs.Empty | src/map/mod.rs:32-42 | no ranges and no values |
| MapRefs.EmptyMap | src/map/mod.rs:32-42 | the empty map is empty, has length 0, and `get` and `Index` find nothing |
| MapRefs.Search | src/map/mod.rs:59-67 | `Ok(i)` names a range holding `c`; over sorted ranges `Ok` iff some range holds `c` |
| MapRefs.Get | src/map/mod.rs:69-73 | a value is the one paired with a range holding `c`; over sorted ranges `None` iff no range holds `c` |
| MapRefs.GetAt | src/map/mod.rs:69-73 | over sorted ranges `get(c)` is the value paired with whichever range holds `c` |
| MapRefs.Contains | src/map/mod.rs:44-47 | over sorted ranges `contains(c)` iff some range holds `c` |
| MapRefs.ContainsIffGet | src/map/mod.rs:44-47 | `contains(c)` iff `get(c)` has a value |
| MapRefs.Len | src/map/mod.rs:49-52 | `len()` is the number of characters `chars()` yields |
| MapRefs.IsEmpty | src/map/mod.rs:54-57 | `is_empty()` iff no range is stored; over sorted ranges iff nothing is covered |
| MapRefs.Index | src/map/mod.rs:76-82 | `Index` gives `get`'s value, or fails with "no entry found for key" exactly when `get` finds none |
| MapIters.Zip | src/map/iter.rs:37-41 | the zip has `(ranges[i], values[i])` at every index both slices have |
| MapIters.Ranges | src/map/iter.rs:24-29 | the iterator yields the map's ranges in stored order |
| MapIters.MapChars | src/map/iter.rs:31-34 | `chars()` yields every covered character range by range, `len()` of them |
| MapIters.RangeValueIter.RangeValues | src/map/iter.rs:36-41 | a new iterator has the zip of ranges and values still to yield |
| MapIters.RangeValueIter.Len | src/map/iter.rs:72 | `len()` is the number of pairs still to come |
| MapIters.RangeValueIter.SizeHint | src/map/iter.rs:54-57 | the hint is exact in both bounds |
| MapIters.RangeValueIter.Next | src/map/iter.rs:49-52 | yields the front pair and drops it; `None` once used up |
| MapIters.RangeValueIter.NextBack | src/map/iter.rs:66-69 | yields the back pair and drops it; `None` once used up |
| MapIters.RangeValueIter.Nth | src/map/iter.rs:59-62 | yields the pair `n` past the front and resumes after it; past the end yields `None` and is used up |
| MapIters.RangeValuesAgreeWithGet | src/map/iter.rs:36-41 | over sorted ranges with enough values, every character of the `i`-th yielded range maps under `get` to the `i`-th yielded value |
| Tries.BitOfPack | src/trie/mod.rs:193-195 | reading bit `j` of the packed word gives the `j`-th bit collected (least significant first) |
| Tries.PackWord | src/trie/mod.rs:215-217 | 64 collected bits become one `u64` whose bit `j` is the `j`-th bit |
| Tries.Contains | src/trie/mod.rs:72-93 | `contains` panics (`None`) exactly when a data-dependent index is out of range; the first-stage indices are always in range |
| Tries.MaxByte | src/trie/mod.rs:118 | `max().unwrap()` is an element no other exceeds |
| Tries.FlattenMembers | src/trie/mod.rs:119 | the flattened rows hold exactly the rows' entries, 64 per row |
| Tries.OptimalInBounds | src/trie/mod.rs:118-132 | a trie that passes `assert_optimal` never panics in `contains` |
| Tries.ElemsCount | src/trie/mod.rs:147-152 | the `BTreeSet` of the leaves has as many elements as the leaves iff no leaf repeats |
| Tries.AssertOptimal | src/trie/mod.rs:112-153 | the loops mark every named leaf; the result is `Tries.OptimalVerdict`, the five checks in the source's order with their messages |
| Tries.MarkAll | src/trie/mod.rs:135-140 | each flag ends set iff it was set or its index is named |
| Tries.AsciiTrieContains | src/trie/mod.rs:279-289 | the ascii trie holds exactly the characters below 128 and never panics |
| Tries.AsciiTrieOptimal | src/trie/mod.rs:112-153 | the ascii trie passes `assert_optimal` |
| Tries.OptimalAllowsDuplicateRows | src/trie/mod.rs:127-132 | a trie storing the same row twice passes `assert_optimal` |
| TrieGen.IndexSet.New | src/trie/mod.rs:230 | an empty index set |
| TrieGen.IndexSet.InsertFull | src/trie/mod.rs:196 | `insert_full(k)` returns the index of `k`, appending it exactly when it is new; nothing else changes |
| TrieGen.ChunkBit | src/trie/mod.rs:189-195 | bit `j` of a chunk is the membership of code point `base + j`, surrogates counting as absent |
| TrieGen.Level1 | src/trie/mod.rs:176-181 | 32 words, bit `j` of word `k` the membership of code point `64k + j` |
| TrieGen.CollectChunk | src/trie/mod.rs:214-217 | collecting 64 membership bits gives the chunk |
| TrieGen.InternChunks | src/trie/mod.rs:192-197 | each recorded `u8` index names the leaf equal to its chunk; the new leaves are all named; appended to the indices recorded before, the indices stay numbered in order of first appearance; `Err` only when more than 256 leaves exist |
| TrieGen.NumberedStep | src/trie/mod.rs:196 | appending the index `insert_full` returns (an item already present, or the next new one) keeps first-appearance numbering |
| TrieGen.Level2 | src/trie/mod.rs:183-200 | 992 indices, entry `k` naming the chunk of code points `0x800 + 64k ..`; `Err` only past 256 leaves |
| TrieGen.Level3Block | src/trie/mod.rs:209-222 | one block's row of 64 leaf indices is interned and its row index recorded; `Err` only past 256 leaves or blocks |
| TrieGen.Level3 | src/trie/mod.rs:202-226 | 256 row indices, numbered in order of first appearance, and distinct rows, each row leading to the chunks of its blocks; the leaf indices met along the rows keep the first-appearance numbering; `Err` only past 256 leaves or blocks |
| TrieGen.TooManyLeaves | src/trie/mod.rs:196 | more than 256 interned leaves means more than 256 distinct chunks |
| TrieGen.TooManyBlocks | src/trie/mod.rs:221 | more than 256 interned rows means more than 256 distinct blocks |
| TrieGen.Level1Contains | src/trie/mod.rs:76-78 | below 0x800 `contains(c)` is bit `c % 64` of `level1[c / 64]`, which is `f(c)` |
| TrieGen.Level2Contains | src/trie/mod.rs:79-82 | from 0x800 to 0x10000 the leaf named by `level2` gives `f(c)` |
| TrieGen.Level3Contains | src/trie/mod.rs:83-88 | from 0x10000 on the leaf named by the row gives `f(c)` |
| TrieGen.RepresentsContains | src/trie/mod.rs:72-93 | tables that hold `f` answer `contains(c) == f(c)` for every character |
| TrieGen.TightIsOptimal | src/trie/mod.rs:112-153 | tables with every index in range, every leaf and row named and no duplicate leaf or row pass `assert_optimal` |
| TrieGen.OptimalLeafBound | src/trie/mod.rs:118-125 | a trie that holds `f` and passes `assert_optimal` exists only with at most 256 distinct chunks |
| TrieGen.OptimalBlockBound | src/trie/mod.rs:127-132 | likewise at most 256 distinct blocks |
| TrieGen.AssembledHolds | src/trie/mod.rs:228-239 | the assembled tables hold `f` and are tight, distinct rows included |
| TrieGen.NewWith | src/trie/mod.rs:162-240 | fails exactly when more than 256 leaves or rows are needed; otherwise `contains(c) == f(c)` for every character, `assert_optimal` passes, no leaf or row is stored twice, and leaves and rows are numbered in the order the generator first meets their chunks and blocks |
| TrieGen.AsciiGenerated | src/trie/mod.rs:253-276 | any tight tables that hold `is_ascii` are the tables the test `new_with_ascii` expects |
| TrieGen.AsciiTrieGenerated | src/trie/mod.rs:253-276 | those tables hold `is_ascii`, are tight and numbered in first-appearance order, so at most 256 leaves and rows are needed |
| TrieGen.NewWithAscii | src/trie/mod.rs:251-276 | `new_with(\|c\| c.is_ascii())` succeeds and returns exactly the expected tables |

## Left out

- The `rayon` adapters (src/range/par_iter.rs, src/set/par_iter.rs) are left out: they are concurrency over a foreign crate. The criterion benchmarks are left out too.
- `fmt::Debug` impls are left out: they only format.
- The derived `Ord`/`PartialOrd`/`Hash` of `CharSet` and `CharSetBuf` are left out: they are the standard library's lexicographic comparisons of a `Vec`.
- `Deref` from `CharSetBuf` to `CharSet` (src/set/owned.rs:21-27) is left out: it calls a `CharSet::from_raw` that the crate does not define. `CharSetBuf` gets its own search, identical to src/set/mod.rs:70-72.
- `CharSet::clear`, `Extend` and `FromIterator` (src/set/mod.rs:168-170, 239-266) are not modelled separately. They are the same one-line folds over `insert`/`insert_range` that are modelled for `CharSetBuf`.
- Token output of `new_with` (`quote!`, `proc_macro2`) is left out. `TrieGen.NewWith` returns the four tables as the `CharTrie` the emitted `CharTrie::from_raw(...)` expression evaluates to.
- The `assert_eq!` length checks inside `new_with` are not modelled as failures: the 64-bit chunks, the 992 entries, the 4096-bit blocks and the 256 rows hold by construction.
- `CharTrie::from_raw` and `CharMapRef::from_raw` are the datatype constructors themselves.
- `BitVec<LittleEndian, _>` is taken to put the `j`-th bit collected at bit `j` of its word, least significant first. The `u8` blocks of `level3` are regrouped into 64-bit words in the same order.
- `IndexSet` is modelled as a sequence with a linear "index of, else append". Hashing is left out.
- The membership closure `f` is a total function `Char -> bool`.
- `usize` and `u32` arithmetic is on unbounded integers. No length in the model can reach the machine limits that src/range/iter.rs:113 mentions.
- `debug_assert!`s are not modelled; the model follows release builds. In `CharSetBuf::remove_range` (src/set/owned.rs:201, 205, 209-210) the debug assertions would panic on some inputs that instead leave empty ranges in release builds.
- The `unreachable!()` branch of `CharTrie::contains` is not modelled: the `Char` type excludes it.
- A panic is an `Option`/`Result` error value or a `bool` out-parameter.
- CharSets.CharSet.RemoveRange: after a panic, the contract says nothing about the partly edited list, which unwinding would drop along with the set.
- MapRefs.Get: requires that `values` has an entry at the index the search finds; where it has none, the Rust slice index panics.
- MapRefs.Index: likewise, since it calls `get`.
- RangeLists.Search: the binary search is a recursive bisection. Over unsorted ranges, the index it finds need not be the one the standard library's `binary_search_by` would return. Over sorted ranges both find the one range that holds `c`.
- CharSetBufs.CharSetBuf.ExtendChars: proved only where `InsertsWork` holds, that is, where no step of the fold meets one of the shapes `insert` gets wrong (see Findings).
- CharSetBufs.FromChars: likewise proved only where `InsertsWork` holds.
- CharSetBufs.CharSetBuf.Insert: validity and membership are stated only away from the two shapes under Findings, where the code breaks them.
- CharSets.CharSet.Insert: likewise. `CharSet::remove` and `CharSet::remove_range` are proved correct only where they work, with counterexamples for the rest.
- `assert_optimal` checks the leaves but not the rows: `Tries.OptimalAllowsDuplicateRows` shows a trie with a repeated row that passes.

## Findings

| source | as written | input that shows it | evidently intended | confidence | as-written member | corrected member |
|---|---|---|---|---|---|---|
| src/set/owned.rs:78-81 | `insert` pushes a singleton at the end without merging it with the last range (also src/set/mod.rs:83-86) | insert 'c' into {a..=b} gives [a..=b, c..=c], two touching ranges | the one range a..=c | high; not executed | SetSpec.InsertAtEndMisses | SetSpec.InsertRangeValid |
| src/set/owned.rs:85-98 | `high` is read from the range above and written into the range below even when `c` does not touch the range above (also src/set/mod.rs:90-105) | insert 'b' into {a, e} gives [a..=e, e..=e]: c and d become members | {a..=b, e} | high; not executed | SetSpec.InsertLowerOnlyMisses | SetSpec.InsertRangeMembers |
| src/set/owned.rs:163-164 | `remove` at a range's high end rebuilds `low..=c`, the range it started from (also src/set/mod.rs:125-126) | remove 'c' from {a..=c} leaves {a..=c} | {a..=b} | high; not executed | SetSpec.RemoveHighEndMisses | SetSpec.RemoveCorrect |
| src/set/mod.rs:127-131 | `remove_at` in a range's interior keeps `c` in the lower part | remove 'b' from {a..=c} gives [a..=b, c..=c] | {a, c} | high; not executed | SetSpec.RemoveAtInteriorMisses | SetSpec.RemoveCorrect |
| src/set/owned.rs:218-226 | `remove_range` trims the first and last edited ranges without checking that anything is left of them | remove a..=e from {a..=b, d..=e} leaves [a..=`, f..=e], two empty ranges | the empty set | high; not executed | SetSpec.RemoveRangeLeavesEmpty | SetSpec.RemoveRangeValid |
| src/set/mod.rs:178-215 | `CharSet::insert_range` lacks the emptiness check that `CharSetBuf::insert_range` has | insert e..=a into {a..=c} stores the empty range e..=c | {a..=c} unchanged | high; not executed | SetSpec.InsertRangeUncheckedStoresEmpty | SetSpec.InsertRangeTableEmpty |
| src/set/mod.rs:232-235 | the loop of `CharSet::remove_range` asserts that every range it deletes starts above `r.low` | remove c..=d from {a..=z}: the first step leaves a..=c, which fails the `assert!` | {a..=b, e..=z} | high; not executed | SetSpec.RemoveRangeSetPanicsInside | SetSpec.RemoveRangeMembers |
| src/set/mod.rs:232 | the loop of `CharSet::remove_range` reads `ranges[idx]` without checking `idx` against the length | remove x..=y from {a..=b} indexes past the end | {a..=b} unchanged | high; not executed | SetSpec.RemoveRangeSetPanicsAbove | SetSpec.RemoveRangeMembers |
