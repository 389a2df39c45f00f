# Flow layout cache, modelled in Dafny

This project models `CacheHelper`, the size and line cache behind the flow
(wrap) layout manager. The cache keeps two structures:

- **Sizes.** A sparse map from item index to measured size. The width is
  `x` and the height is `y`. A key may also be stored with no size (a
  stored `null`).
- **Lines.** The lines laid out from those sizes. Each line records its
  item count, total width, maximum height and the index of the item that
  set that height.

Lines are built lazily. `refreshLineMap` resumes at the first item no line
holds and packs greedily until the first unmeasured item. Every operation
that changes sizes, except `clear`, first drops the line holding the first item it changes, and every later
line (only the last line when none holds it), and then changes the sizes
in place.

The project has three modules:

- `SizeMap` (`sizemap.dfy`): the size map. It gives every loop over the map
  a closed form and proves what those loops do.
- `Packing` (`packing.dfy`): lines, `addToLine` and the greedy packing
  loop written as a fold. It also has the line-index arithmetic behind the
  queries and the truncation done by invalidation.
- `Cache` (`cache.dfy`): the class `CacheHelper`. Its fields are
  `itemPerLine`, `contentAreaWidth`, `sizes` and `lines`. Every public
  operation is a method, and every loop of the source is a loop with
  invariants.

The class invariant `Valid()` is kept by every public operation. It
states two things:

- Every key is a non-negative index.
- The lines split a prefix of the contiguous measured prefix of the
  sizes, in order, into runs. A refresh extends them over the whole of it. Each line is the line built from its own run. No line
  exceeds the per-line cap. A line wider than the content area holds a
  single item.

So a line never survives a change to the sizes of its items.

`size()` of the sparse array is the number of stored keys, stored nulls
included. The source's loops use it as if it were the length of the
sequence, and the model reproduces this. `makeSpace` starts its shift at
`size() - 1` (CacheHelper.java:237). When there are holes, that is below
the highest key, so an entry can be overwritten; `SizeMap.MakeSpacePastHole`
shows this. The second loop of `remove` compares with `size() + actualCount`
(CacheHelper.java:67), so with a hole below `index` it stops early and
leaves later entries where they were; `SizeMap.RemovePastHole` shows
`remove(1, 1)` on `{1: s, 2: t}` leaving `t` at 2.

## Model

All source paths are under
`flowlayoutmanager/src/main/java/com/xiaofeng/flowlayoutmanager/cache/`.

| member | source | states |
|---|---|---|
| Cache.CacheHelper.constructor | flowlayoutmanager/src/main/java/com/xiaofeng/flowlayoutmanager/cache/CacheHelper.java:18-23 | a new cache has the given cap and width, no sizes, no lines, and is valid |
| Cache.CacheHelper.Add | flowlayoutmanager/src/main/java/com/xiaofeng/flowlayoutmanager/cache/CacheHelper.java:25-35 | when active, the lines are the refreshed lines cut before the line holding startIndex, and the sizes are the old ones with room opened at startIndex and the new sizes stored there; inactive, nothing changes; the cache stays valid |
| Cache.CacheHelper.Insert | flowlayoutmanager/src/main/java/com/xiaofeng/flowlayoutmanager/cache/CacheHelper.java:30-34 | makeSpace followed by the storing loop yields InsertResult |
| Cache.CacheHelper.AddUnmeasured | flowlayoutmanager/src/main/java/com/xiaofeng/flowlayoutmanager/cache/CacheHelper.java:37-43 | when active, lines cut at startIndex and the sizes shifted by makeSpace, leaving count holes; inactive, nothing changes; stays valid |
| Cache.CacheHelper.InvalidSizes | flowlayoutmanager/src/main/java/com/xiaofeng/flowlayoutmanager/cache/CacheHelper.java:45-54 | when active, lines cut at index and the clamped range index .. index + actualCount - 1 dropped, with no shift; stays valid |
| Cache.CacheHelper.Remove | flowlayoutmanager/src/main/java/com/xiaofeng/flowlayoutmanager/cache/CacheHelper.java:56-72 | when active, lines cut at index and the sizes related to the old ones by RemovedBy: clamped range dropped, then the later entries moved down until the loop's size()-based guard fails; stays valid |
| Cache.CacheHelper.Delete | flowlayoutmanager/src/main/java/com/xiaofeng/flowlayoutmanager/cache/CacheHelper.java:61-71 | the two loops of remove, for any index (including past size()), yield a map related to the old one by RemovedBy |
| Cache.CacheHelper.RemoveEntries | flowlayoutmanager/src/main/java/com/xiaofeng/flowlayoutmanager/cache/CacheHelper.java:62-64 | the removal loop leaves exactly the old map minus the keys index .. index + a - 1 (nothing when a <= 0) |
| Cache.CacheHelper.ShiftDown | flowlayoutmanager/src/main/java/com/xiaofeng/flowlayoutmanager/cache/CacheHelper.java:67-71 | the shifting loop terminates, stops at the first index where its guard fails, and leaves the closed-form state for that index |
| Cache.CacheHelper.MoveDown | flowlayoutmanager/src/main/java/com/xiaofeng/flowlayoutmanager/cache/CacheHelper.java:68-70 | one iteration (get, remove, put) advances the closed-form state by one index, before the stopping index |
| Cache.CacheHelper.SetItem | flowlayoutmanager/src/main/java/com/xiaofeng/flowlayoutmanager/cache/CacheHelper.java:74-88 | when active the size at index becomes newSize; the lines are cut at index exactly when the cached size was not already newSize, otherwise they are untouched (not even refreshed); stays valid |
| Cache.CacheHelper.Put | flowlayoutmanager/src/main/java/com/xiaofeng/flowlayoutmanager/cache/CacheHelper.java:81-82 | invalidate then put: lines cut at index and the size stored; stays valid |
| Cache.CacheHelper.Move | flowlayoutmanager/src/main/java/com/xiaofeng/flowlayoutmanager/cache/CacheHelper.java:93-125 | when active, lines cut at min(from, to) and the sizes equal MoveResult (block at its new place, the entries between shifted by count); stays valid |
| Cache.CacheHelper.Relocate | flowlayoutmanager/src/main/java/com/xiaofeng/flowlayoutmanager/cache/CacheHelper.java:98-124 | copying the block, shifting and storing the block yields MoveResult |
| Cache.CacheHelper.ReadBlock | flowlayoutmanager/src/main/java/com/xiaofeng/flowlayoutmanager/cache/CacheHelper.java:98-101 | a fresh array holding the readings of from .. from + count - 1 |
| Cache.CacheHelper.ShiftBetween | flowlayoutmanager/src/main/java/com/xiaofeng/flowlayoutmanager/cache/CacheHelper.java:102-121 | the shifting loop, in both directions, leaves the entries between the two places moved by count, and the block is then stored at to (toward the front) or to - count (toward the back) |
| Cache.CacheHelper.CopyOver | flowlayoutmanager/src/main/java/com/xiaofeng/flowlayoutmanager/cache/CacheHelper.java:113-115 | one put(shiftIndex - step * count, get(shiftIndex)) advances the shifting state by one step |
| Cache.CacheHelper.Store | flowlayoutmanager/src/main/java/com/xiaofeng/flowlayoutmanager/cache/CacheHelper.java:122-124 | the storing loop puts vals[j] at s + j and changes nothing else |
| Cache.CacheHelper.GetLineMap | flowlayoutmanager/src/main/java/com/xiaofeng/flowlayoutmanager/cache/CacheHelper.java:127-137 | after a refresh, a fresh array with each line's item count; inactive, an empty array |
| Cache.CacheHelper.ItemCounts | flowlayoutmanager/src/main/java/com/xiaofeng/flowlayoutmanager/cache/CacheHelper.java:132-135 | the array has one entry per line, holding that line's item count |
| Cache.CacheHelper.ItemLineIndex | flowlayoutmanager/src/main/java/com/xiaofeng/flowlayoutmanager/cache/CacheHelper.java:139-152 | after a refresh, the first line whose running count reaches itemIndex + 1, or NotFound; inactive, NotFound |
| Cache.CacheHelper.ScanLines | flowlayoutmanager/src/main/java/com/xiaofeng/flowlayoutmanager/cache/CacheHelper.java:144-151 | the scan returns LineIndexOf, whose meaning LineIndexOfMeaning states |
| Cache.CacheHelper.ContainingLine | flowlayoutmanager/src/main/java/com/xiaofeng/flowlayoutmanager/cache/CacheHelper.java:154-160 | after a refresh, the line holding itemIndex, or None when no line does |
| Cache.CacheHelper.FirstItemIndex | flowlayoutmanager/src/main/java/com/xiaofeng/flowlayoutmanager/cache/CacheHelper.java:162-172 | after a refresh, the number of items held by the lines before lineIndex (0 for lineIndex <= 0); inactive, NotFound |
| Cache.CacheHelper.ItemsBefore | flowlayoutmanager/src/main/java/com/xiaofeng/flowlayoutmanager/cache/CacheHelper.java:167-171 | the loop sums the item counts of lines 0 .. lineIndex - 1 |
| Cache.CacheHelper.GetLine | flowlayoutmanager/src/main/java/com/xiaofeng/flowlayoutmanager/cache/CacheHelper.java:174-180 | after a refresh, the line at lineIndex, or None out of range or when inactive |
| Cache.CacheHelper.HasPreviousLineCached | flowlayoutmanager/src/main/java/com/xiaofeng/flowlayoutmanager/cache/CacheHelper.java:182-196 | true exactly when active and the item's line is found with index > 0 |
| Cache.CacheHelper.HasNextLineCached | flowlayoutmanager/src/main/java/com/xiaofeng/flowlayoutmanager/cache/CacheHelper.java:198-208 | true exactly when active, the item's line is found and a line follows it |
| Cache.CacheHelper.Active | flowlayoutmanager/src/main/java/com/xiaofeng/flowlayoutmanager/cache/CacheHelper.java:350-352 | valid(): true exactly when the content area width is positive; every public operation except `clear` and `contentAreaWidth(int)` is a no-op, or answers empty, when it is false |
| Cache.CacheHelper.Clear | flowlayoutmanager/src/main/java/com/xiaofeng/flowlayoutmanager/cache/CacheHelper.java:210-213 | no sizes and no lines afterwards, and valid |
| Cache.CacheHelper.MakeSpace | flowlayoutmanager/src/main/java/com/xiaofeng/flowlayoutmanager/cache/CacheHelper.java:236-243 | the two loops of makeSpace yield MakeSpaceResult |
| Cache.CacheHelper.ShiftUp | flowlayoutmanager/src/main/java/com/xiaofeng/flowlayoutmanager/cache/CacheHelper.java:237-239 | the descending loop copies every entry startIndex .. size() - 1 up by count, reading before overwriting |
| Cache.CacheHelper.RefreshLineMap | flowlayoutmanager/src/main/java/com/xiaofeng/flowlayoutmanager/cache/CacheHelper.java:248-295 | when active, the loop appends exactly Pack of the measured run from the start index; afterwards the lines hold the whole measured prefix, stay valid, and a second refresh adds nothing |
| Cache.CacheHelper.InvalidateLineMapAfter | flowlayoutmanager/src/main/java/com/xiaofeng/flowlayoutmanager/cache/CacheHelper.java:320-331 | after refreshing, keeps the lines before the one holding itemIndex (all but the last when none holds it), and what is kept holds no item from itemIndex on |
| Cache.CacheHelper.RemoveLinesFrom | flowlayoutmanager/src/main/java/com/xiaofeng/flowlayoutmanager/cache/CacheHelper.java:326-330 | the removal loop leaves exactly the lines before l |
| Cache.CacheHelper.RefreshLineMapStartIndex | flowlayoutmanager/src/main/java/com/xiaofeng/flowlayoutmanager/cache/CacheHelper.java:333-342 | the summed item counts of the lines, or NotFound when they reach size() |
| Cache.CacheHelper.SetContentAreaWidth | flowlayoutmanager/src/main/java/com/xiaofeng/flowlayoutmanager/cache/CacheHelper.java:344-348 | the width is set, the lines are repacked from nothing, and the cache stays valid |
| Cache.LineAt | flowlayoutmanager/src/main/java/com/xiaofeng/flowlayoutmanager/cache/CacheHelper.java:179 | lineMap.get(l, null) finds a line exactly for 0 <= l < the number of lines, and it is line l |
| Cache.RefreshMeaning | flowlayoutmanager/src/main/java/com/xiaofeng/flowlayoutmanager/cache/CacheHelper.java:248-295 | a refresh of sound lines keeps them sound, lays out the measured prefix up to the first hole, and is idempotent |
| Cache.RefreshNothing | flowlayoutmanager/src/main/java/com/xiaofeng/flowlayoutmanager/cache/CacheHelper.java:338-340 | when the lines already hold size() items, the refresh adds nothing and the lines hold the whole measured prefix |
| Cache.SoundPrefix | flowlayoutmanager/src/main/java/com/xiaofeng/flowlayoutmanager/cache/CacheHelper.java:320-331 | any prefix of sound lines is sound, so invalidation keeps the invariant |
| Cache.SoundFrame | flowlayoutmanager/src/main/java/com/xiaofeng/flowlayoutmanager/cache/CacheHelper.java:29-30 | sound lines stay sound under any change that keeps every size below the first item they do not hold, which is why every mutator invalidates first |
| Cache.InsertSound | flowlayoutmanager/src/main/java/com/xiaofeng/flowlayoutmanager/cache/CacheHelper.java:29-34 | add keeps lines holding no item from startIndex on sound, and the keys bounded |
| Cache.MakeSpaceSound | flowlayoutmanager/src/main/java/com/xiaofeng/flowlayoutmanager/cache/CacheHelper.java:41-42 | add(startIndex, count) keeps such lines sound and the keys bounded |
| Cache.RemoveRangeSound | flowlayoutmanager/src/main/java/com/xiaofeng/flowlayoutmanager/cache/CacheHelper.java:49-53 | invalidSizes keeps lines holding no item from index on sound |
| Cache.RemovedSound | flowlayoutmanager/src/main/java/com/xiaofeng/flowlayoutmanager/cache/CacheHelper.java:60-71 | remove keeps lines holding no item from index on sound, keys below max(bound, index) |
| Cache.PutSound | flowlayoutmanager/src/main/java/com/xiaofeng/flowlayoutmanager/cache/CacheHelper.java:81-82 | storing at index keeps such lines sound |
| Cache.MoveSound | flowlayoutmanager/src/main/java/com/xiaofeng/flowlayoutmanager/cache/CacheHelper.java:97-124 | move keeps lines holding no item from min(from, to) on sound |
| Packing.AddToLine | flowlayoutmanager/src/main/java/com/xiaofeng/flowlayoutmanager/cache/CacheHelper.java:300-307 | one addToLine step: one more item, the item's width added, the height raised to the item's when taller, and maxHeightIndex moved to the new item when its height is at least the old maximum, so ties go to the later item |
| Packing.LineOfMeaning | flowlayoutmanager/src/main/java/com/xiaofeng/flowlayoutmanager/cache/CacheHelper.java:300-307 | repeated addToLine counts the items, sums their widths, keeps the tallest height (at least 0) and the index of the last item of that height |
| Packing.TieGoesToLaterItem | flowlayoutmanager/src/main/java/com/xiaofeng/flowlayoutmanager/cache/CacheHelper.java:303-306 | heights 3, 5, 5, 2: maxHeight 5 and maxHeightIndex at the second 5 |
| Packing.FoldToNext | flowlayoutmanager/src/main/java/com/xiaofeng/flowlayoutmanager/cache/CacheHelper.java:260-288 | one loop iteration (the width test, the cap test, the three branches) is one Step of the fold |
| Packing.PackSegments | flowlayoutmanager/src/main/java/com/xiaofeng/flowlayoutmanager/cache/CacheHelper.java:259-294 | the packed lines split the items, in order, into runs, each line built from its run, so they hold every item exactly once |
| Packing.PackFits | flowlayoutmanager/src/main/java/com/xiaofeng/flowlayoutmanager/cache/CacheHelper.java:262-286 | no packed line holds more than itemPerLine items (when positive), and a line wider than the area holds one item |
| Packing.PackBreaks | flowlayoutmanager/src/main/java/com/xiaofeng/flowlayoutmanager/cache/CacheHelper.java:262-286 | greedy: each line but the last was closed only because the next item would overflow its width or its cap |
| Packing.PackEmptyFirst | flowlayoutmanager/src/main/java/com/xiaofeng/flowlayoutmanager/cache/CacheHelper.java:279-286 | a zero-count line is stored first exactly when the first item alone is wider than the area; no other packed line is empty |
| Packing.PackExampleWide | flowlayoutmanager/src/main/java/com/xiaofeng/flowlayoutmanager/cache/CacheHelper.java:259-294 | widths 40, 40, 40, 30 at width 100 pack into two lines of two |
| Packing.PackExampleNarrow | flowlayoutmanager/src/main/java/com/xiaofeng/flowlayoutmanager/cache/CacheHelper.java:344-348 | the same widths at width 70 pack into lines of 1, 1 and 2 |
| Packing.PackExampleOverWide | flowlayoutmanager/src/main/java/com/xiaofeng/flowlayoutmanager/cache/CacheHelper.java:279-286 | a first item of width 120 at width 100 yields an empty line, then a line per item |
| Packing.LineIndexOf | flowlayoutmanager/src/main/java/com/xiaofeng/flowlayoutmanager/cache/CacheHelper.java:144-151 | the answer is NotFound or a valid line index |
| Packing.LineIndexOfMeaning | flowlayoutmanager/src/main/java/com/xiaofeng/flowlayoutmanager/cache/CacheHelper.java:144-151 | the found line is the first whose running count passes the item; NotFound exactly when no line's does |
| Packing.LineIndexOfPrefix | flowlayoutmanager/src/main/java/com/xiaofeng/flowlayoutmanager/cache/CacheHelper.java:147-149 | the early return is sound: once a prefix holds the item, more lines do not change the answer |
| Packing.TruncatedMeaning | flowlayoutmanager/src/main/java/com/xiaofeng/flowlayoutmanager/cache/CacheHelper.java:320-331 | minimal invalidation: a prefix holding no item from i on, one line short of holding i when some line does, all but the last line otherwise |
| SizeMap.ActualCount | flowlayoutmanager/src/main/java/com/xiaofeng/flowlayoutmanager/cache/CacheHelper.java:312-314 | the clamped count is at most count and at most size - index, and equals one of them |
| SizeMap.Measured | flowlayoutmanager/src/main/java/com/xiaofeng/flowlayoutmanager/cache/CacheHelper.java:32-33 | the varargs sizes as stored values, one per item, in order |
| SizeMap.Block | flowlayoutmanager/src/main/java/com/xiaofeng/flowlayoutmanager/cache/CacheHelper.java:98-101 | the copied block holds the readings of from .. from + count - 1 |
| SizeMap.MakeSpaceGet | flowlayoutmanager/src/main/java/com/xiaofeng/flowlayoutmanager/cache/CacheHelper.java:236-243 | after makeSpace: holes at s .. s + c - 1, entries s .. size() - 1 read c places up, the rest unchanged |
| SizeMap.MakeSpaceDense | flowlayoutmanager/src/main/java/com/xiaofeng/flowlayoutmanager/cache/CacheHelper.java:236-243 | on a map without holes, makeSpace keeps keys below s, moves every later one up by c and leaves c holes |
| SizeMap.MakeSpacePastHole | flowlayoutmanager/src/main/java/com/xiaofeng/flowlayoutmanager/cache/CacheHelper.java:237-238 | with a hole, the size()-based loop overwrites an entry: sizes at 0 and 2, makeSpace(0, 1) loses the size at 2 |
| SizeMap.RemovePastHole | flowlayoutmanager/src/main/java/com/xiaofeng/flowlayoutmanager/cache/CacheHelper.java:66-71 | with no entry at 0, the size()-based guard stops remove(1, 1) on {1: s, 2: t} before any shift, leaving t at 2 and a hole at 1 |
| SizeMap.InsertGet | flowlayoutmanager/src/main/java/com/xiaofeng/flowlayoutmanager/cache/CacheHelper.java:25-35 | after add: the new sizes at s .. s + n - 1, the shifted range n places up, the rest unchanged |
| SizeMap.InsertDense | flowlayoutmanager/src/main/java/com/xiaofeng/flowlayoutmanager/cache/CacheHelper.java:25-35 | on a map without holes, add yields a map without holes n longer, with the new sizes inserted at s |
| SizeMap.RemoveRangeGet | flowlayoutmanager/src/main/java/com/xiaofeng/flowlayoutmanager/cache/CacheHelper.java:45-54 | after invalidSizes: holes in the range, every other reading unchanged |
| SizeMap.RemoveDense | flowlayoutmanager/src/main/java/com/xiaofeng/flowlayoutmanager/cache/CacheHelper.java:56-72 | on a map without holes, remove keeps entries before index, moves every later one down by the clamped count, and leaves no hole |
| SizeMap.ShiftDownStopsUnique | flowlayoutmanager/src/main/java/com/xiaofeng/flowlayoutmanager/cache/CacheHelper.java:67 | the second loop of remove has one stopping index, so RemovedBy determines the result |
| SizeMap.ShiftDownStopFrom | flowlayoutmanager/src/main/java/com/xiaofeng/flowlayoutmanager/cache/CacheHelper.java:67 | the second loop of remove stops: a stopping index exists when the keys are bounded |
| SizeMap.MoveGet | flowlayoutmanager/src/main/java/com/xiaofeng/flowlayoutmanager/cache/CacheHelper.java:93-125 | after move, each index reads the size of its source index: the block lands at its new place and the entries between shift by count |
| SizeMap.MoveByLoops | flowlayoutmanager/src/main/java/com/xiaofeng/flowlayoutmanager/cache/CacheHelper.java:98-124 | the copy, shift and store loops together equal MoveResult, in both directions |
| SizeMap.MoveFrontRoundTrip | flowlayoutmanager/src/main/java/com/xiaofeng/flowlayoutmanager/cache/CacheHelper.java:93-125 | a move toward the front followed by the move back restores every reading |
| SizeMap.MoveBackRoundTrip | flowlayoutmanager/src/main/java/com/xiaofeng/flowlayoutmanager/cache/CacheHelper.java:93-125 | a move toward the back followed by the move back restores every reading |
| SizeMap.MakeSpaceFrame | flowlayoutmanager/src/main/java/com/xiaofeng/flowlayoutmanager/cache/CacheHelper.java:236-243 | makeSpace keeps every reading below s and bounds the keys |
| SizeMap.RemoveFrame | flowlayoutmanager/src/main/java/com/xiaofeng/flowlayoutmanager/cache/CacheHelper.java:56-72 | remove keeps every reading below index and bounds the keys |
| SizeMap.MoveFrame | flowlayoutmanager/src/main/java/com/xiaofeng/flowlayoutmanager/cache/CacheHelper.java:93-125 | move keeps every reading below both from and to and bounds the keys |

## Left out

- `dumpCache` (CacheHelper.java:215-230) builds a diagnostic string from `Point.toString` and `Line.toString`. Neither is part of this model.
- `SparseArray` is a map. Its binary search and compaction are not modelled, and `size()` is the number of stored keys.
- `FlowLayoutOptions` supplies only `itemsPerLine`, which the constructor takes directly.
- Cache.CacheHelper.HasNextLineCached: reads "a line is stored at lineIndex + 1" for `!get(lineIndex + 1, EMPTY_LINE).equals(EMPTY_LINE)`. `Line.equals` is not part of this model. The two agree when equality is identity. With field equality, a stored zero-count line would read as absent in the source.
- Cache.CacheHelper.RemoveLinesFrom: the source removes key l, then l + 1 and so on. The model drops the last line until none is stored at l. The keys are dense, so both end with exactly the lines before l, but the order of removal differs.
- Java `int` overflow of indices and accumulated widths is not modelled. Integers are unbounded.
- Null sizes passed to `add(startIndex, Point...)` or `setItem` are not modelled. Sizes are values.
- Arguments the source leaves unchecked are preconditions, not behaviour. This covers negative indices and negative counts for `add`, `remove` and `move`. It also covers `move` with an overlapping backward range or `from == to`, and `firstItemIndex` with a `lineIndex` past the refreshed lines, which throws a `NullPointerException` in the source.
- `remove` with `index > size()` is modelled: nothing is removed and the second loop does not run. `invalidSizes` accepts any count.
- The class carries a ghost bound on its keys. Removal's second loop needs it to terminate. The source has no such field.
- SizeMap.MoveFrontRoundTrip and SizeMap.MoveBackRoundTrip compare readings, not maps. `move` stores explicit nulls for holes in the block and the shifted range, so the key set can grow while every reading is restored.
- Greedy line breaks (`Packing.PackBreaks`) are proved for one packing run. After an invalidation, the line before the restart stays closed even when the next item would now fit. So the invariant states that the lines are well packed, not that they equal a single packing of the whole prefix.
