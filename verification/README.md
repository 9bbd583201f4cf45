# clay4j sizing core in Dafny

This project models the sizing half of clay4j, a Java port of the Clay
immediate-mode layout engine. The model covers the following.

- **Sizing policies.** `ISizing` is a closed datatype (`Sizings`), and its
  constructors normalise their inputs. `Layout_` and `Padding` live in
  `Layouts`, together with the priority sort of a layout's configurations and
  the first-match configuration lookup.
- **Building the element tree.** Elements live in an arena (`Elements.Arena`)
  and are referred to by index. `Open` is the `Element_` constructor: it
  derives the flags and shares the parent's `parentElements` list. `Close` is
  `Element_.close`:
  - it folds the children's sizes into the element's own size and minimum
    size along the layout direction;
  - it clamps to the sizing's range, or zeroes a percentage axis;
  - it applies the aspect ratio;
  - it attaches the element to its parent.
- **The axis solver** (`Leveling`, `AxisSolver`), which is
  `LayoutContext.sizeContainersAlongAxis`. It adjusts each root, expands
  percentage children, then runs two leveling loops. The shrink loop cuts the
  largest children, never below a minimum. The grow loop raises the smallest
  GROW children towards the runner-up, never above a maximum. The shrink
  loop's scan for the runner-up comes in two forms, selected by a flag
  `asWritten` that every method of the pass takes. With `asWritten` it folds
  the runner-up with `Math.min` exactly as the source does. Without it, it
  takes the maximum, as evidently intended (see "## Findings"). The
  contracts of the pass hold for both.
- **Text measurement** (`TextMeasure`). This is the word scan of
  `LayoutContext.measuredText`. The font is a caller-supplied function. The
  measurement also comes as written and corrected (`MeasureAsWritten` and
  `Measure`), and the cache and `finalize` take the same `asWritten` flag.
- **The text-measurement cache** (`TextCache`). Entries are keyed by the
  32-bit hash of text, font id and font size. The cache holds at most 32
  entries and evicts the least recently used one.
- **The context registry** (`LayoutContext`): `reset`, `addRoot`, `addText`,
  `setAttachId` and `finalize`.
- **Smaller pieces:** the geometry predicates (`BoundingBox.isInside`,
  `ElementContext.isOffscreen`, in `Geometry`) and the wrapped-line container
  `TextElementData` (`TextData`).

**How the Java is represented.**
- Sizes are `real`, and Java `int` paddings and gaps are converted exactly.
  The float tolerance `0.01` and `Float.MAX_VALUE` are constants in `Numbers`.
- The integer hash wraps modulo 2^32 explicitly (`Numbers.Wrap32`).
- The wall clock is a `time` parameter.
- The font backend (`IFont.calculateSize`) is a deterministic function
  parameter.
- The `minMax()` and `percentage()` accessors are the datatype's
  destructors. They are only defined on the matching variant.
- Every Java exception becomes the `Failure` case of a `Result`, or the
  error component of a pair.

## Model

| member | source | states |
|---|---|---|
| Numbers.Clamp | src/main/java/me/lauriichan/clay4j/Element_.java:157-158 | `Math.min(Math.max(v, lo), hi)` never exceeds `hi`. It keeps a value already in range, lifts a value below the range to `lo`, and cuts one above it to `hi`. An inverted range (`lo > hi`) yields `hi` |
| Numbers.ClampIdempotent | src/main/java/me/lauriichan/clay4j/Element_.java:155-169 | clamping a clamped size again changes nothing |
| Numbers.Wrap32 | src/main/java/me/lauriichan/clay4j/LayoutContext.java:37-39 | Java `int` arithmetic: the result is congruent to the exact value modulo 2^32, and it is the exact value when that fits in 32 bits |
| Numbers.SumUpdate | src/main/java/me/lauriichan/clay4j/LayoutContext.java:355 | replacing one child's size changes the total by exactly the difference booked against `sizeToDistribute` |
| Sizings.TypeOf | src/main/java/me/lauriichan/clay4j/ISizing.java:64-86 | `type()` is PERCENTAGE exactly for a percentage sizing. It is FIXED, GROW or FIT exactly for a min/max sizing with that behaviour |
| Sizings.NewMinMax | src/main/java/me/lauriichan/clay4j/ISizing.java:58-62 | the `MinMax` constructor raises a negative min or max to 0 and keeps a non-negative one. It does not enforce `min <= max` |
| Sizings.NewPercentage | src/main/java/me/lauriichan/clay4j/ISizing.java:80-82 | the `Percentage` constructor clamps its value into [0, 1] |
| Sizings.ConstructorsFixValidValues | src/main/java/me/lauriichan/clay4j/ISizing.java:58-82 | both constructors leave an already-normalised sizing unchanged |
| Sizings.PercentageOf | src/main/java/me/lauriichan/clay4j/ISizing.java:16-18 | `percentage(p)` is of type PERCENTAGE. It stores `p` when `p` is in [0, 1], 0 when `p` is below 0, and 1 when it is above 1 |
| Sizings.FixedSize | src/main/java/me/lauriichan/clay4j/ISizing.java:20-22 | `fixed(v)` is FIXED with `min = max = max(v, 0)` |
| Sizings.GrowAny | src/main/java/me/lauriichan/clay4j/ISizing.java:24-26 | `grow()` is GROW over [0, Float.MAX_VALUE] |
| Sizings.GrowExactly | src/main/java/me/lauriichan/clay4j/ISizing.java:28-30 | `grow(v)` is GROW with `min = max`. Both are `v` when `v >= 0`, and 0 otherwise |
| Sizings.GrowBetween | src/main/java/me/lauriichan/clay4j/ISizing.java:32-34 | `grow(min, max)` is GROW. It keeps each non-negative bound and raises a negative one to 0 |
| Sizings.FitAny | src/main/java/me/lauriichan/clay4j/ISizing.java:36-38 | `fit()` is FIT over [0, Float.MAX_VALUE] |
| Sizings.FitExactly | src/main/java/me/lauriichan/clay4j/ISizing.java:40-42 | `fit(v)` is FIT with `min = max`. Both are `v` when `v >= 0`, and 0 otherwise |
| Sizings.FitBetween | src/main/java/me/lauriichan/clay4j/ISizing.java:44-46 | `fit(min, max)` is FIT. It keeps each non-negative bound and raises a negative one to 0 |
| Layouts.UniformPadding | src/main/java/me/lauriichan/clay4j/Layout_.java:70-72 | `Padding(all)` puts `all` on each of the four sides |
| Layouts.InsertionSortCorrect | src/main/java/me/lauriichan/clay4j/Layout_.java:46 | the priority sort yields an ascending order that is a permutation of its input. For every priority, the configurations of that priority keep their relative order (stability) |
| Layouts.Sort | src/main/java/me/lauriichan/clay4j/Layout_.java:41-48 | a null list becomes the empty list. Any other list comes back sorted by priority, as a permutation, and stable |
| Layouts.InsertionSortOfSorted | src/main/java/me/lauriichan/clay4j/Layout_.java:46 | a list already in priority order is returned unchanged |
| Layouts.SortIdempotent | src/main/java/me/lauriichan/clay4j/Layout_.java:41-48 | sorting a sorted configuration list again changes nothing |
| Layouts.FirstIndexOfKind | src/main/java/me/lauriichan/clay4j/Layout_.java:50-57 | the lookup returns the first position holding a configuration of the requested kind, or nothing when no later position holds one |
| Layouts.ConfigOf | src/main/java/me/lauriichan/clay4j/Layout_.java:50-57 | `config(type)` is empty exactly when no configuration has that kind. Otherwise it is the first configuration in list order that has it |
| Layouts.DefaultLayout | src/main/java/me/lauriichan/clay4j/Layout_.java:18-39 | the builder defaults are: fit over [0, Float.MAX_VALUE] on both axes, padding 4 on every side, gap 4, top/left alignment, left-to-right, no background and no configurations |
| Geometry.CornersInside | src/main/java/me/lauriichan/clay4j/BoundingBox.java:31-33 | `isInside` is inclusive on every edge, so all four corners of a box with non-negative width and height are inside it |
| Geometry.OutsideBeyondEdges | src/main/java/me/lauriichan/clay4j/BoundingBox.java:32 | a point left of, above, right of or below the box is not inside |
| Geometry.NegativeBoxIsEmpty | src/main/java/me/lauriichan/clay4j/BoundingBox.java:32 | a box with negative width or height contains no point |
| Geometry.NewElementContext | src/main/java/me/lauriichan/clay4j/ElementContext.java:15-19 | a new element context keeps the given layout dimensions. Its other fields start at their Java defaults |
| Geometry.SetEmitRectangle | src/main/java/me/lauriichan/clay4j/ElementContext.java:49-55 | reading `emitRectangle` after setting it gives the value set. Every other field is unchanged |
| Geometry.TouchingEdgesIsOnscreen | src/main/java/me/lauriichan/clay4j/ElementContext.java:25-27 | a box exactly touching the right/bottom edge, or ending exactly at 0, is on-screen |
| Geometry.OffscreenIffDisjoint | src/main/java/me/lauriichan/clay4j/ElementContext.java:21-27 | the bounding-box overload calls a box offscreen exactly when the box and the layout area have no point in common |
| TextData.NewTextElementData | src/main/java/me/lauriichan/clay4j/data/TextElementData.java:17-20 | construction stores the preferred dimensions and starts with no lines |
| TextData.Add | src/main/java/me/lauriichan/clay4j/data/TextElementData.java:22-24 | `add` appends the line at the end and keeps the earlier lines and the preferred dimensions |
| TextData.Reset | src/main/java/me/lauriichan/clay4j/data/TextElementData.java:26-28 | `reset` empties the lines and keeps the preferred dimensions |
| TextData.ApplyOps | src/main/java/me/lauriichan/clay4j/data/TextElementData.java:12-28 | after any sequence of `add`/`reset` calls, the preferred dimensions are still those given at construction. The lines are exactly those added since the last reset, preceded by the original lines when there was no reset |
| TextMeasure.StepSpace | src/main/java/me/lauriichan/clay4j/LayoutContext.java:133-157 | a space ends the pending word, which is recorded with its trailing space (length + 1). Its width is the word's width plus one space width, and that width is added to the line |
| TextMeasure.StepNewline | src/main/java/me/lauriichan/clay4j/LayoutContext.java:133-157 | a newline records a non-empty pending word without the newline. It then records a zero-length, zero-width word at the next index, closes the line into the widest line so far, and sets `containsNewLines` |
| TextMeasure.ScanFromKeepsInv | src/main/java/me/lauriichan/clay4j/LayoutContext.java:131-158 | the scan loop keeps its invariant: the recorded words cut exactly the scanned prefix and the newline flag tracks it; for the corrected measurement the running widths and heights also agree with the reference definitions |
| TextMeasure.TrailingWord | src/main/java/me/lauriichan/clay4j/LayoutContext.java:159-161 | text after the last separator becomes one final word without a trailing space, and it completes the cut of the whole text |
| TextMeasure.Segmentation | src/main/java/me/lauriichan/clay4j/LayoutContext.java:131-165 | every recorded `[start, start+length)` lies inside the text. Each word is a run without separators, followed by at most one space or forming a newline marker. Concatenated, the words give back the text exactly. `containsNewLines` is set exactly when the text contains a newline |
| TextMeasure.MeasureMatchesReferences | src/main/java/me/lauriichan/clay4j/LayoutContext.java:131-169 | for the corrected measurement: each word's width is its core's width, plus a space width when it ends in a space. `minWidth` is the widest single word and `height` the tallest. `width` is the widest line less `letterSpacing` |
| TextMeasure.VariantsAgreeOnCut | src/main/java/me/lauriichan/clay4j/LayoutContext.java:131-165 | the measurement as written and the corrected one record the same word positions and the same newline flag |
| TextMeasure.StaleDimensionsWidenTheLine | src/main/java/me/lauriichan/clay4j/LayoutContext.java:134-150 | as written, the text "a \n" in a one-unit monospace font reports width 4 and minWidth 2. Its only line is 2 units wide and its widest word 1 unit |
| TextMeasure.StaleDimensionsCorrected | src/main/java/me/lauriichan/clay4j/LayoutContext.java:134-150 | the corrected measurement of "a \n" reports width 2 and minWidth 1 |
| TextMeasure.TrailingHeightFromWidth | src/main/java/me/lauriichan/clay4j/LayoutContext.java:159-165 | as written, the trailing word "ab" sets the height to its width (2). The corrected measurement reports its height (1) |
| TextCache.HashIsSumModulo | src/main/java/me/lauriichan/clay4j/LayoutContext.java:37-39 | the cache key is `textHash + fontId*2^8 + fontSize*2^16`, reduced to a Java `int` |
| TextCache.FontIdCollidesWithTextHash | src/main/java/me/lauriichan/clay4j/LayoutContext.java:37-39 | different text hashes and font ids can share a key: `(h, font 1)` and `(h + 256, font 0)` always collide |
| TextCache.Find | src/main/java/me/lauriichan/clay4j/LayoutContext.java:115 | the lookup finds an entry exactly when some entry has the key, and the index found holds that key |
| TextCache.OldestIndex | src/main/java/me/lauriichan/clay4j/LayoutContext.java:181-182 | the entry chosen has the least `lastAccess`, and it is the first such entry in map order |
| TextCache.PopOldest | src/main/java/me/lauriichan/clay4j/LayoutContext.java:180-187 | an empty cache is unchanged. Otherwise exactly the first least-recently-accessed entry is removed, and the others keep their order |
| TextCache.PopOldestKeepsValid | src/main/java/me/lauriichan/clay4j/LayoutContext.java:180-187 | eviction keeps the keys distinct and the size bounded, shrinks a non-empty cache by one, and invents no entry |
| TextCache.Touch | src/main/java/me/lauriichan/clay4j/LayoutContext.java:116-118 | a hit refreshes that entry's access time and changes nothing else |
| TextCache.Store | src/main/java/me/lauriichan/clay4j/LayoutContext.java:171-176 | inserting a new key appends it. When 32 entries are already held, the least recently used one goes first |
| TextCache.MeasuredTextFor | src/main/java/me/lauriichan/clay4j/LayoutContext.java:112-178 | on a hit, the result is the stored measurement with only `lastAccess` set to the time. On a miss, it carries the text's hash, the font id and size, and the time, and its measurement is the source's (`asWritten`) or the corrected one. A fresh measurement of more than 32 words is returned but not cached. Otherwise it is inserted, evicting the least recently used entry from a full cache |
| TextCache.CacheStaysBounded | src/main/java/me/lauriichan/clay4j/LayoutContext.java:171-176 | however many texts are measured, the cache never holds more than 32 entries, and its keys stay distinct |
| TextCache.CollidingTextsShareAnEntry | src/main/java/me/lauriichan/clay4j/LayoutContext.java:113-119 | two texts with the same key are not told apart: the second lookup returns the first text's measurement, under either measurement |
| Elements.FoldClosedForm | src/main/java/me/lauriichan/clay4j/Element_.java:117-127 | the loop over the children sums their sizes along the layout axis, and their minimum sizes unless that axis clips. It takes the largest padded size across it |
| Elements.AggregateLeftToRight | src/main/java/me/lauriichan/clay4j/Element_.java:111-132 | left-to-right, before clamping: width is LR padding + the sum of child widths + `max(n-1, 0)*gap`, and height is the largest child height + TB padding. A clipped axis accumulates no child minimums and no gaps |
| Elements.AggregateTopToBottom | src/main/java/me/lauriichan/clay4j/Element_.java:133-153 | the same with the axes swapped |
| Elements.ClampAxis | src/main/java/me/lauriichan/clay4j/Element_.java:155-169 | a min/max axis has its size and its minimum size each clamped into the sizing's range: kept when inside it, raised to `min` below it, cut to `max` above it. An inverted range (`min > max`) gives both the value `max`. A percentage axis gets size 0 and keeps its minimum. The other axis is untouched |
| Elements.UpdateAspectRatio | src/main/java/me/lauriichan/clay4j/Element_.java:183-194 | with a positive ratio, a zero width becomes height·ratio and a zero height becomes width/ratio. Otherwise nothing changes |
| Elements.Open | src/main/java/me/lauriichan/clay4j/Element_.java:46-76 | a new element is open, childless and zero-sized, and inherits the root time from its parent. Its floating, text, aspect-ratio and clip flags are read from its configurations. It shares the parent's `parentElements` list unless it is a root or floating |
| Elements.Close | src/main/java/me/lauriichan/clay4j/Element_.java:96-104 | closing a closed element has no effect. Closing under a text element is an error that only marks the element closed |
| Elements.CloseIdempotent | src/main/java/me/lauriichan/clay4j/Element_.java:96-100 | a second `close` returns without any effect |
| Elements.CloseEffects | src/main/java/me/lauriichan/clay4j/Element_.java:106-180 | a successful close sets the element's size from its children. It appends the element to its parent's children when it has a parent and is not floating, and to its `parentElements` list when it is not text and has children, or is a root, or is floating. No other element changes |
| Elements.CloseClampsToSizing | src/main/java/me/lauriichan/clay4j/Element_.java:155-169 | without an aspect ratio, each closed min/max axis holds the clamped aggregate size and minimum. Each percentage axis holds size 0 |
| Elements.OpenIsUnlisted | src/main/java/me/lauriichan/clay4j/Element_.java:174-180 | an element that is still open is nobody's child, because children are attached only on close |
| Leveling.ScanLargestWith | src/main/java/me/lauriichan/clay4j/LayoutContext.java:324-342 | the scan's largest size is within tolerance of every child. `sizeToAdd` is either left as `sizeToDistribute` or is a non-positive cut |
| Leveling.ScanLargestFindsRunnerUp | src/main/java/me/lauriichan/clay4j/LayoutContext.java:328-342 | when the first child is the largest by at least the tolerance and no size is negative, then with the runner-up taken by maximum the scan finds the largest size and the largest of the others. The cut brings the largest exactly down to it |
| Leveling.ScanLargestAsWrittenSkipsRunnerUp | src/main/java/me/lauriichan/clay4j/LayoutContext.java:339 | with `Math.min`, sizes 10 and 8 yield runner-up 0 and a cut of 10 instead of runner-up 8 and a cut of 2 |
| Leveling.ScanLargestLateMaximumKeepsCut | src/main/java/me/lauriichan/clay4j/LayoutContext.java:328-342 | under either fold, sizes 8 then 10 yield largest 10 and runner-up 8, but `sizeToAdd` stays at `sizeToDistribute`, because the largest is met after a smaller size |
| Leveling.ScanSmallest | src/main/java/me/lauriichan/clay4j/LayoutContext.java:373-391 | the scan's smallest size is within tolerance of every child and at most `Float.MAX_VALUE`. `sizeToAdd` is either `sizeToDistribute` or non-negative |
| Leveling.Remove | src/main/java/me/lauriichan/clay4j/LayoutContext.java:353 | a child leaves the resizable list exactly when it was pinned. The others keep their order |
| Leveling.ShrinkRound | src/main/java/me/lauriichan/clay4j/LayoutContext.java:344-362 | one shrink round moves every child tied with the largest by the same cut, pinning at its minimum any child that would drop to it. Nothing else moves. Total size + `sizeToDistribute` is preserved. With a non-positive cut, every listed child moves by at least the cut, so the round books at least one cut per listed child |
| Leveling.GrowRound | src/main/java/me/lauriichan/clay4j/LayoutContext.java:393-411 | one grow round moves every child tied with the smallest by the same amount, pinning at its maximum any child that would reach it. Nothing else moves. Total size + `sizeToDistribute` is preserved. With a non-negative amount, every listed child moves by at most that amount, so the round books at most one amount per listed child |
| Leveling.EvenShareCovers | src/main/java/me/lauriichan/clay4j/LayoutContext.java:343 | a move of at least the even share `sizeToDistribute / n` for each of `n` children adds up to at least the whole amount (and at most, for a move of at most the share), which is why neither loop overshoots |
| Leveling.ShrinkLargest | src/main/java/me/lauriichan/clay4j/LayoutContext.java:324-363 | the shrink loop changes only listed children, and a changed child is never below its minimum. A child that left the list sits at its minimum. Total size + overflow is invariant. The overflow left is never positive: the loop does not overshoot. It reports convergence exactly when the overflow left is within tolerance below 0 or the list is empty. All of this holds with the source's `Math.min` scan (`asWritten`) and with the corrected one |
| Leveling.GrowSmallest | src/main/java/me/lauriichan/clay4j/LayoutContext.java:373-412 | the grow loop changes only listed children, and a changed child is never above its maximum. A child that left the list sits at its maximum. Total size + slack is invariant. The slack left is never negative: the loop does not overshoot. It reports convergence exactly when the slack left is within tolerance above 0 or the list is empty |
| AxisSolver.Counted | src/main/java/me/lauriichan/clay4j/LayoutContext.java:284-285 | a child counts toward `innerSize` with its size along the axis, or 0 if that axis is a percentage |
| AxisSolver.ResizablePositions | src/main/java/me/lauriichan/clay4j/LayoutContext.java:279-282 | exactly the children that are neither FIXED nor percentage and have no text configuration, or a word-wrapping one, are resizable, in child order |
| AxisSolver.GrowFilter | src/main/java/me/lauriichan/clay4j/LayoutContext.java:365-371 | before growing, the list keeps exactly its GROW children |
| AxisSolver.Share | src/main/java/me/lauriichan/clay4j/LayoutContext.java:305-314 | a percentage child receives `percentage × (parent size - padding and gaps)` on the axis and keeps its layout and minimums |
| AxisSolver.Expand | src/main/java/me/lauriichan/clay4j/LayoutContext.java:299-315 | every percentage child receives its share of the parent. Every other child is unchanged |
| AxisSolver.Level | src/main/java/me/lauriichan/clay4j/LayoutContext.java:317-429 | along the layout direction, overflow on a clipping axis changes nothing, and otherwise shrinks (with the source's scan under `asWritten`, or the corrected one). Slack with a GROW child grows. The cross axis writes nothing back. Each pass keeps the shrink or grow guarantees and total + amount invariant, and never overshoots: the overflow left after shrinking is never positive, and the slack left after growing never negative |
| AxisSolver.LevelShrink | src/main/java/me/lauriichan/clay4j/LayoutContext.java:319-363 | the shrink branch meets the leveling contract on the children, leaving no positive overflow, with the source's `Math.min` scan (`asWritten`) and with the corrected one |
| AxisSolver.LevelGrow | src/main/java/me/lauriichan/clay4j/LayoutContext.java:364-412 | the grow branch filters to GROW children and meets the leveling contract, leaving no negative slack |
| AxisSolver.UnchangedMeetsSpec | src/main/java/me/lauriichan/clay4j/LayoutContext.java:414-429 | when neither leveling loop runs (cross axis, clipped overflow, or slack with no GROW child), every child keeps its size |
| AxisSolver.LevelChangesOnlyExtents | src/main/java/me/lauriichan/clay4j/LayoutContext.java:256-431 | sizing a parent changes its children's extents only. Tree links, layouts and minimum sizes stay |
| AxisSolver.SizeParent | src/main/java/me/lauriichan/clay4j/LayoutContext.java:256-431 | one parent: only its children change, and only in their extents. Percentages are resolved and then levelled against the amount computed from the children. This holds under either shrink scan |
| AxisSolver.RootSize | src/main/java/me/lauriichan/clay4j/LayoutContext.java:218-254 | a GROW root attached to an element takes the element's size, clamped into its range. A percentage root attached to an element takes that share of it, and an unattached one keeps its size. Every other min/max root gets its own size clamped as `Math.min(Math.max(v, min), max)` (`Numbers.Clamp`): kept inside the range, raised to `min` below it, cut to `max` above it, and `max` for an inverted range |
| AxisSolver.PrepareRoot | src/main/java/me/lauriichan/clay4j/LayoutContext.java:218-254 | adjusting a root changes only its two extents, to the root size of each axis |
| AxisSolver.AdjustRoot | src/main/java/me/lauriichan/clay4j/LayoutContext.java:218-254 | in the arena, only the root itself changes when it is adjusted |
| AxisSolver.SizeParents | src/main/java/me/lauriichan/clay4j/LayoutContext.java:256-431 | the loop over a root's parent list changes only elements that are someone's child, and only their extents. This holds under either shrink scan |
| AxisSolver.SizeAlongAxis | src/main/java/me/lauriichan/clay4j/LayoutContext.java:215-433 | a whole axis pass keeps the arena well formed and every minimum size. It changes nothing but extents, and only of roots and of elements that are someone's child. This holds under either shrink scan |
| AxisSolver.Compose | src/main/java/me/lauriichan/clay4j/LayoutContext.java:193-202 | an x pass followed by a y pass still changes only extents and keeps every minimum |
| LayoutContext.NewContext | src/main/java/me/lauriichan/clay4j/LayoutContext.java:48-55 | a new context has no roots, texts or attachment ids, and an empty cache |
| LayoutContext.Reset | src/main/java/me/lauriichan/clay4j/LayoutContext.java:61-66 | `reset` empties roots, texts and attachment ids and sets `changed`. It leaves the text cache alone |
| LayoutContext.AddRoot | src/main/java/me/lauriichan/clay4j/LayoutContext.java:76-83 | the element is appended to the roots, `changed` is set, and nothing else moves |
| LayoutContext.AddText | src/main/java/me/lauriichan/clay4j/LayoutContext.java:85-92 | the element is appended to the text elements, `changed` is set, and nothing else moves |
| LayoutContext.SetAttachId | src/main/java/me/lauriichan/clay4j/LayoutContext.java:94-106 | a null id does nothing. An id in use is an error and changes nothing. Otherwise the id names the element, and every other id keeps its element |
| LayoutContext.AttachIdsAreRegisteredOnce | src/main/java/me/lauriichan/clay4j/LayoutContext.java:94-106 | an id can be registered once. Registering it again fails until the context is reset |
| LayoutContext.FirstMissing | src/main/java/me/lauriichan/clay4j/LayoutContext.java:206-207 | finds the first text element whose layout has no text configuration, or nothing when all have one |
| LayoutContext.TextConfigs | src/main/java/me/lauriichan/clay4j/LayoutContext.java:204-208 | the text configuration of every text element, in order. The first one missing is the error |
| LayoutContext.TextConfigsIgnoreExtents | src/main/java/me/lauriichan/clay4j/LayoutContext.java:196-207 | the configurations read after the x pass are the registered ones |
| LayoutContext.Finalize | src/main/java/me/lauriichan/clay4j/LayoutContext.java:193-213 | `finalize` clears `changed`, sizes along x, measures every text into the cache in order, then sizes along y. It fails exactly when a text element has no text configuration. It keeps the registry, the tree and every minimum size. With `asWritten` the passes and the cache use the source's scan and measurement, otherwise the corrected ones; the contract holds for both |

## Left out

- Leveling.ShrinkLargest: the loop runs at most `fuel` rounds and reports whether it converged. The source's loop is unbounded, and it need not terminate when sizes are negative.
- Leveling.GrowSmallest: bounded by `fuel` rounds in the same way.
- AxisSolver.Level: the fuel bound above also applies to the branch it runs.
- AxisSolver.SizeParent: also fuel-bounded.
- AxisSolver.SizeAlongAxis: states what every step preserves and which elements may change, but not the final sizes of a whole pass. The per-parent result is `SizeParent`'s contract.
- AxisSolver.SizeParents: in the same way, states only which elements may change and what is kept. It does not carry each parent's `SizeParent` result through the loop.
- AxisSolver.Share: says nothing about an element with an aspect-ratio configuration beyond keeping its layout and minimums.
- LayoutContext.Finalize: on the error path, the source has already run the x pass, cleared `changed`, and measured into the cache every text element before the failing one. The model returns only the error.
- Geometry.OffscreenIffDisjoint: stated for a non-negative layout area and box only.
- IEEE float behaviour (rounding, overflow to infinity, NaN) is not modelled. Sizes are exact reals, and `Float.MAX_VALUE` is a constant.
- Java `int` overflow of padding and gap sums is not modelled. Only the cache hash wraps.
- Text is a sequence of Dafny characters (Unicode scalar values), not of UTF-16 code units. `String.hashCode` and every recorded word's `start` and `length` therefore count characters. They differ from the source's for any text holding a character outside the Basic Multilingual Plane: for "😀 a" the source records words (0, 3) and (3, 1), and the model (0, 2) and (2, 1).
- `wrapText` in the source only measures each text and discards the line list. The model measures into the cache and keeps no lines.
- `context.addElement` and `context.setElementId` are not defined in the source's `LayoutContext`. Registration of closed elements by id is not modelled.
- The `instanceof Element` checks of `addRoot`, `addText` and `setAttachId` cannot fail with typed arguments.
- The `volatile` marking of `changed` is ignored. The flag is plain state.
- `IElementConfig.priority()` is not part of the available source. A configuration carries its priority as data.
- `elementData`/`buildData` and the `data(type)` lookup are left out. They call configuration hooks that are not part of this model.
- `ElementContext.push` hands a command to a foreign consumer, and render commands are not modelled.
- Positioning, render-command emission, pointer and scroll handling, and the `buildergen` source generator are not modelled.
- Three behaviours of the code are kept as written:
  - A text child is resizable only when its text configuration wraps words. A child with no text configuration is resizable too, unless it is FIXED or a percentage.
  - The cross-axis branch computes clamped sizes but writes none back, so it changes nothing.
  - The parents sized for each root are the root's `parentElements` list, in the order they were closed.

## Findings

| source | as written | input that shows it | evidently intended | confidence | as-written member | corrected member |
|---|---|---|---|---|---|---|
| src/main/java/me/lauriichan/clay4j/LayoutContext.java:134-150 | a separator that ends an empty word reuses the previous word's `dimensions`, including the space width already added to it | "a \n" in a font one unit per character: width 4, minWidth 2 | an empty word measures 0, giving width 2 and minWidth 1 | not executed | TextMeasure.StaleDimensionsWidenTheLine | TextMeasure.StaleDimensionsCorrected |
| src/main/java/me/lauriichan/clay4j/LayoutContext.java:163 | the trailing word updates `measuredHeight` from `dimensions[0]`, its width | "ab" in a font one unit per character, one unit high: height 2 | `dimensions[1]`, giving height 1 | not executed | TextMeasure.TrailingHeightFromWidth | TextMeasure.MeasureMatchesReferences |
| src/main/java/me/lauriichan/clay4j/LayoutContext.java:339 | the runner-up is folded with `Math.min`, so it can only fall, and it misses a larger size met later | sizes 10 and 8: runner-up 0, cut 10 (limited only by `sizeToDistribute / n`) | `Math.max`, giving runner-up 8 and cut 2 | not executed | Leveling.ScanLargestAsWrittenSkipsRunnerUp | Leveling.ScanLargestFindsRunnerUp |
