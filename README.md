# espa-cloud-masking core, modelled in Dafny

This project models the computational core of the ESPA cloud-masking code
(CFmask, the C port of Fmask, together with its Python local-minima filler):

- **Local-minima filling** (`fillMinima` and its inline C kernel,
  `fill_minima.dfy`, module `FillMinima`). The no-data cells are masked out
  and the flood is seeded on the inner boundary of the no-data area, or on
  the image border when there is no no-data area. The kernel then floods
  upward through a hierarchical queue that holds one FIFO pixel list per
  integer level, and the no-data value is restored at the end. The queue
  (`PQ_init`, `PQ_add`, `PQ_empty`, `PQ_first`) is the class
  `PixelQueue`. The rasters are `array2`s. The result is specified by
  `Filled`. Each data cell lies between its input and hMax. Every lowered
  cell is reached from a seed along diagonal steps, each output being
  max(previous output, its input). On completion the result is stable
  under erosion, and `FilledIsUnique` shows that these facts determine it.
- **Cloud-object segmentation** (`object_cloud_shadow_match.c`):
  - the node array and its union-find operations `Find`, `Find_child`
    and `Union_child` (`cloud_nodes.dfy`, module `CloudNodes`);
  - the two-pass labelling `label` with `find_min` (`cloud_label.dfy`,
    module `CloudLabel`);
  - node initialisation, the removal of clouds of at most `MIN_CLOUD_OBJ`
    pixels and the `cloud_cal` layer (`cloud_objects.dfy`, module
    `CloudObjects`);
  - the boundary layer and the final output codes (`cloud_mask.dfy`,
    module `CloudMask`).
  The node array is an `array2` of `CloudNode` values whose `parent` and
  `child` pointers are grid positions.
- **Majority filter** (`majority_filter` in
  src/potential_cloud_shadow_snow_mask.c, with an identical copy in
  l4-7_cfmask/src/potential_cloud_shadow_snow_mask.c; `majority_filter.dfy`).
  It makes one in-place row-major pass that sets a cell to 1 when enough of
  its neighbours are 1. The method works on an `array2`. It is specified
  by a pure function over the sequence of cell steps, so that lemmas can
  state each rule as written, including its behaviour at the edges of
  the mask.
- **Percentile** (`prctile` in src/misc.c, src/ias_misc.c and ias_misc.c;
  `percentile.dfy`). It builds a histogram over [min, max] and scans for
  the first value whose cumulative percentage exceeds the requested one by
  more than `MINSIGMA`.
- **String helpers**:
  - `trimwhitespace` (input.c; `trim.dfy`), over a `char` buffer with C
    string semantics;
  - `ias_misc_split_filename` (`split_filename.dfy`);
  - `append_meta` (space.c; `append_meta.dfy`).

Shared grid helpers (rows, columns, snapshots of `array2`s, cell counts)
are in `grids.dfy`, module `Grids`.

## Model

| member | source | states |
|---|---|---|
| FillMinima.NewPix | src/fillminima.py:86-103 | a pixel record exists exactly when the row index is at most 10000, and then carries (i, j); larger rows take the exit |
| FillMinima.PixelQueue.constructor | src/fillminima.py:106-131 | the queue has hMax - hMin + 1 levels, all empty |
| FillMinima.PixelQueue.Add | src/fillminima.py:134-159 | the add succeeds exactly when the row is at most 10000 and the level lies in [hMin, hMax]; the pixel is then appended at the tail of its level, the count goes up by one, `last` is the pixel and the other levels are unchanged; a failed add changes nothing (range check as intended, see Findings) |
| FillMinima.PixelQueue.Empty | src/fillminima.py:162-183 | true exactly when the level's list is empty |
| FillMinima.PixelQueue.First | src/fillminima.py:187-213 | on an empty level, returns nothing and changes nothing; otherwise removes and returns the head, the count goes down by one and `last` is cleared once the level is empty; other levels are unchanged |
| FillMinima.AddCheckAsWrittenAdmitsPastEnd | src/fillminima.py:142-146 | the written range test exits only when the index is above numLevels, so index numLevels (level hMax + 1) and every negative index pass, although neither names a level |
| FillMinima.ScannedHas | src/fillminima.py:221-231 | after k of the nine offsets, the list holds exactly the kept offsets among the first k |
| FillMinima.DiagonalsExactly | src/fillminima.py:216-235 | the neighbour list holds exactly the pixels one step away on both axes that lie inside the image |
| FillMinima.AtMostFour | src/fillminima.py:223 | a pixel has at most four listed neighbours |
| FillMinima.TryOffset | src/fillminima.py:223-230 | one inner step: either extends the list by the offset's pixel when kept, or reports the exit for a kept pixel beyond row 10000 |
| FillMinima.Neighbours | src/fillminima.py:216-235 | succeeds exactly when no in-image diagonal neighbour is beyond row 10000, and then returns exactly the in-image diagonal neighbours |
| FillMinima.Offer | src/fillminima.py:273-283 | a data neighbour still at the sentinel hMax gets max(hCrt, img) and is queued at that level; every other cell and queue level is unchanged; the flood invariant is kept |
| FillMinima.Spread | src/fillminima.py:271-287 | across the whole neighbour list, each neighbour cell becomes max(hCrt, img) when it held the sentinel and has data, and is unchanged otherwise; no data neighbour ends above max(hCrt, img) |
| FillMinima.Pop | src/fillminima.py:268-270 | takes the head of level hCrt, which holds hCrt in the output when hCrt < hMax, and lists exactly its in-image diagonal neighbours |
| FillMinima.Process | src/fillminima.py:268-289 | one pop and spread keeps the flood invariant and the settled property; every output below hMax that differs from the seeded raster equals max(output of a diagonal neighbour below hMax, its input), where that neighbour still holds its seeded value or was lowered earlier in the ranking the pass extends; below hMax the work left strictly decreases |
| FillMinima.ReachedKept | src/fillminima.py:273-283 | a spread that lowers only sentinel cells next to the popped pixel, each to max(hCrt, its input), keeps every lowered output sourced by an earlier neighbour: the new ones by the popped pixel, ranked right after it, which itself is seeded or ranked |
| FillMinima.PassKept | src/fillminima.py:268-289 | one pass of the inner loop keeps the processed pixels settled (their data neighbours at most max(level, input)) and every lowered output sourced by an earlier neighbour |
| FillMinima.SettledKept | src/fillminima.py:268-289 | after a pixel is processed, no data neighbour of any processed pixel lies above max(its level, its input) |
| FillMinima.Drain | src/fillminima.py:268-289 | the inner loop empties level hCrt and keeps the invariants, including that every lowered output below hMax equals max(output of a diagonal neighbour that holds its seeded value or was lowered earlier, its input); it runs out of fuel only at level hMax |
| FillMinima.SeedAll | src/fillminima.py:252-262 | seeding succeeds exactly when every seed row is at most 10000 and, if there are seeds, boundaryval is a level of the queue; each seed cell then holds boundaryval and level boundaryval holds the seeds in order |
| FillMinima.SeededFlooding | src/fillminima.py:249-266 | the state right after seeding satisfies the flood invariant at level hMin with nothing processed, and no cell yet differs from the seeded raster |
| FillMinima.NextLevel | src/fillminima.py:290-291 | moving to hCrt + 1 after level hCrt is empty keeps the flood invariant |
| FillMinima.StableAtEnd | src/fillminima.py:265-291 | when the do-while stops, every data cell is at most max(output at any diagonal neighbour, input), so the output is stable under erosion |
| FillMinima.Flood | src/fillminima.py:265-291 | the whole flood leaves every cell at most hMax; only cells that held the sentinel change, and each to at least its input; every changed cell below hMax equals max(output of a diagonal neighbour below hMax, its input), where that neighbour holds its seeded value or was lowered earlier, so the supports lead back to a seed; on completion the output is stable |
| FillMinima.FloodSupported | src/fillminima.py:249-291 | after the flood, every data cell below hMax that is not a seed holding boundaryval equals max(output of a diagonal data neighbour below hMax, its input), where that neighbour is a seed holding boundaryval or was lowered earlier |
| FillMinima.Kernel | src/fillminima.py:238-294 | with the intended level check (Findings row 1), the kernel exits exactly on a seed beyond row 10000 or a boundaryval outside [hMin, hMax] (or a neighbour beyond row 10000); otherwise its result is as Flood states, including that every changed cell below hMax is supported by an earlier diagonal neighbour |
| FillMinima.Selected | src/fillminima.py:37-39 | the selected values are exactly the non-null values of the image |
| FillMinima.MaxOf | src/fillminima.py:39 | is a value of the input at least every other |
| FillMinima.MinOf | src/fillminima.py:39 | is a value of the input at most every other |
| FillMinima.WhereHas | src/fillminima.py:46 | the index list of `numpy.where` holds exactly the set cells |
| FillMinima.Minus | src/fillminima.py:45 | the difference of the dilated and plain null masks is set exactly where they differ |
| FillMinima.Differs | src/fillminima.py:52 | `img2 != hMax` is set exactly where the cell differs from hMax |
| FillMinima.NullBoundarySeeds | src/fillminima.py:43-46 | with no-data present, the seeds are exactly the data cells with a no-data cell in their 3x3 neighbourhood |
| FillMinima.CopyBorder | src/fillminima.py:48-51 | the first and last rows and columns are copied from the input; other cells are unchanged |
| FillMinima.BorderSeeds | src/fillminima.py:47-52 | with no no-data, the seeds are exactly the border cells whose value differs from hMax |
| FillMinima.Boundary | src/fillminima.py:43-52 | the returned seed list holds exactly the seed cells of either case; all other output cells keep hMax |
| FillMinima.Equals | src/fillminima.py:37 | a fresh mask set exactly where the image equals nullval |
| FillMinima.Filling | src/fillminima.py:40-41 | a fresh raster of the image's shape filled with hMax |
| FillMinima.Restore | src/fillminima.py:60 | no-data cells get nullval back; others are unchanged |
| FillMinima.RangedKept | src/fillminima.py:60 | writing nullval back into the no-data cells keeps every data cell between its input and hMax and every seed at boundaryval |
| FillMinima.SupportedKept | src/fillminima.py:60 | the restore keeps every data cell supported by an earlier data neighbour |
| FillMinima.StableKept | src/fillminima.py:60 | the restore keeps every data cell at most max(output at any diagonal data neighbour, its input) |
| FillMinima.Finish | src/fillminima.py:57-60 | the kernel followed by the restore gives the filled image: null cells keep nullval, other cells lie between their input and hMax (seeds hold boundaryval); every data cell below hMax other than a seed holding boundaryval equals max(output of a diagonal data neighbour below hMax, its input), that neighbour being a held seed or earlier in a ranking; on completion the result is also stable |
| FillMinima.FillMinima | src/fillminima.py:27-62 | an all-null image gives the no-data outcome; otherwise the result is filled as Finish states (bounded, supported back to a seed, and stable on completion) with hMin and hMax the least and greatest non-null values |
| FillMinima.ExtendSeedPath | src/fillminima.py:273-283 | a seed path to a pixel extends to a diagonal data neighbour below hMax whose output is max(the pixel's output, its input) |
| FillMinima.ReachesSeed | src/fillminima.py:265-291 | in a supported result, following the supports back from any data cell below hMax ends at a seed holding boundaryval: there is a seed path to the cell |
| FillMinima.SeedPathRises | src/fillminima.py:273-283 | outputs never fall along a seed path, so its end is at least boundaryval |
| FillMinima.FilledReachesSeed | src/fillminima.py:28-33 | in a filled image every data cell below hMax is reached by a seed path and is at least boundaryval, so no pit is left below the boundary value |
| FillMinima.StableBelowSeedPath | src/fillminima.py:265-291 | a stable result that keeps the seeds at boundaryval is at most any other result at the end of that result's seed paths |
| FillMinima.FilledIsUnique | src/fillminima.py:28-33 | on completion the filled result is determined by the input: two results that both satisfy the contract agree on every cell |
| FillMinima.PitsNotFilled | src/fillminima.py:28-33 | a 4x4 image of 5s with pits of 0 at (1, 1) and (2, 2), returned unchanged, is not a filling of it with boundaryval 5, though each pit is max(output, input) of the other |
| CloudNodes.Find | l4-7_cfmask/src/object_cloud_shadow_match.c:145-163 | returns the root of the node's parent tree; points every node of the path at the root; keeps every node's root and the ranking that makes the forest acyclic |
| CloudNodes.FindChild | l4-7_cfmask/src/object_cloud_shadow_match.c:175-188 | returns the last node of the child chain from the node, or nothing when the chain runs into a cycle |
| CloudNodes.UnionChild | l4-7_cfmask/src/object_cloud_shadow_match.c:165-173 | links node2 as node1's child and gives every node of the chain from node2 node1's value; reports whether that chain ends |
| CloudNodes.Link | l4-7_cfmask/src/object_cloud_shadow_match.c:296-297 | hanging root b under root a changes only b's parent; every node whose root was b now has root a and the forest stays acyclic |
| CloudLabel.FindMin | l4-7_cfmask/src/object_cloud_shadow_match.c:190-213 | returns the least positive entry and its first index, or 0 and index 0 when no entry is positive |
| CloudLabel.LeastNeighbour | l4-7_cfmask/src/object_cloud_shadow_match.c:227-249 | the minimum is 0 exactly when no earlier neighbour (upper-left, upper, upper-right, left) is cloud; otherwise it is the least label among them and names which one |
| CloudLabel.StartCloud | l4-7_cfmask/src/object_cloud_shadow_match.c:250-255 | the pixel gets the next cloud number and becomes its own representative |
| CloudLabel.RecordStart | l4-7_cfmask/src/object_cloud_shadow_match.c:256-257 | first_cloud_node records the pixel as the first pixel of its cloud number, and every earlier record stays valid |
| CloudLabel.NewCloud | l4-7_cfmask/src/object_cloud_shadow_match.c:250-258 | an isolated pixel opens a new cloud unless MAX_CLOUD_TYPE is reached, in which case the pass stops with nothing written |
| CloudLabel.Join | l4-7_cfmask/src/object_cloud_shadow_match.c:259-283 | the pixel takes the least neighbour label and joins that neighbour's set |
| CloudLabel.Merge | l4-7_cfmask/src/object_cloud_shadow_match.c:287-397 | two sets with different roots become one: the absorbed root hangs under the kept one and the kept root keeps its label |
| CloudLabel.MergeBlock | l4-7_cfmask/src/object_cloud_shadow_match.c:287-397 | after one neighbour's merge block, that neighbour and the pixel are in the same set |
| CloudLabel.MergeAll | l4-7_cfmask/src/object_cloud_shadow_match.c:287-397 | after the four merge blocks, the pixel and all its earlier cloud neighbours are in one set, and the pixel keeps the least label |
| CloudLabel.LabelPixel | l4-7_cfmask/src/object_cloud_shadow_match.c:227-397 | one cloud pixel of the first pass: a new cloud exactly when it is isolated, otherwise a join and merges; the labelling invariant is kept |
| CloudLabel.Visit | l4-7_cfmask/src/object_cloud_shadow_match.c:225-399 | one pixel of the first pass (non-cloud pixels are skipped) |
| CloudLabel.LabelRow | l4-7_cfmask/src/object_cloud_shadow_match.c:225-400 | one row of the first pass |
| CloudLabel.FirstPass | l4-7_cfmask/src/object_cloud_shadow_match.c:223-401 | either MAX_CLOUD_TYPE is reached, or every cloud pixel is labelled with adjacent cloud pixels in one set and labels in 1..num_clouds |
| CloudLabel.FirstPassLabelled | l4-7_cfmask/src/object_cloud_shadow_match.c:223-401 | the state after the first pass satisfies the labelling facts the second pass relies on |
| CloudLabel.SameLabelSameRoot | l4-7_cfmask/src/object_cloud_shadow_match.c:404-416 | two cloud pixels carry the same root label exactly when they have the same root |
| CloudLabel.LabelledNeighbours | l4-7_cfmask/src/object_cloud_shadow_match.c:287-288 | adjacent cloud pixels end with the same label |
| CloudLabel.CopyRootLabel | l4-7_cfmask/src/object_cloud_shadow_match.c:412 | the pixel takes its root's label, which lies in 1..num_clouds; the label grid is unchanged |
| CloudLabel.Tally | l4-7_cfmask/src/object_cloud_shadow_match.c:413 | counting one more pixel of the label keeps obj_num equal to the per-label counts so far |
| CloudLabel.RecountCell | l4-7_cfmask/src/object_cloud_shadow_match.c:410-414 | one pixel of the second pass |
| CloudLabel.RecountRow | l4-7_cfmask/src/object_cloud_shadow_match.c:408-415 | one row of the second pass |
| CloudLabel.SecondPass | l4-7_cfmask/src/object_cloud_shadow_match.c:404-416 | afterwards obj_num[v] is the number of cloud pixels labelled v, and obj_num[0] is 0 |
| CloudLabel.Label | l4-7_cfmask/src/object_cloud_shadow_match.c:215-419 | `label` as a whole: either MAX_CLOUD_TYPE is reached, or the labels are final, obj_num counts them and first_cloud_node records a first pixel per cloud |
| CloudObjects.InitNodes | l4-7_cfmask/src/object_cloud_shadow_match.c:646-656 | every node has value 0 and is its own parent and child |
| CloudObjects.DroppedEntries | l4-7_cfmask/src/object_cloud_shadow_match.c:665-671 | after the filter, a cloud count is non-zero exactly when it exceeds MIN_CLOUD_OBJ (9); kept counts keep their value and entries outside 1..num_clouds are untouched |
| CloudObjects.DroppedIdempotent | l4-7_cfmask/src/object_cloud_shadow_match.c:665-671 | filtering twice equals filtering once |
| CloudObjects.SurvivorsAreNonZero | l4-7_cfmask/src/object_cloud_shadow_match.c:663-671 | the number of real clouds counted equals the number of non-zero entries left |
| CloudObjects.SurvivorsAfterDrop | l4-7_cfmask/src/object_cloud_shadow_match.c:663-671 | filtering does not change the number of real clouds |
| CloudObjects.DropSmallClouds | l4-7_cfmask/src/object_cloud_shadow_match.c:663-671 | the loop leaves obj_num filtered and returns the number of real clouds |
| CloudObjects.CloudCal | l4-7_cfmask/src/object_cloud_shadow_match.c:677-687 | cloud_cal is 1 exactly on cloud pixels inside the boundary whose cloud survived the filter, and 0 elsewhere |
| CloudObjects.LabelGridLabels | l4-7_cfmask/src/object_cloud_shadow_match.c:404-416 | the final labels lie in 1..num_clouds on cloud pixels, are 0 elsewhere, and agree on adjacent cloud pixels |
| CloudObjects.SurvivorsOfCounts | l4-7_cfmask/src/object_cloud_shadow_match.c:663-671 | with obj_num the per-label pixel counts, the real clouds are the labels with more than 9 pixels |
| CloudObjects.KeepLargeClouds | l4-7_cfmask/src/object_cloud_shadow_match.c:663-687 | the count is the number of labels with more than 9 pixels; cloud_cal is 1 exactly on cloud pixels inside the boundary whose label has more than 9 pixels |
| CloudObjects.SegmentClouds | l4-7_cfmask/src/object_cloud_shadow_match.c:629-687 | from allocation to cloud_cal: either MAX_CLOUD_TYPE is reached, or the labels satisfy LabelGridLabels and cloud_cal and the count are as KeepLargeClouds states |
| CloudMask.BoundaryCell | l4-7_cfmask/src/object_cloud_shadow_match.c:501-507 | a pixel is inside the boundary exactly when its mask value is below the 255 fill |
| CloudMask.BoundaryRow | l4-7_cfmask/src/object_cloud_shadow_match.c:495-508 | one row of boundary_test is written; the counters grow by that row's cloud and boundary pixels |
| CloudMask.BoundaryTest | l4-7_cfmask/src/object_cloud_shadow_match.c:490-509 | boundary_test marks the non-fill pixels; cloud_counter and boundary_counter count the cloud and boundary pixels; the first is at most the second |
| CloudMask.FinalCode | l4-7_cfmask/src/object_cloud_shadow_match.c:1042-1059 | the output code in order of priority: 255 outside the boundary, then cloud 4, shadow 2, snow 3, water 1, clear 0; each code exactly under its condition |
| CloudMask.FinalRow | l4-7_cfmask/src/object_cloud_shadow_match.c:1040-1060 | one row of final_mask and its cloud and shadow counts |
| CloudMask.ComposeFinalMask | l4-7_cfmask/src/object_cloud_shadow_match.c:1036-1061 | final_mask is the per-pixel code; cloud_count and shadow_count count the pixels coded 4 and 2 |
| CloudMask.FinalKeepsBoundary | l4-7_cfmask/src/object_cloud_shadow_match.c:501-507 | the output is the fill value exactly where the input mask held the fill value or above |
| Percentile.Histogram | src/misc.c:54-57 | bucket k holds the number of values equal to min + k |
| Percentile.CountBelowStep | src/misc.c:59-62 | the running sum grows by the bucket of each next value |
| Percentile.QualifiesMonotone | src/misc.c:59-72 | once a value passes the percentile test, every larger value passes it |
| Percentile.MaxQualifies | src/misc.c:59-72 | for a non-empty input and prct below 100 - MINSIGMA, max passes, so the scan always writes a result |
| Percentile.FirstQualifyingIsLeast | src/misc.c:59-72 | the value the scan stops at passes the test and no smaller value does |
| Percentile.Scan | src/misc.c:59-72 | the result is the least value in [min, max] that passes the test, or unchanged when none does |
| Percentile.Prctile | src/misc.c:26-76 | fails exactly when the allocation fails; an empty input gives 0; otherwise the result is the least qualifying value |
| Percentile.PrctileUnguarded | src/ias_misc.c:26-72 | as Prctile without the guard for an empty input |
| Percentile.PrctileVoid | ias_misc.c:23-55 | as Prctile with neither the empty guard nor an allocation status |
| Percentile.EmptyQualifiesNothing | src/ias_misc.c:55-68 | with no input values no value qualifies, so the unguarded variants leave the result unwritten |
| MajorityFilter.MarkIf | src/potential_cloud_shadow_snow_mask.c:70-71 | a cell is set to 1 exactly when the count reaches the threshold |
| MajorityFilter.StepMarksOnly | src/potential_cloud_shadow_snow_mask.c:43-207 | a cell's step writes nothing but a 1 into that cell |
| MajorityFilter.FilterCell | src/potential_cloud_shadow_snow_mask.c:43-207 | the nine rule blocks at one cell give the step's grid and cloud_pixels |
| MajorityFilter.Filter | src/potential_cloud_shadow_snow_mask.c:36-210 | the mask after the pass is the row-major composition of the cell steps |
| MajorityFilter.SweepUntouched | src/potential_cloud_shadow_snow_mask.c:41-44 | cells not yet visited keep their input value |
| MajorityFilter.SeenMixed | src/potential_cloud_shadow_snow_mask.c:41-44 | a cell's rules see final values at earlier cells and input values at later ones |
| MajorityFilter.Outcome | src/potential_cloud_shadow_snow_mask.c:41-207 | each output cell is 1 when its rules fire on what it sees, and its input value otherwise |
| MajorityFilter.OnlyOnesWritten | src/potential_cloud_shadow_snow_mask.c:36-210 | the filter only turns cells into 1, and every 1 stays 1 |
| MajorityFilter.InteriorRule | src/potential_cloud_shadow_snow_mask.c:45-71 | a cell with row and column in [2, n-3] becomes 1 exactly when it was 1 or at least 5 of its 3x3 window are 1 |
| MajorityFilter.InnerRingUnchanged | src/potential_cloud_shadow_snow_mask.c:45-71 | cells in row or column 1 or n-2 are not changed, except in row ncols-1: the tests `row-1 > 0`, `row+1 < nrows-1` and their column twins leave them out of the interior rule, and no edge rule covers them; the misplaced bottom-edge block fires on row ncols-1, so when nrows > ncols it can change that row's cells in columns 1 and ncols-2 (see MisplacedBottomEdge) |
| MajorityFilter.CornerRule | src/potential_cloud_shadow_snow_mask.c:73-131 | the top-left, top-right and bottom-right corners become 1 when 2 of their 3 neighbours are 1 |
| MajorityFilter.BottomLeftRule | src/potential_cloud_shadow_snow_mask.c:103-116 | the bottom-left corner also fires on a count of 5 left over from the row above's right-edge block |
| MajorityFilter.CarryIntoRow | src/potential_cloud_shadow_snow_mask.c:45-70 | the interior block leaves `cloud_pixels` unreset when its row test fails, so column 0 sees the right-edge count of the row above |
| MajorityFilter.TopEdgeRule | src/potential_cloud_shadow_snow_mask.c:133-150 | a top-edge cell becomes 1 when at least 3 of its 5 neighbours are 1 |
| MajorityFilter.LeftEdgeRule | src/potential_cloud_shadow_snow_mask.c:171-188 | a left-edge cell becomes 1 when at least 3 of its 5 neighbours are 1, or on a leftover count of 5 |
| MajorityFilter.RightEdgeRule | src/potential_cloud_shadow_snow_mask.c:190-207 | a right-edge cell becomes 1 when at least 3 of the cells the code counts are 1 |
| MajorityFilter.RightEdgeIgnoresCellBelow | src/potential_cloud_shadow_snow_mask.c:193-204 | the right-edge count reads the lower-left cell twice and never the cell below |
| MajorityFilter.BottomRowUnchanged | src/potential_cloud_shadow_snow_mask.c:152-169 | when the mask is not square, no bottom-row interior cell ever changes: the bottom-edge test compares the row with ncols - 1 |
| MajorityFilter.MisplacedBottomEdge | src/potential_cloud_shadow_snow_mask.c:152-169 | the bottom-edge rule instead fires on row ncols - 1 |
| Trim.StrLen | input.c:129 | the length is the distance to the first NUL |
| Trim.SkipSpace | input.c:122-123 | stops at the first character that is not whitespace, possibly the terminator, having passed only whitespace; the C string there is the input without its leading whitespace |
| Trim.TrimWhitespace | input.c:118-136 | returns exactly the first position at or after the start that is not whitespace (every character skipped is whitespace); the string there is the input with leading and trailing whitespace removed; only the new terminator is written |
| Trim.CutTrailingSpace | input.c:128-133 | the string at the pointer loses its trailing whitespace; only the new terminator is written |
| Trim.TrimmedIsSlice | input.c:118-136 | the result is a contiguous slice of the input with only whitespace cut from each side |
| Trim.TrimmedHasNoEdgeSpace | input.c:122-133 | a non-empty result starts and ends with a non-whitespace character |
| Trim.TrimmedIdempotent | input.c:118-136 | trimming twice equals trimming once |
| SplitFilename.LastIndexOf | l4-7_cfmask/src/ias_misc_split_filename.c:35 | `strrchr`: the last index of the character, or -1 when it is absent |
| SplitFilename.IndexOf | l4-7_cfmask/src/ias_misc_split_filename.c:48 | `strchr`: the first index of the character, or -1 when it is absent |
| SplitFilename.SplitBase | l4-7_cfmask/src/ias_misc_split_filename.c:47-59 | root and extension split at the first dot, or the extension is empty when there is none |
| SplitFilename.Split | l4-7_cfmask/src/ias_misc_split_filename.c:19-62 | the directory runs up to and including the last slash, then the base is split at its first dot |
| SplitFilename.SplitSpellsName | l4-7_cfmask/src/ias_misc_split_filename.c:19-62 | directory + root + "." + extension (or directory + root) spells the file name; neither root nor extension holds a slash |
| SplitFilename.DirectoryEnd | l4-7_cfmask/src/ias_misc_split_filename.c:34-45 | a non-empty directory ends with a slash and no slash follows it |
| SplitFilename.BaseSplitIsUnique | l4-7_cfmask/src/ias_misc_split_filename.c:47-59 | a base name has exactly one root/extension split |
| SplitFilename.SplitIsUnique | l4-7_cfmask/src/ias_misc_split_filename.c:34-59 | a file name has exactly one directory/root/extension split |
| AppendMeta.AcceptedWritesInBounds | space.c:120-126 | every write of an accepted append, including the terminator, lies inside the buffer; the intended guard differs from the written one only on a negative index or an exactly full buffer |
| AppendMeta.AsWrittenGuardOverflows | space.c:120-135 | the written guard accepts index 0 with 3000 characters and index -1 |
| AppendMeta.Append | space.c:110-138 | the append succeeds exactly under the intended guard; the buffer then holds the old prefix, the string and a terminator, and ic moves past the string; a rejected append changes nothing |

## Left out

- I/O, `printf` and verbose logging, and every call into HDF or OpenCV are not modelled.
- `grey_dilation` (scipy) and `cvDilate` are taken as given inputs: FillMinima takes the dilated null mask as a parameter, described by the predicate `Dilation`.
- The weave compilation glue and the dtype of the numpy arrays are not modelled. Values are unbounded integers and `boundaryval` is an integer.
- FillMinima.FillMinima: an image with no data yields the outcome `NoData`. In the source, `max()` of an empty selection raises.
- FillMinima.Finish: the result is proved to be the only one that meets the contract. It is not compared with a separate definition of reconstruction by erosion, such as the least over seed paths of the greatest value met along the path.
- FillMinima.Drain: with hMin == hMax the source can pop and re-queue pixels at level hMax forever. The model spends a `fuel` unit per pop there and returns `OutOfFuel`; it does not prove that this loop diverges.
- FillMinima.Spread: states the resulting raster and the queue invariant, but not the order in which neighbours are pushed.
- FillMinima.Minus: the numpy subtraction of two boolean masks is modelled as exclusive or. Since the dilated mask contains the plain one, this is the set difference.
- The `PQel` linked lists are modelled as sequences, and `free` is not modelled.
- The ranking that proves the parent forest acyclic is ghost.
- Child chains are not proved acyclic, so FindChild and UnionChild walk at most as many steps as there are nodes and report a cycle otherwise.
- Completeness of the labelling is not proved: the model shows that adjacent cloud pixels share a label, but not that pixels sharing a label are connected.
- CloudLabel.Label: `num_clouds` is a file-level static in the source (line 17), incremented at line 252 and never reset between calls. The model starts it at 0.
- CloudLabel.NewCloud: when a new cloud number would reach MAX_CLOUD_TYPE, the model stops the pass with `ok == false`. The source writes past `obj_num` and `first_cloud_node` instead.
- The `int16` row and column fields of `cloud_node` are unbounded integers.
- The failure returns of allocation (`return -1` in `object_cloud_shadow_match`, `calloc` in `prctile`) are modelled by the `allocFails` parameter in Percentile. In SegmentClouds, allocation is assumed to succeed.
- The shadow matching in `object_cloud_shadow_match` (viewgeo, the shadow projection and `revised_ptm`) is not modelled. The same holds for `prctile2`, which works on floats.
- Percentile: the float division and comparison are modelled with exact reals, so rounding is not modelled.
- Percentile.Prctile: the result is an integer in and out, where the source writes a float.
- CloudObjects.DropSmallClouds: the comment above the loop says clouds of fewer than 9 pixels are removed, but the code zeroes counts of at most MIN_CLOUD_OBJ (9). The model follows the code.
- MajorityFilter.Filter: requires at least 2 rows and 2 columns. Smaller masks index outside the array in the source.
- SplitFilename.Split: the `PATH_MAX` local copy is modelled by requiring the name to be shorter than PathMax. `strcpy` overflow of the caller's buffers is not modelled.

## Findings

| source | as written | input that shows it | evidently intended | confidence | as-written member | corrected member |
|---|---|---|---|---|---|---|
| src/fillminima.py:142-146 | `PQ_add` exits only when the level index is above numLevels, so index numLevels and every negative index pass; index numLevels reads one past the last level | a 1x2 image [[0, 1]] with no null cells and boundaryval 2: hMin 0, hMax 1, two levels, and the seed is added at index 2 | reject every index outside [0, numLevels) | high, not executed | FillMinima.AddCheckAsWrittenAdmitsPastEnd | FillMinima.PixelQueue.Add |
| space.c:125-135 | `append_meta` rejects only `*ic + nc > MYHDF_MAX_NATTR_VAL`, then writes the terminator at `cbuf[*ic + nc]` | ic = 0 and a string of 3000 characters: the terminator lands at index 3000 of a 3000-character buffer | require `*ic + nc < MYHDF_MAX_NATTR_VAL` | high, not executed | AppendMeta.AsWrittenGuardOverflows | AppendMeta.Append |
| space.c:120-121 | `if (ic < 0)` compares the pointer, not the index it points to, so it never rejects | `*ic == -1` with a one-character string: the write lands before the buffer | `if (*ic < 0)` | high, not executed | AppendMeta.AsWrittenGuardOverflows | AppendMeta.Append |
