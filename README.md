# Karve seam carving, modelled in Dafny

Karve shrinks and re-grows images by seam carving. A seam is a connected
top-to-bottom path with one pixel per row. Removing a seam deletes that pixel
from every row. Adding a seam back re-inserts the pixels from an undo stack.
This project models the carving core of the Java sources:

- `Utils` (module `Utils`) covers the integer helpers, `argmin`, `grayscale`,
  edge-replicate `pad`, the Sobel gradient, `transpose` and `mirror`.
- `SeamCarverBase` together with its two subclasses is the class
  `CarverBase.SeamCarverBase`. A tag field `kind` says whether it is
  `SeamCarverBackward` or `SeamCarverForward`.
- The older stand-alone `SeamCarver` is the class `LegacyCarver.SeamCarver`.

The classes keep the source's mutable design:

- `width`, the three undo stacks (`seams`, `values`, `energyValues` or
  `edgeValues`) and the per-row pixel and energy lists are fields that the
  methods reassign.
- The energy map, the forward `minimums` table and the flattened `data`
  snapshot are arrays that are overwritten in place.

The pure seam geometry shared by all carvers is in module `Seams`:

- the greedy walk `NextColumn` and `ExtractSeam`;
- `CutSeam`, `SeamValues` and `SpliceSeam`;
- the undo-stack invariant `Stackable` and the replay function `UndoSeams`;
- the row-major flattening.

Module `Backward` holds the bottom-up cumulative map as a recurrence (`Cum`)
and the array method that fills it. Module `Forward` does the same for the
top-down forward-energy tables (`Acc`, `Local`).

Module `Greedy` describes what a batch `remove(count, ...)` takes out. The
map is rebuilt after every single remove, so each seam of the batch is the
greedy walk over the fresh map of the rows the earlier cuts left. The first
seam is the walk over the map the batch started on. `Greedy.Batch` states
this together with the undo property, over the value `Carving` (the width,
the three stacks and the two kinds of rows).

What is proved, in short:

- Every array method fills its arrays exactly as the recurrences say.
- Cutting a seam and splicing its recorded values back is the identity, and
  the other way round.
- Every class state keeps the undo stacks replayable.
- A batch of removes followed by replaying the stacks gives back the old
  rows. The seams of the batch are the greedy walks over the successive
  fresh maps.
- A single remove followed by a single add restores the width, the stacks
  and both kinds of rows.
- On a freshly built backward map, the seam the greedy walk takes is a
  minimum-energy connected seam. Each map cell is the least energy of any
  connected path from it to the last row, and that least value is attained.
- The forward `minimums` value is the least forward cost over wrap-around
  paths ending at that cell, and the parent trace attains it.

Java's `int` is modelled by the unbounded `int`. Java's truncating `%` is
modelled explicitly by `Utils.JavaRem`. Each parallel stripe loop
(`Utils.parallel`) is modelled as one sequential loop over all rows.

Behaviour as written that the model keeps:

- The horizontal Sobel kernel in `Utils.sobel` adds and subtracts the same
  bottom-left cell, so its bottom row contributes nothing.
  `Utils.SobelXIgnoresBottomRow` states this.
- The forward carver's map holds the local cost of the winning candidate,
  not a cumulative value. The shared greedy walk runs over that map
  unchanged.
- The legacy batch operations have no `count <= 0` guard, so a count of
  zero or less still performs one step. They perform
  min(max(count, 1), width - 2) removes and min(max(count, 1), depth) adds,
  where depth is the number of seams on the stack.

## Model

| member | source | states |
|---|---|---|
| Utils.Min3 | src/Utils.java:20-22 | the result is at most each argument and equals one of them |
| Utils.Min | src/Utils.java:25-27 | the result is at most both arguments and equals one of them |
| Utils.Max | src/Utils.java:30-32 | the result is at least both arguments and equals one of them |
| Utils.Abs | src/Utils.java:176 | Math.abs: non-negative and equal to x or -x |
| Utils.JavaRem | src/Utils.java:36 | Java's `%`: smaller in magnitude than the divisor, with the dividend's sign, and differing from the dividend by a multiple of the divisor, which makes it the truncated remainder |
| Utils.Mod | src/Utils.java:35-37 | for m > 0 the result lies in [0, m) and is the residue of a modulo m; for m < 0 it lies in (m, 0] and differs from a by a multiple of m |
| Utils.ModIsResidue | src/Utils.java:35-37 | `(a % m + m) % m` with Java's truncating remainder is the mathematical residue for every a and every m > 0 |
| Utils.FirstMinIndex | src/Utils.java:101-111 | the index is the first minimum of data[0..size), and 0 when size <= 1 |
| Utils.FirstMinUnique | src/Utils.java:101-111 | only one index is the first minimum, so argmin is determined |
| Utils.Argmin | src/Utils.java:101-111 | the scan with a strict `<` returns the first minimum of data[0..size) |
| Utils.Red | src/Utils.java:83 | `(pixel >> 16) & 0xFF` lies in [0, 256) |
| Utils.Green | src/Utils.java:84 | `(pixel >> 8) & 0xFF` lies in [0, 256) |
| Utils.Blue | src/Utils.java:85 | `pixel & 0xFF` lies in [0, 256) |
| Utils.Gray | src/Utils.java:86 | `(3r + 4g + b) / 8` is a gray level in [0, 255] |
| Utils.Grayscale | src/Utils.java:75-92 | a fresh grid of the same shape holding Gray of every pixel, each in [0, 255] |
| Utils.Clamp | src/Utils.java:127-141 | the nearest index of [0, n): x itself inside, 0 below, n - 1 above |
| Utils.PadRow | src/Utils.java:127-141 | one padded row: each cell copies the nearest pixel of its source row, and no other row changes |
| Utils.Pad | src/Utils.java:120-145 | a fresh grid of (h+2p) x (w+2p); every cell copies the nearest image pixel, so the interior is the image and the borders replicate edges and corners |
| Utils.PaddedGray | src/Utils.java:155 | a cell of `pad(grayscale(image), 1)` is a gray level in [0, 255] |
| Utils.SobelX | src/Utils.java:164-169 | the horizontal term is zero as soon as columns w - 1 and w + 1 agree on the two upper rows, whatever the bottom row holds |
| Utils.SobelY | src/Utils.java:170-175 | the vertical term is zero when the rows above and below agree on columns w - 1, w and w + 1 |
| Utils.SobelAt | src/Utils.java:164-176 | the gradient abs(sx) + abs(sy) is non-negative |
| Utils.SobelXIgnoresBottomRow | src/Utils.java:164-169 | the horizontal term as written does not depend on the bottom row at all, and equals the two upper kernel rows only |
| Utils.SobelBounded | src/Utils.java:164-176 | on 8-bit gray levels the gradient lies in [0, 1785], so the 32-bit kernel arithmetic never overflows |
| Utils.Sobel | src/Utils.java:153-182 | height + 2 lists; list h < height holds the gradient of every pixel of row h; the last two lists are empty |
| Utils.SobelRows | src/Utils.java:161-179 | list k receives the gradients of padded row k + 1, and the last two lists stay empty |
| Utils.SobelRow | src/Utils.java:163-177 | the appended values are the gradients of the inner cells of padded row h, left to right |
| Utils.Transpose | src/Utils.java:191-211 | a fresh w x h grid with result[j][i] == image[i][j] for every in-range cell |
| Utils.MirroredTwice | src/Utils.java:219-233 | mirroring twice restores the grid |
| Utils.Mirror | src/Utils.java:219-233 | returns the same array, whose rows are now the old rows reversed |
| Utils.RowOf | src/SeamCarverBase.java:202 | `map[h]` read as a sequence: its length is the row length and its cells are the array cells |
| Seams.NextColumn | src/SeamCarverBase.java:203-212 | the next column satisfies the walk's tie-break rules: at column 0 ties stay at 0, at the last column ties go to width - 2, inside ties prefer left, then right, then centre |
| Seams.NextColumnUnique | src/SeamCarverBase.java:203-212 | those rules admit exactly one column |
| Seams.SeamPrefix | src/SeamCarverBase.java:193-214 | the first n columns of the walk form a connected in-range path starting at argmin of map row 0, each next column being NextColumn of the previous |
| Seams.ExtractSeam | src/SeamCarverBase.java:193-214 | the whole walk is a connected seam of length height that starts at the first minimum of row 0 and follows the tie-break rules |
| Seams.ExtractSeamUnique | src/SeamCarverBase.java:193-214 | any path starting at the first minimum and following the rules is the extracted seam |
| Seams.ExtractSeamAgree | src/SeamCarverBase.java:193-214 | the walk reads only the first width columns: two maps that agree there give the same seam |
| Seams.RemoveAt | src/SeamCarverBase.java:218 | List.remove(i): one element shorter; elements before i keep their place and later ones shift left |
| Seams.InsertAt | src/SeamCarverBase.java:142 | List.add(i, v): v lands at i; earlier elements stay and later ones shift right |
| Seams.RemoveThenInsert | src/SeamCarverBase.java:142 | re-inserting a removed element at its index restores the list |
| Seams.InsertThenRemove | src/SeamCarverBase.java:218 | removing an element just inserted restores the list |
| Seams.CutSeam | src/SeamCarverBase.java:195-219 | each row covered by the path loses exactly cell path[h]; the other rows are untouched |
| Seams.SeamValues | src/SeamCarverBase.java:195-219 | the pushed values are the removed cells, row by row |
| Seams.SpliceSeam | src/SeamCarverBase.java:140-145 | each row covered by the path gets vals[h] inserted at path[h]; the other rows are untouched |
| Seams.CutThenSplice | src/SeamCarverBase.java:130-156 | splicing a cut seam's values back restores every row |
| Seams.SpliceThenCut | src/SeamCarverBase.java:185-235 | cutting a just-spliced seam restores every row and gives back exactly the spliced values |
| Seams.CutSeamStep | src/SeamCarver.java:191-193 | cutting one more row extends the cut and the collected values by that row only |
| Seams.CutNext | src/SeamCarver.java:192-193 | `values.add(row.remove(c))`: the rows and values become the cut and values of the path extended by c |
| Seams.CutRows | src/SeamCarverBase.java:216-221 | the per-row loop produces exactly CutSeam and SeamValues |
| Seams.SpliceRows | src/SeamCarverBase.java:140-145 | the per-row loop produces exactly SpliceSeam |
| Seams.StackablePop | src/SeamCarverBase.java:131-147 | the top stack entry fits the current rows, and after splicing it back the remaining stacks fit the wider rows |
| Seams.StackablePush | src/SeamCarverBase.java:231-233 | a seam of the current width can be cut, and the stacks with it pushed fit the narrower rows |
| Seams.UndoSeams | src/SeamCarverBase.java:111-121 | replaying every stack entry, top first, yields rows of the original width with nothing left to pop |
| Seams.UndoSeamsPush | src/SeamCarverBase.java:231-233 | replaying the stacks after cut-and-push gives the same rows as replaying them before the cut |
| Seams.UndoesPop | src/SeamCarverBase.java:131-145 | popping one more entry onto rows that a stack suffix rebuilds gives rows that the longer suffix rebuilds |
| Seams.UndoesPush | src/SeamCarverBase.java:166-176 | stacks that undo a batch of removes still undo it after one more cut-and-push |
| Seams.RowsOf | src/SeamCarverBase.java:52-64 | the copied row lists hold exactly the source grid |
| Seams.Flatten | src/SeamCarverBase.java:252-260 | the first width cells of each row, row after row: height x width cells |
| Seams.FlattenCell | src/SeamCarverBase.java:256 | cell (h, w) sits at index h * width + w of the flattened buffer |
| Seams.HighlightRow | src/SeamCarverBase.java:275-279 | the in-range cells path-1..path+1 become color; every other cell is unchanged |
| Seams.Highlighted | src/SeamCarverBase.java:269-282 | every row is highlighted around its own seam column |
| Backward.EnergyMap | src/SeamCarverBackward.java:35-52 | every cell of the first width columns holds Cum; the columns beyond width keep their old values |
| Backward.FillRow | src/SeamCarverBackward.java:42-51 | row h gets Cum from row h + 1 (two neighbours at the edges, three inside); nothing else changes |
| Backward.CumStep | src/SeamCarverBackward.java:38-51 | Cum, the value energyMap stores: above the last row each cell is its energy plus the map value of a cheapest in-range cell of the row below, and no in-range cell below is cheaper |
| Backward.CumIsLowerBound | src/SeamCarverBackward.java:35-52 | no connected path through (h, p[h]) collects less energy from row h down than the map value there |
| Backward.CumAttained | src/SeamCarverBackward.java:42-51 | a path stepping each time to a cheapest cell below collects exactly the map value it starts from |
| Backward.BackwardSeamOptimal | src/SeamCarverBase.java:193-212 | on a fresh map, the extracted seam costs exactly the least value of map row 0, and no connected seam costs less |
| Backward.CumAttainable | src/SeamCarverBackward.java:35-52 | some connected seam through (h, c) collects exactly Cum(h, c) from row h down |
| Backward.CumIsOptimal | src/SeamCarverBackward.java:35-52 | every map cell is the minimum, over connected paths from that cell to the last row, of their summed energy |
| Greedy.FreshBackwardOptimal | src/SeamCarverBackward.java:25-29 | with backward energy, the seam read off a freshly rebuilt map has the least total energy of all connected seams of those rows |
| Greedy.CutNarrows | src/SeamCarverBase.java:195-219 | cutting a seam out of rows at least width wide leaves rows at least width - 1 wide |
| Greedy.RunStep | src/SeamCarverBase.java:170-174 | one more remove, reading its seam off map m at the width left, extends a run by that seam, that map and the rows its cut leaves |
| Greedy.RunSnoc | src/SeamCarverBase.java:170-174 | a run extended by the walk over m and the rows its cut leaves is a run |
| Greedy.RunFirst | src/SeamCarverBase.java:193 | the first seam of a run is the walk over its first map at the starting width |
| Greedy.RunLast | src/SeamCarverBase.java:222 | the rows a run leaves are energy rows of the width it leaves |
| Greedy.FreshStep | src/SeamCarverBackward.java:25-29 | a map that is fresh for the rows left now keeps every later map of the run fresh for the rows it was read from |
| Greedy.UndoneStep | src/SeamCarverBase.java:222-233 | one more cut-and-push keeps the entries pushed since the batch started undoing all its cuts, and keeps the stack below |
| Greedy.TakenStep | src/SeamCarverBase.java:166-176 | one more greedy remove extends the run the batch took by the walk over the current map |
| Greedy.BatchStep | src/SeamCarverBase.java:166-176 | a remove of the walk over the current map, followed by a fresh map, takes a batch one remove further: the new entry undoes the cut and the new seam is that walk |
| Greedy.BatchFirst | src/SeamCarverBase.java:166-176 | the first seam a batch took is the walk over the map the batch started on, at the starting width |
| Forward.Left | src/SeamCarverForward.java:49 | the left neighbour wraps and lies in [0, width) |
| Forward.Right | src/SeamCarverForward.java:50 | the right neighbour wraps and lies in [0, width) |
| Forward.NeighboursWrap | src/SeamCarverForward.java:58-59 | `(w - 1 + width) % width` and `(w + 1) % width` with Java's `%` are those wrapped neighbours |
| Forward.CU | src/SeamCarverForward.java:61 | cU is non-negative |
| Forward.CL | src/SeamCarverForward.java:62 | cL is cU plus a non-negative term |
| Forward.CR | src/SeamCarverForward.java:63 | cR is cU plus a non-negative term |
| Forward.Acc | src/SeamCarverForward.java:65-79 | every minimums value is non-negative |
| Forward.Parent | src/SeamCarverForward.java:69-77 | the winning candidate comes from the cell above or one of its wrapped neighbours |
| Forward.Local | src/SeamCarverForward.java:69-80 | map[h][w] is cU in row 0 and one of cU, cL, cR below, so at least cU |
| Forward.AccSplits | src/SeamCarverForward.java:65-80 | minimums[h][w] is the parent's minimums value plus the recorded local cost, so the local cost never exceeds it |
| Forward.AccIsLowerBound | src/SeamCarverForward.java:56-82 | no wrap-around path ending at (h, w) has a smaller forward cost than minimums[h][w] |
| Forward.TraceAttainsAcc | src/SeamCarverForward.java:56-82 | a path following the parents is a wrap-around path whose forward cost is exactly minimums at its end |
| Forward.ParentsMakeWrapPath | src/SeamCarverForward.java:65-77 | a path that steps into each cell from its parent is a wrap-around path |
| Forward.AccIsOptimal | src/SeamCarverForward.java:47-83 | minimums[h][w] is the least forward cost over wrap-around paths ending at (h, w), and the parent trace attains it |
| Forward.EnergyMap | src/SeamCarverForward.java:47-83 | in the first width columns minimums holds Acc and map holds Local; the columns beyond keep their old values |
| Forward.FillRow | src/SeamCarverForward.java:57-81 | row h of both tables is filled from row h - 1 of minimums; nothing else changes |
| Forward.FillCell | src/SeamCarverForward.java:58-80 | one cell gets the least candidate and its local cost with ties U, then L, then R; nothing else changes |
| CarverBase.SeamCarverBase.constructor | src/SeamCarverBase.java:41-65 | pixel rows copy the input and the snapshot shows them. The energy is the Sobel gradient (Backward, with two empty extra lists) or the gray levels (Forward). The map is built and the stacks are empty |
| CarverBase.SeamCarverBase.GetWidth | src/SeamCarverBase.java:68-70 | returns the current width |
| CarverBase.SeamCarverBase.GetHeight | src/SeamCarverBase.java:73-75 | returns the height |
| CarverBase.SeamCarverBase.GetImage | src/SeamCarverBase.java:78-80 | returns the snapshot buffer itself |
| CarverBase.SeamCarverBase.SetUpdate | src/SeamCarverBase.java:88-90 | sets the flag and nothing else |
| CarverBase.SeamCarverBase.SetEnergy | src/SeamCarverBase.java:99-101 | changes exactly energy[y][x]; the map is not rebuilt |
| CarverBase.SeamCarverBase.FindSeam | src/SeamCarverBase.java:193-214 | the loop computes exactly ExtractSeam of the current map |
| CarverBase.SeamCarverBase.CutState | src/SeamCarverBase.java:195-233 | cuts the seam from pixel and energy rows, decrements width, pushes path and removed values, keeps the stacks replayable |
| CarverBase.SeamCarverBase.SpliceState | src/SeamCarverBase.java:131-147 | pops the top entries, splices them back at the popped path, increments width, keeps the stacks replayable |
| CarverBase.SeamCarverBase.Refresh | src/SeamCarverBase.java:224-230 | with update set, the snapshot shows the image, highlighted around the path when asked; without it the snapshot is untouched |
| CarverBase.SeamCarverBase.RemoveSeam | src/SeamCarverBase.java:185-235 | fails and changes nothing exactly when width is 2; otherwise removes the extracted seam from pixels and energy, pushes the undo entry and refreshes the snapshot |
| CarverBase.SeamCarverBase.AddSeam | src/SeamCarverBase.java:130-156 | fails and changes nothing exactly on an empty stack; otherwise pops and splices the top seam back and refreshes the snapshot |
| CarverBase.SeamCarverBase.EnergyMap | src/SeamCarverBackward.java:35-52 | afterwards the map (and for Forward the minimums table) is what the subclass recurrence gives for the current energy |
| CarverBase.SeamCarverBase.Remove | src/SeamCarverBackward.java:25-29 | the base remove, then a rebuilt map only on success; on a fresh Backward map the removed seam has the least total energy of all connected seams. The removed seam is in range of the old pixel and energy rows |
| CarverBase.SeamCarverBase.SeamTakenIsOptimal | src/SeamCarverBase.java:193-214 | on a fresh Backward map the seam the walk takes has the least total energy of all connected seams |
| CarverBase.SeamCarverBase.RemoveAndRebuild | src/SeamCarverForward.java:37-41 | the base remove followed, on success only, by a fresh map; it names the removed seam, the walk over the map as it stood, and every cell that walk visits was in range of the pixel and energy rows |
| CarverBase.SeamCarverBase.Add | src/SeamCarverBackward.java:19-23 | the base add, then a rebuilt map only on success; a rejected call changes nothing |
| CarverBase.SeamCarverBase.RemoveMany | src/SeamCarverBase.java:166-176 | returns 0 with no change when width is 2 or count <= 0. Otherwise it removes min(count, width - 2) seams, leaves update set and the map fresh, and keeps the stack below. The first seam is the walk over the old map and each later one the walk over the fresh map of the rows left by the earlier cuts. Replaying the new entries gives back the old pixel and energy rows |
| CarverBase.SeamCarverBase.RemoveBatch | src/SeamCarverBase.java:168-175 | the same past the no-op test: min(count, width - 2) removes forming a batch from the given start state and map, with the snapshot refreshed by the last one only |
| CarverBase.SeamCarverBase.RemoveRun | src/SeamCarverBase.java:168-173 | between setUpdate(false) and setUpdate(true), the loop stops after min(count, width - 2) - 1 removes, with width still above 2 and those removes a batch from the start state |
| CarverBase.SeamCarverBase.StepGreedy | src/SeamCarverBase.java:170-174 | one remove takes the walk over the current map (the batch's starting map or the one the previous remove rebuilt) and extends the batch by it; the map is fresh afterwards |
| CarverBase.SeamCarverBase.MapIsFresh | src/SeamCarverBackward.java:25-51 | a map kept fresh in the array is, read as rows, the map energyMap builds from the current energy rows |
| CarverBase.SeamCarverBase.RemoveThenAddRestores | src/SeamCarverBase.java:130-156 | remove followed by add restores the width, the three stacks, the pixel rows and the energy rows, and leaves the map fresh |
| CarverBase.SeamCarverBase.AddMany | src/SeamCarverBase.java:111-121 | returns 0 with no change on an empty stack or count <= 0. Otherwise it adds min(count, depth) seams, leaves update set and the map fresh, and the stacks become their prefix; the popped entries replayed onto the old rows give the new rows |
| CarverBase.SeamCarverBase.AddRun | src/SeamCarverBase.java:113-117 | the loop stops after min(count, depth) - 1 adds, leaving at least one entry, with the popped entries explaining the new rows |
| CarverBase.SeamCarverBase.StepAdded | src/SeamCarverBase.java:115-116 | one add pops the next entry of the batch and keeps the popped entries explaining the rows |
| CarverBase.SeamCarverBase.UpdateImage | src/SeamCarverBase.java:243-249 | highlights the top seam only when asked and the stack is non-empty; otherwise shows the plain image |
| CarverBase.SeamCarverBase.CopyRow | src/SeamCarverBase.java:255-257 | writes the first width cells of the row at the given offset and nothing else |
| CarverBase.SeamCarverBase.PaintRow | src/SeamCarverBase.java:275-279 | paints the in-range cells around pathIndex within that row and nothing else |
| CarverBase.SeamCarverBase.UpdateImagePlain | src/SeamCarverBase.java:252-260 | data[h * width + w] == image[h][w] for every cell; the cells from height * width on keep their old values |
| CarverBase.SeamCarverBase.UpdateImagePath | src/SeamCarverBase.java:269-282 | the snapshot shows the image with each row's path[h]-1..path[h]+1 in range painted color; the cells from height * width on keep their old values |
| LegacyCarver.WalkAndCutRows | src/SeamCarver.java:171-194 | the combined loop walks exactly ExtractSeam of the map and cuts it from pixel and gradient rows, collecting the removed values |
| LegacyCarver.WalkStart | src/SeamCarver.java:171-174 | the first column is the first minimum of map row 0, and its cell is cut from row 0 of both grids |
| LegacyCarver.WalkStep | src/SeamCarver.java:179-193 | one pass extends the walk by NextColumn and cuts that row |
| LegacyCarver.SeamCarver.constructor | src/SeamCarver.java:43-66 | the gradient is the Sobel result (with its two empty extra lists), the map is built, the pixel rows copy the input, the snapshot shows them, and the stacks are empty |
| LegacyCarver.SeamCarver.GetHeight | src/SeamCarver.java:69-71 | returns the height |
| LegacyCarver.SeamCarver.GetWidth | src/SeamCarver.java:74-76 | returns the current width |
| LegacyCarver.SeamCarver.GetImage | src/SeamCarver.java:79-81 | returns the snapshot buffer itself |
| LegacyCarver.SeamCarver.SetUpdate | src/SeamCarver.java:216-218 | sets the flag and nothing else |
| LegacyCarver.SeamCarver.SetEdge | src/SeamCarver.java:227-229 | changes exactly edges[y][x]; the map is not rebuilt |
| LegacyCarver.SeamCarver.WalkAndCut | src/SeamCarver.java:166-195 | cuts the extracted seam from pixel and gradient rows, returns the removed values and decrements width; the stacks are untouched |
| LegacyCarver.SeamCarver.Remove | src/SeamCarver.java:163-208 | fails and changes nothing exactly when width is 2. Otherwise it removes the extracted seam, rebuilds the map and pushes the undo entry. On a fresh map that seam has the least total gradient of all connected seams. The seam is in range of the old pixel and gradient rows |
| LegacyCarver.SeamCarver.Carve | src/SeamCarver.java:171-206 | walk and cut, refresh, rebuild the map, push, in the source's order, ending in a valid state with a fresh map |
| LegacyCarver.SeamCarver.Push | src/SeamCarver.java:204-206 | appends the path and the removed values to the three stacks and nothing else |
| LegacyCarver.SeamCarver.Add | src/SeamCarver.java:110-134 | fails and changes nothing exactly on an empty stack. Otherwise it splices the top seam back, increments width, refreshes the snapshot and rebuilds the map |
| LegacyCarver.SeamCarver.SpliceState | src/SeamCarver.java:113-124 | pops the top entries and splices them back into pixel and gradient rows, keeping the stacks replayable |
| LegacyCarver.SeamCarver.Refresh | src/SeamCarver.java:196-202 | with update set, the snapshot shows the image, highlighted when asked; otherwise it is untouched |
| LegacyCarver.SeamCarver.EnergyMap | src/SeamCarver.java:249-266 | the map holds the backward recurrence over the gradient rows |
| LegacyCarver.SeamCarver.RemoveMany | src/SeamCarver.java:144-154 | returns 0 with no change only at width 2 (no count guard). Otherwise it removes min(max(count, 1), width - 2) seams. The first seam is the walk over the old map and each later one the walk over the fresh map of the gradient rows left by the earlier cuts. Replaying the new entries gives back the old rows |
| LegacyCarver.SeamCarver.RemoveBatch | src/SeamCarver.java:146-153 | the same past the no-op test, as a batch from the given start state and map |
| LegacyCarver.SeamCarver.RemoveRun | src/SeamCarver.java:146-151 | between setUpdate(false) and setUpdate(true), the loop stops after min(max(count, 1), width - 2) - 1 removes, which form a batch from the start state |
| LegacyCarver.SeamCarver.StepGreedy | src/SeamCarver.java:148-152 | one remove takes the walk over the current map and extends the batch by it; the map is rebuilt fresh |
| LegacyCarver.SeamCarver.MapIsFresh | src/SeamCarver.java:249-266 | a map kept fresh in the array is, read as rows, the map energyMap builds from the current gradient rows |
| LegacyCarver.SeamCarver.RemoveThenAddRestores | src/SeamCarver.java:110-134 | remove followed by add restores the width, the three stacks, the pixel rows and the gradient rows, and leaves the map fresh |
| LegacyCarver.SeamCarver.AddMany | src/SeamCarver.java:91-101 | returns 0 with no change only on an empty stack (no count guard). Otherwise it adds min(max(count, 1), depth) seams, and the popped entries replayed onto the old rows give the new rows |
| LegacyCarver.SeamCarver.AddRun | src/SeamCarver.java:93-97 | the loop stops after min(max(count, 1), depth) - 1 adds, leaving at least one entry |
| LegacyCarver.SeamCarver.StepAdded | src/SeamCarver.java:95-96 | one add pops the next entry of the batch and keeps the popped entries explaining the rows |
| LegacyCarver.SeamCarver.UpdateImage | src/SeamCarver.java:237-243 | highlights the top seam only when asked and the stack is non-empty; otherwise shows the plain image |
| LegacyCarver.SeamCarver.CopyRow | src/SeamCarver.java:273-275 | writes the first width cells of the row at the running index, advances the index by width, and nothing else changes |
| LegacyCarver.SeamCarver.PaintRow | src/SeamCarver.java:293-297 | paints the in-range cells around pathIndex within that row and nothing else |
| LegacyCarver.SeamCarver.UpdateImagePlain | src/SeamCarver.java:269-277 | the running-index copy leaves data[h * width + w] == image[h][w] for every cell; the cells from height * width on keep their old values |
| LegacyCarver.SeamCarver.UpdateImagePath | src/SeamCarver.java:286-299 | the snapshot shows the image with each row's path[h]-1..path[h]+1 in range painted color; the cells from height * width on keep their old values |

## Left out

- The Swing GUI, the console front end, `Main` and `SeamCarverFactory`'s
  file-reading overloads are not part of this model. They are user interface
  and I/O. The factory's choice of carver is the `EnergyType` tag.
- `Utils.parallel` runs a stripe loop on every core. Each such loop is
  modelled as one sequential loop over all rows; the stripes write disjoint
  cells, so the result is the same. Thread scheduling is not modelled.
- `Utils.delay`, `getDimensions`, `joinPath`, `readImage` and `writeImage`
  are not part of this model. They are clock, screen, file-system and ImageIO
  calls.
- The file-name constructor `SeamCarver(String)` is left out because it only
  reads a file; the grid constructor is modelled.
- Java's 32-bit `int` arithmetic is modelled by unbounded integers. The
  energy sums in the maps could overflow only for images of millions of rows.
  `Utils.SobelBounded` shows that the Sobel kernel itself cannot overflow.
- Utils.Abs: does not model `Math.abs(Integer.MIN_VALUE)`, which stays
  negative in Java; every operand here is a difference of small values.
- Java arrays may be ragged. The model uses rectangular `array2` grids, which
  is what every caller passes.
- The constructors require at least 1 row and 2 columns. The source does
  not reject other shapes up front, and they behave as follows. An image
  with no rows throws at src/SeamCarverBase.java:43 (src/SeamCarver.java:45
  for the legacy class). With 1 column and at least 2 rows, the Backward and
  legacy constructors throw when they read `map[h + 1][1]`
  (src/SeamCarverBackward.java:44, src/SeamCarver.java:258). A 1-column
  Forward carver is built, because its neighbours wrap modulo the width. Its
  first remove cuts row 0 (src/SeamCarverBase.java:195-196) and then throws
  at `row[1]` (src/SeamCarverBase.java:204) when there are at least 2 rows.
  A 1 by 1 Backward or legacy carver is built: the loop at
  src/SeamCarverBackward.java:42 starts at h = -1 and does not run. So is a
  1 by 1 Forward carver. In both cases the first remove succeeds and leaves
  width 0. With 0 columns, the Backward and legacy constructors go through
  `Utils.pad`. Its read of `image[h - pad][0]` (src/Utils.java:128) throws
  inside the worker threads of `Utils.parallel`, which ends those threads
  only. `Utils.sobel` then returns empty rows. The constructor then throws at
  `map[h + 1][1]` as above when there are at least 2 rows. A 1-row image
  gives a carver whose first remove throws at `data[0]` in `Utils.argmin`
  (src/Utils.java:103). A 0-column Forward carver is built, because its
  loops over columns do not run, and its first remove throws at the same
  `data[0]`. None of these paths is modelled.
- CarverBase.SeamCarverBase.SetEnergy: an out-of-range coordinate throws
  `IndexOutOfBoundsException` in the source. Here in-range coordinates are a
  precondition. Any int value is accepted, as in the source: src/GUI.java:428
  writes 0, 255 or a random gray level. The map sums are unbounded here.
  In Java an extreme value can overflow the 32-bit sums of `energyMap`,
  which is not modelled.
- LegacyCarver.SeamCarver.SetEdge: same as SetEnergy. src/Main.java:272
  writes -500 or 500 through `setEdge`. Negative gradients are allowed, and
  overflow of the 32-bit map sums is not modelled.
- `SeamCarver.remove` calls `Utils.minIndex`, which `Utils.java` does not
  define. The model uses `Utils.argmin`, which the base class calls at the
  same point.
- CarverBase.SeamCarverBase.Remove: optimality of the removed seam is stated
  only for the Backward carver. The Forward carver's walk runs over local
  costs and promises no optimality.
- The base `remove` refreshes the snapshot before it pushes the undo entry.
  The model pushes first. The refresh reads only the path, so the resulting
  state is the same.
- After `setEnergy` or `setEdge` the map is stale until the next successful
  add or remove. The model states this as the map no longer being required
  to be fresh. It does not say which seam a stale map yields.
- `Forward.ParentTable`, `Forward.Trace` and `Backward.Descent` are proof
  devices used to exhibit optimal paths. They have no counterpart in the
  source.
