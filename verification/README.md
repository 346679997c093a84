# staswork in Dafny

staswork is a desktop tool for annotating images with dot grids. The user
draws a lasso polygon on an uploaded image. A rotated square lattice of dots is
laid over the polygon, and the first `amount` grid points are kept. A kept
point must fall inside the polygon and stay `padding` away from its edges.
Each commit turns the current lattice into a layer of the image's history.
Layers can be shown or hidden, edited again or deleted. Free texts and free
("standalone") dots can be placed, dragged and nudged with the arrow keys.
Each dot of a layer can carry its own numbering-label overrides. The overview
panels split the requested dot count between layers and between images in
proportion to their polygon areas, using the largest-remainder rule.
The export draws every image with its visible layers into a PNG and packs the
PNGs into a zip archive. Pages of a PDF go into one folder per PDF.

This project models that core as pure functions over immutable datatypes.
Loops that the source writes out are modelled as methods: the lattice scan,
the point-in-polygon test and the largest-remainder `indexOf`. Each of these
methods is proved equal to a functional reference.

Modules, one per area of the source:

| file | module | what it models |
|---|---|---|
| wrappers.dfy | Wrappers | `Option` |
| geometry.dfy | Geometry | point–segment distance, ray-casting point in polygon, bounds, centre, rotation, shoelace area (`src/lib/utils.ts`) |
| allocation.dfy | Allocation | `calculatePercentage`, `calculateProportions` and the overview panel's per-image share |
| amount.dfy | Amount | the dot count kept as a digit string |
| stepper.dfy | Stepper | the step arrows and password switch of the shared input |
| collections.dfy | Collections | the id-keyed `map`/`filter`/`find` the stores share |
| elements.dfy | Elements | texts, standalone dots and their stores |
| layers.dfy | Layers | layer history, commit, edit, delete, visibility, reset |
| workspace.dfy | Workspace | images, the active image, upload, select, clear, mode buttons, drop |
| shares.dfy | Shares | the local and global percentage and count panels |
| lattice.dfy | Lattice | the dot-lattice memo |
| interaction.dfy | Interaction | lasso callbacks and the keyboard handler |
| drag.dfy | Drag | mouse dragging of texts and standalone dots |
| numbering.dfy | Numbering | the numbering-label (hash) settings panel |
| panels.dfy | Panels | the text and dot settings panels |
| compositing.dfy | Compositing | export drawing and the on-screen history renderer, as draw-command lists |
| archive.dfy | Archive | output names and the zip layout |
| exportflow.dfy | Export | the download run, its dialog states and the progress dialog |
| cache.dfy | Cache | the capped blob cache of the image service |
| pages.dfy | Pages | the PDF page-selection dialog |

Conventions:
- Coordinates, sizes and areas are `real`s. Counts are `nat`s or `int`s.
- Strings are `seq<char>`.
- The numbering overrides, which the source declares optional (`hashFontSize?` and the like), are `Option`s. The `visible` flag of texts and dots and a layer's `standaloneDots` are declared required, but the source reads them defensively: the export uses `visible !== false`, the on-screen dot renderer uses truthiness, the panels use `visible !== undefined ? visible : true`, and the layer readers use `standaloneDots || []`. These reads disagree on a missing value, so the model gives these fields an `Option` and models each read as written. The panels' read keeps a `null` flag as `null`; `null` lies outside the declared type and is not modelled.
- Initial values are constants of the model:
  - new texts: size 75, font "Arial", colour "#000000", text "";
  - new dots: size 13, colour "#000000";
  - canvas: amount "", size 13, padding 0, gap 10, rotation 0, edit index -1, results `[{0,0}]`.

## Model

| member | source | states |
|---|---|---|
| Geometry.SegmentDistSq | src/lib/utils.ts:30-65 | the squared distance to a segment is non-negative, and for a zero-length segment it is the squared distance to its one point |
| Geometry.SegmentDistIsMinimum | src/lib/utils.ts:43-60 | the clamped projection gives a distance no larger than that of any point of the segment |
| Geometry.SegmentDistAttained | src/lib/utils.ts:43-60 | some point of the segment is exactly at the measured distance; with the row above, the function computes the true point–segment distance |
| Geometry.MinimumBefore | src/lib/utils.ts:50-52 | when the projection falls before the start, the start point is at least as close as any point of the segment |
| Geometry.MinimumAfter | src/lib/utils.ts:53-55 | when the projection falls past the end, the end point is at least as close as any point of the segment |
| Geometry.MinimumInside | src/lib/utils.ts:56-59 | when the projection falls on the segment, the projected point is at least as close as any point of the segment |
| Geometry.SegmentDistAtMostEndpoints | src/lib/utils.ts:30-65 | the distance to a segment never exceeds the distance to either endpoint |
| Geometry.ZeroLengthSegment | src/lib/utils.ts:41-45 | a zero squared length means the two endpoints coincide, so the early return is exact |
| Geometry.NonZeroLength | src/lib/utils.ts:41-45 | distinct endpoints give a positive squared length, so the division that follows is defined |
| Geometry.InsideIsParity | src/lib/utils.ts:69-89 | after any number of edges, the toggled `inside` flag is true exactly when an odd number of edges crossed the ray |
| Geometry.InPolygonIsOddCrossings | src/lib/utils.ts:69-89 | a point is in the polygon exactly when the polygon has at least three vertices and an odd number of its edges cross the horizontal ray |
| Geometry.NoPointInDegeneratePolygon | src/lib/utils.ts:70 | fewer than three vertices contain no point |
| Geometry.IsPointInPolygon | src/lib/utils.ts:69-89 | the loop's answer is the crossing-parity rule, with the early `false` for fewer than three vertices |
| Geometry.BoundsOfPrefix | src/lib/utils.ts:101-106 | after k vertices the running bounds contain every one of them and each bound is attained by one of them |
| Geometry.PolygonBounds | src/lib/utils.ts:93-109 | the bounds contain every vertex and are attained by vertices; an empty polygon gets the all-zero box |
| Geometry.PolygonCenter | src/lib/utils.ts:112-127 | the vertex mean lies inside the polygon's bounds; an empty polygon's centre is the origin |
| Geometry.MeanInBounds | src/lib/utils.ts:112-127 | the mean of the vertices lies inside the bounding box |
| Geometry.RotatePoint | src/lib/utils.ts:130-149 | the centre of rotation stays fixed |
| Geometry.RotationPreservesDistance | src/lib/utils.ts:139-148 | for a genuine rotation (cos² + sin² = 1) the distance to the centre is unchanged |
| Geometry.RotationRoundTrip | src/lib/utils.ts:130-149 | rotating by an angle and then by its negative gives back the point |
| Geometry.PolygonArea | src/lib/utils.ts:152-165 | the area is non-negative, and zero below three vertices |
| Geometry.ShoelaceIsClosedSum | src/lib/utils.ts:158-162 | the wrapped-index loop equals the shoelace sum of the closed chain |
| Geometry.AreaRotationInvariant | src/lib/utils.ts:152-165 | the area does not depend on which vertex the outline starts at |
| Geometry.AreaReversalInvariant | src/lib/utils.ts:152-165 | the area does not depend on the orientation of the outline |
| Geometry.ClosedSumReverse | src/lib/utils.ts:152-165 | reversing the outline negates the shoelace sum, wrap edge included |
| Allocation.Round | src/lib/utils.ts:170 | `Math.round` returns the integer within half a unit, halves going up |
| Allocation.Percentage | src/lib/utils.ts:168-171 | the percentage is undefined exactly when the total is zero; otherwise it is the nearest integer to area·100/total |
| Allocation.PercentageOfPartInRange | src/lib/utils.ts:168-171 | one of several non-negative areas with a positive total gets a percentage between 0 and 100 |
| Allocation.Floors | src/lib/utils.ts:175-176 | each floor is the whole number of dots of its share |
| Allocation.Remainders | src/lib/utils.ts:177 | each remainder is the fractional part of its share, scaled to 0..99 |
| Allocation.ArgMax | src/lib/utils.ts:183 | `indexOf(Math.max(...))` picks a maximal remainder, the first one on ties |
| Allocation.IndexOfMax | src/lib/utils.ts:183 | the scan returns the first position of the maximum |
| Allocation.DistributeSum | src/lib/utils.ts:179-188 | the loop adds exactly the missing dots, or none when none are missing |
| Allocation.DistributeGrows | src/lib/utils.ts:181-186 | the loop never takes a dot away |
| Allocation.DistributeGainsOne | src/lib/utils.ts:181-186 | with at most as many missing dots as positive fractions, each share gains at most one dot, and only shares with a positive fraction gain |
| Allocation.DistributeOrdersByFraction | src/lib/utils.ts:181-186 | every share that gains a dot has a larger fraction than every share that does not, ties going to the earlier share |
| Allocation.DistributeLargestRemainders | src/lib/utils.ts:181-186 | the loop implements the largest-remainder rule |
| Allocation.ProportionsOfWholeHundred | src/lib/utils.ts:174-189 | percentages summing to 100 hand out exactly the amount, each share its floor or one more, the extras going to the largest fractions |
| Allocation.ProportionsTotal | src/lib/utils.ts:174-189 | for any input the result is at least the floors and sums to the amount, or to the floors when they already exceed it |
| Allocation.WholeHundredMissing | src/lib/utils.ts:174-189 | for percentages summing to 100 the floors fall short of the amount by no more than the number of shares with a positive fraction, so the loop never runs past them |
| Allocation.Proportions | src/lib/utils.ts:174-189 | one count per share, none below its floor |
| Allocation.ProportionsWithinHundred | src/lib/utils.ts:174-189 | non-negative percentages summing to at most 100 hand out exactly the amount |
| Allocation.FloorsAtMostAmount | src/lib/utils.ts:174-189 | such percentages never floor to more than the amount |
| Allocation.ProportionsOfZeros | src/lib/utils.ts:174-189 | all-zero percentages give the whole amount to the first share |
| Allocation.DistributeToFirst | src/lib/utils.ts:174-189 | with all fractions zero, every missing dot lands on index 0 |
| Allocation.ProportionsOfNothing | src/lib/utils.ts:174-189 | no shares give an empty result, whatever the amount |
| Allocation.CalculateProportions | src/lib/utils.ts:174-189 | the imperative floors–remainders–loop computes the reference allocation |
| Allocation.ImageShare | src/renderer/src/components/shared/global.component.tsx:41 | a zero total gives 0; a part of a positive total gives 0..100 |
| Allocation.ImageShares | src/renderer/src/components/shared/global.component.tsx:36-42 | one share per image, each against the sum of all image areas |
| Allocation.ImageSharesInRange | src/renderer/src/components/shared/global.component.tsx:41 | every image share lies between 0 and 100 |
| Shares.LayerAreas | src/components/shared/local.component.tsx:62-64 | one non-negative area per layer, the shoelace area of its outline |
| Shares.AreaPercentage | src/components/shared/local.component.tsx:60-68 | an outline's share of all the layers' area, rounded to the nearest percent and never negative; undefined exactly when that total is zero |
| Shares.LayerPercentageInRange | src/components/shared/local.component.tsx:60-68 | a layer's percentage is undefined only for a zero total, and otherwise lies in 0..100 |
| Shares.PercentageIgnoresVisibility | src/components/shared/local.component.tsx:60-68 | hiding or showing a layer changes no percentage, since hidden layers still count |
| Shares.LayerPercentages | src/components/shared/local.component.tsx:100-103 | the list is defined exactly when the total area is not zero, and then holds each layer's percentage |
| Shares.HoverCount | src/components/shared/local.component.tsx:99-104 | a count is shown exactly when the layer percentages are defined, and it is that layer's entry of the proportional allocation of the typed amount |
| Shares.HoverCountsAddUp | src/components/shared/local.component.tsx:99-104 | when the rounded percentages add up to at most 100, the hover counts of all layers add up to the requested amount |
| Shares.ImageArea | src/renderer/src/components/shared/global.component.tsx:31-33 | an image's area is non-negative |
| Shares.ImageAreas | src/renderer/src/components/shared/global.component.tsx:31-33 | one entry per image, the sum over all its layers |
| Shares.ImagePercentages | src/renderer/src/components/shared/global.component.tsx:36-42 | every image percentage is in 0..100, and all are zero when there is no area |
| Shares.ImageAreaIgnoresVisibility | src/renderer/src/components/shared/global.component.tsx:31-40 | toggling a layer's visibility changes no image's area |
| Shares.NoAreaGoesToFirstImage | src/renderer/src/components/shared/global.component.tsx:41-47 | with no area anywhere, the first image is shown the whole amount and every other image zero |
| Shares.ImageCount | src/renderer/src/components/shared/global.component.tsx:36-47 | an image's count is at least the floor of its percentage of the amount |
| Shares.ImageCounts | src/renderer/src/components/shared/global.component.tsx:36-47 | one count per image, in image order |
| Shares.ImageCountsAddUp | src/renderer/src/components/shared/global.component.tsx:36-47 | when the rounded image percentages add up to at most 100, the counts of all images add up to the requested amount |
| Amount.DigitsOnly | src/components/shared/canvas.settings.tsx:62-66 | the filter leaves only digits, never lengthens the text, and keeps a digit string as it is |
| Amount.DigitsOnlyIdempotent | src/components/shared/canvas.settings.tsx:65 | filtering twice is filtering once |
| Amount.NatToString | src/components/shared/local.component.tsx:50 | a written count is a non-empty digit string |
| Amount.ParseNatToString | src/components/shared/local.component.tsx:50 | reading back a written count gives the count |
| Amount.NatToStringSurvivesFilter | src/components/shared/canvas.settings.tsx:65 | a count written back by the edit button passes the input filter unchanged |
| Stepper.Step | src/components/ui/input.component.tsx:75-84 | the stepped value is raised to `min` when below it and lies within ordered bounds; without bounds it is current + delta |
| Stepper.StepUpDown | src/components/ui/input.component.tsx:74-125 | within bounds, one step up followed by one step down cancels |
| Stepper.AmountArrow | src/components/ui/input.component.tsx:74-95 | the arrow on the count field yields digits, and the stepped count whenever that count is not negative |
| Stepper.DecrementFromZeroIncreases | src/components/ui/input.component.tsx:105-121 | on an empty or zero count the down arrow yields "1" (see Findings) |
| Stepper.AmountArrowClamped | src/components/ui/input.component.tsx:105-114 | with a lower bound of zero the arrow yields the stepped count, cut at zero |
| Stepper.ClampedArrowsMonotone | src/components/ui/input.component.tsx:74-125 | with the bound, down never raises the count, it lowers a positive count by one, and up raises it by one |
| Stepper.InputType | src/components/ui/input.component.tsx:27-32 | only a password field changes type: shown as text exactly while revealed |
| Collections.UpdateById | src/context/text.context.tsx:55 | elements with the id get the merge, all others stay, the length is kept |
| Collections.RemoveById | src/context/text.context.tsx:63 | the survivors are exactly the elements without the id |
| Collections.FindById | src/renderer/src/components/features/text.settings.tsx:46 | `find` fails exactly when no element carries the id, and otherwise returns the element at the first position that carries it |
| Collections.UpdateUnknownId | src/context/text.context.tsx:55 | updating an absent id changes nothing |
| Collections.RemoveUnknownId | src/context/text.context.tsx:63 | removing an absent id changes nothing |
| Collections.RemoveAfterUpdate | src/context/text.context.tsx:55-63 | removing after an id-keeping update is removing outright |
| Collections.RemoveConcat | src/context/text.context.tsx:63 | removal distributes over concatenation, so survivors keep their order |
| Collections.FindUnique | src/renderer/src/components/features/text.settings.tsx:46 | with unique ids, finding an element's id finds that element |
| Collections.UpdateCompose | src/context/text.context.tsx:55 | two updates of one id compose into one |
| Elements.UpdateText | src/context/text.context.tsx:52-59 | every text with the id gets the patch merged in, the others and the selection stay |
| Elements.UpdateDot | src/context/dot.context.tsx:43-50 | every dot with the id gets the patch merged in, the others and the selection stay |
| Elements.Delete | src/context/text.context.tsx:61-69 | all elements with the id go, all others stay, and the selection ends only if it was that id |
| Elements.Select | src/context/text.context.tsx:71-73 | only the selection changes |
| Elements.Clear | src/context/text.context.tsx:75-78 | no elements and no selection remain |
| Elements.ThenText | src/context/text.context.tsx:55 | merging `{...p, ...q}` equals merging p and then q |
| Elements.ThenDot | src/context/dot.context.tsx:46 | the same for dot patches |
| Elements.UpdateUnknownText | src/context/text.context.tsx:55 | updating an unknown text id leaves the store as it was |
| Elements.UpdateUnknownDot | src/context/dot.context.tsx:46 | updating an unknown dot id leaves the store as it was |
| Elements.UpdateTextTwice | src/context/text.context.tsx:52-59 | two updates of one text merge like one update with both patches |
| Elements.DeleteAfterUpdateText | src/context/text.context.tsx:52-69 | deleting after updating a text is deleting it outright |
| Elements.DeleteAfterUpdateDot | src/context/dot.context.tsx:43-60 | deleting after updating a dot is deleting it outright |
| Elements.DeleteUnknown | src/context/text.context.tsx:61-69 | deleting an unknown id keeps every element |
| Layers.NewLayer | src/components/shared/canvas.settings.tsx:227-240 | a committed layer is visible, holds the generated points as plain dots, the outline and sliders, the editor's texts and dots, and no numbering |
| Layers.Commit | src/components/shared/canvas.settings.tsx:224-255 | outside area and text mode nothing happens; otherwise the layer is appended (edit index -1) or replaces the edited one, the other layers stay, the outline, texts and dots of the editor are cleared, and the amount, sliders and modes are kept |
| Layers.Reset | src/components/shared/canvas.settings.tsx:208-217 | the edit ends; in text mode the loose texts go, otherwise the outline goes; nothing else changes |
| Layers.Edit | src/components/shared/local.component.tsx:46-58 | the layer's outline, points and sliders are loaded back, the amount becomes its dot count, the area is closed and its index becomes the edited one; the session's texts and loose dots stay as they were, and an index with no layer changes nothing |
| Layers.EditCommitRoundTrip | src/components/shared/local.component.tsx:46-58 | editing a layer without numbering and committing again with the same generated positions restores its settings and dot positions, makes it visible, ends the edit and leaves every other layer alone |
| Layers.EditCommitRestores | src/components/shared/local.component.tsx:46-58 | the round trip gives back the very same history when the layer is visible, has no numbering and no per-dot overrides, and the session still holds exactly its texts and loose dots |
| Layers.ToggleVisibility | src/components/shared/local.component.tsx:40-44 | only the visibility of that layer flips |
| Layers.ToggleTwice | src/components/shared/local.component.tsx:40-44 | toggling twice restores the history |
| Layers.DeleteLayer | src/components/shared/local.component.tsx:124-128 | one layer fewer, the others in order |
| Layers.DeleteThenCommitHitsWrongLayer | src/components/shared/local.component.tsx:124-128 | deleting an earlier layer during an edit makes the commit overwrite the wrong layer (see Findings) |
| Layers.DeleteLayerKeepingEdit | src/components/shared/local.component.tsx:124-128 | corrected delete: the edit index keeps naming the edited layer, or ends when that layer goes |
| Layers.DeleteKeepingEditThenCommit | src/components/shared/local.component.tsx:124-128 | with the corrected delete, the commit replaces exactly the edited layer |
| Workspace.UpdateActive | src/context/canvas.context.tsx:102-113 | only images with the active id change; without an active id nothing does |
| Workspace.UpdateActiveHistory | src/context/canvas.context.tsx:102-113 | the active image's history becomes the new one; other images stay |
| Workspace.UpdateActiveTexts | src/context/canvas.context.tsx:115-126 | only the active image's loose texts change; no history changes |
| Workspace.UpdateActiveDots | src/context/canvas.context.tsx:128-141 | only the active image's loose dots change; no history changes |
| Workspace.SelectImage | src/context/canvas.context.tsx:88-94 | the image becomes active with no area, no edit and the reset results, and the state is consistent |
| Workspace.Upload | src/context/canvas.context.tsx:59-86 | new images are appended, and the first becomes active when none was |
| Workspace.UploadKeepsValid | src/context/canvas.context.tsx:76-80 | uploading keeps the edit index valid for the active history |
| Workspace.CommitActive | src/components/shared/canvas.settings.tsx:242-248 | the active image then shows the committed history (with nothing edited, its old history plus the new layer); every other image, and every other field of the active one, is unchanged |
| Workspace.CommitKeepsValid | src/components/shared/canvas.settings.tsx:242-248 | committing keeps the state consistent |
| Workspace.ClearAll | src/App.tsx:199-205 | with an active image, every image and the active id are dropped and the loose texts and dots are cleared, while the edit index is kept; without an active image nothing happens |
| Workspace.ClearLeavesStaleEdit | src/App.tsx:199-205 | clearing during an edit and uploading again leaves an edit index past the end of an empty history (see Findings) |
| Workspace.ClearAllEndingEdit | src/App.tsx:199-205 | corrected clear: the same, with the edit ended, and the state stays consistent |
| Workspace.ClearThenUploadStaysValid | src/App.tsx:199-205 | with the corrected clear, clearing and uploading keeps the state consistent |
| Workspace.SwitchMode | src/App.tsx:214-246 | every mode button drops the area; text and dot modes exclude each other and exactly the chosen one is on |
| Workspace.EnabledModeChangesMode | src/App.tsx:216-238 | an enabled mode button always changes the mode |
| Workspace.ImageFiles | src/App.tsx:58 | every dropped file whose type starts with "image/" is kept, as many times as it was dropped, and no other file is kept |
| Workspace.ImageFilesConcat | src/App.tsx:58 | filtering a drop in two parts gives the filtered parts one after the other, so the kept images stay in drop order |
| Workspace.ImageFilesSingle | src/App.tsx:58 | a single dropped file is kept exactly when its type starts with "image/" |
| Workspace.SameImagesSnoc | src/App.tsx:58 | one more dropped file keeps the kept images matching the drop: it is added exactly when it is an image |
| Workspace.Drop | src/App.tsx:54-82 | a drop without image files does nothing; otherwise it is an upload of the image files |
| Cache.Set | src/service/image.service.ts:13 | a present id is overwritten in place, a new one is appended, and other entries stay |
| Cache.Lookup | src/service/image.service.ts:2 | the `Map`'s entry for an id, absent exactly when no entry carries it |
| Cache.SetFinds | src/service/image.service.ts:13 | setting keeps ids unique, the new blob is found under its id, and every other id finds what it found before |
| Cache.StoreImage | src/service/image.service.ts:5-15 | on a valid cache: the result is valid and finds the stored blob; every other id finds what it found before, except that on a full cache a new id makes the oldest entry unreachable |
| Cache.Evict | src/service/image.service.ts:8-11 | below the cap nothing goes; at the cap exactly the first-inserted entry goes and the rest keep their order |
| Cache.EvictKeepsValid | src/service/image.service.ts:8-11 | eviction keeps ids unique and leaves room for one more entry |
| Cache.EvictForgetsOldest | src/service/image.service.ts:8-10 | on a full cache with unique ids, the first-inserted id is no longer found |
| Cache.EvictKeepsOthers | src/service/image.service.ts:8-11 | evicting from a full cache changes what no id other than the oldest finds |
| Cache.Cleanup | src/service/image.service.ts:17-22 | after cleanup no id is found |
| Lattice.Ceil | src/components/features/canvas.component.tsx:204 | `Math.ceil` returns the least integer not below x |
| Lattice.MaxRadius | src/components/features/canvas.component.tsx:189-194 | the radius is the largest of the four centre-to-bound distances |
| Lattice.HalfSteps | src/components/features/canvas.component.tsx:204 | enough whole steps to cover twice the radius |
| Lattice.RowCells | src/components/features/canvas.component.tsx:207-209 | cell c of a row is the point start + c·step·dirX + row·step·dirY |
| Lattice.AcceptedPass | src/components/features/canvas.component.tsx:213-236 | every accepted point passes the box test, lies in the polygon, and clears the edges unless the padding is zero |
| Lattice.Take | src/components/features/canvas.component.tsx:206-207 | the first n points, or all when there are fewer |
| Lattice.Jittered | src/components/features/canvas.component.tsx:231-233 | the k-th dot is the k-th accepted point plus the k-th random offset, or the point itself without jitter |
| Lattice.Dots | src/components/features/canvas.component.tsx:180-240 | no dots without a closed area; otherwise as many dots as requested, or all the grid offers when it offers fewer |
| Lattice.DotsPass | src/components/features/canvas.component.tsx:213-236 | every dot passed the three tests, after its jitter offset is taken off |
| Lattice.DotsNearAccepted | src/components/features/canvas.component.tsx:229-233 | with offsets in [0, 2), as `Math.random() * 2` draws them, every dot lies within [q.x, q.x + 2) × [q.y, q.y + 2) of a point q that passed the three tests |
| Lattice.NearFromOffset | src/components/features/canvas.component.tsx:229-233 | one dot: when taking its offset in [0, 2) back off gives an accepted point, or without jitter the dot is accepted itself, the dot lies within 2 of an accepted point on both axes |
| Lattice.GridRowsLength | src/components/features/canvas.component.tsx:205-206 | the first `rows` rows hold rows · maxSteps candidates |
| Lattice.CandidatesExamined | src/components/features/canvas.component.tsx:205-206 | the nested loops examine maxSteps² candidates, so no area gets more dots than that |
| Lattice.DotsOnGrid | src/components/features/canvas.component.tsx:206-209 | without jitter every dot is a cell of the rotated grid within maxSteps rows and columns |
| Lattice.AcceptedConcat | src/components/features/canvas.component.tsx:206-238 | acceptance filters each part of the scan independently |
| Lattice.AcceptedSubset | src/components/features/canvas.component.tsx:213-236 | every accepted point is one of the grid candidates |
| Lattice.GridRowsCells | src/components/features/canvas.component.tsx:206-209 | every point of the first rows is a cell of the grid |
| Lattice.EdgesClear | src/components/features/canvas.component.tsx:223-228 | `every` over the edges (i, (i+1) mod n) holds exactly when the point is padding away from each edge |
| Lattice.Test | src/components/features/canvas.component.tsx:213-235 | the loop body accepts exactly the points the reference accepts |
| Lattice.ChosenStep | src/components/features/canvas.component.tsx:206-236 | one more cell appends the point when it is accepted and room is left |
| Lattice.PrefixSaturated | src/components/features/canvas.component.tsx:206-207 | once `amount` points are chosen, later cells change nothing |
| Lattice.RowStep | src/components/features/canvas.component.tsx:207 | stopping a row at its end, or early when full, loses nothing |
| Lattice.ScanRow | src/components/features/canvas.component.tsx:207-237 | the inner loop collects the reference's choice for its row |
| Lattice.ScanGrid | src/components/features/canvas.component.tsx:206-238 | the nested loops collect the first `amount` accepted grid points in row-major order, jittered |
| Lattice.GridStops | src/components/features/canvas.component.tsx:206 | stopping the outer loop early when full loses nothing |
| Lattice.GenerateDots | src/components/features/canvas.component.tsx:180-240 | the memo as written computes the reference `Dots` |
| Interaction.LassoChange | src/components/features/canvas.component.tsx:76-84 | the outline follows the lasso, an empty lasso drops the area, nothing else changes |
| Interaction.LassoComplete | src/components/features/canvas.component.tsx:86-98 | at least three points become the area; fewer clear the outline and results |
| Interaction.CompletedAreaIsPolygon | src/components/features/canvas.component.tsx:86-98 | after completion there is an area exactly when the outline has three or more corners |
| Interaction.CompleteOverridesChange | src/components/features/canvas.component.tsx:76-98 | what the lasso reported while drawing does not matter once it completes |
| Interaction.Displacement | src/components/features/canvas.component.tsx:265-288 | each arrow moves along one axis by 1, or by 10 with shift, y growing downward; other keys do not move |
| Interaction.TextKey | src/components/features/canvas.component.tsx:261-297 | a missing text or another key changes nothing |
| Interaction.TextKeyDeletes | src/components/features/canvas.component.tsx:270-271 | Delete removes every text with the id, keeps the others and ends its selection |
| Interaction.TextKeyMoves | src/components/features/canvas.component.tsx:273-295 | an arrow sets every text with the id to the first match's position plus the displacement, and keeps the rest and the selection |
| Interaction.TextsMovedIds | src/components/features/canvas.component.tsx:293-295 | a move keeps every id, so unique ids stay unique |
| Interaction.TextsMoveBack | src/components/features/canvas.component.tsx:273-295 | moving by d and by -d restores the texts |
| Interaction.DotKey | src/components/features/canvas.component.tsx:299-334 | a missing dot or another key changes nothing |
| Interaction.DotKeyDeletes | src/components/features/canvas.component.tsx:308-309 | Delete removes every dot with the id, keeps the others and ends its selection |
| Interaction.DotKeyMoves | src/components/features/canvas.component.tsx:311-333 | an arrow sets every dot with the id to the first match's position plus the displacement, and keeps the rest and the selection |
| Interaction.DotsMovedIds | src/components/features/canvas.component.tsx:331-333 | a move keeps every id, so unique ids stay unique |
| Interaction.DotsMoveBack | src/components/features/canvas.component.tsx:311-333 | moving by d and by -d restores the dots |
| Interaction.KeyDown | src/components/features/canvas.component.tsx:259-335 | a selected text in text mode takes precedence over a selected dot in dot mode; with neither nothing changes |
| Interaction.OtherKeysIgnored | src/components/features/canvas.component.tsx:289-290 | keys other than Delete and the arrows change nothing |
| Interaction.OppositeDisplacement | src/components/features/canvas.component.tsx:273-288 | the opposite arrow moves by the opposite displacement |
| Interaction.TextArrowKeepsShape | src/components/features/canvas.component.tsx:273-295 | an arrow keeps the selection, the order and every id of the texts |
| Interaction.TextMovedBy | src/components/features/canvas.component.tsx:273-295 | with unique ids, an arrow moves the selected text by exactly the displacement |
| Interaction.TextArrowRoundTrip | src/components/features/canvas.component.tsx:273-295 | with unique ids, an arrow and then the opposite arrow restore the texts |
| Interaction.TextArrowAndBack | src/components/features/canvas.component.tsx:273-295 | the round trip for a text that exists |
| Interaction.DotArrowKeepsShape | src/components/features/canvas.component.tsx:311-333 | an arrow keeps the selection, the order and every id of the dots |
| Interaction.DotMovedBy | src/components/features/canvas.component.tsx:311-333 | with unique ids, an arrow moves the selected dot by exactly the displacement |
| Interaction.DotArrowRoundTrip | src/components/features/canvas.component.tsx:311-333 | with unique ids, an arrow and the opposite arrow restore the dots |
| Interaction.DotArrowAndBack | src/components/features/canvas.component.tsx:311-333 | the round trip for a dot that exists |
| Drag.ToViewBox | src/renderer/src/hook/canvas.hook.tsx:44-45 | no movement maps to no movement; a viewBox as large as the on-screen box scales by one |
| Drag.Target | src/renderer/src/hook/canvas.hook.tsx:41-48 | the pointer back at the press point puts the element back at its start |
| Drag.MouseDown | src/renderer/src/hook/canvas.hook.tsx:14-31 | the element is always selected; dragging starts exactly when there is an SVG and the element exists, from its position |
| Drag.MouseMove | src/renderer/src/hook/canvas.hook.tsx:35-52 | while dragging, a move replaces the pending frame and nothing else; idle, it does nothing |
| Drag.LatestMoveWins | src/renderer/src/hook/canvas.hook.tsx:35-40 | of two moves before a frame, only the second counts |
| Drag.Frame | src/renderer/src/hook/canvas.hook.tsx:40-51 | a pending frame moves every element with the dragged id to the target; with none pending nothing happens |
| Drag.MouseUp | src/renderer/src/hook/canvas.hook.tsx:54-63 | the release ends the drag |
| Drag.ReleaseDropsPendingMove | src/renderer/src/hook/canvas.hook.tsx:54-60 | a move released before its frame ran never reaches the element |
| Drag.DragIsAbsolute | src/renderer/src/hook/canvas.hook.tsx:41-50 | two frames in a row leave the element where one frame for the last pointer would |
| Drag.BackToStart | src/renderer/src/hook/canvas.hook.tsx:41-50 | pressing and moving back to the press point restores the store's items |
| Drag.ElementsObeyPlaceLaws | src/renderer/src/hook/canvas.hook.tsx:50 | texts and dots obey the position-writer laws, and writing a position is the store's `{x, y}` patch |
| Numbering.ZeroOffsetFallbacks | src/components/features/hash.settings.tsx:133-147 | with a zero layer offset, the layer view shows 5 (`||`) while a dot without override shows 0 (`??`) |
| Numbering.FallbacksAgree | src/components/features/hash.settings.tsx:133-156 | where the layer values are not zero, the two fallbacks agree for a dot without overrides |
| Numbering.SelectDot | src/components/features/hash.settings.tsx:167-172 | clicking the selected row deselects it; any other row becomes selected |
| Numbering.SelectDotTwice | src/components/features/hash.settings.tsx:167-172 | clicking the same row twice returns to the start |
| Numbering.ApplyHashEdit | src/components/features/hash.settings.tsx:213-329 | a size, offset, colour or position change writes the selected dot's override, or the layer's value without a selection, and nothing else |
| Numbering.ToggleHash | src/components/features/hash.settings.tsx:198-211 | the switch writes the layer's `hashEnabled` and nothing else |
| Numbering.StripOverrides | src/components/features/hash.settings.tsx:335-341 | the rest of the dot has no size, offset or colour override, and keeps position and label position |
| Numbering.HasCustomSettings | src/components/features/hash.settings.tsx:34-37 | a dot is customised exactly when clearing its size, offset and colour overrides would change it; its label position does not count |
| Numbering.StrippedDotFollowsLayer | src/components/features/hash.settings.tsx:141-156 | after stripping, a dot shows the layer's size, offset and colour |
| Numbering.RemoveDotHash | src/components/features/hash.settings.tsx:331-347 | the trash button strips that one dot of the selected layer, and nothing else changes |
| Numbering.ClearDotSettings | src/components/features/hash.settings.tsx:174-196 | with a dot selected, it is stripped and deselected; otherwise nothing changes |
| Numbering.ChangeLayer | src/components/features/hash.settings.tsx:160-165 | switching layers drops the dot selection |
| Numbering.EditThenRemove | src/components/features/hash.settings.tsx:213-347 | a dot edit of size, offset or colour followed by the trash button leaves the dot without overrides |
| Panels.AllTextsRows | src/renderer/src/components/features/text.settings.tsx:34-44 | the rows are the loose texts as they are, then exactly the texts of the visible layers, each with a defined visibility |
| Panels.AllDotsRows | src/components/shared/dot.settings.tsx:23-33 | the rows are the loose dots as they are, then exactly the standalone dots of the visible layers (a missing list counting as empty), each with a defined visibility |
| Panels.AllTexts | src/renderer/src/components/features/text.settings.tsx:34-44 | the loose texts come first, unchanged, and every row after them has a defined visibility |
| Panels.AllDots | src/components/shared/dot.settings.tsx:23-33 | the loose dots come first, unchanged, and every row after them has a defined visibility |
| Panels.ListedLayerTextsDrawAsExport | src/renderer/src/components/features/text.settings.tsx:39-42 | reading an undefined visibility as shown draws exactly the texts the export draws, in the same order |
| Panels.SelectedText | src/renderer/src/components/features/text.settings.tsx:46 | a found text carries the selected id and is a row of the panel; a selected id that some row carries is always found |
| Panels.SelectedDot | src/components/shared/dot.settings.tsx:35 | a found dot carries the selected id and is a row of the panel; a selected id that some row carries is always found |
| Panels.RowClick | src/renderer/src/components/features/text.settings.tsx:199-202 | clicking a row selects it, clicking the selected row deselects it |
| Panels.RowClickTwice | src/renderer/src/components/features/text.settings.tsx:199-202 | when nothing or that row was selected, two clicks on the row restore the selection |
| Panels.EditTextRouting | src/renderer/src/components/features/text.settings.tsx:92-117 | with a selected row the edit lands on the store texts with that id and never leaves one without text, and the settings stay; without one only the settings for new texts change |
| Panels.EditText | src/renderer/src/components/features/text.settings.tsx:92-117 | the selection and the number of texts are kept; without a selected row the store is untouched, with one the settings are |
| Panels.EditLayerTextIgnored | src/renderer/src/components/features/text.settings.tsx:76-78 | editing a text that only a layer holds changes nothing |
| Panels.EditDotSizeRouting | src/components/shared/dot.settings.tsx:78-86 | with a selected row the size lands on the store dots with that id and the settings stay; without one only the size for new dots changes |
| Panels.EditDotSize | src/components/shared/dot.settings.tsx:78-86 | the selection and the number of dots are kept; without a selected row the store is untouched and the new-dot size is set, with one the settings are untouched |
| Panels.ToggleTextAt | src/renderer/src/components/features/text.settings.tsx:119-127 | with unique ids, the `toggleTextVisibility` callback alone rewrites only that store text, setting `visible` to `!visible`, and keeps the selection |
| Panels.ToggleText | src/renderer/src/components/features/text.settings.tsx:119-127 | only the `visible` flag of the store texts with that id can change; every other text and the selection are kept |
| Panels.ToggleTextFlips | src/renderer/src/components/features/text.settings.tsx:119-127 | under the callback alone, a defined flag flips between shown and hidden, and an undefined one becomes explicitly shown, so the text is drawn as before |
| Panels.ToggleTextTwice | src/renderer/src/components/features/text.settings.tsx:119-127 | for a store text with a defined flag, two calls of the callback restore the store |
| Panels.ToggleLayerTextIgnored | src/renderer/src/components/features/text.settings.tsx:119-127 | the callback on a layer's text changes nothing, since the store holds no text with that id |
| Panels.EyeClickText | src/renderer/src/components/features/text.settings.tsx:199-216 | an eye click changes the texts as the callback does, and moves the selection as a click on the row does, because the click is not stopped at the button |
| Panels.EyeClickTextAt | src/renderer/src/components/features/text.settings.tsx:199-216 | with unique ids, an eye click on store text j flips that text's flag, and selects the row or deselects it when it was selected |
| Panels.EyeClickTextChangesSelection | src/renderer/src/components/features/text.settings.tsx:199-216 | every eye click changes the selection: it selects the row exactly when the row was not selected |
| Panels.EyeClickTextTwice | src/renderer/src/components/features/text.settings.tsx:199-216 | for a store text with a defined flag, two eye clicks restore the store exactly when nothing, or that row, was selected |
| Panels.EyeClickTwiceDropsOtherSelection | src/renderer/src/components/features/text.settings.tsx:199-216 | with another row selected, two eye clicks leave nothing selected |
| Panels.EyeClickLayerText | src/renderer/src/components/features/text.settings.tsx:199-216 | the eye click on a layer's text leaves the texts alone and only selects or deselects that row |
| Panels.ToggleDotAt | src/components/shared/dot.settings.tsx:88-96 | with unique ids, the eye button rewrites only that store dot, setting `visible` to `!visible` |
| Panels.ToggleDot | src/components/shared/dot.settings.tsx:88-96 | only the `visible` flag of the store dots with that id can change; every other dot and the selection are kept |
| Panels.ToggleDotFlips | src/components/shared/dot.settings.tsx:88-96 | a defined flag flips between shown and hidden; an undefined one becomes explicitly shown |
| Panels.ToggleDotTwice | src/components/shared/dot.settings.tsx:88-96 | for a store dot with a defined flag, two clicks restore the store |
| Panels.ToggleLayerDotIgnored | src/components/shared/dot.settings.tsx:88-96 | the eye button on a layer's dot changes nothing |
| Panels.PanelDelete | src/renderer/src/components/features/text.settings.tsx:129-137 | the deleted id is never left selected |
| Panels.PanelDeleteIsStoreDelete | src/renderer/src/components/features/text.settings.tsx:129-137 | the panel's own deselection repeats what the store's delete already does |
| Compositing.LabelsShowExactly | src/lib/export.utils.ts:64-71 | every text not hidden (`visible !== false`) is drawn, and nothing else |
| Compositing.LabelsAllShown | src/lib/export.utils.ts:64-71 | with no text hidden, every text is drawn, in order |
| Compositing.DotCirclesShowExactly | src/lib/export.utils.ts:73-80 | exactly the dots the visibility test keeps are drawn |
| Compositing.ExportLayer | src/lib/export.utils.ts:51-81 | a hidden layer draws nothing |
| Compositing.ExportLayers | src/lib/export.utils.ts:51-81 | when every layer is hidden, the history contributes nothing to the export |
| Compositing.ExportCommands | src/lib/export.utils.ts:49-104 | the image is drawn first and exactly once |
| Compositing.ExportSplitsAt | src/lib/export.utils.ts:51-81 | each layer contributes its own commands, in history order |
| Compositing.HidingRemovesLayer | src/lib/export.utils.ts:52 | hiding one layer removes exactly its commands |
| Compositing.ExportIgnoresEditorElements | src/lib/export.utils.ts:28-32 | the texts and dots passed by the caller are never drawn |
| Compositing.VisibleGridDots | src/lib/export.utils.ts:10-14 | the generated dots of the visible layers, and no others |
| Compositing.VisibleTexts | src/lib/export.utils.ts:16-20 | the texts of the visible layers, and no others |
| Compositing.VisibleStandaloneDots | src/lib/export.utils.ts:22-26 | the standalone dots of the visible layers, a missing list counting as empty |
| Compositing.LayerLabels | src/lib/export.utils.ts:63-71 | a layer's drawn texts are its shown texts when visible, none when hidden |
| Compositing.LayerCircles | src/lib/export.utils.ts:54-80 | a layer's circles are its generated dots, then its shown standalone dots |
| Compositing.LayerLabelsAreVisibleTexts | src/lib/export.utils.ts:51-81 | the texts drawn from the layers are the shown texts of the visible-layer texts |
| Compositing.ExportLabels | src/lib/export.utils.ts:49-93 | every text of the export, in order: the visible layers' shown texts, then the image's own |
| Compositing.LayerCircleCount | src/lib/export.utils.ts:51-81 | one circle per generated dot of a visible layer and per shown standalone dot |
| Compositing.SkipsNone | src/components/features/history.renderer.tsx:13-15 | an edit index that names no layer skips nothing |
| Compositing.PreviewLayerShows | src/components/features/history.renderer.tsx:17-30 | every text of the layer that is not hidden is drawn, whatever the layer's visibility, and the image itself is never redrawn |
| Compositing.PreviewNoBackdrop | src/components/features/history.renderer.tsx:13-33 | the preview of the history never redraws the image itself |
| Compositing.PreviewSkipsNothing | src/components/features/history.renderer.tsx:13-15 | any two such indexes draw the same |
| Compositing.PreviewSkipsEdited | src/components/features/history.renderer.tsx:13-15 | the edited layer is left out on screen |
| Compositing.PreviewKeepsAll | src/components/features/history.renderer.tsx:13-33 | with nothing edited, every layer is drawn in order |
| Compositing.PreviewMatchesExport | src/components/features/history.renderer.tsx:13-33 | on visible layers whose dots have a defined visibility, the screen and the export draw the same |
| Compositing.HiddenLayerTextsStayOnScreen | src/components/features/history.renderer.tsx:17-30 | a hidden layer exports nothing, yet its texts stay on screen |
| Compositing.SameDotFilter | src/components/features/dot.renderer.tsx:44 | on dots with a defined visibility the truthiness filter and `!== false` agree |
| Compositing.UndefinedDotVisibility | src/components/features/dot.renderer.tsx:44 | a dot of undefined visibility is exported but not shown on screen |
| Archive.IndexOf | src/lib/export.utils.ts:138-139 | the first occurrence at or after the start, or none at all |
| Archive.PageName | src/lib/export.utils.ts:137-160 | a marked name is its folder, the marker and the rest; the rename keeps the rest under "страница_" |
| Archive.StripExt | src/lib/export.utils.ts:113 | the final extension (a dot followed by no dot or slash) is removed, and a name without one is kept |
| Archive.OutputName | src/lib/export.utils.ts:113 | every output name ends in ".png" |
| Archive.StripAddedExt | src/lib/export.utils.ts:113 | stripping undoes adding an extension |
| Archive.OutputNameIdempotent | src/lib/export.utils.ts:113 | naming an already named output changes nothing |
| Archive.ExtensionsCollide | src/lib/export.utils.ts:113 | "scan.jpg" and "scan.png" get the same name |
| Archive.AddToFolder | src/lib/export.utils.ts:140-143 | the index joins the folder of its key, and a new folder is created at the end only for a new key |
| Archive.CollectLabelled | src/lib/export.utils.ts:137-147 | root files are unmarked names, and each folder holds exactly marked names whose prefix is its key |
| Archive.CollectOrdered | src/lib/export.utils.ts:137-147 | root files and each folder keep input order; folders have distinct keys and follow first appearance |
| Archive.CollectOnce | src/lib/export.utils.ts:137-147 | every image is recorded exactly once, at the root or in one folder |
| Archive.Collect | src/lib/export.utils.ts:137-147 | every index kept at the root names an image whose name has no page marker |
| Archive.Archive | src/lib/export.utils.ts:129-167 | the root files come first and the folder files after them |
| Archive.RootEntries | src/lib/export.utils.ts:149-151 | root files keep their names |
| Archive.FolderEntries | src/lib/export.utils.ts:153-164 | page files go into their folder under the renamed page name |
| Archive.ArchiveHoldsEachImageOnce | src/lib/export.utils.ts:129-167 | the archive holds one file per processed image, each image exactly once |
| Archive.PageRestores | src/lib/export.utils.ts:157-160 | a page's folder, "_" and its new name give back the original name |
| Archive.FolderEntriesRestore | src/lib/export.utils.ts:153-164 | every page file names its source and can be traced back to its name |
| Archive.ArchiveRestoresNames | src/lib/export.utils.ts:129-167 | unmarked names sit at the root under their own name; marked ones in their folder, restorable |
| Archive.NoPagesAllAtRoot | src/lib/export.utils.ts:137-151 | with no marked name, every image goes to the root in input order |
| Export.ErrorText | src/App.tsx:178 | an `Error` shows its own message; any other thrown value shows the unknown-error text |
| Export.Ending | src/App.tsx:166-180 | after the images: compressing, downloading and completed, cut short by the error state at the phase that fails |
| Export.RunConsistent | src/App.tsx:140-156 | every state a run sets keeps the dialog open on the real image count |
| Export.SuccessfulRun | src/App.tsx:140-172 | without faults the dialog opens on image 1, shows each image in turn, then compresses, downloads and completes |
| Export.SuccessfulOutput | src/App.tsx:148-170 | without faults every image is processed once, in order, archived and downloaded |
| Export.Process | src/lib/export.utils.ts:28-126 | the output is named with a `.png` extension, starts by drawing the image, and does not depend on the texts and dots passed in |
| Export.Download | src/App.tsx:136-181 | no images, no run; otherwise the dialog opens on the image count, the images are processed in order, the archive is built unless an image failed, and the download happens only without a fault |
| Export.FailedRun | src/App.tsx:173-180 | a failing run ends in the error state with the thrown message, never completes, and downloads nothing |
| Export.ImageFailureStopsRun | src/App.tsx:150-180 | a failure on image k skips the later images and all later phases |
| Export.RunStartsClean | src/App.tsx:140-146 | a new run opens with no error, on image 1 |
| Export.EmptyRun | src/App.tsx:137 | with no images nothing happens |
| Export.Close | src/App.tsx:183-185 | closing only closes the dialog, which then shows nothing |
| Export.NothingBeforeExport | src/App.tsx:106-112 | until the first run, nothing is shown |
| Export.Progress | src/components/shared/export.component.tsx:42-47 | compressing shows 90, downloading 95, completed 100 |
| Export.ProgressInRange | src/components/shared/export.component.tsx:46 | while processing, and after a failure, the bar is in (0, 80] |
| Export.ProgressNeverFalls | src/components/shared/export.component.tsx:42-47 | on a run without faults the bar never moves backwards |
| Export.ArchiveFailureDropsProgress | src/components/shared/export.component.tsx:42-47 | an archive failure sends the bar back from 90 to 80 |
| Export.ErrorMessage | src/components/shared/export.component.tsx:87 | a non-empty error is shown as is, otherwise the unknown-error text |
| Export.Dialog | src/components/shared/export.component.tsx:23-103 | nothing while closed; the close button only while processing; a message exactly on failure; one action except while compressing or downloading |
| Export.EmptyErrorMessage | src/components/shared/export.component.tsx:84-90 | an Error with an empty message, or a non-Error, still shows a message |
| Pages.Toggle | src/renderer/src/components/features/selection.component.tsx:105-115 | clicking a page flips its selection and no other |
| Pages.ToggleTwice | src/renderer/src/components/features/selection.component.tsx:105-115 | two clicks restore the selection |
| Pages.ToggleKeepsValid | src/renderer/src/components/features/selection.component.tsx:105-115 | clicking a page keeps every selected index naming a page |
| Pages.AllPages | src/renderer/src/components/features/selection.component.tsx:96-97 | exactly the indexes below the page count |
| Pages.NoPages | src/renderer/src/components/features/selection.component.tsx:122-124 | deselecting leaves nothing selected |
| Pages.Confirm | src/renderer/src/components/features/selection.component.tsx:126-130 | every selected page is handed over, and only pages |
| Pages.SelectedIndexes | src/renderer/src/components/features/selection.component.tsx:126-130 | the selected indexes that name pages, each once, in increasing order |
| Pages.ConfirmPicksSelected | src/renderer/src/components/features/selection.component.tsx:126-130 | confirming hands over exactly the pages of the selected indexes, in page order |
| Pages.ConfirmAll | src/renderer/src/components/features/selection.component.tsx:126-130 | confirming everything hands over every page, in order |
| Pages.ConfirmCount | src/renderer/src/components/features/selection.component.tsx:126-130 | as many pages are handed over as the button announces |
| Pages.EnabledConfirmNonEmpty | src/renderer/src/components/features/selection.component.tsx:205 | an enabled confirm hands over at least one page |

## Left out

- Floating point: NaN, Infinity and rounding error are not modelled. Coordinates and areas are exact reals, and `Math.round` and `Math.ceil` are exact functions on them.
- Trigonometry: `Math.cos` and `Math.sin` of the rotation angle are parameters of the lattice and of `RotatePoint`.
- Square roots: `Math.sqrt` in the point–segment distance is replaced by squared distances. For a positive padding the test compares the squared distance with the squared padding; a padding of zero or less is always met, since a distance is never negative.
- Randomness: the jitter's `Math.random() * 2` values are a parameter, one offset pair per accepted dot.
- Timing: the 150 ms throttle, `requestAnimationFrame` timing and the order of asynchronous callbacks are not modelled. A drag frame is an explicit step.
- Side effects on the document: the mouse and keyboard listeners, cursor styling and `preventDefault` are not modelled.
- Canvas and image decoding: `toBlob`, `Image` loading, `FileReader`, object URLs and `pasteImage` are left out. A processed image is its output name plus the list of draw commands.
- processFile and createImageDataWithMetadata: upload receives the decoded images as a parameter.
- PDF loading and rendering through pdfjs (`src/lib/pdf.utils.ts`, `src/renderer/src/service/pdf.service.ts`) is not part of this model. The page-selection dialog works on pages given as values.
- downloadArchive and JSZip's `generateAsync` are not modelled. The archive is modelled as the list of files written. Two files written to the same path would overwrite each other; Archive.ExtensionsCollide shows how that can happen.
- Closing the export dialog does not cancel a run in the source. The model keeps runs and the dialog separate.
- The numbering labels drawn next to dots on screen, and the unused jitter state of the canvas context, are not modelled.
- A patch field set explicitly to `undefined` is modelled as absent.
- Provider wiring: the tree is mid-refactor. `src/components/shared/canvas.settings.tsx` (lines 39-43) and `src/components/shared/dot.settings.tsx` (line 9) read `texts`, `setTexts`, `setSelectedTextId`, `standaloneDots` and `setStandaloneDots` from `useCanvasState`. `src/context/canvas.context.tsx` (lines 143-186) provides none of these; they are declared only on `LegacyCanvasState` in `src/types/index.d.ts`. `src/main.tsx` mounts only `CanvasProvider`, while `src/App.tsx` (lines 47-50) calls `useTextState` and `useDotState`, which throw outside their providers (`src/context/text.context.tsx`, lines 34-37). The model takes the intended wiring: those fields are the stores of `text.context.tsx` and `dot.context.tsx`, and every provider is mounted.
- Cache.Lookup: the service never reads its `Map` back. Lookup is how the model says what the cache holds.
- The layer `texts || []` fallback is not modelled: layer texts are always present.
- Export.Progress: requires a positive total. The source divides by zero only while the dialog is closed, and then the value is not shown.
- Export.Dialog: requires a positive total while open, for the same reason.
- Lattice.Dots: requires size + gap > 0. With a zero step the source divides by zero and loops over an infinite grid.
- Lattice.GenerateDots: requires size + gap > 0, for the same reason.
- Layers.Commit: requires the edit index to be at most the history length. With a larger index the source writes past the end of the array and leaves holes, which a sequence cannot hold. Workspace.ClearLeavesStaleEdit shows how such an index arises.
- Workspace.CommitActive: requires the same bound, on the active history.
- Drag.ToViewBox: requires an SVG with a non-zero on-screen size. Otherwise the source divides by zero.
- Drag.Target: requires a non-zero on-screen size as well.
- Drag.MouseDown: requires a non-zero on-screen size as well.
- Numbering.ApplyHashEdit: requires that a selected dot index names a dot of the layer. With a stale index the source would create a new dot object holding only the override.
- Numbering.RemoveDotHash: requires an in-range dot index, for the same reason.
- Numbering.ClearDotSettings: requires an in-range dot index, for the same reason.
- ToggleTextAt: states the `toggleTextVisibility` callback alone. The whole eye click also runs the row handler; EyeClickTextAt states that.
- ToggleTextFlips: states the callback alone. The eye click also moves the selection; EyeClickTextChangesSelection states that.
- ToggleTextTwice: states the callback alone. Two eye clicks restore the store only when nothing or that row was selected; EyeClickTextTwice states that.
- ToggleLayerTextIgnored: states the callback alone. The eye click on a layer's text still selects or deselects the row; EyeClickLayerText states that.
- Layers.EditCommitRoundTrip: does not claim the same history in general. The recommitted layer takes the session's current texts and loose dots, not the layer's own, and drops per-dot numbering overrides. Layers.EditCommitRestores states when the history does come back unchanged.
- Shares.HoverCountsAddUp: holds only when the rounded percentages add up to at most 100. Rounding can make them add up to more, and then the source's floors can exceed the amount.
- Shares.ImageCountsAddUp: holds only when the rounded image percentages add up to at most 100, for the same reason as Shares.HoverCountsAddUp.
- Allocation.DistributeLargestRemainders: states the largest-remainder order only while the missing dots are at most the number of positive fractions. Past that, the loop hands extra dots to index 0 again, and Allocation.ProportionsTotal still gives the total.

## Findings

| source | as written | input that shows it | evidently intended | confidence | as-written member | corrected member |
|---|---|---|---|---|---|---|
| src/components/shared/local.component.tsx:124-128 | deleting a layer does not adjust the edit index | layers [a, b, c] while editing index 1 (b); delete index 0; commit. The history becomes [b, new layer]: b is kept and c is overwritten | the edit index follows the edited layer, or ends when that layer is deleted | not executed | Layers.DeleteThenCommitHitsWrongLayer | Layers.DeleteLayerKeepingEdit, Layers.DeleteKeepingEditThenCommit |
| src/App.tsx:199-205 | clearing every image does not end the edit | edit index 1 on the active image; clear; upload one image. The edit index stays 1 on an empty history, so a commit would write past the end | clearing also ends the edit | not executed | Workspace.ClearLeavesStaleEdit | Workspace.ClearAllEndingEdit, Workspace.ClearThenUploadStaysValid |
| src/components/ui/input.component.tsx:105-114 | the down arrow on the dot-count field has no lower bound, and the digit filter (src/components/shared/canvas.settings.tsx:65) strips the minus sign | count "" or "0", down arrow: -1 becomes "1" | the count stays at 0 | not executed | Stepper.DecrementFromZeroIncreases | Stepper.AmountArrowClamped, Stepper.ClampedArrowsMonotone |
| src/renderer/src/components/features/text.settings.tsx:212-216 | the eye button of a text row calls `toggleTextVisibility` without `stopPropagation`, so the click also reaches the row handler at lines 199-202 | text B selected; click the eye of store text A. A's flag flips and A becomes the selected text; a second click on the eye leaves nothing selected and B's selection is lost | the eye button only toggles visibility, as the trash button next to it (line 224) and the dot panel's eye button (src/components/shared/dot.settings.tsx:160-161) do by stopping the click | not executed | Panels.EyeClickText, Panels.EyeClickTwiceDropsOtherSelection | Panels.ToggleText, Panels.ToggleTextAt, Panels.ToggleTextTwice |
