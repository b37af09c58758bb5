# imagecollager: a verified model of the collage layout engine

`imagecollager.go` composes several images into one collage image. Its core
is `makeImageCollage`, which runs these steps:

1. It sorts the images, tallest first.
2. It cuts the sorted list into `numberOfRows` consecutive rows. The extra
   images go to the first rows.
3. It scales every cell of a row to the row's share of the desired width,
   keeping the image's aspect ratio.
4. It sizes the canvas:
   - width: the widest row plus padding;
   - height: the tallest column plus padding.
5. It walks a cursor over the rows and draws each cell at the cursor, either
   as a rectangle or cropped to a circle through an alpha mask.

This project models that engine in Dafny, keeping the source's structure:

| file | module | what it models |
|---|---|---|
| `geometry.dfy` | `Geometry` | points, rectangles, `image.Rect`, and the `Width`/`Height` helpers |
| `mask.dfy` | `Mask` | the `Circle` mask: `Bounds`, `At`, and the radius and centre that `drawInCircle` picks |
| `partition.dfy` | `Partition` | the in-place sort and the row-partitioning loop, each proved against a specification function |
| `sizing.dfy` | `Sizing` | the sizing loop, the column loop and the canvas size |
| `render.dfy` | `Render` | the render loop and the canvas |
| `layout.dfy` | `Layout` | geometric facts about the render loop's output |
| `collage.dfy` | `Collage` | `makeImageCollage` end to end, the source's example scenarios, and the finding below |

The canvas is a class that records every draw call it receives: cell, position, size, and mask.

The loops are modelled as methods with invariants.
- `SizeCells` and `DrawRow` are the inner loop bodies of the sizing and render loops.
- `LayOutSorted` is everything after the sort.

Each is factored out of `makeImageCollage` so that its proof stays small; the code path is unchanged.

Float arithmetic is replaced by exact integers:

| source (float) | model (integer) |
|---|---|
| `math.Floor(desiredWidth / len(row))` | `Share`: `desiredWidth / columns` |
| `uint(originalWidth * resizeFactor)` | the share itself |
| `uint(originalHeight * resizeFactor)` | `ScaledHeight`: `height * share / width` |
| `uint(math.Min(w, h) * 0.8)` | `Diameter`: `Min(w, h) * 4 / 5` |
| the mask's pixel-centre test `(x-cx+0.5)² + (y-cy+0.5)² < r²` | `(2(x-cx)+1)² + (2(y-cy)+1)² < 4r²`; `AtMatchesPixelCentreTest` proves the two agree |

What the engine requires:
- `numberOfRows >= 1`.
  - Zero rows: `len(images) / numberOfRows` at imagecollager.go:115 panics, so the model requires at least one row.
  - Negative rows: `make` at imagecollager.go:116 panics on a negative length; the model's row count is a `nat`, which excludes them.
- Every image is at least one pixel wide, because its width divides at imagecollager.go:146.

How the code treats some inputs, which the model follows:
- More rows than images: imagecollager.go:120-132 leaves trailing empty rows, and so does the model.
- Ties in height: imagecollager.go:111-113 uses `sort.Slice`, which is not stable, so the model leaves the order among equal heights open.
- Padding: imagecollager.go:184-188 sets it to 20 only for `Circle`, and 1 otherwise.
- Canvas height: see "## Findings".

## Model

| member | source | states |
|---|---|---|
| `Geometry.Rect` | imagecollager.go:55 | the rectangle spanned by two corners is well formed and its sides are the given coordinates, in either order |
| `Geometry.ExtentOfRect` | imagecollager.go:17-23 | `Width` and `Height` of a rectangle built from two corners are the absolute differences of their coordinates |
| `Mask.Bounds` | imagecollager.go:54-56 | the mask's bounds are the square of side 2\|r\| centred on p |
| `Mask.At` | imagecollager.go:58-64 | every pixel is either fully opaque (255) or fully transparent (0) |
| `Mask.AtMatchesPixelCentreTest` | imagecollager.go:58-64 | a pixel is opaque exactly when its centre lies strictly inside the circle, in real arithmetic |
| `Mask.OpaqueWithinBounds` | imagecollager.go:54-64 | every opaque pixel lies inside `Bounds` |
| `Mask.CentreOpaqueUnlessEmpty` | imagecollager.go:58-64 | a circle of non-zero radius shows its centre pixel; a circle of radius zero shows nothing |
| `Mask.MaskFor` | imagecollager.go:95-104 | `drawInCircle`'s mask is centred on the resized image and its diameter is the requested one clamped to the image's width and height; it is exactly the requested one when that fits; the radius is min(diameter, width, height) / 2 |
| `Mask.MaskWithinImage` | imagecollager.go:92-106 | the mask never shows a pixel outside the resized image |
| `Partition.SortByHeight` | imagecollager.go:111-113 | the images end up in non-increasing height order and are a permutation of the input |
| `Partition.RowsAreConsecutive` | imagecollager.go:118-132 | each row starts where the previous one ends, and the last row ends at the end of the list |
| `Partition.ExtraColumnTest` | imagecollager.go:121-124 | the source's test for an extra image holds exactly for the first n mod R rows |
| `Partition.Rows` | imagecollager.go:115-132 | there are R rows; row i has n/R + 1 images when i < n mod R, and n/R otherwise |
| `Partition.Row` | imagecollager.go:130 | a row is the slice of the sorted list of the computed length |
| `Partition.RowAt` | imagecollager.go:130 | image j of row i is image RowStart(i) + j of the sorted list |
| `Partition.RowsPrefixCover` | imagecollager.go:118-131 | the first k rows together are exactly the first RowStart(k) sorted images |
| `Partition.RowsCover` | imagecollager.go:115-132 | the rows, concatenated, are exactly the sorted list: no image is lost, duplicated or reordered |
| `Partition.FirstRowIsLongest` | imagecollager.go:119-128 | no row is longer than row 0, whose length is the maximum column count |
| `Partition.RowLengthsNonIncreasing` | imagecollager.go:120-124 | a row is never longer than a row above it |
| `Partition.EarlierRowsAreTaller` | imagecollager.go:111-132 | every image of a row is at least as tall as every image of a later row |
| `Partition.PartitionRows` | imagecollager.go:115-132 | the partitioning loop yields exactly `Rows`, and its maximum column count is the length of row 0, which no row exceeds |
| `Sizing.Padding` | imagecollager.go:184-188 | the padding is positive (20 for circles, 1 otherwise) |
| `Sizing.Share` | imagecollager.go:139 | each cell's width is the desired width divided evenly among the row's cells, rounded down |
| `Sizing.CellSize` | imagecollager.go:144-150 | a cell is exactly the row's share wide |
| `Sizing.CellSizeKeepsAspectRatio` | imagecollager.go:144-150 | a cell's height is the image's height scaled by share/width, rounded down: h·W ≤ H·share < (h+1)·W |
| `Sizing.Diameter` | imagecollager.go:155 | a circle's diameter fits inside its cell, both ways |
| `Sizing.DiameterIsFourFifths` | imagecollager.go:155 | the diameter is 4/5 of the cell's smaller side, rounded down |
| `Sizing.SizeRow` | imagecollager.go:137-150 | a row of sizes has one size per image |
| `Sizing.SizeRowAt` | imagecollager.go:139-150 | cell j of a row is its image scaled to the row's share |
| `Sizing.SizeMatrix` | imagecollager.go:134-150 | the size matrix has one row of sizes per row of images |
| `Sizing.MaxWidthIsMaximum` | imagecollager.go:152-163 | `maxWidth` is the width of some row, and no row is wider |
| `Sizing.MaxHeightIsMaximum` | imagecollager.go:166-182 | `maxHeight` is the height of some column below the maximum column count, and no such column is taller |
| `Sizing.RectangleRowWidth` | imagecollager.go:139-153 | a row of k rectangles is k times the row's share wide |
| `Sizing.RectangleRowFitsDesiredWidth` | imagecollager.go:139-153 | a row of rectangles is never wider than the desired width |
| `Sizing.CircleRowNarrower` | imagecollager.go:152-156 | a row of circles is never wider than the same row of rectangles |
| `Sizing.SizeCells` | imagecollager.go:137-159 | the inner sizing loop fills the row with exactly `SizeRow` and sums exactly its `RowWidth` |
| `Sizing.ComputeSizes` | imagecollager.go:134-164 | the sizing loop fills `imagesSize` with exactly the size matrix and finds exactly `MaxWidth` |
| `Sizing.ComputeMaxHeight` | imagecollager.go:166-182 | the column loop finds exactly `MaxHeight` over the first `maxNumberOfColumns` columns |
| `Sizing.CanvasEnd` | imagecollager.go:184-192 | the canvas leaves at least a padding per column plus one across, and a padding per row plus one down |
| `Render.Canvas.constructor` | imagecollager.go:192 | the canvas spans from the origin to the given end, and nothing has been drawn on it yet |
| `Render.Canvas.DrawRaw` | imagecollager.go:85-90 | one unmasked draw of the given size at sp is appended, and nothing else changes |
| `Render.Canvas.DrawInCircle` | imagecollager.go:92-107 | one draw at sp is appended, through the mask `drawInCircle` builds for that size and diameter |
| `Render.Drawn` | imagecollager.go:217-224 | a cell is drawn at the size the sizer measured it by, and never larger than its computed size |
| `Render.RowDraws` | imagecollager.go:199-232 | a row yields one draw per cell |
| `Render.RowPlacements` | imagecollager.go:195-237 | row i yields one draw per cell of row i |
| `Render.CursorStep` | imagecollager.go:226-230 | drawing a cell moves the cursor right by its drawn width plus padding and raises the row height to at least its drawn height |
| `Render.DrawRow` | imagecollager.go:196-235 | the inner render loop appends exactly the row's draws, left to right; it returns the tallest drawn cell, and the cursor height is set to the padding only on row 0 |
| `Render.Render` | imagecollager.go:194-237 | the render loop appends exactly `Placements` of the sizer's table: the re-derived sizes match the table |
| `Render.RowAppended` | imagecollager.go:194-237 | after each row, the draws so far are those of the rows so far, and the cursor is at the next row's top edge |
| `Layout.CellXIsPrefixWidth` | imagecollager.go:207-226 | cell col starts after the padding, the widths of the cells before it, and one padding after each |
| `Layout.RowWidthOfPrefix` | imagecollager.go:152-156 | a prefix of a row is never wider than the row |
| `Layout.RowHeightIsMaximum` | imagecollager.go:228-230 | no cell is drawn taller than its row's height |
| `Layout.CellXIncreases` | imagecollager.go:226 | a cell ends, padding included, before any later cell of its row starts |
| `Layout.RowYIncreases` | imagecollager.go:235 | a row ends, padding included, before any later row starts |
| `Layout.RowYAtLeastPadding` | imagecollager.go:211-213 | every row starts at least a padding below the top |
| `Layout.CellsDoNotOverlap` | imagecollager.go:194-237 | two different cells are drawn on disjoint rectangles, at least a pixel apart |
| `Layout.CellWithinCanvasWidth` | imagecollager.go:184-237 | every cell lies at least a padding inside the left and right edges of a canvas sized as the source sizes it, and a padding below the top |
| `Layout.CellWithinStackedRows` | imagecollager.go:194-237 | every cell ends, padding included, above the bottom of the stacked rows |
| `Layout.CellShape` | imagecollager.go:217-224 | a cell has a mask exactly for circles; then it is a square of the diameter with the inscribed mask, and a rectangle keeps its computed size |
| `Layout.MaskWithinCell` | imagecollager.go:92-106 | a cell's mask never shows a pixel outside the cell |
| `Layout.PlacementsEnumerateCells` | imagecollager.go:194-237 | the draws are one per cell, row by row and left to right: draw t is cell (row, col) with RowStart(row) + col = t |
| `Layout.ColHeightWithinStackedRows` | imagecollager.go:166-182 | a column, with its paddings, is never taller than the stacked rows |
| `Layout.MaxHeightWithinStackedRows` | imagecollager.go:166-190 | the source's canvas height never exceeds that of the stacked rows |
| `Collage.CollageSizes` | imagecollager.go:115-164 | the collage has R rows of sizes, with the partitioner's row lengths |
| `Collage.CollageDraws` | imagecollager.go:109-240 | the collage makes exactly one draw per image |
| `Collage.MakeImageCollage` | imagecollager.go:109-240 | the caller's images are sorted tallest first, in place, as a permutation; the new canvas has the source's size and receives exactly the collage's draws |
| `Collage.LayOutSorted` | imagecollager.go:115-240 | after the sort, the steps allocate a canvas of the source's size and draw exactly the collage's draws on it |
| `Collage.DrawOrderIsSortedOrder` | imagecollager.go:109-240 | draw t draws the t-th tallest image, from its cell, at the row's share of the width and the image's scaled height (or the diameter, for circles) |
| `Collage.EveryDrawWithinCanvasWidth` | imagecollager.go:184-237 | every draw lies at least a padding inside the canvas's left and right edges, and below its top edge |
| `Collage.DrawsDoNotOverlap` | imagecollager.go:194-237 | two different draws cover disjoint rectangles |
| `Collage.MasksStayInsideDraws` | imagecollager.go:217-224 | only circles are masked, and a mask never shows a pixel outside its draw |
| `Collage.FittedCanvasEnd` | imagecollager.go:184-192 | the corrected canvas is exactly as wide as the source's canvas and never shorter |
| `Collage.EveryDrawWithinFittedCanvas` | imagecollager.go:194-237 | every draw lies at least a padding inside all four edges of the corrected canvas |
| `Collage.FourSquaresInTwoRows` | imagecollager.go:109-240 | four 100×100 images, two rows of rectangles, width 800: four 400×400 cells at (1,1), (402,1), (1,402) and (402,402) on an 803×803 canvas |
| `Collage.ThreeCirclesInOneRow` | imagecollager.go:109-240 | images of 100×200, 100×100 and 100×50, one row of circles, width 800: circles of 212, 212 and 106 at x = 20, 252 and 484 on a 610×252 canvas |
| `Collage.CanvasCutsOffLowerRow` | imagecollager.go:166-235 | for the input under Findings, the canvas is 3883 high while the third image is drawn from y = 3602 to 6802 |

## Left out

- `main` (imagecollager.go:242-277) is not modelled: command-line parsing, opening and decoding files, and showing the result are I/O.
  - `main` rejects any shape string other than the two names, so `Shape` has exactly two values.
  - The engine's behaviour for any other string (circle measures, padding 1) is therefore not modelled.
- `resize.Resize` is an external Lanczos resampler. The model assumes it returns an image of exactly the requested size.
  - The resampler substitutes an aspect-preserving size when a requested side is 0; that substitution is not modelled.
- Pixels are not modelled: `draw.Draw` and `draw.DrawMask` compositing, the RGBA buffer, and the colour-model plumbing. The canvas records draw calls instead, and the mask's per-pixel alpha is `Mask.At`.
- The `MyImage` wrapper methods (imagecollager.go:25-43) are not modelled; they only delegate to `image.RGBA`.
- `drawLine` (imagecollager.go:79-83) is not modelled; nothing calls it.
- IEEE float semantics are not modelled.
  - The model's exact integer formulas can differ from the float expressions by one pixel at rounding boundaries.
  - Example: `originalWidth * (calculatedWidth / originalWidth)` can round below `calculatedWidth`.
- Negative row counts are not modelled: `main` (imagecollager.go:247) accepts any integer from `strconv.Atoi`, and `make` at imagecollager.go:116 panics on a negative one; the model's `numberOfRows` is a `nat`.
- 64-bit `int`/`uint` overflow is not modelled: integers are unbounded. `desiredWidth` is a natural number; `main` always passes 800.
- Go's sort algorithm is not modelled. A selection sort stands in, specified only by the order and permutation properties that `sort.Slice` guarantees.
- `desiredHeight` is not modelled; the source never reads it.
- The sizer's `rowHeight` accumulator (imagecollager.go:142, 157) is not modelled; its value is never used.
- Images whose width is 0 are excluded by `ValidImage`. The source divides by that width in floating point and converts the infinite or NaN result to `uint`, which Go leaves implementation-specific.
- `Collage.MakeImageCollage` does not promise that every draw is inside the canvas vertically, because the source's canvas can be too short (see Findings). It keeps the source's canvas size; the corrected canvas is `Collage.FittedCanvasEnd`.

## Findings

| source | as written | input that shows it | evidently intended | confidence | as-written member | corrected member |
|---|---|---|---|---|---|---|
| imagecollager.go:166-190 | the canvas height is the tallest column (a sum over rows of one column's heights) plus the padding, but the cursor moves down by each row's tallest cell (imagecollager.go:228-235) | images 100×100, 10×90, 10×80, 100×70 (width×height); two rows of rectangles; width 800. The cells are 400×400, 400×3600, 400×3200 and 400×280; the canvas is 3883 high; the third image is drawn from y = 3602 to 6802 | a canvas tall enough for the stacked rows: every row's tallest cell plus a padding above each row and below the last | high; proved on the model, not executed | `Collage.CanvasCutsOffLowerRow` | `Collage.FittedCanvasEnd` (`Collage.EveryDrawWithinFittedCanvas` proves that every draw lies inside it) |

`Collage.MakeImageCollage` keeps the source's canvas size so that it models the code as written.
`Layout.MaxHeightWithinStackedRows` shows the corrected canvas is never shorter than the source's, so the correction only grows the canvas where rows would be cut off.
