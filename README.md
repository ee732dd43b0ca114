# Disparity grid sampler

A Dafny model of the grid sampler in the depth-camera wrapper of a small
self-driving vehicle (`DaiDepth.get_grid_disparity`). The sampler lays a fixed
grid of 6 columns × 4 rows over a normalised disparity frame. Each cell is
106 × 99 px and the grid starts at pixel (1, 1). For each of the 24 cells it
reads the one pixel at the integer midpoint of the cell's corners. It scales
that pixel by 190/255 in extended-disparity mode and by 95/255 otherwise. The
truncated result goes into a 24-entry uint16 array, numbered column-major:
index = 4 · column + row.

The project has two modules:

- `GridSpec` (`grid_spec.dfy`): the grid constants, cells, the index layout,
  and lemmas about tiling and cell centres.
- `DaiDepth` (`dai_depth.dfy`): uint16 arithmetic, the scale and its
  truncation, the filtered sub-region the source computes for each cell, and
  the two loops of the sampler. `CornerTable` fills the 4 × 24 corner table.
  `GetGridDisparity` fills the result array. The module also proves what the
  readings depend on.

The frame is an `array2<nat>`, indexed `frame[y, x]` (row, column), as the
numpy array is. `GetGridDisparity` has no `modifies` clause, so Dafny
guarantees the frame is unchanged. The flag `extended` stands for the
wrapper's `self.extended_disparity` field. The sampler only reads that field,
so the model passes it as a parameter.

The 24 cells span [1, 637) × [1, 397). The code indexes only the 24 centres,
and numpy clips the cell slices to the frame, so the model requires a frame of
585 × 348. `GridSpec.MinFrameIsTight` shows that this bound is exact: the
largest centre is (584, 347).

## Model

| member | source | states |
|---|---|---|
| `GridSpec.CellOf` | depth_sense/depth.py:75-78 | the cell in column i and row j is 106 × 99 px, and its top-left corner gives back i and j |
| `GridSpec.CellAt` | depth_sense/depth.py:75-78 | the cell at index k is 106 × 99 px, and for k < 24 it lies inside [1, 637) × [1, 397) |
| `GridSpec.CentreX` | depth_sense/depth.py:91 | the x read for cell k, (x1 + x2) // 2, is 53 px right of x1 and before x2 |
| `GridSpec.CentreY` | depth_sense/depth.py:91 | the y read for cell k, (y1 + y2) // 2, is 49 px below y1 and above y2 |
| `DaiDepth.ScaleNumerator` | depth_sense/depth.py:80 | the scale's numerator over 255 is 190 exactly when extended disparity is on, and 95 exactly when it is off |
| `DaiDepth.GridReadings` | depth_sense/depth.py:86-91 | the 24 readings: entry k is the truncated scaled pixel at row 50 + 99·row(k), column 54 + 106·column(k) |
| `DaiDepth.Region` | depth_sense/depth.py:88 | the slice frame[y1:y2, x1:x2] has (clipped rows) × (clipped columns) elements, each bound clipped to the frame, and holds exactly the values of pixels inside both the cell and the frame |
| `GridSpec.IndexBijection` | depth_sense/depth.py:73-78 | each (column i < 6, row j < 4) gets index 4·i+j < 24, and column and row are recovered from that index, so no two loop iterations share an index |
| `GridSpec.IndexSurjective` | depth_sense/depth.py:73-78 | every index k < 24 is 4·column(k) + row(k) for a column < 6 and a row < 4, so every entry of the table is written |
| `GridSpec.AdjacentCellsShareEdges` | depth_sense/depth.py:75-78 | the right edge of cell k is the left edge of the cell one column over (index k+4), with the same rows; the bottom edge of cell k is the top edge of the cell one row down (index k+1), with the same columns |
| `GridSpec.CellsDisjoint` | depth_sense/depth.py:75-78 | no pixel lies in two different cells |
| `GridSpec.CellsCoverGridArea` | depth_sense/depth.py:73-78 | a pixel lies in some cell exactly when it lies in [1, 637) × [1, 397), so the 24 cells tile that rectangle |
| `GridSpec.CentreInsideCell` | depth_sense/depth.py:91 | the sampled point of cell k is (54 + 106·column, 50 + 99·row); it lies inside cell k and inside a 585 × 348 frame |
| `GridSpec.MinFrameIsTight` | depth_sense/depth.py:25-27 | the last cell's centre is at x = 584 and the bottom row's at y = 347, so 585 × 348 is the smallest frame that works, and the 640 × 400 sensor frame is larger |
| `GridSpec.CentresDistinct` | depth_sense/depth.py:91 | different cells sample different pixels |
| `DaiDepth.AddU16` | depth_sense/depth.py:91 | uint16 addition of two corners is exact below 2^16 and wraps by 2^16 at or above it |
| `DaiDepth.Reading` | depth_sense/depth.py:80 | the reading r is the pixel times 190/255 (extended) or 95/255 (otherwise), truncated toward zero: r·255 ≤ pixel·scale < (r+1)·255 |
| `DaiDepth.ReadingBound` | depth_sense/depth.py:80 | for a pixel in [0, 255] the reading is at most 190 (extended) or 95, and reaches that value at 255 |
| `DaiDepth.ReadingMonotone` | depth_sense/depth.py:91 | a larger pixel never gives a smaller reading |
| `DaiDepth.NormalisedReadingsBounded` | depth_sense/depth.py:86-91 | for a frame normalised to [0, 255], every reading fits the uint16 array and is at most 190 (extended) or 95 |
| `DaiDepth.Clip` | depth_sense/depth.py:88 | a slice bound is clipped to the axis length: at most both, and equal to one of them |
| `DaiDepth.RowSlice` | depth_sense/depth.py:88 | the row slice has xhi − xlo elements (none when xhi ≤ xlo), element n is pixel (y, xlo + n), and a value occurs in it exactly when some pixel of row y in [xlo, xhi) has it |
| `DaiDepth.Block` | depth_sense/depth.py:88 | the flattened block has (yhi − y) · (xhi − xlo) elements (an empty range counts as 0), and a value occurs in it exactly when some pixel in rows [y, yhi) and columns [xlo, xhi) has it |
| `DaiDepth.BlockLayout` | depth_sense/depth.py:88 | the block is row-major: pixel (py, px) is element (py − y) · (xhi − xlo) + (px − xlo), so every pixel of the rectangle is in it once, at its own place |
| `DaiDepth.Filter` | depth_sense/depth.py:89-90 | the selection is no longer than its input; every value that passes the mask occurs in it as often as in the input, and no other value occurs |
| `DaiDepth.Subframe` | depth_sense/depth.py:88-90 | the filtered sub-region holds each value in (0, 190) as often as the cell's slice does and no other value, so a value occurs in it exactly when a pixel inside both the cell and the frame has it |
| `DaiDepth.CornerMidpoints` | depth_sense/depth.py:91 | the uint16 sums (x1 + x2) and (y1 + y2) of a corner-table column do not wrap, and halved they are the centre of that cell, inside a 585 × 348 frame |
| `DaiDepth.CornerTable` | depth_sense/depth.py:70-78 | a newly allocated 4 × 24 table holds x1, x2, y1, y2 of cell k in column k, and each column is written by exactly one iteration of the nested loops |
| `DaiDepth.GetGridDisparity` | depth_sense/depth.py:66-101 | the result is a newly allocated array of 24 entries, and entry k is the truncated scaled reading of cell k's centre pixel |
| `DaiDepth.ReadingsDependOnlyOnCentres` | depth_sense/depth.py:88-91 | two frames that agree on the 24 centre pixels give the same readings, whatever the rest of the frame and its filtered sub-regions hold |
| `DaiDepth.NonCentrePixelIgnored` | depth_sense/depth.py:88-91 | changing a pixel that is no cell's centre leaves all 24 readings as they were |
| `DaiDepth.RaisingCentreMonotone` | depth_sense/depth.py:91 | raising cell k's centre pixel never lowers reading k and leaves every other reading as it was |

## Left out

- `DaiDepth.__init__` (depth_sense/depth.py:6-56): depthai pipeline construction, filter configuration and the calibration read are hardware bring-up.
- `DaiDepth.get_frame` (depth_sense/depth.py:59-64): a blocking stream read and a floating-point normalisation. Its promise that pixels lie in [0, 255] appears only as the predicate `Normalised`.
- The `show_frame` branches of `get_grid_disparity` (colour map, rectangles, text, `imshow`, the `middle_pts` list and the shape `print`): display only, so the model drops the parameter.
- The unused local `num_pts`, the unused float64 array `depths` (depth_sense/depth.py:86) and the alias `z` of the corner table.
- Pixel values are whole numbers here. The source's pixels are float32, and its scaled product is a floating-point number truncated into uint16. The model truncates the exact rational value, which may differ by one from the floating-point result when the exact product is a whole number.
- `DaiDepth.GetGridDisparity`: requires every reading to fit in uint16 (`ReadingsFitU16`). Converting an out-of-range float to uint16 has no defined result, so the model does not cover it. `NormalisedReadingsBounded` shows that every normalised frame meets this requirement.
- `DaiDepth.GetGridDisparity`: requires a frame of at least 585 × 348 (`FrameFits`). On a smaller frame, `frame[y][x]` at depth_sense/depth.py:91 raises IndexError; the model does not cover that case.
- The bird's-eye-view transformer (bev/transformer.py): OpenCV/CUDA perspective and affine warps on float matrices. These are foreign calls.
- The motor controller wrapper (vesc/vesc_control.py): serial I/O to the speed controller and float range maps.
- main.py and image_transfer_client.py: device setup, file loading, the display loop and socket networking.
