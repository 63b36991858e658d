# COCO segmentator core, modelled in Dafny

This project models the state behind the segmentator's two annotation windows
and its store of segmentations:

- the multi-image segmentation store (`segmentation_storage.py`) is module
  `Storage`. It maps an image path to the ordered list of entries made on that
  image.
- the superpixel annotator (`main_2.py`) is module `Superpixel`. It holds the
  superpixel boundaries of an image, the user-drawn cuts, the component labels
  computed from both, and the one selected component.
- the edge annotator (`main.py`) is module `EdgeAnnotator`. It holds the Canny
  edge mask, the contours traced from it, and the dictionary of selected
  contour indices with their labels. Contours are picked in two modes: the
  contour nearest to a click, or the contour of the clicked edge region.

`Grids` holds the shared grid, cell and image types. `Wrappers` holds `Option`.

The imaging algorithms are not modelled. These are SLIC with
`find_boundaries`, `draw.line`, `ndimage.label`, Canny, binary closing,
`find_contours` and `measure.label`. Each one is a function-valued field,
passed to the window's constructor. A ghost predicate states what the model
relies on:

- `Superpixel.LineContract`: a drawn line holds both endpoints and stays
  inside their bounding box.
- `Superpixel.LabelContract` covers `ndimage.label` and
  `EdgeAnnotator.Label8Contract` covers `measure.label`. In both, label 0
  falls exactly on background cells, labels are never negative, and
  foreground cells that touch share a label. "Touch" means across an edge for
  `ndimage.label` and across an edge or a corner for `measure.label`.
- `Superpixel.BoundaryContract`: the boundary mask has the image's shape.

Each window is a class whose fields are the attributes its Python methods
reassign. Each method states its whole new state. The two loops of
`recompute_components` stamp the cuts into a real `array2<bool>`. They are
proved against the specification function `Superpixel.AreaMask`. The two
search loops of `main.py`'s `image_clicked` are proved against
`EdgeAnnotator.FirstClose` and `EdgeAnnotator.NearestUpTo`.

Contour vertices are half-integral, because `find_contours(mask, 0.5)` on a
0/1 mask interpolates halfway between pixels. So `EdgeAnnotator.Vertex`
stores twice the row and twice the column, and every distance is computed
in those doubled units:

- `np.allclose(..., atol=2)` becomes a difference of at most 4 per
  coordinate.
- The 10-pixel pick radius becomes a squared doubled distance below 400.
- `np.floor` and `np.ceil` of a coordinate become `n / 2` and `(n + 1) / 2`.
  Dafny's Euclidean division gives these floor and ceiling values also for
  negative `n`.

The code behaves as follows in these cases, and the model does the same:

- In `main_2.py`, a mouse release with a stroke of one point or none leaves
  the stroke in place (lines 195-201). It does not empty it.
- In `main_2.py`, adding or removing a cut recomputes the component labels
  but keeps `selected_component` (lines 195-201, 270-275). So the selected
  id may then name a different region, or none. Only new superpixels reset
  the selection (line 122).
- Cuts are one-pixel `draw.line` strokes with no widening (lines 131-135).
- In `main.py`, every toggle ends in `update_edges` (lines 355, 371). That
  call reassigns `self.contours` from `find_contours` (line 184). So a
  contour that area mode has just appended is dropped again, and its index
  stays in `selected_segments` pointing past the list.
  `EdgeAnnotator.NewAreaContourIsDropped` proves this for a click whose
  edges are unchanged. The painting loop that follows then indexes
  `self.contours` with that key (line 212), which raises `IndexError`.
- No COCO export exists in these files, and nothing in them creates a
  `SegmentationEntry` or assigns its id; the store only filters by it.

## Model

| member | source | states |
|---|---|---|
| Storage.WithoutId | segmentation_storage.py:25-31 | the filtered list is no longer than the original and holds no entry with the removed id |
| Storage.WithoutIdCounts | segmentation_storage.py:25-31 | after filtering, an entry with the removed id occurs 0 times; any other entry occurs as often as before |
| Storage.WithoutIdDistributes | segmentation_storage.py:25-31 | filtering a concatenation equals concatenating the filtered parts, so the original order is kept |
| Storage.WithoutIdIdempotent | segmentation_storage.py:25-31 | removing an id twice equals removing it once |
| Storage.WithoutIdUnchanged | segmentation_storage.py:25-31 | filtering leaves the list unchanged exactly when no entry carries the id |
| Storage.SegmentationStorage.constructor | segmentation_storage.py:16-18 | the store starts as the empty map |
| Storage.SegmentationStorage.AddSegmentation | segmentation_storage.py:20-23 | the entry's path becomes a key; its list is the old list, or the empty one, followed by the entry; every other path keeps its list |
| Storage.SegmentationStorage.RemoveSegmentationById | segmentation_storage.py:25-31 | the keys are unchanged; an unknown path is a no-op; a known path maps to its list with the id filtered out, even when that list ends up empty |
| Storage.SegmentationStorage.GetSegmentations | segmentation_storage.py:33-34 | the stored list for a known path, the empty list for an unknown one |
| Storage.SegmentationStorage.GetAllSegmentations | segmentation_storage.py:36-37 | the returned map has exactly the stored paths as keys, including those whose list was emptied by removals, and agrees with `GetSegmentations` on every path |
| Storage.SegmentationStorage.Clear | segmentation_storage.py:39-40 | the store becomes the empty map |
| Storage.RemoveTwice | segmentation_storage.py:25-31 | a second removal of the same id leaves the store as the first removal left it |
| Superpixel.PathCells | main_2.py:133-136 | the cells `draw.line` gives for every segment of the cut are all stamped |
| Superpixel.CutCells | main_2.py:132-136 | the cells stamped for every single cut are all among the stamped cells |
| Superpixel.ComponentLabels | main_2.py:138-140 | with `ndimage.label` keeping its contract, the labels are a labelling of the area mask: 0 exactly off the area, never negative, shared by 4-adjacent area cells |
| Superpixel.AreaMask | main_2.py:127-138 | the area mask has the image's shape |
| Superpixel.PathCellsAt | main_2.py:131-135 | a cell is stamped for a cut exactly when some segment of the cut draws it |
| Superpixel.CutCellsAt | main_2.py:130-135 | a cell is stamped exactly when some cut stamps it |
| Superpixel.SegmentEndsStamped | main_2.py:131-135 | both endpoints of every segment are stamped, with point (x, y) becoming cell (row y, column x) |
| Superpixel.ShortCutStampsNothing | main_2.py:133 | a cut of fewer than two points adds no cell: dropping it leaves the stamped set unchanged |
| Superpixel.CutCellsInImage | main_2.py:131-135 | every stamped cell lies inside the image when the cut's points do |
| Superpixel.LabelZeroIffBorder | main_2.py:127-140 | a cell's component label is 0 exactly when it is a superpixel boundary or a stamped cut cell; any other label is positive |
| Superpixel.CutEndsLabelledZero | main_2.py:127-140 | the endpoints of every cut segment get label 0, so a click there is ignored |
| Superpixel.AdjacentAreaShareLabel | main_2.py:136-139 | two 4-adjacent cells that are neither boundary nor cut share their component label |
| Superpixel.ToggleSelection | main_2.py:247-250 | the result is None exactly when the clicked id was selected; otherwise it is the clicked id |
| Superpixel.ToggleTwice | main_2.py:247-250 | toggling the same id twice restores the selection exactly when nothing or that id was selected; otherwise nothing is selected |
| Superpixel.StampLine | main_2.py:135-136 | after the loop, a mask cell is set exactly when it was set before or lies on the drawn line |
| Superpixel.StampPath | main_2.py:133-136 | after the loop, a mask cell is set exactly when it was set before or is stamped by the cut; a cut of fewer than two points changes nothing |
| Superpixel.Inverted | main_2.py:138 | the inverted mask has the array's shape and negates every cell |
| Superpixel.SuperpixelAnnotator.constructor | main_2.py:13-25 | no image, edges, labels, cuts, stroke or selection; segment count 100; manual mode off |
| Superpixel.SuperpixelAnnotator.ToggleManualMode | main_2.py:97-100 | the mode is set and the stroke in progress is dropped |
| Superpixel.SuperpixelAnnotator.LoadImage | main_2.py:102-111 | the new image starts with no cuts, stroke or selection; new boundaries at the current count; the labels are consistent with them |
| Superpixel.SuperpixelAnnotator.SetSegmentCount | main_2.py:113-125 | the count is stored; with an image, the boundaries are recomputed at that count and the selection is reset; cuts and stroke are kept |
| Superpixel.SuperpixelAnnotator.UpdateSuperpixels | main_2.py:113-125 | without an image nothing changes; otherwise new boundaries, no selection, and labels consistent with boundaries and cuts |
| Superpixel.SuperpixelAnnotator.RecomputeComponents | main_2.py:127-140 | the stored labels are `ndi_label` of the inverted boundary-plus-cuts mask; the boundaries themselves are untouched |
| Superpixel.SuperpixelAnnotator.ImageMouseMove | main_2.py:175-193 | in manual mode, with the left button held, the stroke grows by the point exactly when the point lies in the image |
| Superpixel.SuperpixelAnnotator.ImageMouseRelease | main_2.py:195-201 | a stroke of two or more points becomes the last cut and is emptied; a shorter stroke and the cuts stay as they were |
| Superpixel.SuperpixelAnnotator.ImageClicked | main_2.py:203-251 | manual mode: a left click inside the image adds a stroke point. Otherwise: a click inside the image on a non-zero label toggles that label's selection; anything else changes nothing |
| Superpixel.SuperpixelAnnotator.RemoveManualBorder | main_2.py:270-275 | an index inside the list removes exactly that cut and keeps the others in order; any other index changes nothing |
| EdgeAnnotator.DetectEdges | main.py:165-184 | edges exist exactly when there is an image and the low threshold is below the high one; with closing radius 0 they are Canny's output itself, with a positive radius the binary closing of Canny's output at that radius |
| EdgeAnnotator.AllClose | main.py:345 | shapes that cannot broadcast (different lengths, neither of them 1) raise; for equal lengths the result is true exactly when every pair of vertices is within 2 pixels per coordinate; against a contour of another length, a single vertex gives true exactly when it is within 2 pixels of every vertex of the other contour |
| EdgeAnnotator.AllCloseSymmetric | main.py:345 | `allclose` with an absolute tolerance gives the same answer with its arguments swapped |
| EdgeAnnotator.FirstClose | main.py:343-347 | a match is the first index whose `allclose` succeeds, with all earlier ones failing; no match means every `allclose` failed; Raised means an earlier comparison had shapes that cannot broadcast |
| EdgeAnnotator.FindMatch | main.py:343-347 | the loop returns the specification's first match |
| EdgeAnnotator.LongestIndex | main.py:341 | an index of a longest contour, and the first of them (Python's `max` keeps the first maximum) |
| EdgeAnnotator.RegionMask | main.py:336 | the mask has the label grid's shape and is true exactly where the label equals the clicked one |
| EdgeAnnotator.ClickedContour | main.py:327-341 | none exactly for a click outside the label grid, on label 0, or on a region where no contour is traced; otherwise a longest contour traced from the clicked region's mask, the first among the longest |
| EdgeAnnotator.AreaSelect | main.py:324-350 | ignored outside the label grid and on label 0. The selection is none exactly when no contour was clicked or the `allclose` search raised. An old index is the first contour that matches the clicked one. A new index means no old contour matched and the clicked contour was appended. In all cases the old contours are a prefix of the result and at most one is appended |
| EdgeAnnotator.NonEdgeClickIgnored | main.py:327-334 | with `measure.label` keeping its contract, an area click on a non-edge pixel selects nothing |
| EdgeAnnotator.MinDist2 | main.py:361-362 | the minimum squared distance is at most that of the first vertex and that of the last |
| EdgeAnnotator.MinDist2IsMinimum | main.py:361-362 | the contour's minimum squared distance is at most every vertex's and equals some vertex's |
| EdgeAnnotator.NearestUpTo | main.py:358-365 | over the first k contours: NoContour exactly when k is 0; EmptyContour exactly when one of them is empty (numpy raises); otherwise the first contour of strictly smallest distance, at most as far as every other |
| EdgeAnnotator.EmptyStaysEmpty | main.py:360-362 | once an empty contour is reached, searching further contours still ends in EmptyContour, which is why the loop may stop there |
| EdgeAnnotator.NearestContour | main.py:358-365 | the `min_dist`/`min_idx` loop returns the specification's result |
| EdgeAnnotator.ContourSelect | main.py:357-366 | a selection is the nearest contour, the first of equals, and lies within 10 pixels; no selection means no contours, an empty contour, or every contour at 10 pixels or more |
| EdgeAnnotator.ContourSelectOnVertex | main.py:357-366 | a click on the only vertex of the only contour selects contour 0 |
| EdgeAnnotator.ContourSelectAtRadius | main.py:357-366 | a click exactly 10 pixels from the nearest vertex selects nothing, since the tolerance is strict |
| EdgeAnnotator.ToggleSegment | main.py:351-354 | a selected index is deleted; an unselected one is inserted with the empty label; every other entry is unchanged |
| EdgeAnnotator.ToggleSegmentTwice | main.py:351-354 | toggling an index twice restores the dictionary exactly when the index was absent or had the empty label |
| EdgeAnnotator.Rows2 | main.py:261-262 | the row coordinates of the contour, one per vertex in order (the `y` column of `contour`) |
| EdgeAnnotator.Cols2 | main.py:261-262 | the column coordinates of the contour, one per vertex in order (the `x` column of `contour`) |
| EdgeAnnotator.MinOf | main.py:261 | `min(axis=0)` of one column: at most every element and equal to one of them |
| EdgeAnnotator.MaxOf | main.py:262 | `max(axis=0)` of one column: at least every element and equal to one of them |
| EdgeAnnotator.ThumbnailBoxOfPoint | main.py:259-267 | a single vertex at pixel (50, 50) of a 100 x 100 image gives the box from (45, 45) to (55, 55) |
| EdgeAnnotator.ThumbnailBox | main.py:259-267 | None exactly for an empty contour; the box lies in the image and covers every in-image vertex; each side extends exactly 5 pixels beyond the extreme vertex's floor or ceiling, and is clamped to the image edge only where that padded bound leaves the image |
| EdgeAnnotator.ImageAnnotator.constructor | main.py:12-20 | no image, edges, contours or selection, and no picture shown; sigma 2, thresholds 10 % and 30 %, closing radius 0, contour mode |
| EdgeAnnotator.ImageAnnotator.UpdateEdges | main.py:165-184 | without an image nothing changes. With low ≥ high (rejected), edges and contours stay and the warning text takes the picture's place. Otherwise the edges are redetected, the contours traced from them, and the picture shown |
| EdgeAnnotator.ImageAnnotator.LoadImage | main.py:143-152 | the image is stored and the edges and contours redetected; the picture stays shown exactly when low < high |
| EdgeAnnotator.ImageAnnotator.SetEdgeParameters | main.py:38-92 | the slider values are stored and edges and contours redetected; rejected exactly when there is an image and low ≥ high, and then the picture is hidden |
| EdgeAnnotator.ImageAnnotator.SetAreaMode | main.py:95-101 | the mode is stored and edges and contours redetected, with the picture shown exactly when low < high |
| EdgeAnnotator.ImageAnnotator.SetSegmentLabel | main.py:288-289 | the index maps to the text, whether selected before or not; every other entry is unchanged |
| EdgeAnnotator.ImageAnnotator.RemoveSegment | main.py:291-294 | a selected index is deleted and the edges redetected; an unselected one changes nothing |
| EdgeAnnotator.ImageAnnotator.Pick | main.py:304-366 | no selection without an image, without contours, or while the warning text hides the picture; otherwise, in area mode the selection is `AreaSelect` of the edges and contours, and in contour mode there is a selection exactly when `ContourSelect` gives one, at the same index over the unchanged contours; a selection's index lies within its contour list |
| EdgeAnnotator.ImageAnnotator.ImageClicked | main.py:303-373 | with no selection (no image, no contours, hidden picture, ignored or aborted click) nothing changes; otherwise the index is toggled and `update_edges` runs; since a shown picture means the thresholds are accepted, it always redetects, so the edges are the current detection, the contours are traced from them, and the picture stays shown |
| EdgeAnnotator.RejectedThresholdIgnoresClicks | main.py:172-175 | after the sliders are set to equal thresholds, a click in either mode changes neither edges, contours nor selection, and the picture stays hidden |
| EdgeAnnotator.NewAreaContourIsDropped | main.py:348-355 | after an area click that appends a new contour while the edges are unchanged, the contour list is as long as before and the new index is selected, one past its end |

## Left out

- Qt widgets, painting, overlays, thumbnails' pixels, the border and
  selection panels, status text and console messages are left out. They
  change no modelled state.
- The file dialog is left out. `LoadImage` receives the decoded image; a
  cancelled dialog is a call that does not happen.
- The mapping from widget to image coordinates is left out (`main.py`
  lines 307-323, `main_2.py` lines 177-190, 206-219 and 227-243). This covers the pixmap offset,
  the floating-point scale and `int()` truncation. The click methods receive
  source-pixel coordinates.
- The imaging algorithms appear only through the contracts above. Their
  pixel-level results are not modelled.
- The colour button and the line-thickness slider only repaint. In `main.py`
  they call `update_edges`, which is `UpdateEdges` with unchanged
  parameters.
- `update_edges` indexes `self.contours` with stale keys of
  `selected_segments` while painting, and raises `IndexError` after the
  state has changed. The model keeps that state change but not the
  exception, which rendering would raise.
- Floating point is not modelled. Distances are compared squared and
  exactly: `sqrt(a) < sqrt(b)` is taken as `a < b`, and `dist < 10` as
  squared doubled distance `< 400`. The relative tolerance `rtol` of
  `np.allclose` is dropped, as it is negligible against `atol=2` at image
  coordinates.
- The model treats every image as a colour image. In `main.py` a 2-D
  greyscale image reaches code that expects three channels:
  `display_image` unpacks `h, w, ch` from its shape (line 158) on the
  rejection path of `update_edges` (line 173), which raises `ValueError`,
  and `color.rgb2gray` receives the raw image on the detection path
  (line 176). The model hides the picture on rejection and runs the
  detection, as for a colour image.
- After the `IndexError` of the painting loop the label keeps its old
  picture or text; the model treats the picture as shown.
- EdgeAnnotator.AllClose: models numpy broadcasting only for an (n, 2)
  array against an (m, 2) one. Lengths may differ only when one of them is
  1; in every other case the comparison raises.
- Storage.SegmentationStorage.GetSegmentations: Python returns the stored
  list itself, so a caller can mutate the store through it. The model
  returns a value and does not capture that aliasing. The same holds for
  `GetAllSegmentations`.
- The mask, polygon and colour of a `SegmentationEntry` are carried but
  never inspected. `visualization_logic.py` and `visualization_window.py`
  are not part of this model.
