/** The region-and-cut state of the superpixel annotator: superpixel
    boundaries, manual cuts drawn over them, the connected components that
    remain, and the one selected component. */
module Superpixel {
  import opened Wrappers
  import opened Grids

  /** A point of a manual cut as the mouse delivers it: x is the column and y
      the row, in source-image pixels. */
  datatype Point = Point(x: int, y: int)

  /** The raster cell of a point: row y, column x. */
  function CellOf(p: Point): Cell {
    Cell(p.y, p.x)
  }

  predicate PointInImage(p: Point, height: nat, width: nat) {
    0 <= p.x < width && 0 <= p.y < height
  }

  // ---------------------------------------------------------------------
  // Contracts of the external algorithms

  /** `c` lies in the bounding box of `a` and `b`. */
  predicate Between(c: Cell, a: Cell, b: Cell) {
    (a.row <= c.row <= b.row || b.row <= c.row <= a.row)
    && (a.col <= c.col <= b.col || b.col <= c.col <= a.col)
  }

  /** What the model relies on of `skimage.draw.line(r0, c0, r1, c1)`: both
      endpoints are drawn and no cell leaves the endpoints' bounding box. */
  ghost predicate LineContract(line: (Cell, Cell) -> seq<Cell>) {
    forall a, b :: a in line(a, b) && b in line(a, b) && forall c :: c in line(a, b) ==> Between(c, a, b)
  }

  /** What `scipy.ndimage.label(area)` (default 4-connected structure) returns
      for an `area` mask of the given shape: a grid of the same shape, 0 on
      every false cell, a positive id on every true cell, and one id shared by
      horizontally or vertically adjacent true cells. */
  ghost predicate IsLabelling(area: Grid<bool>, height: nat, width: nat, labels: Grid<int>)
    requires IsGrid(area, height, width)
  {
    && IsGrid(labels, height, width)
    && (forall r, c :: 0 <= r < height && 0 <= c < width ==> (labels[r][c] == 0 <==> !area[r][c]) && labels[r][c] >= 0)
    && (forall a, b ::
          InBounds(a, height, width) && InBounds(b, height, width) && Adjacent4(a, b) && area[a.row][a.col] && area[b.row][b.col]
          ==> labels[a.row][a.col] == labels[b.row][b.col])
  }

  ghost predicate LabelContract(labeller: Grid<bool> -> Grid<int>) {
    forall m: Grid<bool>, h: nat, w: nat :: IsGrid(m, h, w) ==> IsLabelling(m, h, w, labeller(m))
  }

  /** `segmentation.find_boundaries(segmentation.slic(image, n_segments=n, ...),
      mode='thick')` is a boolean mask of the image's shape. */
  ghost predicate BoundaryContract(boundaries: (Image, nat) -> Grid<bool>) {
    forall img: Image, n: nat :: IsGrid(boundaries(img, n), img.height, img.width)
  }

  // ---------------------------------------------------------------------
  // What recompute_components computes

  /** The cells `draw.line` stamps for segment `i` of a cut: from point i to
      point i + 1, each given as (row = y, col = x). */
  function SegmentLine(line: (Cell, Cell) -> seq<Cell>, path: seq<Point>, i: int): seq<Cell>
    requires 0 <= i < |path| - 1
  {
    line(CellOf(path[i]), CellOf(path[i + 1]))
  }

  function CellSet(cells: seq<Cell>): set<Cell> {
    set c | c in cells
  }

  /** The cells stamped for one cut; a cut of fewer than two points stamps none. */
  function PathCells(line: (Cell, Cell) -> seq<Cell>, path: seq<Point>): (r: set<Cell>)
    ensures forall i :: 0 <= i < |path| - 1 ==> CellSet(SegmentLine(line, path, i)) <= r
    decreases |path|
  {
    if |path| < 2 then {}
    else
      var init := path[..|path| - 1];
      assert forall i :: 0 <= i < |init| - 1 ==> SegmentLine(line, init, i) == SegmentLine(line, path, i);
      PathCells(line, init) + CellSet(SegmentLine(line, path, |path| - 2))
  }

  /** The cells stamped for all cuts, in order. */
  function CutCells(line: (Cell, Cell) -> seq<Cell>, cuts: seq<seq<Point>>): (r: set<Cell>)
    ensures forall k :: 0 <= k < |cuts| ==> PathCells(line, cuts[k]) <= r
    decreases |cuts|
  {
    if cuts == [] then {}
    else CutCells(line, cuts[..|cuts| - 1]) + PathCells(line, cuts[|cuts| - 1])
  }

  /** `~border_mask`: true where a cell is neither a superpixel boundary nor
      stamped by a cut. */
  function AreaMask(line: (Cell, Cell) -> seq<Cell>, edges: Grid<bool>, height: nat, width: nat, cuts: seq<seq<Point>>): (m: Grid<bool>)
    requires IsGrid(edges, height, width)
    ensures IsGrid(m, height, width)
  {
    seq(height, r requires 0 <= r < height =>
      seq(width, c requires 0 <= c < width => !(edges[r][c] || Cell(r, c) in CutCells(line, cuts))))
  }

  /** The component labels recompute_components stores. */
  function ComponentLabels(line: (Cell, Cell) -> seq<Cell>, labeller: Grid<bool> -> Grid<int>,
                           edges: Grid<bool>, height: nat, width: nat, cuts: seq<seq<Point>>): (labels: Grid<int>)
    requires IsGrid(edges, height, width)
    ensures LabelContract(labeller) ==> IsLabelling(AreaMask(line, edges, height, width, cuts), height, width, labels)
  {
    labeller(AreaMask(line, edges, height, width, cuts))
  }

  ghost predicate CutsInImage(cuts: seq<seq<Point>>, height: nat, width: nat) {
    forall k, i :: 0 <= k < |cuts| && 0 <= i < |cuts[k]| ==> PointInImage(cuts[k][i], height, width)
  }

  // ---------------------------------------------------------------------
  // Properties of the stamped cells and of the labels

  /** A cell is stamped for a cut exactly when some segment of the cut draws it. */
  lemma {:induction false} PathCellsAt(line: (Cell, Cell) -> seq<Cell>, path: seq<Point>, cell: Cell)
    ensures cell in PathCells(line, path) <==> exists i :: 0 <= i < |path| - 1 && cell in SegmentLine(line, path, i)
    decreases |path|
  {
    if |path| >= 2 {
      var init := path[..|path| - 1];
      PathCellsAt(line, init, cell);
      assert forall i :: 0 <= i < |init| - 1 ==> SegmentLine(line, init, i) == SegmentLine(line, path, i);
      if cell in PathCells(line, path) && cell !in PathCells(line, init) {
        assert cell in SegmentLine(line, path, |path| - 2);
      }
    }
  }

  /** A cell is stamped for the cuts exactly when some cut stamps it. */
  lemma {:induction false} CutCellsAt(line: (Cell, Cell) -> seq<Cell>, cuts: seq<seq<Point>>, cell: Cell)
    ensures cell in CutCells(line, cuts) <==> exists k :: 0 <= k < |cuts| && cell in PathCells(line, cuts[k])
    decreases |cuts|
  {
    if cuts != [] {
      var init := cuts[..|cuts| - 1];
      CutCellsAt(line, init, cell);
      assert forall k :: 0 <= k < |init| ==> init[k] == cuts[k];
    }
  }

  /** Both endpoints of every segment of every cut are stamped, with the axes
      swapped: point (x, y) becomes cell (y, x). */
  lemma SegmentEndsStamped(line: (Cell, Cell) -> seq<Cell>, cuts: seq<seq<Point>>, k: int, i: int)
    requires LineContract(line)
    requires 0 <= k < |cuts| && 0 <= i < |cuts[k]| - 1
    ensures Cell(cuts[k][i].y, cuts[k][i].x) in CutCells(line, cuts)
    ensures Cell(cuts[k][i + 1].y, cuts[k][i + 1].x) in CutCells(line, cuts)
  {
    var path := cuts[k];
    assert CellOf(path[i]) in SegmentLine(line, path, i) && CellOf(path[i + 1]) in SegmentLine(line, path, i);
    PathCellsAt(line, path, CellOf(path[i]));
    PathCellsAt(line, path, CellOf(path[i + 1]));
    CutCellsAt(line, cuts, CellOf(path[i]));
    CutCellsAt(line, cuts, CellOf(path[i + 1]));
  }

  /** A cut of fewer than two points contributes no border cell: dropping it
      from the list leaves the stamped cells as they were. */
  lemma ShortCutStampsNothing(line: (Cell, Cell) -> seq<Cell>, cuts: seq<seq<Point>>, k: int)
    requires 0 <= k < |cuts| && |cuts[k]| < 2
    ensures CutCells(line, cuts[..k] + cuts[k + 1..]) == CutCells(line, cuts)
  {
    var rest := cuts[..k] + cuts[k + 1..];
    forall cell | true ensures cell in CutCells(line, rest) <==> cell in CutCells(line, cuts) {
      CutCellsAt(line, rest, cell);
      CutCellsAt(line, cuts, cell);
      if cell in CutCells(line, cuts) {
        var j :| 0 <= j < |cuts| && cell in PathCells(line, cuts[j]);
        assert j != k;
        var j' := if j < k then j else j - 1;
        assert rest[j'] == cuts[j];
      }
      if cell in CutCells(line, rest) {
        var j' :| 0 <= j' < |rest| && cell in PathCells(line, rest[j']);
        var j := if j' < k then j' else j' + 1;
        assert rest[j'] == cuts[j];
      }
    }
  }

  /** Every cell a cut stamps lies inside the image, given that the cut's
      points do. */
  lemma CutCellsInImage(line: (Cell, Cell) -> seq<Cell>, cuts: seq<seq<Point>>, height: nat, width: nat, cell: Cell)
    requires LineContract(line) && CutsInImage(cuts, height, width)
    requires cell in CutCells(line, cuts)
    ensures InBounds(cell, height, width)
  {
    CutCellsAt(line, cuts, cell);
    var k :| 0 <= k < |cuts| && cell in PathCells(line, cuts[k]);
    PathCellsAt(line, cuts[k], cell);
    var i :| 0 <= i < |cuts[k]| - 1 && cell in SegmentLine(line, cuts[k], i);
    assert Between(cell, CellOf(cuts[k][i]), CellOf(cuts[k][i + 1]));
    assert PointInImage(cuts[k][i], height, width) && PointInImage(cuts[k][i + 1], height, width);
  }

  /** A cell gets component label 0 exactly when it is a superpixel boundary
      or stamped by a cut; every other cell gets a positive label. */
  lemma LabelZeroIffBorder(line: (Cell, Cell) -> seq<Cell>, labeller: Grid<bool> -> Grid<int>,
                           edges: Grid<bool>, height: nat, width: nat, cuts: seq<seq<Point>>, r: int, c: int)
    requires LabelContract(labeller) && IsGrid(edges, height, width)
    requires 0 <= r < height && 0 <= c < width
    ensures IsGrid(ComponentLabels(line, labeller, edges, height, width, cuts), height, width)
    ensures var labels := ComponentLabels(line, labeller, edges, height, width, cuts);
            (labels[r][c] == 0 <==> edges[r][c] || Cell(r, c) in CutCells(line, cuts))
            && (labels[r][c] != 0 ==> labels[r][c] > 0)
  {
    var area := AreaMask(line, edges, height, width, cuts);
    assert IsLabelling(area, height, width, labeller(area));
  }

  /** Both endpoints of every segment of every cut end up with label 0. */
  lemma CutEndsLabelledZero(line: (Cell, Cell) -> seq<Cell>, labeller: Grid<bool> -> Grid<int>,
                            edges: Grid<bool>, height: nat, width: nat, cuts: seq<seq<Point>>, k: int, i: int)
    requires LineContract(line) && LabelContract(labeller) && IsGrid(edges, height, width)
    requires CutsInImage(cuts, height, width)
    requires 0 <= k < |cuts| && 0 <= i < |cuts[k]| - 1
    ensures var labels := ComponentLabels(line, labeller, edges, height, width, cuts);
            IsGrid(labels, height, width)
            && labels[cuts[k][i].y][cuts[k][i].x] == 0
            && labels[cuts[k][i + 1].y][cuts[k][i + 1].x] == 0
  {
    SegmentEndsStamped(line, cuts, k, i);
    assert PointInImage(cuts[k][i], height, width) && PointInImage(cuts[k][i + 1], height, width);
    LabelZeroIffBorder(line, labeller, edges, height, width, cuts, cuts[k][i].y, cuts[k][i].x);
    LabelZeroIffBorder(line, labeller, edges, height, width, cuts, cuts[k][i + 1].y, cuts[k][i + 1].x);
  }

  /** Two 4-adjacent cells that are neither boundary nor cut share a label. */
  lemma AdjacentAreaShareLabel(line: (Cell, Cell) -> seq<Cell>, labeller: Grid<bool> -> Grid<int>,
                               edges: Grid<bool>, height: nat, width: nat, cuts: seq<seq<Point>>, a: Cell, b: Cell)
    requires LabelContract(labeller) && IsGrid(edges, height, width)
    requires InBounds(a, height, width) && InBounds(b, height, width) && Adjacent4(a, b)
    requires !(edges[a.row][a.col] || a in CutCells(line, cuts))
    requires !(edges[b.row][b.col] || b in CutCells(line, cuts))
    ensures var labels := ComponentLabels(line, labeller, edges, height, width, cuts);
            IsGrid(labels, height, width) && labels[a.row][a.col] == labels[b.row][b.col]
  {
    var area := AreaMask(line, edges, height, width, cuts);
    assert IsLabelling(area, height, width, labeller(area));
    assert area[a.row][a.col] && area[b.row][b.col];
  }

  // ---------------------------------------------------------------------
  // Selection

  /** The click rule for the single selected component: clicking the
      selected id deselects it, clicking any other id selects that one. */
  function ToggleSelection(selected: Option<int>, comp: int): (r: Option<int>)
    ensures r.None? <==> selected == Some(comp)
    ensures r.Some? ==> r.value == comp
  {
    if selected == Some(comp) then None else Some(comp)
  }

  /** Clicking the same id twice restores the selection exactly when nothing
      or that very id was selected; with another id selected, the second
      click leaves nothing selected. */
  lemma ToggleTwice(selected: Option<int>, comp: int)
    ensures ToggleSelection(ToggleSelection(selected, comp), comp) == selected <==> (selected.None? || selected == Some(comp))
    ensures ToggleSelection(ToggleSelection(selected, comp), comp) == None || selected.None? || selected == Some(comp)
  {
  }

  // ---------------------------------------------------------------------
  // The stamping loops of recompute_components

  /** `border_mask[rr, cc] = True` for the cells of one drawn line. */
  method StampLine(mask: array2<bool>, cells: seq<Cell>)
    requires forall i :: 0 <= i < |cells| ==> InBounds(cells[i], mask.Length0, mask.Length1)
    modifies mask
    ensures forall r, c :: 0 <= r < mask.Length0 && 0 <= c < mask.Length1 ==>
              (mask[r, c] <==> old(mask[r, c]) || Cell(r, c) in cells)
  {
    var j := 0;
    while j < |cells|
      invariant 0 <= j <= |cells|
      invariant forall r, c :: 0 <= r < mask.Length0 && 0 <= c < mask.Length1 ==>
                  (mask[r, c] <==> old(mask[r, c]) || Cell(r, c) in cells[..j])
    {
      mask[cells[j].row, cells[j].col] := true;
      assert cells[..j + 1] == cells[..j] + [cells[j]];
      j := j + 1;
    }
    assert cells[..j] == cells;
  }

  /** Stamps every segment of one cut; a cut of one point or none stamps nothing. */
  method StampPath(mask: array2<bool>, line: (Cell, Cell) -> seq<Cell>, path: seq<Point>)
    requires LineContract(line)
    requires forall i :: 0 <= i < |path| ==> PointInImage(path[i], mask.Length0, mask.Length1)
    modifies mask
    ensures forall r, c :: 0 <= r < mask.Length0 && 0 <= c < mask.Length1 ==>
              (mask[r, c] <==> old(mask[r, c]) || Cell(r, c) in PathCells(line, path))
  {
    if |path| > 1 {
      var i := 0;
      while i < |path| - 1
        invariant 0 <= i <= |path| - 1
        invariant forall r, c :: 0 <= r < mask.Length0 && 0 <= c < mask.Length1 ==>
                    (mask[r, c] <==> old(mask[r, c]) || Cell(r, c) in PathCells(line, path[..i + 1]))
      {
        var a, b := CellOf(path[i]), CellOf(path[i + 1]);
        assert PointInImage(path[i], mask.Length0, mask.Length1) && PointInImage(path[i + 1], mask.Length0, mask.Length1);
        var cells := line(a, b);
        assert forall j :: 0 <= j < |cells| ==> Between(cells[j], a, b);
        StampLine(mask, cells);
        assert path[..i + 2][..i + 1] == path[..i + 1];
        assert SegmentLine(line, path[..i + 2], i) == cells;
        i := i + 1;
      }
      assert path[..i + 1] == path;
    }
  }

  /** `~border_mask` */
  function Inverted(mask: array2<bool>): (g: Grid<bool>)
    reads mask
    ensures IsGrid(g, mask.Length0, mask.Length1)
    ensures forall r, c :: 0 <= r < mask.Length0 && 0 <= c < mask.Length1 ==> g[r][c] == !mask[r, c]
  {
    seq(mask.Length0, r requires 0 <= r < mask.Length0 reads mask =>
      seq(mask.Length1, c requires 0 <= c < mask.Length1 reads mask => !mask[r, c]))
  }

  // ---------------------------------------------------------------------
  // The annotator

  class SuperpixelAnnotator {
    /** slic followed by find_boundaries(mode='thick') */
    const superpixelBoundaries: (Image, nat) -> Grid<bool>
    /** skimage.draw.line on (row, col) endpoints */
    const drawLine: (Cell, Cell) -> seq<Cell>
    /** scipy.ndimage.label */
    const ndiLabel: Grid<bool> -> Grid<int>

    var image: Option<Image>
    /** the value of the superpixel-count slider */
    var segmentCount: nat
    var superpixelEdges: Option<Grid<bool>>
    var manualBorders: seq<seq<Point>>
    var currentBorder: seq<Point>
    var componentLabels: Option<Grid<int>>
    var selectedComponent: Option<int>
    var manualMode: bool

    /** What holds between any two operations except the cached labels: the
        collaborators keep their contracts, nothing exists without an image,
        and every stored point lies inside the image. */
    ghost predicate Inputs()
      reads this
    {
      && BoundaryContract(superpixelBoundaries) && LineContract(drawLine) && LabelContract(ndiLabel)
      && 20 <= segmentCount <= 500
      && (selectedComponent.Some? ==> selectedComponent.value > 0)
      && match image
         case None =>
           superpixelEdges.None? && componentLabels.None? && manualBorders == [] && currentBorder == []
           && selectedComponent.None?
         case Some(img) =>
           CutsInImage(manualBorders, img.height, img.width)
           && forall i :: 0 <= i < |currentBorder| ==> PointInImage(currentBorder[i], img.height, img.width)
    }

    /** `Inputs()` and superpixel boundaries of the image's shape. */
    ghost predicate Wellformed()
      reads this
    {
      Inputs() && (image.Some? ==> superpixelEdges.Some? && IsGrid(superpixelEdges.value, image.value.height, image.value.width))
    }

    /** `Wellformed()` and component labels computed from the current
        boundaries and cuts. */
    ghost predicate Valid()
      reads this
    {
      Wellformed()
      && (image.Some? ==>
            componentLabels == Some(ComponentLabels(drawLine, ndiLabel, superpixelEdges.value,
                                                    image.value.height, image.value.width, manualBorders)))
    }

    constructor (boundaries: (Image, nat) -> Grid<bool>, line: (Cell, Cell) -> seq<Cell>, labeller: Grid<bool> -> Grid<int>)
      requires BoundaryContract(boundaries) && LineContract(line) && LabelContract(labeller)
      ensures Valid()
      ensures superpixelBoundaries == boundaries && drawLine == line && ndiLabel == labeller
      ensures image.None? && superpixelEdges.None? && componentLabels.None? && selectedComponent.None?
      ensures manualBorders == [] && currentBorder == [] && segmentCount == 100 && !manualMode
    {
      superpixelBoundaries, drawLine, ndiLabel := boundaries, line, labeller;
      image := None;
      segmentCount := 100;
      superpixelEdges := None;
      manualBorders := [];
      currentBorder := [];
      componentLabels := None;
      selectedComponent := None;
      manualMode := false;
    }

    /** The checkbox: entering or leaving manual mode drops the stroke in progress. */
    method ToggleManualMode(state: bool)
      requires Valid()
      modifies this`manualMode, this`currentBorder
      ensures Valid()
      ensures manualMode == state && currentBorder == []
    {
      manualMode := state;
      currentBorder := [];
    }

    /** A picked file: the new image starts without cuts, stroke or selection. */
    method LoadImage(img: Image)
      requires Valid()
      modifies this
      ensures Valid()
      ensures image == Some(img) && manualBorders == [] && currentBorder == [] && selectedComponent.None?
      ensures superpixelEdges == Some(superpixelBoundaries(img, segmentCount))
      ensures segmentCount == old(segmentCount) && manualMode == old(manualMode)
    {
      image := Some(img);
      manualBorders := [];
      currentBorder := [];
      selectedComponent := None;
      UpdateSuperpixels();
    }

    /** The slider: a new superpixel count recomputes the boundaries. */
    method SetSegmentCount(n: nat)
      requires Valid() && 20 <= n <= 500
      modifies this
      ensures Valid() && segmentCount == n
      ensures image == old(image) && manualBorders == old(manualBorders) && currentBorder == old(currentBorder)
      ensures manualMode == old(manualMode)
      ensures image.Some? ==> superpixelEdges == Some(superpixelBoundaries(image.value, n)) && selectedComponent.None?
      ensures image.None? ==> selectedComponent == old(selectedComponent)
    {
      segmentCount := n;
      UpdateSuperpixels();
    }

    /** New superpixel boundaries; the selection is reset before the
        components are recomputed, because component ids are not stable. */
    method UpdateSuperpixels()
      requires Inputs()
      modifies this`superpixelEdges, this`selectedComponent, this`componentLabels
      ensures Valid()
      ensures image.None? ==> superpixelEdges == old(superpixelEdges) && selectedComponent == old(selectedComponent)
                              && componentLabels == old(componentLabels)
      ensures image.Some? ==> superpixelEdges == Some(superpixelBoundaries(image.value, segmentCount))
                              && selectedComponent.None?
    {
      if image.None? {
        return;
      }
      superpixelEdges := Some(superpixelBoundaries(image.value, segmentCount));
      selectedComponent := None;
      RecomputeComponents();
    }

    /** Copies the superpixel boundaries into a fresh mask, stamps every segment
        of every cut of two or more points into it, inverts it and labels the
        connected components. The boundaries themselves are not touched. */
    method RecomputeComponents()
      requires Wellformed()
      modifies this`componentLabels
      ensures Valid()
      ensures superpixelEdges == old(superpixelEdges)
      ensures image.None? ==> componentLabels == old(componentLabels)
    {
      if image.None? {
        return;
      }
      var h, w := image.value.height, image.value.width;
      var edges := superpixelEdges.value;
      var mask := new bool[h, w]((r, c) requires 0 <= r < h && 0 <= c < w => edges[r][c]);
      var k := 0;
      while k < |manualBorders|
        invariant 0 <= k <= |manualBorders|
        invariant forall r, c :: 0 <= r < h && 0 <= c < w ==>
                    (mask[r, c] <==> edges[r][c] || Cell(r, c) in CutCells(drawLine, manualBorders[..k]))
      {
        assert manualBorders[..k + 1][..k] == manualBorders[..k];
        assert forall i :: 0 <= i < |manualBorders[k]| ==> PointInImage(manualBorders[k][i], h, w);
        StampPath(mask, drawLine, manualBorders[k]);
        k := k + 1;
      }
      assert manualBorders[..k] == manualBorders;
      var area := Inverted(mask);
      assert area == AreaMask(drawLine, edges, h, w, manualBorders) by {
        var spec := AreaMask(drawLine, edges, h, w, manualBorders);
        forall r | 0 <= r < h ensures area[r] == spec[r] {
          assert forall c :: 0 <= c < w ==> area[r][c] == spec[r][c];
        }
      }
      componentLabels := Some(ndiLabel(area));
    }

    /** A drag in manual mode with the left button held extends the stroke by
        the pointer position when it lies inside the image. */
    method ImageMouseMove(leftHeld: bool, x: int, y: int)
      requires Valid()
      modifies this`currentBorder
      ensures Valid()
      ensures currentBorder == if manualMode && leftHeld && image.Some? && PointInImage(Point(x, y), image.value.height, image.value.width)
                               then old(currentBorder) + [Point(x, y)] else old(currentBorder)
    {
      if manualMode && leftHeld && image.Some? {
        if PointInImage(Point(x, y), image.value.height, image.value.width) {
          currentBorder := currentBorder + [Point(x, y)];
        }
      }
    }

    /** Releasing the left button in manual mode commits the stroke as a new
        cut when it has more than one point, empties it and recomputes the
        components; a shorter stroke is kept as it is. The selected id is not
        reset here. */
    method ImageMouseRelease(leftButton: bool)
      requires Valid()
      modifies this`manualBorders, this`currentBorder, this`componentLabels
      ensures Valid()
      ensures manualMode && leftButton && |old(currentBorder)| > 1 ==>
                manualBorders == old(manualBorders) + [old(currentBorder)] && currentBorder == []
      ensures !(manualMode && leftButton && |old(currentBorder)| > 1) ==>
                manualBorders == old(manualBorders) && currentBorder == old(currentBorder)
                && componentLabels == old(componentLabels)
    {
      if manualMode && leftButton && |currentBorder| > 1 {
        var img := image.value;
        manualBorders := manualBorders + [currentBorder];
        assert CutsInImage(manualBorders, img.height, img.width) by {
          forall k, i | 0 <= k < |manualBorders| && 0 <= i < |manualBorders[k]|
            ensures PointInImage(manualBorders[k][i], img.height, img.width)
          {
            if k == |manualBorders| - 1 {
              assert manualBorders[k] == old(currentBorder);
            } else {
              assert manualBorders[k] == old(manualBorders)[k];
            }
          }
        }
        currentBorder := [];
        RecomputeComponents();
      }
    }

    /** A click. In manual mode a left click adds a stroke point inside the
        image. Otherwise a click inside the image on a component toggles its
        selection; a click on a border cell (label 0) is ignored. */
    method ImageClicked(leftButton: bool, x: int, y: int)
      requires Valid()
      modifies this`currentBorder, this`selectedComponent
      ensures Valid()
      ensures manualMode ==> selectedComponent == old(selectedComponent)
      ensures manualMode ==> currentBorder == if leftButton && image.Some? && PointInImage(Point(x, y), image.value.height, image.value.width)
                                             then old(currentBorder) + [Point(x, y)] else old(currentBorder)
      ensures !manualMode ==> currentBorder == old(currentBorder)
      ensures !manualMode ==>
                selectedComponent ==
                  if image.Some? && PointInImage(Point(x, y), image.value.height, image.value.width)
                     && componentLabels.value[y][x] != 0
                  then ToggleSelection(old(selectedComponent), componentLabels.value[y][x])
                  else old(selectedComponent)
    {
      if manualMode {
        if leftButton && image.Some? && PointInImage(Point(x, y), image.value.height, image.value.width) {
          currentBorder := currentBorder + [Point(x, y)];
        }
        return;
      }
      if image.None? || componentLabels.None? {
        return;
      }
      var img := image.value;
      if !PointInImage(Point(x, y), img.height, img.width) {
        return;
      }
      LabelZeroIffBorder(drawLine, ndiLabel, superpixelEdges.value, img.height, img.width, manualBorders, y, x);
      var comp := componentLabels.value[y][x];
      if comp == 0 {
        return;
      }
      selectedComponent := ToggleSelection(selectedComponent, comp);
    }

    /** The "remove" button of cut `idx`: an index outside the list changes
        nothing, otherwise exactly that cut goes and the components are
        recomputed. */
    method RemoveManualBorder(idx: int)
      requires Valid()
      modifies this`manualBorders, this`componentLabels
      ensures Valid()
      ensures 0 <= idx < |old(manualBorders)| ==> manualBorders == old(manualBorders[..idx]) + old(manualBorders[idx + 1..])
      ensures !(0 <= idx < |old(manualBorders)|) ==> manualBorders == old(manualBorders) && componentLabels == old(componentLabels)
    {
      if 0 <= idx < |manualBorders| {
        var img := image.value;
        ghost var was := manualBorders;
        manualBorders := manualBorders[..idx] + manualBorders[idx + 1..];
        assert CutsInImage(manualBorders, img.height, img.width) by {
          forall k, i | 0 <= k < |manualBorders| && 0 <= i < |manualBorders[k]|
            ensures PointInImage(manualBorders[k][i], img.height, img.width)
          {
            assert manualBorders[k] == was[if k < idx then k else k + 1];
          }
        }
        RecomputeComponents();
      }
    }
  }
}
