/** The edge-mode annotator: Canny edges, their contours, and the dictionary
    of selected contour indices with their labels. */
module EdgeAnnotator {
  import opened Wrappers
  import opened Grids

  /** A contour vertex at doubled resolution. `find_contours(mask, 0.5)` on a
      0/1 mask puts every vertex on a whole or half pixel, so twice its row and
      twice its column are integers. */
  datatype Vertex = Vertex(row2: int, col2: int)

  type Contour = seq<Vertex>

  /** `atol` of the `np.allclose` that recognises a known contour, in pixels. */
  const MatchTolerance: nat := 2
  /** A contour-mode click selects only within this distance, in pixels. */
  const PickRadius: nat := 10
  /** Margin around a contour's box in its thumbnail, in pixels. */
  const Pad: nat := 5

  function Abs(n: int): nat {
    if n < 0 then -n else n
  }

  function Min(a: int, b: int): int {
    if a <= b then a else b
  }

  function Max(a: int, b: int): int {
    if a >= b then a else b
  }

  // ---------------------------------------------------------------------
  // Contracts of the external algorithms

  /** What `measure.label(edges, connectivity=2)` returns: a grid of the same
      shape, 0 on non-edge pixels, a positive id on edge pixels, and one id
      shared by edge pixels that touch by an edge or a corner. */
  ghost predicate IsLabelling8(edges: Grid<bool>, height: nat, width: nat, labels: Grid<int>)
    requires IsGrid(edges, height, width)
  {
    && IsGrid(labels, height, width)
    && (forall r, c :: 0 <= r < height && 0 <= c < width ==> (labels[r][c] == 0 <==> !edges[r][c]) && labels[r][c] >= 0)
    && (forall a, b ::
          InBounds(a, height, width) && InBounds(b, height, width) && Adjacent8(a, b) && edges[a.row][a.col] && edges[b.row][b.col]
          ==> labels[a.row][a.col] == labels[b.row][b.col])
  }

  ghost predicate Label8Contract(labeller: Grid<bool> -> Grid<int>) {
    forall m: Grid<bool>, h: nat, w: nat :: IsGrid(m, h, w) ==> IsLabelling8(m, h, w, labeller(m))
  }

  /** The edge mask `update_edges` computes, or None when it returns early:
      without an image, or when the low threshold is not below the high one. */
  function DetectEdges(canny: (Image, nat, nat, nat) -> Grid<bool>, closing: (Grid<bool>, nat) -> Grid<bool>,
                       image: Option<Image>, sigma: nat, lowPercent: nat, highPercent: nat, morphRadius: nat): (e: Option<Grid<bool>>)
    ensures e.Some? <==> image.Some? && lowPercent < highPercent
    ensures e.Some? && morphRadius == 0 ==> e.value == canny(image.value, sigma, lowPercent, highPercent)
    ensures e.Some? && morphRadius > 0 ==> e.value == closing(canny(image.value, sigma, lowPercent, highPercent), morphRadius)
  {
    if image.None? || lowPercent >= highPercent then None
    else
      var raw := canny(image.value, sigma, lowPercent, highPercent);
      Some(if morphRadius > 0 then closing(raw, morphRadius) else raw)
  }

  // ---------------------------------------------------------------------
  // Area mode: recognising the clicked region's contour

  predicate Close(u: Vertex, v: Vertex) {
    Abs(u.row2 - v.row2) <= 2 * MatchTolerance && Abs(u.col2 - v.col2) <= 2 * MatchTolerance
  }

  /** `np.allclose(a, b, atol=2)` on two (n, 2) arrays, with numpy's
      broadcasting: None stands for the ValueError numpy raises when neither
      length is 1 and the lengths differ. */
  function AllClose(a: Contour, b: Contour): (r: Option<bool>)
    ensures r.None? <==> |a| != |b| && |a| != 1 && |b| != 1
    ensures |a| == |b| ==> (r == Some(true) <==> forall i :: 0 <= i < |a| ==> Close(a[i], b[i]))
    ensures |a| == 1 && |b| != 1 ==> (r == Some(true) <==> forall j :: 0 <= j < |b| ==> Close(a[0], b[j]))
    ensures |b| == 1 && |a| != 1 ==> (r == Some(true) <==> forall i :: 0 <= i < |a| ==> Close(a[i], b[0]))
  {
    if |a| == |b| then Some(forall i :: 0 <= i < |a| ==> Close(a[i], b[i]))
    else if |a| == 1 then Some(forall j :: 0 <= j < |b| ==> Close(a[0], b[j]))
    else if |b| == 1 then Some(forall i :: 0 <= i < |a| ==> Close(a[i], b[0]))
    else None
  }

  /** Without a relative tolerance the comparison is symmetric: which of
      the two contours is the known one does not matter. */
  lemma AllCloseSymmetric(a: Contour, b: Contour)
    ensures AllClose(a, b) == AllClose(b, a)
  {
    if |a| == |b| {
      assert (forall i :: 0 <= i < |a| ==> Close(a[i], b[i])) <==> (forall i :: 0 <= i < |b| ==> Close(b[i], a[i]));
    }
  }

  datatype Match = Matched(index: nat) | NoMatch | Raised

  /** The first known contour close to `target`; Raised when a comparison
      before any match raises. */
  function FirstClose(contours: seq<Contour>, target: Contour): (m: Match)
    ensures m.Matched? ==> m.index < |contours| && AllClose(contours[m.index], target) == Some(true)
                           && forall j :: 0 <= j < m.index ==> AllClose(contours[j], target) == Some(false)
    ensures m.NoMatch? ==> forall j :: 0 <= j < |contours| ==> AllClose(contours[j], target) == Some(false)
    ensures m.Raised? ==> exists i :: 0 <= i < |contours| && AllClose(contours[i], target).None?
                                      && forall j :: 0 <= j < i ==> AllClose(contours[j], target) == Some(false)
  {
    if contours == [] then NoMatch
    else match AllClose(contours[0], target)
      case None => Raised
      case Some(true) => Matched(0)
      case Some(false) =>
        match FirstClose(contours[1..], target)
        case Matched(i) => Matched(i + 1)
        case other => other
  }

  /** The search loop of `image_clicked` over `self.contours`, stopping at the
      first close contour. */
  method FindMatch(contours: seq<Contour>, target: Contour) returns (m: Match)
    ensures m == FirstClose(contours, target)
  {
    var i := 0;
    while i < |contours|
      invariant 0 <= i <= |contours|
      invariant forall j :: 0 <= j < i ==> AllClose(contours[j], target) == Some(false)
    {
      var close := AllClose(contours[i], target);
      if close.None? {
        return Raised;
      }
      if close.value {
        return Matched(i);
      }
      i := i + 1;
    }
    return NoMatch;
  }

  /** `max(region_contours, key=len)`: the first of the longest contours. */
  function LongestIndex(contours: seq<Contour>): (k: nat)
    requires contours != []
    ensures k < |contours|
    ensures forall j :: 0 <= j < |contours| ==> |contours[j]| <= |contours[k]|
    ensures forall j :: 0 <= j < k ==> |contours[j]| < |contours[k]|
  {
    if |contours| == 1 then 0
    else
      var k := LongestIndex(contours[..|contours| - 1]);
      if |contours[|contours| - 1]| > |contours[k]| then |contours| - 1 else k
  }

  /** `labeled == label_val` */
  function RegionMask(labeled: Grid<int>, v: int): (m: Grid<bool>)
    ensures |m| == |labeled| && forall r :: 0 <= r < |labeled| ==> |m[r]| == |labeled[r]|
    ensures forall r, c :: 0 <= r < |labeled| && 0 <= c < |labeled[r]| ==> (m[r][c] <==> labeled[r][c] == v)
  {
    seq(|labeled|, r requires 0 <= r < |labeled| =>
      seq(|labeled[r]|, c requires 0 <= c < |labeled[r]| => labeled[r][c] == v))
  }

  /** The contour an area-mode click at (x, y) picks out: the first of the
      longest contours traced around the edge component under the pointer.
      None when the click falls outside the label grid, on label 0, or on a
      component without contours. */
  function ClickedContour(edges: Grid<bool>, x: int, y: int,
                          labeller: Grid<bool> -> Grid<int>, trace: Grid<bool> -> seq<Contour>): (c: Option<Contour>)
    ensures var labeled := labeller(edges);
            c.None? <==> || !(0 <= y < |labeled| && 0 <= x < |labeled[y]|)
                         || labeled[y][x] == 0
                         || trace(RegionMask(labeled, labeled[y][x])) == []
    ensures var labeled := labeller(edges);
            c.Some? && 0 <= y < |labeled| && 0 <= x < |labeled[y]| ==>
              var region := trace(RegionMask(labeled, labeled[y][x]));
              exists k :: 0 <= k < |region| && region[k] == c.value
                          && (forall j :: 0 <= j < |region| ==> |region[j]| <= |c.value|)
                          && (forall j :: 0 <= j < k ==> |region[j]| < |c.value|)
  {
    var labeled := labeller(edges);
    if !(0 <= y < |labeled| && 0 <= x < |labeled[y]|) then None
    else
      var v := labeled[y][x];
      if v == 0 then None
      else
        var region := trace(RegionMask(labeled, v));
        if region == [] then None
        else Some(region[LongestIndex(region)])
  }

  /** The outcome of a selection click: the contour index to toggle and the
      contour list after the click. */
  datatype Selection = Selection(index: nat, contours: seq<Contour>)

  /** An area-mode click at (x, y): the index of the first known contour close
      to the clicked contour, or a new index for it appended at the end. None
      when the click is ignored or a comparison raises. */
  function AreaSelect(edges: Grid<bool>, contours: seq<Contour>, x: int, y: int,
                      labeller: Grid<bool> -> Grid<int>, trace: Grid<bool> -> seq<Contour>): (s: Option<Selection>)
    ensures var labeled := labeller(edges);
            !(0 <= y < |labeled| && 0 <= x < |labeled[y]|) || labeled[y][x] == 0 ==> s.None?
    ensures s.Some? ==> s.value.index < |s.value.contours|
    ensures s.Some? ==> |contours| <= |s.value.contours| <= |contours| + 1 && s.value.contours[..|contours|] == contours
    ensures s.Some? && s.value.index < |contours| ==> s.value.contours == contours
    ensures s.Some? && s.value.index == |contours| ==> |s.value.contours| == |contours| + 1
    // the selection is decided by the clicked contour and the first match among the known ones
    ensures var c := ClickedContour(edges, x, y, labeller, trace);
            s.None? <==> c.None? || FirstClose(contours, c.value).Raised?
    ensures var c := ClickedContour(edges, x, y, labeller, trace);
            s.Some? && s.value.index < |contours| ==> c.Some? && FirstClose(contours, c.value) == Matched(s.value.index)
    ensures var c := ClickedContour(edges, x, y, labeller, trace);
            s.Some? && s.value.index == |contours| ==>
              c.Some? && FirstClose(contours, c.value).NoMatch? && s.value.contours == contours + [c.value]
  {
    match ClickedContour(edges, x, y, labeller, trace)
    case None => None
    case Some(contour) =>
      match FirstClose(contours, contour)
      case Raised => None
      case Matched(i) => Some(Selection(i, contours))
      case NoMatch => Some(Selection(|contours|, contours + [contour]))
  }

  /** With `measure.label` keeping its contract, an area-mode click on a pixel
      that is not an edge pixel changes nothing. */
  lemma NonEdgeClickIgnored(edges: Grid<bool>, height: nat, width: nat, contours: seq<Contour>, x: int, y: int,
                            labeller: Grid<bool> -> Grid<int>, trace: Grid<bool> -> seq<Contour>)
    requires Label8Contract(labeller) && IsGrid(edges, height, width)
    requires 0 <= y < height && 0 <= x < width && !edges[y][x]
    ensures AreaSelect(edges, contours, x, y, labeller, trace).None?
  {
    assert IsLabelling8(edges, height, width, labeller(edges));
  }

  // ---------------------------------------------------------------------
  // Contour mode: the nearest contour

  /** Four times the squared distance from a vertex to pixel (x, y). */
  function Dist2(v: Vertex, x: int, y: int): nat {
    (v.col2 - 2 * x) * (v.col2 - 2 * x) + (v.row2 - 2 * y) * (v.row2 - 2 * y)
  }

  /** `dists.min()` for one contour, in the units of `Dist2`. */
  function MinDist2(contour: Contour, x: int, y: int): (d: nat)
    requires contour != []
    ensures d <= Dist2(contour[0], x, y) && d <= Dist2(contour[|contour| - 1], x, y)
  {
    if |contour| == 1 then Dist2(contour[0], x, y)
    else
      var m := MinDist2(contour[..|contour| - 1], x, y);
      var last := Dist2(contour[|contour| - 1], x, y);
      if last < m then last else m
  }

  /** `MinDist2` is the distance of a nearest vertex. */
  lemma {:induction false} MinDist2IsMinimum(contour: Contour, x: int, y: int)
    requires contour != []
    ensures forall i :: 0 <= i < |contour| ==> MinDist2(contour, x, y) <= Dist2(contour[i], x, y)
    ensures exists i :: 0 <= i < |contour| && MinDist2(contour, x, y) == Dist2(contour[i], x, y)
  {
    if |contour| > 1 {
      var init := contour[..|contour| - 1];
      MinDist2IsMinimum(init, x, y);
      assert forall i :: 0 <= i < |init| ==> init[i] == contour[i];
      var i :| 0 <= i < |init| && MinDist2(init, x, y) == Dist2(init[i], x, y);
      assert init[i] == contour[i];
      if Dist2(contour[|contour| - 1], x, y) < MinDist2(init, x, y) {
        assert MinDist2(contour, x, y) == Dist2(contour[|contour| - 1], x, y);
      } else {
        assert MinDist2(contour, x, y) == Dist2(contour[i], x, y);
      }
    } else {
      assert MinDist2(contour, x, y) == Dist2(contour[0], x, y);
    }
  }

  /** The search of contour mode over the first `k` contours: no contour at
      all, an empty contour (numpy raises on the minimum of an empty array),
      or the first contour of strictly smallest distance. */
  datatype Nearest = NoContour | EmptyContour | Nearest(index: nat, dist2: nat)

  function NearestUpTo(contours: seq<Contour>, k: nat, x: int, y: int): (n: Nearest)
    requires k <= |contours|
    ensures n.NoContour? <==> k == 0
    ensures n.EmptyContour? <==> exists i :: 0 <= i < k && contours[i] == []
    ensures n.Nearest? ==>
              && n.index < k
              && (forall j :: 0 <= j < k ==> contours[j] != [])
              && n.dist2 == MinDist2(contours[n.index], x, y)
              && (forall j :: 0 <= j < k ==> n.dist2 <= MinDist2(contours[j], x, y))
              && (forall j :: 0 <= j < n.index ==> n.dist2 < MinDist2(contours[j], x, y))
  {
    if k == 0 then NoContour
    else
      var prev := NearestUpTo(contours, k - 1, x, y);
      if prev.EmptyContour? || contours[k - 1] == [] then EmptyContour
      else
        var d := MinDist2(contours[k - 1], x, y);
        if prev.NoContour? || d < prev.dist2 then Nearest(k - 1, d) else prev
  }

  /** The loop of contour mode, updating `min_dist` and `min_idx`. */
  method NearestContour(contours: seq<Contour>, x: int, y: int) returns (n: Nearest)
    ensures n == NearestUpTo(contours, |contours|, x, y)
  {
    var minIdx: Option<nat> := None;
    var minDist: nat := 0;
    var i := 0;
    while i < |contours|
      invariant 0 <= i <= |contours|
      invariant NearestUpTo(contours, i, x, y) == if minIdx.None? then NoContour else Nearest(minIdx.value, minDist)
    {
      if contours[i] == [] {
        assert NearestUpTo(contours, i + 1, x, y).EmptyContour?;
        EmptyStaysEmpty(contours, i + 1, |contours|, x, y);
        return EmptyContour;
      }
      var dist := MinDist2(contours[i], x, y);
      if minIdx.None? || dist < minDist {
        minDist := dist;
        minIdx := Some(i);
      }
      i := i + 1;
    }
    n := if minIdx.None? then NoContour else Nearest(minIdx.value, minDist);
  }

  /** Once an empty contour is met, the search result stays EmptyContour. */
  lemma EmptyStaysEmpty(contours: seq<Contour>, k: nat, m: nat, x: int, y: int)
    requires k <= m <= |contours| && NearestUpTo(contours, k, x, y).EmptyContour?
    ensures NearestUpTo(contours, m, x, y).EmptyContour?
  {
    var i :| 0 <= i < k && contours[i] == [];
    assert 0 <= i < m && contours[i] == [];
  }

  /** A contour-mode click selects the nearest contour, and only when it lies
      closer than `PickRadius` pixels. */
  function ContourSelect(contours: seq<Contour>, x: int, y: int): (s: Option<nat>)
    ensures s.Some? ==>
              && s.value < |contours|
              && (forall j :: 0 <= j < |contours| ==> contours[j] != [])
              && MinDist2(contours[s.value], x, y) < 4 * PickRadius * PickRadius
              && (forall j :: 0 <= j < |contours| ==> MinDist2(contours[s.value], x, y) <= MinDist2(contours[j], x, y))
              && (forall j :: 0 <= j < s.value ==> MinDist2(contours[s.value], x, y) < MinDist2(contours[j], x, y))
    ensures s.None? ==>
              || contours == []
              || (exists j :: 0 <= j < |contours| && contours[j] == [])
              || (forall j :: 0 <= j < |contours| ==> contours[j] != [] && MinDist2(contours[j], x, y) >= 4 * PickRadius * PickRadius)
  {
    match NearestUpTo(contours, |contours|, x, y)
    case Nearest(i, d) => if d < 4 * PickRadius * PickRadius then Some(i) else None
    case _ => None
  }

  /** A click on the only vertex of the only contour selects it. */
  lemma ContourSelectOnVertex()
    ensures ContourSelect([[Vertex(6, 8)]], 4, 3) == Some(0)
  {
    var cs := [[Vertex(6, 8)]];
    assert MinDist2(cs[0], 4, 3) == 0;
    assert NearestUpTo(cs, 0, 4, 3) == NoContour;
    assert NearestUpTo(cs, 1, 4, 3) == Nearest(0, 0);
  }

  /** A click exactly `PickRadius` pixels from the nearest vertex selects
      nothing: the tolerance is strict. */
  lemma ContourSelectAtRadius()
    ensures ContourSelect([[Vertex(0, 20)], [Vertex(30, 0)]], 0, 0) == None
  {
    var cs := [[Vertex(0, 20)], [Vertex(30, 0)]];
    assert MinDist2(cs[0], 0, 0) == 400;
    assert MinDist2(cs[1], 0, 0) == 900;
    assert NearestUpTo(cs, 0, 0, 0) == NoContour;
    assert NearestUpTo(cs, 1, 0, 0) == Nearest(0, 400);
    assert NearestUpTo(cs, 2, 0, 0) == Nearest(0, 400);
  }

  // ---------------------------------------------------------------------
  // The selected-segments dictionary

  /** Toggling index `idx`: a selected index is deleted, any other is
      inserted with the empty label. */
  function ToggleSegment(selected: map<nat, string>, idx: nat): (r: map<nat, string>)
    ensures r.Keys == if idx in selected then selected.Keys - {idx} else selected.Keys + {idx}
    ensures idx in r ==> r[idx] == ""
    ensures forall k :: k in selected && k != idx ==> r[k] == selected[k]
  {
    if idx in selected then selected - {idx} else selected[idx := ""]
  }

  /** Toggling the same index twice restores the dictionary exactly when the
      index was absent or carried the empty label; a typed label is lost. */
  lemma ToggleSegmentTwice(selected: map<nat, string>, idx: nat)
    ensures ToggleSegment(ToggleSegment(selected, idx), idx) == selected <==> (idx !in selected || selected[idx] == "")
  {
    var twice := ToggleSegment(ToggleSegment(selected, idx), idx);
    if idx !in selected {
      assert twice.Keys == selected.Keys;
      assert forall k :: k in twice ==> twice[k] == selected[k];
    } else if selected[idx] == "" {
      assert twice.Keys == selected.Keys;
      assert forall k :: k in twice ==> twice[k] == selected[k];
    } else {
      assert twice[idx] != selected[idx];
    }
  }

  // ---------------------------------------------------------------------
  // The thumbnail box

  function Rows2(contour: Contour): (s: seq<int>)
    ensures |s| == |contour| && forall i :: 0 <= i < |contour| ==> s[i] == contour[i].row2
  {
    seq(|contour|, i requires 0 <= i < |contour| => contour[i].row2)
  }

  function Cols2(contour: Contour): (s: seq<int>)
    ensures |s| == |contour| && forall i :: 0 <= i < |contour| ==> s[i] == contour[i].col2
  {
    seq(|contour|, i requires 0 <= i < |contour| => contour[i].col2)
  }

  function MinOf(s: seq<int>): (m: int)
    requires s != []
    ensures forall i :: 0 <= i < |s| ==> m <= s[i]
    ensures exists i :: 0 <= i < |s| && m == s[i]
  {
    if |s| == 1 then s[0]
    else
      assert forall i :: 0 <= i < |s| - 1 ==> s[..|s| - 1][i] == s[i];
      Min(MinOf(s[..|s| - 1]), s[|s| - 1])
  }

  function MaxOf(s: seq<int>): (m: int)
    requires s != []
    ensures forall i :: 0 <= i < |s| ==> s[i] <= m
    ensures exists i :: 0 <= i < |s| && m == s[i]
  {
    if |s| == 1 then s[0]
    else
      assert forall i :: 0 <= i < |s| - 1 ==> s[..|s| - 1][i] == s[i];
      Max(MaxOf(s[..|s| - 1]), s[|s| - 1])
  }

  /** Half-open pixel box [yMin, yMax) x [xMin, xMax). */
  datatype Box = Box(yMin: int, xMin: int, yMax: int, xMax: int)

  /** The crop of `create_segment_thumbnail`: the floor of the contour's
      smallest and the ceiling of its largest coordinates, padded by `Pad`
      and clamped to the image. None for an empty contour, where numpy's
      minimum raises. */
  function ThumbnailBox(contour: Contour, height: nat, width: nat): (b: Option<Box>)
    ensures b.None? <==> contour == []
    ensures b.Some? ==> 0 <= b.value.yMin && b.value.yMax <= height && 0 <= b.value.xMin && b.value.xMax <= width
    // the box covers every vertex that lies inside the image
    ensures b.Some? ==> forall i :: 0 <= i < |contour| && 0 <= contour[i].row2 <= 2 * height ==>
                          2 * b.value.yMin <= contour[i].row2 <= 2 * b.value.yMax
    ensures b.Some? ==> forall i :: 0 <= i < |contour| && 0 <= contour[i].col2 <= 2 * width ==>
                          2 * b.value.xMin <= contour[i].col2 <= 2 * b.value.xMax
    // where it is not clamped, the margin is exactly Pad beyond the extreme vertex
    ensures b.Some? && b.value.yMin > 0 ==>
              (forall i :: 0 <= i < |contour| ==> 2 * (b.value.yMin + Pad) <= contour[i].row2)
              && exists i :: 0 <= i < |contour| && contour[i].row2 < 2 * (b.value.yMin + Pad) + 2
    ensures b.Some? && b.value.yMax < height ==>
              (forall i :: 0 <= i < |contour| ==> contour[i].row2 <= 2 * (b.value.yMax - Pad))
              && exists i :: 0 <= i < |contour| && 2 * (b.value.yMax - Pad) - 2 < contour[i].row2
    ensures b.Some? && b.value.xMin > 0 ==>
              (forall i :: 0 <= i < |contour| ==> 2 * (b.value.xMin + Pad) <= contour[i].col2)
              && exists i :: 0 <= i < |contour| && contour[i].col2 < 2 * (b.value.xMin + Pad) + 2
    ensures b.Some? && b.value.xMax < width ==>
              (forall i :: 0 <= i < |contour| ==> contour[i].col2 <= 2 * (b.value.xMax - Pad))
              && exists i :: 0 <= i < |contour| && 2 * (b.value.xMax - Pad) - 2 < contour[i].col2
    // it is clamped only where the padded bound leaves the image
    ensures b.Some? && b.value.yMin == 0 ==> exists i :: 0 <= i < |contour| && contour[i].row2 < 2 * (Pad + 1)
    ensures b.Some? && b.value.yMax == height ==> exists i :: 0 <= i < |contour| && contour[i].row2 > 2 * (height - Pad - 1)
    ensures b.Some? && b.value.xMin == 0 ==> exists i :: 0 <= i < |contour| && contour[i].col2 < 2 * (Pad + 1)
    ensures b.Some? && b.value.xMax == width ==> exists i :: 0 <= i < |contour| && contour[i].col2 > 2 * (width - Pad - 1)
  {
    if contour == [] then None
    else
      var yMin := MinOf(Rows2(contour)) / 2;        // np.floor
      var xMin := MinOf(Cols2(contour)) / 2;
      var yMax := (MaxOf(Rows2(contour)) + 1) / 2;  // np.ceil
      var xMax := (MaxOf(Cols2(contour)) + 1) / 2;
      Some(Box(Max(0, yMin - Pad), Max(0, xMin - Pad), Min(height, yMax + Pad), Min(width, xMax + Pad)))
  }

  /** A single vertex at pixel (50, 50) of a 100 x 100 image: the box
      reaches `Pad` pixels to each side. */
  lemma ThumbnailBoxOfPoint()
    ensures ThumbnailBox([Vertex(100, 100)], 100, 100) == Some(Box(45, 45, 55, 55))
  {
    var c := [Vertex(100, 100)];
    assert Rows2(c) == [100] && Cols2(c) == [100];
  }

  // ---------------------------------------------------------------------
  // The annotator

  class ImageAnnotator {
    /** feature.canny on the grey-level image, thresholds in percent */
    const canny: (Image, nat, nat, nat) -> Grid<bool>
    /** morphology.binary_closing with a disk of the given radius */
    const binaryClosing: (Grid<bool>, nat) -> Grid<bool>
    /** measure.find_contours(mask, 0.5) */
    const findContours: Grid<bool> -> seq<Contour>
    /** measure.label(mask, connectivity=2) */
    const measureLabel: Grid<bool> -> Grid<int>

    var image: Option<Image>
    var edges: Option<Grid<bool>>
    var contours: seq<Contour>
    /** contour index: label */
    var selectedSegments: map<nat, string>
    // slider values
    var sigma: nat
    var lowPercent: nat
    var highPercent: nat
    var morphRadius: nat
    /** the "area" radio button rather than the "contour" one */
    var areaMode: bool
    /** The image label shows the picture. A rejected threshold replaces it by
        the warning text, and clicks are ignored until a detection succeeds. */
    var pictureShown: bool

    /** Contours only exist once edges do; sliders stay within their ranges. */
    ghost predicate Wellformed()
      reads this
    {
      && (edges.None? ==> contours == [])
      && (image.None? ==> !pictureShown)
      && 1 <= sigma <= 30 && lowPercent <= 100 && highPercent <= 100 && morphRadius <= 20
    }

    /** `Wellformed()`, and a shown picture means the last detection succeeded
        at the current thresholds. Only between a slider change and the
        `update_edges` it triggers can this fail. */
    ghost predicate Valid()
      reads this
    {
      Wellformed() && (image.Some? && pictureShown ==> lowPercent < highPercent)
    }

    /** The edges `update_edges` would compute now. */
    function Redetected(): Option<Grid<bool>>
      reads this
    {
      DetectEdges(canny, binaryClosing, image, sigma, lowPercent, highPercent, morphRadius)
    }

    /** What a click at (x, y) selects, in the current mode. */
    ghost function Pick(x: int, y: int): (s: Option<Selection>)
      reads this
      requires Valid()
      ensures image.None? || contours == [] || !pictureShown ==> s.None?
      ensures s.Some? ==> s.value.index < |s.value.contours|
      ensures s.Some? && !areaMode ==> s.value.contours == contours && ContourSelect(contours, x, y) == Some(s.value.index)
      ensures s.Some? && areaMode ==> s == AreaSelect(edges.value, contours, x, y, measureLabel, findContours)
      ensures image.Some? && contours != [] && pictureShown && areaMode ==>
                s == AreaSelect(edges.value, contours, x, y, measureLabel, findContours)
      ensures image.Some? && contours != [] && pictureShown && !areaMode ==>
                (s.Some? <==> ContourSelect(contours, x, y).Some?)
    {
      if image.None? || contours == [] || !pictureShown then None
      else if areaMode then AreaSelect(edges.value, contours, x, y, measureLabel, findContours)
      else match ContourSelect(contours, x, y)
        case Some(i) => Some(Selection(i, contours))
        case None => None
    }

    constructor (detect: (Image, nat, nat, nat) -> Grid<bool>, closing: (Grid<bool>, nat) -> Grid<bool>,
                 trace: Grid<bool> -> seq<Contour>, labeller: Grid<bool> -> Grid<int>)
      ensures Valid()
      ensures canny == detect && binaryClosing == closing && findContours == trace && measureLabel == labeller
      ensures image.None? && edges.None? && contours == [] && selectedSegments == map[]
      ensures sigma == 2 && lowPercent == 10 && highPercent == 30 && morphRadius == 0 && !areaMode
      ensures !pictureShown
    {
      canny, binaryClosing, findContours, measureLabel := detect, closing, trace, labeller;
      image := None;
      edges := None;
      contours := [];
      selectedSegments := map[];
      sigma, lowPercent, highPercent, morphRadius := 2, 10, 30, 0;
      areaMode := false;
      pictureShown := false;
    }

    /** Recomputes edges and contours from the image and the sliders. A low
        threshold that is not below the high one is rejected with a warning
        and leaves edges and contours as they were, but the warning text takes
        the picture's place. A detection shows the picture again. The selected
        indices are kept whatever the new contours are. */
    method UpdateEdges() returns (rejected: bool)
      requires Wellformed()
      modifies this`edges, this`contours, this`pictureShown
      ensures Valid()
      ensures rejected <==> image.Some? && lowPercent >= highPercent
      ensures image.None? ==> pictureShown == old(pictureShown)
      ensures image.Some? ==> (pictureShown <==> !rejected)
      ensures Redetected().None? ==> edges == old(edges) && contours == old(contours)
      ensures Redetected().Some? ==> edges == Redetected() && contours == findContours(Redetected().value)
    {
      rejected := false;
      if image.None? {
        return;
      }
      if lowPercent >= highPercent {
        rejected := true;
        pictureShown := false;
        return;
      }
      var detected := canny(image.value, sigma, lowPercent, highPercent);
      if morphRadius > 0 {
        detected := binaryClosing(detected, morphRadius);
      }
      edges := Some(detected);
      contours := findContours(detected);
      pictureShown := true;
    }

    /** A picked file: it is shown and its edges are detected at once. */
    method LoadImage(img: Image)
      requires Valid()
      modifies this`image, this`edges, this`contours, this`pictureShown
      ensures Valid() && image == Some(img)
      ensures pictureShown <==> lowPercent < highPercent
      ensures Redetected().None? ==> edges == old(edges) && contours == old(contours)
      ensures Redetected().Some? ==> edges == Redetected() && contours == findContours(Redetected().value)
    {
      image := Some(img);
      var _ := UpdateEdges();
    }

    /** A slider moved: the four values are stored and the edges redetected. */
    method SetEdgeParameters(newSigma: nat, low: nat, high: nat, radius: nat) returns (rejected: bool)
      requires Valid()
      requires 1 <= newSigma <= 30 && low <= 100 && high <= 100 && radius <= 20
      modifies this`sigma, this`lowPercent, this`highPercent, this`morphRadius, this`edges, this`contours, this`pictureShown
      ensures Valid()
      ensures sigma == newSigma && lowPercent == low && highPercent == high && morphRadius == radius
      ensures rejected <==> image.Some? && low >= high
      ensures image.None? ==> pictureShown == old(pictureShown)
      ensures image.Some? ==> (pictureShown <==> low < high)
      ensures Redetected().None? ==> edges == old(edges) && contours == old(contours)
      ensures Redetected().Some? ==> edges == Redetected() && contours == findContours(Redetected().value)
    {
      sigma, lowPercent, highPercent, morphRadius := newSigma, low, high, radius;
      rejected := UpdateEdges();
    }

    /** A radio button toggled between contour and area selection. */
    method SetAreaMode(area: bool)
      requires Valid()
      modifies this`areaMode, this`edges, this`contours, this`pictureShown
      ensures Valid() && areaMode == area
      ensures image.None? ==> pictureShown == old(pictureShown)
      ensures image.Some? ==> (pictureShown <==> lowPercent < highPercent)
      ensures Redetected().None? ==> edges == old(edges) && contours == old(contours)
      ensures Redetected().Some? ==> edges == Redetected() && contours == findContours(Redetected().value)
    {
      areaMode := area;
      var _ := UpdateEdges();
    }

    /** Typing in a segment's label field; only that index's entry changes. */
    method SetSegmentLabel(idx: nat, text: string)
      modifies this`selectedSegments
      ensures selectedSegments.Keys == old(selectedSegments.Keys) + {idx}
      ensures selectedSegments[idx] == text
      ensures forall k :: k in old(selectedSegments) && k != idx ==> selectedSegments[k] == old(selectedSegments[k])
    {
      selectedSegments := selectedSegments[idx := text];
    }

    /** The "remove" button of a segment: a selected index is deleted and the
        edges redetected; any other index changes nothing. */
    method RemoveSegment(idx: nat)
      requires Valid()
      modifies this`selectedSegments, this`edges, this`contours, this`pictureShown
      ensures Valid()
      ensures idx !in old(selectedSegments) ==>
                && selectedSegments == old(selectedSegments) && edges == old(edges) && contours == old(contours)
                && pictureShown == old(pictureShown)
      ensures idx in old(selectedSegments) ==>
                && selectedSegments.Keys == old(selectedSegments.Keys) - {idx}
                && (image.None? ==> pictureShown == old(pictureShown))
                && (image.Some? ==> (pictureShown <==> lowPercent < highPercent))
                && (forall k :: k in selectedSegments ==> selectedSegments[k] == old(selectedSegments[k]))
                && (Redetected().None? ==> edges == old(edges) && contours == old(contours))
                && (Redetected().Some? ==> edges == Redetected() && contours == findContours(Redetected().value))
    {
      if idx in selectedSegments {
        selectedSegments := selectedSegments - {idx};
        var _ := UpdateEdges();
      }
    }

    /** A click at source pixel (x, y). Without an image or contours, or
        while the warning text hides the picture, it is ignored. Area mode toggles the contour of the clicked edge component,
        appending it when no known contour is close to it; contour mode
        toggles the nearest contour when it lies within `PickRadius`. After a
        toggle the edges are redetected, which replaces the contour list. */
    method ImageClicked(x: int, y: int)
      requires Valid()
      modifies this`edges, this`contours, this`selectedSegments, this`pictureShown
      ensures Valid()
      ensures old(Pick(x, y)).None? ==>
                && edges == old(edges) && contours == old(contours) && selectedSegments == old(selectedSegments)
                && pictureShown == old(pictureShown)
      ensures old(Pick(x, y)).Some? ==>
                && selectedSegments == ToggleSegment(old(selectedSegments), old(Pick(x, y)).value.index)
                && pictureShown && Redetected().Some?
                && edges == Redetected() && contours == findContours(Redetected().value)
    {
      if image.None? || contours == [] || !pictureShown {
        return;
      }
      var idx: nat;
      if areaMode {
        var clicked := ClickedContour(edges.value, x, y, measureLabel, findContours);
        if clicked.None? {
          return;  // outside the image, outside any segment, or no contour traced
        }
        var contour := clicked.value;
        var m := FindMatch(contours, contour);
        if m.Raised? {
          return;  // the exception handler of image_clicked
        }
        if m.Matched? {
          idx := m.index;
        } else {
          contours := contours + [contour];
          idx := |contours| - 1;
        }
      } else {
        var n := NearestContour(contours, x, y);
        if !(n.Nearest? && n.dist2 < 4 * PickRadius * PickRadius) {
          return;
        }
        idx := n.index;
      }
      selectedSegments := ToggleSegment(selectedSegments, idx);
      var _ := UpdateEdges();
    }
  }

  /** Setting the low threshold equal to the high one hides the picture, and
      the click that follows changes nothing, whatever the mode. */
  method RejectedThresholdIgnoresClicks(a: ImageAnnotator, x: int, y: int)
    requires a.Valid() && a.image.Some?
    modifies a
    ensures a.edges == old(a.edges) && a.contours == old(a.contours) && a.selectedSegments == old(a.selectedSegments)
    ensures !a.pictureShown
  {
    var rejected := a.SetEdgeParameters(a.sigma, 30, 30, a.morphRadius);
    a.ImageClicked(x, y);
  }

  /** An area-mode click on a region whose contour is not yet known, while the
      edges are those the sliders give: the contour is appended and its index
      selected, but the redetection inside the same click rebuilds the contour
      list without it, so the selected index is one past the end. */
  method NewAreaContourIsDropped(a: ImageAnnotator, x: int, y: int)
    requires a.Valid() && a.areaMode
    requires a.edges.Some? && a.Redetected() == a.edges && a.contours == a.findContours(a.edges.value)
    requires a.Pick(x, y).Some? && a.Pick(x, y).value.index == |a.contours|
    requires |a.contours| !in a.selectedSegments
    modifies a
    ensures |a.contours| == |old(a.contours)| && |a.contours| in a.selectedSegments
  {
    a.ImageClicked(x, y);
  }
}
