/**
 * The frame-retention decision: crop frame and mask to a fixed region of
 * interest and keep the frame when the mean mask intensity in that region
 * exceeds 30% of the largest mask value, 255.
 */
module Retention {
  import opened Grids

  /** The default region of interest: columns 1000 to 1200, rows 650 to 800. */
  const DefaultRoi: Shape := Shape(1000, 1200, 650, 800)

  /** `get_bounding_box`: unpack the shape as (x_min, x_max, y_min, y_max) and cut
      frame and mask alike, rows by y and columns by x. */
  function GetBoundingBox<P>(frame: seq<seq<P>>, mask: seq<seq<int>>, shape: Shape): (r: (seq<seq<P>>, seq<seq<int>>))
    ensures |r.0| == SliceLength(|frame|, shape.yMin, shape.yMax)
    ensures |r.1| == SliceLength(|mask|, shape.yMin, shape.yMax)
  {
    (Crop2D(frame, shape.yMin, shape.yMax, shape.xMin, shape.xMax),
     Crop2D(mask, shape.yMin, shape.yMax, shape.xMin, shape.xMax))
  }

  /** For a frame and a mask of the same h-by-w size, both crops have the same
      size, their rows are chosen by (y_min, y_max) and their columns by (x_min, x_max). */
  lemma BoundingBoxAxes<P>(frame: seq<seq<P>>, mask: seq<seq<int>>, shape: Shape, h: nat, w: nat)
    requires IsGrid(frame, h, w) && IsGrid(mask, h, w)
    ensures var (f, m) := GetBoundingBox(frame, mask, shape);
      var rows, cols := SliceLength(h, shape.yMin, shape.yMax), SliceLength(w, shape.xMin, shape.xMax);
      && IsGrid(f, rows, cols) && IsGrid(m, rows, cols)
      && (forall i, j :: 0 <= i < rows && 0 <= j < cols ==>
            && f[i][j] == frame[Bound(h, shape.yMin) + i][Bound(w, shape.xMin) + j]
            && m[i][j] == mask[Bound(h, shape.yMin) + i][Bound(w, shape.xMin) + j])
  {
    CropCell(frame, h, w, shape.yMin, shape.yMax, shape.xMin, shape.xMax);
    CropCell(mask, h, w, shape.yMin, shape.yMax, shape.xMin, shape.xMax);
  }

  /** With bounds inside the image the crops are (y_max - y_min) by (x_max - x_min)
      and cell (i, j) of each is cell (y_min + i, x_min + j) of its source. */
  lemma BoundingBoxInRange<P>(frame: seq<seq<P>>, mask: seq<seq<int>>, shape: Shape, h: nat, w: nat)
    requires IsGrid(frame, h, w) && IsGrid(mask, h, w)
    requires 0 <= shape.xMin <= shape.xMax <= w && 0 <= shape.yMin <= shape.yMax <= h
    ensures IsGrid(GetBoundingBox(frame, mask, shape).0, shape.yMax - shape.yMin, shape.xMax - shape.xMin)
    ensures IsGrid(GetBoundingBox(frame, mask, shape).1, shape.yMax - shape.yMin, shape.xMax - shape.xMin)
    ensures forall i, j :: 0 <= i < shape.yMax - shape.yMin && 0 <= j < shape.xMax - shape.xMin ==>
      GetBoundingBox(frame, mask, shape).0[i][j] == frame[shape.yMin + i][shape.xMin + j]
    ensures forall i, j :: 0 <= i < shape.yMax - shape.yMin && 0 <= j < shape.xMax - shape.xMin ==>
      GetBoundingBox(frame, mask, shape).1[i][j] == mask[shape.yMin + i][shape.xMin + j]
  {
    CropInRange(frame, h, w, shape.yMin, shape.yMax, shape.xMin, shape.xMax);
    CropInRange(mask, h, w, shape.yMin, shape.yMax, shape.xMin, shape.xMax);
  }

  function RowSum(row: seq<int>): int
  {
    if row == [] then 0 else RowSum(row[..|row| - 1]) + row[|row| - 1]
  }

  /** The sum of all cells of a grid. */
  function GridSum(g: seq<seq<int>>): int
  {
    if g == [] then 0 else GridSum(g[..|g| - 1]) + RowSum(g[|g| - 1])
  }

  /** The number of cells of a grid. */
  function CellCount<T>(g: seq<seq<T>>): nat
  {
    if g == [] then 0 else CellCount(g[..|g| - 1]) + |g[|g| - 1]|
  }

  /** `discard_image_decision_rule`: keep the frame when the mask's mean over the
      region exceeds `.3 * 255.0` = 76.5 = 153 / 2, stated here without division
      (DecisionRuleMeanForm proves it is the source's comparison of the mean). */
  function DiscardImageDecisionRule<P>(frame: seq<seq<P>>, mask: seq<seq<int>>, shape: Shape := DefaultRoi): (keep: bool)
    ensures keep ==> GridSum(GetBoundingBox(frame, mask, shape).1) > 0
  {
    var region := GetBoundingBox(frame, mask, shape).1;
    2 * GridSum(region) > 153 * CellCount(region)
  }

  /** The rule compares the mean mask value of the region with `.3 * 255.0`. The mean
      of an empty region is NaN in numpy and NaN compares false, so an empty region
      is never kept. */
  lemma DecisionRuleMeanForm<P>(frame: seq<seq<P>>, mask: seq<seq<int>>, shape: Shape)
    ensures var region := GetBoundingBox(frame, mask, shape).1;
      DiscardImageDecisionRule(frame, mask, shape) <==>
        CellCount(region) > 0 && (GridSum(region) as real) / (CellCount(region) as real) > 0.3 * 255.0
  {
    var region := GetBoundingBox(frame, mask, shape).1;
    if CellCount(region) > 0 {
      MeanAboveThreshold(GridSum(region), CellCount(region));
    } else {
      CellCountZeroSum(region);
    }
  }

  /** For a positive count, sum / count > 0.3 * 255 exactly when 2 * sum > 153 * count. */
  lemma MeanAboveThreshold(s: int, c: int)
    requires c > 0
    ensures (s as real) / (c as real) > 0.3 * 255.0 <==> 2 * s > 153 * c
  {
    QuotientAbove(s as real, c as real, 76.5);
    assert 76.5 * (c as real) == ((153 * c) as real) / 2.0;
  }

  lemma QuotientAbove(x: real, y: real, t: real)
    requires y > 0.0
    ensures x / y > t <==> x > t * y
  {
    var q := x / y;
    assert x == q * y;
    if q > t {
      assert (q - t) * y > 0.0;
    } else {
      assert (t - q) * y >= 0.0;
    }
  }

  /** A grid without cells sums to zero. */
  lemma {:induction false} CellCountZeroSum(g: seq<seq<int>>)
    requires CellCount(g) == 0
    ensures GridSum(g) == 0
  {
    if g != [] {
      CellCountZeroSum(g[..|g| - 1]);
      assert g[|g| - 1] == [];
    }
  }

  lemma {:induction false} CellCountOfGrid<T>(g: seq<seq<T>>, h: nat, w: nat)
    requires IsGrid(g, h, w)
    ensures CellCount(g) == h * w
  {
    if h > 0 {
      CellCountOfGrid(g[..h - 1], h - 1, w);
    }
  }

  lemma {:induction false} RowSumMonotone(a: seq<int>, b: seq<int>)
    requires |a| == |b| && forall k :: 0 <= k < |a| ==> a[k] <= b[k]
    ensures RowSum(a) <= RowSum(b)
  {
    if a != [] {
      RowSumMonotone(a[..|a| - 1], b[..|b| - 1]);
    }
  }

  /** Raising cells of a grid never lowers its sum. */
  lemma {:induction false} GridSumMonotone(a: seq<seq<int>>, b: seq<seq<int>>, h: nat, w: nat)
    requires IsGrid(a, h, w) && IsGrid(b, h, w)
    requires forall i, j :: 0 <= i < h && 0 <= j < w ==> a[i][j] <= b[i][j]
    ensures GridSum(a) <= GridSum(b)
  {
    if h > 0 {
      GridSumMonotone(a[..h - 1], b[..h - 1], h - 1, w);
      RowSumMonotone(a[h - 1], b[h - 1]);
    }
  }

  /** Cell (r, c) of an h-by-w image lies inside the region the shape cuts out. */
  predicate InRegion(h: nat, w: nat, shape: Shape, r: int, c: int)
  {
    InSlice(h, shape.yMin, shape.yMax, r) && InSlice(w, shape.xMin, shape.xMax, c)
  }

  /** Raising mask cells inside the region raises the cells of its crop. */
  lemma CropRaised(mask: seq<seq<int>>, mask': seq<seq<int>>, shape: Shape, h: nat, w: nat)
    requires IsGrid(mask, h, w) && IsGrid(mask', h, w)
    requires forall r, c :: 0 <= r < h && 0 <= c < w && InRegion(h, w, shape, r, c) ==> mask[r][c] <= mask'[r][c]
    ensures var rows, cols := SliceLength(h, shape.yMin, shape.yMax), SliceLength(w, shape.xMin, shape.xMax);
      var m, m' := Crop2D(mask, shape.yMin, shape.yMax, shape.xMin, shape.xMax), Crop2D(mask', shape.yMin, shape.yMax, shape.xMin, shape.xMax);
      IsGrid(m, rows, cols) && IsGrid(m', rows, cols) &&
      forall i, j :: 0 <= i < rows && 0 <= j < cols ==> m[i][j] <= m'[i][j]
  {
    var rows, cols := SliceLength(h, shape.yMin, shape.yMax), SliceLength(w, shape.xMin, shape.xMax);
    var m, m' := Crop2D(mask, shape.yMin, shape.yMax, shape.xMin, shape.xMax), Crop2D(mask', shape.yMin, shape.yMax, shape.xMin, shape.xMax);
    CropCell(mask, h, w, shape.yMin, shape.yMax, shape.xMin, shape.xMax);
    CropCell(mask', h, w, shape.yMin, shape.yMax, shape.xMin, shape.xMax);
    forall i, j | 0 <= i < rows && 0 <= j < cols
      ensures m[i][j] <= m'[i][j]
    {
      SliceOffsetInSlice(h, shape.yMin, shape.yMax, i);
      SliceOffsetInSlice(w, shape.xMin, shape.xMax, j);
    }
  }

  /** Retention is monotone in the mask: raising mask cells inside the region never
      turns a kept frame into a discarded one; the frame's pixels play no part. */
  lemma RetentionMonotone<P>(frame: seq<seq<P>>, frame': seq<seq<P>>, mask: seq<seq<int>>, mask': seq<seq<int>>,
                             shape: Shape, h: nat, w: nat)
    requires IsGrid(mask, h, w) && IsGrid(mask', h, w)
    requires forall r, c :: 0 <= r < h && 0 <= c < w && InRegion(h, w, shape, r, c) ==> mask[r][c] <= mask'[r][c]
    ensures DiscardImageDecisionRule(frame, mask, shape) ==> DiscardImageDecisionRule(frame', mask', shape)
  {
    var rows, cols := SliceLength(h, shape.yMin, shape.yMax), SliceLength(w, shape.xMin, shape.xMax);
    var m, m' := Crop2D(mask, shape.yMin, shape.yMax, shape.xMin, shape.xMax), Crop2D(mask', shape.yMin, shape.yMax, shape.xMin, shape.xMax);
    CropRaised(mask, mask', shape, h, w);
    GridSumMonotone(m, m', rows, cols);
    CellCountOfGrid(m, rows, cols);
    CellCountOfGrid(m', rows, cols);
  }

  /** Mask cells outside the region never affect the decision. */
  lemma RetentionIgnoresOutside<P>(frame: seq<seq<P>>, frame': seq<seq<P>>, mask: seq<seq<int>>, mask': seq<seq<int>>,
                                   shape: Shape, h: nat, w: nat)
    requires IsGrid(mask, h, w) && IsGrid(mask', h, w)
    requires forall r, c :: 0 <= r < h && 0 <= c < w && InRegion(h, w, shape, r, c) ==> mask[r][c] == mask'[r][c]
    ensures DiscardImageDecisionRule(frame, mask, shape) == DiscardImageDecisionRule(frame', mask', shape)
  {
    RetentionMonotone(frame, frame', mask, mask', shape, h, w);
    RetentionMonotone(frame', frame, mask', mask, shape, h, w);
  }

  lemma {:induction false} GridSumUniform(g: seq<seq<int>>, h: nat, w: nat, v: int)
    requires IsGrid(g, h, w)
    requires forall i, j :: 0 <= i < h && 0 <= j < w ==> g[i][j] == v
    ensures GridSum(g) == v * (h * w)
  {
    if h > 0 {
      GridSumUniform(g[..h - 1], h - 1, w, v);
      RowSumUniform(g[h - 1], v);
      UniformStep(v, h, w);
    }
  }

  lemma UniformStep(v: int, h: nat, w: nat)
    requires h > 0
    ensures v * ((h - 1) * w) + v * w == v * (h * w)
  {
    assert (h - 1) * w + w == h * w;
  }

  lemma {:induction false} RowSumUniform(row: seq<int>, v: int)
    requires forall k :: 0 <= k < |row| ==> row[k] == v
    ensures RowSum(row) == v * |row|
  {
    if row != [] {
      RowSumUniform(row[..|row| - 1], v);
    }
  }

  /** On an image at least 1200 wide and 800 tall, the default region is the
      150-by-200 block of rows 650..799 and columns 1000..1199, and a region whose
      mask value is v everywhere is kept exactly when v > 76.5: a mean of 100 is
      kept, a mean of 76 is not. */
  lemma DefaultRegionUniform<P>(frame: seq<seq<P>>, mask: seq<seq<int>>, h: nat, w: nat, v: int)
    requires IsGrid(frame, h, w) && IsGrid(mask, h, w) && h >= 800 && w >= 1200
    requires forall r, c :: 650 <= r < 800 && 1000 <= c < 1200 ==> mask[r][c] == v
    ensures IsGrid(GetBoundingBox(frame, mask, DefaultRoi).1, 150, 200)
    ensures DiscardImageDecisionRule(frame, mask) <==> 2 * v > 153
  {
    var m := GetBoundingBox(frame, mask, DefaultRoi).1;
    BoundingBoxInRange(frame, mask, DefaultRoi, h, w);
    GridSumUniform(m, 150, 200, v);
    CellCountOfGrid(m, 150, 200);
  }
}
