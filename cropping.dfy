/**
 * The crop helpers of `cropping_functions.py`: the centre of a bounding box, the
 * fixed 400-by-200 window around a centre, and the crop of a frame and its mask to
 * that window.
 *
 * Geometry is exact real arithmetic. The window's float bounds are used as slice
 * bounds; they are truncated toward zero, as the numpy of the source's era did with
 * float indices, and then normalised like any Python slice bound (a negative bound
 * counts from the end).
 */
module Cropping {
  import opened Wrappers
  import opened Grids

  /** A rectangle with real bounds, in the source's order (x_min, x_max, y_min, y_max). */
  datatype Box = Box(xMin: real, xMax: real, yMin: real, yMax: real)

  /** The box of an integer shape. */
  function ToBox(s: Shape): Box
  {
    Box(s.xMin as real, s.xMax as real, s.yMin as real, s.yMax as real)
  }

  /** The intended `get_center_of_box`: the midpoint (x, y) of the box. */
  function CenterOfBox(b: Box): (c: (real, real))
    ensures c.0 - b.xMin == b.xMax - c.0 && c.1 - b.yMin == b.yMax - c.1
  {
    ((b.xMin + b.xMax) / 2.0, (b.yMin + b.yMax) / 2.0)
  }

  /** `np.mean(v, axis)` on a scalar `v`: numpy takes the scalar as a 0-d array,
      whose shape is empty, and counts the items along `axis` by indexing that
      shape before any mean is taken. No integer indexes an empty shape, so every
      axis fails: the numpy of the code's era raised IndexError there (current
      numpy raises AxisError instead). */
  function ScalarMean(v: int, axis: int): (r: Result<real>)
    ensures r == Failure(IndexError)
  {
    var shape: seq<nat> := [];
    if -|shape| <= axis < |shape| then Success(v as real) else Failure(IndexError)
  }

  /** `get_center_of_box` as written: `(np.mean(x_min, x_max), np.mean(y_min, y_max))`,
      which passes each maximum as numpy's `axis` argument. */
  function CenterOfBoxAsWritten(s: Shape): (r: Result<(real, real)>)
    ensures r == Failure(IndexError)
  {
    match ScalarMean(s.xMin, s.xMax)
    case Failure(e) => Failure(e)
    case Success(x) =>
      match ScalarMean(s.yMin, s.yMax)
      case Failure(e) => Failure(e)
      case Success(y) => Success((x, y))
  }

  /** As written, the centre of every box raises, the default region of interest
      included, whose intended centre is (1100, 725). */
  lemma CenterOfBoxAsWrittenWrong(s: Shape)
    ensures CenterOfBoxAsWritten(s).Failure?
    ensures CenterOfBoxAsWritten(Shape(1000, 1200, 650, 800)) == Failure(IndexError)
    ensures CenterOfBox(ToBox(Shape(1000, 1200, 650, 800))) == (1100.0, 725.0)
  {
  }

  /** `get_rectangle_shape(center_x, center_y)`: the window 400 wide and 200 tall
      whose midpoint is the given centre; its bounds are not clamped to any image. */
  function RectangleShape(cx: real, cy: real): (b: Box)
    ensures b.xMax - b.xMin == 400.0 && b.yMax - b.yMin == 200.0
  {
    var halfWidth, halfHeight := 400.0 / 2.0, 200.0 / 2.0;
    Box(cx - halfWidth, cx + halfWidth, cy - halfHeight, cy + halfHeight)
  }

  /** The window's midpoint is the centre it was built around. */
  lemma RectangleCentre(cx: real, cy: real)
    ensures CenterOfBox(RectangleShape(cx, cy)) == (cx, cy)
  {
  }

  /** A 400-by-200 box is the window around its own midpoint. */
  lemma RectangleOfCentre(b: Box)
    requires b.xMax - b.xMin == 400.0 && b.yMax - b.yMin == 200.0
    ensures RectangleShape(CenterOfBox(b).0, CenterOfBox(b).1) == b
  {
  }

  /** Near the top-left corner the bounds go negative. */
  lemma RectangleNearCorner()
    ensures RectangleShape(50.0, 50.0) == Box(-150.0, 250.0, -50.0, 150.0)
  {
  }

  /** `frame[y_min:y_max, x_min:x_max]` with the window's float bounds. */
  function CropToBox<T>(g: seq<seq<T>>, b: Box): seq<seq<T>>
  {
    Crop2D(g, Trunc(b.yMin), Trunc(b.yMax), Trunc(b.xMin), Trunc(b.xMax))
  }

  /** `crop_image(frame, mask, bounding_shape)` as evidently intended: frame and mask
      cut to the window around the box centre, rows by y and columns by x. Neither
      crop is ever larger than the window: at most 200 rows of at most 400 pixels. */
  function CropImage<P>(frame: seq<seq<P>>, mask: seq<seq<int>>, shape: Box): (r: (seq<seq<P>>, seq<seq<int>>))
    ensures |r.0| == SliceLength(|frame|, Trunc(Window(shape).yMin), Trunc(Window(shape).yMax))
    ensures |r.1| == SliceLength(|mask|, Trunc(Window(shape).yMin), Trunc(Window(shape).yMax))
    ensures |r.0| <= 200 && |r.1| <= 200
    ensures forall i :: 0 <= i < |r.0| ==> |r.0[i]| <= 400
    ensures forall i :: 0 <= i < |r.1| ==> |r.1[i]| <= 400
  {
    var window := Window(shape);
    TruncSpan(window.yMin, window.yMax);
    TruncSpan(window.xMin, window.xMax);
    SliceLengthAtMost(Trunc(window.yMin), Trunc(window.yMax));
    SliceLengthAtMost(Trunc(window.xMin), Trunc(window.xMax));
    (CropToBox(frame, window), CropToBox(mask, window))
  }

  /** The window `crop_image` cuts: the 400-by-200 rectangle with the box's centre. */
  function Window(shape: Box): (w: Box)
    ensures w.xMax - w.xMin == 400.0 && w.yMax - w.yMin == 200.0
    ensures CenterOfBox(w) == CenterOfBox(shape)
  {
    var c := CenterOfBox(shape);
    RectangleShape(c.0, c.1)
  }

  /** `crop_image` as written: its first statement calls `get_center`, a name no
      module defines, so every call raises NameError. */
  function CropImageAsWritten<P>(frame: seq<seq<P>>, mask: seq<seq<int>>, shape: Box): (r: Result<(seq<seq<P>>, seq<seq<int>>)>)
    ensures r == Failure(NameError)
  {
    Failure(NameError)
  }

  /** As written, even a box well inside the image gives NameError where the
      intended crop is a 200-by-400 window. */
  lemma CropImageAsWrittenRaises<P>(frame: seq<seq<P>>, mask: seq<seq<int>>, shape: Box)
    ensures CropImageAsWritten(frame, mask, shape) == Failure(NameError)
    ensures var (f, m) := CropImage(frame, mask, shape);
      CropImageAsWritten(frame, mask, shape) != Success((f, m))
  {
  }

  /** Frame and mask of the same size are cut by the same window: both crops are the
      cells of the window (its bounds truncated and then normalised as slice bounds). */
  lemma CropImageSameWindow<P>(frame: seq<seq<P>>, mask: seq<seq<int>>, shape: Box, h: nat, w: nat)
    requires IsGrid(frame, h, w) && IsGrid(mask, h, w)
    ensures var window := Window(shape);
      var rowLo, rowHi, colLo, colHi := Trunc(window.yMin), Trunc(window.yMax), Trunc(window.xMin), Trunc(window.xMax);
      CroppedFrom(CropImage(frame, mask, shape).0, frame, h, w, rowLo, rowHi, colLo, colHi) &&
      CroppedFrom(CropImage(frame, mask, shape).1, mask, h, w, rowLo, rowHi, colLo, colHi)
  {
    var window := Window(shape);
    var rowLo, rowHi, colLo, colHi := Trunc(window.yMin), Trunc(window.yMax), Trunc(window.xMin), Trunc(window.xMax);
    CropCell(frame, h, w, rowLo, rowHi, colLo, colHi);
    CropCell(mask, h, w, rowLo, rowHi, colLo, colHi);
  }

  /** The window around pixel (x, y), at least 200 columns and 100 rows away from
      the edges, cuts 200 rows of 400 pixels from row y - 100 and column x - 200 on. */
  lemma CropToWindowInside<T>(g: seq<seq<T>>, h: nat, w: nat, x: int, y: int)
    requires IsGrid(g, h, w) && 200 <= x <= w - 200 && 100 <= y <= h - 100
    ensures var c := CropToBox(g, RectangleShape(x as real, y as real));
      IsGrid(c, 200, 400) && forall i, j :: 0 <= i < 200 && 0 <= j < 400 ==> c[i][j] == g[y - 100 + i][x - 200 + j]
  {
    var b := RectangleShape(x as real, y as real);
    assert b == Box(x as real - 200.0, x as real + 200.0, y as real - 100.0, y as real + 100.0);
    WindowBounds(x, y);
    CropInRange(g, h, w, Trunc(b.yMin), Trunc(b.yMax), Trunc(b.xMin), Trunc(b.xMax));
  }

  /** A box centred on pixel (x, y) at least 200 columns and 100 rows away from the
      edges gives 200 rows of 400 pixels of frame and mask, from row y - 100 and
      column x - 200 on. */
  lemma CropImageInside<P>(frame: seq<seq<P>>, mask: seq<seq<int>>, shape: Box, h: nat, w: nat, x: int, y: int)
    requires IsGrid(frame, h, w) && IsGrid(mask, h, w)
    requires CenterOfBox(shape) == (x as real, y as real)
    requires 200 <= x <= w - 200 && 100 <= y <= h - 100
    ensures var (f, m) := CropImage(frame, mask, shape);
      IsGrid(f, 200, 400) && IsGrid(m, 200, 400) &&
      forall i, j :: 0 <= i < 200 && 0 <= j < 400 ==>
        f[i][j] == frame[y - 100 + i][x - 200 + j] && m[i][j] == mask[y - 100 + i][x - 200 + j]
  {
    assert Window(shape) == RectangleShape(x as real, y as real);
    CropToWindowInside(frame, h, w, x, y);
    CropToWindowInside(mask, h, w, x, y);
  }

  /** The window around an integer centre has integer bounds, which truncation keeps. */
  lemma WindowBounds(x: int, y: int)
    ensures Trunc(x as real - 200.0) == x - 200 && Trunc(x as real + 200.0) == x + 200
    ensures Trunc(y as real - 100.0) == y - 100 && Trunc(y as real + 100.0) == y + 100
  {
    TruncOfInt(x - 200);
    TruncOfInt(x + 200);
    TruncOfInt(y - 100);
    TruncOfInt(y + 100);
  }

  lemma TruncOfInt(n: int)
    ensures Trunc(n as real) == n
  {
  }

  /** Near the top edge the window's negative y_min counts from the bottom of the
      frame, so in a frame at least 200 rows tall the crop holds no rows at all. */
  lemma CropImageNearTop<P>(frame: seq<seq<P>>, mask: seq<seq<int>>, shape: Box, h: nat, w: nat, x: int, y: int)
    requires IsGrid(frame, h, w) && IsGrid(mask, h, w) && h >= 200
    requires CenterOfBox(shape) == (x as real, y as real)
    requires 0 <= y < 100
    ensures CropImage(frame, mask, shape).0 == [] && CropImage(frame, mask, shape).1 == []
  {
    var window := Window(shape);
    assert window == Box(x as real - 200.0, x as real + 200.0, y as real - 100.0, y as real + 100.0);
    WindowBounds(x, y);
  }
}
