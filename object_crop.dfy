/**
 * `GetCarFromImage._object_crop_one` and `sift_crop`: detect keypoints on the
 * grey image, keep the densest fraction of them, and cut the original image to the
 * box their coordinates span, rows by y and columns by x.
 *
 * The grey conversion and the keypoint detector are library calls; they are
 * parameters here. An image is its number of dimensions together with its rows;
 * a pixel is a value of the type parameter, a channel vector for a colour image.
 */
module ObjectCrop {
  import opened Wrappers
  import opened Grids
  import opened KeyPointCluster

  /** A numpy image: `len(img.shape)` and its rows. */
  datatype Image<P> = Image(ndim: nat, rows: seq<seq<P>>)

  /** The grey copy the detector sees: converted only when the image has more than
      two dimensions, otherwise the array itself. */
  function Gray<P>(img: Image<P>, toGray: Image<P> -> Image<P>): (g: Image<P>)
    ensures img.ndim <= 2 ==> g == img
  {
    if img.ndim > 2 then toGray(img) else img
  }

  /** `min(xs)`. */
  function Min(xs: seq<int>): (m: int)
    requires xs != []
    ensures m in xs
    ensures forall k :: 0 <= k < |xs| ==> m <= xs[k]
  {
    if |xs| == 1 then xs[0]
    else
      var rest := Min(xs[1..]);
      if xs[0] <= rest then xs[0] else rest
  }

  /** `max(xs)`. */
  function Max(xs: seq<int>): (m: int)
    requires xs != []
    ensures m in xs
    ensures forall k :: 0 <= k < |xs| ==> xs[k] <= m
  {
    if |xs| == 1 then xs[0]
    else
      var rest := Max(xs[1..]);
      if xs[0] >= rest then xs[0] else rest
  }

  /** The x coordinates of `zip(*key_points)`. */
  function Xs(pts: seq<Point>): (xs: seq<int>)
    ensures |xs| == |pts| && forall k :: 0 <= k < |pts| ==> xs[k] == pts[k].x
  {
    seq(|pts|, k requires 0 <= k < |pts| => pts[k].x)
  }

  /** The y coordinates of `zip(*key_points)`. */
  function Ys(pts: seq<Point>): (ys: seq<int>)
    ensures |ys| == |pts| && forall k :: 0 <= k < |pts| ==> ys[k] == pts[k].y
  {
    seq(|pts|, k requires 0 <= k < |pts| => pts[k].y)
  }

  /** The box the selected points span, as (x_min, x_max, y_min, y_max): the least
      and greatest coordinates, each attained by some point. */
  function CropBox(pts: seq<Point>): (box: Shape)
    requires pts != []
    ensures box.xMin <= box.xMax && box.yMin <= box.yMax
    ensures forall p :: p in pts ==> box.xMin <= p.x <= box.xMax && box.yMin <= p.y <= box.yMax
    ensures exists p :: p in pts && p.x == box.xMin
    ensures exists p :: p in pts && p.x == box.xMax
    ensures exists p :: p in pts && p.y == box.yMin
    ensures exists p :: p in pts && p.y == box.yMax
  {
    var xs, ys := Xs(pts), Ys(pts);
    assert forall p :: p in pts ==> p.x in xs && p.y in ys;
    Shape(Min(xs), Max(xs), Min(ys), Max(ys))
  }

  /** `_object_crop_one(img_arr, obj_detect_class, threshold)`: the original image
      cut to `[y_min:y_max, x_min:x_max]` of the selected points, or the IndexError
      the selection raises. */
  function ObjectCropOne<P>(img: Image<P>, toGray: Image<P> -> Image<P>, detect: Image<P> -> seq<KeyPoint>,
                            threshold: real, dist: Distance): (r: Result<seq<seq<P>>>)
    ensures r.Failure? <==> DenseSubset(detect(Gray(img, toGray)), threshold, dist).Failure?
    ensures r.Failure? ==> r.error == IndexError
    ensures r.Success? ==> |r.value| <= |img.rows|
  {
    match DenseSubset(detect(Gray(img, toGray)), threshold, dist)
    case Failure(e) => Failure(e)
    case Success(sel) => Success(CropToPoints(img.rows, sel))
  }

  /** `img_arr[y_min:y_max, x_min:x_max]` for the box the points span. */
  function CropToPoints<P>(rows: seq<seq<P>>, pts: seq<Point>): (c: seq<seq<P>>)
    requires pts != []
    ensures |c| == SliceLength(|rows|, CropBox(pts).yMin, CropBox(pts).yMax)
    ensures forall i :: 0 <= i < |c| ==>
      |c[i]| == SliceLength(|rows[Bound(|rows|, CropBox(pts).yMin) + i]|, CropBox(pts).xMin, CropBox(pts).xMax)
  {
    var box := CropBox(pts);
    Crop2D(rows, box.yMin, box.yMax, box.xMin, box.xMax)
  }

  /** The box lies inside an image of h rows and w columns. */
  predicate Within(box: Shape, h: nat, w: nat)
  {
    0 <= box.xMin <= box.xMax <= w && 0 <= box.yMin <= box.yMax <= h
  }

  /** `c` is the part of `rows` inside the box: (y_max - y_min) rows of
      (x_max - x_min) pixels, read at the box's offset. */
  ghost predicate CutFrom<P>(c: seq<seq<P>>, rows: seq<seq<P>>, box: Shape, h: nat, w: nat)
    requires IsGrid(rows, h, w) && Within(box, h, w)
  {
    IsGrid(c, box.yMax - box.yMin, box.xMax - box.xMin) &&
    forall i, j :: 0 <= i < box.yMax - box.yMin && 0 <= j < box.xMax - box.xMin ==>
      c[i][j] == rows[box.yMin + i][box.xMin + j]
  }

  /** Every point of the box except those on its exclusive right and bottom edges
      keeps its pixel in the cut. */
  lemma CutKeepsPoints<P>(c: seq<seq<P>>, rows: seq<seq<P>>, box: Shape, h: nat, w: nat, pts: seq<Point>)
    requires IsGrid(rows, h, w) && Within(box, h, w) && CutFrom(c, rows, box, h, w)
    requires forall p :: p in pts ==> box.xMin <= p.x <= box.xMax && box.yMin <= p.y <= box.yMax
    ensures forall p :: p in pts && p.x < box.xMax && p.y < box.yMax ==>
      c[p.y - box.yMin][p.x - box.xMin] == rows[p.y][p.x]
  {
    forall p | p in pts && p.x < box.xMax && p.y < box.yMax
      ensures c[p.y - box.yMin][p.x - box.xMin] == rows[p.y][p.x]
    {
      var i, j := p.y - box.yMin, p.x - box.xMin;
      assert c[i][j] == rows[box.yMin + i][box.xMin + j];
    }
  }

  /** A box inside the image cuts out exactly the pixels inside it. */
  lemma CropWithin<P>(rows: seq<seq<P>>, box: Shape, h: nat, w: nat)
    requires IsGrid(rows, h, w) && Within(box, h, w)
    ensures CutFrom(Crop2D(rows, box.yMin, box.yMax, box.xMin, box.xMax), rows, box, h, w)
  {
    CropInRange(rows, h, w, box.yMin, box.yMax, box.xMin, box.xMax);
  }

  /** The crop fails exactly when the selection does, and otherwise cuts the original
      image (not its grey copy) to the selected points. */
  lemma ObjectCropCells<P>(img: Image<P>, toGray: Image<P> -> Image<P>, detect: Image<P> -> seq<KeyPoint>,
                           threshold: real, dist: Distance, h: nat, w: nat)
    requires IsGrid(img.rows, h, w)
    ensures var sel := DenseSubset(detect(Gray(img, toGray)), threshold, dist);
      var r := ObjectCropOne(img, toGray, detect, threshold, dist);
      (r.Failure? <==> sel.Failure?) &&
      (sel.Success? && Within(CropBox(sel.value), h, w) ==> CutFrom(r.value, img.rows, CropBox(sel.value), h, w))
  {
    var sel := DenseSubset(detect(Gray(img, toGray)), threshold, dist);
    if sel.Success? && Within(CropBox(sel.value), h, w) {
      CropWithin(img.rows, CropBox(sel.value), h, w);
    }
  }

  /** A two-dimensional image is handed to the detector as it is: the grey
      conversion is never applied to it. */
  lemma GrayOnlyForColour<P>(img: Image<P>, toGray: Image<P> -> Image<P>, toGray': Image<P> -> Image<P>,
                             detect: Image<P> -> seq<KeyPoint>, threshold: real, dist: Distance)
    requires img.ndim <= 2
    ensures ObjectCropOne(img, toGray, detect, threshold, dist) == ObjectCropOne(img, toGray', detect, threshold, dist)
    ensures Gray(img, toGray) == img
  {
  }

  /** `sift_crop(img_arr, contrast_threshold=0.15, threshold=0.6)`: the detector is
      SIFT built with the contrast threshold. */
  function SiftCrop<P>(img: Image<P>, toGray: Image<P> -> Image<P>, sift: real -> (Image<P> -> seq<KeyPoint>),
                       dist: Distance, contrast: real := 0.15, threshold: real := 0.6): (r: Result<seq<seq<P>>>)
    ensures r.Failure? <==> DenseSubset(sift(contrast)(Gray(img, toGray)), threshold, dist).Failure?
    ensures r.Failure? ==> r.error == IndexError
    ensures r.Success? ==> |r.value| <= |img.rows|
  {
    ObjectCropOne(img, toGray, sift(contrast), threshold, dist)
  }

  /** With the default fraction 0.6, asking for `int(len * 0.6)` points, the crop
      fails exactly when SIFT finds fewer than two keypoints. */
  lemma SiftCropFailure<P>(img: Image<P>, toGray: Image<P> -> Image<P>, sift: real -> (Image<P> -> seq<KeyPoint>),
                           dist: Distance)
    ensures SiftCrop(img, toGray, sift, dist).Failure? <==> |sift(0.15)(Gray(img, toGray))| < 2
  {
    var kps := sift(0.15)(Gray(img, toGray));
    var n := Wanted(kps, 0.6);
    if |kps| >= 2 {
      assert |kps| as real * 0.6 >= 1.0;
    }
    DenseSubsetSize(kps, 0.6, dist);
  }
}
