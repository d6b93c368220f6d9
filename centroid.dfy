/**
 * `get_center_of_car(mask, threshold=0.0)`: the centre of mass of the mask, as
 * (row, col). A cell's weight is its intensity when the threshold is 0 (falsy), and
 * 1 or 0 according to `mask > threshold` for any other threshold, negative ones
 * included. The centre along an axis is the weighted sum of the indices divided by
 * the total weight.
 */
module Centroid {
  import opened Grids

  /** The weight of a cell with value `v`. */
  function Weight(v: real, threshold: real): real
  {
    if threshold != 0.0 then (if v > threshold then 1.0 else 0.0) else v
  }

  /** The array `center_of_mass` is given: the mask itself, or `mask > threshold`. */
  function Weights(mask: seq<seq<real>>, threshold: real): (g: seq<seq<real>>)
    ensures |g| == |mask| && forall i :: 0 <= i < |g| ==> |g[i]| == |mask[i]|
    ensures forall i, j :: 0 <= i < |g| && 0 <= j < |g[i]| ==> g[i][j] == Weight(mask[i][j], threshold)
  {
    seq(|mask|, i requires 0 <= i < |mask| =>
      seq(|mask[i]|, j requires 0 <= j < |mask[i]| => Weight(mask[i][j], threshold)))
  }

  /** The weight of the first n cells of a row. */
  function RowTotal(row: seq<real>, n: nat): real
    requires n <= |row|
  {
    if n == 0 then 0.0 else RowTotal(row, n - 1) + row[n - 1]
  }

  /** The first n cells of a row, each weighted by its column index. */
  function RowColMoment(row: seq<real>, n: nat): real
    requires n <= |row|
  {
    if n == 0 then 0.0 else RowColMoment(row, n - 1) + (n - 1) as real * row[n - 1]
  }

  /** The weight of the first n rows. */
  function Total(g: seq<seq<real>>, n: nat): real
    requires n <= |g|
  {
    if n == 0 then 0.0 else Total(g, n - 1) + RowTotal(g[n - 1], |g[n - 1]|)
  }

  /** The first n rows, each cell weighted by its row index. */
  function RowMoment(g: seq<seq<real>>, n: nat): real
    requires n <= |g|
  {
    if n == 0 then 0.0 else RowMoment(g, n - 1) + (n - 1) as real * RowTotal(g[n - 1], |g[n - 1]|)
  }

  /** The first n rows, each cell weighted by its column index. */
  function ColMoment(g: seq<seq<real>>, n: nat): real
    requires n <= |g|
  {
    if n == 0 then 0.0 else ColMoment(g, n - 1) + RowColMoment(g[n - 1], |g[n - 1]|)
  }

  /** The total weight `center_of_mass` divides by; it is never negative for a
      non-negative mask or with a threshold. */
  function Mass(mask: seq<seq<real>>, threshold: real): (m: real)
    ensures threshold != 0.0 || NonNegative(mask) ==> m >= 0.0
  {
    var g := Weights(mask, threshold);
    WeightsOfMask(mask, threshold);
    WeightedRows(g);
    Total(g, |g|)
  }

  /** `get_center_of_car(mask, threshold)`: (row, col) of the centre of mass. A mask
      without weight has no centre (scipy returns NaN). For a non-negative mask, or
      with a threshold, the row of the centre is one of the mask's row indices or
      lies between two of them. */
  function CenterOfCar(mask: seq<seq<real>>, threshold: real := 0.0): (c: (real, real))
    requires Mass(mask, threshold) != 0.0
    ensures threshold != 0.0 || NonNegative(mask) ==> 0.0 <= c.0 <= (|mask| - 1) as real
  {
    var g := Weights(mask, threshold);
    WeightsOfMask(mask, threshold);
    WeightedRows(g);
    (RowMoment(g, |g|) / Mass(mask, threshold), ColMoment(g, |g|) / Mass(mask, threshold))
  }

  predicate NonNegative(g: seq<seq<real>>)
  {
    forall i, j :: 0 <= i < |g| && 0 <= j < |g[i]| ==> g[i][j] >= 0.0
  }

  /** Non-negative weights have a non-negative total, and their row-weighted mean
      lies between the first and the last row index. */
  lemma WeightedRows(g: seq<seq<real>>)
    ensures NonNegative(g) ==> Total(g, |g|) >= 0.0
    ensures NonNegative(g) && Total(g, |g|) != 0.0 ==>
      0.0 <= RowMoment(g, |g|) / Total(g, |g|) <= (|g| - 1) as real
  {
    if NonNegative(g) {
      TotalNonNegative(g, |g|);
      if Total(g, |g|) != 0.0 {
        RowMomentBound(g, |g|, (|g| - 1) as real);
        QuotientBetween(RowMoment(g, |g|), Total(g, |g|), (|g| - 1) as real);
      }
    }
  }

  /** With a threshold every weight is 0 or 1; without, the weights are the mask's
      intensities. */
  lemma WeightsOfMask(mask: seq<seq<real>>, threshold: real)
    ensures threshold == 0.0 ==> Weights(mask, threshold) == mask
    ensures threshold != 0.0 ==> forall i, j :: 0 <= i < |mask| && 0 <= j < |mask[i]| ==>
      Weights(mask, threshold)[i][j] == (if mask[i][j] > threshold then 1.0 else 0.0)
    ensures threshold != 0.0 || NonNegative(mask) ==> NonNegative(Weights(mask, threshold))
  {
    var g := Weights(mask, threshold);
    if threshold == 0.0 {
      forall i | 0 <= i < |mask|
        ensures g[i] == mask[i]
      {
      }
    }
  }

  lemma {:induction false} RowTotalNonNegative(row: seq<real>, n: nat)
    requires n <= |row| && forall j :: 0 <= j < |row| ==> row[j] >= 0.0
    ensures RowTotal(row, n) >= 0.0
  {
    if n > 0 {
      RowTotalNonNegative(row, n - 1);
    }
  }

  /** The column-weighted sum of non-negative cells lies between 0 and b times their
      weight, for any b at least the greatest column index. */
  lemma {:induction false} RowColMomentBound(row: seq<real>, n: nat, b: real)
    requires n <= |row| && forall j :: 0 <= j < |row| ==> row[j] >= 0.0
    requires (n - 1) as real <= b
    ensures 0.0 <= RowColMoment(row, n) <= b * RowTotal(row, n)
  {
    if n > 0 {
      RowColMomentBound(row, n - 1, b);
      var v := row[n - 1];
      assert 0.0 <= (n - 1) as real * v <= b * v;
    }
  }

  lemma {:induction false} TotalNonNegative(g: seq<seq<real>>, n: nat)
    requires n <= |g| && NonNegative(g)
    ensures Total(g, n) >= 0.0
  {
    if n > 0 {
      TotalNonNegative(g, n - 1);
      RowTotalNonNegative(g[n - 1], |g[n - 1]|);
    }
  }

  /** The row-weighted sum lies between 0 and b times the weight, for any b at least
      the greatest row index. */
  lemma {:induction false} RowMomentBound(g: seq<seq<real>>, n: nat, b: real)
    requires n <= |g| && NonNegative(g)
    requires (n - 1) as real <= b
    ensures 0.0 <= RowMoment(g, n) <= b * Total(g, n)
  {
    if n > 0 {
      RowMomentBound(g, n - 1, b);
      var t := RowTotal(g[n - 1], |g[n - 1]|);
      RowTotalNonNegative(g[n - 1], |g[n - 1]|);
      assert 0.0 <= (n - 1) as real * t <= b * t;
    }
  }

  /** The column-weighted sum of a grid w wide lies between 0 and (w - 1) times its weight. */
  lemma {:induction false} ColMomentBound(g: seq<seq<real>>, n: nat, h: nat, w: nat)
    requires IsGrid(g, h, w) && n <= h && NonNegative(g)
    ensures 0.0 <= ColMoment(g, n) <= (w - 1) as real * Total(g, n)
  {
    if n > 0 {
      ColMomentBound(g, n - 1, h, w);
      RowColMomentBound(g[n - 1], |g[n - 1]|, (w - 1) as real);
    }
  }

  lemma QuotientBetween(m: real, t: real, b: real)
    requires t > 0.0 && 0.0 <= m <= b * t
    ensures 0.0 <= m / t <= b
  {
  }

  /** For a non-negative mask, or any mask with a threshold, the centre lies inside
      the grid: 0 <= row <= h - 1 and 0 <= col <= w - 1. */
  lemma CenterInside(mask: seq<seq<real>>, threshold: real, h: nat, w: nat)
    requires IsGrid(mask, h, w) && (threshold != 0.0 || NonNegative(mask))
    requires Mass(mask, threshold) != 0.0
    ensures var (row, col) := CenterOfCar(mask, threshold);
      0.0 <= row <= (h - 1) as real && 0.0 <= col <= (w - 1) as real
  {
    var g := Weights(mask, threshold);
    WeightsOfMask(mask, threshold);
    assert IsGrid(g, h, w);
    TotalNonNegative(g, h);
    RowMomentBound(g, h, (h - 1) as real);
    ColMomentBound(g, h, h, w);
    QuotientBetween(RowMoment(g, h), Total(g, h), (h - 1) as real);
    QuotientBetween(ColMoment(g, h), Total(g, h), (w - 1) as real);
  }

  /** With a threshold, only the side of the threshold each cell is on matters: masks
      of one shape whose cells are pairwise on the same side have the same centre. */
  lemma SameSideSameCenter(a: seq<seq<real>>, b: seq<seq<real>>, threshold: real)
    requires threshold != 0.0 && |a| == |b| && forall i :: 0 <= i < |a| ==> |a[i]| == |b[i]|
    requires forall i, j :: 0 <= i < |a| && 0 <= j < |a[i]| ==> (a[i][j] > threshold <==> b[i][j] > threshold)
    requires Mass(a, threshold) != 0.0
    ensures Mass(b, threshold) != 0.0 && CenterOfCar(a, threshold) == CenterOfCar(b, threshold)
  {
    var ga, gb := Weights(a, threshold), Weights(b, threshold);
    forall i | 0 <= i < |a|
      ensures ga[i] == gb[i]
    {
    }
    assert ga == gb;
  }

  /** The first n cells of a row of ones weigh n. */
  lemma {:induction false} OnesRowTotal(row: seq<real>, n: nat)
    requires n <= |row| && forall j :: 0 <= j < |row| ==> row[j] == 1.0
    ensures RowTotal(row, n) == n as real
  {
    if n > 0 {
      OnesRowTotal(row, n - 1);
    }
  }

  /** 0 + 1 + ... + (n - 1) == n (n - 1) / 2. */
  lemma {:induction false} OnesRowColMoment(row: seq<real>, n: nat)
    requires n <= |row| && forall j :: 0 <= j < |row| ==> row[j] == 1.0
    ensures RowColMoment(row, n) == (n * (n - 1)) as real / 2.0
  {
    if n > 0 {
      OnesRowColMoment(row, n - 1);
      assert (n * (n - 1)) - ((n - 1) * (n - 2)) == 2 * (n - 1);
    }
  }

  predicate AllOnes(g: seq<seq<real>>)
  {
    forall i, j :: 0 <= i < |g| && 0 <= j < |g[i]| ==> g[i][j] == 1.0
  }

  /** The first n rows of an all-ones grid w wide weigh n * w. */
  lemma {:induction false} OnesTotal(g: seq<seq<real>>, n: nat, h: nat, w: nat)
    requires IsGrid(g, h, w) && n <= h && AllOnes(g)
    ensures Total(g, n) == (n * w) as real
  {
    if n > 0 {
      OnesTotal(g, n - 1, h, w);
      OnesRowTotal(g[n - 1], w);
      assert (n - 1) * w + w == n * w;
    }
  }

  /** Their row-weighted sum is w * n (n - 1) / 2. */
  lemma {:induction false} OnesRowMoment(g: seq<seq<real>>, n: nat, h: nat, w: nat)
    requires IsGrid(g, h, w) && n <= h && AllOnes(g)
    ensures RowMoment(g, n) == (w * (n * (n - 1))) as real / 2.0
  {
    if n > 0 {
      OnesRowMoment(g, n - 1, h, w);
      OnesRowTotal(g[n - 1], w);
      RowMomentStep(n - 1, w, RowMoment(g, n - 1), RowTotal(g[n - 1], |g[n - 1]|));
    }
  }

  lemma RowMomentStep(m: nat, w: nat, prev: real, row: real)
    requires prev == (w * (m * (m - 1))) as real / 2.0 && row == w as real
    ensures prev + m as real * row == (w * ((m + 1) * m)) as real / 2.0
  {
    assert w * ((m + 1) * m) == w * (m * (m - 1)) + 2 * (m * w);
    assert m as real * row == (m * w) as real;
  }

  /** Their column-weighted sum is n * w (w - 1) / 2. */
  lemma {:induction false} OnesColMoment(g: seq<seq<real>>, n: nat, h: nat, w: nat)
    requires IsGrid(g, h, w) && n <= h && AllOnes(g)
    ensures ColMoment(g, n) == (n * (w * (w - 1))) as real / 2.0
  {
    if n > 0 {
      OnesColMoment(g, n - 1, h, w);
      OnesRowColMoment(g[n - 1], w);
      assert n * (w * (w - 1)) == (n - 1) * (w * (w - 1)) + w * (w - 1);
    }
  }

  /** A negative threshold counts every cell of a non-negative mask, so the centre is
      the middle of the grid, ((h - 1) / 2, (w - 1) / 2) in (row, col) order. */
  lemma NegativeThresholdCenter(mask: seq<seq<real>>, threshold: real, h: nat, w: nat)
    requires IsGrid(mask, h, w) && NonNegative(mask) && threshold < 0.0 && h > 0 && w > 0
    ensures Mass(mask, threshold) == (h * w) as real
    ensures CenterOfCar(mask, threshold) == ((h - 1) as real / 2.0, (w - 1) as real / 2.0)
  {
    var g := Weights(mask, threshold);
    assert IsGrid(g, h, w) && AllOnes(g);
    OnesTotal(g, h, h, w);
    OnesRowMoment(g, h, h, w);
    OnesColMoment(g, h, h, w);
    MiddleQuotients(h, w);
  }

  lemma MiddleQuotients(h: nat, w: nat)
    requires h > 0 && w > 0
    ensures ((w * (h * (h - 1))) as real / 2.0) / (h * w) as real == (h - 1) as real / 2.0
    ensures ((h * (w * (w - 1))) as real / 2.0) / (h * w) as real == (w - 1) as real / 2.0
  {
    assert w * (h * (h - 1)) == (h * w) * (h - 1);
    assert h * (w * (w - 1)) == (h * w) * (w - 1);
  }
}
