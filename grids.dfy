/**
 * Python and numpy indexing on sequences and two-dimensional grids.
 *
 * Every crop in the core is a numpy basic slice `a[y_min:y_max, x_min:x_max]`:
 * rows are cut by the first pair of bounds and columns by the second, and each
 * bound is normalised the way Python normalises a slice bound (a negative bound
 * counts from the end, an out-of-range bound is clamped). One `Slice` function
 * serves rows and columns alike.
 */
module Grids {

  /** A rectangle in the order the source unpacks it: (x_min, x_max, y_min, y_max).
      x runs along columns (numpy's second axis), y along rows (the first axis). */
  datatype Shape = Shape(xMin: int, xMax: int, yMin: int, yMax: int)

  /** Python's `int(r)` on a float: truncation toward zero. */
  function Trunc(r: real): (n: int)
    ensures r >= 0.0 ==> 0 <= n && n as real <= r < n as real + 1.0
    ensures r < 0.0 ==> n <= 0 && n as real - 1.0 < r <= n as real
  {
    if r >= 0.0 then r.Floor else -((-r).Floor)
  }

  /** Where a slice bound `b` lands in a sequence of length `len`. */
  function Bound(len: nat, b: int): (r: nat)
    ensures r <= len
    ensures 0 <= b <= len ==> r == b
    ensures b < 0 <= len + b ==> r == len + b
    ensures len + b < 0 ==> r == 0
    ensures len < b ==> r == len
  {
    if b < 0 then (if len + b < 0 then 0 else len + b)
    else if len < b then len
    else b
  }

  /** Number of elements `s[lo:hi]` holds when `|s| == len`. */
  function SliceLength(len: nat, lo: int, hi: int): (n: nat)
    ensures n <= len
    ensures n <= len - Bound(len, lo)
  {
    if Bound(len, lo) < Bound(len, hi) then Bound(len, hi) - Bound(len, lo) else 0
  }

  /** A slice `[lo:hi]` with lo <= hi holds at most hi - lo elements, whatever the
      length it is taken of and wherever its bounds land. */
  lemma SliceLengthAtMost(lo: int, hi: int)
    requires lo <= hi
    ensures forall len: nat :: SliceLength(len, lo, hi) <= hi - lo
  {
    forall len: nat
      ensures SliceLength(len, lo, hi) <= hi - lo
    {
      if lo <= len {
        assert Bound(len, lo) >= lo;
        if hi >= 0 {
          assert Bound(len, hi) <= hi;
        }
      }
    }
  }

  /** Truncation is monotone, and the truncated bounds of an interval lie less than
      its width plus one apart. */
  lemma TruncSpan(lo: real, hi: real)
    requires lo <= hi
    ensures Trunc(lo) <= Trunc(hi)
    ensures ((Trunc(hi) - Trunc(lo)) as real) < hi - lo + 1.0
  {
  }

  /** True when index `k` of a sequence of length `len` is kept by `[lo:hi]`. */
  predicate InSlice(len: nat, lo: int, hi: int, k: int)
  {
    Bound(len, lo) <= k < Bound(len, hi)
  }

  /** Python's `s[lo:hi]` with step 1. */
  function Slice<T>(s: seq<T>, lo: int, hi: int): (r: seq<T>)
    ensures |r| == SliceLength(|s|, lo, hi)
    ensures forall k :: 0 <= k < |r| ==> r[k] == s[Bound(|s|, lo) + k]
  {
    var a, b := Bound(|s|, lo), Bound(|s|, hi);
    if a < b then s[a..b] else []
  }

  /** A slice whose bounds already lie inside the sequence is Dafny's own subsequence. */
  lemma SliceInRange<T>(s: seq<T>, lo: int, hi: int)
    requires 0 <= lo <= hi <= |s|
    ensures Slice(s, lo, hi) == s[lo..hi]
  {
  }

  /** A negative lower bound is not clamped to 0: it counts from the end, so a
      window that starts left of the edge wraps round and is usually empty. */
  lemma {:induction false} SliceNegativeLowerBound<T>(s: seq<T>, lo: int, hi: int)
    requires 0 <= |s| + lo && lo < 0 <= hi <= |s|
    ensures Slice(s, lo, hi) == if |s| + lo < hi then s[|s| + lo..hi] else []
    ensures |s| + lo >= hi ==> Slice(s, lo, hi) == []
  {
  }

  /** Offset k of a slice of length `len` is index `Bound(len, lo) + k` of the sequence, which the slice keeps. */
  lemma SliceOffsetInSlice(len: nat, lo: int, hi: int, k: int)
    requires 0 <= k < SliceLength(len, lo, hi)
    ensures InSlice(len, lo, hi, Bound(len, lo) + k)
  {
  }

  /** Every row of `g` has `w` cells and there are `h` rows. */
  predicate IsGrid<T>(g: seq<seq<T>>, h: nat, w: nat)
  {
    |g| == h && forall r :: 0 <= r < |g| ==> |g[r]| == w
  }

  /** numpy's `g[rowLo:rowHi, colLo:colHi]` on a two-dimensional array. */
  function Crop2D<T>(g: seq<seq<T>>, rowLo: int, rowHi: int, colLo: int, colHi: int): (c: seq<seq<T>>)
    ensures |c| == SliceLength(|g|, rowLo, rowHi)
    ensures forall i :: 0 <= i < |c| ==> c[i] == Slice(g[Bound(|g|, rowLo) + i], colLo, colHi)
  {
    var rows := Slice(g, rowLo, rowHi);
    seq(|rows|, i requires 0 <= i < |rows| => Slice(rows[i], colLo, colHi))
  }

  /** `c` is `g[rowLo:rowHi, colLo:colHi]` cell by cell, for an h-by-w grid `g`: a grid
      whose cell (i, j) is the source cell found by shifting (i, j) by the normalised
      lower bounds. */
  ghost predicate CroppedFrom<T>(c: seq<seq<T>>, g: seq<seq<T>>, h: nat, w: nat, rowLo: int, rowHi: int, colLo: int, colHi: int)
    requires IsGrid(g, h, w)
  {
    var rows, cols := SliceLength(h, rowLo, rowHi), SliceLength(w, colLo, colHi);
    IsGrid(c, rows, cols) &&
    forall i, j :: 0 <= i < rows && 0 <= j < cols ==> c[i][j] == g[Bound(h, rowLo) + i][Bound(w, colLo) + j]
  }

  /** The crop of an h-by-w grid is the window of the source at the normalised bounds. */
  lemma CropCell<T>(g: seq<seq<T>>, h: nat, w: nat, rowLo: int, rowHi: int, colLo: int, colHi: int)
    requires IsGrid(g, h, w)
    ensures CroppedFrom(Crop2D(g, rowLo, rowHi, colLo, colHi), g, h, w, rowLo, rowHi, colLo, colHi)
  {
    var c := Crop2D(g, rowLo, rowHi, colLo, colHi);
    forall i, j | 0 <= i < SliceLength(h, rowLo, rowHi) && 0 <= j < SliceLength(w, colLo, colHi)
      ensures c[i][j] == g[Bound(h, rowLo) + i][Bound(w, colLo) + j]
    {
      assert c[i] == Slice(g[Bound(h, rowLo) + i], colLo, colHi);
      assert |g[Bound(h, rowLo) + i]| == w;
    }
  }

  /** With in-range bounds the crop is (rowHi - rowLo) by (colHi - colLo) and its
      cell (i, j) is source cell (rowLo + i, colLo + j). */
  lemma CropInRange<T>(g: seq<seq<T>>, h: nat, w: nat, rowLo: int, rowHi: int, colLo: int, colHi: int)
    requires IsGrid(g, h, w)
    requires 0 <= rowLo <= rowHi <= h && 0 <= colLo <= colHi <= w
    ensures IsGrid(Crop2D(g, rowLo, rowHi, colLo, colHi), rowHi - rowLo, colHi - colLo)
    ensures forall i, j :: 0 <= i < rowHi - rowLo && 0 <= j < colHi - colLo ==>
      Crop2D(g, rowLo, rowHi, colLo, colHi)[i][j] == g[rowLo + i][colLo + j]
  {
    CropCell(g, h, w, rowLo, rowHi, colLo, colHi);
  }
}
