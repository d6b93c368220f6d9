/**
 * The densest-subset selection of `GetCarFromImage._key_point_dist`: every pair
 * of keypoint positions contributes its distance to the lists of both of its
 * points; each distinct point is scored by the mean of its list; the points are
 * sorted by score and the first `int(len(key_points) * threshold)` are returned.
 *
 * Positions that coincide share one dictionary entry, and the distance function
 * is a parameter (no square root is computed).
 */
module KeyPointCluster {
  import opened Wrappers
  import opened Grids

  /** A keypoint's `.pt`: its position, x along columns and y along rows. */
  datatype Point = Point(x: int, y: int)

  /** A detected keypoint; only its position is used. */
  datatype KeyPoint = KeyPoint(pt: Point)

  /** The distance of two positions (`scipy.spatial.distance.euclidean`). */
  type Distance = (Point, Point) -> real

  predicate Distinct<T(==)>(s: seq<T>)
  {
    forall i, j :: 0 <= i < j < |s| ==> s[i] != s[j]
  }

  /** How often `x` occurs in `s`. */
  function Count<T(==)>(s: seq<T>, x: T): nat
  {
    if s == [] then 0 else (if s[0] == x then 1 else 0) + Count(s[1..], x)
  }

  /** Counting over an appended element. */
  lemma {:induction false} CountSnoc<T>(s: seq<T>, y: T, x: T)
    ensures Count(s + [y], x) == Count(s, x) + (if y == x then 1 else 0)
  {
    if s != [] {
      assert (s + [y])[1..] == s[1..] + [y];
      CountSnoc(s[1..], y, x);
    }
  }

  /** `[kp.pt for kp in key_points]`. */
  function Positions(kps: seq<KeyPoint>): (pts: seq<Point>)
    ensures |pts| == |kps|
    ensures forall i :: 0 <= i < |kps| ==> pts[i] == kps[i].pt
  {
    seq(|kps|, i requires 0 <= i < |kps| => kps[i].pt)
  }

  // ---------------------------------------------------------------------------
  // itertools.combinations(s, 2)
  // ---------------------------------------------------------------------------

  /** The pairs that the first element of `s` forms with each later one, in order. */
  function Fan<T>(s: seq<T>): (r: seq<(T, T)>)
    requires s != []
    ensures |r| == |s| - 1
    ensures forall j :: 0 <= j < |r| ==> r[j] == (s[0], s[j + 1])
  {
    seq(|s| - 1, j requires 0 <= j < |s| - 1 => (s[0], s[j + 1]))
  }

  /** `itertools.combinations(s, 2)`: every pair of positions i < j, in
      lexicographic order of (i, j). */
  function Pairs<T>(s: seq<T>): (r: seq<(T, T)>)
    ensures 2 * |r| == |s| * (|s| - 1)
  {
    if |s| < 2 then [] else Fan(s) + Pairs(s[1..])
  }

  /** Where the pair of positions i < j stands in `combinations(s, 2)` for |s| == n:
      after the n - 1 pairs of position 0 when i > 0, at j - 1 among them otherwise. */
  function PairIndex(n: nat, i: nat, j: nat): (k: nat)
    requires i < j < n
    ensures i == 0 <==> k < n - 1
  {
    if i == 0 then j - 1 else (n - 1) + PairIndex(n - 1, i - 1, j - 1)
  }

  /** The pair of positions i < j is in `combinations(s, 2)`, at PairIndex. */
  lemma {:induction false} PairsAt<T>(s: seq<T>, i: nat, j: nat)
    requires i < j < |s|
    ensures PairIndex(|s|, i, j) < |Pairs(s)| && Pairs(s)[PairIndex(|s|, i, j)] == (s[i], s[j])
  {
    var f, t := Fan(s), Pairs(s[1..]);
    assert Pairs(s) == f + t;
    if i > 0 {
      PairsAt(s[1..], i - 1, j - 1);
    }
  }

  /** Place k of `combinations(s, 2)` holds the pair of some positions i < j, and
      PairIndex puts that position pair at k. */
  ghost predicate PairOfPositions<T>(s: seq<T>, k: nat)
    requires k < |Pairs(s)|
  {
    exists i, j :: 0 <= i < j < |s| && k == PairIndex(|s|, i, j) && Pairs(s)[k] == (s[i], s[j])
  }

  /** Every pair of `combinations(s, 2)` is the pair of some positions i < j. */
  lemma {:induction false} PairsFrom<T>(s: seq<T>, k: nat)
    requires k < |Pairs(s)|
    ensures PairOfPositions(s, k)
  {
    var f, t := Fan(s), Pairs(s[1..]);
    assert Pairs(s) == f + t;
    if k < |f| {
      assert PairIndex(|s|, 0, k + 1) == k;
    } else {
      PairsFrom(s[1..], k - |f|);
      var i, j :| 0 <= i < j < |s| - 1 && k - |f| == PairIndex(|s| - 1, i, j) && t[k - |f|] == (s[1..][i], s[1..][j]);
      assert PairIndex(|s|, i + 1, j + 1) == k;
    }
  }

  /** Distinct pairs of positions stand at distinct places, in lexicographic order. */
  lemma {:induction false} PairIndexOrder(n: nat, i: nat, j: nat, i': nat, j': nat)
    requires i < j < n && i' < j' < n
    ensures (i < i' || (i == i' && j < j')) <==> PairIndex(n, i, j) < PairIndex(n, i', j')
  {
    if i > 0 && i' > 0 {
      PairIndexOrder(n - 1, i - 1, j - 1, i' - 1, j' - 1);
    }
  }

  /** `combinations(s, 2)` is exactly the pairs (s[i], s[j]) with i < j, each
      position pair once, in lexicographic order of (i, j). */
  lemma PairsContents<T>(s: seq<T>)
    ensures forall i, j :: 0 <= i < j < |s| ==>
      PairIndex(|s|, i, j) < |Pairs(s)| && Pairs(s)[PairIndex(|s|, i, j)] == (s[i], s[j])
    ensures forall k :: 0 <= k < |Pairs(s)| ==> PairOfPositions(s, k)
    ensures forall i, j, i', j' :: 0 <= i < j < |s| && 0 <= i' < j' < |s| ==>
      ((i < i' || (i == i' && j < j')) <==> PairIndex(|s|, i, j) < PairIndex(|s|, i', j'))
  {
    forall i, j | 0 <= i < j < |s|
      ensures PairIndex(|s|, i, j) < |Pairs(s)| && Pairs(s)[PairIndex(|s|, i, j)] == (s[i], s[j])
    {
      PairsAt(s, i, j);
    }
    forall k | 0 <= k < |Pairs(s)|
      ensures PairOfPositions(s, k)
    {
      PairsFrom(s, k);
    }
    forall i, j, i', j' | 0 <= i < j < |s| && 0 <= i' < j' < |s|
      ensures (i < i' || (i == i' && j < j')) <==> PairIndex(|s|, i, j) < PairIndex(|s|, i', j')
    {
      PairIndexOrder(|s|, i, j, i', j');
    }
  }

  // ---------------------------------------------------------------------------
  // The dictionary `kp2dist`, as the first loop leaves it
  // ---------------------------------------------------------------------------

  /** The positions that occur in the first n pairs of `ps`. */
  function Ends(ps: seq<(Point, Point)>, n: nat): set<Point>
    requires n <= |ps|
  {
    if n == 0 then {} else Ends(ps, n - 1) + {ps[n - 1].0, ps[n - 1].1}
  }

  /** `ks` with `p` appended unless it is already there: the key order of a
      dictionary after an assignment to key `p`. */
  function AddKey(ks: seq<Point>, p: Point): seq<Point>
  {
    if p in ks then ks else ks + [p]
  }

  /** A key is added once, after the keys already there. */
  lemma AddKeyDistinct(ks: seq<Point>, p: Point)
    requires Distinct(ks)
    ensures Distinct(AddKey(ks, p))
  {
  }

  /** The keys after the assignment are the ones before and `p`. */
  lemma AddKeyMembers(ks: seq<Point>, p: Point)
    ensures forall q :: q in AddKey(ks, p) <==> q in ks || q == p
  {
  }

  /** The keys of `kp2dist` after the first n pairs of `ps`, in the order they were
      first used. */
  function KeyOrder(ps: seq<(Point, Point)>, n: nat): seq<Point>
    requires n <= |ps|
  {
    if n == 0 then [] else AddKey(AddKey(KeyOrder(ps, n - 1), ps[n - 1].0), ps[n - 1].1)
  }

  /** Each position of the pairs is a key exactly once. */
  lemma KeyOrderKeys(ps: seq<(Point, Point)>, n: nat)
    requires n <= |ps|
    ensures Distinct(KeyOrder(ps, n))
    ensures forall q :: q in KeyOrder(ps, n) <==> q in Ends(ps, n)
  {
    KeyOrderDistinct(ps, n);
    KeyOrderMembers(ps, n);
  }

  lemma {:induction false} KeyOrderDistinct(ps: seq<(Point, Point)>, n: nat)
    requires n <= |ps|
    ensures Distinct(KeyOrder(ps, n))
  {
    if n > 0 {
      KeyOrderDistinct(ps, n - 1);
      var ks := KeyOrder(ps, n - 1);
      AddKeyDistinct(ks, ps[n - 1].0);
      var ks' := AddKey(ks, ps[n - 1].0);
      AddKeyDistinct(ks', ps[n - 1].1);
      assert KeyOrder(ps, n) == AddKey(ks', ps[n - 1].1);
    }
  }

  lemma {:induction false} KeyOrderMembers(ps: seq<(Point, Point)>, n: nat)
    requires n <= |ps|
    ensures forall q :: q in KeyOrder(ps, n) <==> q in Ends(ps, n)
  {
    if n > 0 {
      KeyOrderMembers(ps, n - 1);
      var ks := KeyOrder(ps, n - 1);
      AddKeyMembers(ks, ps[n - 1].0);
      var ks' := AddKey(ks, ps[n - 1].0);
      AddKeyMembers(ks', ps[n - 1].1);
      assert KeyOrder(ps, n) == AddKey(ks', ps[n - 1].1);
    }
  }

  /** The distances recorded for position `p` by the first n pairs of `ps`: the
      distance of each pair once for each of its two positions that is `p`. */
  function Recorded(ps: seq<(Point, Point)>, n: nat, p: Point, dist: Distance): seq<real>
    requires n <= |ps|
  {
    if n == 0 then []
    else
      var d := dist(ps[n - 1].0, ps[n - 1].1);
      Recorded(ps, n - 1, p, dist) + (if ps[n - 1].0 == p then [d] else []) + (if ps[n - 1].1 == p then [d] else [])
  }

  function Sum(xs: seq<real>): real
  {
    if xs == [] then 0.0 else Sum(xs[..|xs| - 1]) + xs[|xs| - 1]
  }

  /** `np.mean(xs)`. It is only taken of lists that hold at least one distance
      (RecordedCount), so the value chosen for the empty list is never used. */
  function Mean(xs: seq<real>): real
  {
    if xs == [] then 0.0 else Sum(xs) / (|xs| as real)
  }

  /** `d[k].append(v)` on a `defaultdict(list)`. */
  function Append(d: map<Point, seq<real>>, k: Point, v: real): map<Point, seq<real>>
  {
    d[k := (if k in d then d[k] else []) + [v]]
  }

  /** `kp2dist` as the first loop leaves it after the first n pairs of `ps`. */
  function Distances(ps: seq<(Point, Point)>, n: nat, dist: Distance): map<Point, seq<real>>
    requires n <= |ps|
  {
    if n == 0 then map[]
    else
      var d := dist(ps[n - 1].0, ps[n - 1].1);
      Append(Append(Distances(ps, n - 1, dist), ps[n - 1].0, d), ps[n - 1].1, d)
  }

  /** The dictionary holds a list for exactly the positions of the pairs. */
  lemma {:induction false} DistancesDomain(ps: seq<(Point, Point)>, n: nat, dist: Distance)
    requires n <= |ps|
    ensures forall p :: p in Distances(ps, n, dist) <==> p in Ends(ps, n)
  {
    if n > 0 {
      DistancesDomain(ps, n - 1, dist);
    }
  }

  /** The list the dictionary holds for a position is the one Recorded describes,
      and nothing is recorded for a position it does not hold. */
  lemma {:induction false} DistancesRecorded(ps: seq<(Point, Point)>, n: nat, dist: Distance)
    requires n <= |ps|
    ensures forall p :: p in Distances(ps, n, dist) ==> Distances(ps, n, dist)[p] == Recorded(ps, n, p, dist)
    ensures forall p :: p !in Distances(ps, n, dist) ==> Recorded(ps, n, p, dist) == []
  {
    if n > 0 {
      DistancesRecorded(ps, n - 1, dist);
    }
  }

  /** The second loop over the first n keys of `ks`: each list replaced by its mean. */
  function MeansOf(ks: seq<Point>, n: nat, d: map<Point, seq<real>>): map<Point, real>
    requires n <= |ks| && forall k :: k in ks ==> k in d
  {
    if n == 0 then map[] else MeansOf(ks, n - 1, d)[ks[n - 1] := Mean(d[ks[n - 1]])]
  }

  /** After the first n keys, exactly those keys hold a value, the mean of their list. */
  lemma {:induction false} MeansOfKeys(ks: seq<Point>, n: nat, d: map<Point, seq<real>>)
    requires n <= |ks| && forall k :: k in ks ==> k in d
    ensures forall p :: p in MeansOf(ks, n, d) <==> p in ks[..n]
    ensures forall p :: p in MeansOf(ks, n, d) ==> MeansOf(ks, n, d)[p] == Mean(d[p])
  {
    if n > 0 {
      MeansOfKeys(ks, n - 1, d);
      assert ks[..n] == ks[..n - 1] + [ks[n - 1]];
    }
  }

  /** `kp2dist` after both loops over the pairs `ps`. */
  function Scores(ps: seq<(Point, Point)>, dist: Distance): map<Point, real>
  {
    KeyOrderKeys(ps, |ps|);
    DistancesDomain(ps, |ps|, dist);
    var ks := KeyOrder(ps, |ps|);
    MeansOf(ks, |ks|, Distances(ps, |ps|, dist))
  }

  /** Every key is scored, and its score is the mean of the distances recorded for it. */
  lemma ScoresAreMeans(ps: seq<(Point, Point)>, dist: Distance)
    ensures forall p :: p in Scores(ps, dist) <==> p in KeyOrder(ps, |ps|)
    ensures forall p :: p in Scores(ps, dist) <==> p in Ends(ps, |ps|)
    ensures forall p :: p in Scores(ps, dist) ==> Scores(ps, dist)[p] == Mean(Recorded(ps, |ps|, p, dist))
  {
    KeyOrderKeys(ps, |ps|);
    DistancesDomain(ps, |ps|, dist);
    DistancesRecorded(ps, |ps|, dist);
    var ks := KeyOrder(ps, |ps|);
    MeansOfKeys(ks, |ks|, Distances(ps, |ps|, dist));
    assert ks[..|ks|] == ks;
  }

  /** The score of position `p` among the positions `pts`: the mean of the distances
      of every pair of positions i < j, once for each of its positions that is `p`. */
  function Score(pts: seq<Point>, dist: Distance, p: Point): (r: real)
    ensures r == Mean(AllDistances(pts, p, dist, 0))
  {
    RecordedIndexed(pts, p, dist);
    var ps := Pairs(pts);
    Mean(Recorded(ps, |ps|, p, dist))
  }

  /** The positions met in pairs from a prefix of `a` are not changed by what follows `a`. */
  lemma {:induction false} EndsPrefix(a: seq<(Point, Point)>, b: seq<(Point, Point)>, k: nat)
    requires k <= |a|
    ensures Ends(a + b, k) == Ends(a, k)
  {
    if k > 0 {
      EndsPrefix(a, b, k - 1);
      assert (a + b)[k - 1] == a[k - 1];
    }
  }

  /** The positions met in pairs from `a` followed by the first m pairs of `b`. */
  lemma {:induction false} EndsAppend(a: seq<(Point, Point)>, b: seq<(Point, Point)>, m: nat)
    requires m <= |b|
    ensures Ends(a + b, |a| + m) == Ends(a, |a|) + Ends(b, m)
  {
    if m == 0 {
      EndsPrefix(a, b, |a|);
    } else {
      EndsAppend(a, b, m - 1);
      assert (a + b)[|a| + m - 1] == b[m - 1];
    }
  }

  /** The first n pairs the first position forms meet it and the n positions after it. */
  lemma {:induction false} EndsOfFan(s: seq<Point>, n: nat)
    requires s != [] && n <= |s| - 1
    ensures forall q :: q in Ends(Fan(s), n) <==> n > 0 && (q == s[0] || q in s[1..n + 1])
  {
    if n > 0 {
      EndsOfFan(s, n - 1);
      assert s[1..n + 1] == s[1..n] + [s[n]];
    }
  }

  /** The pairs of `s` meet every position of `s`, as soon as there are two of them. */
  lemma {:induction false} EndsOfPairs(s: seq<Point>)
    ensures forall q :: q in Ends(Pairs(s), |Pairs(s)|) <==> |s| >= 2 && q in s
  {
    if |s| >= 2 {
      var f, t := Fan(s), Pairs(s[1..]);
      EndsOfPairs(s[1..]);
      EndsAppend(f, t, |t|);
      EndsOfFan(s, |s| - 1);
      assert s[1..|s| - 1 + 1] == s[1..];
      assert forall q :: q in s <==> q == s[0] || q in s[1..];
    }
  }

  /** The distances recorded by a prefix of `a` are not changed by what follows `a`. */
  lemma {:induction false} RecordedPrefix(a: seq<(Point, Point)>, b: seq<(Point, Point)>, k: nat, p: Point, dist: Distance)
    requires k <= |a|
    ensures Recorded(a + b, k, p, dist) == Recorded(a, k, p, dist)
  {
    if k > 0 {
      RecordedPrefix(a, b, k - 1, p, dist);
      assert (a + b)[k - 1] == a[k - 1];
    }
  }

  /** The distances recorded by `a` followed by the first m pairs of `b`. */
  lemma {:induction false} RecordedAppend(a: seq<(Point, Point)>, b: seq<(Point, Point)>, m: nat, p: Point, dist: Distance)
    requires m <= |b|
    ensures Recorded(a + b, |a| + m, p, dist) == Recorded(a, |a|, p, dist) + Recorded(b, m, p, dist)
  {
    if m == 0 {
      RecordedPrefix(a, b, |a|, p, dist);
    } else {
      RecordedAppend(a, b, m - 1, p, dist);
      assert (a + b)[|a| + m - 1] == b[m - 1];
    }
  }

  /** The first n pairs the first position forms record one distance for it per
      pair, and one for every later position each time it occurs among the n. */
  lemma {:induction false} RecordedOfFan(s: seq<Point>, n: nat, p: Point, dist: Distance)
    requires s != [] && n <= |s| - 1
    ensures |Recorded(Fan(s), n, p, dist)| == (if s[0] == p then n else 0) + Count(s[1..n + 1], p)
  {
    if n > 0 {
      RecordedOfFan(s, n - 1, p, dist);
      assert s[1..n + 1] == s[1..n] + [s[n]];
      CountSnoc(s[1..n], s[n], p);
    }
  }

  /** Every occurrence of a position among m positions pairs with the m - 1 others,
      so its list in `kp2dist` holds that many distances; in particular each
      position's list is non-empty when there are at least two keypoints. */
  lemma {:induction false} RecordedCount(s: seq<Point>, p: Point, dist: Distance)
    ensures |Recorded(Pairs(s), |Pairs(s)|, p, dist)| == Count(s, p) * (|s| - 1)
  {
    if |s| >= 2 {
      var f, t := Fan(s), Pairs(s[1..]);
      RecordedCount(s[1..], p, dist);
      RecordedAppend(f, t, |t|, p, dist);
      RecordedOfFan(s, |s| - 1, p, dist);
      assert s[1..|s| - 1 + 1] == s[1..];
      assert Pairs(s) == f + t;
      assert Recorded(Pairs(s), |Pairs(s)|, p, dist) == Recorded(f, |f|, p, dist) + Recorded(t, |t|, p, dist);
      PairsCountArithmetic(s[0] == p, Count(s[1..], p), |s| - 1,
        |Recorded(f, |f|, p, dist)|, |Recorded(t, |t|, p, dist)|, Count(s, p));
    } else if s == [] {
      assert Count(s, p) == 0;
    } else {
      assert Pairs(s) == [] && |s| - 1 == 0;
    }
  }

  /** What the pair of positions i < j records for position `p`: its distance once
      for each of its two positions that is `p`. */
  function Contribution(s: seq<Point>, p: Point, dist: Distance, i: nat, j: nat): seq<real>
    requires i < j < |s|
  {
    (if s[i] == p then [dist(s[i], s[j])] else []) + (if s[j] == p then [dist(s[i], s[j])] else [])
  }

  /** What the pairs (i, i + 1), ..., (i, j - 1) record for `p`, in that order. */
  function RowDistances(s: seq<Point>, p: Point, dist: Distance, i: nat, j: nat): seq<real>
    requires i < j <= |s|
    decreases j
  {
    if j == i + 1 then [] else RowDistances(s, p, dist, i, j - 1) + Contribution(s, p, dist, i, j - 1)
  }

  /** What every pair of positions i' < j with i <= i' records for `p`, by row i'. */
  function AllDistances(s: seq<Point>, p: Point, dist: Distance, i: nat): seq<real>
    decreases |s| - i
  {
    if i >= |s| then [] else RowDistances(s, p, dist, i, |s|) + AllDistances(s, p, dist, i + 1)
  }

  /** The first n pairs position 0 forms record for `p` what row 0 does up to n + 1. */
  lemma {:induction false} RecordedOfFanRow(s: seq<Point>, n: nat, p: Point, dist: Distance)
    requires s != [] && n <= |s| - 1
    ensures Recorded(Fan(s), n, p, dist) == RowDistances(s, p, dist, 0, n + 1)
  {
    if n > 0 {
      RecordedOfFanRow(s, n - 1, p, dist);
    }
  }

  /** Dropping the first position moves every row down by one. */
  lemma {:induction false} RowShift(s: seq<Point>, p: Point, dist: Distance, i: nat, j: nat)
    requires i < j <= |s| - 1
    ensures RowDistances(s[1..], p, dist, i, j) == RowDistances(s, p, dist, i + 1, j + 1)
  {
    if j > i + 1 {
      RowShift(s, p, dist, i, j - 1);
      assert s[1..][i] == s[i + 1] && s[1..][j - 1] == s[j];
    }
  }

  lemma {:induction false} AllShift(s: seq<Point>, p: Point, dist: Distance, i: nat)
    requires s != []
    ensures AllDistances(s[1..], p, dist, i) == AllDistances(s, p, dist, i + 1)
    decreases |s| - i
  {
    if i < |s| - 1 {
      RowShift(s, p, dist, i, |s| - 1);
      AllShift(s, p, dist, i + 1);
    }
  }

  /** The list `kp2dist` holds for position `p` is, in order, the distance of every
      pair of positions i < j once for each of s[i], s[j] that is `p`. */
  lemma {:induction false} RecordedIndexed(s: seq<Point>, p: Point, dist: Distance)
    ensures Recorded(Pairs(s), |Pairs(s)|, p, dist) == AllDistances(s, p, dist, 0)
  {
    if |s| >= 2 {
      RecordedIndexed(s[1..], p, dist);
      RecordedIndexedStep(s, Fan(s), Pairs(s[1..]), p, dist);
    } else if |s| == 1 {
      assert AllDistances(s, p, dist, 1) == [];
    }
  }

  /** The step of RecordedIndexed: position 0's own pairs `f`, then the pairs `t` of
      the rest. */
  lemma RecordedIndexedStep(s: seq<Point>, f: seq<(Point, Point)>, t: seq<(Point, Point)>, p: Point, dist: Distance)
    requires |s| >= 2 && f == Fan(s)
    requires Recorded(t, |t|, p, dist) == AllDistances(s[1..], p, dist, 0)
    ensures Recorded(f + t, |f + t|, p, dist) == AllDistances(s, p, dist, 0)
  {
    RecordedAppend(f, t, |t|, p, dist);
    RecordedOfFanRow(s, |s| - 1, p, dist);
    AllShift(s, p, dist, 0);
  }

  /** The count of the recursion step: the first position's own pairs plus the pairs
      of the rest. */
  lemma PairsCountArithmetic(first: bool, c: int, m: int, lf: int, lt: int, count: int)
    requires lf == (if first then m else 0) + c && lt == c * (m - 1)
    requires count == (if first then 1 else 0) + c
    ensures lf + lt == count * m
  {
  }

  /** A position that occurs among at least two keypoints has recorded distances. */
  lemma RecordedNonEmpty(s: seq<Point>, p: Point, dist: Distance)
    requires |s| >= 2 && p in s
    ensures Recorded(Pairs(s), |Pairs(s)|, p, dist) != []
  {
    RecordedCount(s, p, dist);
    CountPositive(s, p);
  }

  lemma {:induction false} CountPositive<T>(s: seq<T>, x: T)
    requires x in s
    ensures Count(s, x) > 0
  {
    if s[0] != x {
      assert x in s[1..];
      CountPositive(s[1..], x);
    }
  }

  // ---------------------------------------------------------------------------
  // sorted(kp2dist.items(), key=lambda x: x[1])
  // ---------------------------------------------------------------------------

  /** Every point of `s` has a score. */
  predicate Scored(s: seq<Point>, score: map<Point, real>)
  {
    forall p :: p in s ==> p in score
  }

  /** The points of `s` come in non-decreasing order of score. */
  predicate SortedBy(s: seq<Point>, score: map<Point, real>)
    requires Scored(s, score)
  {
    forall i, j :: 0 <= i < j < |s| ==> score[s[i]] <= score[s[j]]
  }

  /** `x` placed in front of the first element of `s` whose score is not below its own. */
  function InsertByScore(x: Point, s: seq<Point>, score: map<Point, real>): (r: seq<Point>)
    requires x in score && Scored(s, score)
    ensures |r| == |s| + 1
    ensures forall p :: p in r <==> p == x || p in s
    ensures x !in s && Distinct(s) ==> Distinct(r)
  {
    if s == [] || score[x] <= score[s[0]] then [x] + s
    else
      assert forall p :: p in s <==> p == s[0] || p in s[1..];
      var t := InsertByScore(x, s[1..], score);
      assert x !in s && Distinct(s) ==> s[0] !in t && Distinct(t);
      [s[0]] + t
  }

  /** Python's stable sort of the points by their scores: each point is inserted in
      front of the points after it that do not score below it. The result holds
      the same points, as often; it is sorted (SortIsSorted). */
  function SortByScore(s: seq<Point>, score: map<Point, real>): (r: seq<Point>)
    requires Scored(s, score)
    ensures |r| == |s|
    ensures forall p :: p in r <==> p in s
    ensures Distinct(s) ==> Distinct(r)
  {
    if s == [] then []
    else
      assert forall p :: p in s <==> p == s[0] || p in s[1..];
      InsertByScore(s[0], SortByScore(s[1..], score), score)
  }

  /** A bound below every score of `s` and of `x` stays below every score after the insertion. */
  lemma {:induction false} InsertAbove(x: Point, s: seq<Point>, score: map<Point, real>, b: real)
    requires x in score && Scored(s, score)
    requires b <= score[x] && forall k :: 0 <= k < |s| ==> b <= score[s[k]]
    ensures forall k :: 0 <= k < |InsertByScore(x, s, score)| ==> b <= score[InsertByScore(x, s, score)[k]]
  {
    if s != [] && score[s[0]] < score[x] {
      InsertAbove(x, s[1..], score, b);
    }
  }

  /** A point put in front of a sorted sequence whose scores are not below its own
      gives a sorted sequence. */
  lemma SortedCons(a: Point, t: seq<Point>, score: map<Point, real>)
    requires a in score && Scored(t, score) && SortedBy(t, score)
    requires forall k :: 0 <= k < |t| ==> score[a] <= score[t[k]]
    ensures Scored([a] + t, score) && SortedBy([a] + t, score)
  {
    var r := [a] + t;
    forall i, j | 0 <= i < j < |r|
      ensures score[r[i]] <= score[r[j]]
    {
      assert r[j] == t[j - 1];
      if i > 0 {
        assert r[i] == t[i - 1];
      }
    }
  }

  /** Inserting into a sorted sequence keeps it sorted. */
  lemma {:induction false} InsertKeepsSorted(x: Point, s: seq<Point>, score: map<Point, real>)
    requires x in score && Scored(s, score) && SortedBy(s, score)
    ensures Scored(InsertByScore(x, s, score), score) && SortedBy(InsertByScore(x, s, score), score)
  {
    if s != [] && score[s[0]] < score[x] {
      var t := InsertByScore(x, s[1..], score);
      InsertKeepsSorted(x, s[1..], score);
      InsertAbove(x, s[1..], score, score[s[0]]);
      SortedCons(s[0], t, score);
      assert InsertByScore(x, s, score) == [s[0]] + t;
    } else {
      SortedCons(x, s, score);
      assert InsertByScore(x, s, score) == [x] + s;
    }
  }

  /** The result of the sort is sorted by score. */
  lemma {:induction false} SortIsSorted(s: seq<Point>, score: map<Point, real>)
    requires Scored(s, score)
    ensures Scored(SortByScore(s, score), score) && SortedBy(SortByScore(s, score), score)
  {
    if s != [] {
      SortIsSorted(s[1..], score);
      InsertKeepsSorted(s[0], SortByScore(s[1..], score), score);
    }
  }

  // ---------------------------------------------------------------------------
  // _key_point_dist
  // ---------------------------------------------------------------------------

  /** `int(len(key_points) * threshold)`: how many points are asked for. */
  function Wanted(kps: seq<KeyPoint>, threshold: real): (n: int)
    ensures threshold >= 0.0 ==> 0 <= n && n as real <= |kps| as real * threshold < n as real + 1.0
  {
    Trunc(|kps| as real * threshold)
  }

  /** The keys of `kp2dist` in the order `sorted(kp2dist.items(), key=lambda x: x[1])`
      leaves them. */
  function Ranked(kps: seq<KeyPoint>, dist: Distance): (r: seq<Point>)
    ensures Distinct(r)
    ensures |kps| < 2 ==> r == []
  {
    var pairs := Pairs(Positions(kps));
    KeyOrderDistinct(pairs, |pairs|);
    ScoresAreMeans(pairs, dist);
    SortByScore(KeyOrder(pairs, |pairs|), Scores(pairs, dist))
  }

  /** What `_key_point_dist(key_points, threshold=0.8)` returns: the first `Wanted`
      ranked positions (`[:n]` with Python's slice semantics), or IndexError from
      `zip(*[])[0]` when that selection is empty. */
  function DenseSubset(kps: seq<KeyPoint>, threshold: real := 0.8, dist: Distance): (r: Result<seq<Point>>)
    ensures r.Failure? ==> r.error == IndexError
    ensures r.Success? ==> r.value != [] && r.value <= Ranked(kps, dist)
  {
    SliceFromStart(Ranked(kps, dist), Wanted(kps, threshold));
    var top := Slice(Ranked(kps, dist), 0, Wanted(kps, threshold));
    if top == [] then Failure(IndexError) else Success(top)
  }

  // ---------------------------------------------------------------------------
  // What `_key_point_dist` returns
  // ---------------------------------------------------------------------------

  /** The ranked points are exactly the keypoint positions, once each, as soon as
      there are two keypoints; with fewer there is no pair and nothing is ranked. */
  lemma RankedPositions(kps: seq<KeyPoint>, dist: Distance)
    ensures Distinct(Ranked(kps, dist))
    ensures forall q :: q in Ranked(kps, dist) <==> |kps| >= 2 && q in Positions(kps)
  {
    var pairs := Pairs(Positions(kps));
    KeyOrderKeys(pairs, |pairs|);
    EndsOfPairs(Positions(kps));
  }

  /** The ranked points come in non-decreasing order of their scores: the mean of
      all distances from the position to the other keypoints. */
  lemma RankedSorted(kps: seq<KeyPoint>, dist: Distance)
    ensures forall i, j :: 0 <= i < j < |Ranked(kps, dist)| ==>
      Score(Positions(kps), dist, Ranked(kps, dist)[i]) <= Score(Positions(kps), dist, Ranked(kps, dist)[j])
  {
    var pairs := Pairs(Positions(kps));
    var scores := Scores(pairs, dist);
    ScoresAreMeans(pairs, dist);
    SortIsSorted(KeyOrder(pairs, |pairs|), scores);
  }

  /** `s[:hi]`. */
  lemma SliceFromStart<T>(s: seq<T>, hi: int)
    ensures Slice(s, 0, hi) == s[..Bound(|s|, hi)]
  {
  }

  /** The returned points are keypoint positions, each at most once. */
  lemma DenseSubsetPositions(kps: seq<KeyPoint>, threshold: real, dist: Distance)
    ensures var r := DenseSubset(kps, threshold, dist);
      r.Success? ==> Distinct(r.value) && forall p :: p in r.value ==> p in Positions(kps)
  {
    var ranked := Ranked(kps, dist);
    RankedPositions(kps, dist);
    SliceFromStart(ranked, Wanted(kps, threshold));
  }

  /** The returned points come in non-decreasing order of their scores. */
  lemma DenseSubsetSorted(kps: seq<KeyPoint>, threshold: real, dist: Distance)
    ensures var r := DenseSubset(kps, threshold, dist);
      r.Success? ==> forall i, j :: 0 <= i < j < |r.value| ==>
        Score(Positions(kps), dist, r.value[i]) <= Score(Positions(kps), dist, r.value[j])
  {
    RankedSorted(kps, dist);
    SliceFromStart(Ranked(kps, dist), Wanted(kps, threshold));
  }

  /** The densest subset: no keypoint position left out scores below a returned one. */
  lemma DenseSubsetLowest(kps: seq<KeyPoint>, threshold: real, dist: Distance)
    ensures var r := DenseSubset(kps, threshold, dist);
      r.Success? ==> forall p, q :: p in r.value && q in Positions(kps) && q !in r.value ==>
        Score(Positions(kps), dist, p) <= Score(Positions(kps), dist, q)
  {
    var r := DenseSubset(kps, threshold, dist);
    if r.Success? {
      var pts, ranked := Positions(kps), Ranked(kps, dist);
      RankedPositions(kps, dist);
      RankedSorted(kps, dist);
      var m := Bound(|ranked|, Wanted(kps, threshold));
      SliceFromStart(ranked, Wanted(kps, threshold));
      forall p, q | p in r.value && q in pts && q !in r.value
        ensures Score(pts, dist, p) <= Score(pts, dist, q)
      {
        var i :| 0 <= i < m && ranked[i] == p;
        var j :| 0 <= j < |ranked| && ranked[j] == q;
      }
    }
  }

  /** How many points come back: for a non-negative `int(len * threshold)` the call
      raises IndexError exactly when there are fewer than two keypoints or nothing is
      asked for; otherwise it returns at most that many, and fewer only when every
      keypoint position is returned. */
  lemma DenseSubsetSize(kps: seq<KeyPoint>, threshold: real, dist: Distance)
    requires Wanted(kps, threshold) >= 0
    ensures var r := DenseSubset(kps, threshold, dist);
      (r.Failure? <==> |kps| < 2 || Wanted(kps, threshold) == 0) &&
      (r.Success? ==> |r.value| <= Wanted(kps, threshold)) &&
      (r.Success? && |r.value| < Wanted(kps, threshold) ==> forall q :: q in Positions(kps) ==> q in r.value)
  {
    var ranked := Ranked(kps, dist);
    RankedPositions(kps, dist);
    SliceFromStart(ranked, Wanted(kps, threshold));
    if |kps| >= 2 {
      assert Positions(kps)[0] in ranked;
    }
  }

  /** The first loop of `_key_point_dist`: every pair's distance appended to the
      lists of both of its positions. */
  method CollectDistances(pairs: seq<(Point, Point)>, dist: Distance)
    returns (keys: seq<Point>, kp2dist: map<Point, seq<real>>)
    ensures keys == KeyOrder(pairs, |pairs|)
    ensures kp2dist == Distances(pairs, |pairs|, dist)
  {
    kp2dist, keys := map[], [];
    var i := 0;
    while i < |pairs|
      invariant i <= |pairs|
      invariant keys == KeyOrder(pairs, i)
      invariant kp2dist == Distances(pairs, i, dist)
    {
      var kp1, kp2 := pairs[i].0, pairs[i].1;
      var d := dist(kp1, kp2);
      assert KeyOrder(pairs, i + 1) == AddKey(AddKey(KeyOrder(pairs, i), kp1), kp2);
      assert Distances(pairs, i + 1, dist) == Append(Append(Distances(pairs, i, dist), kp1, d), kp2, d);
      kp2dist := Append(kp2dist, kp1, d);
      keys := AddKey(keys, kp1);
      kp2dist := Append(kp2dist, kp2, d);
      keys := AddKey(keys, kp2);
      i := i + 1;
    }
  }

  /** The second loop of `_key_point_dist`: each key's list replaced by its mean. */
  method AverageDistances(keys: seq<Point>, kp2dist: map<Point, seq<real>>) returns (means: map<Point, real>)
    requires forall k :: k in keys ==> k in kp2dist
    ensures means == MeansOf(keys, |keys|, kp2dist)
  {
    means := map[];
    var j := 0;
    while j < |keys|
      invariant j <= |keys|
      invariant means == MeansOf(keys, j, kp2dist)
    {
      means := means[keys[j] := Mean(kp2dist[keys[j]])];
      j := j + 1;
    }
  }

  /** The imperative version: the two loops over `kp2dist`, then sort and slice. The
      second loop writes the means into a map of their own, where the source
      overwrites the lists in place. */
  method KeyPointDist(keyPoints: seq<KeyPoint>, threshold: real := 0.8, dist: Distance) returns (r: Result<seq<Point>>)
    ensures r == DenseSubset(keyPoints, threshold, dist)
  {
    var pairs := Pairs(Positions(keyPoints));
    var keys, kp2dist := CollectDistances(pairs, dist);
    KeyOrderKeys(pairs, |pairs|);
    DistancesDomain(pairs, |pairs|, dist);
    var means := AverageDistances(keys, kp2dist);
    ScoresAreMeans(pairs, dist);
    var n := Trunc(|keyPoints| as real * threshold);
    var sortedItems := Slice(SortByScore(keys, means), 0, n);
    if sortedItems == [] {
      return Failure(IndexError);
    }
    return Success(sortedItems);
  }
}
