# Amber-Alert-Aid: frame retention, keypoint cropping and crop geometry in Dafny

This project models the computational core of Amber-Alert-Aid, a small toolkit
that reads traffic video, stores frames with their background masks, and crops
images down to the car they show:

- **The frame saver** (`SaveVideoFramesS3`, `save_video_frames_s3.py`). It derives
  the video name from the path and crops frame and mask to a region of interest
  (`get_bounding_box`). A frame is kept when the mean mask intensity in that
  region exceeds 30% of 255 (`discard_image_decision_rule`). Frame and mask are
  stored under the keys `frame/<i>_<name>.txt` and `mask/<i>_<name>.txt`
  (`write_frame_mask_s3`). The read loop (`filter_video_save_s3`) numbers and
  stores every frame the capture delivers, and raises at the first unsuccessful
  read.
- **Keypoint cropping** (`GetCarFromImage`, `object_detection.py`).
  `_key_point_dist` scores every distinct keypoint position by its mean distance
  to all the others. It sorts the positions by score and keeps the first
  `int(len * threshold)` of them. `_object_crop_one` cuts the original image to
  the box those positions span. `sift_crop` runs it with SIFT and its defaults.
- **Crop geometry and centroid** (`cropping_functions.py`). The module covers:
  - the centre of a box;
  - the fixed 400-by-200 window around a centre;
  - cropping frame and mask to that window;
  - the centre of mass of a mask, weighted by intensity or thresholded.

Modules:

| file | module | models |
|---|---|---|
| wrappers.dfy | `Wrappers` | `Option`, `Result` and the exceptions the core raises |
| grids.dfy | `Grids` | Python/numpy slicing: `Slice`, `Crop2D`, `int()` as `Trunc` |
| frame_keys.dfy | `FrameKeys` | video name, `str(i)`, object keys |
| retention.dfy | `Retention` | `get_bounding_box`, `discard_image_decision_rule` |
| frame_pipeline.dfy | `FramePipeline` | the class `SaveVideoFramesS3` and its read loop |
| key_points.dfy | `KeyPointCluster` | `_key_point_dist` |
| object_crop.dfy | `ObjectCrop` | `_object_crop_one`, `sift_crop` |
| cropping.dfy | `Cropping` | `get_center_of_box`, `get_rectangle_shape`, `crop_image` |
| centroid.dfy | `Centroid` | `get_center_of_car` |

Conventions:

- **Slicing.** Every crop in the code is a numpy basic slice
  `a[y_min:y_max, x_min:x_max]`: rows are cut by y and columns by x. One `Slice`
  function normalises a bound as Python does: a negative bound counts from the
  end, and an out-of-range bound is clamped. It serves rows and columns alike.
- **State and abstract operations.**
  - The frame saver is a class whose `uploads` field records what has been
    written to the bucket.
  - The video capture is a sequence of read results.
  - The background subtractor is a function of all the frames fed to it so far.
  - `_key_point_dist` has two loops; each is a method proved against a
    specification function. Its result, `DenseSubset`, is the function that the
    lemmas and the pure callers use.
- **Behaviour of the code, where the documentation says otherwise.**
  - With fewer than two keypoints, `_key_point_dist` raises IndexError: there is
    no pair, and `zip(*[])[0]` fails.
  - Identical keypoint positions share one dictionary entry, so they are
    returned once.
  - `n` is counted on the original list, duplicates included.
  - `filter_video_save_s3` stores every frame, although its documentation says
    it filters them (see Findings).

## Model

| member | source | states |
|---|---|---|
| Grids.Trunc | object_detection.py:33 | `int()` of a float truncates toward zero: the result is the integer between 0 and the value that is less than 1 away from it |
| Grids.Bound | save_video_frames_s3.py:64-65 | a slice bound is taken as is inside the sequence, counts from the end when negative, and is clamped to 0 or the length when out of range |
| Grids.Slice | object_detection.py:34 | `s[lo:hi]` holds `SliceLength` elements, element k being `s[Bound(lo) + k]` |
| Grids.SliceInRange | save_video_frames_s3.py:64-65 | with bounds inside the sequence a slice is the plain subsequence `s[lo..hi]` |
| Grids.SliceNegativeLowerBound | cropping_functions.py:29-30 | a negative lower bound counts from the end: the slice is the tail from `len + lo` when that lies before `hi`, and empty otherwise |
| Grids.Crop2D | save_video_frames_s3.py:64-65 | `g[rowLo:rowHi, colLo:colHi]` keeps `SliceLength` rows, each being the column slice of the row at the normalised offset |
| Grids.CropCell | save_video_frames_s3.py:64-65 | the crop of an h-by-w grid is a grid whose cell (i, j) is source cell (Bound(rowLo) + i, Bound(colLo) + j) |
| Grids.CropInRange | save_video_frames_s3.py:64-65 | with in-range bounds the crop is (rowHi - rowLo) by (colHi - colLo) and cell (i, j) is source cell (rowLo + i, colLo + j) |
| FrameKeys.BeforeFirst | save_video_frames_s3.py:19 | `s.split(c)[0]` is a prefix of `s` without `c`, ending where `s` ends or at its first `c` |
| FrameKeys.BeforeFirstUnique | save_video_frames_s3.py:19 | those three properties determine `split(c)[0]` uniquely |
| FrameKeys.AfterLast | save_video_frames_s3.py:19 | `s.split(c)[-1]` is a suffix of `s` without `c`, starting where `s` starts or after its last `c` |
| FrameKeys.AfterLastOfSplit | save_video_frames_s3.py:19 | for text ending in `c` (or empty) followed by text without `c`, `split(c)[-1]` is that final text |
| FrameKeys.VideoName | save_video_frames_s3.py:19 | the video name holds neither '/' nor '.' and is a prefix of the path's last '/'-segment |
| FrameKeys.VideoNameOfDemo | save_video_frames_s3.py:19 | "traffic_video1.mov" gives "traffic_video1" |
| FrameKeys.VideoNameDropsDirectories | save_video_frames_s3.py:19 | directories in front of the file name do not change the video name |
| FrameKeys.Decimal | save_video_frames_s3.py:90 | `str(i)` is a non-empty string of decimal digits without a leading zero |
| FrameKeys.DecimalRoundTrip | save_video_frames_s3.py:90 | reading the digits of `str(i)` back gives i |
| FrameKeys.FileNameIndex | save_video_frames_s3.py:90 | the text before the first '_' of a file name is the frame number's digits |
| FrameKeys.FileNameInjective | save_video_frames_s3.py:90 | two file names are equal exactly when their frame numbers and their video names are |
| FrameKeys.FileName | save_video_frames_s3.py:90 | the file name ends in ".txt", and holds no '/' when the video name holds none |
| FrameKeys.Key | save_video_frames_s3.py:90-94 | the key of a frame (folder "frame/") or a mask (folder "mask/") starts with its folder, and for a video name without '/' the file name is everything after its last '/' |
| FrameKeys.KeysDifferOnlyInPrefix | save_video_frames_s3.py:90-94 | the frame key is "frame/" and the mask key "mask/" before the same file name, so no frame key is a mask key |
| FrameKeys.KeysDistinctAcrossFrames | save_video_frames_s3.py:90-94 | distinct frame numbers of one video give distinct frame keys and distinct mask keys |
| Retention.BoundingBoxAxes | save_video_frames_s3.py:63-65 | the shape is read as (x_min, x_max, y_min, y_max); frame and mask crops have the same size, with rows chosen by y and columns by x |
| Retention.BoundingBoxInRange | save_video_frames_s3.py:63-65 | with bounds inside the image both crops are (y_max - y_min) by (x_max - x_min) and cell (i, j) is source cell (y_min + i, x_min + j) |
| Retention.GetBoundingBox | save_video_frames_s3.py:63-66 | both crops keep as many rows as the slice (y_min, y_max) selects of their source, so rows are chosen by y |
| Retention.DiscardImageDecisionRule | save_video_frames_s3.py:68-81 | a kept frame has a positive mask sum in its region |
| Retention.DecisionRuleMeanForm | save_video_frames_s3.py:68-81 | the integer rule 2 * sum > 153 * count holds exactly when the region is non-empty and its mean mask value exceeds .3 * 255.0 |
| Retention.MeanAboveThreshold | save_video_frames_s3.py:78 | for a positive count, sum / count > 76.5 exactly when 2 * sum > 153 * count |
| Retention.CellCountZeroSum | save_video_frames_s3.py:78 | a region without cells sums to zero, so an empty region is never kept |
| Retention.DefaultRegionUniform | save_video_frames_s3.py:68-81 | the default region is the 150-by-200 block of rows 650-799 and columns 1000-1199; a uniform mask value v is kept exactly when 2v > 153 |
| Retention.CropRaised | save_video_frames_s3.py:65 | raising mask cells inside the region raises the cells of the cropped mask |
| Retention.RetentionMonotone | save_video_frames_s3.py:77-78 | raising mask cells inside the region never turns a kept frame into a discarded one; the frame's pixels play no part |
| Retention.RetentionIgnoresOutside | save_video_frames_s3.py:77-78 | mask cells outside the region never change the decision |
| FramePipeline.LeadingFrames | save_video_frames_s3.py:111-119 | the frames delivered are the read results up to, not including, the first unsuccessful read |
| FramePipeline.LeadingFramesUnique | save_video_frames_s3.py:111-119 | those properties determine the delivered frames uniquely |
| FramePipeline.NothingAfterFailure | save_video_frames_s3.py:115-119 | no frame at or after an unsuccessful read is delivered |
| FramePipeline.ReadAt | save_video_frames_s3.py:112-115 | read number i succeeds exactly while i is below the number of delivered frames, and then yields the next of them |
| FramePipeline.FrameUploads | save_video_frames_s3.py:115-117 | a delivered frame yields uploads exactly when the storing test accepts it with its mask: then two, the frame itself under "frame/" and the mask computed from the frames fed so far under "mask/", before the same file name |
| FramePipeline.Uploads | save_video_frames_s3.py:110-117 | n delivered frames yield at most 2n uploads |
| FramePipeline.EveryFrameCounted | save_video_frames_s3.py:110-117 | without filtering, n delivered frames produce 2n uploads |
| FramePipeline.EveryFrameStored | save_video_frames_s3.py:110-117 | without filtering, frame k (from 0) is upload 2k under number k + 1, and its mask, computed from frames 0..k, is upload 2k + 1 |
| FramePipeline.FrameStoredIff | save_video_frames_s3.py:102-117 | frame number k is stored with contents f exactly when 1 <= k <= n, f is the k-th frame and the storing test accepts it with its mask |
| FramePipeline.MaskStoredIff | save_video_frames_s3.py:102-117 | the mask of frame number k is stored with contents m exactly when 1 <= k <= n, m is the mask computed from the first k frames and the storing test accepts the k-th frame with it |
| FramePipeline.UnfilteredStoresIdleFrame | save_video_frames_s3.py:102-117 | on a 1200-by-800 video whose first mask is all zero, the loop as written stores frame 1 although the decision rule discards it |
| FramePipeline.SaveVideoFramesS3.constructor | save_video_frames_s3.py:17-19 | records the path, derives the video name (without '/' or '.') and starts with nothing uploaded |
| FramePipeline.SaveVideoFramesS3.WriteFrameMaskS3 | save_video_frames_s3.py:83-98 | appends the frame under its frame key and the mask under its mask key, both built from the frame number and the video name |
| FramePipeline.SaveVideoFramesS3.FilterVideoSaveS3 | save_video_frames_s3.py:102-119 | on an open capture, stores every delivered frame and its mask under numbers 1, 2, ..., then raises; on a closed capture, does nothing |
| FramePipeline.SaveVideoFramesS3.FilterVideoSaveS3Keeping | save_video_frames_s3.py:102-119 | the same loop, storing frame and mask under the frame's own number only when a storing test accepts them |
| FramePipeline.SaveVideoFramesS3.FilterVideoSaveS3Retained | save_video_frames_s3.py:102-105 | the loop as its documentation describes it: exactly the frames the decision rule keeps are stored |
| KeyPointCluster.Positions | object_detection.py:22 | `[kp.pt for kp in key_points]` keeps the order and length of the keypoints |
| KeyPointCluster.Pairs | object_detection.py:23 | `combinations(s, 2)` has len(s) * (len(s) - 1) / 2 pairs |
| KeyPointCluster.PairsContents | object_detection.py:23 | `combinations(s, 2)` holds (s[i], s[j]) for every i < j, each at its own place given by PairIndex; every place holds such a pair; the places follow the lexicographic order of (i, j) |
| KeyPointCluster.EndsOfPairs | object_detection.py:23 | the pairs meet every position exactly when there are at least two keypoints |
| KeyPointCluster.KeyOrderKeys | object_detection.py:24-28 | the keys of `kp2dist` are the positions met in the pairs, each exactly once |
| KeyPointCluster.DistancesDomain | object_detection.py:24-28 | `kp2dist` holds a list for exactly the positions met in the pairs |
| KeyPointCluster.DistancesRecorded | object_detection.py:25-28 | each list holds one distance per pair the position is in (twice when both ends are it) |
| KeyPointCluster.RecordedCount | object_detection.py:23-28 | a position occurring c times among m keypoints has c * (m - 1) distances recorded |
| KeyPointCluster.RecordedNonEmpty | object_detection.py:23-31 | every position among at least two keypoints has a non-empty list, so its mean is defined |
| KeyPointCluster.RecordedIndexed | object_detection.py:23-28 | the list `kp2dist` holds for p is, row by row over i and then over j > i, dist(s[i], s[j]) once for each of s[i], s[j] that is p |
| KeyPointCluster.Score | object_detection.py:23-31 | a position's score is the mean of that index-by-index list of distances |
| KeyPointCluster.MeansOfKeys | object_detection.py:30-31 | after the second loop over the first n keys, exactly those keys hold a value, the mean of their list |
| KeyPointCluster.ScoresAreMeans | object_detection.py:23-31 | after both loops every key of the pairs is scored by the mean of all distances recorded for it |
| KeyPointCluster.InsertByScore | object_detection.py:34 | inserting adds one element, keeps the members and keeps them distinct |
| KeyPointCluster.SortByScore | object_detection.py:34 | the sort keeps length and members, and keeps a distinct list distinct |
| KeyPointCluster.InsertKeepsSorted | object_detection.py:34 | inserting into a sequence sorted by score keeps it sorted |
| KeyPointCluster.SortIsSorted | object_detection.py:34 | `sorted(..., key=lambda x: x[1])` orders by non-decreasing score |
| KeyPointCluster.Wanted | object_detection.py:33 | for a non-negative threshold, `int(len * threshold)` is the largest integer not above len * threshold |
| KeyPointCluster.Ranked | object_detection.py:22-34 | the sorted keys hold no position twice, and none at all for fewer than two keypoints |
| KeyPointCluster.DenseSubset | object_detection.py:33-35 | the result is a non-empty prefix of the ranked positions, or IndexError |
| KeyPointCluster.RankedPositions | object_detection.py:22-34 | the ranked points are exactly the keypoint positions, once each, when there are at least two keypoints, and nothing otherwise |
| KeyPointCluster.RankedSorted | object_detection.py:34 | the ranked points are in non-decreasing order of their mean distance |
| KeyPointCluster.DenseSubsetPositions | object_detection.py:22-35 | every returned point is the position of an input keypoint, and none is returned twice |
| KeyPointCluster.DenseSubsetSorted | object_detection.py:34-35 | the returned points are in non-decreasing order of score |
| KeyPointCluster.DenseSubsetLowest | object_detection.py:34 | no keypoint position left out scores strictly below a returned one |
| KeyPointCluster.DenseSubsetSize | object_detection.py:33-35 | the call raises IndexError exactly when there are fewer than two keypoints or `int(len * threshold)` is 0; otherwise at most that many come back, and fewer only when all positions do |
| KeyPointCluster.CollectDistances | object_detection.py:24-28 | the first loop leaves the keys in first-use order and the lists of recorded distances |
| KeyPointCluster.AverageDistances | object_detection.py:30-31 | the second loop maps every key to the mean of its list |
| KeyPointCluster.KeyPointDist | object_detection.py:14-35 | the whole of `_key_point_dist` (both loops, sort, `[:n]`, `zip(*...)[0]`, threshold 0.8 by default) returns the dense subset, or IndexError |
| ObjectCrop.Min | object_detection.py:54-55 | `min(xs)` is an element of xs and below every element |
| ObjectCrop.Max | object_detection.py:54-55 | `max(xs)` is an element of xs and above every element |
| ObjectCrop.Xs | object_detection.py:53 | `zip(*key_points)` gives the x coordinates in order |
| ObjectCrop.Ys | object_detection.py:53 | `zip(*key_points)` gives the y coordinates in order |
| ObjectCrop.CropBox | object_detection.py:53-55 | x_min <= x_max and y_min <= y_max; every selected point lies in the box; each bound is attained by a point |
| ObjectCrop.Gray | object_detection.py:45-49 | an image of at most two dimensions is its own grey copy |
| ObjectCrop.CropToPoints | object_detection.py:53-56 | the crop keeps the rows the slice (y_min, y_max) selects and, in each, the columns (x_min, x_max) selects |
| ObjectCrop.ObjectCropOne | object_detection.py:46-56 | the crop fails exactly when the selection fails, always with IndexError, and never has more rows than the image |
| ObjectCrop.CropWithin | object_detection.py:56 | a box inside the image cuts out exactly its (y_max - y_min) by (x_max - x_min) pixels, rows by y |
| ObjectCrop.CutKeepsPoints | object_detection.py:56 | every point of the box off its exclusive right and bottom edges keeps its pixel in the cut |
| ObjectCrop.ObjectCropCells | object_detection.py:46-56 | the crop fails exactly when the selection does; otherwise it is the original image (not the grey copy) cut to the box of the selected points |
| ObjectCrop.GrayOnlyForColour | object_detection.py:46-49 | an image of at most two dimensions reaches the detector unconverted |
| ObjectCrop.SiftCropFailure | object_detection.py:58-67 | with the defaults 0.15 and 0.6, `sift_crop` fails exactly when SIFT finds fewer than two keypoints |
| ObjectCrop.SiftCrop | object_detection.py:58-67 | `sift_crop` fails, with IndexError, exactly when the selection from the SIFT keypoints of the grey image fails; otherwise it has at most the image's rows |
| Cropping.CenterOfBox | cropping_functions.py:8-10 | the intended centre is equidistant from both x bounds and from both y bounds |
| Cropping.ScalarMean | cropping_functions.py:10 | `np.mean(v, axis)` on a scalar fails for every axis, because the count of items indexes the scalar's empty shape |
| Cropping.CenterOfBoxAsWritten | cropping_functions.py:8-10 | `get_center_of_box` as written raises IndexError on every integer box |
| Cropping.CenterOfBoxAsWrittenWrong | cropping_functions.py:8-10 | as written, every integer box raises, the default region (1000, 1200, 650, 800) included, whose intended centre is (1100, 725) |
| Cropping.RectangleShape | cropping_functions.py:12-19 | the window is 400 wide and 200 tall |
| Cropping.RectangleCentre | cropping_functions.py:8-19 | the midpoint of the window around (cx, cy) is (cx, cy) |
| Cropping.RectangleOfCentre | cropping_functions.py:8-19 | a 400-by-200 box is the window around its own midpoint |
| Cropping.RectangleNearCorner | cropping_functions.py:15-19 | bounds are not clamped: centre (50, 50) gives (-150, 250, -50, 150) |
| Cropping.Window | cropping_functions.py:23-26 | the window is 400 by 200 and has the same centre as the box |
| Cropping.CropImage | cropping_functions.py:21-32 | both crops keep the rows the truncated y bounds of the window select, and never exceed the window: at most 200 rows of at most 400 pixels |
| Cropping.CropImageAsWritten | cropping_functions.py:21-23 | as written, every call raises NameError |
| Cropping.CropImageAsWrittenRaises | cropping_functions.py:21-23 | as written, `crop_image` raises NameError on every input where the intended crop succeeds |
| Cropping.CropImageSameWindow | cropping_functions.py:21-32 | frame and mask are cut by the same window, rows by y and columns by x, cell for cell |
| Cropping.CropToWindowInside | cropping_functions.py:26-30 | the window around pixel (x, y) far enough from the edges cuts 200 rows of 400 pixels from (y - 100, x - 200) |
| Cropping.CropImageInside | cropping_functions.py:21-32 | for a box centred at such a pixel, frame and mask crops are both 200 by 400 and read from (y - 100, x - 200) |
| Cropping.CropImageNearTop | cropping_functions.py:29-30 | within 100 rows of the top, the negative y_min counts from the bottom and both crops are empty in a frame at least 200 rows tall |
| Centroid.Weights | cropping_functions.py:46-49 | the weight grid has the mask's shape, each cell weighted by its value, or by 1/0 according to `mask > threshold` |
| Centroid.WeightsOfMask | cropping_functions.py:46-49 | a falsy threshold weights by intensity; any other threshold, negative ones included, gives weights 1 or 0; either way the weights of a non-negative mask are non-negative |
| Centroid.Mass | cropping_functions.py:46-49 | the total weight is never negative for a non-negative mask or with a threshold |
| Centroid.CenterOfCar | cropping_functions.py:45-50 | for a non-negative mask or with a threshold, the row of the centre lies between 0 and rows - 1 |
| Centroid.WeightedRows | cropping_functions.py:47-49 | non-negative weights have a non-negative total, and their row-weighted mean lies between the first and last row index |
| Centroid.CenterInside | cropping_functions.py:45-50 | for a non-negative mask (or any thresholded one) with weight, the centre lies in [0, rows - 1] x [0, cols - 1] |
| Centroid.SameSideSameCenter | cropping_functions.py:46-47 | with a threshold, masks whose cells are pairwise on the same side of it have the same centre |
| Centroid.NegativeThresholdCenter | cropping_functions.py:46-50 | a negative threshold counts every cell of a non-negative mask, so the centre is ((rows - 1) / 2, (cols - 1) / 2), in (row, col) order |

## Left out

- S3 and boto: connecting, looking up or creating the bucket, and writing
  objects are network I/O. The bucket is the sequence of uploads the saver has
  made; the credentials and the bucket name are not modelled.
- The `str(frame.tolist())` serialisation of the stored contents and the `print`
  are output formatting: an upload holds the grid itself.
- OpenCV's `VideoCapture` and the MOG2 background subtractor are library calls.
  - The capture is a flag for `isOpened()` and a sequence of read results, and
    every read past its end fails.
  - The subtractor is a function of the frames fed to it so far.
  - `isOpened()` is taken not to change during the loop.
- `cvtColor`, the SIFT detector and `SIFT_create` are library calls. They become
  function parameters: the detector is a function of the contrast threshold.
- `scipy.spatial.distance.euclidean` and its square root: the distance is an
  abstract function parameter. No lemma needs it to be symmetric or
  non-negative.
- Keypoint coordinates are floats in the code and integers here, because they
  are used directly as slice bounds.
- Floating-point rounding: every computation is exact real or integer
  arithmetic.
- Float slice bounds of the crop window: a float slice bound is truncated toward zero, as numpy
  did with float indices when the code was written. Later numpy versions raise
  on float indices; that is not modelled.
- Centroid.CenterOfCar: a mask without weight is a precondition violation,
  not a NaN result.
  - The NaN truthiness of a threshold is not modelled.
  - Weights are real numbers, not numpy's integer and boolean arrays.
  - scipy's internal order of summation is not modelled.
- The dictionary's iteration order is its insertion
  order. The code ran on Python 2, whose dictionaries iterate in hash order, so
  ties between equal scores can come back in another order there. Because
  `sorted(...)[:n]` cuts at n, when equal scores straddle the cut a different
  tied point can be returned there, not only the same points in another order.
  No lemma depends on the order of ties.
- The second loop of `_key_point_dist` (`AverageDistances`) writes the means into a map of its own. The
  code overwrites the lists in place in the same dictionary; the values end up
  the same.
- The mean of an empty list is 0 here, but is only applied to
  non-empty lists (`RecordedNonEmpty`).
- KeyPointCluster.DenseSubsetSize: assumes a non-negative `int(len * threshold)`.
  A negative one slices from the end and is covered only by `DenseSubset` itself.
- The as-written `get_center_of_box` models `np.mean(v, axis)` on integer bounds
  only. With float bounds numpy raises a TypeError for the axis, which is not
  modelled.
- The `__main__` block and the `aws_keys` module are not part of this model.

## Findings

| source | as written | input that shows it | evidently intended | confidence | as-written member | corrected member |
|---|---|---|---|---|---|---|
| save_video_frames_s3.py:102-117 | `filter_video_save_s3` stores every frame; it never calls `discard_image_decision_rule`, despite its documentation | a 1200-by-800 video whose first mask is all zero: frame 1 is stored although the rule discards it | store only the frames the decision rule keeps | high (not executed) | FramePipeline.UnfilteredStoresIdleFrame | FramePipeline.SaveVideoFramesS3.FilterVideoSaveS3Retained |
| cropping_functions.py:8-10 | `np.mean(x_min, x_max)` passes the maximum as numpy's `axis` argument of a mean over a scalar | shape (1000, 1200, 650, 800), the default region; in fact every integer box: the count of items indexes the scalar's empty shape, which raises IndexError in the numpy of the code's era (AxisError in current numpy) | the midpoint ((x_min + x_max) / 2, (y_min + y_max) / 2) | high (not executed) | Cropping.CenterOfBoxAsWrittenWrong | Cropping.CenterOfBox |
| cropping_functions.py:21-23 | `crop_image` calls `get_center`, which no module defines | any frame, mask and shape: NameError | call `get_center_of_box`, with its midpoint corrected (`CenterOfBox`) | high (not executed) | Cropping.CropImageAsWrittenRaises | Cropping.CropImageInside |
