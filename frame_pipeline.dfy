/**
 * The frame saver: it reads a video frame by frame, computes each frame's
 * foreground mask with a background model, and stores frame and mask under
 * numbered keys.
 *
 * The video capture is a finite sequence of read results (`None` for an
 * unsuccessful read; every read past the end is unsuccessful). The background
 * model is stateful, so the mask of a frame is a function of all frames fed to
 * it so far, the frame itself last. The bucket is the sequence of uploads the
 * saver has made.
 */
module FramePipeline {
  import opened Wrappers
  import opened Grids
  import opened FrameKeys
  import opened Retention

  /** One object written to the bucket: its key and the grid stored under it. */
  datatype Upload<P> =
    | FrameUpload(key: string, frame: seq<seq<P>>)
    | MaskUpload(key: string, mask: seq<seq<int>>)

  /** The frames the capture delivers before its first unsuccessful read. */
  function LeadingFrames<P>(results: seq<Option<seq<seq<P>>>>): (frames: seq<seq<seq<P>>>)
    ensures |frames| <= |results|
    ensures forall k :: 0 <= k < |frames| ==> results[k] == Some(frames[k])
    ensures |frames| == |results| || results[|frames|] == None
  {
    if results == [] || results[0] == None then [] else [results[0].value] + LeadingFrames(results[1..])
  }

  /** The three properties in LeadingFrames' contract pin its result down. */
  lemma {:induction false} LeadingFramesUnique<P>(results: seq<Option<seq<seq<P>>>>, frames: seq<seq<seq<P>>>)
    requires |frames| <= |results|
    requires forall k :: 0 <= k < |frames| ==> results[k] == Some(frames[k])
    requires |frames| == |results| || results[|frames|] == None
    ensures frames == LeadingFrames(results)
  {
    if results != [] && results[0] != None {
      assert frames != [] && frames[0] == results[0].value;
      LeadingFramesUnique(results[1..], frames[1..]);
    }
  }

  /** An unsuccessful read ends the run: no frame at or after it is delivered. */
  lemma NothingAfterFailure<P>(results: seq<Option<seq<seq<P>>>>, j: nat)
    requires j < |results| && results[j] == None
    ensures |LeadingFrames(results)| <= j
  {
  }

  /** The read numbered i (from 0) succeeds exactly while i is below the number of
      leading frames, and then delivers the next of them. */
  lemma ReadAt<P>(results: seq<Option<seq<seq<P>>>>, i: nat)
    requires i <= |LeadingFrames(results)|
    ensures var frames := LeadingFrames(results);
      var read := if i < |results| then results[i] else None;
      && (read.Some? <==> i < |frames|)
      && (read.Some? ==> frames[i] == read.value && frames[..i + 1] == frames[..i] + [read.value])
  {
    var frames := LeadingFrames(results);
    if i < |frames| {
      assert frames[..i + 1] == frames[..i] + [frames[i]];
    }
  }

  /** A test deciding from a frame and its mask whether both are stored. */
  type Keep<!P> = (seq<seq<P>>, seq<seq<int>>) -> bool

  /** The source's loop stores every frame. */
  predicate KeepAll<P>(frame: seq<seq<P>>, mask: seq<seq<int>>)
  {
    true
  }

  /** The loop's documentation promises to store only the frames that the decision
      rule, with its default region, keeps. */
  predicate KeepByRule<P>(frame: seq<seq<P>>, mask: seq<seq<int>>)
  {
    DiscardImageDecisionRule(frame, mask)
  }

  /** The uploads made for frame number k of `frames` (counted from 1), whose mask
      the background model computes from the frames fed up to and including it:
      the frame and its mask, or nothing when `keep` refuses them. */
  function FrameUploads<P>(name: string, frames: seq<seq<seq<P>>>, subtract: seq<seq<seq<P>>> -> seq<seq<int>>,
                           keep: Keep<P>, k: nat): (r: seq<Upload<P>>)
    requires 1 <= k <= |frames|
    ensures r != [] <==> keep(frames[k - 1], subtract(frames[..k]))
    ensures r != [] ==> |r| == 2 && r[0].FrameUpload? && r[0].frame == frames[k - 1] && r[1].MaskUpload?
    ensures r != [] ==> r[1].mask == subtract(frames[..k])
    ensures r != [] ==> r[0].key == "frame/" + FileName(k, name) && r[1].key == "mask/" + FileName(k, name)
  {
    var mask := subtract(frames[..k]);
    if keep(frames[k - 1], mask)
    then [FrameUpload(FrameKey(k, name), frames[k - 1]), MaskUpload(MaskKey(k, name), mask)]
    else []
  }

  /** The uploads made for the first n frames of `frames`, in order, when `keep`
      decides which frames to store. */
  function Uploads<P>(name: string, frames: seq<seq<seq<P>>>, subtract: seq<seq<seq<P>>> -> seq<seq<int>>,
                      keep: Keep<P>, n: nat): (r: seq<Upload<P>>)
    requires n <= |frames|
    ensures |r| <= 2 * n
  {
    if n == 0 then [] else Uploads(name, frames, subtract, keep, n - 1) + FrameUploads(name, frames, subtract, keep, n)
  }

  /** Without filtering every frame is stored. */
  lemma {:induction false} EveryFrameCounted<P>(name: string, frames: seq<seq<seq<P>>>,
                                                subtract: seq<seq<seq<P>>> -> seq<seq<int>>, n: nat)
    requires n <= |frames|
    ensures |Uploads(name, frames, subtract, KeepAll, n)| == 2 * n
  {
    if n > 0 {
      EveryFrameCounted(name, frames, subtract, n - 1);
    }
  }

  /** Without filtering the uploads come in order: the k-th frame (from 0) under
      number k + 1, its mask right behind it under the same number. */
  lemma {:induction false} EveryFrameStored<P>(name: string, frames: seq<seq<seq<P>>>,
                                               subtract: seq<seq<seq<P>>> -> seq<seq<int>>, n: nat, k: nat)
    requires k < n <= |frames|
    ensures |Uploads(name, frames, subtract, KeepAll, n)| == 2 * n
    ensures Uploads(name, frames, subtract, KeepAll, n)[2 * k] == FrameUpload(FrameKey(k + 1, name), frames[k])
    ensures Uploads(name, frames, subtract, KeepAll, n)[2 * k + 1] == MaskUpload(MaskKey(k + 1, name), subtract(frames[..k + 1]))
  {
    var done := Uploads(name, frames, subtract, KeepAll, n - 1);
    var step := FrameUploads(name, frames, subtract, KeepAll, n);
    EveryFrameCounted(name, frames, subtract, n - 1);
    PairAppended(done, step, n - 1, k);
    if k < n - 1 {
      EveryFrameStored(name, frames, subtract, n - 1, k);
    }
  }

  /** Indexing a sequence of m pairs with one more pair appended. */
  lemma PairAppended<T>(done: seq<T>, step: seq<T>, m: nat, k: nat)
    requires |done| == 2 * m && |step| == 2 && k <= m
    ensures |done + step| == 2 * m + 2
    ensures k < m ==> (done + step)[2 * k] == done[2 * k] && (done + step)[2 * k + 1] == done[2 * k + 1]
    ensures k == m ==> (done + step)[2 * k] == step[0] && (done + step)[2 * k + 1] == step[1]
  {
  }

  /** Frame number k is among the first n stored, with contents f, exactly when
      k is at most n, f is that frame, and `keep` accepts it with its mask. */
  lemma {:induction false} FrameStoredIff<P>(name: string, frames: seq<seq<seq<P>>>,
                                             subtract: seq<seq<seq<P>>> -> seq<seq<int>>, keep: Keep<P>,
                                             n: nat, k: nat, f: seq<seq<P>>)
    requires n <= |frames|
    ensures FrameUpload(FrameKey(k, name), f) in Uploads(name, frames, subtract, keep, n) <==>
      && 1 <= k <= n && f == frames[k - 1]
      && keep(frames[k - 1], subtract(frames[..k]))
  {
    if n > 0 {
      var x := FrameUpload(FrameKey(k, name), f);
      var tail := FrameUploads(name, frames, subtract, keep, n);
      assert x in Uploads(name, frames, subtract, keep, n) <==>
        x in Uploads(name, frames, subtract, keep, n - 1) || x in tail;
      FrameStoredIff(name, frames, subtract, keep, n - 1, k, f);
      FrameInStep(name, frames, subtract, keep, n, k, f);
    }
  }

  /** The uploads for frame number n hold frame number k, with contents f, exactly
      when k is n, f is that frame, and `keep` accepts it. */
  lemma FrameInStep<P>(name: string, frames: seq<seq<seq<P>>>, subtract: seq<seq<seq<P>>> -> seq<seq<int>>,
                       keep: Keep<P>, n: nat, k: nat, f: seq<seq<P>>)
    requires 1 <= n <= |frames|
    ensures FrameUpload(FrameKey(k, name), f) in FrameUploads(name, frames, subtract, keep, n) <==>
      k == n && f == frames[n - 1] && keep(frames[n - 1], subtract(frames[..n]))
  {
    if k != n {
      KeysDistinctAcrossFrames(k, n, name);
    }
  }

  /** The mask of frame number k is among the first n stored, with contents m,
      exactly when k is at most n, m is the mask the background model computes
      from the first k frames, and `keep` accepts that frame with it. */
  lemma {:induction false} MaskStoredIff<P>(name: string, frames: seq<seq<seq<P>>>,
                                            subtract: seq<seq<seq<P>>> -> seq<seq<int>>, keep: Keep<P>,
                                            n: nat, k: nat, m: seq<seq<int>>)
    requires n <= |frames|
    ensures MaskUpload(MaskKey(k, name), m) in Uploads(name, frames, subtract, keep, n) <==>
      && 1 <= k <= n && m == subtract(frames[..k])
      && keep(frames[k - 1], subtract(frames[..k]))
  {
    if n > 0 {
      var x := MaskUpload(MaskKey(k, name), m);
      var tail := FrameUploads(name, frames, subtract, keep, n);
      assert x in Uploads(name, frames, subtract, keep, n) <==>
        x in Uploads(name, frames, subtract, keep, n - 1) || x in tail;
      MaskStoredIff(name, frames, subtract, keep, n - 1, k, m);
      MaskInStep(name, frames, subtract, keep, n, k, m);
    }
  }

  /** The uploads for frame number n hold the mask of frame number k, with
      contents m, exactly when k is n, m is its mask, and `keep` accepts the frame. */
  lemma MaskInStep<P>(name: string, frames: seq<seq<seq<P>>>, subtract: seq<seq<seq<P>>> -> seq<seq<int>>,
                      keep: Keep<P>, n: nat, k: nat, m: seq<seq<int>>)
    requires 1 <= n <= |frames|
    ensures MaskUpload(MaskKey(k, name), m) in FrameUploads(name, frames, subtract, keep, n) <==>
      k == n && m == subtract(frames[..n]) && keep(frames[n - 1], subtract(frames[..n]))
  {
    if k != n {
      KeysDistinctAcrossFrames(k, n, name);
    }
  }

  /** The source's loop stores a frame that the decision rule would discard: on a
      1200-by-800 video whose first mask is all zero, frame 1 is stored anyway. */
  lemma UnfilteredStoresIdleFrame<P>(name: string, f: seq<seq<P>>, subtract: seq<seq<seq<P>>> -> seq<seq<int>>)
    requires IsGrid(f, 800, 1200)
    requires subtract([f]) == seq(800, r => seq(1200, c => 0))
    ensures !DiscardImageDecisionRule(f, subtract([f]))
    ensures FrameUpload(FrameKey(1, name), f) in Uploads(name, [f], subtract, KeepAll, 1)
    ensures FrameUpload(FrameKey(1, name), f) !in Uploads(name, [f], subtract, KeepByRule, 1)
  {
    DefaultRegionUniform(f, subtract([f]), 800, 1200, 0);
    FrameStoredIff(name, [f], subtract, KeepAll, 1, 1, f);
    FrameStoredIff(name, [f], subtract, KeepByRule, 1, 1, f);
    assert [f][..1] == [f];
  }

  lemma AppendAssoc<T>(a: seq<T>, b: seq<T>, c: seq<T>)
    ensures (a + b) + c == a + (b + c)
    ensures c == [] ==> a + b == a + (b + c)
  {
  }

  class SaveVideoFramesS3<P> {
    const videoPath: string
    /** The video's file name without extension, the suffix of every key. */
    const videoName: string
    /** What this saver has written to the bucket, oldest first. */
    var uploads: seq<Upload<P>>

    /** Records the path and derives the video name; the bucket connection is not modelled. */
    constructor (videoPath: string)
      ensures this.videoPath == videoPath && videoName == VideoName(videoPath)
      ensures '/' !in videoName && '.' !in videoName
      ensures uploads == []
    {
      this.videoPath := videoPath;
      videoName := VideoName(videoPath);
      uploads := [];
    }

    /** `write_frame_mask_s3`: store frame and mask under number `ithFrame`. */
    method WriteFrameMaskS3(frame: seq<seq<P>>, mask: seq<seq<int>>, ithFrame: nat)
      modifies this
      ensures uploads == old(uploads) + [FrameUpload(FrameKey(ithFrame, videoName), frame),
                                         MaskUpload(MaskKey(ithFrame, videoName), mask)]
    {
      var fileName := FileName(ithFrame, videoName);
      uploads := uploads + [FrameUpload("frame/" + fileName, frame), MaskUpload("mask/" + fileName, mask)];
    }

    /** `filter_video_save_s3` as written: while the capture is open, read a frame,
        count it, and store it with its mask; the first unsuccessful read raises.
        No frame is ever filtered out. This loop has no storing test, as in the
        code; it is kept apart from FilterVideoSaveS3Keeping, whose loop is this one
        with the test added, so that the contract is proved of the loop as written.
        Its uploads are those of FilterVideoSaveS3Keeping with KeepAll. */
    method FilterVideoSaveS3(isOpened: bool, results: seq<Option<seq<seq<P>>>>,
                             subtract: seq<seq<seq<P>>> -> seq<seq<int>>) returns (outcome: Outcome)
      modifies this
      ensures isOpened ==> outcome == Fail(ReadError)
      ensures !isOpened ==> outcome == Pass
      ensures var frames := LeadingFrames(results);
        uploads == old(uploads) + if isOpened then Uploads(videoName, frames, subtract, KeepAll, |frames|) else []
    {
      ghost var frames := LeadingFrames(results);
      ghost var base := uploads;
      var ithFrame: nat := 0;
      var fed: seq<seq<seq<P>>> := [];
      while isOpened
        invariant ithFrame <= |frames| && fed == frames[..ithFrame]
        invariant !isOpened ==> ithFrame == 0
        invariant uploads == base + Uploads(videoName, frames, subtract, KeepAll, ithFrame)
        decreases |results| - ithFrame
      {
        var read := if ithFrame < |results| then results[ithFrame] else None;
        ReadAt(results, ithFrame);
        ithFrame := ithFrame + 1;
        if read.Some? {
          var frame := read.value;
          fed := fed + [frame];
          var mask := subtract(fed);
          ghost var done := Uploads(videoName, frames, subtract, KeepAll, ithFrame - 1);
          ghost var step := FrameUploads(videoName, frames, subtract, KeepAll, ithFrame);
          WriteFrameMaskS3(frame, mask, ithFrame);
          AppendAssoc(base, done, step);
        } else {
          return Fail(ReadError);
        }
      }
      return Pass;
    }

    /** The loop as its documentation describes it, with the storing test `keep`
        as a parameter: a frame and its mask are stored, under the frame's number,
        only when `keep` accepts them. */
    method FilterVideoSaveS3Keeping(isOpened: bool, results: seq<Option<seq<seq<P>>>>,
                                    subtract: seq<seq<seq<P>>> -> seq<seq<int>>, keep: Keep<P>)
      returns (outcome: Outcome)
      modifies this
      ensures isOpened ==> outcome == Fail(ReadError)
      ensures !isOpened ==> outcome == Pass
      ensures var frames := LeadingFrames(results);
        uploads == old(uploads) + if isOpened then Uploads(videoName, frames, subtract, keep, |frames|) else []
    {
      ghost var frames := LeadingFrames(results);
      ghost var base := uploads;
      var ithFrame: nat := 0;
      var fed: seq<seq<seq<P>>> := [];
      while isOpened
        invariant ithFrame <= |frames| && fed == frames[..ithFrame]
        invariant !isOpened ==> ithFrame == 0
        invariant uploads == base + Uploads(videoName, frames, subtract, keep, ithFrame)
        decreases |results| - ithFrame
      {
        var read := if ithFrame < |results| then results[ithFrame] else None;
        ReadAt(results, ithFrame);
        ithFrame := ithFrame + 1;
        if read.Some? {
          var frame := read.value;
          fed := fed + [frame];
          var mask := subtract(fed);
          ghost var done := Uploads(videoName, frames, subtract, keep, ithFrame - 1);
          ghost var step := FrameUploads(videoName, frames, subtract, keep, ithFrame);
          if keep(frame, mask) {
            WriteFrameMaskS3(frame, mask, ithFrame);
          } else {
            assert step == [];
          }
          AppendAssoc(base, done, step);
        } else {
          return Fail(ReadError);
        }
      }
      return Pass;
    }

    /** `filter_video_save_s3` as its documentation describes it: only the frames the
        decision rule keeps are stored, each with its mask under its own number. */
    method FilterVideoSaveS3Retained(isOpened: bool, results: seq<Option<seq<seq<P>>>>,
                                     subtract: seq<seq<seq<P>>> -> seq<seq<int>>) returns (outcome: Outcome)
      modifies this
      ensures isOpened ==> outcome == Fail(ReadError)
      ensures !isOpened ==> outcome == Pass
      ensures var frames := LeadingFrames(results);
        uploads == old(uploads) + if isOpened then Uploads(videoName, frames, subtract, KeepByRule, |frames|) else []
    {
      outcome := FilterVideoSaveS3Keeping(isOpened, results, subtract, KeepByRule);
    }
  }
}
