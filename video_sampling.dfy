/**
 * Frame sampling of `VideoProcessor.process_video`: read the capture frame by
 * frame, crop and preprocess every `interval`-th frame, stop after
 * `frames_to_extract` faces or at the first failed read, and return nothing
 * when no face was gathered.
 *
 * The capture is modelled by the frame count it reports and the frames that
 * read successfully; the read after the last of them fails.
 */
module VideoSampling {
  import opened Wrappers
  import opened FaceCrop

  /**
   * One entry of the returned batch: the crop `crop` of `frame` after colour
   * conversion to RGB, resizing to the 299 by 299 `target_size`, scaling by 1/255 and
   * transposition to channel-first layout. The pixel transforms themselves are
   * not modelled; the entry records what it was made from.
   */
  datatype NormalizedFace = NormalizedFace(frame: Frame, crop: Rect)

  /** A video capture: the reported `CAP_PROP_FRAME_COUNT` and the readable frames. */
  datatype Video = Video(reportedFrames: int, frames: seq<Frame>)

  /** `cap.read()` as the `count`-th read: the frame, or nothing once decoding fails. */
  function Read(v: Video, count: nat): (r: Option<Frame>)
    ensures r.Some? <==> count < |v.frames|
    ensures r.Some? ==> r.value == v.frames[count]
  {
    if count < |v.frames| then Some(v.frames[count]) else None
  }

  function Preprocess(f: Frame, crop: Rect): NormalizedFace {
    NormalizedFace(f, crop)
  }

  /** The batch entry a sampled frame contributes. */
  function FaceOf(f: Frame): NormalizedFace {
    Preprocess(f, CropFace(f))
  }

  /**
   * `max(1, total_frames // frames_to_extract)`: at least 1, and the quotient
   * itself whenever that is positive.
   */
  function Interval(total: int, n: nat): (iv: int)
    requires total > 0 && n >= 1
    ensures iv >= 1
    ensures total / n >= 1 ==> iv == total / n
    ensures total < n ==> iv == 1
  {
    Max(1, total / n)
  }

  /**
   * Reference definition of what the loop gathers: the face of every frame of
   * `fs` whose zero-based index is a multiple of `iv`, in frame order.
   */
  function Sampled(fs: seq<Frame>, iv: int): seq<NormalizedFace>
    requires iv >= 1
  {
    if fs == [] then []
    else
      Sampled(fs[..|fs| - 1], iv) +
      (if (|fs| - 1) % iv == 0 then [FaceOf(fs[|fs| - 1])] else [])
  }

  /**
   * What `process_video` returns for a capture: nothing when the reported frame
   * count is not positive; otherwise the first `n` sampled faces, or nothing if
   * there are none.
   */
  function SampleVideo(n: nat, v: Video): Option<seq<NormalizedFace>>
    requires v.reportedFrames > 0 ==> n >= 1
  {
    if v.reportedFrames <= 0 then None
    else
      var all := Sampled(v.frames, Interval(v.reportedFrames, n));
      var batch := all[..Min(n, |all|)];
      if |batch| == 0 then None else Some(batch)
  }

  /** Sampling more frames only appends faces. */
  lemma {:induction false} SampledPrefix(fs: seq<Frame>, c: nat, iv: int)
    requires iv >= 1 && c <= |fs|
    ensures Sampled(fs[..c], iv) <= Sampled(fs, iv)
    decreases |fs|
  {
    if c < |fs| {
      var p := fs[..|fs| - 1];
      assert p[..c] == fs[..c];
      SampledPrefix(p, c, iv);
    } else {
      assert fs[..c] == fs;
    }
  }

  lemma MulLe(a: int, b: int, iv: int)
    requires iv >= 0 && a <= b
    ensures a * iv <= b * iv
  {
  }

  /** Euclidean division determines quotient and remainder uniquely. */
  lemma DivModUnique(a: int, iv: int, q: int, r: int)
    requires iv >= 1 && 0 <= r < iv && a == q * iv + r
    ensures a / iv == q && a % iv == r
  {
    var q0, r0 := a / iv, a % iv;
    assert a == q0 * iv + r0 && 0 <= r0 < iv;
    if q0 < q {
      MulLe(q0 + 1, q, iv);
    } else if q < q0 {
      MulLe(q + 1, q0, iv);
    }
  }

  /** One more read extends the reference definition by at most the new frame's face. */
  lemma SampledSnoc(fs: seq<Frame>, c: nat, iv: int)
    requires iv >= 1 && c < |fs|
    ensures Sampled(fs[..c + 1], iv) ==
      Sampled(fs[..c], iv) + (if c % iv == 0 then [FaceOf(fs[c])] else [])
  {
    assert fs[..c + 1][..c] == fs[..c];
  }

  /**
   * Arithmetic of one more read: if `c` multiples of `iv` lie below `a`, then
   * `a` is the c-th multiple when `iv` divides it, and otherwise the c-th
   * multiple lies beyond `a`.
   */
  lemma MultiplesStep(a: int, iv: int, c: nat)
    requires iv >= 1 && a >= 0
    requires c * iv >= a && (c == 0 || (c - 1) * iv < a)
    ensures a % iv == 0 ==> c * iv == a && (c + 1) * iv >= a + 1
    ensures a % iv != 0 ==> c * iv >= a + 1
  {
    var q, rem := a / iv, a % iv;
    assert a == q * iv + rem;
    if rem == 0 {
      if c < q {
        MulLe(c, q - 1, iv);
      } else if c > q {
        MulLe(q, c - 1, iv);
      }
      assert (c + 1) * iv == c * iv + iv;
    } else if c * iv == a {
      DivModUnique(a, iv, c, 0);
    }
  }

  /**
   * Length of the reference definition: it holds one face per readable multiple
   * of `iv`, since the multiple after its last one is past the end.
   */
  lemma {:induction false} SampledLength(fs: seq<Frame>, iv: int)
    requires iv >= 1
    ensures |Sampled(fs, iv)| * iv >= |fs|
    ensures |Sampled(fs, iv)| == 0 || (|Sampled(fs, iv)| - 1) * iv < |fs|
  {
    if fs != [] {
      var m := |fs|;
      var p := fs[..m - 1];
      SampledLength(p, iv);
      MultiplesStep(m - 1, iv, |Sampled(p, iv)|);
    }
  }

  /** The k-th face of the reference definition comes from frame `k * iv`. */
  lemma {:induction false} SampledAt(fs: seq<Frame>, iv: int, k: nat)
    requires iv >= 1 && k < |Sampled(fs, iv)|
    ensures k * iv < |fs| && Sampled(fs, iv)[k] == FaceOf(fs[k * iv])
  {
    var m := |fs|;
    var p := fs[..m - 1];
    var sp := Sampled(p, iv);
    if k < |sp| {
      SampledAt(p, iv, k);
      assert Sampled(fs, iv)[k] == sp[k];
    } else {
      SampledLength(p, iv);
      MultiplesStep(m - 1, iv, |sp|);
    }
  }

  /** A reported frame count that is not positive yields nothing. */
  lemma NoFrameCountNoBatch(n: nat, v: Video)
    requires v.reportedFrames <= 0
    ensures SampleVideo(n, v) == None
  {
  }

  /**
   * The batch is absent exactly when the capture reports no frames or its first
   * read fails; frame 0 is always sampled, so any readable frame yields an entry.
   */
  lemma {:induction false} NoBatchIff(n: nat, v: Video)
    requires v.reportedFrames > 0 ==> n >= 1
    ensures SampleVideo(n, v) == None <==> v.reportedFrames <= 0 || v.frames == []
  {
    if v.reportedFrames > 0 {
      SampledLength(v.frames, Interval(v.reportedFrames, n));
    }
  }

  /** A returned batch holds between one and `n` faces. */
  lemma {:induction false} BatchSize(n: nat, v: Video)
    requires v.reportedFrames > 0 ==> n >= 1
    ensures SampleVideo(n, v).Some? ==> 1 <= |SampleVideo(n, v).value| <= n
  {
  }

  /**
   * The k-th entry of the batch is the face of frame `k * interval`, which was
   * readable; entries therefore follow strictly increasing frame indices.
   */
  lemma {:induction false} BatchEntry(n: nat, v: Video, k: nat)
    requires v.reportedFrames > 0 && n >= 1
    requires SampleVideo(n, v).Some? && k < |SampleVideo(n, v).value|
    ensures var iv := Interval(v.reportedFrames, n);
      k * iv < |v.frames| && SampleVideo(n, v).value[k] == FaceOf(v.frames[k * iv])
  {
    SampledAt(v.frames, Interval(v.reportedFrames, n), k);
  }

  /**
   * No readable sampled frame is skipped before the batch is full: the face of
   * frame `k * interval` is the k-th entry whenever that frame was readable and
   * `k < n`.
   */
  lemma {:induction false} BatchComplete(n: nat, v: Video, k: nat)
    requires v.reportedFrames > 0 && n >= 1
    requires k < n && k * Interval(v.reportedFrames, n) < |v.frames|
    ensures SampleVideo(n, v).Some? && k < |SampleVideo(n, v).value|
    ensures SampleVideo(n, v).value[k] == FaceOf(v.frames[k * Interval(v.reportedFrames, n)])
  {
    var iv := Interval(v.reportedFrames, n);
    var all := Sampled(v.frames, iv);
    SampledLength(v.frames, iv);
    assert k < |all| by {
      if k >= |all| {
        MulLe(|all|, k, iv);
      }
    }
    SampledAt(v.frames, iv, k);
  }

  /**
   * `process_video`: the loop over reads, with `count` the zero-based index of
   * the frame just read and `processed` the faces gathered so far.
   */
  method ProcessVideo(n: nat, v: Video) returns (r: Option<seq<NormalizedFace>>)
    requires v.reportedFrames > 0 ==> n >= 1
    ensures r == SampleVideo(n, v)
  {
    if v.reportedFrames <= 0 {
      return None;
    }
    var interval := Interval(v.reportedFrames, n);
    var processed: seq<NormalizedFace> := [];
    var count: nat := 0;
    while |processed| < n
      invariant count <= |v.frames|
      invariant processed == Sampled(v.frames[..count], interval)
      invariant |processed| <= n
      decreases |v.frames| - count
    {
      var ret := Read(v, count);
      if ret.None? {
        break;
      }
      var frame := ret.value;
      if count % interval == 0 {
        var face := CropFace(frame);
        processed := processed + [Preprocess(frame, face)];
      }
      SampledSnoc(v.frames, count, interval);
      count := count + 1;
    }
    ghost var all := Sampled(v.frames, interval);
    SampledPrefix(v.frames, count, interval);
    if |processed| < n {
      assert v.frames[..count] == v.frames;
      assert processed == all[..|all|];
    } else {
      assert processed == all[..n];
    }
    if |processed| == 0 {
      return None;
    }
    r := Some(processed);
  }
}
