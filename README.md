# Defake frame sampling and face cropping

A Dafny model of the geometry at the heart of the Defake backend's
`VideoProcessor` (`backend/processor/video_utils.py`). It covers two operations.

- `process_video` samples evenly spaced frames from a video capture and builds
  the classifier batch. It computes `interval = max(1, total_frames // frames_to_extract)`,
  reads frames with a zero-based counter, and processes every frame whose index is a
  multiple of `interval`. It stops once `frames_to_extract` faces are gathered or a
  read fails, and it returns nothing when no face was gathered.
- `_crop_face` picks the face region of one frame. With no detections, it crops the
  centred square of side `min(h, w)`. Otherwise it takes the largest detection,
  using the first one reported when areas tie. It pads that box by `int(w * 0.2)`
  on every side and clamps the result to the frame.

Modules:

- `Wrappers` (`wrappers.dfy`): `Option`, standing for Python's `None`.
- `FaceCrop` (`face_crop.dfy`): rectangles and frames, the stable sort by area
  and the crop. All of it is pure functions and lemmas.
- `VideoSampling` (`video_sampling.dfy`): the capture, the reference definition of
  the sampled batch (`Sampled`, `SampleVideo`), lemmas about it, and the loop
  itself as the method `ProcessVideo`, which is proved equal to `SampleVideo`.

Abstractions:

- A frame is its height, its width and the boxes the Haar detector reports for it,
  in detector order. A crop is the rectangle `(x, y, w, h)` that
  `frame[y:y+h, x:x+w]` selects.
- A capture is the frame count it reports plus the frames that decode. `Read`
  stands for `cap.read()`: the read after the last of them fails.
- Colour conversion, resizing, the `/255` scaling and the transpose form one
  opaque step, `Preprocess`. Its result records the frame and the crop it was made from.

Two facts about the code are worth stating up front:

- The padded crop's width and height are measured from the already clamped
  origin, so a margin lost at the left or top edge reappears at the right or
  bottom edge (`PaddedEdges`).
- There is no sharpness heuristic and no score fusion anywhere in the code:
  `backend/model/detector.py:39-50` uses only the classifier's probability.

## Model

| member | source | states |
|---|---|---|
| `FaceCrop.CropFace` | backend/processor/video_utils.py:56-81 | `_crop_face` always returns a crop. On a well-formed frame the crop is non-empty and lies inside the frame. When there are detections, it covers the largest one |
| `FaceCrop.FallbackIsCentredSquare` | backend/processor/video_utils.py:60-67 | With no detections, the crop is a square as large as the shorter side. It spans that side fully and is centred along the other one: the leftover strips differ by at most one pixel. It lies inside the frame |
| `FaceCrop.InsertByArea` | backend/processor/video_utils.py:71 | Inserting into the sorted list adds exactly the new box (multiset union) |
| `FaceCrop.SortByAreaDesc` | backend/processor/video_utils.py:71 | `sorted(..., key=w*h, reverse=True)` returns a permutation of the detections |
| `FaceCrop.InsertByAreaDescending` | backend/processor/video_utils.py:71 | Inserting a box into a list ordered by decreasing area keeps it ordered |
| `FaceCrop.SortByAreaDescIsSorted` | backend/processor/video_utils.py:71 | The sorted detections are in non-increasing order of area |
| `FaceCrop.FirstLargest` | backend/processor/video_utils.py:71-72 | Reference choice: an index whose box has maximal area, where every earlier box is strictly smaller |
| `FaceCrop.SortHeadIsFirstLargest` | backend/processor/video_utils.py:71-72 | The head of the stable descending sort is the first box of maximal area: the tie goes to the earliest detection |
| `FaceCrop.LargestFace` | backend/processor/video_utils.py:71-72 | `faces[0]` after the sort is a detection of maximal area. Among equal areas it is the one the detector reported first |
| `FaceCrop.PadInFrame` | backend/processor/video_utils.py:74-81 | Padding a box that lies in the frame gives a non-empty rectangle. It starts at or after the origin, ends within the frame and covers the box |
| `FaceCrop.UnclampedMarginFromWidth` | backend/processor/video_utils.py:74-81 | Away from the frame's edges, the crop is the chosen box grown by `w / 5` on all four sides. The vertical margin is derived from the width |
| `FaceCrop.PaddedEdges` | backend/processor/video_utils.py:74-81 | The left and top edges are the box's edges minus the margin, clamped at 0. The right and bottom edges are clamped to the frame. A margin lost on the left or top is added on the right or bottom |
| `VideoSampling.Interval` | backend/processor/video_utils.py:23-24 | `max(1, total // n)` is at least 1. It equals the quotient whenever that is positive, and it is 1 when there are fewer frames than requested |
| `VideoSampling.SampledPrefix` | backend/processor/video_utils.py:29-47 | Reading further only appends faces, so the faces gathered after any number of reads are a prefix of the full sample |
| `VideoSampling.SampledSnoc` | backend/processor/video_utils.py:34-47 | One more read adds the new frame's face exactly when its index is a multiple of the interval |
| `VideoSampling.SampledLength` | backend/processor/video_utils.py:34-47 | The sample holds one face per readable multiple of the interval: the next multiple is past the end and the last one is within it |
| `VideoSampling.SampledAt` | backend/processor/video_utils.py:34-45 | The k-th sampled face comes from the readable frame at index `k * interval` |
| `VideoSampling.NoFrameCountNoBatch` | backend/processor/video_utils.py:19-21 | A reported frame count of zero or less yields `None` |
| `VideoSampling.NoBatchIff` | backend/processor/video_utils.py:19-54 | The result is `None` exactly when the reported count is not positive or the first read fails. Frame 0 is always sampled, and every sampled frame yields a face |
| `VideoSampling.BatchSize` | backend/processor/video_utils.py:29 | A returned batch holds between 1 and `frames_to_extract` entries |
| `VideoSampling.BatchEntry` | backend/processor/video_utils.py:34-47 | Entry k of the batch is the face of readable frame `k * interval`. Entries therefore follow strictly increasing frame indices |
| `VideoSampling.BatchComplete` | backend/processor/video_utils.py:29-47 | No readable multiple of the interval is skipped before the batch is full: for `k < frames_to_extract`, readable frame `k * interval` is entry k |
| `VideoSampling.ProcessVideo` | backend/processor/video_utils.py:13-54 | The read loop returns exactly `SampleVideo`: the first `frames_to_extract` sampled faces, partial when a read fails, or `None` when there are none |

## Left out

- Pixel work is not modelled. The BGR-to-grey and BGR-to-RGB conversions, the resize to 299x299, the `/255` float scaling and the transpose (video_utils.py:38-44, 57) are the opaque `Preprocess`. No round-trip or value-range property of the tensor is stated.
- The Haar cascade (video_utils.py:11, 58) is not modelled. Its boxes are an input carried by the frame, and its parameters 1.3 and 5 play no part.
- Opening and releasing the capture (`cv2.VideoCapture`, `cap.isOpened()`, `cap.release()`) is not modelled. The capture is taken to stay open while reading; an unopenable file reports zero frames and so yields `None`.
- VideoSampling.ProcessVideo does not show that no frame is read when the reported count is not positive. It returns before the loop, but the model does not count reads.
- FaceCrop.Area: the sort key `x[2] * x[3]` (video_utils.py:71) multiplies the detector's int32 values, which wraps around for boxes larger than 46340 pixels on each side; the model's area is unbounded, so it does not capture that wrap-around.
- FaceCrop.Margin models `int(w * 0.2)` as truncating integer division by 5. This matches the float expression for the non-negative integer widths a detector reports.
- `frames_to_extract` is a `nat`, so negative values are not modelled. Zero is excluded only when the reported count is positive, where the source would raise `ZeroDivisionError`.
- FaceCrop.SortByAreaDescIsSorted and FaceCrop.SortHeadIsFirstLargest do not prove full stability. They prove the order and that the head is the first maximal box, which is all the code uses.
- The crop lemmas assume well-formed frames: positive dimensions, with every detection non-empty and inside the frame. Python's clamping of out-of-range slice bounds is therefore not modelled.
- Stacking the batch into one array (`np.array`, video_utils.py:54) is not modelled. The batch is a sequence.
- `backend/main.py` (HTTP routes, uploads, date-seeded tips), `backend/main_fast.py` (random mock results), `backend/model/detector.py` (torch inference, softmax, averaging, threshold) and `backend/model/xception.py` (network construction) are not part of this model. They are I/O, foreign libraries, randomness or float arithmetic.
