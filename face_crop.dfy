/**
 * Face localisation of `VideoProcessor._crop_face`: a centred square when the
 * detector finds nothing, otherwise the largest detection padded by a margin
 * derived from its width and clamped to the frame.
 *
 * Pixels are not modelled. A frame is its dimensions together with the boxes the
 * Haar cascade reports for it, in the detector's order; a crop is the rectangle
 * that the slice `frame[y:y+h, x:x+w]` selects.
 */
module FaceCrop {

  /** An axis-aligned rectangle `(x, y, w, h)`: a detection or a crop. */
  datatype Rect = Rect(x: int, y: int, w: int, h: int)

  /** A decoded frame: its height and width and the detector's boxes for it. */
  datatype Frame = Frame(height: int, width: int, detections: seq<Rect>)

  function Min(a: int, b: int): int { if a <= b then a else b }

  function Max(a: int, b: int): int { if a >= b then a else b }

  function Area(r: Rect): int { r.w * r.h }

  /** `r` is non-empty and lies entirely inside a `height` by `width` frame. */
  predicate InFrame(r: Rect, height: int, width: int) {
    0 <= r.x && 0 <= r.y && 0 < r.w && 0 < r.h &&
    r.x + r.w <= width && r.y + r.h <= height
  }

  /** `outer` covers every pixel of `inner`. */
  predicate Contains(outer: Rect, inner: Rect) {
    outer.x <= inner.x && outer.y <= inner.y &&
    inner.x + inner.w <= outer.x + outer.w && inner.y + inner.h <= outer.y + outer.h
  }

  /** A frame as the capture decodes it, with every detection inside it. */
  predicate WellFormed(f: Frame) {
    f.height > 0 && f.width > 0 &&
    forall i :: 0 <= i < |f.detections| ==> InFrame(f.detections[i], f.height, f.width)
  }

  /** The fallback crop: a square of side `min(h, w)` centred in the frame. */
  function CentreSquare(height: int, width: int): Rect {
    var side := Min(height, width);
    Rect((width - side) / 2, (height - side) / 2, side, side)
  }

  /**
   * `int(w * 0.2)`: a fifth of the width, truncated toward zero. For the
   * non-negative widths the detector reports this is `w / 5`.
   */
  function Margin(w: int): int {
    if w >= 0 then w / 5 else -((-w) / 5)
  }

  /**
   * The box moved up and left by the margin and widened by twice the margin
   * (the width's margin is used vertically too), with the origin clamped to 0
   * and the extent clamped to what is left of the frame after the new origin.
   */
  function Pad(f: Frame, b: Rect): Rect {
    var m := Margin(b.w);
    var x := Max(0, b.x - m);
    var y := Max(0, b.y - m);
    Rect(x, y, Min(f.width - x, b.w + 2 * m), Min(f.height - y, b.h + 2 * m))
  }

  /** Boxes ordered from largest to smallest area. */
  predicate DescendingByArea(s: seq<Rect>) {
    forall i, j :: 0 <= i < j < |s| ==> Area(s[i]) >= Area(s[j])
  }

  /**
   * Places `b` before the first box of `t` whose area does not exceed its own,
   * so that `b` precedes the boxes of equal area that came after it.
   */
  function InsertByArea(b: Rect, t: seq<Rect>): (r: seq<Rect>)
    ensures multiset(r) == multiset(t) + multiset{b}
  {
    if t == [] || Area(t[0]) <= Area(b) then [b] + t
    else
      assert t == [t[0]] + t[1..];
      [t[0]] + InsertByArea(b, t[1..])
  }

  /**
   * `sorted(boxes, key=lambda r: r[2] * r[3], reverse=True)`: a stable sort by
   * decreasing area (Python's sort keeps equal keys in input order, also when
   * reversed). Any stable sort gives the same list; insertion sort is used here.
   */
  function SortByAreaDesc(s: seq<Rect>): (r: seq<Rect>)
    ensures multiset(r) == multiset(s)
  {
    if s == [] then []
    else
      assert s == [s[0]] + s[1..];
      InsertByArea(s[0], SortByAreaDesc(s[1..]))
  }

  lemma {:induction false} InsertByAreaDescending(b: Rect, t: seq<Rect>)
    requires DescendingByArea(t)
    ensures DescendingByArea(InsertByArea(b, t))
  {
    if t == [] || Area(t[0]) <= Area(b) {
    } else {
      var rest := InsertByArea(b, t[1..]);
      InsertByAreaDescending(b, t[1..]);
      forall k | 0 <= k < |rest| ensures Area(t[0]) >= Area(rest[k]) {
        assert rest[k] in multiset(rest);
        assert rest[k] == b || rest[k] in multiset(t[1..]);
        if rest[k] != b {
          assert rest[k] in t[1..];
        }
      }
    }
  }

  /** The sort really orders the boxes by decreasing area. */
  lemma {:induction false} SortByAreaDescIsSorted(s: seq<Rect>)
    ensures DescendingByArea(SortByAreaDesc(s))
  {
    if s != [] {
      SortByAreaDescIsSorted(s[1..]);
      InsertByAreaDescending(s[0], SortByAreaDesc(s[1..]));
    }
  }

  /**
   * Reference definition of the detection the source keeps: the position of the
   * first box whose area no other box exceeds.
   */
  function FirstLargest(s: seq<Rect>): (k: nat)
    requires s != []
    ensures k < |s|
    ensures forall j :: 0 <= j < |s| ==> Area(s[j]) <= Area(s[k])
    ensures forall j :: 0 <= j < k ==> Area(s[j]) < Area(s[k])
  {
    if |s| == 1 then 0
    else
      var k := FirstLargest(s[1..]);
      if Area(s[0]) >= Area(s[1 + k]) then 0 else 1 + k
  }

  /** The head of the stable descending sort is the first box of maximal area. */
  lemma {:induction false} SortHeadIsFirstLargest(s: seq<Rect>)
    requires s != []
    ensures SortByAreaDesc(s)[0] == s[FirstLargest(s)]
  {
    if |s| > 1 {
      SortHeadIsFirstLargest(s[1..]);
    }
  }

  /**
   * `faces = sorted(...); faces[0]`: a box of maximal area, and among boxes of
   * that area the one the detector reported first.
   */
  function LargestFace(detections: seq<Rect>): (b: Rect)
    requires detections != []
    ensures b == detections[FirstLargest(detections)]
    ensures forall j :: 0 <= j < |detections| ==> Area(detections[j]) <= Area(b)
  {
    SortHeadIsFirstLargest(detections);
    SortByAreaDesc(detections)[0]
  }

  /** A padded box that started inside the frame stays inside it and still covers the box. */
  lemma PadInFrame(f: Frame, b: Rect)
    requires f.height > 0 && f.width > 0 && InFrame(b, f.height, f.width)
    ensures InFrame(Pad(f, b), f.height, f.width)
    ensures Contains(Pad(f, b), b)
  {
  }

  /**
   * `_crop_face`: never fails; on a well-formed frame the crop is a non-empty
   * rectangle inside the frame, and when there are detections it covers the
   * largest one.
   */
  function CropFace(f: Frame): (r: Rect)
    ensures WellFormed(f) ==> InFrame(r, f.height, f.width)
    ensures WellFormed(f) && f.detections != [] ==> Contains(r, LargestFace(f.detections))
  {
    if |f.detections| == 0 then CentreSquare(f.height, f.width)
    else
      var b := LargestFace(f.detections);
      assert WellFormed(f) ==> InFrame(f.detections[FirstLargest(f.detections)], f.height, f.width);
      Pad(f, b)
  }

  /**
   * With no detections the crop is a square as large as the frame's shorter side
   * allows, spanning that side fully and centred along the other one (the two
   * leftover strips differ by at most one pixel, the extra one on the right or bottom).
   */
  lemma FallbackIsCentredSquare(f: Frame)
    requires f.height > 0 && f.width > 0 && f.detections == []
    ensures var r := CropFace(f);
      r.w == r.h && r.w <= f.width && r.w <= f.height &&
      (r.w == f.width || r.h == f.height) &&
      r.x <= f.width - (r.x + r.w) <= r.x + 1 &&
      r.y <= f.height - (r.y + r.h) <= r.y + 1 &&
      InFrame(r, f.height, f.width)
  {
  }

  /**
   * Away from the frame's edges the crop is the chosen box grown by a fifth of
   * its WIDTH on all four sides: the vertical margin does not depend on its height.
   */
  lemma UnclampedMarginFromWidth(f: Frame)
    requires WellFormed(f) && f.detections != []
    ensures var b := LargestFace(f.detections); var m := b.w / 5;
      b.x >= m && b.y >= m && b.x + b.w + m <= f.width && b.y + b.h + m <= f.height ==>
        CropFace(f) == Rect(b.x - m, b.y - m, b.w + 2 * m, b.h + 2 * m)
  {
  }

  /**
   * Each edge of the crop against the chosen box. The left and top edges are the
   * box's edges moved out by the margin and clamped at 0; the right and bottom
   * edges are clamped to the frame, but a margin lost at the left (top) edge is
   * added at the right (bottom), because the extent is measured from the clamped origin.
   */
  lemma PaddedEdges(f: Frame)
    requires WellFormed(f) && f.detections != []
    ensures var b := LargestFace(f.detections); var m := b.w / 5; var r := CropFace(f);
      r.x == Max(0, b.x - m) && r.y == Max(0, b.y - m) &&
      r.x + r.w == Min(f.width, b.x + b.w + m + Max(0, m - b.x)) &&
      r.y + r.h == Min(f.height, b.y + b.h + m + Max(0, m - b.y))
  {
  }
}
