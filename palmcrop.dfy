/**
 * The integer arithmetic of `extract_palm_region`: the weighted centre of five
 * hand landmarks, their pixel bounding box, the crop size and the crop window
 * clamped to the image. Hand detection is a library call: its output (one
 * landmark list per detected hand, coordinates normalised to the image) is an
 * input here, as is the image size (None when the image could not be read).
 */
module PalmCrop {
  import opened Outcomes
  import opened Geometry

  /** A detected landmark, normalised to the image width and height. */
  datatype Landmark = Landmark(x: real, y: real)

  /** The hand model's landmark indices used here. */
  const Wrist: nat := 0
  const ThumbMcp: nat := 2
  const IndexFingerMcp: nat := 5
  const MiddleFingerMcp: nat := 9
  const PinkyMcp: nat := 17
  const HandLandmarkCount: nat := 21

  /** `LANDMARKS_OF_INTEREST`: every one has weight 1. */
  const LandmarksOfInterest: seq<nat> := [Wrist, ThumbMcp, IndexFingerMcp, MiddleFingerMcp, PinkyMcp]
  const LandmarkWeight: real := 1.0

  /** `crop_scale`. */
  const CropScale: real := 0.75

  datatype ImageSize = ImageSize(h: nat, w: nat)

  datatype PalmError = ImageUnreadable | NoHandDetected

  /** `image[y_start:y_end, x_start:x_end]`, before resizing. */
  datatype CropWindow = CropWindow(xStart: int, yStart: int, xEnd: int, yEnd: int, cropSize: int)

  /** Python's `int()` on a float: truncation toward zero. */
  function Trunc(r: real): (n: int)
    ensures 0.0 <= r ==> n as real <= r < n as real + 1.0
    ensures r < 0.0 ==> n as real - 1.0 < r <= n as real
  {
    if r >= 0.0 then r.Floor else -((-r).Floor)
  }

  lemma TruncMono(a: real, b: real)
    requires a <= b
    ensures Trunc(a) <= Trunc(b)
  {
  }

  predicate IsHand(hand: seq<Landmark>)
  {
    |hand| == HandLandmarkCount
  }

  /** The pixel coordinates (landmark coordinate times image extent) of the landmarks of interest. */
  function Pixels(hand: seq<Landmark>, extent: nat, horizontal: bool): (r: seq<real>)
    requires IsHand(hand)
    ensures |r| == |LandmarksOfInterest|
  {
    seq(|LandmarksOfInterest|, k requires 0 <= k < |LandmarksOfInterest| =>
      var l := hand[LandmarksOfInterest[k]];
      (if horizontal then l.x else l.y) * extent as real)
  }

  /** `sum(p * weight for ...)` */
  function WeightedSum(ps: seq<real>): real
  {
    if ps == [] then 0.0 else WeightedSum(ps[..|ps| - 1]) + ps[|ps| - 1] * LandmarkWeight
  }

  /** `sum(weight for ...)` */
  function TotalWeight(n: nat): real
  {
    n as real * LandmarkWeight
  }

  /** `int(sum(p * weight) / sum(weight))`: the truncated weighted mean. */
  function Center(ps: seq<real>): int
    requires ps != []
  {
    Trunc(WeightedSum(ps) / TotalWeight(|ps|))
  }

  /** `min(int(p) for ...)` */
  function MinTrunc(ps: seq<real>): (r: int)
    requires ps != []
    ensures forall i :: 0 <= i < |ps| ==> r <= Trunc(ps[i])
    ensures exists i :: 0 <= i < |ps| && r == Trunc(ps[i])
  {
    if |ps| == 1 then Trunc(ps[0]) else Min(MinTrunc(ps[..|ps| - 1]), Trunc(ps[|ps| - 1]))
  }

  /** `max(int(p) for ...)` */
  function MaxTrunc(ps: seq<real>): (r: int)
    requires ps != []
    ensures forall i :: 0 <= i < |ps| ==> Trunc(ps[i]) <= r
    ensures exists i :: 0 <= i < |ps| && r == Trunc(ps[i])
  {
    if |ps| == 1 then Trunc(ps[0]) else Max(MaxTrunc(ps[..|ps| - 1]), Trunc(ps[|ps| - 1]))
  }

  /** The truncated extremes are the truncated real extremes (truncation is monotone). */
  lemma {:induction false} TruncExtremes(ps: seq<real>)
    requires ps != []
    ensures MinTrunc(ps) == Trunc(MinReal(ps))
    ensures MaxTrunc(ps) == Trunc(MaxReal(ps))
  {
    if |ps| > 1 {
      TruncExtremes(ps[..|ps| - 1]);
      var m, M := MinReal(ps[..|ps| - 1]), MaxReal(ps[..|ps| - 1]);
      var last := ps[|ps| - 1];
      if m <= last { TruncMono(m, last); } else { TruncMono(last, m); }
      if M >= last { TruncMono(last, M); } else { TruncMono(M, last); }
    }
  }

  lemma SignOfProduct(n: real, d: real)
    requires n > 0.0
    ensures n * d >= 0.0 ==> d >= 0.0
  {
    if d < 0.0 {
      assert n * d < 0.0;
    }
  }

  /** A mean lies between the bounds whose `n` copies bound the sum. */
  lemma MeanBetween(sum: real, n: nat, lo: real, hi: real)
    requires n > 0 && Repeat(lo, n) <= sum <= Repeat(hi, n)
    ensures lo <= sum / TotalWeight(n) <= hi
  {
    RepeatIsProduct(lo, n);
    RepeatIsProduct(hi, n);
    var w := n as real;
    assert TotalWeight(n) == w;
    var m := sum / w;
    assert w * m == sum;
    assert w * (m - lo) == sum - w * lo;
    assert w * (hi - m) == w * hi - sum;
    SignOfProduct(w, m - lo);
    SignOfProduct(w, hi - m);
  }

  /** `x` added `n` times. */
  function Repeat(x: real, n: nat): real
  {
    if n == 0 then 0.0 else Repeat(x, n - 1) + x
  }

  lemma {:induction false} RepeatMono(a: real, b: real, n: nat)
    requires a <= b
    ensures Repeat(a, n) <= Repeat(b, n)
  {
    if n > 0 {
      RepeatMono(a, b, n - 1);
    }
  }

  lemma {:induction false} RepeatIsProduct(x: real, n: nat)
    ensures Repeat(x, n) == n as real * x
  {
    if n > 0 {
      RepeatIsProduct(x, n - 1);
      assert n as real * x == (n - 1) as real * x + x;
    }
  }

  /** A weighted sum with unit weights lies between `n` copies of the minimum and of the maximum. */
  lemma {:induction false} WeightedSumBounds(ps: seq<real>, lo: real, hi: real)
    requires forall i :: 0 <= i < |ps| ==> lo <= ps[i] <= hi
    ensures Repeat(lo, |ps|) <= WeightedSum(ps) <= Repeat(hi, |ps|)
  {
    if ps != [] {
      var front := ps[..|ps| - 1];
      assert forall i :: 0 <= i < |front| ==> front[i] == ps[i];
      WeightedSumBounds(front, lo, hi);
    }
  }

  /** The centre lies within the bounding box: `x_min <= center_x <= x_max`. */
  lemma CenterInBox(ps: seq<real>)
    requires ps != []
    ensures MinTrunc(ps) <= Center(ps) <= MaxTrunc(ps)
  {
    var lo, hi := MinReal(ps), MaxReal(ps);
    WeightedSumBounds(ps, lo, hi);
    MeanBetween(WeightedSum(ps), |ps|, lo, hi);
    TruncExtremes(ps);
    var mean := WeightedSum(ps) / TotalWeight(|ps|);
    TruncMono(lo, mean);
    TruncMono(mean, hi);
  }

  /** `int(crop_scale * min(width, height))` for the box's (non-negative) sides. */
  function CropSize(width: int, height: int): (r: int)
    requires width >= 0 && height >= 0
    ensures 0 <= r <= Min(width, height)
    ensures r == (3 * Min(width, height)) / 4
  {
    Trunc(CropScale * Min(width, height) as real)
  }

  /** The crop window around the centre, clamped to the image. */
  function Window(cx: int, cy: int, crop: int, img: ImageSize): (r: CropWindow)
    ensures 0 <= r.xStart && 0 <= r.yStart && r.xEnd <= img.w && r.yEnd <= img.h && r.cropSize == crop
  {
    CropWindow(Max(0, cx - FloorDiv(crop, 2)), Max(0, cy - FloorDiv(crop, 2)),
               Min(img.w, cx + FloorDiv(crop, 2)), Min(img.h, cy + FloorDiv(crop, 2)), crop)
  }

  /** The window computed from one hand's landmarks. */
  function HandWindow(hand: seq<Landmark>, img: ImageSize): CropWindow
    requires IsHand(hand)
  {
    var xs, ys := Pixels(hand, img.w, true), Pixels(hand, img.h, false);
    var xMin, xMax, yMin, yMax := MinTrunc(xs), MaxTrunc(xs), MinTrunc(ys), MaxTrunc(ys);
    TruncExtremes(xs);
    TruncExtremes(ys);
    TruncMono(MinReal(xs), MaxReal(xs));
    TruncMono(MinReal(ys), MaxReal(ys));
    Window(Center(xs), Center(ys), CropSize(xMax - xMin, yMax - yMin), img)
  }

  /**
   * The crop window of `extract_palm_region`: an unreadable image fails
   * first, then an empty detection; with several hands the last one wins.
   */
  function PalmWindow(image: Option<ImageSize>, hands: seq<seq<Landmark>>): (r: Result<CropWindow, PalmError>)
    requires forall k :: 0 <= k < |hands| ==> IsHand(hands[k])
    ensures image.None? <==> r == Err(ImageUnreadable)
    ensures image.Some? && hands == [] <==> r == Err(NoHandDetected)
  {
    if image.None? then Err(ImageUnreadable)
    else if hands == [] then Err(NoHandDetected)
    else Ok(HandWindow(hands[|hands| - 1], image.value))
  }

  /**
   * The window is clamped to the image and the crop size is at least 0 and
   * at most three quarters of the shorter side of the bounding box.
   */
  lemma WindowClamped(image: Option<ImageSize>, hands: seq<seq<Landmark>>)
    requires forall k :: 0 <= k < |hands| ==> IsHand(hands[k])
    ensures var r := PalmWindow(image, hands);
      r.Ok? ==> 0 <= r.value.xStart && r.value.xEnd <= image.value.w &&
                0 <= r.value.yStart && r.value.yEnd <= image.value.h && 0 <= r.value.cropSize
  {
  }

  /** Away from the image border the window is a square of side `2 * (crop_size // 2)`. */
  lemma WindowSquareInside(cx: int, cy: int, crop: int, img: ImageSize)
    requires crop >= 0
    requires 0 <= cx - crop / 2 && cx + crop / 2 <= img.w
    requires 0 <= cy - crop / 2 && cy + crop / 2 <= img.h
    ensures var win := Window(cx, cy, crop, img);
      win.xEnd - win.xStart == 2 * (crop / 2) == win.yEnd - win.yStart
  {
  }

  /** Only the last detected hand matters. */
  lemma LastHandWins(image: Option<ImageSize>, hands: seq<seq<Landmark>>)
    requires forall k :: 0 <= k < |hands| ==> IsHand(hands[k])
    requires hands != []
    ensures PalmWindow(image, hands) == PalmWindow(image, [hands[|hands| - 1]])
  {
  }

  /** The centre of the window is within the landmarks' bounding box on both axes. */
  lemma HandCenterInBox(hand: seq<Landmark>, img: ImageSize)
    requires IsHand(hand)
    ensures var xs, ys := Pixels(hand, img.w, true), Pixels(hand, img.h, false);
      MinTrunc(xs) <= Center(xs) <= MaxTrunc(xs) && MinTrunc(ys) <= Center(ys) <= MaxTrunc(ys)
  {
    CenterInBox(Pixels(hand, img.w, true));
    CenterInBox(Pixels(hand, img.h, false));
  }
}
