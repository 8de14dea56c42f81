/**
 * The square selection of `process_palm_image`: twenty random squares of a
 * quarter of the shorter image side are scored, and the first one with the
 * highest score above zero is kept. The random draws and the interest metric
 * (variance of the Laplacian of the square) are inputs here.
 */
module SquarePick {
  import opened Outcomes

  /** `range(20)`. */
  const Samples: nat := 20

  /** The grey image, by size; None when it could not be read. */
  datatype GrayImage = GrayImage(h: nat, w: nat)

  /** `(x, y, square_size)`: the top-left corner and the side. */
  datatype Square = Square(x: int, y: int, size: nat)

  datatype PickError = ImageUnreadable | NoInterestingSquare

  /** `min(h, w) // 4`. */
  function SquareSize(img: GrayImage): (r: nat)
    ensures 4 * r <= img.h && 4 * r <= img.w
  {
    (if img.h <= img.w then img.h else img.w) / 4
  }

  predicate Inside(sq: Square, img: GrayImage)
  {
    0 <= sq.x && sq.x + sq.size <= img.w && 0 <= sq.y && sq.y + sq.size <= img.h
  }

  /** `random.randint(0, w - size)` and `random.randint(0, h - size)`, twenty times. */
  predicate ValidDraws(draws: seq<(int, int)>, img: GrayImage)
  {
    |draws| == Samples &&
    forall k :: 0 <= k < |draws| ==>
      0 <= draws[k].0 <= img.w - SquareSize(img) && 0 <= draws[k].1 <= img.h - SquareSize(img)
  }

  function Candidate(draws: seq<(int, int)>, k: nat, size: nat): Square
    requires k < |draws|
  {
    Square(draws[k].0, draws[k].1, size)
  }

  /** `s` is one of the first `n` candidates and every candidate before it scores lower. */
  predicate FirstOfItsScore(draws: seq<(int, int)>, size: nat, metric: Square -> real, n: nat, s: Square)
    requires n <= |draws|
  {
    exists i :: 0 <= i < n && s == Candidate(draws, i, size) &&
      forall j :: 0 <= j < i ==> metric(Candidate(draws, j, size)) < metric(s)
  }

  /** `max_metric` and `best_square` after the first `n` candidates. */
  datatype Choice = Choice(best: Option<Square>, maxMetric: real)

  function Pick(draws: seq<(int, int)>, size: nat, metric: Square -> real, n: nat): Choice
    requires n <= |draws|
  {
    if n == 0 then Choice(None, 0.0)
    else
      var before := Pick(draws, size, metric, n - 1);
      var sq := Candidate(draws, n - 1, size);
      if metric(sq) > before.maxMetric then Choice(Some(sq), metric(sq)) else before
  }

  /** The outcome of the selection. */
  function PalmSquare(image: Option<GrayImage>, draws: seq<(int, int)>, metric: Square -> real): Result<Square, PickError>
    requires image.Some? ==> ValidDraws(draws, image.value)
  {
    if image.None? then Err(ImageUnreadable)
    else
      var choice := Pick(draws, SquareSize(image.value), metric, Samples);
      if choice.best.None? then Err(NoInterestingSquare) else Ok(choice.best.value)
  }

  /**
   * After `n` candidates the kept metric is the largest of zero and the
   * metrics seen; a square is kept exactly when one metric exceeded zero, and
   * it is the first candidate reaching the largest metric.
   */
  lemma {:induction false} PickSpec(draws: seq<(int, int)>, size: nat, metric: Square -> real, n: nat)
    requires n <= |draws|
    ensures var c := Pick(draws, size, metric, n);
      c.maxMetric >= 0.0 &&
      (forall j :: 0 <= j < n ==> metric(Candidate(draws, j, size)) <= c.maxMetric) &&
      (c.best.None? <==> c.maxMetric == 0.0) &&
      (c.best.Some? ==> metric(c.best.value) == c.maxMetric && FirstOfItsScore(draws, size, metric, n, c.best.value))
  {
    if n > 0 {
      PickSpec(draws, size, metric, n - 1);
      var before := Pick(draws, size, metric, n - 1);
      var sq := Candidate(draws, n - 1, size);
      if metric(sq) > before.maxMetric {
        assert forall j :: 0 <= j < n - 1 ==> metric(Candidate(draws, j, size)) < metric(sq);
        assert sq == Candidate(draws, n - 1, size);
      } else if before.best.Some? {
        var i :| 0 <= i < n - 1 && before.best.value == Candidate(draws, i, size) &&
          forall j :: 0 <= j < i ==> metric(Candidate(draws, j, size)) < metric(before.best.value);
        assert 0 <= i < n;
      }
    }
  }

  /**
   * The chosen square lies inside the image, has side `min(h, w) // 4`, scores
   * above zero and at least as high as every one of the twenty candidates,
   * and no earlier candidate scores as high; the selection fails exactly when
   * no candidate scores above zero.
   */
  lemma PalmSquareSpec(image: Option<GrayImage>, draws: seq<(int, int)>, metric: Square -> real)
    requires image.Some? ==> ValidDraws(draws, image.value)
    ensures image.None? <==> PalmSquare(image, draws, metric) == Err(ImageUnreadable)
    ensures image.Some? ==>
      (PalmSquare(image, draws, metric) == Err(NoInterestingSquare) <==>
       forall j :: 0 <= j < Samples ==> metric(Candidate(draws, j, SquareSize(image.value))) <= 0.0)
    ensures PalmSquare(image, draws, metric).Ok? ==>
      var img, s := image.value, PalmSquare(image, draws, metric).value;
      Inside(s, img) && s.size == SquareSize(img) && metric(s) > 0.0 &&
      (forall j :: 0 <= j < Samples ==> metric(Candidate(draws, j, s.size)) <= metric(s)) &&
      FirstOfItsScore(draws, s.size, metric, Samples, s)
  {
    if image.Some? {
      var img := image.value;
      var size := SquareSize(img);
      PickSpec(draws, size, metric, Samples);
      var c := Pick(draws, size, metric, Samples);
      if c.best.Some? {
        var i :| 0 <= i < Samples && c.best.value == Candidate(draws, i, size) &&
          forall j :: 0 <= j < i ==> metric(Candidate(draws, j, size)) < metric(c.best.value);
        assert Inside(c.best.value, img);
      } else {
        assert forall j :: 0 <= j < Samples ==> metric(Candidate(draws, j, size)) <= 0.0;
      }
    }
  }

  /** The selection loop of `process_palm_image`. */
  method ProcessPalmImage(image: Option<GrayImage>, draws: seq<(int, int)>, metric: Square -> real)
    returns (r: Result<Square, PickError>)
    requires image.Some? ==> ValidDraws(draws, image.value)
    ensures r == PalmSquare(image, draws, metric)
  {
    if image.None? {
      return Err(ImageUnreadable);
    }
    var img := image.value;
    var squareSize := SquareSize(img);
    var maxMetric := 0.0;
    var bestSquare: Option<Square> := None;
    for k := 0 to Samples
      invariant Pick(draws, squareSize, metric, k) == Choice(bestSquare, maxMetric)
    {
      var x, y := draws[k].0, draws[k].1;
      var square := Square(x, y, squareSize);
      var m := metric(square);
      if m > maxMetric {
        maxMetric := m;
        bestSquare := Some(Square(x, y, squareSize));
      }
    }
    if bestSquare.None? {
      return Err(NoInterestingSquare);
    }
    return Ok(bestSquare.value);
  }
}
