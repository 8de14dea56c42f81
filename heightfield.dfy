/**
 * The height-field half of `generate_3d_mesh_from_white_image`: the grid
 * (already smoothed) gets its margin bands blended toward the shared edge
 * value, first row by row and then column by column, in place; it is then cut
 * into two triangles per grid cell with four unshared corners each, and the
 * STL triangle array is filled from the face list.
 */
module HeightField {
  import opened Outcomes
  import opened Geometry

  // ---------------------------------------------------------------------
  // The edge value
  // ---------------------------------------------------------------------

  /** Where a Python slice bound `k` lands in a dimension of length `n`. */
  function SliceBound(k: int, n: nat): (r: nat)
    ensures r <= n
    ensures 0 <= k ==> r == Min(k, n)
    ensures k < 0 ==> r == Max(n + k, 0)
  {
    if k < 0 then Max(n + k, 0) else Min(k, n)
  }

  /** Sum of `g[i, c0..c1]`. */
  function RowSum(g: array2<real>, i: nat, c0: nat, c1: nat): real
    requires i < g.Length0 && c0 <= c1 <= g.Length1
    reads g
    decreases c1 - c0
  {
    if c0 == c1 then 0.0 else RowSum(g, i, c0, c1 - 1) + g[i, c1 - 1]
  }

  /** Sum of the block `g[r0..r1, c0..c1]`. */
  function BlockSum(g: array2<real>, r0: nat, r1: nat, c0: nat, c1: nat): real
    requires r0 <= r1 <= g.Length0 && c0 <= c1 <= g.Length1
    reads g
    decreases r1 - r0
  {
    if r0 == r1 then 0.0 else BlockSum(g, r0, r1 - 1, c0, c1) + RowSum(g, r1 - 1, c0, c1)
  }

  /** `np.mean` of a block; the mean of an empty block is NaN, here None. */
  function BlockMean(g: array2<real>, r0: nat, r1: nat, c0: nat, c1: nat): (r: Option<real>)
    requires r0 <= r1 <= g.Length0 && c0 <= c1 <= g.Length1
    reads g
    ensures r.Some? <==> r0 < r1 && c0 < c1
  {
    var count := (r1 - r0) * (c1 - c0);
    if count == 0 then None else Some(BlockSum(g, r0, r1, c0, c1) / count as real)
  }

  /**
   * `edge_value`: the equal-weight average of the means of the top, bottom,
   * left and right margin bands (None when one of them is empty).
   */
  function EdgeValueOf(g: array2<real>, margin: int): Option<real>
    reads g
  {
    var rows, cols := g.Length0, g.Length1;
    var top := BlockMean(g, 0, SliceBound(margin, rows), 0, cols);
    var bottom := BlockMean(g, SliceBound(-margin, rows), rows, 0, cols);
    var left := BlockMean(g, 0, rows, 0, SliceBound(margin, cols));
    var right := BlockMean(g, 0, rows, SliceBound(-margin, cols), cols);
    if top.Some? && bottom.Some? && left.Some? && right.Some? then
      Some((top.value + bottom.value + left.value + right.value) / 4.0)
    else
      None
  }

  // ---------------------------------------------------------------------
  // The blend of one line
  // ---------------------------------------------------------------------

  /** Line `k` of `n` lies in a margin band. */
  predicate InBand(k: int, n: int, margin: int)
  {
    k < margin || k >= n - margin
  }

  function Min3(a: real, b: real, c: real): (r: real)
    ensures r <= a && r <= b && r <= c
    ensures r == a || r == b || r == c
  {
    if a <= b && a <= c then a else if b <= c then b else c
  }

  /** `factor = min(k / margin, (n - 1 - k) / margin, 1)`. */
  function Factor(k: int, n: int, margin: int): (r: real)
    requires margin > 0
    ensures r <= 1.0
    ensures 0 <= k <= n - 1 ==> 0.0 <= r
  {
    Min3(k as real / margin as real, (n - 1 - k) as real / margin as real, 1.0)
  }

  /** `(1 - factor) * edge_value + factor * x`. */
  function Blend(factor: real, edge: real, x: real): (r: real)
    ensures factor == 0.0 ==> r == edge
    ensures factor == 1.0 ==> r == x
    ensures edge == x ==> r == x
  {
    (1.0 - factor) * edge + factor * x
  }

  /** The value of an entry on line `k` of `n` after one pass over that axis. */
  function Passed(x: real, k: int, n: int, margin: int, edge: real): real
    requires 0 <= k < n
  {
    if InBand(k, n, margin) then Blend(Factor(k, n, margin), edge, x) else x
  }

  /** The value of entry `(i, j)` after the row pass and then the column pass. */
  function Blended(x: real, i: int, j: int, rows: int, cols: int, margin: int, edge: real): (r: real)
    requires 0 <= i < rows && 0 <= j < cols
    ensures !InBand(i, rows, margin) && !InBand(j, cols, margin) ==> r == x
    ensures x == edge ==> r == x
  {
    Passed(Passed(x, i, rows, margin, edge), j, cols, margin, edge)
  }

  /** A line in a band exists only for a positive margin. */
  lemma BandNeedsMargin(k: int, n: int, margin: int)
    requires 0 <= k < n && InBand(k, n, margin)
    ensures margin > 0
  {
  }

  /** The factor lies in [0, 1], and is 0 on the first and last line. */
  lemma FactorBounds(k: int, n: int, margin: int)
    requires 0 <= k < n && margin > 0
    ensures 0.0 <= Factor(k, n, margin) <= 1.0
    ensures k == 0 || k == n - 1 ==> Factor(k, n, margin) == 0.0
  {
    var m := margin as real;
    assert k as real / m >= 0.0;
    assert (n - 1 - k) as real / m >= 0.0;
  }

  /** A blend with a factor in [0, 1] lies between the edge value and the old value. */
  lemma BlendBetween(factor: real, edge: real, x: real)
    requires 0.0 <= factor <= 1.0
    ensures edge <= x ==> edge <= Blend(factor, edge, x) <= x
    ensures x <= edge ==> x <= Blend(factor, edge, x) <= edge
    ensures factor == 0.0 ==> Blend(factor, edge, x) == edge
    ensures x == edge ==> Blend(factor, edge, x) == edge
  {
    assert Blend(factor, edge, x) == edge + factor * (x - edge);
    if edge <= x {
      ScaleBetween(factor, x - edge);
    } else {
      ScaleBetween(factor, edge - x);
      assert factor * (x - edge) == -(factor * (edge - x));
    }
  }

  lemma ScaleBetween(f: real, d: real)
    requires 0.0 <= f <= 1.0 && 0.0 <= d
    ensures 0.0 <= f * d <= d
  {
    assert d - f * d == (1.0 - f) * d;
  }

  /** One pass moves an entry toward the edge value and never past it. */
  lemma PassedBetween(x: real, k: int, n: int, margin: int, edge: real)
    requires 0 <= k < n
    ensures edge <= x ==> edge <= Passed(x, k, n, margin, edge) <= x
    ensures x <= edge ==> x <= Passed(x, k, n, margin, edge) <= edge
    ensures x == edge ==> Passed(x, k, n, margin, edge) == edge
  {
    if InBand(k, n, margin) {
      FactorBounds(k, n, margin);
      BlendBetween(Factor(k, n, margin), edge, x);
    }
  }

  /**
   * After both passes, entries outside both margin bands are unchanged, every
   * entry of the first and last row and column equals the edge value, and
   * every entry lies between its old value and the edge value.
   */
  lemma BlendedShape(x: real, i: int, j: int, rows: int, cols: int, margin: int, edge: real)
    requires 0 <= i < rows && 0 <= j < cols
    ensures !InBand(i, rows, margin) && !InBand(j, cols, margin) ==> Blended(x, i, j, rows, cols, margin, edge) == x
    ensures margin > 0 && (i == 0 || i == rows - 1 || j == 0 || j == cols - 1) ==>
      Blended(x, i, j, rows, cols, margin, edge) == edge
    ensures edge <= x ==> edge <= Blended(x, i, j, rows, cols, margin, edge) <= x
    ensures x <= edge ==> x <= Blended(x, i, j, rows, cols, margin, edge) <= edge
  {
    var y := Passed(x, i, rows, margin, edge);
    PassedBetween(x, i, rows, margin, edge);
    PassedBetween(y, j, cols, margin, edge);
    if margin > 0 && (i == 0 || i == rows - 1) {
      FactorBounds(i, rows, margin);
      BlendBetween(Factor(i, rows, margin), edge, x);
      assert y == edge;
    }
    if margin > 0 && (j == 0 || j == cols - 1) {
      FactorBounds(j, cols, margin);
      BlendBetween(Factor(j, cols, margin), edge, y);
    }
  }

  /** With a margin of 0 (or less) no line is in a band, so nothing changes. */
  lemma NoMarginNoChange(x: real, i: int, j: int, rows: int, cols: int, margin: int, edge: real)
    requires 0 <= i < rows && 0 <= j < cols && margin <= 0
    ensures Blended(x, i, j, rows, cols, margin, edge) == x
  {
  }

  /** An undefined (NaN) edge value arises only when the passes touch nothing. */
  lemma UndefinedEdgeUnused(g: array2<real>, margin: int, x: real, i: int, j: int, edge: real)
    requires 0 <= i < g.Length0 && 0 <= j < g.Length1
    requires EdgeValueOf(g, margin).None?
    ensures margin <= 0
    ensures Blended(x, i, j, g.Length0, g.Length1, margin, edge) == x
  {
    if margin > 0 {
      assert false;
    }
  }

  // ---------------------------------------------------------------------
  // A constant grid
  // ---------------------------------------------------------------------

  predicate Constant(g: array2<real>, v: real)
    reads g
  {
    forall i, j :: 0 <= i < g.Length0 && 0 <= j < g.Length1 ==> g[i, j] == v
  }

  lemma {:induction false} RowSumConstant(g: array2<real>, v: real, i: nat, c0: nat, c1: nat)
    requires Constant(g, v) && i < g.Length0 && c0 <= c1 <= g.Length1
    ensures RowSum(g, i, c0, c1) == (c1 - c0) as real * v
    decreases c1 - c0
  {
    if c0 < c1 {
      RowSumConstant(g, v, i, c0, c1 - 1);
    }
  }

  lemma {:induction false} BlockSumConstant(g: array2<real>, v: real, r0: nat, r1: nat, c0: nat, c1: nat)
    requires Constant(g, v) && r0 <= r1 <= g.Length0 && c0 <= c1 <= g.Length1
    ensures BlockSum(g, r0, r1, c0, c1) == ((r1 - r0) * (c1 - c0)) as real * v
    decreases r1 - r0
  {
    if r0 < r1 {
      BlockSumConstant(g, v, r0, r1 - 1, c0, c1);
      RowSumConstant(g, v, r1 - 1, c0, c1);
      var before, width := (r1 - 1 - r0) * (c1 - c0), c1 - c0;
      assert (r1 - r0) * (c1 - c0) == before + width;
      SumOfScaled(before, width, v);
    }
  }

  lemma SumOfScaled(a: int, b: int, v: real)
    ensures a as real * v + b as real * v == (a + b) as real * v
  {
  }

  lemma BlockMeanConstant(g: array2<real>, v: real, r0: nat, r1: nat, c0: nat, c1: nat)
    requires Constant(g, v) && r0 < r1 <= g.Length0 && c0 < c1 <= g.Length1
    ensures BlockMean(g, r0, r1, c0, c1) == Some(v)
  {
    BlockSumConstant(g, v, r0, r1, c0, c1);
    var count := (r1 - r0) * (c1 - c0);
    assert count > 0;
    var n := count as real;
    assert BlockSum(g, r0, r1, c0, c1) == n * v;
    assert n * v / n == v;
    assert BlockMean(g, r0, r1, c0, c1) == Some(BlockSum(g, r0, r1, c0, c1) / n);
  }

  /**
   * A constant grid of value `v` (with a positive margin and at least one
   * entry) has edge value `v`, and blending leaves every entry at `v`.
   */
  lemma ConstantGridStays(g: array2<real>, v: real, margin: int)
    requires Constant(g, v) && margin > 0 && g.Length0 > 0 && g.Length1 > 0
    ensures EdgeValueOf(g, margin) == Some(v)
    ensures forall i, j :: 0 <= i < g.Length0 && 0 <= j < g.Length1 ==>
      Blended(g[i, j], i, j, g.Length0, g.Length1, margin, v) == v
  {
    var rows, cols := g.Length0, g.Length1;
    BlockMeanConstant(g, v, 0, SliceBound(margin, rows), 0, cols);
    BlockMeanConstant(g, v, SliceBound(-margin, rows), rows, 0, cols);
    BlockMeanConstant(g, v, 0, rows, 0, SliceBound(margin, cols));
    BlockMeanConstant(g, v, 0, rows, SliceBound(-margin, cols), cols);
    forall i, j | 0 <= i < rows && 0 <= j < cols
      ensures Blended(g[i, j], i, j, rows, cols, margin, v) == v
    {
      BlendedShape(v, i, j, rows, cols, margin, v);
    }
  }

  // ---------------------------------------------------------------------
  // The two passes, in place
  // ---------------------------------------------------------------------

  /** The row pass: every row in a margin band is blended toward `edge`. */
  method BlendRows(g: array2<real>, margin: int, edge: real)
    modifies g
    ensures forall i, j :: 0 <= i < g.Length0 && 0 <= j < g.Length1 ==>
      g[i, j] == Passed(old(g[i, j]), i, g.Length0, margin, edge)
  {
    var rows, cols := g.Length0, g.Length1;
    for i := 0 to rows
      invariant forall r, c :: 0 <= r < i && 0 <= c < cols ==> g[r, c] == Passed(old(g[r, c]), r, rows, margin, edge)
      invariant forall r, c :: i <= r < rows && 0 <= c < cols ==> g[r, c] == old(g[r, c])
    {
      if i < margin || i >= rows - margin {
        var factor := Factor(i, rows, margin);
        for j := 0 to cols
          invariant forall r, c :: 0 <= r < i && 0 <= c < cols ==> g[r, c] == Passed(old(g[r, c]), r, rows, margin, edge)
          invariant forall c :: 0 <= c < j ==> g[i, c] == Passed(old(g[i, c]), i, rows, margin, edge)
          invariant forall r, c :: i <= r < rows && 0 <= c < cols && (r > i || c >= j) ==> g[r, c] == old(g[r, c])
        {
          g[i, j] := Blend(factor, edge, g[i, j]);
        }
      }
    }
  }

  /** The column pass: every column in a margin band is blended toward `edge`. */
  method BlendColumns(g: array2<real>, margin: int, edge: real)
    modifies g
    ensures forall i, j :: 0 <= i < g.Length0 && 0 <= j < g.Length1 ==>
      g[i, j] == Passed(old(g[i, j]), j, g.Length1, margin, edge)
  {
    var rows, cols := g.Length0, g.Length1;
    for j := 0 to cols
      invariant forall r, c :: 0 <= r < rows && 0 <= c < j ==> g[r, c] == Passed(old(g[r, c]), c, cols, margin, edge)
      invariant forall r, c :: 0 <= r < rows && j <= c < cols ==> g[r, c] == old(g[r, c])
    {
      if j < margin || j >= cols - margin {
        var factor := Factor(j, cols, margin);
        for i := 0 to rows
          invariant forall r, c :: 0 <= r < rows && 0 <= c < j ==> g[r, c] == Passed(old(g[r, c]), c, cols, margin, edge)
          invariant forall r :: 0 <= r < i ==> g[r, j] == Passed(old(g[r, j]), j, cols, margin, edge)
          invariant forall r, c :: 0 <= r < rows && j <= c < cols && (c > j || r >= i) ==> g[r, c] == old(g[r, c])
        {
          g[i, j] := Blend(factor, edge, g[i, j]);
        }
      }
    }
  }

  /**
   * The edge value of the grid as it is, then the row pass and the column
   * pass. An undefined edge value is returned as None; the passes then touch
   * nothing (UndefinedEdgeUnused), so the stand-in value never reaches the grid.
   */
  method BlendEdges(g: array2<real>, margin: int) returns (edge: Option<real>)
    modifies g
    ensures edge == old(EdgeValueOf(g, margin))
    ensures forall i, j :: 0 <= i < g.Length0 && 0 <= j < g.Length1 ==>
      g[i, j] == Blended(old(g[i, j]), i, j, g.Length0, g.Length1, margin, if edge.Some? then edge.value else 0.0)
  {
    edge := EdgeValueOf(g, margin);
    var e := if edge.Some? then edge.value else 0.0;
    BlendRows(g, margin, e);
    BlendColumns(g, margin, e);
  }

  // ---------------------------------------------------------------------
  // Triangulation
  // ---------------------------------------------------------------------

  /** How many cells lie along an axis of `n` samples: `range(n - 1)`. */
  function Spans(n: nat): (r: nat)
    ensures n >= 1 ==> r == n - 1
    ensures n == 0 ==> r == 0
  {
    if n == 0 then 0 else n - 1
  }

  /** Sample `k` of `np.linspace(0, 1, n)`, for at least two samples. */
  function GridCoord(k: nat, n: nat): (r: real)
    requires k < n && n >= 2
    ensures 0.0 <= r <= 1.0
    ensures k == 0 ==> r == 0.0
    ensures k == n - 1 ==> r == 1.0
  {
    k as real / (n - 1) as real
  }

  /** The vertex of grid point `(i, j)`: `[x[i, j], y[i, j], height[i, j]]`. */
  function Corner(g: array2<real>, i: nat, j: nat): Vec3
    requires i < g.Length0 && j < g.Length1 && g.Length0 >= 2 && g.Length1 >= 2
    reads g
  {
    Vec3(GridCoord(j, g.Length1), GridCoord(i, g.Length0), g[i, j])
  }

  /** The four corners of cell `(i, j)`, in the order v0, v1, v2, v3. */
  function CellCorners(g: array2<real>, i: nat, j: nat): seq<Vec3>
    requires i + 1 < g.Length0 && j + 1 < g.Length1
    reads g
  {
    [Corner(g, i, j), Corner(g, i + 1, j), Corner(g, i, j + 1), Corner(g, i + 1, j + 1)]
  }

  /** The vertices the first `n` cells of row `i` emit. */
  function RowCorners(g: array2<real>, i: nat, n: nat): (r: seq<Vec3>)
    requires i + 1 < g.Length0 && n <= Spans(g.Length1)
    reads g
    ensures |r| == 4 * n
  {
    if n == 0 then [] else RowCorners(g, i, n - 1) + CellCorners(g, i, n - 1)
  }

  /** The vertices the first `n` rows of cells emit. */
  function GridCorners(g: array2<real>, n: nat): seq<Vec3>
    requires n <= Spans(g.Length0)
    reads g
  {
    if n == 0 then [] else GridCorners(g, n - 1) + RowCorners(g, n - 1, Spans(g.Length1))
  }

  /** The two triangles of the `k`-th cell, over its own four vertices. */
  function CellFaces(k: nat): seq<Face>
  {
    [Face(4 * k, 4 * k + 1, 4 * k + 2), Face(4 * k + 2, 4 * k + 1, 4 * k + 3)]
  }

  /** The faces the first `n` cells emit. */
  function GridFaces(n: nat): seq<Face>
  {
    if n == 0 then [] else GridFaces(n - 1) + CellFaces(n - 1)
  }

  /** `n` rows of cells emit four vertices per cell. */
  lemma {:induction false} GridCornersLength(g: array2<real>, n: nat)
    requires n <= Spans(g.Length0)
    ensures |GridCorners(g, n)| == 4 * n * Spans(g.Length1)
  {
    if n > 0 {
      GridCornersLength(g, n - 1);
      assert 4 * n * Spans(g.Length1) == 4 * (n - 1) * Spans(g.Length1) + 4 * Spans(g.Length1);
    }
  }

  /** Four vertices per cell: a grid of `4n` vertices has `n` cells. */
  lemma CellCount(g: array2<real>, n: nat)
    requires |GridCorners(g, Spans(g.Length0))| == 4 * n
    ensures n == Spans(g.Length0) * Spans(g.Length1)
  {
    GridCornersLength(g, Spans(g.Length0));
    var r, s := Spans(g.Length0), Spans(g.Length1);
    assert 4 * r * s == 4 * (r * s);
  }

  /** Vertices `4j .. 4j + 3` of a row are the corners of its cell `j`. */
  lemma {:induction false} RowCornersAt(g: array2<real>, i: nat, n: nat, j: nat, c: nat)
    requires i + 1 < g.Length0 && n <= Spans(g.Length1) && j < n && c < 4
    ensures RowCorners(g, i, n)[4 * j + c] == CellCorners(g, i, j)[c]
  {
    if j < n - 1 {
      RowCornersAt(g, i, n - 1, j, c);
    }
  }

  /** Vertices `4k .. 4k + 3`, for `k = i * (cols - 1) + j`, are the corners of cell `(i, j)`. */
  lemma {:induction false} GridCornersAt(g: array2<real>, n: nat, s: nat, i: nat, j: nat, c: nat)
    requires n <= Spans(g.Length0) && s == Spans(g.Length1) && i < n && j < s && c < 4
    ensures var k := 4 * (i * s + j) + c;
      k < |GridCorners(g, n)| && GridCorners(g, n)[k] == CellCorners(g, i, j)[c]
  {
    GridCornersLength(g, n - 1);
    GridCornersLength(g, n);
    CornerIndex(n, s, i, j, c);
    if i == n - 1 {
      RowCornersAt(g, i, s, j, c);
    } else {
      GridCornersAt(g, n - 1, s, i, j, c);
    }
  }

  /** Where corner c of cell (i, j) sits among 4 * n * s vertices, and within the last row when i is the last. */
  lemma CornerIndex(n: nat, s: nat, i: nat, j: nat, c: nat)
    requires i < n && j < s && c < 4
    ensures 4 * (i * s + j) + c < 4 * n * s
    ensures i == n - 1 ==> 4 * (i * s + j) + c == 4 * (n - 1) * s + (4 * j + c)
  {
    assert (i + 1) * s == i * s + s;
    MulMonoRight(i + 1, n, s);
    assert 4 * n * s == 4 * (n * s);
    assert 4 * (n - 1) * s == 4 * ((n - 1) * s);
  }

  /** Cell `k` emits faces `2k` and `2k + 1`, over vertices `4k .. 4k + 3`. */
  lemma {:induction false} GridFacesAt(n: nat, k: nat)
    requires k < n
    ensures |GridFaces(n)| == 2 * n
    ensures GridFaces(n)[2 * k] == Face(4 * k, 4 * k + 1, 4 * k + 2)
    ensures GridFaces(n)[2 * k + 1] == Face(4 * k + 2, 4 * k + 1, 4 * k + 3)
  {
    GridFacesLength(n);
    if k < n - 1 {
      GridFacesAt(n - 1, k);
    }
  }

  lemma {:induction false} GridFacesLength(n: nat)
    ensures |GridFaces(n)| == 2 * n
  {
    if n > 0 {
      GridFacesLength(n - 1);
    }
  }

  /** Every face of the first `n` cells names one of their `4n` vertices. */
  lemma {:induction false} GridFacesBelow(n: nat)
    ensures forall f :: f in GridFaces(n) ==> FaceBelow(f, 4 * n)
  {
    if n > 0 {
      GridFacesBelow(n - 1);
    }
  }

  /** Every vertex lies over the unit square, at the height of its grid point. */
  lemma {:induction false} GridCornersInUnitSquare(g: array2<real>, n: nat)
    requires n <= Spans(g.Length0)
    ensures forall v :: v in GridCorners(g, n) ==> 0.0 <= v.x <= 1.0 && 0.0 <= v.y <= 1.0
  {
    if n > 0 {
      GridCornersInUnitSquare(g, n - 1);
      RowCornersInUnitSquare(g, n - 1, Spans(g.Length1));
    }
  }

  lemma {:induction false} RowCornersInUnitSquare(g: array2<real>, i: nat, n: nat)
    requires i + 1 < g.Length0 && n <= Spans(g.Length1)
    ensures forall v :: v in RowCorners(g, i, n) ==> 0.0 <= v.x <= 1.0 && 0.0 <= v.y <= 1.0
  {
    if n > 0 {
      RowCornersInUnitSquare(g, i, n - 1);
    }
  }

  /**
   * The triangulated grid: `4 (rows - 1) (cols - 1)` vertices and
   * `2 (rows - 1) (cols - 1)` faces, every face naming an existing vertex.
   */
  lemma TriangulationShape(g: array2<real>)
    ensures |GridCorners(g, Spans(g.Length0))| == 4 * Spans(g.Length0) * Spans(g.Length1)
    ensures |GridFaces(Spans(g.Length0) * Spans(g.Length1))| == 2 * Spans(g.Length0) * Spans(g.Length1)
    ensures WellFormed(Mesh(GridCorners(g, Spans(g.Length0)), GridFaces(Spans(g.Length0) * Spans(g.Length1))))
  {
    var r, s := Spans(g.Length0), Spans(g.Length1);
    var cells := r * s;
    GridCornersLength(g, r);
    assert 4 * r * s == 4 * cells;
    GridFacesLength(cells);
    GridFacesBelow(cells);
    var fs := GridFaces(cells);
    forall k | 0 <= k < |fs|
      ensures FaceBelow(fs[k], |GridCorners(g, r)|)
    {
      assert fs[k] in fs;
    }
  }

  /** Cell `(i, j)` is the `i * (cols - 1) + j`-th cell emitted. */
  lemma CellOrdinal(i: nat, j: nat, rowsOfCells: nat, perRow: nat)
    requires i < rowsOfCells && j < perRow
    ensures i * perRow + j < rowsOfCells * perRow
  {
    assert i * perRow + j < i * perRow + perRow == (i + 1) * perRow;
    assert (i + 1) * perRow <= rowsOfCells * perRow;
  }

  /** The corner of face `f` named by `j` (0, 1 or 2). */
  function FaceCorner(f: Face, j: nat): int
    requires j < 3
  {
    if j == 0 then f.a else if j == 1 then f.b else f.c
  }

  /**
   * The two triangles of cell `(i, j)` are (v0, v1, v2) and (v2, v1, v3): they
   * share the diagonal from `(i + 1, j)` to `(i, j + 1)`.
   */
  lemma CellTriangles(g: array2<real>, i: nat, j: nat)
    requires i < Spans(g.Length0) && j < Spans(g.Length1)
    ensures var vs, fs, k := GridCorners(g, Spans(g.Length0)), GridFaces(Spans(g.Length0) * Spans(g.Length1)), i * Spans(g.Length1) + j;
      2 * k + 1 < |fs| &&
      FaceBelow(fs[2 * k], |vs|) && FaceBelow(fs[2 * k + 1], |vs|) &&
      vs[fs[2 * k].a] == Corner(g, i, j) && vs[fs[2 * k].b] == Corner(g, i + 1, j) &&
      vs[fs[2 * k].c] == Corner(g, i, j + 1) &&
      vs[fs[2 * k + 1].a] == Corner(g, i, j + 1) && vs[fs[2 * k + 1].b] == Corner(g, i + 1, j) &&
      vs[fs[2 * k + 1].c] == Corner(g, i + 1, j + 1)
  {
    var r, s := Spans(g.Length0), Spans(g.Length1);
    var k := i * s + j;
    CellOrdinal(i, j, r, s);
    GridFacesAt(r * s, k);
    GridCornersLength(g, r);
    GridCornersAt(g, r, Spans(g.Length1), i, j, 0);
    GridCornersAt(g, r, Spans(g.Length1), i, j, 1);
    GridCornersAt(g, r, Spans(g.Length1), i, j, 2);
    GridCornersAt(g, r, Spans(g.Length1), i, j, 3);
  }

  /** The cell loop: four fresh corners and two faces per cell, row by row. */
  method Triangulate(g: array2<real>) returns (vertices: seq<Vec3>, faces: seq<Face>)
    ensures vertices == GridCorners(g, Spans(g.Length0))
    ensures faces == GridFaces(Spans(g.Length0) * Spans(g.Length1))
  {
    var rows, cols := g.Length0, g.Length1;
    vertices, faces := [], [];
    ghost var cells := 0;
    for i := 0 to Spans(rows)
      invariant vertices == GridCorners(g, i)
      invariant faces == GridFaces(cells) && |vertices| == 4 * cells
    {
      for j := 0 to Spans(cols)
        invariant vertices == GridCorners(g, i) + RowCorners(g, i, j)
        invariant faces == GridFaces(cells) && |vertices| == 4 * cells
      {
        var v0 := Corner(g, i, j);
        var v1 := Corner(g, i + 1, j);
        var v2 := Corner(g, i, j + 1);
        var v3 := Corner(g, i + 1, j + 1);
        vertices := vertices + [v0, v1, v2, v3];
        faces := faces + [Face(|vertices| - 4, |vertices| - 3, |vertices| - 2)];
        faces := faces + [Face(|vertices| - 2, |vertices| - 3, |vertices| - 1)];
        assert faces == GridFaces(cells) + CellFaces(cells);
        assert vertices == GridCorners(g, i) + RowCorners(g, i, j + 1);
        cells := cells + 1;
      }
    }
    CellCount(g, cells);
  }

  /** Fills the STL triangle array: row `i` holds the three vertices face `i` names. */
  method StlVectors(vertices: seq<Vec3>, faces: seq<Face>) returns (vectors: array2<Vec3>)
    requires WellFormed(Mesh(vertices, faces))
    ensures fresh(vectors) && vectors.Length0 == |faces| && vectors.Length1 == 3
    ensures forall i, j :: 0 <= i < |faces| && 0 <= j < 3 ==> vectors[i, j] == vertices[FaceCorner(faces[i], j)]
  {
    vectors := new Vec3[|faces|, 3]((_, _) => Vec3(0.0, 0.0, 0.0));
    for i := 0 to |faces|
      invariant forall r, c :: 0 <= r < i && 0 <= c < 3 ==> vectors[r, c] == vertices[FaceCorner(faces[r], c)]
    {
      for j := 0 to 3
        invariant forall r, c :: 0 <= r < i && 0 <= c < 3 ==> vectors[r, c] == vertices[FaceCorner(faces[r], c)]
        invariant forall c :: 0 <= c < j ==> vectors[i, c] == vertices[FaceCorner(faces[i], c)]
      {
        vectors[i, j] := vertices[FaceCorner(faces[i], j)];
      }
    }
  }

  /**
   * `generate_3d_mesh_from_white_image` from the smoothed grid on: blend the
   * edges in place, triangulate, and fill the STL triangles (the file write is
   * left to the caller).
   */
  method GenerateMeshFromGrid(g: array2<real>, margin: int)
    returns (edge: Option<real>, vertices: seq<Vec3>, faces: seq<Face>, vectors: array2<Vec3>)
    modifies g
    ensures edge == old(EdgeValueOf(g, margin))
    ensures forall i, j :: 0 <= i < g.Length0 && 0 <= j < g.Length1 ==>
      g[i, j] == Blended(old(g[i, j]), i, j, g.Length0, g.Length1, margin, if edge.Some? then edge.value else 0.0)
    ensures vertices == GridCorners(g, Spans(g.Length0))
    ensures faces == GridFaces(Spans(g.Length0) * Spans(g.Length1))
    ensures WellFormed(Mesh(vertices, faces))
    ensures fresh(vectors) && vectors.Length0 == |faces| && vectors.Length1 == 3
    ensures forall i, j :: 0 <= i < |faces| && 0 <= j < 3 ==> vectors[i, j] == vertices[FaceCorner(faces[i], j)]
  {
    edge := BlendEdges(g, margin);
    vertices, faces := Triangulate(g);
    TriangulationShape(g);
    vectors := StlVectors(vertices, faces);
  }
}
