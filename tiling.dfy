/**
 * Single-tile sphere tiling (`create_tiled_sphere`): one tile mesh is
 * projected into every cell of an M x K colatitude/longitude grid, with
 * M = floor(sqrt N) bands and K = floor(N / M) cells per band, and the
 * copies are stacked with a running vertex offset.
 */
module Tiling {
  import opened Outcomes
  import opened Geometry
  import opened Sphere

  /** `int(np.sqrt(n))` for a non-negative count, as an exact integer square root. */
  function FloorSqrt(n: nat): (r: nat)
    ensures r * r <= n < (r + 1) * (r + 1)
  {
    if n == 0 then 0
    else
      var p := FloorSqrt(n - 1);
      if (p + 1) * (p + 1) <= n then
        assert n < (p + 2) * (p + 2) by {
          assert (p + 2) * (p + 2) == (p + 1) * (p + 1) + 2 * p + 3;
        }
        p + 1
      else p
  }

  /** M latitude bands of K longitude cells each. */
  datatype Layout = Layout(bands: nat, perBand: nat)

  datatype TilingError =
    | LoadFailed     // the tile could not be loaded: the script reports it and builds nothing
    | ZeroBands      // N = 0: M = 0 and N / M divides by zero
    | NegativeCount  // N < 0: the square root is NaN and int() rejects it

  /** The grid derived from the target count N; M * K never exceeds N. */
  function LayoutFor(n: int): (r: Result<Layout, TilingError>)
    ensures n == 0 <==> r == Err(ZeroBands)
    ensures n < 0 <==> r == Err(NegativeCount)
    ensures r.Ok? ==> 1 <= r.value.bands && 1 <= r.value.perBand
    ensures r.Ok? ==> r.value.bands * r.value.perBand <= n
  {
    if n < 0 then Err(NegativeCount)
    else if n == 0 then Err(ZeroBands)
    else
      var m := FloorSqrt(n);
      assert 1 <= m;
      assert m <= n by { SelfLeSquare(m); }
      DivBounds(n, m);
      Ok(Layout(m, n / m))
  }

  /** Dividing n by some m in [1, n] leaves a quotient of at least 1 whose product with m does not exceed n. */
  lemma DivBounds(n: nat, m: nat)
    requires 1 <= m <= n
    ensures n / m >= 1 && m * (n / m) <= n
  {
    var q, r := n / m, n % m;
    assert m * q + r == n && 0 <= r < m;
  }

  /** Sample `k` of `n` equal steps over [0, span] runs from 0 to the span. */
  lemma EdgeBetween(k: nat, n: nat, span: real)
    requires n > 0 && span > 0.0
    ensures k == n ==> k as real * (span / n as real) == span
    ensures k <= n ==> 0.0 <= k as real * (span / n as real) <= span
  {
    var step := span / n as real;
    assert n as real * step == span;
    assert 0.0 < step;
    if k <= n {
      assert k as real * step <= n as real * step;
    }
  }

  /** `np.linspace(0, np.pi, M + 1)[k]`. */
  function ThetaEdge(k: nat, m: nat): real
    requires m > 0
  {
    k as real * (Pi / m as real)
  }

  /** `np.linspace(0, 2 * np.pi, K + 1)[k]`. */
  function PhiEdge(k: nat, kk: nat): real
    requires kk > 0
  {
    k as real * (2.0 * Pi / kk as real)
  }

  /**
   * The band edges run from the pole at 0 to the opposite pole at pi, the
   * meridian edges from 0 all the way round to 2 pi; every edge in between
   * stays inside that range.
   */
  lemma EdgesSpan(k: nat, m: nat, kk: nat)
    requires m > 0 && kk > 0
    ensures ThetaEdge(0, m) == 0.0 && ThetaEdge(m, m) == Pi
    ensures k <= m ==> 0.0 <= ThetaEdge(k, m) <= Pi
    ensures PhiEdge(0, kk) == 0.0 && PhiEdge(kk, kk) == 2.0 * Pi
    ensures k <= kk ==> 0.0 <= PhiEdge(k, kk) <= 2.0 * Pi
  {
    EdgeBetween(m, m, Pi);
    EdgeBetween(k, m, Pi);
    EdgeBetween(kk, kk, 2.0 * Pi);
    EdgeBetween(k, kk, 2.0 * Pi);
  }

  function ThetaBounds(lat: nat, layout: Layout): Bounds
    requires layout.bands > 0
  {
    Bounds(ThetaEdge(lat, layout.bands), ThetaEdge(lat + 1, layout.bands))
  }

  function PhiBounds(lon: nat, layout: Layout): Bounds
    requires layout.perBand > 0
  {
    Bounds(PhiEdge(lon, layout.perBand), PhiEdge(lon + 1, layout.perBand))
  }

  /** The tile projected into cell (lat, lon): same faces, vertices mapped with the source z as radial offset. */
  function CellCopy(tile: Mesh, lat: nat, lon: nat, layout: Layout, radius: real, t: Trig): (r: Mesh)
    requires layout.bands > 0 && layout.perBand > 0
    ensures r.faces == tile.faces && |r.vertices| == |tile.vertices|
  {
    Mesh(MapToSphere(tile.vertices, ThetaBounds(lat, layout), PhiBounds(lon, layout), radius, t), tile.faces)
  }

  /** The M * K copies in loop order: copy c = lat * K + lon (latitude outer, longitude inner). */
  function Copies(tile: Mesh, layout: Layout, radius: real, t: Trig): (r: seq<Mesh>)
    requires layout.bands > 0 && layout.perBand > 0
    ensures |r| == layout.bands * layout.perBand
  {
    var kk := layout.perBand;
    seq(layout.bands * kk, c requires 0 <= c < layout.bands * kk => CellCopy(tile, c / kk, c % kk, layout, radius, t))
  }

  /** What `create_tiled_sphere` builds and exports, or why it builds nothing. */
  function TiledSphere(load: Option<Mesh>, n: int, radius: real, t: Trig): (r: Result<Mesh, TilingError>)
    ensures load.None? ==> r == Err(LoadFailed)
    ensures load.Some? && n == 0 ==> r == Err(ZeroBands)
    ensures load.Some? && n < 0 ==> r == Err(NegativeCount)
    ensures r.Ok? ==> LayoutFor(n).Ok? && r.value == Concat(Copies(load.value, LayoutFor(n).value, radius, t))
  {
    if load.None? then Err(LoadFailed)
    else match LayoutFor(n)
      case Err(e) => Err(e)
      case Ok(layout) => Ok(Concat(Copies(load.value, layout, radius, t)))
  }

  lemma SelfLeSquare(m: nat)
    ensures m <= m * m
  {
    if m > 0 {
      var d: nat := m - 1;
      assert m * m == m + m * d;
    }
  }

  lemma MulAtLeast(a: int, b: int)
    requires b >= 0
    ensures a >= 1 ==> a * b >= b
    ensures a <= -1 ==> a * b <= -b
  {
  }

  /** Cell (lat, lon) of a grid with K cells per band has flat index lat * K + lon, inside the grid. */
  lemma CellIndex(lat: nat, lon: nat, bands: nat, kk: nat)
    requires lat < bands && lon < kk
    ensures lat * kk + lon < bands * kk
    ensures (lat * kk + lon) / kk == lat && (lat * kk + lon) % kk == lon
  {
    var x := lat * kk + lon;
    var q, r := x / kk, x % kk;
    assert q * kk + r == x;
    assert (q - lat) * kk == lon - r;
    MulAtLeast(q - lat, kk);
    assert (bands - lat) * kk == bands * kk - lat * kk;
    MulAtLeast(bands - lat, kk);
  }

  /** The nested latitude/longitude loop: stacks copy after copy, advancing the face offset by the tile's vertex count. */
  method AssembleCopies(tile: Mesh, layout: Layout, radius: real, t: Trig) returns (m: Mesh)
    requires layout.bands > 0 && layout.perBand > 0
    ensures m == Concat(Copies(tile, layout, radius, t))
  {
    ghost var cs := Copies(tile, layout, radius, t);
    var kk := layout.perBand;
    var allVertices: seq<Vec3> := [];
    var allFaces: seq<Face> := [];
    var faceOffset := 0;
    ghost var done := 0;
    var lat := 0;
    while lat < layout.bands
      invariant 0 <= lat <= layout.bands
      invariant done == lat * kk && done <= |cs|
      invariant Mesh(allVertices, allFaces) == Concat(cs[..done])
      invariant faceOffset == |allVertices|
    {
      var theta := ThetaBounds(lat, layout);
      var lon := 0;
      while lon < kk
        invariant 0 <= lon <= kk
        invariant done == lat * kk + lon && done <= |cs|
        invariant Mesh(allVertices, allFaces) == Concat(cs[..done])
        invariant faceOffset == |allVertices|
      {
        var mapped := MapToSphere(tile.vertices, theta, PhiBounds(lon, layout), radius, t);
        CellIndex(lat, lon, layout.bands, kk);
        assert cs[done] == Mesh(mapped, tile.faces);
        assert cs[..done + 1] == cs[..done] + [cs[done]];
        ConcatSnoc(cs[..done], cs[done]);
        allVertices := allVertices + mapped;
        allFaces := allFaces + ShiftAll(tile.faces, faceOffset);
        faceOffset := faceOffset + |mapped|;
        lon := lon + 1;
        done := done + 1;
      }
      assert done == (lat + 1) * kk;
      CellIndex(lat, kk - 1, layout.bands, kk);
      lat := lat + 1;
    }
    assert cs[..done] == cs;
    m := Mesh(allVertices, allFaces);
  }

  /** `create_tiled_sphere`: a failed load or a count below 1 builds nothing; otherwise the stacked copies. */
  method CreateTiledSphere(load: Option<Mesh>, n: int, radius: real, t: Trig) returns (r: Result<Mesh, TilingError>)
    ensures r == TiledSphere(load, n, radius, t)
    ensures r.Ok? <==> load.Some? && n >= 1
  {
    if load.None? {
      return Err(LoadFailed);
    }
    var layout := LayoutFor(n);
    if layout.Err? {
      return Err(layout.error);
    }
    var m := AssembleCopies(load.value, layout.value, radius, t);
    return Ok(m);
  }

  /** The main script's N = 50 gives a 7 x 7 grid: 49 cells, one short of the target. */
  lemma LayoutFifty()
    ensures LayoutFor(50) == Ok(Layout(7, 7))
  {
    FloorSqrtUnique(50, 7);
  }

  /** The floor square root is the only r with r^2 <= n < (r+1)^2. */
  lemma FloorSqrtUnique(n: nat, r: nat)
    requires r * r <= n < (r + 1) * (r + 1)
    ensures FloorSqrt(n) == r
  {
    var q := FloorSqrt(n);
    if q < r {
      assert (q + 1) * (q + 1) <= r * r by { MulMono(q + 1, r); }
    } else if q > r {
      assert (r + 1) * (r + 1) <= q * q by { MulMono(r + 1, q); }
    }
  }

  lemma MulMono(a: nat, b: nat)
    requires a <= b
    ensures a * a <= b * b
  {
    assert a * a <= a * b <= b * b;
  }

  /**
   * The colatitude cells tile [0, pi] and the longitude cells tile [0, 2 pi]:
   * each cell has lo < hi, the first starts at 0, the last ends at pi
   * (respectively 2 pi), and adjacent cells share their common edge.
   */
  lemma CellBoundsTile(layout: Layout, lat: nat, lon: nat)
    requires layout.bands > 0 && layout.perBand > 0
    requires lat < layout.bands && lon < layout.perBand
    ensures 0.0 <= ThetaBounds(lat, layout).lo < ThetaBounds(lat, layout).hi <= Pi
    ensures 0.0 <= PhiBounds(lon, layout).lo < PhiBounds(lon, layout).hi <= 2.0 * Pi
    ensures lat == 0 ==> ThetaBounds(lat, layout).lo == 0.0
    ensures lat == layout.bands - 1 ==> ThetaBounds(lat, layout).hi == Pi
    ensures lon == 0 ==> PhiBounds(lon, layout).lo == 0.0
    ensures lon == layout.perBand - 1 ==> PhiBounds(lon, layout).hi == 2.0 * Pi
    ensures lat + 1 < layout.bands ==> ThetaBounds(lat, layout).hi == ThetaBounds(lat + 1, layout).lo
    ensures lon + 1 < layout.perBand ==> PhiBounds(lon, layout).hi == PhiBounds(lon + 1, layout).lo
  {
    var m := layout.bands as real;
    var kk := layout.perBand as real;
    EdgeStep(lat, m, Pi);
    EdgeStep(lon, kk, 2.0 * Pi);
  }

  lemma RealMulNonNeg(a: real, b: real)
    requires a >= 0.0 && b >= 0.0
    ensures a * b >= 0.0
  {
  }

  lemma EdgeStep(k: nat, n: real, span: real)
    requires n >= 1.0 && span > 0.0 && (k as real) + 1.0 <= n
    ensures 0.0 <= k as real * (span / n) < (k as real + 1.0) * (span / n) <= span
  {
    var step := span / n;
    assert step > 0.0;
    assert n * step == span;
    assert n * step - (k as real + 1.0) * step == (n - (k as real + 1.0)) * step;
    RealMulNonNeg(n - (k as real + 1.0), step);
    RealMulNonNeg(k as real, step);
  }

  /** The tiled sphere holds exactly M * K copies of the tile: M*K*|V| vertices and M*K*|F| faces. */
  lemma TiledSphereCounts(tile: Mesh, layout: Layout, radius: real, t: Trig)
    requires layout.bands > 0 && layout.perBand > 0
    ensures |Concat(Copies(tile, layout, radius, t)).vertices| == layout.bands * layout.perBand * |tile.vertices|
    ensures |Concat(Copies(tile, layout, radius, t)).faces| == layout.bands * layout.perBand * |tile.faces|
  {
    var cs := Copies(tile, layout, radius, t);
    CopySizes(tile, layout, radius, t);
    TotalsUniform(cs, |tile.vertices|, |tile.faces|);
    ConcatCounts(cs);
  }

  /**
   * Copy c = lat * K + lon of the tiled sphere occupies vertices
   * [c|V|, (c+1)|V|) and faces [c|F|, (c+1)|F|); its faces are the tile's
   * faces plus c|V| and its vertices are the tile's projected into cell
   * (lat, lon).
   */
  lemma {:induction false} TiledSphereLayout(tile: Mesh, layout: Layout, radius: real, t: Trig, lat: nat, lon: nat, i: nat)
    requires layout.bands > 0 && layout.perBand > 0
    requires lat < layout.bands && lon < layout.perBand
    ensures var c := lat * layout.perBand + lon;
      c * |tile.vertices| + |tile.vertices| <= |Concat(Copies(tile, layout, radius, t)).vertices| &&
      c * |tile.faces| + |tile.faces| <= |Concat(Copies(tile, layout, radius, t)).faces|
    ensures var c := lat * layout.perBand + lon;
      i < |tile.faces| ==>
        Concat(Copies(tile, layout, radius, t)).faces[c * |tile.faces| + i] == Shift(tile.faces[i], c * |tile.vertices|)
    ensures var c := lat * layout.perBand + lon;
      i < |tile.vertices| ==>
        Concat(Copies(tile, layout, radius, t)).vertices[c * |tile.vertices| + i]
          == Project(tile.vertices[i], ThetaBounds(lat, layout), PhiBounds(lon, layout), radius, t)
  {
    var cs := Copies(tile, layout, radius, t);
    var c := lat * layout.perBand + lon;
    CellIndex(lat, lon, layout.bands, layout.perBand);
    CopyOffsets(tile, layout, radius, t, c);
    ConcatPiece(cs, c, i);
  }

  /** Copy c starts after c copies' worth of vertices and faces, and ends within the tiled sphere. */
  lemma CopyOffsets(tile: Mesh, layout: Layout, radius: real, t: Trig, c: nat)
    requires layout.bands > 0 && layout.perBand > 0
    requires c < layout.bands * layout.perBand
    ensures TotalVertices(Copies(tile, layout, radius, t)[..c]) == c * |tile.vertices|
    ensures TotalFaces(Copies(tile, layout, radius, t)[..c]) == c * |tile.faces|
    ensures c * |tile.vertices| + |tile.vertices| <= |Concat(Copies(tile, layout, radius, t)).vertices|
    ensures c * |tile.faces| + |tile.faces| <= |Concat(Copies(tile, layout, radius, t)).faces|
  {
    var cs := Copies(tile, layout, radius, t);
    var nv, nf := |tile.vertices|, |tile.faces|;
    CopySizes(tile, layout, radius, t);
    var before := cs[..c];
    assert forall k :: 0 <= k < |before| ==> before[k] == cs[k];
    TotalsUniform(before, nv, nf);
    TiledSphereCounts(tile, layout, radius, t);
    var m := layout.bands * layout.perBand;
    PrefixFits(c, m, nv);
    PrefixFits(c, m, nf);
  }

  /** Every copy has the tile's vertex count and the tile's faces. */
  lemma CopySizes(tile: Mesh, layout: Layout, radius: real, t: Trig)
    requires layout.bands > 0 && layout.perBand > 0
    ensures forall k :: 0 <= k < |Copies(tile, layout, radius, t)| ==>
      |Copies(tile, layout, radius, t)[k].vertices| == |tile.vertices| && Copies(tile, layout, radius, t)[k].faces == tile.faces
  {
  }

  lemma PrefixFits(c: nat, m: nat, n: nat)
    requires c < m
    ensures c * n + n <= m * n
  {
    assert m * n == c * n + n + (m - c - 1) * n;
  }

  /** Given a well-formed tile, every face index of the tiled sphere is below its vertex count. */
  lemma TiledSphereWellFormed(tile: Mesh, layout: Layout, radius: real, t: Trig)
    requires layout.bands > 0 && layout.perBand > 0
    requires WellFormed(tile)
    ensures WellFormed(Concat(Copies(tile, layout, radius, t)))
  {
    var cs := Copies(tile, layout, radius, t);
    forall k | 0 <= k < |cs| ensures WellFormed(cs[k]) {
      assert cs[k].faces == tile.faces;
    }
    ConcatWellFormed(cs);
  }
}
