/**
 * The terrain colouring script: every flattened vertex of the planet mesh is
 * given a colour band by its distance from the centroid relative to the
 * largest such distance, and triangle `i` is painted with colour `i`.
 * Reading the STL file, the centroid and the norms are left to the caller:
 * the distances are an input (non-negative, as norms are).
 */
module TerrainColoring {
  import opened Outcomes
  import opened Geometry

  datatype Terrain = DeepOcean | ShallowWater | Shore | Lowland | Highland | Mountain

  /** `terrain_colors`. */
  function Hex(t: Terrain): string
  {
    match t
    case DeepOcean => "#0000ff"
    case ShallowWater => "#00bfff"
    case Shore => "#ffff00"
    case Lowland => "#008000"
    case Highland => "#a0522d"
    case Mountain => "#ffffff"
  }

  /** Position in the order deep ocean, shallow water, shore, lowland, highland, mountain. */
  function Rank(t: Terrain): nat
  {
    match t
    case DeepOcean => 0
    case ShallowWater => 1
    case Shore => 2
    case Lowland => 3
    case Highland => 4
    case Mountain => 5
  }

  /** Upper cut-offs of the first five bands, relative to the largest distance. */
  const Cutoffs: seq<real> := [0.2, 0.4, 0.6, 0.8, 1.0]

  /** The `if`/`elif` chain over the cut-offs, each inclusive at its upper end. */
  function Band(normalized: real): (t: Terrain)
    ensures Rank(t) < 5 ==> normalized <= Cutoffs[Rank(t)]
    ensures 0 < Rank(t) ==> normalized > Cutoffs[Rank(t) - 1]
  {
    if normalized <= Cutoffs[0] then DeepOcean
    else if normalized <= Cutoffs[1] then ShallowWater
    else if normalized <= Cutoffs[2] then Shore
    else if normalized <= Cutoffs[3] then Lowland
    else if normalized <= Cutoffs[4] then Highland
    else Mountain
  }

  /**
   * The band of one vertex. When the largest distance is 0, `dist / max_distance`
   * is NaN, every comparison with it is false, and the vertex is a mountain.
   */
  function Classify(dist: real, maxDistance: real): (r: Terrain)
    ensures maxDistance == 0.0 ==> r == Mountain
    ensures 0.0 < maxDistance && dist <= 0.0 ==> r == DeepOcean
    ensures 0.0 < maxDistance && dist == maxDistance ==> r == Highland
  {
    if maxDistance == 0.0 then Mountain else Band(dist / maxDistance)
  }

  predicate NonNegative(ds: seq<real>)
  {
    forall i :: 0 <= i < |ds| ==> 0.0 <= ds[i]
  }

  /** A farther vertex never gets an earlier band. */
  lemma BandMonotone(a: real, b: real)
    requires a <= b
    ensures Rank(Band(a)) <= Rank(Band(b))
  {
  }

  /**
   * Each cut-off belongs to the band below it: 0.2 is deep ocean and 1.0 is
   * highland; only values above 1.0 are mountains.
   */
  lemma BandCutoffs(x: real)
    ensures Band(0.2) == DeepOcean && Band(0.4) == ShallowWater && Band(0.6) == Shore
    ensures Band(0.8) == Lowland && Band(1.0) == Highland
    ensures Band(x) == Mountain <==> x > 1.0
  {
  }

  /** The colouring loop: one colour per distance, in order. np.max of no distances raises. */
  method ColorVertices(distances: seq<real>) returns (r: Option<seq<string>>)
    requires NonNegative(distances)
    ensures distances == [] <==> r.None?
    ensures r.Some? ==> |r.value| == |distances|
    ensures r.Some? ==> forall i :: 0 <= i < |distances| ==> r.value[i] == Hex(Classify(distances[i], MaxReal(distances)))
  {
    if distances == [] {
      return None;
    }
    var maxDistance := MaxReal(distances);
    var colors: seq<string> := [];
    for i := 0 to |distances|
      invariant |colors| == i
      invariant forall k :: 0 <= k < i ==> colors[k] == Hex(Classify(distances[k], maxDistance))
    {
      colors := colors + [Hex(Classify(distances[i], maxDistance))];
    }
    return Some(colors);
  }

  /**
   * With a positive largest distance no vertex is a mountain, the bands follow
   * the distances' order, and a vertex at the largest distance is highland.
   * With largest distance 0 every vertex is a mountain.
   */
  lemma ClassifyShape(distances: seq<real>, i: nat, j: nat)
    requires NonNegative(distances) && i < |distances| && j < |distances|
    ensures var m := MaxReal(distances);
      (m > 0.0 ==> Classify(distances[i], m) != Mountain) &&
      (m > 0.0 && distances[i] <= distances[j] ==> Rank(Classify(distances[i], m)) <= Rank(Classify(distances[j], m))) &&
      (m > 0.0 && distances[i] == m ==> Classify(distances[i], m) == Highland) &&
      (m == 0.0 ==> Classify(distances[i], m) == Mountain)
  {
    var m := MaxReal(distances);
    if m > 0.0 {
      var di, dj := distances[i], distances[j];
      Ratio(di, m);
      if di <= dj {
        RatioMono(di, dj, m);
        BandMonotone(di / m, dj / m);
      }
    }
  }

  /** A distance up to the largest one, divided by it, lies in [0, 1] and is 1 at the largest. */
  lemma Ratio(d: real, m: real)
    requires 0.0 <= d <= m && m > 0.0
    ensures 0.0 <= d / m <= 1.0
    ensures d == m ==> d / m == 1.0
  {
  }

  lemma RatioMono(a: real, b: real, m: real)
    requires a <= b && m > 0.0
    ensures a / m <= b / m
  {
  }

  // ---------------------------------------------------------------------
  // Painting the triangles
  // ---------------------------------------------------------------------

  /** As written: triangle `i` is painted with `colors[i]`, the colour of flattened vertex `i`. */
  function FaceColorsAsWritten(colors: seq<string>, triangles: nat): (r: seq<string>)
    requires 3 * triangles == |colors|
    ensures |r| == triangles
    ensures forall i :: 0 <= i < triangles ==> r[i] == colors[i]
  {
    colors[..triangles]
  }

  /** Corrected: triangle `i` is painted with the colour of its own first vertex, `colors[3 * i]`. */
  function FaceColors(colors: seq<string>, triangles: nat): (r: seq<string>)
    requires 3 * triangles == |colors|
    ensures |r| == triangles
  {
    seq(triangles, i requires 0 <= i < triangles => colors[3 * i])
  }

  /** Under the corrected painting every triangle wears the colour of one of its own three vertices. */
  lemma FaceColorsOwnVertex(colors: seq<string>, triangles: nat, i: nat)
    requires 3 * triangles == |colors| && i < triangles
    ensures exists v :: 3 * i <= v < 3 * i + 3 && FaceColors(colors, triangles)[i] == colors[v]
  {
    assert FaceColors(colors, triangles)[i] == colors[3 * i];
  }

  /**
   * Two triangles, the first with all three vertices at the largest distance
   * and the second with all three near the centre: as written the second is
   * painted highland (the colour of the first triangle's second vertex),
   * although each of its vertices is deep ocean.
   */
  lemma FaceColorsMismatch()
    ensures var ds := [1.0, 1.0, 1.0, 0.1, 0.1, 0.1];
      var colors := seq(6, k requires 0 <= k < 6 => Hex(Classify(ds[k], MaxReal(ds))));
      FaceColorsAsWritten(colors, 2)[1] == Hex(Highland) &&
      (forall v :: 3 <= v < 6 ==> colors[v] == Hex(DeepOcean)) &&
      FaceColors(colors, 2)[1] == Hex(DeepOcean)
  {
    var ds := [1.0, 1.0, 1.0, 0.1, 0.1, 0.1];
    assert MaxReal(ds) == 1.0 by {
      assert ds[0] == 1.0;
      assert forall i :: 0 <= i < 6 ==> ds[i] <= 1.0;
    }
  }
}
