/**
 * `create_uv_mapped_sphere`: read the configuration, build the UV fabric
 * from its tiles, export the fabric, then project it onto the sphere and
 * export that. Reading the JSON file and the two exports are I/O; the model
 * takes the parsed configuration (None when reading failed) and returns the
 * meshes that would be exported.
 */
module UvSphere {
  import opened Outcomes
  import opened Geometry
  import opened Sphere
  import opened UvFabric
  import opened UvProjection

  /** The parsed configuration: `rows` and `cols` are optional keys, `tiles` maps indices to tile files. */
  datatype Config = Config(rows: Option<int>, cols: Option<int>, tiles: seq<TileEntry>)

  /** What one run exports: the fabric once it is built, and the sphere or the error that stopped the run. */
  datatype SphereRun = SphereRun(fabric: Option<Mesh>, sphere: Result<Mesh, FabricError>)

  /** `generate_uv_fabric` is called without a margin, so its default applies. */
  const FabricMargin: real := 20.0

  /** `config.get(key, 1)`. */
  function GetOr(o: Option<int>, default: int): (r: int)
    ensures o.Some? ==> r == o.value
    ensures o.None? ==> r == default
  {
    match o
    case Some(v) => v
    case None => default
  }

  /** Every tile mesh that loads is well formed (a property of the mesh loader). */
  predicate TilesWellFormed(tiles: seq<TileEntry>)
  {
    forall i :: 0 <= i < |tiles| && tiles[i].load.Some? ==> WellFormed(tiles[i].load.value)
  }

  /** A fabric that builds from loadable, well-formed tiles is well formed. */
  lemma FabricOkWellFormed(tiles: seq<TileEntry>, rows: int, cols: int, margin: real, key: Vec3 -> Vec3)
    requires TilesWellFormed(tiles)
    ensures UvFabricOf(tiles, rows, cols, margin, key).Ok? ==> WellFormed(UvFabricOf(tiles, rows, cols, margin, key).value)
  {
    if rows != 0 && cols != 0 && Build(tiles, rows, cols, margin, key).Ok? {
      BuildShape(tiles, rows, cols, margin, key);
      FabricWellFormed(tiles, rows, cols, margin, key);
    }
  }

  /**
   * The run: an unreadable configuration and an empty tile mapping stop it
   * before any geometry; a fabric error stops it before the fabric export;
   * otherwise the fabric is exported and the projection's outcome follows.
   * `how` chooses the projection's reindexing: `AsWritten` is the driver as
   * it stands, `FromFabric` the corrected one.
   */
  function UvMappedSphere(config: Option<Config>, radius: real, key: Vec3 -> Vec3, t: Trig, how: Reindexing): (r: SphereRun)
    requires config.Some? ==> TilesWellFormed(config.value.tiles)
    ensures config.None? ==> r == SphereRun(None, Err(ConfigUnreadable))
    ensures config.Some? && config.value.tiles == [] ==> r == SphereRun(None, Err(NoTiles))
    ensures r.sphere.Ok? ==> r.fabric.Some?
    ensures r.fabric.None? ==> r.sphere.Err?
  {
    match config
    case None => SphereRun(None, Err(ConfigUnreadable))
    case Some(c) =>
      var rows, cols := GetOr(c.rows, 1), GetOr(c.cols, 1);
      if c.tiles == [] then SphereRun(None, Err(NoTiles))
      else
        match UvFabricOf(c.tiles, rows, cols, FabricMargin, key)
        case Err(e) => SphereRun(None, Err(e))
        case Ok(fabric) =>
          FabricOkWellFormed(c.tiles, rows, cols, FabricMargin, key);
          SphereRun(Some(fabric), ProjectionOf(fabric, rows, cols, radius, t, how))
  }

  /**
   * Both exported meshes are well formed; the fabric is exported exactly when
   * the configuration is readable, has tiles and every tile loads, and then
   * it holds one copy of each tile's faces. With the corrected reindexing the
   * run never stops on an out-of-range index.
   */
  lemma UvMappedSphereShape(config: Option<Config>, radius: real, key: Vec3 -> Vec3, t: Trig, how: Reindexing)
    requires config.Some? ==> TilesWellFormed(config.value.tiles)
    ensures var r := UvMappedSphere(config, radius, key, t, how);
      (r.fabric.Some? ==> WellFormed(r.fabric.value)) && (r.sphere.Ok? ==> WellFormed(r.sphere.value))
    ensures UvMappedSphere(config, radius, key, t, how).fabric.Some? <==>
      config.Some? && config.value.tiles != [] && GetOr(config.value.rows, 1) != 0 && GetOr(config.value.cols, 1) != 0 &&
      AllLoaded(config.value.tiles)
    ensures UvMappedSphere(config, radius, key, t, how).fabric.Some? ==>
      UvMappedSphere(config, radius, key, t, how).fabric.value.faces == Concat(LoadedMeshes(config.value.tiles)).faces
    ensures how == FromFabric ==> UvMappedSphere(config, radius, key, t, how).sphere != Err(IndexOutOfBounds)
  {
    if config.Some? {
      var c := config.value;
      var rows, cols := GetOr(c.rows, 1), GetOr(c.cols, 1);
      FabricOkWellFormed(c.tiles, rows, cols, FabricMargin, key);
      if rows != 0 && cols != 0 {
        BuildShape(c.tiles, rows, cols, FabricMargin, key);
        BuildErrIsLoad(c.tiles, rows, cols, FabricMargin, key);
      }
      var fab := UvFabricOf(c.tiles, rows, cols, FabricMargin, key);
      if c.tiles != [] && fab.Ok? {
        ProjectionWellFormed(fab.value, rows, cols, radius, t, how);
      }
    }
  }

  /** `create_uv_mapped_sphere`, the two exports returned instead of written. */
  method CreateUvMappedSphere(config: Option<Config>, radius: real, key: Vec3 -> Vec3, t: Trig, how: Reindexing) returns (r: SphereRun)
    requires config.Some? ==> TilesWellFormed(config.value.tiles)
    ensures r == UvMappedSphere(config, radius, key, t, how)
  {
    if config.None? {
      return SphereRun(None, Err(ConfigUnreadable));
    }
    var c := config.value;
    var rows := GetOr(c.rows, 1);
    var cols := GetOr(c.cols, 1);
    if c.tiles == [] {
      return SphereRun(None, Err(NoTiles));
    }
    var fabric := GenerateUvFabric(c.tiles, rows, cols, FabricMargin, key);
    if fabric.Err? {
      return SphereRun(None, Err(fabric.error));
    }
    FabricOkWellFormed(c.tiles, rows, cols, FabricMargin, key);
    var sphere := ProjectUvToSphere(fabric.value, radius, rows, cols, t, how);
    return SphereRun(Some(fabric.value), sphere);
  }

  /** A key that tells every point apart. */
  function Exact(v: Vec3): Vec3
  {
    v
  }

  /** One triangle in the unit square. */
  const SplitTile: Mesh := Mesh([Vec3(0.2, 0.1, 0.0), Vec3(0.4, 0.1, 0.0), Vec3(0.2, 0.2, 0.0)], [Face(0, 1, 2)])

  /** A one-row, two-column grid holding the same tile in both cells. */
  const SplitConfig: Config := Config(Some(1), Some(2), [TileEntry(0, Some(SplitTile)), TileEntry(1, Some(SplitTile))])

  /** The tile's copy in cell 0 of the grid. */
  lemma SplitTileLeft()
    ensures PlacedVertices(SplitTile, 0, 1, 2) == [Vec3(0.1, 0.1, 0.0), Vec3(0.2, 0.1, 0.0), Vec3(0.1, 0.2, 0.0)]
  {
    var p := PlacedVertices(SplitTile, 0, 1, 2);
    assert FloorDiv(0, 2) == 0 && FloorMod(0, 2) == 0;
    assert p[0] == Vec3(0.1, 0.1, 0.0);
    assert p[1] == Vec3(0.2, 0.1, 0.0);
    assert p[2] == Vec3(0.1, 0.2, 0.0);
  }

  /** The tile's copy in cell 1 of the grid. */
  lemma SplitTileRight()
    ensures PlacedVertices(SplitTile, 1, 1, 2) == [Vec3(0.6, 0.1, 0.0), Vec3(0.7, 0.1, 0.0), Vec3(0.6, 0.2, 0.0)]
  {
    var p := PlacedVertices(SplitTile, 1, 1, 2);
    assert FloorDiv(1, 2) == 0 && FloorMod(1, 2) == 1;
    assert p[0] == Vec3(0.6, 0.1, 0.0);
    assert p[1] == Vec3(0.7, 0.1, 0.0);
    assert p[2] == Vec3(0.6, 0.2, 0.0);
  }

  /** The first copy's points are the keys of the map it leaves. */
  lemma SplitFirstKeys(margin: real)
    ensures MergeAll(PlacedVertices(SplitTile, 0, 1, 2), map[], margin, Exact).1.Keys ==
      {Vec3(0.1, 0.1, 0.0), Vec3(0.2, 0.1, 0.0), Vec3(0.1, 0.2, 0.0)}
  {
    var p0 := PlacedVertices(SplitTile, 0, 1, 2);
    SplitTileLeft();
    MergeAllKeys(p0, map[], margin, Exact);
    var keys := set i | 0 <= i < |p0| :: Exact(p0[i]);
    assert Exact(p0[0]) in keys && Exact(p0[1]) in keys && Exact(p0[2]) in keys;
    assert keys == {p0[0], p0[1], p0[2]};
  }

  /** After the first tile: its copy unmerged, and the map holding its three points. */
  lemma SplitFirstTile(margin: real)
    ensures var b := Build(SplitConfig.tiles[..1], 1, 2, margin, Exact);
      b.Ok? && b.value.mesh == Mesh(PlacedVertices(SplitTile, 0, 1, 2), [Face(0, 1, 2)]) &&
      b.value.seams.Keys == {Vec3(0.1, 0.1, 0.0), Vec3(0.2, 0.1, 0.0), Vec3(0.1, 0.2, 0.0)}
  {
    var tiles := SplitConfig.tiles;
    var p0 := PlacedVertices(SplitTile, 0, 1, 2);
    var merged := MergeAll(p0, map[], margin, Exact);
    assert merged.0 == p0 by {
      SplitTileLeft();
      MergeAllFresh(p0, map[], margin, Exact);
    }
    assert Build(tiles[..1], 1, 2, margin, Exact) == Ok(FabricState(Append(EmptyMesh, Mesh(merged.0, SplitTile.faces)), merged.1)) by {
      assert tiles[..0] == [];
      BuildStep(tiles, 0, 1, 2, margin, Exact);
    }
    SplitFirstKeys(margin);
  }

  /** The second copy meets none of the first copy's points, so it merges unchanged. */
  lemma SplitSecondMerge(margin: real)
    ensures var b := Build(SplitConfig.tiles[..1], 1, 2, margin, Exact);
      b.Ok? && b.value.mesh == Mesh(PlacedVertices(SplitTile, 0, 1, 2), SplitTile.faces) &&
      MergeAll(PlacedVertices(SplitTile, 1, 1, 2), b.value.seams, margin, Exact).0 == PlacedVertices(SplitTile, 1, 1, 2)
  {
    SplitFirstTile(margin);
    SplitTileRight();
    var st := Build(SplitConfig.tiles[..1], 1, 2, margin, Exact).value;
    MergeAllFresh(PlacedVertices(SplitTile, 1, 1, 2), st.seams, margin, Exact);
  }

  /** After the second tile: its copy appended unmerged, so the stacked mesh is UvProjection.SplitFabric. */
  lemma SplitSecondTile(margin: real)
    ensures var b := Build(SplitConfig.tiles, 1, 2, margin, Exact); b.Ok? && b.value.mesh == SplitFabric
  {
    var tiles := SplitConfig.tiles;
    var p0, p1 := PlacedVertices(SplitTile, 0, 1, 2), PlacedVertices(SplitTile, 1, 1, 2);
    SplitSecondMerge(margin);
    var st := Build(tiles[..1], 1, 2, margin, Exact).value;
    var merged := MergeAll(p1, st.seams, margin, Exact);
    assert Build(tiles, 1, 2, margin, Exact) == Ok(FabricState(Append(st.mesh, Mesh(merged.0, SplitTile.faces)), merged.1)) by {
      BuildStep(tiles, 1, 1, 2, margin, Exact);
      assert tiles[..2] == tiles;
    }
    assert Append(Mesh(p0, SplitTile.faces), Mesh(p1, SplitTile.faces)) == SplitFabric by {
      SplitTileLeft();
      SplitTileRight();
      assert ShiftAll([Face(0, 1, 2)], 3) == [Face(3, 4, 5)];
    }
  }

  /** The two copies of the tile share no vertex, so nothing merges: the fabric is UvProjection.SplitFabric. */
  lemma SplitConfigFabric(margin: real)
    ensures UvFabricOf(SplitConfig.tiles, 1, 2, margin, Exact) == Ok(SplitFabric)
  {
    SplitSecondTile(margin);
  }

  /**
   * The driver as written can fail where the corrected one succeeds: on
   * SplitConfig it exports the fabric and then stops on an out-of-range index.
   */
  lemma DriverIndexError(radius: real, t: Trig)
    ensures TilesWellFormed(SplitConfig.tiles)
    ensures UvMappedSphere(Some(SplitConfig), radius, Exact, t, AsWritten) == SphereRun(Some(SplitFabric), Err(IndexOutOfBounds))
    ensures UvMappedSphere(Some(SplitConfig), radius, Exact, t, FromFabric).sphere.Ok?
  {
    SplitConfigFabric(FabricMargin);
    SplitFabricIndexError(radius, t);
  }
}
