/**
 * The UV fabric (`generate_uv_fabric`): every configured tile is loaded,
 * rescaled from its local unit square into its grid cell, seam-merged
 * against a running map from rounded positions to the last vertex stored
 * there, and stacked with a running vertex offset.
 *
 * The rounding of a position to six decimals is the `key` parameter; the
 * Euclidean distance test `norm(v - q) <= margin` is the equivalent
 * `0 <= margin && |v - q|^2 <= margin^2`.
 */
module UvFabric {
  import opened Outcomes
  import opened Geometry

  /** One item of the configuration's `tiles` mapping: its index and the outcome of loading its path. */
  datatype TileEntry = TileEntry(index: int, load: Option<Mesh>)

  datatype FabricError =
    | ConfigUnreadable         // the JSON configuration could not be read
    | NoTiles                  // the configuration has no tiles
    | DivisionByZero           // rows or cols is 0
    | TileLoadFailed(index: int)
    | NothingToStack           // np.vstack of an empty list
    | IndexOutOfBounds         // the reindexing of a projected cell indexes past its masked vertices
    | NegativeSampleCount      // np.linspace asked for fewer than zero edges (rows or cols below -1)

  /** The cell (FloorDiv(index, cols), FloorMod(index, cols)) of a tile index inside the grid is inside the grid. */
  lemma TileCell(index: int, rows: int, cols: int)
    requires rows > 0 && cols > 0 && 0 <= index < rows * cols
    ensures 0 <= FloorDiv(index, cols) < rows && 0 <= FloorMod(index, cols) < cols
    ensures index == FloorDiv(index, cols) * cols + FloorMod(index, cols)
  {
    var q := FloorDiv(index, cols);
    if q >= rows {
      MulMonoRight(rows, q, cols);
    }
    if q < 0 {
      MulMonoRight(q, -1, cols);
    }
  }

  /**
   * A tile-local vertex moved into cell (row, col): x' = x / cols + col / cols,
   * y' = y / rows + row / rows, z unchanged. A point of the unit square lands
   * in the cell's rectangle [col/cols, (col+1)/cols] x [row/rows, (row+1)/rows].
   */
  function Place(v: Vec3, row: int, col: int, rows: int, cols: int): (r: Vec3)
    requires rows != 0 && cols != 0
    ensures r.z == v.z
    ensures rows > 0 && cols > 0 && 0.0 <= v.x <= 1.0 ==> col as real / cols as real <= r.x <= (col + 1) as real / cols as real
    ensures rows > 0 && cols > 0 && 0.0 <= v.y <= 1.0 ==> row as real / rows as real <= r.y <= (row + 1) as real / rows as real
  {
    var w := 1.0 / cols as real;
    var h := 1.0 / rows as real;
    ScaleInto(v.x, col, cols);
    ScaleInto(v.y, row, rows);
    Vec3(v.x * w + col as real * w, v.y * h + row as real * h, v.z)
  }

  lemma ScaleInto(s: real, k: int, n: int)
    requires n != 0
    ensures n > 0 && 0.0 <= s <= 1.0 ==>
      k as real / n as real <= s * (1.0 / n as real) + k as real * (1.0 / n as real) <= (k + 1) as real / n as real
  {
    var w := 1.0 / n as real;
    assert k as real / n as real == k as real * w;
    assert (k + 1) as real / n as real == k as real * w + w;
    if n > 0 && 0.0 <= s <= 1.0 {
      assert 0.0 <= s * w <= w by {
        assert w - s * w == (1.0 - s) * w;
      }
    }
  }

  function SquaredDistance(a: Vec3, b: Vec3): real
  {
    (a.x - b.x) * (a.x - b.x) + (a.y - b.y) * (a.y - b.y) + (a.z - b.z) * (a.z - b.z)
  }

  /** `np.linalg.norm(a - b) <= margin`, squared. */
  predicate WithinMargin(a: Vec3, b: Vec3, margin: real)
  {
    0.0 <= margin && SquaredDistance(a, b) <= margin * margin
  }

  function Midpoint(a: Vec3, b: Vec3): Vec3
  {
    Vec3((a.x + b.x) / 2.0, (a.y + b.y) / 2.0, (a.z + b.z) / 2.0)
  }

  /**
   * The seam merge of one vertex against the running map: if its key is
   * present and the stored point is within the margin, the midpoint of the
   * two; otherwise the vertex itself. Either way it moves by at most half
   * the margin.
   */
  function MergeVertex(v: Vec3, seams: map<Vec3, Vec3>, margin: real, key: Vec3 -> Vec3): (r: Vec3)
    ensures key(v) !in seams ==> r == v
    ensures key(v) in seams && !WithinMargin(v, seams[key(v)], margin) ==> r == v
    ensures key(v) in seams && WithinMargin(v, seams[key(v)], margin) ==> r == Midpoint(v, seams[key(v)])
    ensures 0.0 <= margin ==> 4.0 * SquaredDistance(r, v) <= margin * margin
  {
    var k := key(v);
    if k in seams && WithinMargin(v, seams[k], margin) then
      HalfwayDistance(v, seams[k]);
      Midpoint(v, seams[k])
    else
      assert SquaredDistance(v, v) == 0.0;
      assert 0.0 <= margin ==> 0.0 <= margin * margin by { SquareNonNeg(margin); }
      v
  }

  lemma SquareNonNeg(m: real)
    ensures 0.0 <= m * m
  {
  }

  /** The midpoint is a quarter of the squared distance away from either end. */
  lemma HalfwayDistance(a: Vec3, b: Vec3)
    ensures 4.0 * SquaredDistance(Midpoint(a, b), a) == SquaredDistance(a, b)
    ensures SquaredDistance(Midpoint(a, b), a) == SquaredDistance(Midpoint(a, b), b)
  {
  }

  /**
   * The inner enumerate loop over one tile's rescaled vertices: each vertex
   * is merged against the map as left by the vertices before it, and the
   * map entry under its key is then overwritten with the merged vertex.
   */
  function MergeAll(vs: seq<Vec3>, seams: map<Vec3, Vec3>, margin: real, key: Vec3 -> Vec3): (r: (seq<Vec3>, map<Vec3, Vec3>))
    ensures |r.0| == |vs|
    ensures vs != [] ==> key(vs[|vs| - 1]) in r.1 && r.1[key(vs[|vs| - 1])] == r.0[|vs| - 1]
  {
    if vs == [] then ([], seams)
    else
      var p := MergeAll(vs[..|vs| - 1], seams, margin, key);
      var v := vs[|vs| - 1];
      var w := MergeVertex(v, p.1, margin, key);
      (p.0 + [w], p.1[key(v) := w])
  }

  /** After a tile, the map holds exactly the old keys plus the keys of the tile's vertices. */
  lemma {:induction false} MergeAllKeys(vs: seq<Vec3>, seams: map<Vec3, Vec3>, margin: real, key: Vec3 -> Vec3)
    ensures MergeAll(vs, seams, margin, key).1.Keys == seams.Keys + set i | 0 <= i < |vs| :: key(vs[i])
  {
    if vs != [] {
      var n := |vs| - 1;
      MergeAllKeys(vs[..n], seams, margin, key);
      var before := set i | 0 <= i < n :: key(vs[..n][i]);
      var after := set i | 0 <= i < |vs| :: key(vs[i]);
      assert after == before + {key(vs[n])} by {
        forall k | k in after ensures k in before + {key(vs[n])} {
          var i :| 0 <= i < |vs| && k == key(vs[i]);
          if i < n { assert vs[..n][i] == vs[i]; }
        }
        forall k | k in before ensures k in after {
          var i :| 0 <= i < n && k == key(vs[..n][i]);
          assert vs[..n][i] == vs[i];
        }
      }
    }
  }

  /** With a non-negative margin, every merged vertex lies within half the margin of its rescaled position. */
  lemma {:induction false} MergeAllMovesLittle(vs: seq<Vec3>, seams: map<Vec3, Vec3>, margin: real, key: Vec3 -> Vec3)
    requires 0.0 <= margin
    ensures forall i :: 0 <= i < |vs| ==> 4.0 * SquaredDistance(MergeAll(vs, seams, margin, key).0[i], vs[i]) <= margin * margin
  {
    if vs != [] {
      var n := |vs| - 1;
      MergeAllMovesLittle(vs[..n], seams, margin, key);
      var r := MergeAll(vs, seams, margin, key).0;
      forall i | 0 <= i < |vs| ensures 4.0 * SquaredDistance(r[i], vs[i]) <= margin * margin {
        if i < n { assert vs[..n][i] == vs[i]; }
      }
    }
  }

  /** Merged vertex i is vertex i merged against the map as the vertices before it left it. */
  lemma {:induction false} MergeAllAt(vs: seq<Vec3>, seams: map<Vec3, Vec3>, margin: real, key: Vec3 -> Vec3, i: nat)
    requires i < |vs|
    ensures MergeAll(vs, seams, margin, key).0[i] == MergeVertex(vs[i], MergeAll(vs[..i], seams, margin, key).1, margin, key)
    decreases |vs|
  {
    var n := |vs| - 1;
    if i == n {
      assert vs[..i] == vs[..n];
    } else {
      var p := vs[..n];
      MergeAllAt(p, seams, margin, key, i);
      assert p[..i] == vs[..i] && p[i] == vs[i];
    }
  }

  /** Vertices whose keys are new to the map and pairwise distinct meet no seam: the merge leaves them all in place. */
  lemma {:induction false} MergeAllFresh(vs: seq<Vec3>, seams: map<Vec3, Vec3>, margin: real, key: Vec3 -> Vec3)
    requires forall i :: 0 <= i < |vs| ==> key(vs[i]) !in seams
    requires forall i, j :: 0 <= i < j < |vs| ==> key(vs[i]) != key(vs[j])
    ensures MergeAll(vs, seams, margin, key).0 == vs
    decreases |vs|
  {
    if vs != [] {
      var n := |vs| - 1;
      var p := vs[..n];
      var q := MergeAll(p, seams, margin, key);
      assert q.0 == p by {
        MergeAllFresh(p, seams, margin, key);
      }
      assert key(vs[n]) !in q.1 by {
        MergeAllKeys(p, seams, margin, key);
        forall i | 0 <= i < |p| ensures key(p[i]) != key(vs[n]) {
          assert p[i] == vs[i];
        }
      }
      assert p + [vs[n]] == vs;
    }
  }

  /** The running fabric: the stacked mesh so far and the seam map. */
  datatype FabricState = FabricState(mesh: Mesh, seams: map<Vec3, Vec3>)

  /** A loaded tile's vertices rescaled into the cell of its index. */
  function PlacedVertices(tile: Mesh, index: int, rows: int, cols: int): (r: seq<Vec3>)
    requires rows != 0 && cols != 0
    ensures |r| == |tile.vertices|
    ensures forall i :: 0 <= i < |r| ==> r[i] == Place(tile.vertices[i], FloorDiv(index, cols), FloorMod(index, cols), rows, cols)
  {
    var row, col := FloorDiv(index, cols), FloorMod(index, cols);
    seq(|tile.vertices|, i requires 0 <= i < |tile.vertices| => Place(tile.vertices[i], row, col, rows, cols))
  }

  /**
   * Tile `index` of the grid lands in cell (index // cols, index % cols): a
   * vertex of the unit square moves into that cell's rectangle, height kept.
   */
  lemma PlacedInCell(tile: Mesh, index: int, rows: int, cols: int, i: nat)
    requires rows > 0 && cols > 0 && 0 <= index < rows * cols && i < |tile.vertices|
    requires 0.0 <= tile.vertices[i].x <= 1.0 && 0.0 <= tile.vertices[i].y <= 1.0
    ensures var r, row, col := PlacedVertices(tile, index, rows, cols)[i], FloorDiv(index, cols), FloorMod(index, cols);
      0 <= row < rows && 0 <= col < cols && index == row * cols + col &&
      col as real / cols as real <= r.x <= (col + 1) as real / cols as real &&
      row as real / rows as real <= r.y <= (row + 1) as real / rows as real &&
      r.z == tile.vertices[i].z
  {
    TileCell(index, rows, cols);
  }

  /** The tile loop over the configured items in mapping order; the first unloadable tile aborts with its index. */
  function Build(tiles: seq<TileEntry>, rows: int, cols: int, margin: real, key: Vec3 -> Vec3): (r: Result<FabricState, FabricError>)
    requires rows != 0 && cols != 0
    ensures r.Err? ==> r.error.TileLoadFailed?
  {
    if tiles == [] then Ok(FabricState(EmptyMesh, map[]))
    else match Build(tiles[..|tiles| - 1], rows, cols, margin, key)
      case Err(e) => Err(e)
      case Ok(st) =>
        var entry := tiles[|tiles| - 1];
        if entry.load.None? then Err(TileLoadFailed(entry.index))
        else
          var tile := entry.load.value;
          var merged := MergeAll(PlacedVertices(tile, entry.index, rows, cols), st.seams, margin, key);
          Ok(FabricState(Append(st.mesh, Mesh(merged.0, tile.faces)), merged.1))
  }

  /** What `generate_uv_fabric` returns, or the error it raises. */
  function UvFabricOf(tiles: seq<TileEntry>, rows: int, cols: int, margin: real, key: Vec3 -> Vec3): (r: Result<Mesh, FabricError>)
    ensures rows == 0 || cols == 0 ==> r == Err(DivisionByZero)
    ensures rows != 0 && cols != 0 && tiles == [] ==> r == Err(NothingToStack)
    ensures r.Err? ==> r.error == DivisionByZero || r.error == NothingToStack || r.error.TileLoadFailed?
  {
    if rows == 0 || cols == 0 then Err(DivisionByZero)
    else match Build(tiles, rows, cols, margin, key)
      case Err(e) => Err(e)
      case Ok(st) => if tiles == [] then Err(NothingToStack) else Ok(st.mesh)
  }

  /** Once the tile loop has failed, later tiles do not change the error. */
  lemma {:induction false} BuildErrSticky(tiles: seq<TileEntry>, k: nat, rows: int, cols: int, margin: real, key: Vec3 -> Vec3)
    requires rows != 0 && cols != 0 && k <= |tiles|
    requires Build(tiles[..k], rows, cols, margin, key).Err?
    ensures Build(tiles, rows, cols, margin, key) == Build(tiles[..k], rows, cols, margin, key)
    decreases |tiles| - k
  {
    if k < |tiles| {
      var p := tiles[..k + 1];
      assert p[..k] == tiles[..k];
      BuildErrSticky(tiles, k + 1, rows, cols, margin, key);
    } else {
      assert tiles[..k] == tiles;
    }
  }

  /** The tile loop fails only with the index of a configured tile that did not load. */
  lemma {:induction false} BuildErrIsLoad(tiles: seq<TileEntry>, rows: int, cols: int, margin: real, key: Vec3 -> Vec3)
    requires rows != 0 && cols != 0
    ensures Build(tiles, rows, cols, margin, key).Err? ==>
      exists i :: 0 <= i < |tiles| && tiles[i].load.None? && Build(tiles, rows, cols, margin, key).error == TileLoadFailed(tiles[i].index)
    decreases |tiles|
  {
    if tiles != [] {
      var n := |tiles| - 1;
      var p := tiles[..n];
      BuildErrIsLoad(p, rows, cols, margin, key);
      if Build(p, rows, cols, margin, key).Err? {
        var i :| 0 <= i < |p| && p[i].load.None? && Build(p, rows, cols, margin, key).error == TileLoadFailed(p[i].index);
        assert tiles[i] == p[i];
      }
    }
  }

  /** The loaded tile meshes in configuration order (an unloadable tile contributes nothing). */
  function LoadedMeshes(tiles: seq<TileEntry>): (r: seq<Mesh>)
    ensures |r| == |tiles|
  {
    seq(|tiles|, i requires 0 <= i < |tiles| => if tiles[i].load.Some? then tiles[i].load.value else EmptyMesh)
  }

  predicate AllLoaded(tiles: seq<TileEntry>)
  {
    forall i :: 0 <= i < |tiles| ==> tiles[i].load.Some?
  }

  /**
   * The tile loop succeeds exactly when every tile loads, and then the fabric
   * has the faces and vertex count of the loaded tiles stacked with their
   * running offsets: the seam merge moves vertices but never adds, drops or
   * renumbers any.
   */
  lemma {:induction false} BuildShape(tiles: seq<TileEntry>, rows: int, cols: int, margin: real, key: Vec3 -> Vec3)
    requires rows != 0 && cols != 0
    ensures Build(tiles, rows, cols, margin, key).Ok? <==> AllLoaded(tiles)
    ensures Build(tiles, rows, cols, margin, key).Ok? ==>
      Build(tiles, rows, cols, margin, key).value.mesh.faces == Concat(LoadedMeshes(tiles)).faces &&
      |Build(tiles, rows, cols, margin, key).value.mesh.vertices| == |Concat(LoadedMeshes(tiles)).vertices|
  {
    if tiles != [] {
      var n := |tiles| - 1;
      var p := tiles[..n];
      BuildShape(p, rows, cols, margin, key);
      assert LoadedMeshes(tiles) == LoadedMeshes(p) + [LoadedMeshes(tiles)[n]];
      ConcatSnoc(LoadedMeshes(p), LoadedMeshes(tiles)[n]);
      if AllLoaded(tiles) {
        assert AllLoaded(p) by {
          forall i | 0 <= i < |p| ensures p[i].load.Some? { assert p[i] == tiles[i]; }
        }
      } else if AllLoaded(p) {
        assert tiles[n].load.None? by {
          forall i | 0 <= i < |tiles| && i < n ensures tiles[i].load.Some? { assert p[i] == tiles[i]; }
        }
      } else {
        assert !AllLoaded(tiles);
      }
    }
  }

  /** Given well-formed tiles, every fabric face index is below the fabric vertex count. */
  lemma FabricWellFormed(tiles: seq<TileEntry>, rows: int, cols: int, margin: real, key: Vec3 -> Vec3)
    requires rows != 0 && cols != 0
    requires forall i :: 0 <= i < |tiles| ==> tiles[i].load.Some? && WellFormed(tiles[i].load.value)
    ensures Build(tiles, rows, cols, margin, key).Ok?
    ensures WellFormed(Build(tiles, rows, cols, margin, key).value.mesh)
  {
    BuildShape(tiles, rows, cols, margin, key);
    var ms := LoadedMeshes(tiles);
    ConcatWellFormed(ms);
  }

  /** The first unloadable tile in mapping order aborts the build with its own index. */
  lemma FirstFailure(tiles: seq<TileEntry>, k: nat, rows: int, cols: int, margin: real, key: Vec3 -> Vec3)
    requires rows != 0 && cols != 0
    requires k < |tiles| && tiles[k].load.None?
    requires forall i :: 0 <= i < k ==> tiles[i].load.Some?
    ensures Build(tiles, rows, cols, margin, key) == Err(TileLoadFailed(tiles[k].index))
  {
    var p := tiles[..k];
    BuildShape(p, rows, cols, margin, key);
    assert AllLoaded(p) by {
      forall i | 0 <= i < |p| ensures p[i].load.Some? { assert p[i] == tiles[i]; }
    }
    var q := tiles[..k + 1];
    assert q[..k] == p;
    BuildErrSticky(tiles, k + 1, rows, cols, margin, key);
  }

  /**
   * Later tiles never move the vertices of earlier ones: the fabric built
   * from a prefix of the configuration is a prefix of the full fabric. A
   * seam vertex is averaged only into the later tile's copy.
   */
  lemma {:induction false} EarlierTilesKept(tiles: seq<TileEntry>, k: nat, rows: int, cols: int, margin: real, key: Vec3 -> Vec3)
    requires rows != 0 && cols != 0 && k <= |tiles|
    requires Build(tiles, rows, cols, margin, key).Ok?
    ensures Build(tiles[..k], rows, cols, margin, key).Ok?
    ensures Build(tiles[..k], rows, cols, margin, key).value.mesh.vertices
         <= Build(tiles, rows, cols, margin, key).value.mesh.vertices
    decreases |tiles|
  {
    if k < |tiles| {
      var n := |tiles| - 1;
      var p := tiles[..n];
      assert p[..k] == tiles[..k];
      EarlierTilesKept(p, k, rows, cols, margin, key);
    } else {
      assert tiles[..k] == tiles;
    }
  }

  /** One more tile on a successful prefix: its merged vertices and offset faces are appended. */
  lemma BuildStep(tiles: seq<TileEntry>, n: nat, rows: int, cols: int, margin: real, key: Vec3 -> Vec3)
    requires rows != 0 && cols != 0 && n < |tiles|
    requires Build(tiles[..n], rows, cols, margin, key).Ok?
    ensures tiles[n].load.None? ==> Build(tiles, rows, cols, margin, key) == Err(TileLoadFailed(tiles[n].index))
    ensures tiles[n].load.Some? ==>
      var st := Build(tiles[..n], rows, cols, margin, key).value;
      var tile := tiles[n].load.value;
      var merged := MergeAll(PlacedVertices(tile, tiles[n].index, rows, cols), st.seams, margin, key);
      Build(tiles[..n + 1], rows, cols, margin, key) == Ok(FabricState(Append(st.mesh, Mesh(merged.0, tile.faces)), merged.1))
  {
    assert tiles[..n + 1][..n] == tiles[..n];
    if tiles[n].load.None? {
      BuildErrSticky(tiles, n + 1, rows, cols, margin, key);
    }
  }

  /**
   * The enumerate loop over one tile's rescaled vertex array: each row is
   * overwritten with its merged value and the map entry under its key with
   * that value.
   */
  method MergeTileVertices(tileVertices: array<Vec3>, vertexMap0: map<Vec3, Vec3>, margin: real, key: Vec3 -> Vec3)
    returns (vertexMap: map<Vec3, Vec3>)
    modifies tileVertices
    ensures tileVertices[..] == MergeAll(old(tileVertices[..]), vertexMap0, margin, key).0
    ensures vertexMap == MergeAll(old(tileVertices[..]), vertexMap0, margin, key).1
  {
    ghost var placed := tileVertices[..];
    vertexMap := vertexMap0;
    var i := 0;
    while i < tileVertices.Length
      invariant 0 <= i <= tileVertices.Length
      invariant tileVertices[..i] == MergeAll(placed[..i], vertexMap0, margin, key).0
      invariant vertexMap == MergeAll(placed[..i], vertexMap0, margin, key).1
      invariant forall j :: i <= j < tileVertices.Length ==> tileVertices[j] == placed[j]
    {
      var vertex := tileVertices[i];
      MergeAllStep(placed, i, vertexMap0, margin, key);
      ghost var before := tileVertices[..i];
      var k := key(vertex);
      if k in vertexMap {
        if WithinMargin(vertex, vertexMap[k], margin) {
          tileVertices[i] := Midpoint(tileVertices[i], vertexMap[k]);
        }
      }
      vertexMap := vertexMap[k := tileVertices[i]];
      assert tileVertices[..i + 1] == before + [tileVertices[i]];
      i := i + 1;
    }
    assert placed[..i] == placed;
    assert tileVertices[..i] == tileVertices[..];
  }

  /** The merge over the first i + 1 vertices extends the merge over the first i by vertex i's merged value. */
  lemma MergeAllStep(vs: seq<Vec3>, i: nat, seams: map<Vec3, Vec3>, margin: real, key: Vec3 -> Vec3)
    requires i < |vs|
    ensures var p := MergeAll(vs[..i], seams, margin, key);
      var w := MergeVertex(vs[i], p.1, margin, key);
      MergeAll(vs[..i + 1], seams, margin, key) == (p.0 + [w], p.1[key(vs[i]) := w])
  {
    assert vs[..i + 1][..i] == vs[..i];
  }

  /** Tile `index`'s vertices rescaled into its cell, in a fresh array. */
  method PlaceTile(tile: Mesh, index: int, rows: int, cols: int) returns (tileVertices: array<Vec3>)
    requires rows != 0 && cols != 0
    ensures fresh(tileVertices)
    ensures tileVertices[..] == PlacedVertices(tile, index, rows, cols)
  {
    var row, col := FloorDiv(index, cols), FloorMod(index, cols);
    tileVertices := new Vec3[|tile.vertices|](i requires 0 <= i < |tile.vertices| => Place(tile.vertices[i], row, col, rows, cols));
  }

  /**
   * `generate_uv_fabric`: the tile loop with its in-place merge of each
   * tile's rescaled vertex array, the running map, and the appends with a
   * running face offset.
   */
  method GenerateUvFabric(tiles: seq<TileEntry>, rows: int, cols: int, margin: real, key: Vec3 -> Vec3)
    returns (r: Result<Mesh, FabricError>)
    ensures r == UvFabricOf(tiles, rows, cols, margin, key)
  {
    if cols == 0 || rows == 0 {
      return Err(DivisionByZero);
    }
    var allVertices: seq<Vec3> := [];
    var allFaces: seq<Face> := [];
    var faceOffset := 0;
    var vertexMap: map<Vec3, Vec3> := map[];
    var n := 0;
    while n < |tiles|
      invariant 0 <= n <= |tiles|
      invariant Build(tiles[..n], rows, cols, margin, key) == Ok(FabricState(Mesh(allVertices, allFaces), vertexMap))
      invariant faceOffset == |allVertices|
    {
      var entry := tiles[n];
      BuildStep(tiles, n, rows, cols, margin, key);
      if entry.load.None? {
        return Err(TileLoadFailed(entry.index));
      }
      var tile := entry.load.value;
      var tileVertices := PlaceTile(tile, entry.index, rows, cols);
      vertexMap := MergeTileVertices(tileVertices, vertexMap, margin, key);
      allVertices := allVertices + tileVertices[..];
      allFaces := allFaces + ShiftAll(tile.faces, faceOffset);
      faceOffset := faceOffset + tileVertices.Length;
      n := n + 1;
    }
    assert tiles[..n] == tiles;
    if n == 0 {
      return Err(NothingToStack);
    }
    return Ok(Mesh(allVertices, allFaces));
  }
}
