# Conflux planet and palm geometry, modelled in Dafny

Conflux turns photographs of hands into landscapes and planets. This
project models the computational core of its server scripts and of two
small client rules:

- **Tiled planets** (`planet_one_palm.py`, `romy_planet.py`). One tile
  mesh is projected into every cell of an M x K colatitude/longitude grid,
  with M = floor(sqrt N) and K = floor(N / M). The copies are stacked with a
  running vertex offset. `map_to_sphere` sends a tile-local point
  (x, y, z) to longitude phi = phi0 + x (phi1 - phi0) and colatitude
  theta = theta0 + y (theta1 - theta0), at radius R + z.
- **The UV-mapped planet** (`planet.py`):
  - `generate_uv_fabric` rescales each configured tile into its grid cell,
    merges seam vertices against a running map keyed by the rounded
    position, and stacks the tiles.
  - `project_uv_to_sphere` re-partitions the fabric by cell masks, keeps
    the faces inside each cell, reindexes them and projects each cell.
  - `create_uv_mapped_sphere` reads the configuration and drives both
    steps.
- **The blank height field** (`blank_shape.py`):
  - the edge value is the mean of the four margin bands;
  - the rows and then the columns in the margin are blended in place toward
    the edge value;
  - the grid is triangulated into two triangles per cell over four
    unshared corners;
  - the STL triangle array is filled.
- **Palm processing** (`palm.py`, `save.py`):
  - the camel-case file name;
  - the integer arithmetic of the palm crop (landmark centre, bounding
    box, crop size, clamped window);
  - the best-of-twenty square selection.
- **Terrain colouring** (`terrain_coloring.py`): the distance bands and
  the painting of triangles.
- **Client rules**: the line formatting of `loadText.js`, and the body of
  the trailing-slash middleware written in `vite.config.js` (which the
  configuration as written never installs; see Left out).

Meshes are values: a vertex sequence and faces of three vertex indices.
Coordinates are exact reals. Sine and cosine are the two functions of a
`Trig` parameter. The height grid is a Dafny `array2` that the blend
passes update in place. The tile vertex array of the seam merge is an
`array` that is overwritten row by row. The middleware's request
is a class whose URL field the rule updates. The imperative loops of the
source are methods with invariants, each proved equal to a specification function
whose properties are lemmas.

Modules: `Outcomes` (Option, Result), `Geometry`, `Sphere`, `Tiling`,
`RomyPlanet`, `UvFabric`, `UvProjection`, `UvSphere`, `HeightField`,
`Naming`, `PalmCrop`, `SquarePick`, `TerrainColoring`, `LoadText`,
`UrlRule`.

## Model

| member | source | states |
|---|---|---|
| Geometry.AppendWellFormed | server/scripts/planet.py:168-172 | appending a well-formed mesh to a well-formed mesh, with its faces offset by the vertices already there, gives a well-formed mesh |
| Geometry.ConcatSnoc | server/scripts/planet.py:69-73 | stacking one more piece is one loop step: the vertex and face totals grow by that piece's counts |
| Geometry.Concat | server/scripts/planet_one_palm.py:76-85 | the definition of stacking: the pieces in order, each piece's faces offset by the vertex count of the pieces before it; its properties are ConcatSnoc, ConcatCounts, ConcatWellFormed and ConcatPiece |
| Geometry.ConcatCounts | server/scripts/planet_one_palm.py:83-85 | the stacked mesh has exactly the pieces' total vertex and face counts |
| Geometry.ConcatWellFormed | server/scripts/planet_one_palm.py:76-85 | stacking well-formed pieces with running offsets gives a well-formed mesh |
| Geometry.ConcatPiece | server/scripts/planet_one_palm.py:76-81 | piece k occupies the slots after the pieces before it; its vertices are copied and its faces are shifted by the earlier vertex total |
| Geometry.TotalsUniform | server/scripts/planet_one_palm.py:65-81 | equal-size pieces total the piece size times the piece count |
| Geometry.FloorDiv | server/scripts/planet.py:146 | Python `//`: the floor quotient, for either sign of divisor |
| Geometry.FloorMod | server/scripts/planet.py:147 | Python `%`: `a == (a // b) * b + r`, with r taking the sign of b and smaller than b in magnitude |
| Geometry.MinReal | server/scripts/palm.py:72-87 | `min` over the landmark coordinates: at most every element, and one of them |
| Geometry.MaxReal | server/scripts/terrain_coloring.py:30 | `np.max` (and `max` in the palm crop): at least every element, and one of them |
| Sphere.Lerp | server/scripts/planet.py:12-13 | 0 maps to the lower bound, 1 to the upper bound, and [0, 1] into the bounds |
| Sphere.MapToSphere | server/scripts/planet.py:7-20 | one projected point per input vertex, in order |
| Sphere.ProjectRadius | server/scripts/planet.py:15-18 | under sin² + cos² = 1 a projected vertex has squared norm (R + z)²; with z = 0 it lies on the sphere of radius R |
| Sphere.MapToSphereRadii | server/scripts/planet_one_palm.py:5-29 | every vertex map_to_sphere produces lies at distance abs(R + z) from the centre |
| Tiling.FloorSqrt | server/scripts/planet_one_palm.py:54 | `int(np.sqrt(N))` is the r with r² <= N < (r + 1)² |
| Tiling.FloorSqrtUnique | server/scripts/planet_one_palm.py:54 | that r is unique |
| Tiling.LayoutFor | server/scripts/planet_one_palm.py:54-55 | N = 0 divides by zero and N < 0 fails; otherwise M >= 1, K >= 1 and M * K <= N |
| Tiling.DivBounds | server/scripts/planet_one_palm.py:55 | for 1 <= M <= N, K = N // M is at least 1 and M * K <= N |
| Tiling.LayoutFifty | server/scripts/planet_one_palm.py:93-100 | the script's N = 50 gives a 7 x 7 grid: 49 tiles, one short of N |
| Tiling.CellBoundsTile | server/scripts/planet_one_palm.py:56-57 | the colatitude cells tile [0, pi] and the longitude cells tile [0, 2 pi]: increasing bounds, first and last edges at the ends, adjacent cells sharing an edge |
| Tiling.EdgeStep | server/scripts/planet_one_palm.py:56-57 | consecutive linspace edges are increasing and stay within the span |
| Tiling.ThetaEdge | server/scripts/planet_one_palm.py:56 | `np.linspace(0, pi, M + 1)[k]`, the k-th of M equal steps; its range is Tiling.EdgesSpan |
| Tiling.PhiEdge | server/scripts/planet_one_palm.py:57 | `np.linspace(0, 2 pi, K + 1)[k]`, the k-th of K equal steps; its range is Tiling.EdgesSpan |
| Tiling.EdgeBetween | server/scripts/planet_one_palm.py:56-57 | sample k of n equal steps over a positive span lies in [0, span] and sample n is the span |
| Tiling.EdgesSpan | server/scripts/planet_one_palm.py:56-57 | the colatitude edges run from 0 to pi and the longitude edges from 0 to 2 pi, every edge in between inside that range |
| Tiling.CellCopy | server/scripts/planet_one_palm.py:68-74 | the copy for one cell keeps the tile's faces and has one projected vertex per tile vertex |
| Tiling.Copies | server/scripts/planet_one_palm.py:65-74 | one projected copy of the tile per grid cell: M * K copies |
| Tiling.CellIndex | server/scripts/planet_one_palm.py:65-66 | loop cell (lat, lon) is copy lat * K + lon, inside the grid, and the copy number gives back (lat, lon) |
| Tiling.AssembleCopies | server/scripts/planet_one_palm.py:59-85 | the nested loop with its running face offset builds exactly the copies stacked in loop order |
| Tiling.CreateTiledSphere | server/scripts/planet_one_palm.py:32-90 | a failed load or N < 1 builds nothing; otherwise the stacked copies |
| Tiling.TiledSphere | server/scripts/planet_one_palm.py:32-90 | a failed load fails first; then N = 0 divides by zero and N < 0 fails; a success is the stacked copies for the layout of N |
| Tiling.TiledSphereCounts | server/scripts/planet_one_palm.py:76-85 | the sphere has M K abs(V) vertices and M K abs(F) faces |
| Tiling.TiledSphereLayout | server/scripts/planet_one_palm.py:65-85 | copy c = lat K + lon holds vertices [c abs(V), (c+1) abs(V)) and faces [c abs(F), (c+1) abs(F)); its faces are the tile's faces plus c abs(V), and its vertices are the tile's vertices projected into cell (lat, lon) |
| Tiling.TiledSphereWellFormed | server/scripts/planet_one_palm.py:76-86 | a well-formed tile gives a well-formed sphere |
| RomyPlanet.RomyGrid | server/scripts/romy_planet.py:21-28 | N = 5 gives a 2 x 2 grid with edges [0, pi/2, pi] and [0, pi, 2 pi] |
| RomyPlanet.RomyScript | server/scripts/romy_planet.py:16-74 | a failed load is fatal; otherwise the four copies at radius 1, with 4 abs(V) vertices and 4 abs(F) faces |
| UvFabric.TileCell | server/scripts/planet.py:144-147 | an index inside the grid has its row and column inside the grid, and index == row * cols + col |
| UvFabric.Place | server/scripts/planet.py:149-155 | a rescaled vertex keeps its height; a unit-square point lands in its cell's rectangle |
| UvFabric.ScaleInto | server/scripts/planet.py:150-155 | s in [0, 1] scaled by 1/n and offset by k/n lies in [k/n, (k+1)/n] |
| UvFabric.MergeVertex | server/scripts/planet.py:159-164 | an unseen key or a stored point beyond the margin leaves the vertex unchanged; a stored point within the margin gives the midpoint of the two; either way the vertex moves by at most half the margin |
| UvFabric.HalfwayDistance | server/scripts/planet.py:164 | the midpoint is equidistant from both ends, at half their distance |
| UvFabric.MergeAll | server/scripts/planet.py:158-165 | one merged vertex per input vertex; the map entry under the last key is the last merged vertex |
| UvFabric.MergeAllKeys | server/scripts/planet.py:158-165 | after a tile, the map keys are the old keys plus the keys of the tile's vertices |
| UvFabric.MergeAllMovesLittle | server/scripts/planet.py:157-165 | with a non-negative margin, every merged vertex lies within half the margin of its rescaled position |
| UvFabric.MergeAllStep | server/scripts/planet.py:158-165 | merging i + 1 vertices extends the merge of i vertices by vertex i merged against the map so far |
| UvFabric.MergeAllAt | server/scripts/planet.py:158-165 | merged vertex i is vertex i merged against the map as the vertices before it left it |
| UvFabric.MergeAllFresh | server/scripts/planet.py:158-165 | vertices whose keys are not in the map and are pairwise distinct come through the merge unchanged |
| UvFabric.PlacedVertices | server/scripts/planet.py:145-155 | one rescaled vertex per tile vertex: vertex i placed into cell (index // cols, index % cols) |
| UvFabric.PlacedInCell | server/scripts/planet.py:145-155 | for an index inside the grid, that cell is inside the grid, index == row * cols + col, and a unit-square vertex lands in the cell's rectangle with its height kept |
| UvFabric.BuildErrSticky | server/scripts/planet.py:136-142 | once a tile fails to load, later tiles do not change the error |
| UvFabric.BuildErrIsLoad | server/scripts/planet.py:138-142 | the tile loop fails only with the index of a configured tile that did not load |
| UvFabric.BuildShape | server/scripts/planet.py:136-177 | the loop succeeds exactly when every tile loads; the fabric then has the stacked tiles' faces and vertex count, because the merge moves vertices but never adds, drops or renumbers any |
| UvFabric.FabricWellFormed | server/scripts/planet.py:167-177 | well-formed tiles give a well-formed fabric |
| UvFabric.FirstFailure | server/scripts/planet.py:138-142 | the first unloadable tile aborts the build with its own index |
| UvFabric.EarlierTilesKept | server/scripts/planet.py:157-172 | later tiles never move earlier vertices: a prefix of the configuration builds a prefix of the fabric's vertices |
| UvFabric.BuildStep | server/scripts/planet.py:136-172 | one more tile appends its merged vertices and its faces offset by the fabric so far, or fails with its index |
| UvFabric.Build | server/scripts/planet.py:136-172 | the tile loop over the configured tiles; it can fail only on a tile that did not load |
| UvFabric.UvFabricOf | server/scripts/planet.py:121-179 | `generate_uv_fabric`: zero rows or columns divide by zero, no tiles leave nothing to stack, and otherwise only a tile load can fail |
| UvFabric.MergeTileVertices | server/scripts/planet.py:158-165 | the in-place loop over the tile's vertex array leaves the array and the map as MergeAll gives them |
| UvFabric.PlaceTile | server/scripts/planet.py:153-155 | a fresh array holding the tile's rescaled vertices |
| UvFabric.GenerateUvFabric | server/scripts/planet.py:121-179 | the tile loop with its in-place merges and running offset returns the specified fabric or error |
| UvProjection.CellsDisjoint | server/scripts/planet.py:45-50 | the half-open masks of two different cells never share a point |
| UvProjection.Mask | server/scripts/planet.py:45-50 | entry i of the mask is the cell test on vertex i |
| UvProjection.MaskedRange | server/scripts/planet.py:52 | a mask selecting exactly an index range keeps that slice of the vertices |
| UvProjection.Kept | server/scripts/planet.py:53 | the kept faces have all three vertices in the mask |
| UvProjection.KeptExactly | server/scripts/planet.py:53 | a face is kept exactly when it is a fabric face with all three vertices in the mask |
| UvProjection.UsedBelow | server/scripts/planet.py:59 | `np.unique`: the used indices, strictly ascending, each used, and every used index listed |
| UvProjection.IndexOf | server/scripts/planet.py:59 | the inverse index: the position of x in the unique list |
| UvProjection.Reindex | server/scripts/planet.py:59-61 | each face renumbered to the positions of its indices in the unique list |
| UvProjection.UsedCovers | server/scripts/planet.py:59 | every index a face uses is in the unique list |
| UvProjection.Select | server/scripts/planet.py:60 | `vertices[unique_indices]`: element k is the vertex at unique index k |
| UvProjection.SelectFromPrefix | server/scripts/planet.py:60 | selecting indices below p from the first p vertices is selecting them from all of them |
| UvProjection.CellAsWritten | server/scripts/planet.py:45-66 | one cell as written: it can fail only with an index error, and a produced cell has one face per kept face, at least one |
| UvProjection.CellCorrected | server/scripts/planet.py:45-66 | one cell with the indices applied to the fabric: a produced cell has one face per kept face, and a cell is skipped only when it has no vertices or no kept faces |
| UvProjection.CellWellFormed | server/scripts/planet.py:52-66 | a produced cell mesh is well formed, with one vertex per distinct index its kept faces use |
| UvProjection.CorrectedCellTriangles | server/scripts/planet.py:52-66 | with the corrected selection, face j of the cell names the projections of the three fabric vertices of kept face j |
| UvProjection.AsWrittenOnPrefix | server/scripts/planet.py:52-61 | when a cell's masked vertices are a prefix of the fabric, the code as written gives the corrected cell |
| UvProjection.ColOf | server/scripts/planet.py:39 | the column of a flat cell number is below cols |
| UvProjection.RowColOf | server/scripts/planet.py:38-39 | cell (row, col) has flat number row * cols + col and is recovered from it |
| UvProjection.Flatten | server/scripts/planet.py:38-39 | the row-major cell outcomes: rows * cols of them |
| UvProjection.FlattenRow | server/scripts/planet.py:38-39 | row `row` of the flat outcomes is the cols outcomes starting at row * cols |
| UvProjection.CellResultsAt | server/scripts/planet.py:38-42 | outcome k is the cell at row k / cols, column k % cols |
| UvProjection.Stack | server/scripts/planet.py:68-73 | the stacking loop: at most one mesh per cell |
| UvProjection.StackErrFromCell | server/scripts/planet.py:40-73 | the stacking fails only with the error one of the cells raised |
| UvProjection.StackErrSticky | server/scripts/planet.py:38-73 | once a cell fails, later cells do not change the outcome |
| UvProjection.StackStep | server/scripts/planet.py:55-73 | one loop step: an error stops, a skipped cell adds nothing, a cell mesh is appended |
| UvProjection.StackWellFormed | server/scripts/planet.py:68-78 | stacked cell meshes are well formed |
| UvProjection.StackWithoutFailure | server/scripts/planet.py:55-56 | without a failing cell the stacking succeeds; with every cell skipped it stacks nothing |
| UvProjection.CellMeshWellFormed | server/scripts/planet.py:52-66 | a produced cell mesh is well formed under either reindexing |
| UvProjection.ProjectionWellFormed | server/scripts/planet.py:23-79 | the projected sphere is well formed, and the corrected reindexing never indexes out of bounds |
| UvProjection.NoFacesNothingToStack | server/scripts/planet.py:55-78 | a fabric without faces skips every cell, so `np.vstack` has nothing to stack |
| UvProjection.StackedFromPrefix | server/scripts/planet.py:75-78 | the final outcome from the loop's outcome over a prefix: its first error, or the stacked meshes, or an error if there are none |
| UvProjection.StackCell | server/scripts/planet.py:40-73 | one cell iteration keeps the running vertices, faces and offset equal to the stacked meshes so far |
| UvProjection.StackRow | server/scripts/planet.py:39-73 | one row of cells, in column order, with the same running invariant |
| UvProjection.StackGrid | server/scripts/planet.py:38-78 | the nested cell loop and the final `np.vstack` give the stacked outcome of the row-major cells |
| UvProjection.ProjectionOf | server/scripts/planet.py:23-79 | `project_uv_to_sphere`: zero rows or columns divide by zero, a size below -1 fails in linspace, and a success needs a positive grid |
| UvProjection.ProjectUvToSphere | server/scripts/planet.py:23-79 | the loop returns ProjectionOf for the chosen reindexing: a zero size divides by zero, a size below -1 fails in linspace, and -1 or no produced cell leaves nothing to stack; otherwise the stacked cells |
| UvProjection.SplitFabricCells | server/scripts/planet.py:45-50 | in the two-cell example, vertices 0..2 lie in the left cell and 3..5 in the right |
| UvProjection.SplitLeftCell | server/scripts/planet.py:52-61 | the left cell, a prefix, projects as intended |
| UvProjection.SplitRightCell | server/scripts/planet.py:59-60 | the right cell as written indexes past its three masked vertices |
| UvProjection.StackTwo | server/scripts/planet.py:69-73 | stacking two cell outcomes: an error in the second is the result |
| UvProjection.SplitFabricIndexError | server/scripts/planet.py:59-61 | as written, the two-cell fabric fails with an index error; the corrected reindexing projects it |
| UvSphere.GetOr | server/scripts/planet.py:98-99 | `config.get(key, 1)` |
| UvSphere.FabricOkWellFormed | server/scripts/planet.py:107 | a fabric built from well-formed tiles is well formed |
| UvSphere.UvMappedSphere | server/scripts/planet.py:82-118 | the run, projecting with the reindexing it is given (AsWritten is line 114): an unreadable configuration or no tiles stops the run before any geometry; no sphere is produced without a fabric |
| UvSphere.UvMappedSphereShape | server/scripts/planet.py:82-118 | both exports are well formed; the fabric is exported exactly when the configuration is readable, has tiles, has nonzero sizes and every tile loads, and it then holds the tiles' faces; with the corrected reindexing there is no index error |
| UvSphere.CreateUvMappedSphere | server/scripts/planet.py:82-118 | the driver returns the specified run for the reindexing it is given |
| UvSphere.SplitConfigFabric | server/scripts/planet.py:136-177 | one tile configured at indices 0 and 1 of a 1 x 2 grid builds the two-cell fabric of UvProjection.SplitFabric, nothing merged |
| UvSphere.DriverIndexError | server/scripts/planet.py:82-118 | the driver as written exports that fabric and then stops on an index error at line 114; with the corrected reindexing the same run produces a sphere |
| HeightField.SliceBound | server/scripts/blank_shape.py:32-35 | where a Python slice bound lands, for positive and negative bounds |
| HeightField.EdgeValueOf | server/scripts/blank_shape.py:32-39 | the definition of `edge_value`: the equal-weight average of the four band means, undefined when a band is empty; its properties are UndefinedEdgeUnused and ConstantGridStays |
| HeightField.BlockMean | server/scripts/blank_shape.py:32-35 | a mean exists exactly when the block is non-empty |
| HeightField.Min3 | server/scripts/blank_shape.py:45 | the minimum of three values is one of them and at most each |
| HeightField.BandNeedsMargin | server/scripts/blank_shape.py:44 | a line lies in a band only when the margin is positive |
| HeightField.Factor | server/scripts/blank_shape.py:45 | the blend factor is at most 1, and at least 0 on a line of the grid |
| HeightField.Blend | server/scripts/blank_shape.py:46-48 | factor 0 gives the edge value, factor 1 the old value, and an entry equal to the edge value stays |
| HeightField.Blended | server/scripts/blank_shape.py:43-55 | after both passes an entry outside both bands is unchanged, and so is one equal to the edge value |
| HeightField.FactorBounds | server/scripts/blank_shape.py:45 | the factor lies in [0, 1] and is 0 on the first and last line |
| HeightField.BlendBetween | server/scripts/blank_shape.py:46-48 | a blend lies between the edge value and the old value, and is the edge value at factor 0 |
| HeightField.PassedBetween | server/scripts/blank_shape.py:43-48 | one pass moves an entry toward the edge value and never past it |
| HeightField.BlendedShape | server/scripts/blank_shape.py:43-55 | after both passes: entries outside both bands unchanged, the border equal to the edge value, every entry between its old value and the edge value |
| HeightField.NoMarginNoChange | server/scripts/blank_shape.py:43-55 | a margin of 0 or less changes nothing |
| HeightField.UndefinedEdgeUnused | server/scripts/blank_shape.py:32-55 | an undefined (NaN) edge value arises only with no margin, when nothing is blended |
| HeightField.RowSumConstant | server/scripts/blank_shape.py:32-35 | a row of a constant grid sums to length times value |
| HeightField.BlockSumConstant | server/scripts/blank_shape.py:32-35 | a block of a constant grid sums to size times value |
| HeightField.BlockMeanConstant | server/scripts/blank_shape.py:32-35 | a non-empty block of a constant grid has mean equal to the value |
| HeightField.ConstantGridStays | server/scripts/blank_shape.py:23-55 | a uniform (white) grid has edge value equal to its value, and blending leaves it unchanged |
| HeightField.BlendRows | server/scripts/blank_shape.py:43-48 | the in-place row pass leaves each entry as the specified one-pass value |
| HeightField.BlendColumns | server/scripts/blank_shape.py:50-55 | the in-place column pass, likewise |
| HeightField.BlendEdges | server/scripts/blank_shape.py:31-55 | returns the edge value of the grid as it was, and leaves every entry blended by both passes |
| HeightField.Spans | server/scripts/blank_shape.py:65-66 | `range(n - 1)` has n - 1 cells, none for an empty axis |
| HeightField.GridCoord | server/scripts/blank_shape.py:58-59 | linspace samples lie in [0, 1], from 0 to 1 |
| HeightField.GridCorners | server/scripts/blank_shape.py:65-74 | the definition of the vertex list: four corners per cell, rows of cells in order; its properties are GridCornersLength and GridCornersAt |
| HeightField.GridFaces | server/scripts/blank_shape.py:76-79 | the definition of the face list: two triangles per cell over its own four vertices; its properties are GridFacesAt, GridFacesLength and GridFacesBelow |
| HeightField.GridCornersLength | server/scripts/blank_shape.py:65-74 | four vertices per cell |
| HeightField.CellCount | server/scripts/blank_shape.py:65-74 | 4n vertices means n = (rows - 1)(cols - 1) cells |
| HeightField.RowCornersAt | server/scripts/blank_shape.py:66-74 | vertices 4j..4j+3 of a row are the corners of its cell j |
| HeightField.GridCornersAt | server/scripts/blank_shape.py:65-74 | vertices 4k..4k+3, with k = i (cols - 1) + j, are the corners of cell (i, j) |
| HeightField.GridFacesAt | server/scripts/blank_shape.py:76-79 | cell k emits faces (4k, 4k+1, 4k+2) and (4k+2, 4k+1, 4k+3) |
| HeightField.GridFacesLength | server/scripts/blank_shape.py:76-79 | two faces per cell |
| HeightField.GridFacesBelow | server/scripts/blank_shape.py:76-79 | every face names one of the cells' vertices |
| HeightField.GridCornersInUnitSquare | server/scripts/blank_shape.py:58-71 | every vertex lies over the unit square |
| HeightField.RowCornersInUnitSquare | server/scripts/blank_shape.py:58-71 | every vertex of a row lies over the unit square |
| HeightField.TriangulationShape | server/scripts/blank_shape.py:62-82 | 4 (rows-1)(cols-1) vertices, 2 (rows-1)(cols-1) faces, well formed |
| HeightField.CellOrdinal | server/scripts/blank_shape.py:65-66 | an in-grid cell's row-major ordinal i (cols - 1) + j lies below the cell count |
| HeightField.CellTriangles | server/scripts/blank_shape.py:67-79 | the two triangles of cell (i, j) are (v0, v1, v2) and (v2, v1, v3), over its grid points |
| HeightField.Triangulate | server/scripts/blank_shape.py:62-82 | the cell loop returns the specified vertices and faces |
| HeightField.StlVectors | server/scripts/blank_shape.py:85-88 | row i of the STL array holds the three vertices face i names |
| HeightField.GenerateMeshFromGrid | server/scripts/blank_shape.py:31-88 | blend, triangulate and fill: edge value, blended grid, well-formed mesh and STL rows as specified |
| LoadText.NewlineAt | client/planets/loadText.js:12 | the first '\n', or -1 when there is none |
| LoadText.Lines | client/planets/loadText.js:12 | `split('\n')`: at least one line, none containing '\n' |
| LoadText.LinesJoin | client/planets/loadText.js:12 | joining the lines with '\n' gives back the text |
| LoadText.Fragment | client/planets/loadText.js:13 | the definition of one line's fragment; its shape is LoadText.FragmentShape |
| LoadText.FormatText | client/planets/loadText.js:11-14 | the definition of the formatting: the fragments of the lines, joined; its properties are FormatTextSingle and FormatTextStep |
| LoadText.FragmentsSingle | client/planets/loadText.js:13-14 | one line gives its own fragment |
| LoadText.FormatTextSingle | client/planets/loadText.js:11-14 | text without '\n' is one fragment; empty text is `<br>` |
| LoadText.FormatTextStep | client/planets/loadText.js:11-14 | the first line's fragment, then the formatting of the rest |
| LoadText.FragmentShape | client/planets/loadText.js:13 | a blank line gives `<br>`; any other gives the untrimmed line inside `<div>`..`</div>` |
| LoadText.FragmentsAppend | client/planets/loadText.js:13-14 | fragments are joined in order with nothing between them |
| Naming.Upper | server/scripts/palm.py:9 | an ASCII small letter becomes the capital at the same alphabet position, any other character is kept; whitespace is preserved |
| Naming.Lower | server/scripts/palm.py:9 | an ASCII capital becomes the small letter at the same alphabet position, any other character is kept; whitespace is preserved |
| Naming.Capitalize | server/scripts/palm.py:9 | `str.capitalize`: one character per character of the word (first upper-cased, the rest lower-cased) |
| Naming.SkipSpace | server/scripts/palm.py:8 | a suffix with the leading whitespace removed |
| Naming.WordAt | server/scripts/palm.py:8 | the longest whitespace-free prefix |
| Naming.Words | server/scripts/palm.py:8 | `str.split()` gives non-empty, whitespace-free words |
| Naming.Strip | server/scripts/palm.py:8 | no whitespace remains |
| Naming.StripAppend | server/scripts/palm.py:8 | removing whitespace distributes over concatenation |
| Naming.WordsStep | server/scripts/palm.py:8-9 | one step of the split and the join: the first word, then the rest |
| Naming.WordsJoin | server/scripts/palm.py:8-9 | the words joined are the name without whitespace |
| Naming.WordScan | server/scripts/palm.py:9 | a word is scanned to its capitalized form |
| Naming.CamelCase | server/scripts/palm.py:7-9 | the definition: split, capitalize each word, join; its properties are CamelCaseIsScan and CamelCaseShape |
| Naming.Scan | server/scripts/palm.py:7-9 | the character-scan reference: no whitespace in the result, and one character per non-whitespace character of the input |
| Naming.CamelCaseIsScan | server/scripts/palm.py:7-9 | split, capitalize and join equal the character scan reference |
| Naming.ScanStrip | server/scripts/palm.py:7-9 | the scan keeps exactly the non-whitespace characters, in order, up to case |
| Naming.CamelCaseShape | server/save.py:42-44 | no whitespace; equals the name without whitespace up to case; first character upper-cased; all-whitespace gives "" |
| PalmCrop.Trunc | server/scripts/palm.py:55-61 | `int()` truncates toward zero |
| PalmCrop.TruncMono | server/scripts/palm.py:72-87 | truncation is monotone |
| PalmCrop.Pixels | server/scripts/palm.py:57 | one pixel coordinate per landmark of interest |
| PalmCrop.TruncExtremes | server/scripts/palm.py:72-87 | the minimum and maximum of truncated coordinates are the truncated extremes |
| PalmCrop.MinTrunc | server/scripts/palm.py:72-87 | `min(int(p) for ...)`: at most every truncated coordinate, and one of them |
| PalmCrop.MaxTrunc | server/scripts/palm.py:72-87 | `max(int(p) for ...)`: at least every truncated coordinate, and one of them |
| PalmCrop.WeightedSumBounds | server/scripts/palm.py:55-69 | a unit-weight sum lies between n copies of the smallest and of the largest term |
| PalmCrop.MeanBetween | server/scripts/palm.py:55-69 | so the weighted mean lies between the smallest and the largest |
| PalmCrop.Center | server/scripts/palm.py:55-69 | the definition of the truncated weighted centre; it lies in the box by PalmCrop.CenterInBox |
| PalmCrop.CenterInBox | server/scripts/palm.py:55-87 | the centre lies within the bounding box |
| PalmCrop.CropSize | server/scripts/palm.py:92-100 | `int(0.75 * min(w, h))` is floor(3 min / 4), between 0 and the shorter side |
| PalmCrop.PalmWindow | server/scripts/palm.py:19-108 | an unreadable image fails first, then an empty detection |
| PalmCrop.Window | server/scripts/palm.py:105-108 | the clamped window starts at or after 0, ends within the image on both axes, and carries the crop size |
| PalmCrop.HandWindow | server/scripts/palm.py:51-108 | the definition of one hand's window: centre, box, crop size, clamped; its properties are HandCenterInBox and WindowClamped |
| PalmCrop.WindowClamped | server/scripts/palm.py:105-108 | a successful window starts at or after 0 and ends within the image on both axes, with a non-negative crop size |
| PalmCrop.WindowSquareInside | server/scripts/palm.py:105-108 | away from the border the window is a square of side 2 (crop // 2) |
| PalmCrop.LastHandWins | server/scripts/palm.py:51-87 | with several hands only the last one counts |
| PalmCrop.HandCenterInBox | server/scripts/palm.py:51-108 | the window centre lies within the landmarks' box on both axes |
| SquarePick.SquareSize | server/save.py:67-68 | `min(h, w) // 4` fits four times in each side |
| SquarePick.Pick | server/save.py:69-80 | the definition of the selection loop after n candidates; its property is SquarePick.PickSpec |
| SquarePick.PalmSquare | server/save.py:48-83 | the definition of the outcome; its property is SquarePick.PalmSquareSpec |
| SquarePick.PickSpec | server/save.py:69-80 | the kept metric is the largest of 0 and the metrics seen; a square is kept exactly when a metric exceeded 0, and it is the first with the largest metric |
| SquarePick.PalmSquareSpec | server/save.py:48-83 | the chosen square is inside the image, with side min // 4, and scores above 0 and at least as high as every candidate, with no earlier candidate as high; failure exactly when none scores above 0 |
| SquarePick.ProcessPalmImage | server/save.py:48-83 | the sampling loop returns the specified outcome |
| TerrainColoring.Band | server/scripts/terrain_coloring.py:29-47 | a value lies at or below its band's cut-off and above the previous one |
| TerrainColoring.Classify | server/scripts/terrain_coloring.py:29-47 | with a largest distance of 0 the NaN ratio makes every vertex a mountain; otherwise a distance of at most 0 is deep ocean and the largest distance is highland |
| TerrainColoring.BandMonotone | server/scripts/terrain_coloring.py:33-47 | a farther vertex never gets an earlier band |
| TerrainColoring.BandCutoffs | server/scripts/terrain_coloring.py:29-47 | each cut-off belongs to the band below it; only values above 1 are mountains |
| TerrainColoring.Ratio | server/scripts/terrain_coloring.py:35 | a distance over the largest lies in [0, 1], and is 1 at the largest |
| TerrainColoring.RatioMono | server/scripts/terrain_coloring.py:35 | dividing by the largest distance keeps the order |
| TerrainColoring.ColorVertices | server/scripts/terrain_coloring.py:29-47 | no distances fails; otherwise one colour per distance, in order, as its band gives it |
| TerrainColoring.ClassifyShape | server/scripts/terrain_coloring.py:29-47 | with a positive maximum no vertex is a mountain, bands follow the distance order and the farthest is highland; with maximum 0 all are mountains |
| TerrainColoring.FaceColorsAsWritten | server/scripts/terrain_coloring.py:54-58 | triangle i is painted `colors[i]`, the colour of flattened vertex i |
| TerrainColoring.FaceColors | server/scripts/terrain_coloring.py:54-58 | one colour per triangle |
| TerrainColoring.FaceColorsOwnVertex | server/scripts/terrain_coloring.py:54-58 | under the correction, each triangle wears the colour of one of its own vertices |
| TerrainColoring.FaceColorsMismatch | server/scripts/terrain_coloring.py:54-56 | as written, a triangle whose three vertices are deep ocean is painted highland |
| UrlRule.Normalized | client/vite.config.js:10-11 | a URL with a '.' or a trailing '/' is unchanged, any other gets '/' appended; the result always has one of the two |
| UrlRule.NormalizedIdempotent | client/vite.config.js:9-13 | applying the rule twice equals applying it once |
| UrlRule.Request.constructor | client/vite.config.js:9 | a request holds the given URL |
| UrlRule.Request.ApplyRule | client/vite.config.js:9-13 | the middleware updates the URL in place to its normalised form |

## Left out

- Mesh loading and exporting (trimesh, numpy-stl) and file paths are left out. A load is an `Option<Mesh>` input, and an export is the returned mesh.
- trimesh's default processing on construction, such as merging duplicate vertices and dropping degenerate faces, is not modelled. A mesh is exactly the arrays the scripts build.
- Floating point is left out. Coordinates are exact reals, and `np.linspace` samples are exact fractions of the span.
- Sphere.ProjectRadius holds under the exact identity sin² + cos² = 1. Sine and cosine are parameters, so floating-point results are on the sphere only approximately.
- UvFabric.MergeVertex: rounding to six decimals is an abstract `key` parameter. Two vertices share a map entry exactly when their keys agree.
- The Gaussian filter and the white image of `blank_shape.py` are left out. The smoothed height grid is the input of HeightField.GenerateMeshFromGrid. HeightField.ConstantGridStays covers a uniform grid.
- HeightField.BlendEdges: a NaN edge value is returned as None rather than a NaN float. The passes then touch nothing.
- NaN appears in one more place: `dist / max_distance` with a largest distance of 0 is NaN, and every comparison with it fails. That case is modelled directly (every vertex is a mountain).
- Image decoding, colour conversion, resizing and writing (OpenCV) are left out, and so is MediaPipe hand detection. Landmarks and image sizes are inputs.
- An empty crop window makes `cv2.resize` fail. That failure is not modelled.
- The `__main__` block of `palm.py` passes too few arguments to `extract_palm_region`. It is not modelled.
- The interest metric of `process_palm_image` (variance of the Laplacian) is a function parameter, and the twenty `random.randint` draws are an input.
- `cv2.findContours` in `process_palm_image` has an unused result and is left out.
- The rest of `server/save.py` is not part of this model: the FastAPI endpoints, the JSON data file, hashing, and the MediaPipe segmentation.
- The STL reading, centroid and norms of `terrain_coloring.py` are left out, and the distances are an input. So is the matplotlib rendering.
- `loadText.js`: the fetch, the response status check, the DOM update and the error logging are left out. The formatting of the fetched text is modelled.
- UrlRule.Request.ApplyRule: models the body of the middleware in `vite.config.js`. The configuration as written puts `configureServer` among the `server` options, where it is not a server option. It is a plugin hook, so Vite never calls it and no request URL is rewritten. The model does not capture that registration.
- `vite.config.js`: only the route rule is modelled. The build inputs and the other options are configuration, not behaviour.
- Case mapping and whitespace in Naming are ASCII only. Python's Unicode `str.split`, `str.capitalize` and titlecase mappings are not modelled.
- The first, non-fatal load attempt and its messages in `romy_planet.py` are left out. The second load is modelled as fatal.
- `create_uv_mapped_sphere` does not use its `smoothing_iterations` parameter or `num_tiles`, so neither appears in the model. JSON values for `rows`, `cols` and tile indices are taken to be integers; a conversion failure of `int(tile_index)` is not modelled.
- UvSphere.UvMappedSphere, UvSphere.UvMappedSphereShape and UvSphere.CreateUvMappedSphere require every tile mesh that loads to be well formed (`TilesWellFormed`). This is assumed of the mesh loader, which is not part of this model.
- UvSphere.UvMappedSphere takes the reindexing as a parameter. `AsWritten` is the driver as it stands (see Findings and UvSphere.DriverIndexError), and `FromFabric` is the corrected one.
- UvProjection.StackGrid: one cell's computation (mask, keep, reindex, project) is the function parameter of the loop, specified by `UvProjection.Cell`. The loop itself is a method.
- `server/scripts/planet_multitile copy.py`, `server/main.py` and the client scripts other than `loadText.js` and `vite.config.js` are not part of this model.

## Findings

| source | as written | input that shows it | evidently intended | confidence | as-written member | corrected member |
|---|---|---|---|---|---|---|
| server/scripts/planet.py:59-61 | the unique global fabric indices of a cell's faces are applied to the already-masked vertex array of that cell | a 1 x 2 grid whose left cell holds fabric vertices 0..2 and right cell 3..5, one triangle each: the right cell's unique indices [3, 4, 5] exceed its three masked vertices, so the projection raises an index error | select the cell's vertices from the fabric's own vertex array | not executed | UvProjection.SplitFabricIndexError | UvProjection.CorrectedCellTriangles |
| server/scripts/terrain_coloring.py:54-56 | triangle i is painted with `colors[i]`, the colour of flattened vertex i, although there are three flattened vertices per triangle | distances [1.0, 1.0, 1.0, 0.1, 0.1, 0.1] (two triangles): the second triangle, whose vertices are all deep ocean, is painted highland | paint triangle i with the colour of one of its own vertices, `colors[3 * i]` | not executed | TerrainColoring.FaceColorsMismatch | TerrainColoring.FaceColorsOwnVertex |
