/**
 * Re-partitioned projection of the UV fabric (`project_uv_to_sphere`) and
 * the configuration-driven driver (`create_uv_mapped_sphere`).
 *
 * For each cell (row, col) of the rows x cols grid the fabric's vertices
 * are masked by the half-open rectangle
 * [col/cols, (col+1)/cols) x [row/rows, (row+1)/rows), the faces whose
 * three vertices all pass the mask are kept, the distinct indices those
 * faces use are listed in ascending order (np.unique) and the faces are
 * renumbered to positions in that list. As written, the list of GLOBAL
 * fabric indices is then applied to the ALREADY MASKED vertex array: the
 * selection is right only when the cell's masked vertices are a prefix of
 * the fabric, otherwise it picks other vertices or indexes past the end.
 * `CellAsWritten` models that; `CellCorrected` selects from the fabric itself.
 */
module UvProjection {
  import opened Outcomes
  import opened Geometry
  import opened Sphere
  import opened Tiling
  import opened UvFabric

  /** The cell's half-open mask test on one fabric vertex. */
  predicate InCell(v: Vec3, row: int, col: int, rows: int, cols: int)
    requires rows > 0 && cols > 0
  {
    var w := 1.0 / cols as real;
    var h := 1.0 / rows as real;
    col as real * w <= v.x < (col + 1) as real * w && row as real * h <= v.y < (row + 1) as real * h
  }

  /** The masks are half-open on both axes, so no point belongs to two cells. */
  lemma CellsDisjoint(v: Vec3, r1: int, c1: int, r2: int, c2: int, rows: int, cols: int)
    requires rows > 0 && cols > 0
    requires InCell(v, r1, c1, rows, cols) && InCell(v, r2, c2, rows, cols)
    ensures r1 == r2 && c1 == c2
  {
    var w := 1.0 / cols as real;
    var h := 1.0 / rows as real;
    HalfOpenUnique(v.x, c1, c2, w);
    HalfOpenUnique(v.y, r1, r2, h);
  }

  /** A point lies in at most one of the half-open steps [k w, (k + 1) w). */
  lemma HalfOpenUnique(x: real, a: int, b: int, w: real)
    requires w > 0.0
    requires a as real * w <= x < (a + 1) as real * w && b as real * w <= x < (b + 1) as real * w
    ensures a == b
  {
    if a < b {
      RealMulMono((a + 1) as real, b as real, w);
    } else if b < a {
      RealMulMono((b + 1) as real, a as real, w);
    }
  }

  function Mask(vs: seq<Vec3>, row: int, col: int, rows: int, cols: int): (r: seq<bool>)
    requires rows > 0 && cols > 0
    ensures |r| == |vs|
    ensures forall i :: 0 <= i < |vs| ==> r[i] == InCell(vs[i], row, col, rows, cols)
  {
    seq(|vs|, i requires 0 <= i < |vs| => InCell(vs[i], row, col, rows, cols))
  }

  /** `vertices[mask]`: the masked vertices, in fabric order. */
  function Masked(vs: seq<Vec3>, mask: seq<bool>): (r: seq<Vec3>)
    requires |mask| == |vs|
    ensures |r| <= |vs|
  {
    if vs == [] then []
    else
      var n := |vs| - 1;
      Masked(vs[..n], mask[..n]) + (if mask[n] then [vs[n]] else [])
  }

  /** When the mask selects exactly the index range [lo, hi), masking keeps that slice. */
  lemma {:induction false} MaskedRange(vs: seq<Vec3>, mask: seq<bool>, lo: nat, hi: nat)
    requires |mask| == |vs| && lo <= hi <= |vs|
    requires forall i :: 0 <= i < |vs| ==> (mask[i] <==> lo <= i < hi)
    ensures Masked(vs, mask) == vs[lo..hi]
  {
    if vs != [] {
      var n := |vs| - 1;
      if hi <= n {
        MaskedRange(vs[..n], mask[..n], lo, hi);
        assert vs[..n][lo..hi] == vs[lo..hi];
      } else if lo <= n {
        MaskedRange(vs[..n], mask[..n], lo, n);
        assert vs[..n][lo..n] == vs[lo..n];
        assert vs[lo..hi] == vs[lo..n] + [vs[n]];
      } else {
        MaskedRange(vs[..n], mask[..n], n, n);
      }
    }
  }

  predicate FaceInMask(f: Face, mask: seq<bool>)
    requires FaceBelow(f, |mask|)
  {
    mask[f.a] && mask[f.b] && mask[f.c]
  }

  predicate FacesBelow(fs: seq<Face>, n: int)
  {
    forall j :: 0 <= j < |fs| ==> FaceBelow(fs[j], n)
  }

  /** `faces[np.all(mask[faces], axis=1)]`: the faces whose three vertices pass the mask, in order. */
  function Kept(fs: seq<Face>, mask: seq<bool>): (r: seq<Face>)
    requires FacesBelow(fs, |mask|)
    ensures |r| <= |fs|
    ensures FacesBelow(r, |mask|)
    ensures forall j :: 0 <= j < |r| ==> FaceInMask(r[j], mask)
  {
    if fs == [] then []
    else
      var n := |fs| - 1;
      Kept(fs[..n], mask) + (if FaceInMask(fs[n], mask) then [fs[n]] else [])
  }

  /** A face is kept exactly when it is a fabric face with all three vertices in the mask. */
  lemma {:induction false} KeptExactly(fs: seq<Face>, mask: seq<bool>, f: Face)
    requires FacesBelow(fs, |mask|)
    ensures f in Kept(fs, mask) <==> f in fs && FaceBelow(f, |mask|) && FaceInMask(f, mask)
  {
    if fs != [] {
      var n := |fs| - 1;
      KeptExactly(fs[..n], mask, f);
      assert fs == fs[..n] + [fs[n]];
    }
  }

  predicate Uses(fs: seq<Face>, x: int)
  {
    exists j :: 0 <= j < |fs| && (fs[j].a == x || fs[j].b == x || fs[j].c == x)
  }

  /** `np.unique(faces)` for faces below n: the used indices, ascending and without repeats. */
  function UsedBelow(fs: seq<Face>, n: nat): (r: seq<int>)
    ensures forall k :: 0 <= k < |r| ==> 0 <= r[k] < n && Uses(fs, r[k])
    ensures forall k, l :: 0 <= k < l < |r| ==> r[k] < r[l]
    ensures forall x :: 0 <= x < n && Uses(fs, x) ==> x in r
  {
    if n == 0 then []
    else UsedBelow(fs, n - 1) + (if Uses(fs, n - 1) then [n - 1] else [])
  }

  /** The position of x in u: np.unique's inverse index. */
  function IndexOf(u: seq<int>, x: int): (r: nat)
    requires x in u
    ensures r < |u| && u[r] == x
  {
    if u[0] == x then 0 else 1 + IndexOf(u[1..], x)
  }

  predicate FacesUseOnly(fs: seq<Face>, u: seq<int>)
  {
    forall j :: 0 <= j < |fs| ==> fs[j].a in u && fs[j].b in u && fs[j].c in u
  }

  /** `new_indices.reshape(faces.shape)`: every face renumbered to positions in the unique list. */
  function Reindex(fs: seq<Face>, u: seq<int>): (r: seq<Face>)
    requires FacesUseOnly(fs, u)
    ensures |r| == |fs|
    ensures forall j :: 0 <= j < |fs| ==>
      FaceBelow(r[j], |u|) && u[r[j].a] == fs[j].a && u[r[j].b] == fs[j].b && u[r[j].c] == fs[j].c
  {
    seq(|fs|, j requires 0 <= j < |fs| => Face(IndexOf(u, fs[j].a), IndexOf(u, fs[j].b), IndexOf(u, fs[j].c)))
  }

  /** Every index a face list uses, when all are below n, is in its unique list. */
  lemma UsedCovers(fs: seq<Face>, n: nat)
    requires FacesBelow(fs, n)
    ensures FacesUseOnly(fs, UsedBelow(fs, n))
  {
    var u := UsedBelow(fs, n);
    forall j | 0 <= j < |fs| ensures fs[j].a in u && fs[j].b in u && fs[j].c in u {
      assert Uses(fs, fs[j].a) && Uses(fs, fs[j].b) && Uses(fs, fs[j].c);
    }
  }

  /** `vertices[unique_indices]`: the vertices at the listed indices, in list order. */
  function Select(vs: seq<Vec3>, u: seq<int>): (r: seq<Vec3>)
    requires forall k :: 0 <= k < |u| ==> 0 <= u[k] < |vs|
    ensures |r| == |u| && forall k :: 0 <= k < |u| ==> r[k] == vs[u[k]]
  {
    seq(|u|, k requires 0 <= k < |u| => vs[u[k]])
  }

  /** Selecting indices below p from a prefix of length p is selecting them from the whole. */
  lemma SelectFromPrefix(vs: seq<Vec3>, p: nat, u: seq<int>)
    requires p <= |vs| && forall k :: 0 <= k < |u| ==> 0 <= u[k] < p
    ensures Select(vs[..p], u) == Select(vs, u)
  {
  }

  /** The grid layout the projector shares with the single-tile tiling. */
  function GridLayout(rows: int, cols: int): Layout
    requires rows > 0 && cols > 0
  {
    Layout(rows, cols)
  }

  /** What one cell of the loop contributes: nothing (skipped), a cell mesh, or an error. */
  type CellOutcome = Result<Option<Mesh>, FabricError>

  /**
   * One cell as written: Ok(None) when it has no vertices or no kept face
   * (skipped), Err(IndexOutOfBounds) when a unique global index is past the
   * masked array, and otherwise the selected, renumbered and projected
   * cell mesh.
   */
  function CellAsWritten(fabric: Mesh, row: nat, col: nat, rows: int, cols: int, radius: real, t: Trig): (r: CellOutcome)
    requires rows > 0 && cols > 0 && WellFormed(fabric)
    ensures r.Err? ==> r.error == IndexOutOfBounds
    ensures r.Ok? && r.value.Some? ==>
      |r.value.value.faces| == |Kept(fabric.faces, Mask(fabric.vertices, row, col, rows, cols))| > 0
  {
    var mask := Mask(fabric.vertices, row, col, rows, cols);
    var masked := Masked(fabric.vertices, mask);
    var kept := Kept(fabric.faces, mask);
    if |masked| == 0 || |kept| == 0 then Ok(None)
    else
      var u := UsedBelow(kept, |fabric.vertices|);
      if exists k :: 0 <= k < |u| && u[k] >= |masked| then Err(IndexOutOfBounds)
      else
        UsedCovers(kept, |fabric.vertices|);
        var selected := Select(masked, u);
        var layout := GridLayout(rows, cols);
        Ok(Some(Mesh(MapToSphere(selected, ThetaBounds(row, layout), PhiBounds(col, layout), radius, t), Reindex(kept, u))))
  }

  /** Which vertex array the unique indices are applied to. */
  datatype Reindexing = AsWritten | FromFabric

  /** The same cell with the unique indices applied to the fabric's own vertex array. */
  function CellCorrected(fabric: Mesh, row: nat, col: nat, rows: int, cols: int, radius: real, t: Trig): (r: Option<Mesh>)
    requires rows > 0 && cols > 0 && WellFormed(fabric)
    ensures r.Some? ==> |r.value.faces| == |Kept(fabric.faces, Mask(fabric.vertices, row, col, rows, cols))| > 0
    ensures r.None? ==>
      |Kept(fabric.faces, Mask(fabric.vertices, row, col, rows, cols))| == 0 ||
      |Masked(fabric.vertices, Mask(fabric.vertices, row, col, rows, cols))| == 0
  {
    var mask := Mask(fabric.vertices, row, col, rows, cols);
    var masked := Masked(fabric.vertices, mask);
    var kept := Kept(fabric.faces, mask);
    if |masked| == 0 || |kept| == 0 then None
    else
      var u := UsedBelow(kept, |fabric.vertices|);
      UsedCovers(kept, |fabric.vertices|);
      var selected := Select(fabric.vertices, u);
      var layout := GridLayout(rows, cols);
      Some(Mesh(MapToSphere(selected, ThetaBounds(row, layout), PhiBounds(col, layout), radius, t), Reindex(kept, u)))
  }

  /**
   * A produced cell mesh is well formed, with exactly one vertex per distinct
   * index its kept faces use: its face indices lie in [0, that count).
   */
  lemma CellWellFormed(fabric: Mesh, row: nat, col: nat, rows: int, cols: int, radius: real, t: Trig)
    requires rows > 0 && cols > 0 && WellFormed(fabric)
    ensures (CellAsWritten(fabric, row, col, rows, cols, radius, t).Ok? &&
             CellAsWritten(fabric, row, col, rows, cols, radius, t).value.Some?) ==>
      var m := CellAsWritten(fabric, row, col, rows, cols, radius, t).value.value;
      var mask := Mask(fabric.vertices, row, col, rows, cols);
      WellFormed(m) && |m.vertices| == |UsedBelow(Kept(fabric.faces, mask), |fabric.vertices|)|
  {
  }

  /**
   * The corrected cell is exactly the fabric's kept triangles: face j of the
   * cell mesh names the projections of the three fabric vertices of kept
   * face j, in order.
   */
  lemma CorrectedCellTriangles(fabric: Mesh, row: nat, col: nat, rows: int, cols: int, radius: real, t: Trig, j: nat)
    requires rows > 0 && cols > 0 && WellFormed(fabric)
    requires CellCorrected(fabric, row, col, rows, cols, radius, t).Some?
    ensures var m := CellCorrected(fabric, row, col, rows, cols, radius, t).value;
      var kept := Kept(fabric.faces, Mask(fabric.vertices, row, col, rows, cols));
      var layout := GridLayout(rows, cols);
      var th, ph := ThetaBounds(row, layout), PhiBounds(col, layout);
      WellFormed(m) && |m.faces| == |kept| &&
      (j < |kept| ==>
        m.vertices[m.faces[j].a] == Project(fabric.vertices[kept[j].a], th, ph, radius, t) &&
        m.vertices[m.faces[j].b] == Project(fabric.vertices[kept[j].b], th, ph, radius, t) &&
        m.vertices[m.faces[j].c] == Project(fabric.vertices[kept[j].c], th, ph, radius, t))
  {
  }

  /** When the mask is exactly the prefix [0, p), every index a kept face uses is below p. */
  lemma UsedWithinPrefix(kept: seq<Face>, mask: seq<bool>, p: nat)
    requires FacesBelow(kept, |mask|) && forall j :: 0 <= j < |kept| ==> FaceInMask(kept[j], mask)
    requires forall i :: 0 <= i < |mask| ==> (mask[i] <==> i < p)
    ensures forall k :: 0 <= k < |UsedBelow(kept, |mask|)| ==> UsedBelow(kept, |mask|)[k] < p
  {
    var u := UsedBelow(kept, |mask|);
    forall k | 0 <= k < |u| ensures u[k] < p {
      assert Uses(kept, u[k]);
      var j :| 0 <= j < |kept| && (kept[j].a == u[k] || kept[j].b == u[k] || kept[j].c == u[k]);
      assert FaceInMask(kept[j], mask);
    }
  }

  /** When the cell's masked vertices are a prefix of the fabric, the as-written cell is the corrected one. */
  lemma AsWrittenOnPrefix(fabric: Mesh, row: nat, col: nat, rows: int, cols: int, radius: real, t: Trig, p: nat)
    requires rows > 0 && cols > 0 && WellFormed(fabric) && p <= |fabric.vertices|
    requires forall i :: 0 <= i < |fabric.vertices| ==> (InCell(fabric.vertices[i], row, col, rows, cols) <==> i < p)
    ensures CellAsWritten(fabric, row, col, rows, cols, radius, t).Ok?
    ensures CellAsWritten(fabric, row, col, rows, cols, radius, t).value == CellCorrected(fabric, row, col, rows, cols, radius, t)
  {
    var mask := Mask(fabric.vertices, row, col, rows, cols);
    MaskedRange(fabric.vertices, mask, 0, p);
    assert fabric.vertices[0..p] == fabric.vertices[..p];
    var kept := Kept(fabric.faces, mask);
    UsedWithinPrefix(kept, mask, p);
    var u := UsedBelow(kept, |fabric.vertices|);
    SelectFromPrefix(fabric.vertices, p, u);
  }

  /** One cell under either reindexing; the corrected one cannot fail. */
  function Cell(fabric: Mesh, row: nat, col: nat, rows: int, cols: int, radius: real, t: Trig, how: Reindexing): CellOutcome
    requires rows > 0 && cols > 0 && WellFormed(fabric)
  {
    match how
    case AsWritten => CellAsWritten(fabric, row, col, rows, cols, radius, t)
    case FromFabric => Ok(CellCorrected(fabric, row, col, rows, cols, radius, t))
  }

  /** The row of flat cell number c in a grid `cols` cells wide (c / cols, counted by subtraction). */
  function RowOf(c: nat, cols: int): nat
    requires cols > 0
    decreases c
  {
    if c < cols then 0 else 1 + RowOf(c - cols, cols)
  }

  /** The column of flat cell number c in a grid `cols` cells wide (c % cols, counted by subtraction). */
  function ColOf(c: nat, cols: int): (r: nat)
    requires cols > 0
    ensures r < cols
    decreases c
  {
    if c < cols then c else ColOf(c - cols, cols)
  }

  /** Cell (row, col) has flat number row * cols + col. */
  lemma {:induction false} RowColOf(row: nat, col: nat, cols: int)
    requires 0 <= col < cols
    ensures RowOf(row * cols + col, cols) == row && ColOf(row * cols + col, cols) == col
  {
    if row > 0 {
      RowColOf(row - 1, col, cols);
      assert row * cols + col - cols == (row - 1) * cols + col;
    }
  }

  /** The outcomes of a grid's cells, given cell by cell, in the loop's row-major order. */
  function Flatten(cell: (nat, nat) -> CellOutcome, rows: nat, cols: nat): (r: seq<CellOutcome>)
    requires cols > 0
    ensures |r| == rows * cols
  {
    seq(rows * cols, c requires 0 <= c < rows * cols => cell(RowOf(c, cols), ColOf(c, cols)))
  }

  /** cells[start .. start + cols) are the outcomes of row `row`'s cells, in column order. */
  predicate RowAt(cell: (nat, nat) -> CellOutcome, cols: nat, cells: seq<CellOutcome>, row: nat, start: nat)
  {
    start + cols <= |cells| && forall col :: 0 <= col < cols ==> cells[start + col] == cell(row, col)
  }

  /** Row `row` of the flattened outcomes is the slice of length cols starting at start == row * cols. */
  lemma FlattenRow(cell: (nat, nat) -> CellOutcome, rows: nat, cols: nat, row: nat, start: nat)
    requires cols > 0 && row < rows && start == row * cols
    ensures start + cols == (row + 1) * cols
    ensures RowAt(cell, cols, Flatten(cell, rows, cols), row, start)
  {
    forall col | 0 <= col < cols
      ensures start + col < rows * cols
      ensures Flatten(cell, rows, cols)[start + col] == cell(row, col)
    {
      CellIndex(row, col, rows, cols);
      RowColOf(row, col, cols);
    }
    CellIndex(row, cols - 1, rows, cols);
  }

  /** The cells of a grid as a function of row and column. */
  function CellFunction(fabric: Mesh, rows: int, cols: int, radius: real, t: Trig, how: Reindexing): (nat, nat) -> CellOutcome
    requires rows > 0 && cols > 0 && WellFormed(fabric)
  {
    (row: nat, col: nat) => Cell(fabric, row, col, rows, cols, radius, t, how)
  }

  /** The outcome of every cell, in the loop's row-major order. */
  function CellResults(fabric: Mesh, rows: int, cols: int, radius: real, t: Trig, how: Reindexing): (r: seq<CellOutcome>)
    requires rows > 0 && cols > 0 && WellFormed(fabric)
  {
    Flatten(CellFunction(fabric, rows, cols, radius, t, how), rows, cols)
  }

  /** Cell outcome number k is the outcome of the cell at row k / cols, column k % cols. */
  lemma CellResultsAt(fabric: Mesh, rows: int, cols: int, radius: real, t: Trig, how: Reindexing, k: nat)
    requires rows > 0 && cols > 0 && WellFormed(fabric) && k < rows * cols
    ensures CellResults(fabric, rows, cols, radius, t, how)[k] == Cell(fabric, RowOf(k, cols), ColOf(k, cols), rows, cols, radius, t, how)
  {
  }

  /** The stacking loop over cell outcomes: the produced meshes in order, or the first error. */
  function Stack(cells: seq<CellOutcome>): (r: Result<seq<Mesh>, FabricError>)
    ensures r.Ok? ==> |r.value| <= |cells|
  {
    if cells == [] then Ok([])
    else
      var n := |cells| - 1;
      match Stack(cells[..n])
      case Err(e) => Err(e)
      case Ok(ps) =>
        match cells[n]
        case Err(e) => Err(e)
        case Ok(None) => Ok(ps)
        case Ok(Some(m)) => Ok(ps + [m])
  }

  /** The stacking fails only with the error of one of the cells. */
  lemma {:induction false} StackErrFromCell(cells: seq<CellOutcome>)
    ensures Stack(cells).Err? ==> exists k :: 0 <= k < |cells| && cells[k] == Err(Stack(cells).error)
  {
    if cells != [] {
      var n := |cells| - 1;
      StackErrFromCell(cells[..n]);
      if Stack(cells[..n]).Err? {
        var k :| 0 <= k < n && cells[..n][k] == Err(Stack(cells[..n]).error);
        assert cells[k] == cells[..n][k];
      }
    }
  }

  /**
   * `project_uv_to_sphere`: the stacked cell meshes. A zero size divides by
   * zero, a size below -1 makes np.linspace fail, and a grid with no cell
   * left to stack (a size of -1, or every cell skipped) makes np.vstack fail.
   */
  function ProjectionOf(fabric: Mesh, rows: int, cols: int, radius: real, t: Trig, how: Reindexing): (r: Result<Mesh, FabricError>)
    requires WellFormed(fabric)
    ensures rows == 0 || cols == 0 ==> r == Err(DivisionByZero)
    ensures rows != 0 && cols != 0 && (rows < -1 || cols < -1) ==> r == Err(NegativeSampleCount)
    ensures r.Ok? ==> rows > 0 && cols > 0
  {
    if cols == 0 || rows == 0 then Err(DivisionByZero)
    else if rows + 1 < 0 || cols + 1 < 0 then Err(NegativeSampleCount)
    else if rows < 0 || cols < 0 then Err(NothingToStack)
    else Stacked(CellResults(fabric, rows, cols, radius, t, how))
  }

  /** `np.vstack` over the produced cell meshes: the first failing cell's error, or an error when nothing was produced. */
  function Stacked(cells: seq<CellOutcome>): Result<Mesh, FabricError>
  {
    match Stack(cells)
    case Err(e) => Err(e)
    case Ok(ps) => if ps == [] then Err(NothingToStack) else Ok(Concat(ps))
  }

  /** Once a cell has failed, the later cells do not change the outcome. */
  lemma {:induction false} StackErrSticky(cells: seq<CellOutcome>, k: nat)
    requires k <= |cells| && Stack(cells[..k]).Err?
    ensures Stack(cells) == Stack(cells[..k])
    decreases |cells| - k
  {
    if k < |cells| {
      assert cells[..k + 1][..k] == cells[..k];
      StackErrSticky(cells, k + 1);
    } else {
      assert cells[..k] == cells;
    }
  }

  /** One step of the stacking loop. */
  lemma StackStep(cells: seq<CellOutcome>, n: nat, ps: seq<Mesh>)
    requires n < |cells| && Stack(cells[..n]) == Ok(ps)
    ensures Stack(cells[..n + 1]) ==
      if cells[n].Err? then Err(cells[n].error) else if cells[n].value.Some? then Ok(ps + [cells[n].value.value]) else Ok(ps)
  {
    assert cells[..n + 1][..n] == cells[..n];
  }

  predicate AllWellFormed(ms: seq<Mesh>)
  {
    forall k :: 0 <= k < |ms| ==> WellFormed(ms[k])
  }

  predicate ProducesWellFormed(cells: seq<CellOutcome>)
  {
    forall k :: 0 <= k < |cells| && cells[k].Ok? && cells[k].value.Some? ==> WellFormed(cells[k].value.value)
  }

  /** Stacking well-formed cell meshes yields well-formed pieces. */
  lemma {:induction false} StackWellFormed(cells: seq<CellOutcome>)
    requires ProducesWellFormed(cells)
    ensures Stack(cells).Ok? ==> AllWellFormed(Stack(cells).value)
  {
    if cells != [] {
      var n := |cells| - 1;
      assert ProducesWellFormed(cells[..n]);
      StackWellFormed(cells[..n]);
    }
  }

  /** Without a failing cell the stacking succeeds; with every cell skipped it stacks nothing. */
  lemma {:induction false} StackWithoutFailure(cells: seq<CellOutcome>)
    requires forall k :: 0 <= k < |cells| ==> cells[k].Ok?
    ensures Stack(cells).Ok?
    ensures (forall k :: 0 <= k < |cells| ==> cells[k] == Ok(None)) ==> Stack(cells) == Ok([])
  {
    if cells != [] {
      var n := |cells| - 1;
      StackWithoutFailure(cells[..n]);
    }
  }

  /** A produced cell mesh is well formed under either reindexing. */
  lemma CellMeshWellFormed(fabric: Mesh, row: nat, col: nat, rows: int, cols: int, radius: real, t: Trig, how: Reindexing)
    requires rows > 0 && cols > 0 && WellFormed(fabric)
    ensures (Cell(fabric, row, col, rows, cols, radius, t, how).Ok? && Cell(fabric, row, col, rows, cols, radius, t, how).value.Some?) ==>
      WellFormed(Cell(fabric, row, col, rows, cols, radius, t, how).value.value)
  {
    if how == AsWritten {
      CellWellFormed(fabric, row, col, rows, cols, radius, t);
    } else if CellCorrected(fabric, row, col, rows, cols, radius, t).Some? {
      CorrectedCellTriangles(fabric, row, col, rows, cols, radius, t, 0);
    }
  }

  /**
   * The projected sphere is well formed, each cell's faces shifted past the
   * vertices of the cells stacked before it, and the corrected reindexing
   * never indexes out of bounds.
   */
  lemma ProjectionWellFormed(fabric: Mesh, rows: int, cols: int, radius: real, t: Trig, how: Reindexing)
    requires WellFormed(fabric)
    ensures ProjectionOf(fabric, rows, cols, radius, t, how).Ok? ==> WellFormed(ProjectionOf(fabric, rows, cols, radius, t, how).value)
    ensures how == FromFabric ==> ProjectionOf(fabric, rows, cols, radius, t, how) != Err(IndexOutOfBounds)
  {
    if rows > 0 && cols > 0 {
      var cells := CellResults(fabric, rows, cols, radius, t, how);
      forall k | 0 <= k < |cells| && cells[k].Ok? && cells[k].value.Some? ensures WellFormed(cells[k].value.value) {
        CellMeshWellFormed(fabric, RowOf(k, cols), ColOf(k, cols), rows, cols, radius, t, how);
      }
      StackWellFormed(cells);
      if Stack(cells).Ok? {
        ConcatWellFormed(Stack(cells).value);
      }
      if how == FromFabric {
        forall k | 0 <= k < |cells| ensures cells[k].Ok? {
          CellResultsAt(fabric, rows, cols, radius, t, how, k);
        }
        StackWithoutFailure(cells);
      }
    }
  }

  /** A fabric without faces leaves every cell empty, so there is nothing to stack. */
  lemma NoFacesNothingToStack(fabric: Mesh, rows: int, cols: int, radius: real, t: Trig, how: Reindexing)
    requires rows > 0 && cols > 0 && WellFormed(fabric) && fabric.faces == []
    ensures ProjectionOf(fabric, rows, cols, radius, t, how) == Err(NothingToStack)
  {
    var cells := CellResults(fabric, rows, cols, radius, t, how);
    forall k | 0 <= k < |cells| ensures cells[k] == Ok(None) {
      CellResultsAt(fabric, rows, cols, radius, t, how, k);
    }
    StackWithoutFailure(cells);
  }

  /** The stacked outcome, from the outcome of the stacking loop over a prefix of the cells. */
  lemma StackedFromPrefix(cells: seq<CellOutcome>, n: nat)
    requires n <= |cells|
    ensures Stack(cells[..n]).Err? ==> Stacked(cells) == Err(Stack(cells[..n]).error)
    ensures n == |cells| && Stack(cells[..n]).Ok? ==>
      var ps := Stack(cells[..n]).value;
      Stacked(cells) == if ps == [] then Err(NothingToStack) else Ok(Concat(ps))
  {
    if Stack(cells[..n]).Err? {
      StackErrSticky(cells, n);
    }
    assert cells[..|cells|] == cells;
  }

  /**
   * One iteration of `project_uv_to_sphere`'s cell loop, for cell number n
   * at (row, col): a failing cell reports its error, a skipped cell changes
   * nothing, and a produced cell mesh is appended with its faces shifted
   * past the vertices stacked so far.
   */
  method StackCell(cell: (nat, nat) -> CellOutcome, cols: nat, row: nat, col: nat,
                   ghost cells: seq<CellOutcome>, ghost start: nat, ghost n: nat,
                   vertices0: seq<Vec3>, faces0: seq<Face>, offset0: int, stacked0: nat, ghost pieces0: seq<Mesh>)
    returns (failure: Option<FabricError>, allVertices: seq<Vec3>, allFaces: seq<Face>, faceOffset: int, stacked: nat, ghost pieces: seq<Mesh>)
    requires RowAt(cell, cols, cells, row, start) && col < cols && n == start + col
    requires Stack(cells[..n]) == Ok(pieces0)
    requires Mesh(vertices0, faces0) == Concat(pieces0) && offset0 == |vertices0| && stacked0 == |pieces0|
    ensures failure.Some? ==> Stack(cells[..n + 1]) == Err(failure.value)
    ensures failure.None? ==> Stack(cells[..n + 1]) == Ok(pieces)
    ensures Mesh(allVertices, allFaces) == Concat(pieces) && faceOffset == |allVertices| && stacked == |pieces|
  {
    allVertices, allFaces, faceOffset, stacked, pieces := vertices0, faces0, offset0, stacked0, pieces0;
    StackStep(cells, n, pieces);
    var outcome := cell(row, col);
    if outcome.Err? {
      return Some(outcome.error), allVertices, allFaces, faceOffset, stacked, pieces;
    }
    failure := None;
    if outcome.value.Some? {
      var m := outcome.value.value;
      ConcatSnoc(pieces, m);
      allVertices := allVertices + m.vertices;
      allFaces := allFaces + ShiftAll(m.faces, faceOffset);
      faceOffset := faceOffset + |m.vertices|;
      pieces := pieces + [m];
      stacked := stacked + 1;
    }
  }

  /**
   * One row of `project_uv_to_sphere`'s cell loop: the row's cells are
   * projected in column order and stacked after the earlier rows' meshes,
   * or the first failing cell's error is returned.
   */
  method StackRow(cell: (nat, nat) -> CellOutcome, cols: nat, row: nat, ghost cells: seq<CellOutcome>, ghost start: nat,
                  vertices0: seq<Vec3>, faces0: seq<Face>, offset0: int, stacked0: nat, ghost pieces0: seq<Mesh>)
    returns (failure: Option<FabricError>, allVertices: seq<Vec3>, allFaces: seq<Face>, faceOffset: int, stacked: nat,
             ghost pieces: seq<Mesh>, ghost reached: nat)
    requires RowAt(cell, cols, cells, row, start)
    requires Stack(cells[..start]) == Ok(pieces0)
    requires Mesh(vertices0, faces0) == Concat(pieces0) && offset0 == |vertices0| && stacked0 == |pieces0|
    ensures failure.Some? ==> reached <= |cells| && Stack(cells[..reached]) == Err(failure.value)
    ensures failure.None? ==> Stack(cells[..start + cols]) == Ok(pieces)
    ensures Mesh(allVertices, allFaces) == Concat(pieces) && faceOffset == |allVertices| && stacked == |pieces|
  {
    allVertices, allFaces, faceOffset, stacked, pieces := vertices0, faces0, offset0, stacked0, pieces0;
    failure, reached := None, start;
    var col := 0;
    while col < cols
      invariant 0 <= col <= cols && failure.None?
      invariant Stack(cells[..start + col]) == Ok(pieces)
      invariant Mesh(allVertices, allFaces) == Concat(pieces)
      invariant faceOffset == |allVertices| && stacked == |pieces|
    {
      failure, allVertices, allFaces, faceOffset, stacked, pieces :=
        StackCell(cell, cols, row, col, cells, start, start + col, allVertices, allFaces, faceOffset, stacked, pieces);
      if failure.Some? {
        reached := start + col + 1;
        return;
      }
      col := col + 1;
    }
  }

  /**
   * `project_uv_to_sphere`'s cell loop over a positive grid, row by row,
   * then the stacking; `cell` computes one cell's outcome.
   */
  method StackGrid(cell: (nat, nat) -> CellOutcome, rows: nat, cols: nat) returns (r: Result<Mesh, FabricError>)
    requires rows > 0 && cols > 0
    ensures r == Stacked(Flatten(cell, rows, cols))
  {
    ghost var cells := Flatten(cell, rows, cols);
    var allVertices: seq<Vec3> := [];
    var allFaces: seq<Face> := [];
    var faceOffset := 0;
    var stacked := 0;  // the number of cell meshes appended so far
    ghost var pieces: seq<Mesh> := [];
    ghost var start: nat := 0;
    var row := 0;
    while row < rows
      invariant 0 <= row <= rows
      invariant start == row * cols && start <= |cells|
      invariant Stack(cells[..start]) == Ok(pieces)
      invariant Mesh(allVertices, allFaces) == Concat(pieces)
      invariant faceOffset == |allVertices| && stacked == |pieces|
    {
      FlattenRow(cell, rows, cols, row, start);
      var failure;
      ghost var reached;
      failure, allVertices, allFaces, faceOffset, stacked, pieces, reached :=
        StackRow(cell, cols, row, cells, start, allVertices, allFaces, faceOffset, stacked, pieces);
      if failure.Some? {
        StackedFromPrefix(cells, reached);
        return Err(failure.value);
      }
      start := start + cols;
      row := row + 1;
    }
    StackedFromPrefix(cells, start);
    if stacked == 0 {
      return Err(NothingToStack);
    }
    return Ok(Mesh(allVertices, allFaces));
  }

  /**
   * `project_uv_to_sphere`: the cell sizes divide by the grid sizes, the
   * edges come from np.linspace, and the cell loop and stacking follow.
   * `how` picks the reindexing: AsWritten is the code as it stands,
   * FromFabric the corrected selection the driver uses.
   */
  method ProjectUvToSphere(fabric: Mesh, radius: real, rows: int, cols: int, t: Trig, how: Reindexing) returns (r: Result<Mesh, FabricError>)
    requires WellFormed(fabric)
    ensures r == ProjectionOf(fabric, rows, cols, radius, t, how)
  {
    if cols == 0 || rows == 0 {
      return Err(DivisionByZero);
    }
    if rows + 1 < 0 || cols + 1 < 0 {
      return Err(NegativeSampleCount);
    }
    if rows < 0 || cols < 0 {
      return Err(NothingToStack);
    }
    r := StackGrid(CellFunction(fabric, rows, cols, radius, t, how), rows, cols);
  }

  /**
   * A two-cell fabric (one row, two columns) whose left cell holds fabric
   * vertices 0 .. 2 and whose right cell holds vertices 3 .. 5, one triangle
   * per cell: the layout the fabric builder produces for tiles 0 and 1.
   */
  const SplitFabric: Mesh := Mesh(
    [Vec3(0.1, 0.1, 0.0), Vec3(0.2, 0.1, 0.0), Vec3(0.1, 0.2, 0.0),
     Vec3(0.6, 0.1, 0.0), Vec3(0.7, 0.1, 0.0), Vec3(0.6, 0.2, 0.0)],
    [Face(0, 1, 2), Face(3, 4, 5)])

  lemma SplitFabricCells()
    ensures WellFormed(SplitFabric)
    ensures forall i :: 0 <= i < 6 ==> (InCell(SplitFabric.vertices[i], 0, 0, 1, 2) <==> i < 3)
    ensures forall i :: 0 <= i < 6 ==> (InCell(SplitFabric.vertices[i], 0, 1, 1, 2) <==> 3 <= i < 6)
  {
    var f := SplitFabric;
    assert FaceBelow(f.faces[0], 6) && FaceBelow(f.faces[1], 6);
  }

  /** The left cell's vertices are a prefix of the fabric, so it projects as intended. */
  lemma SplitLeftCell(radius: real, t: Trig)
    ensures WellFormed(SplitFabric)
    ensures CellAsWritten(SplitFabric, 0, 0, 1, 2, radius, t) == Ok(CellCorrected(SplitFabric, 0, 0, 1, 2, radius, t))
    ensures CellCorrected(SplitFabric, 0, 0, 1, 2, radius, t).Some?
  {
    SplitFabricCells();
    var f := SplitFabric;
    AsWrittenOnPrefix(f, 0, 0, 1, 2, radius, t, 3);
    var mask := Mask(f.vertices, 0, 0, 1, 2);
    MaskedRange(f.vertices, mask, 0, 3);
    KeptExactly(f.faces, mask, Face(0, 1, 2));
  }

  /** The right cell lists fabric index 5 among its unique indices but has only three masked vertices. */
  lemma SplitRightCell(radius: real, t: Trig)
    ensures WellFormed(SplitFabric)
    ensures CellAsWritten(SplitFabric, 0, 1, 1, 2, radius, t) == Err(IndexOutOfBounds)
  {
    SplitFabricCells();
    var f := SplitFabric;
    var mask := Mask(f.vertices, 0, 1, 1, 2);
    MaskedRange(f.vertices, mask, 3, 6);
    var kept := Kept(f.faces, mask);
    KeptExactly(f.faces, mask, Face(3, 4, 5));
    var j :| 0 <= j < |kept| && kept[j] == Face(3, 4, 5);
    assert Uses(kept, 5);
    var u := UsedBelow(kept, 6);
    var k :| 0 <= k < |u| && u[k] == 5;
  }

  /** Stacking two cell outcomes. */
  lemma StackTwo(cells: seq<CellOutcome>)
    requires |cells| == 2
    ensures cells[0].Ok? && cells[1].Err? ==> Stack(cells) == Err(cells[1].error)
    ensures cells[0].Ok? && cells[0].value.Some? && cells[1].Ok? ==> Stack(cells).Ok? && Stack(cells).value != []
  {
    var first := cells[..1];
    assert |first| == 1 && first[..0] == [] && first[0] == cells[0];
    assert Stack(first[..0]) == Ok([]);
    var c := cells[0];
    if c.Ok? && c.value.Some? {
      assert [] + [c.value.value] == [c.value.value];
      assert Stack(first) == Ok([c.value.value]);
    } else if c.Ok? {
      assert Stack(first) == Ok([]);
    }
    assert cells[..|cells| - 1] == first;
  }

  /**
   * As written, the right cell's unique indices [3, 4, 5] are applied to its
   * three masked vertices, so the projection fails with an index error; the
   * corrected reindexing projects both cells.
   */
  lemma SplitFabricIndexError(radius: real, t: Trig)
    ensures WellFormed(SplitFabric)
    ensures ProjectionOf(SplitFabric, 1, 2, radius, t, AsWritten) == Err(IndexOutOfBounds)
    ensures ProjectionOf(SplitFabric, 1, 2, radius, t, FromFabric).Ok?
  {
    SplitLeftCell(radius, t);
    SplitRightCell(radius, t);
    var f := SplitFabric;
    var cells := CellResults(f, 1, 2, radius, t, AsWritten);
    CellResultsAt(f, 1, 2, radius, t, AsWritten, 0);
    CellResultsAt(f, 1, 2, radius, t, AsWritten, 1);
    StackTwo(cells);
    var fixed := CellResults(f, 1, 2, radius, t, FromFabric);
    CellResultsAt(f, 1, 2, radius, t, FromFabric, 0);
    CellResultsAt(f, 1, 2, radius, t, FromFabric, 1);
    StackTwo(fixed);
  }
}
