/**
 * The stand-alone planet script: the single-tile tiling run at module
 * level with N = 5 and R = 1. Its loop and its map_to_sphere are the ones
 * of `create_tiled_sphere`, so it reuses Tiling.AssembleCopies and
 * Sphere.Project; what differs is that a failed load is fatal (the script
 * loads the tile a second time outside any handler).
 */
module RomyPlanet {
  import opened Outcomes
  import opened Geometry
  import opened Sphere
  import opened Tiling

  const TargetCount := 5
  const Radius := 1.0

  datatype ScriptError = LoadRaised

  /** N = 5 gives M = 2 bands of 2 cells, with edges [0, pi/2, pi] and [0, pi, 2 pi]. */
  lemma RomyGrid()
    ensures LayoutFor(TargetCount) == Ok(Layout(2, 2))
    ensures ThetaEdge(0, 2) == 0.0 && ThetaEdge(1, 2) == Pi / 2.0 && ThetaEdge(2, 2) == Pi
    ensures PhiEdge(0, 2) == 0.0 && PhiEdge(1, 2) == Pi && PhiEdge(2, 2) == 2.0 * Pi
  {
    FloorSqrtUnique(5, 2);
  }

  /**
   * The script's output: the load is fatal when it fails; otherwise the 4
   * copies of the tile in the 2 x 2 grid at radius 1, 4|V| vertices and 4|F|
   * faces (copy by copy as Tiling.TiledSphereLayout states).
   */
  method RomyScript(load: Option<Mesh>, t: Trig) returns (r: Result<Mesh, ScriptError>)
    ensures load.None? <==> r == Err(LoadRaised)
    ensures r.Ok? ==> r.value == Concat(Copies(load.value, Layout(2, 2), Radius, t))
    ensures r.Ok? ==> |r.value.vertices| == 4 * |load.value.vertices| && |r.value.faces| == 4 * |load.value.faces|
  {
    if load.None? {
      return Err(LoadRaised);
    }
    RomyGrid();
    var layout := LayoutFor(TargetCount).value;
    var m := AssembleCopies(load.value, layout, Radius, t);
    TiledSphereCounts(load.value, layout, Radius, t);
    return Ok(m);
  }
}
