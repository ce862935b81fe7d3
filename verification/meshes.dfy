/** The data the reporting code and the driver read: a polygonal mesh, its
    quality snapshot and the records the two smoothing engines return. The
    engines and the quality metric themselves are not part of this model. */
module Meshes {
  import opened Wrappers

  /** A node position; coordinates are doubles in the source. */
  datatype Node = Node(x: real, y: real)

  /** Nodes, polygons as node-index lists, and the indices of fixed nodes. */
  datatype PolygonalMesh = PolygonalMesh(
    nodes: seq<Node>,
    polygons: seq<seq<nat>>,
    fixedNodeIndices: set<nat>)

  /** The node count of every polygon, in polygon order. */
  function NodeCounts(mesh: PolygonalMesh): (r: seq<nat>)
    ensures |r| == |mesh.polygons|
    ensures forall i :: 0 <= i < |r| ==> r[i] == |mesh.polygons[i]|
  {
    seq(|mesh.polygons|, i requires 0 <= i < |mesh.polygons| => |mesh.polygons[i]|)
  }

  /** The largest polygon node count of a mesh, 0 for a mesh without polygons. */
  function MaximalNumberOfPolygonNodes(mesh: PolygonalMesh): (r: nat)
    ensures forall i :: 0 <= i < |mesh.polygons| ==> |mesh.polygons[i]| <= r
    ensures |mesh.polygons| > 0 ==> exists i :: 0 <= i < |mesh.polygons| && |mesh.polygons[i]| == r
    ensures |mesh.polygons| == 0 ==> r == 0
  {
    MaxOf(NodeCounts(mesh))
  }

  function MaxOf(s: seq<nat>): (r: nat)
    ensures forall i :: 0 <= i < |s| ==> s[i] <= r
    ensures |s| > 0 ==> exists i :: 0 <= i < |s| && s[i] == r
    ensures |s| == 0 ==> r == 0
  {
    if s == [] then 0
    else
      var m := MaxOf(s[..|s| - 1]);
      if s[|s| - 1] > m then s[|s| - 1] else m
  }

  /** Quality snapshot of a mesh: the minimum, the optional restricted minimum
      qmin*, the mean, and the number of invalid elements, which is present
      only when the quality evaluation counted them. */
  datatype MeshQuality = MeshQuality(
    qMin: real,
    qMinStar: Option<real>,
    qMean: real,
    numberOfInvalidElements: Option<nat>)

  /** Iteration counters: one for smart Laplace, simultaneous and sequential
      ones for GETMe. */
  datatype Iterations =
    | SmartLaplaceIterations(iterations: nat)
    | GetmeIterations(simultaneous: nat, sequential: nat)

  /** What a smoothing engine returns. */
  datatype SmoothingResult = SmoothingResult(
    algorithmName: string,
    mesh: PolygonalMesh,
    meshQuality: MeshQuality,
    smoothingWallClockTimeInSeconds: real,
    iterations: Iterations)
}
