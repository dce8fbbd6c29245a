# Cyldrop core in Dafny

This project models the core of Cyldrop, a Blender add-on that replaces low-poly
cylinders in a mesh with new ones of a chosen segment count. It covers two parts.

- **Mesh helpers (`library.py`).**
  - `get_islands` partitions a set of vertices into islands, meaning edge-connected components. It does this through the vertices' `tag` flags and the recursive walk `walk_island`.
  - `edgesFromVerts` and `facesFromVerts` collect the edges and faces lying inside a vertex set.
  - `performOnIslands` runs a callback on each island's geometry and stops at the first failure.
- **The cylinder operator (`cylinder_replace.py`).**
  - The filter that picks the old caps.
  - The boundary-edge filter of `fillHoles`.
  - The minimum, maximum and average radius loop of `extractInfo`.
  - The guard of `createNewCylinder`, which needs exactly two ends.

Files:

- `bmesh.dfy` (module `BMesh`) is an abstract BMesh.
  - Vertices are ids `0 .. vertCount - 1`.
  - Edges and faces are entries of sequences and are identified by their index.
  - It defines `link_edges`, `link_faces`, `other_vert` and `is_boundary`.
  - It also defines paths, reachability and connectivity, and what an island and a partition into islands are, with lemmas about these.
- `library.dfy` (module `Library`) holds `edgesFromVerts` and `facesFromVerts` as loop methods, plus the class `TaggedMesh`. Its fields are the mesh and the vertex tags, stored as an `array<bool>`, and its methods are:
  - `SetTags`, the local `tag` helper;
  - `WalkIsland`, a recursive method;
  - `GetIslands`;
  - `PerformOnIslands`.
- `cylinder_replace.dfy` (module `CylinderReplace`) holds the cap and boundary filters as functions, the radius loop as a method, and the guard as a function returning a `Result`.

The island proofs rest on one certificate. `WalkIsland` also returns a ghost `parent` sequence that records the depth-first visiting order: every vertex after the first was reached along an edge from an earlier one. This certificate gives the connectedness of each island. The tags at the end of the walk give its closedness: every untagged neighbour has been visited.

## Model

| member | source | states |
|---|---|---|
| BMesh.Mesh.LinkEdges | library.py:48 | the link edges of `v` are exactly the edges with `v` as an endpoint |
| BMesh.Mesh.LinkedVerts | library.py:91 | the other vertices of `v`'s link edges are exactly the neighbours of `v` |
| BMesh.Mesh.LinkFaces | library.py:59 | the link faces of `v` are exactly the faces with `v` as a corner |
| BMesh.OtherVert | library.py:91 | `other_vert` of an edge at `v` is the endpoint joined to `v` by that edge |
| BMesh.RootedReaches | library.py:88-97 | in a depth-first order, every visited vertex is reachable from the start within the visited set |
| BMesh.RootedConnected | library.py:88-97 | the vertex set of a depth-first order is connected |
| BMesh.ClosedPathStays | library.py:108-114 | a path that starts inside a set closed under active adjacency stays inside it |
| BMesh.IslandsDisjointOrEqual | library.py:108-114 | two islands of the same active set are equal or disjoint |
| BMesh.PartitionEmpty | library.py:106-115 | the partition is empty exactly when the input vertex set is |
| BMesh.ReachableSymmetric | library.py:91-97 | reachability along edges is symmetric |
| BMesh.ReachableTrans | library.py:94-97 | reachability along edges is transitive |
| Library.EdgesFromVerts | library.py:45-53 | the returned edges are exactly those whose two endpoints both lie in the vertex set |
| Library.FacesFromVerts | library.py:56-64 | the returned faces are exactly those whose corners all lie in the vertex set |
| Library.RunOnIslands | library.py:68-78 | the callback ran on the islands' geometry, in order, up to and including the first failure; the result is true iff the callback succeeds on every island |
| Library.TaggedMesh.PerformOnIslands | library.py:67-78 | the islands handed to the callback partition the active vertices; the calls stop at the first failure; the result is true iff every island succeeds |
| Library.TaggedMesh.SetTags | library.py:101-103 | exactly the tags of the given vertices are set to `switch`; all others are unchanged |
| Library.TaggedMesh.UntaggedAmong | library.py:91-92 | holds exactly the vertices of the list whose tag is clear |
| Library.VertexIds | library.py:104 | holds exactly the ids of the mesh's vertices |
| Library.TaggedMesh.WalkIsland | library.py:88-97 | the walk starts at `v` and yields each vertex at most once, and only vertices that were untagged; it tags exactly the vertices it yields; each yielded vertex after the first is adjacent to an earlier one; when it ends, every neighbour of a yielded vertex is tagged |
| Library.WalkIsIsland | library.py:108-111 | with exactly the inactive vertices tagged, a walk's vertices form a non-empty, connected island of the active set that is closed under adjacency |
| Library.ConnectedAvoidsClosed | library.py:108-114 | a connected set with a vertex outside an earlier island lies wholly outside that island |
| Library.IslandStep | library.py:108-114 | one turn of the loop: the new island lies among the vertices still left, is disjoint from the earlier islands, and together with them covers what is not left |
| Library.TaggedMesh.GetIslands | library.py:100-115 | the returned islands partition the input: each one a non-empty connected set closed under adjacency within the input, pairwise disjoint, together exactly the input; at the end every input vertex is untagged and every other vertex tagged |
| CylinderReplace.CapFaces | cylinder_replace.py:58-59 | the caps are exactly the selected faces whose vertex count is not 4, in mesh order |
| CylinderReplace.CapFacesBelow | cylinder_replace.py:58-59 | the same filter over the first `n` faces |
| CylinderReplace.BoundaryEdges | cylinder_replace.py:131 | the hole-filler input is exactly the boundary edges that are selected (or all boundary edges when `selectedOnly` is off), in mesh order |
| CylinderReplace.BoundaryEdgesBelow | cylinder_replace.py:131 | the same filter over the first `n` edges |
| CylinderReplace.BoundaryEdgesSelected | cylinder_replace.py:131 | the `selectedOnly` result is the unrestricted result cut down to the selected edges, in the same order |
| CylinderReplace.RingStats | cylinder_replace.py:72-92 | the minimum and maximum radius are distances of the ring and bound every distance; the average is the sum of the distances divided by the vertex count |
| CylinderReplace.SumBounds | cylinder_replace.py:79 | a sum of `n` values lying between `lo` and `hi` lies between `n * lo` and `n * hi` |
| CylinderReplace.AverageBetween | cylinder_replace.py:72-92 | the average radius lies between the minimum and the maximum radius |
| CylinderReplace.ExtractInfo | cylinder_replace.py:65-93 | one info per end face, in the order of the ends, each holding that end's radius statistics |
| CylinderReplace.CreateNewCylinder | cylinder_replace.py:99-114 | fails with the "Cylinder not found!" message exactly when the number of infos is not 2; otherwise the two circles get the two ends' average radii, in order |
| CylinderReplace.NewRadiiWithinRings | cylinder_replace.py:100-114 | with two ends, the radii of both new circles lie within the radius range of the end they replace |

## Left out

- Everything done through `bmesh.ops` is left out: `split`, `delete`, `contextual_create`, `create_circle`, `translate`, `rotate` and `bridge_loops`, and the mesh changes they make. `CreateNewCylinder` returns a plan that names the two ends and the circle radii; it does not build geometry.
- RingStats: distances, their sum and the average are exact Dafny `real` numbers. Python accumulates `radSum` by floating-point addition and rounds `radSum/count` (cylinder_replace.py:74-92), and that rounding is not modelled.
- AverageBetween: min <= avg <= max is proved of exact real arithmetic only. With floats the rounded average can exceed the largest distance by one unit in the last place; for distances [0.1, 0.1, 0.1] it is 0.10000000000000002 against a maximum of 0.1.
- NewRadiiWithinRings: the bound on the new circles' radii holds of the real-number model only, for the same reason as AverageBetween.
- Vector geometry is left out: normals, median centres, `to_track_quat`, rotation matrices and the square root in `.length`. The distances from an end's centre to its vertices are given to `RingStats` and `ExtractInfo` as a function `radius(end, vertex)`.
- extractInfo's deletion of the caps, its call of `fillHoles` and its deletion of the ends (`cylinder_replace.py:60-63`, `95`) are mesh operations and are left out. `ExtractInfo` takes the faces created by the filler as its input.
- `logic` (`cylinder_replace.py:38-54`) only sequences the parts above with bmesh operations, so it is left out.
- `performOnSelected` is left out in both files. The same goes for the library's `performOnSelectedIslands` and `fillHoles` (`library.py:117-118`), the Operator and Panel classes, property registration, `__init__.py`, and `print`. These are host-application glue and console output.
- The callback of `performOnIslands` is modelled as a pure function of the island's geometry. Its access to the context, the mesh and `args`, and any effects it has on the mesh, are left out.
- Islands, edge sets and face sets are modelled as sets of indices. The order of the list that `get_islands` builds from each island set is not modelled. Python's `set.pop` is modelled as an arbitrary choice of a remaining vertex.
- `walk_island` is a recursive generator that `set(...)` consumes right away. It is modelled as a recursive method that returns the whole sequence it yields. Nothing runs between its steps, so no interleaving is lost.
- Python's recursion limit is not modelled.
- `link_edges` and `link_faces` are modelled in edge and face index order. Blender's own order of the disk cycle is not modelled.
- `FacesFromVerts` requires a valid mesh: no face has fewer than three corners, as Blender guarantees.
- `RingStats` requires a non-empty face. Blender's faces always have at least three vertices, and the source reads `end.verts[0]` unguarded.
