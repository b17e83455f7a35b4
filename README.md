# Fx Track edge snapping, modelled in Dafny

The Fx Track conversion script `src/make_fxtrack.py` turns each track piece
into an LDraw part. It repairs the piece's triangle mesh and samples the
exact edges of its STEP model. Then it reconciles the two. Every edge
endpoint moves onto the nearest surviving mesh vertex, but only if that
vertex lies strictly closer than 0.2. Otherwise the endpoint keeps its
exact coordinate. This project models that reconciliation step and proves
what it guarantees. It also models the script's file-naming convention: a
track body and its inner and outer rails, and the straight-or-curve choice
of source directory.

- `geometry.dfy` (module `Geometry`): 3-D points over exact reals and the
  squared Euclidean distance. It also holds the distance gate `Within`,
  which compares squared distance against `tol * tol`. Lemmas show that
  this test agrees with the norm test `abs(q - p) < tol` for every
  tolerance.
- `edge_snap.dfy` (module `EdgeSnap`):
  - `NearestVertex` is the left-to-right scan behind `argmin`, which keeps
    the first minimum.
  - `SnapEndpoint` and `ReconcileSegment` specify one endpoint and one edge.
  - `ReconcileEdges` is the loop that appends one reconciled segment per
    edge.
  - The methods are proved against the functions `Nearest`, `SnapEndpoint`
    and `ReconcileAll`, and lemmas state the properties of those functions.
- `file_names.dfy` (module `FileNames`):
  - `GetFilenames` builds the three file names of one item.
  - `KindOf` and `SourceDir` implement the test `"S" in item`, specified
    against the substring predicate `Substring`.
  - `Straights` and `Curves` are the script's catalogue.

The tolerance is a parameter whose default value is
`Geometry.SnapTolerance` (0.2), the value the script uses.

With no mesh vertices the loop fails only when it has an edge to process,
because `argmin` over an empty array raises inside the loop body
(src/make_fxtrack.py:115). So `ReconcileEdges` returns `Err(EmptyMesh)`
exactly when there are no vertices and at least one edge, and an empty edge
list succeeds whatever the mesh.

## Model

| member | source | states |
|---|---|---|
| `EdgeSnap.FirstNearest` | src/make_fxtrack.py:115-116 | the index it returns is below `n`; no vertex among the first `n` is strictly nearer; every earlier vertex is strictly farther (first minimum) |
| `EdgeSnap.Nearest` | src/make_fxtrack.py:115-116 | over the whole non-empty vertex list, the result is an index of least distance and the first such index, as numpy's `argmin` picks |
| `EdgeSnap.NearestMatchesEuclideanRanking` | src/make_fxtrack.py:115-116 | when `n[j]` is the non-negative Euclidean distance from vertex `j` to the endpoint, an index is first-nearest by squared distance exactly when it is the first minimum of `n`, the index `cdist(...).argmin()` returns |
| `EdgeSnap.NearestUnique` | src/make_fxtrack.py:115-116 | only one index is least-distance and first, so the choice `argmin` makes is determined |
| `EdgeSnap.NearestPrefersLowestIndex` | src/make_fxtrack.py:115-116 | when a later vertex ties with an earlier nearest one, the later one is never chosen |
| `EdgeSnap.NearestVertex` | src/make_fxtrack.py:115-116 | the scan needs a non-empty vertex list and returns the first index of least distance to the endpoint |
| `EdgeSnap.SnapEndpoint` | src/make_fxtrack.py:115-118 | the kept coordinate is a mesh vertex or the original endpoint; if it differs from the endpoint it is strictly within the tolerance; if some vertex is within the tolerance the result is the nearest vertex; if none is, the endpoint comes back unchanged |
| `EdgeSnap.SnapsIffSomeVertexWithin` | src/make_fxtrack.py:115-118 | the nearest vertex passes the gate if and only if some vertex lies strictly within the tolerance |
| `EdgeSnap.SnapOnVertex` | src/make_fxtrack.py:115-117 | an endpoint that coincides with a mesh vertex comes back as that vertex's coordinate, for every tolerance |
| `EdgeSnap.SnapIdempotent` | src/make_fxtrack.py:115-118 | for every tolerance, snapping an already snapped endpoint leaves it where it is |
| `EdgeSnap.SnapPoint` | src/make_fxtrack.py:115-118 | one endpoint goes through the `argmin` scan and then the `< tol` gate, giving the coordinate `SnapEndpoint` specifies |
| `EdgeSnap.ReconcileSegment` | src/make_fxtrack.py:113-118 | each endpoint of the output edge is a mesh vertex or the corresponding input endpoint |
| `EdgeSnap.EndpointsIndependent` | src/make_fxtrack.py:113-118 | the first output endpoint depends only on the first input endpoint and the vertices, and the second only on the second |
| `EdgeSnap.ReconcileAll` | src/make_fxtrack.py:110-119 | the output has exactly one segment per input edge, and the segment at position `i` is the reconciliation of input edge `i` |
| `EdgeSnap.ReconcileAllIdempotent` | src/make_fxtrack.py:110-119 | for every tolerance, reconciling an already reconciled edge list changes nothing |
| `EdgeSnap.ReconcileEdges` | src/make_fxtrack.py:110-119 | the loop fails exactly when there is an edge and the mesh has no vertices; otherwise it returns the same-length, same-order list `ReconcileAll` specifies |
| `EdgeSnap.SnapExamples` | src/make_fxtrack.py:117-118 | with tolerance 0.2, an endpoint 0.05 from its nearest vertex is snapped onto it, and one 0.5 away is kept |
| `Geometry.SqDistZero` | src/make_fxtrack.py:117-118 | only the endpoint itself lies at distance zero from it |
| `Geometry.WithinSelf` | src/make_fxtrack.py:117-118 | a point is within every positive tolerance of itself, as `0 < 0.2` makes a coinciding vertex pass the gate |
| `Geometry.SquaredGateMatchesNorm` | src/make_fxtrack.py:117-118 | for a non-negative distance `n`, comparing `n * n` with `tol * tol` (and rejecting a negative tolerance) agrees with `n < tol` in both directions |
| `Geometry.WithinMatchesNorm` | src/make_fxtrack.py:117-118 | `Within(q, p, tol)` holds exactly when the Euclidean distance between `q` and `p` is below `tol` |
| `FileNames.GetFilenames` | src/make_fxtrack.py:131-136 | the track, inner-rail and outer-rail names are pairwise distinct; all three start with the path, the separator and the object name and end with the dot and the extension; the rails carry `InnerRail` and `OuterRail` after the object name |
| `FileNames.TrackNameInjective` | src/make_fxtrack.py:131-136 | under one path and extension, two objects with the same track file name are the same object |
| `FileNames.NameForInjective` | src/make_fxtrack.py:131-136 | under one path and extension, two names built with the same suffix belong to the same object |
| `FileNames.ShortItemsNamesDisjoint` | src/make_fxtrack.py:131-136 | two different objects whose names are shorter than `InnerRail` share none of their three file names |
| `FileNames.CatalogueNamesDisjoint` | src/make_fxtrack.py:140-146 | under one path and extension, no two different items of the catalogue share any of their track, inner-rail or outer-rail file names, so no item's output overwrites another's |
| `FileNames.SingleCharSubstring` | src/make_fxtrack.py:141 | a one-character string is a substring of a name exactly when that character occurs in it, so Python's substring test `"S" in item` can be decided by character membership |
| `FileNames.KindOf` | src/make_fxtrack.py:141 | an item is a straight exactly when `S` is a substring of its name, as Python's `in` on strings tests |
| `FileNames.SourceDir` | src/make_fxtrack.py:141 | an item with `S` as a substring of its name is read from the straight directory, any other from the curve directory |
| `FileNames.CatalogueClassified` | src/make_fxtrack.py:140-141 | for any two directories, every item of the straights list is read from the straight directory and every item of the curves list from the curve directory |

## Left out

- `os.path.normpath` is not modelled. The names are the plain concatenation `path + sep + name`, and `os.sep` is fixed to `/`, its POSIX value.
- Floating-point rounding in `cdist` and in the vector norm is not modelled. Coordinates are exact reals, and distances are compared squared rather than through a square root. Over the reals this changes nothing: `Geometry.WithinMatchesNorm` shows that the squared gate agrees with the norm test, and `EdgeSnap.NearestMatchesEuclideanRanking` shows that ranking by squared distance picks the same first-nearest index as ranking by `cdist`'s Euclidean distances.
- Mesh repair (`fix_mesh`), mesh and STEP loading, and edge discretisation are not modelled. They are calls into pymesh and cqkit, whose algorithms are not visible here. The model takes the repaired vertex list and the discretised edges as inputs.
- `mesh_to_ldr`, the LDraw header and part text, and every file write are not modelled. They are output formatting delegated to ldrawpy, plus I/O.
- The catalogue loop over all items (lines 140-169) is not modelled beyond the directory choice at line 141 and the catalogue lists it iterates over. The rest of the loop drives I/O.
- `log_mesh` is not modelled. It only prints diagnostics; note that it swaps its triangle and vertex labels.
- The second `return` of `get_filenames` (line 137) is not modelled. It is unreachable.
- Python's distinction between the tuple taken from the vertex array and the list kept for an unsnapped endpoint is not modelled. Both are the same coordinate triple here.
