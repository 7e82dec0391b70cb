# Contour-tree worklets of VTK-m, modelled in Dafny

This project models four pieces of the augmented contour-tree code of
VTK-m 1.3 (as vendored in VTK 8.2), together with the stride `Mask` worklet,
and proves what they compute.

- **Freudenthal mesh oracle** (`freudenthal2d.dfy`, module `Freudenthal2D`).
  A row-major `nRows x nCols` grid whose vertices each have six incident
  triangulation edges. `GetNeighbourIndex` steps across one edge.
  A boundary configuration plus a per-edge mask table keeps the search inside
  the grid. `GetExtremalNeighbour` returns the first neighbour above (join)
  or below (split) the vertex in the global sort order. Where there is none,
  it returns the vertex's own sort index flagged as terminal.
  `GetNeighbourComponentsMaskAndDegree` builds a 6-bit neighbourhood mask. It
  then reduces that mask to one bit per cyclic run of outward neighbours, and
  the number of runs is the out-degree. The model proves this bit-twiddling
  equal to an independent definition (a six-bit rotation, `RunStarts`).
  It also proves that edges leave the grid only where the mask table says so,
  that adjacency is symmetric, and that the out-degree is 0 exactly when no
  neighbour is outward.
- **Tree compression** (`compress_trees.dfy`, module `CompressTrees`).
  One round of arc shortcutting on the join and split superarcs of the active
  supernodes. It is modelled as the serial loop, in which later iterations
  read earlier writes, and specified as a left fold `Compress`. The lemmas:
  - every new arc lies on the old arc chain;
  - direction (and so acyclicity) is preserved;
  - inactive supernodes and root arcs are untouched;
  - a round with nothing to jump is a no-op;
  - the result depends on the order of the active list, shown by a concrete
    example.
- **Hyperparent relabelling** (`reset_hyperparents.dfy`, module `ResetHyperparents`).
  The in-place loop `hyperparents[s] := superSortIndex[maskedIndex(hyperparents[s])]`.
  It is proved to be a pointwise map, so any visiting order gives the same
  array.
- **Sort indices** (`sort_indices.dfy`, module `SortIndicesStep`).
  The scatter `sortIndices[sortOrder[i]] := i`. When the sort order is a
  permutation, the result is its inverse permutation, whatever the output
  array held before.
- **Stride mask** (`stride_mask.dfy`, module `StrideMask`).
  - `Mask.Run` replaces the object's kept ids by `0, s, 2s, ...`, with
    `numberOfCells / s` of them.
  - `Mask.ProcessCellField` gathers a field at those ids.
  - Because the division rounds down, when `s` does not divide the number of
    cells, the cell `(n / s) * s` of the last partial block is not kept even
    though it exists.
  - Masking twice, with strides `a` then `b`, equals masking once with `a * b`.

Index values (`vtkm::Id` with flag bits) are the datatype
`ContourTreeTypes.Id`: a plain index plus the set of raised flags.
`maskedIndex` and `noSuchElement` are its accessors (`types.dfy`).

`CompressTrees_Step` and `ComputeHyperAndSuperStructure_ResetHyperparentsId`
each state in a comment the serial loop they implement, and the model
follows that loop. `SortIndices` has only a per-index operator; it is
modelled as the loop over its input domain, every position of `sortOrder`.
`Mask::Run` has no loop: it copies a counting array, which the model builds
directly as a sequence. Every loop is a `method` (over a Dafny `array` where
the worklet writes one), proved equal to a specification function; the
properties are lemmas about that function. The mesh is a datatype, since
each of its queries is `const`. Integer facts used by the grid and stride
proofs live in `arith.dfy` (module `Arith`).

## Model

| member | source | states |
|---|---|---|
| ContourTreeTypes.Plain | extern/VTK-8.2.0/include/vtk-8.2/vtkm/worklet/contourtree_augmented/mesh_dem_meshtypes/MeshStructureFreudenthal2D.h:196 | a plain index masks to itself and carries neither the sentinel nor the terminal flag |
| ContourTreeTypes.WithTerminal | extern/VTK-8.2.0/include/vtk-8.2/vtkm/worklet/contourtree_augmented/mesh_dem_meshtypes/MeshStructureFreudenthal2D.h:201 | OR-ing `TERMINAL_ELEMENT` raises the terminal flag, keeps the masked index and leaves every other flag as it was |
| Freudenthal2D.Mesh.GetMaxNumberOfNeighbours | extern/VTK-8.2.0/include/vtk-8.2/vtkm/worklet/contourtree_augmented/mesh_dem_meshtypes/MeshStructureFreudenthal2D.h:120 | the maximum number of neighbours is the constant `N_INCIDENT_EDGES` (six), and on a valid mesh it equals the number of entries of the mesh's own edge mask table |
| Freudenthal2D.Mesh.GetNeighbourIndex | extern/VTK-8.2.0/include/vtk-8.2/vtkm/worklet/contourtree_augmented/mesh_dem_meshtypes/MeshStructureFreudenthal2D.h:123-149 | the neighbour across edge `e` is the vertex at (row + dr, col + dc), with (dr, dc) running (0,+1), (+1,+1), (+1,0), (0,-1), (-1,-1), (-1,0) for edges 0..5 |
| Freudenthal2D.Opposite | extern/VTK-8.2.0/include/vtk-8.2/vtkm/worklet/contourtree_augmented/mesh_dem_meshtypes/MeshStructureFreudenthal2D.h:127-144 | edges `e` and `e + 3 (mod 6)` have opposite grid steps |
| Freudenthal2D.Mesh.VertexInGrid | extern/VTK-8.2.0/include/vtk-8.2/vtkm/worklet/contourtree_augmented/mesh_dem_meshtypes/MeshStructureFreudenthal2D.h:174-175 | every vertex id has a row below `nRows` and a column below `nCols`, and is `row * nCols + col` |
| Freudenthal2D.Mesh.BoundaryConfig | extern/VTK-8.2.0/include/vtk-8.2/vtkm/worklet/contourtree_augmented/mesh_dem_meshtypes/MeshStructureFreudenthal2D.h:176-178 | the left bit is set iff col == 0, right iff col == nCols-1, top iff row == 0, bottom iff row == nRows-1, and nothing else is set |
| Freudenthal2D.Mesh.ExaminedNeighbourInGrid | extern/VTK-8.2.0/include/vtk-8.2/vtkm/worklet/contourtree_augmented/mesh_dem_meshtypes/MeshStructureFreudenthal2D.h:184-190 | when every edge mask holds the sides it crosses, an edge that passes the boundary test leads to a vertex of the grid, so the sort-index lookup is in range |
| Freudenthal2D.Mesh.StandardMasksExamineGrid | extern/VTK-8.2.0/include/vtk-8.2/vtkm/worklet/contourtree_augmented/mesh_dem_meshtypes/MeshStructureFreudenthal2D.h:184 | with the library's mask table, an edge passes the boundary test exactly when its neighbour is inside the grid (both directions) |
| Freudenthal2D.Mesh.ExaminedEdgeLeadsBack | extern/VTK-8.2.0/include/vtk-8.2/vtkm/worklet/contourtree_augmented/mesh_dem_meshtypes/MeshStructureFreudenthal2D.h:123-149 | adjacency is symmetric: from the neighbour across an examined edge, the opposite edge is examined and leads back to the vertex |
| Freudenthal2D.Mesh.ExaminedNeighboursDistinct | extern/VTK-8.2.0/include/vtk-8.2/vtkm/worklet/contourtree_augmented/mesh_dem_meshtypes/MeshStructureFreudenthal2D.h:123-149 | two different examined edges of a vertex lead to different neighbours |
| Freudenthal2D.Mesh.Outward | extern/VTK-8.2.0/include/vtk-8.2/vtkm/worklet/contourtree_augmented/mesh_dem_meshtypes/MeshStructureFreudenthal2D.h:184-193 | an outward edge (examined, and its neighbour strictly on the requested side of the vertex in the sort order) leads to a vertex of the grid |
| Freudenthal2D.Mesh.FirstOutwardEdge | extern/VTK-8.2.0/include/vtk-8.2/vtkm/worklet/contourtree_augmented/mesh_dem_meshtypes/MeshStructureFreudenthal2D.h:181-199 | the result is the lowest-numbered outward edge below `nIncidentEdges`, or `nIncidentEdges` when there is none |
| Freudenthal2D.Mesh.GetExtremalNeighbour | extern/VTK-8.2.0/include/vtk-8.2/vtkm/worklet/contourtree_augmented/mesh_dem_meshtypes/MeshStructureFreudenthal2D.h:166-202 | returns the unflagged sort index of the neighbour across the first outward edge; otherwise the vertex's own sort index with the terminal flag. The result is terminal iff no edge is outward, and a non-terminal result lies strictly above (getMax) or below the vertex |
| Freudenthal2D.Mesh.OutwardMaskBelow | extern/VTK-8.2.0/include/vtk-8.2/vtkm/worklet/contourtree_augmented/mesh_dem_meshtypes/MeshStructureFreudenthal2D.h:226-246 | bit `e` of the mask over edges below `k` is set iff `e < k` and edge `e` is outward |
| Freudenthal2D.Mesh.NeighbourhoodMask | extern/VTK-8.2.0/include/vtk-8.2/vtkm/worklet/contourtree_augmented/mesh_dem_meshtypes/MeshStructureFreudenthal2D.h:226-246 | the loop's neighbourhood mask has bit `e` set exactly when edge `e` is outward, and it stays below 0x40 |
| Freudenthal2D.ComponentsOfNeighbourhood | extern/VTK-8.2.0/include/vtk-8.2/vtkm/worklet/contourtree_augmented/mesh_dem_meshtypes/MeshStructureFreudenthal2D.h:248-288 | a full mask (0x3F) gives component mask 0 and out-degree 1; any other mask gives the first edge of each cyclic run as the component mask and the number of runs as out-degree, at most 3 |
| Freudenthal2D.RunStartsBits | extern/VTK-8.2.0/include/vtk-8.2/vtkm/worklet/contourtree_augmented/mesh_dem_meshtypes/MeshStructureFreudenthal2D.h:256-285 | component bit `i` is set iff neighbourhood bit `i` is set and bit `(i + 5) mod 6` is clear, and the component mask fits in six bits |
| Freudenthal2D.RunCountZeroIffEmpty | extern/VTK-8.2.0/include/vtk-8.2/vtkm/worklet/contourtree_augmented/mesh_dem_meshtypes/MeshStructureFreudenthal2D.h:254-286 | for a six-bit mask other than 0x3F, the number of runs is 0 iff the mask is 0 |
| Freudenthal2D.RunCountAtMostThree | extern/VTK-8.2.0/include/vtk-8.2/vtkm/worklet/contourtree_augmented/mesh_dem_meshtypes/MeshStructureFreudenthal2D.h:254-286 | six cyclic positions hold at most three runs, so the out-degree is at most 3 |
| Freudenthal2D.Mesh.GetNeighbourComponentsMaskAndDegree | extern/VTK-8.2.0/include/vtk-8.2/vtkm/worklet/contourtree_augmented/mesh_dem_meshtypes/MeshStructureFreudenthal2D.h:208-289 | component bit `i` is set iff the neighbourhood is not full, edge `i` is outward and edge `(i + 5) mod 6` is not. The out-degree is the number of such bits, 1 for a full neighbourhood, at most 3, and 0 iff no edge is outward |
| CompressTrees.JumpArc | extern/VTK-8.2.0/include/vtk-8.2/vtkm/worklet/contourtree_augmented/contourtreemaker/CompressTrees_Step.h:104-131 | one supernode's step changes only that supernode's arc. A sentinel arc, or an arc whose target has no contour superarc yet, stays as it is; otherwise the arc becomes the target's arc |
| CompressTrees.Compress | extern/VTK-8.2.0/include/vtk-8.2/vtkm/worklet/contourtree_augmented/contourtreemaker/CompressTrees_Step.h:135-163 | the serial round keeps the array length and keeps every arc a sentinel or an index into the array |
| CompressTrees.CompressTreesStep | extern/VTK-8.2.0/include/vtk-8.2/vtkm/worklet/contourtree_augmented/contourtreemaker/CompressTrees_Step.h:133-165 | after the loop, each of the two arc arrays is the serial round applied to its old contents; the contour-tree superarcs are only read |
| CompressTrees.CompressFollowsChain | extern/VTK-8.2.0/include/vtk-8.2/vtkm/worklet/contourtree_augmented/contourtreemaker/CompressTrees_Step.h:104-131 | every arc after the round is reached from the old arc by following old arcs some number of times, whatever the order of the active list |
| CompressTrees.CompressKeepsDirection | extern/VTK-8.2.0/include/vtk-8.2/vtkm/worklet/contourtree_augmented/contourtreemaker/CompressTrees_Step.h:104-131 | if every arc points to a higher (join) or lower (split) supernode before the round, the same holds after it, so no cycle appears |
| CompressTrees.CompressKeepsInactiveAndRoots | extern/VTK-8.2.0/include/vtk-8.2/vtkm/worklet/contourtree_augmented/contourtreemaker/CompressTrees_Step.h:135-150 | arcs of supernodes not in the active list, and arcs to the infinite root, are unchanged |
| CompressTrees.CompressFixedPoint | extern/VTK-8.2.0/include/vtk-8.2/vtkm/worklet/contourtree_augmented/contourtreemaker/CompressTrees_Step.h:106-115 | a round in which no active arc can jump leaves the array unchanged |
| CompressTrees.CompressOrderMatters | extern/VTK-8.2.0/include/vtk-8.2/vtkm/worklet/contourtree_augmented/contourtreemaker/CompressTrees_Step.h:135-163 | on a fixed four-supernode chain, active orders [0, 1] and [1, 0] give different arcs for supernode 0 |
| ResetHyperparents.RelabelInOrder | extern/VTK-8.2.0/include/vtk-8.2/vtkm/worklet/contourtree_augmented/contourtreemaker/ComputeHyperAndSuperStructure_ResetHyperparentsId.h:97-99 | relabelling in any order of distinct supernodes maps each visited slot to the renumbering of its old value and leaves the others unchanged |
| ResetHyperparents.ResetHyperparentsId | extern/VTK-8.2.0/include/vtk-8.2/vtkm/worklet/contourtree_augmented/contourtreemaker/ComputeHyperAndSuperStructure_ResetHyperparentsId.h:101-105 | after the loop, each supernode's hyperparent is the renumbering of its old one, slots past the table are unchanged, and the array equals the relabelling in increasing order |
| ResetHyperparents.RelabelOrderIndependent | extern/VTK-8.2.0/include/vtk-8.2/vtkm/worklet/contourtree_augmented/contourtreemaker/ComputeHyperAndSuperStructure_ResetHyperparentsId.h:92-99 | any two visiting orders of the same supernodes produce the same array, as the parallel dispatch needs |
| SortIndicesStep.Scatter | extern/VTK-8.2.0/include/vtk-8.2/vtkm/worklet/contourtree_augmented/mesh_dem/SortIndices.h:96 | the scatter keeps the length of the output array |
| SortIndicesStep.ScatterLastWriteWins | extern/VTK-8.2.0/include/vtk-8.2/vtkm/worklet/contourtree_augmented/mesh_dem/SortIndices.h:96 | a slot named by position `i` and by no later position ends up holding `i` |
| SortIndicesStep.ScatterUntouched | extern/VTK-8.2.0/include/vtk-8.2/vtkm/worklet/contourtree_augmented/mesh_dem/SortIndices.h:96 | a slot the sort order never names keeps its old value |
| SortIndicesStep.ScatterInverts | extern/VTK-8.2.0/include/vtk-8.2/vtkm/worklet/contourtree_augmented/mesh_dem/SortIndices.h:81-97 | for a permutation sort order, the result is a permutation, and composing it with the sort order either way gives the identity |
| SortIndicesStep.ScatterIgnoresOldContents | extern/VTK-8.2.0/include/vtk-8.2/vtkm/worklet/contourtree_augmented/mesh_dem/SortIndices.h:83 | for a permutation sort order, the output-only array's previous contents do not affect the result |
| SortIndicesStep.SortIndices | extern/VTK-8.2.0/include/vtk-8.2/vtkm/worklet/contourtree_augmented/mesh_dem/SortIndices.h:91-97 | the loop leaves the array equal to the scatter of the sort order. For a permutation, the array is its inverse: `sortIndices[sortOrder[i]] == i` and `sortOrder[sortIndices[v]] == v` |
| StrideMask.StrideIds | extern/VTK-8.2.0/include/vtk-8.2/vtkm/worklet/Mask.h:51-53 | there are `numberOfCells / stride` ids, the k-th is `k * stride`, each is below the number of cells, and they strictly increase |
| StrideMask.StrideIdsMembers | extern/VTK-8.2.0/include/vtk-8.2/vtkm/worklet/Mask.h:52-53 | a cell id is kept iff it is a multiple of the stride below `(numberOfCells / stride) * stride` |
| StrideMask.StrideOmitsPartialBlock | extern/VTK-8.2.0/include/vtk-8.2/vtkm/worklet/Mask.h:52 | when the stride does not divide the number of cells, the multiple `(n / s) * s` is a cell of the input but is not kept |
| StrideMask.Mask.constructor | extern/VTK-8.2.0/include/vtk-8.2/vtkm/worklet/Mask.h:76 | a new worklet keeps no cell ids |
| StrideMask.Mask.Run | extern/VTK-8.2.0/include/vtk-8.2/vtkm/worklet/Mask.h:47-58 | replaces the kept ids (the only state) by the stride ids of the cell set, and returns the permutation cell set over those ids, the input cell set and its name; every id names an input cell |
| StrideMask.Mask.ProcessCellField | extern/VTK-8.2.0/include/vtk-8.2/vtkm/worklet/Mask.h:62-73 | the result has one value per kept id, and value `k` is the input field at the k-th kept id; the object is only read |
| StrideMask.ProcessStridedField | extern/VTK-8.2.0/include/vtk-8.2/vtkm/worklet/Mask.h:47-73 | after `Run` with stride `s`, processing a field of `n` values gives `n / s` values, the k-th being input value `k * s` |
| StrideMask.ProcessUnitStrideIsIdentity | extern/VTK-8.2.0/include/vtk-8.2/vtkm/worklet/Mask.h:47-73 | with stride 1, processing returns the field unchanged |
| StrideMask.StridesCompose | extern/VTK-8.2.0/include/vtk-8.2/vtkm/worklet/Mask.h:47-73 | masking with stride `a` and then with stride `b` gives the same field as one mask with stride `a * b` |

## Left out

- The freudenthal_2D `Types.h` header is not part of this model. It supplies `N_INCIDENT_EDGES`, the four boundary bits and the edge mask table. The model uses six edges, the distinct single bits top = 1, right = 2, bottom = 4, left = 8, and a table (`StandardMasks`) built from the sides each edge crosses. The general lemmas only ask that each edge's mask hold the sides that edge crosses.
- The index-flag header `contourtree_augmented/Types.h` is not part of this model either. It supplies `noSuchElement`, `maskedIndex` and `TERMINAL_ELEMENT`.
- The 64-bit layout of flagged ids is not modelled. `Id` keeps the plain index and the flags apart, and only the behaviour of `maskedIndex`, `noSuchElement` and OR-ing `TERMINAL_ELEMENT` is kept.
- The base class `MeshStructure2D` is not part of this model. Its `vertexRow` and `vertexColumn` are taken as `v / nCols` and `v % nCols`.
- Freudenthal2D.Mesh.GetNeighbourIndex: the `abort()` for an edge number outside 0..5 becomes the precondition `edgeNo < 6`. The queries that call it also require `nIncidentEdges <= N_INCIDENT_EDGES` through `Valid()`, although the source accepts any bound as a constructor argument (next line).
- Freudenthal2D.Mesh.Valid: requires `nIncidentEdges <= N_INCIDENT_EDGES`, and every query asks for a valid mesh. The source takes the bound as a constructor argument and `GetExtremalNeighbour` loops up to it. A larger bound makes that loop fetch masks past the six-entry table, which the model does not give a meaning. With a larger bound, a call that finds an outward edge below 6 would still return normally, and the model does not cover those calls.
- The neighbourhood and component masks are `vtkm::Id` and the boundary configuration is `Int8` in the source. The model uses `bv8`, which loses nothing because every value stays below 0x40.
- The default constructor of the mesh (no grid, `getMax` false) and the `PrepareForInput` portals are left out. The mesh is a value built from its fields.
- Parallel dispatch, control and execution signatures, portals and device adapters are left out. Each worklet is modelled serially: `CompressTrees_Step` and `ResetHyperparentsId` as the serial loops their comments give, and `SortIndices` as a loop over its input domain `sortOrder` in increasing order. For `CompressTrees_Step`, the parallel interleaving of reads and writes between supernodes is not modelled; the serial order is. When a sort order names one vertex twice, two work items of `SortIndices` write that slot at once and the worklet does not say which write wins; `ScatterLastWriteWins` states what the serial loop does, not a promise of the worklet. For a permutation every slot is written exactly once (`ScatterInverts`, `ScatterIgnoresOldContents`), so the question does not arise.
- CompressTrees.CompressTreesStep: the unused `activeID` argument is dropped. The preconditions ask that the two arc arrays be different arrays of the tree's length, each arc be a sentinel or a valid index, and each active id name a supernode. The source assumes these without checking.
- ResetHyperparents.ResetHyperparentsId: the loop runs over `superSortIndex`, which is the worklet's input domain. The serial comment uses the supernode count instead; the two are the same size in the library.
- SortIndicesStep.SortIndices: the output array is passed in with arbitrary contents. For a permutation sort order, `ScatterIgnoresOldContents` shows those contents do not matter.
- StrideMask.Mask.Run: requires `stride > 0`. A zero stride is a division by zero in the source. A negative stride is excluded too: C++ division truncates, so with a negative stride the source computes `numberOfCells / stride` as zero or a negative count. For zero it returns an empty id list, and a negative count is not a valid array length. The cell set is reduced to its name and cell count. `ArrayHandleCounting` followed by `ArrayCopy` becomes building the id sequence directly.
- StrideMask.Mask.Run: the returned permutation cell set holds a snapshot of the id list, not storage shared with the worklet. In the source, the returned cell set and the worklet's `ValidCellIds` share one `ArrayHandle`. A later `Run` on the same worklet, as the filter does with its single `Worklet` member, rewrites that storage, so earlier results see the new ids. The model does not capture this aliasing.
- StrideMask.Mask.ProcessCellField: the lazy `ArrayHandlePermutation` view and the storage-type template parameter are modelled as the copied result sequence. The `BoolType` type list is type plumbing.
- The library's logging, configuration and version headers, the implicit-function handle, the histogram, contour-tree and mask filter classes, the point-average filter and the field-type resolution glue are left out. They hold I/O, configuration or dispatch glue and none of the logic modelled here. The three filter classes are declarations; their `.hxx` implementations are not modelled.
