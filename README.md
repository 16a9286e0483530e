# BVH and light-map receiver bookkeeping, modelled in Dafny

This project models two engine components: the bookkeeping inside the entity
BVH component and the buffer-index tables of the client-side light-map
receiver component.

**BVH component.** `RebuildBvh` works through these steps:

- It keeps only the triangle sub-meshes of the entity.
- It lays them out as a chain of mesh ranges, each `[start, start + index count)`, in index units.
- It flattens every index triple into one triangle slot of the primitive array.
- It stores the tree the external builder produced.

`RebuildAnimatedBvh` does two things:

- It re-poses every slot in place through the vertex-position callback.
- It refits every leaf box as the union of its primitives' boxes, taken through the `primitive_indices` permutation.

`IntersectionTest` attributes a traverser hit to a mesh range with `std::upper_bound` and computes a local primitive index.

**Light-map receiver.** It numbers the sub-meshes of mesh group 0 in order:

- Sub-meshes that carry a "lightmap" UV set enter the number tables.
- Buffer indices are assigned per sub-mesh and never overwritten.
- Buffer indices carry over to a new model by sub-mesh number.
- The per-render-mesh buffer table is rebuilt lazily under a dirty flag, with `0xFFFFFFFF` as its "none" sentinel.

Modules:

- `Wrappers`: `Option`.
- `BvhGeometry`: vectors, triangles and boxes over integer coordinates.
- `BvhMeshRanges`: sub-meshes, mesh ranges, the specification functions of a rebuild and a re-pose, and the partition and slot lemmas.
- `BvhLookup`: the hit attribution, both as written and corrected.
- `BvhRefit`: tree nodes and leaf refit.
- `BvhComponent`: the classes `BvhData` and `BaseBvhComponent` and their imperative loops.
- `LightMapTables`: the tables as functions of the flattened sub-mesh list.
- `LightMapReceiver`: the class `LightMapReceiverComponent` and its loops.

The imperative methods are proved against the specification functions. The properties are proved about those functions as lemmas.

## Model

| member | source | states |
|---|---|---|
| `BvhGeometry.TriangleBox` | core/shared/src/entities/components/base_bvh_component.cpp:168-173 | the box of a triangle contains its three corners |
| `BvhGeometry.Extend` | core/shared/src/entities/components/base_bvh_component.cpp:168-173 | extending a box by another gives a box enclosing both, and the least such box |
| `BvhMeshRanges.AcceptedPositionsMatch` | core/shared/src/entities/components/base_bvh_component.cpp:79-81 | kept mesh `k` is the input mesh at the `k`th accepted position, so every kept mesh comes from the input |
| `BvhMeshRanges.AcceptedPositionsOrdered` | core/shared/src/entities/components/base_bvh_component.cpp:87-88 | the accepted positions strictly increase and include the position of every triangle mesh |
| `BvhMeshRanges.AcceptedMeshesExactly` | core/shared/src/entities/components/base_bvh_component.cpp:79-81 | the filter keeps exactly the triangle meshes of the input, each once, in input order |
| `BvhMeshRanges.MeshesSnoc` | core/shared/src/entities/components/base_bvh_component.cpp:89-94 | pushing a range appends its mesh |
| `BvhMeshRanges.ChainedSnoc` | core/shared/src/entities/components/base_bvh_component.cpp:89-97 | pushing a range that starts at the current end keeps the chain |
| `BvhMeshRanges.BuildRangesChained` | core/shared/src/entities/components/base_bvh_component.cpp:84-98 | the ranges start at 0, each ends at start plus index count, each next starts at the previous end, and the last end is the total index count |
| `BvhMeshRanges.BuildRangesMeshes` | core/shared/src/entities/components/base_bvh_component.cpp:85-94 | the ranges hold exactly the triangle meshes, in input order |
| `BvhMeshRanges.BuildRangesWellFormed` | core/shared/src/entities/components/base_bvh_component.cpp:84-98 | every recorded range holds an accepted, well-formed triangle mesh, so each range covers whole triangles |
| `BvhMeshRanges.BuildRangesShape` | core/shared/src/entities/components/base_bvh_component.cpp:82-98 | the range list is chained, lists the accepted meshes in order, and ends at the total index count; with well-formed meshes it is a partition |
| `BvhMeshRanges.ChainedOrdered` | core/shared/src/entities/components/base_bvh_component.cpp:84-98 | in a chain, an earlier range ends at or before a later one starts |
| `BvhMeshRanges.ChainedSortedDisjoint` | core/shared/src/entities/components/base_bvh_component.cpp:39-42 | a chain is sorted under `MeshRange::operator<` and its ranges are pairwise disjoint |
| `BvhMeshRanges.RangeContaining` | core/shared/src/entities/components/base_bvh_component.cpp:84-98 | every index below the end lies in some range of the chain |
| `BvhMeshRanges.RangeContainingUnique` | core/shared/src/entities/components/base_bvh_component.cpp:84-98 | the range containing an index is unique |
| `BvhMeshRanges.PrefixEnd` | core/shared/src/entities/components/base_bvh_component.cpp:96-97 | after `k` pushes the running offset is the end of the first `k` ranges, at most the whole end |
| `BvhMeshRanges.EndAligned` | core/shared/src/entities/components/base_bvh_component.cpp:96-101 | in a partition the end is a multiple of 3 |
| `BvhMeshRanges.FlatTrianglesCount` | core/shared/src/entities/components/base_bvh_component.cpp:101 | the primitive array has exactly `end / 3` entries |
| `BvhMeshRanges.PartitionedAligned` | core/shared/src/entities/components/base_bvh_component.cpp:103-123 | every range starts on a triangle boundary |
| `BvhMeshRanges.FlatTrianglesSnoc` | core/shared/src/entities/components/base_bvh_component.cpp:103-124 | the primitives of one more range are the old ones followed by that mesh's triangles |
| `BvhMeshRanges.FlatTrianglesPrefixIndex` | core/shared/src/entities/components/base_bvh_component.cpp:103-124 | a later range never changes an earlier slot |
| `BvhMeshRanges.PartitionedPrefix` | core/shared/src/entities/components/base_bvh_component.cpp:84-98 | every prefix of a partition is a partition |
| `BvhMeshRanges.AppendedTriangle` | core/shared/src/entities/components/base_bvh_component.cpp:115-120 | after appending a mesh's triangles, slot `front + t` holds its triangle `t` |
| `BvhMeshRanges.SlotOfLastRange` | core/shared/src/entities/components/base_bvh_component.cpp:115-120 | triple `t` of the last range lands in slot `(start + 3t) / 3` and holds that mesh's triangle `t` |
| `BvhMeshRanges.SlotContents` | core/shared/src/entities/components/base_bvh_component.cpp:108-122 | for triple `t` of range `k`, slot `(start + 3t) / 3` holds the three vertices the triple names |
| `BvhMeshRanges.SlotHoldsTriple` | core/shared/src/entities/components/base_bvh_component.cpp:115-120 | for the mesh-local triple `i = 3t` of range `k`, the slot `(start + i) / 3` is `start / 3 + t`, lies inside the primitive array and holds the vertices of that mesh's indices `i`, `i+1` and `i+2` |
| `BvhMeshRanges.SlotsInjective` | core/shared/src/entities/components/base_bvh_component.cpp:103-124 | two triples that land in the same slot are the same triple of the same range: each slot is written once |
| `BvhMeshRanges.SlotsCovered` | core/shared/src/entities/components/base_bvh_component.cpp:101-124 | every slot below the primitive count is written by some triple |
| `BvhMeshRanges.BuildPrimitivesLayout` | core/shared/src/entities/components/base_bvh_component.cpp:82-124 | the rebuild's primitive count is the total index count over 3, and its ranges partition the primitives |
| `BvhMeshRanges.BuildSnoc` | core/shared/src/entities/components/base_bvh_component.cpp:85-124 | one more input mesh grows ranges, total and primitives by that mesh if it is a triangle mesh, and leaves them alone otherwise |
| `BvhMeshRanges.TotalIndicesPrefix` | core/shared/src/entities/components/base_bvh_component.cpp:96-97 | the running total over a prefix is at most the total over all meshes |
| `BvhMeshRanges.RangesSnoc` | core/shared/src/entities/components/base_bvh_component.cpp:85-98 | one step of the first loop: a triangle mesh pushes `[total, total + count)` and a skipped mesh changes nothing |
| `BvhMeshRanges.FillSnoc` | core/shared/src/entities/components/base_bvh_component.cpp:103-124 | one step of the second loop: a triangle mesh appends its triangles at the running offset |
| `BvhMeshRanges.RestPoseIsBuild` | core/shared/src/entities/components/base_bvh_component.cpp:137-162 | posing every vertex at its rest position gives back the rebuilt primitives |
| `BvhMeshRanges.PosedTrianglesLength` | core/shared/src/entities/components/base_bvh_component.cpp:137-162 | posing never changes the primitive count |
| `BvhMeshRanges.PosedSnoc` | core/shared/src/entities/components/base_bvh_component.cpp:137-162 | the posed primitives of one more range are the old ones followed by that range's posed triangles |
| `BvhLookup.UpperBoundIn` | core/shared/src/entities/components/base_bvh_component.cpp:194-196 | the binary search splits the ranges into those starting at or before the key and those starting after it |
| `BvhLookup.UpperBound` | core/shared/src/entities/components/base_bvh_component.cpp:194-196 | `std::upper_bound` returns the first range whose start exceeds the key |
| `BvhLookup.LinearUpperBoundBounds` | core/shared/src/entities/components/base_bvh_component.cpp:194-196 | the linear scan also splits the ranges at the key |
| `BvhLookup.UpperBoundIsLinearScan` | core/shared/src/entities/components/base_bvh_component.cpp:194-196 | the binary search returns the same position as the linear scan |
| `BvhLookup.ChosenRange` | core/shared/src/entities/components/base_bvh_component.cpp:194-197 | `--it` lands on the last range whose start is at or before the key, and it exists because the first start is 0 |
| `BvhLookup.ResolveHit` | core/shared/src/entities/components/base_bvh_component.cpp:194-205 | the reported mesh is the chosen range's mesh, the local index is `primitive_index - start`, and `u`, `v`, `t` and `distance` pass through |
| `BvhLookup.ChainedIsSorted` | core/shared/src/entities/components/base_bvh_component.cpp:84-98 | a chain satisfies the ordering `upper_bound` needs |
| `BvhLookup.ResolveHitSingleRange` | core/shared/src/entities/components/base_bvh_component.cpp:194-205 | with a single range, the as-written lookup names the mesh that wrote the slot and the slot itself |
| `BvhLookup.ChosenIsContaining` | core/shared/src/entities/components/base_bvh_component.cpp:194-197 | on a chain, the range `upper_bound` and `--it` choose is the one containing the key |
| `BvhLookup.ResolveHitByTriangleAttributes` | core/shared/src/entities/components/base_bvh_component.cpp:194-205 | corrected lookup (search with `3 * primitive_index`, local index `primitive_index - start / 3`): it picks the range containing the hit slot and names the mesh and local triangle that wrote that slot |
| `BvhLookup.SlotOfHit` | core/shared/src/entities/components/base_bvh_component.cpp:194-200 | a hit slot lies in the range chosen for `3 * slot`, within that mesh's triangles |
| `BvhLookup.SlotTriangle` | core/shared/src/entities/components/base_bvh_component.cpp:115-120 | slot `start / 3 + t` holds triangle `t` of range `k`'s mesh |
| `BvhLookup.ResolveHitMisattributes` | core/shared/src/entities/components/base_bvh_component.cpp:194-200 | for meshes of 6 and 3 indices, a hit on slot 2 is reported as mesh A, triangle 2, though mesh B triangle 0 wrote it |
| `BvhRefit.LeafBoxEncloses` | core/shared/src/entities/components/base_bvh_component.cpp:166-174 | a refitted leaf box contains the box of every primitive of the leaf |
| `BvhRefit.LeafBoxLeast` | core/shared/src/entities/components/base_bvh_component.cpp:166-174 | any box containing every primitive of the leaf contains the refitted box |
| `BvhRefit.LeavesBoundCorners` | core/shared/src/entities/components/base_bvh_component.cpp:166-174 | in a bounding tree, every corner of a leaf's triangles is inside the leaf box |
| `BvhRefit.RefitBounds` | core/shared/src/entities/components/base_bvh_component.cpp:165-174 | a refit keeps the topology fitting the primitives and makes every leaf bound its primitives |
| `BvhComponent.BvhData.constructor` | core/shared/src/entities/components/base_bvh_component.cpp:54-55 | new BVH data holds no nodes, primitives or ranges |
| `BvhComponent.BvhData.InitializeIntersectorData` | core/shared/src/entities/components/base_bvh_component.cpp:57-71 | stores the built tree and keeps the primitives and ranges; the tree fits and bounds the primitives |
| `BvhComponent.LeafBounds` | core/shared/src/entities/components/base_bvh_component.cpp:166-173 | the leaf loop computes the union box, which contains each primitive of the leaf |
| `BvhComponent.CollectRanges` | core/shared/src/entities/components/base_bvh_component.cpp:82-98 | the first loop builds a chain of the triangle meshes; with well-formed meshes it partitions `[0, numVerts)` |
| `BvhComponent.WriteMeshTriangles` | core/shared/src/entities/components/base_bvh_component.cpp:108-122 | the index loop writes the mesh's triangles into slots `offset / 3` onward and nothing else |
| `BvhComponent.AppendMeshTriangles` | core/shared/src/entities/components/base_bvh_component.cpp:108-123 | after one mesh the written prefix is the old prefix followed by the mesh's triangles |
| `BvhComponent.FillPrimitives` | core/shared/src/entities/components/base_bvh_component.cpp:101-124 | the second loop fills the whole primitive array with the flattened triangles |
| `BvhComponent.PoseTriangle` | core/shared/src/entities/components/base_bvh_component.cpp:146-154 | the corner loop gives the triple's three posed vertices |
| `BvhComponent.WritePosedTriangles` | core/shared/src/entities/components/base_bvh_component.cpp:143-161 | posing one range rewrites exactly that range's slots |
| `BvhComponent.RewritePosedTriangles` | core/shared/src/entities/components/base_bvh_component.cpp:143-161 | after one range the rewritten prefix is the old prefix followed by that range's posed triangles |
| `BvhComponent.PoseStep` | core/shared/src/entities/components/base_bvh_component.cpp:137-162 | the running slot is the start of the next range, and the posed primitives grow by that range |
| `BvhComponent.PoseRanges` | core/shared/src/entities/components/base_bvh_component.cpp:137-162 | the vertex loop rewrites every slot with the posed triangles of the ranges, in place |
| `BvhComponent.RefitLeaves` | core/shared/src/entities/components/base_bvh_component.cpp:165-174 | every leaf gets its refitted box and no node changes its children, primitive run or, if inner, box |
| `BvhComponent.BaseBvhComponent.constructor` | core/shared/src/entities/components/base_bvh_component.cpp:221-223 | a new component has no BVH data |
| `BvhComponent.BaseBvhComponent.ClearBvh` | core/shared/src/entities/components/base_bvh_component.cpp:73 | drops the BVH data |
| `BvhComponent.BaseBvhComponent.RebuildBvh` | core/shared/src/entities/components/base_bvh_component.cpp:75-128 | always returns true and replaces the data with fresh ranges and primitives equal to the rebuild's, plus the given tree |
| `BvhComponent.BaseBvhComponent.RebuildAnimatedBvh` | core/shared/src/entities/components/base_bvh_component.cpp:130-175 | without the model or animated component nothing changes; otherwise primitives are the posed triangles and nodes a refit, with ranges unchanged |
| `BvhComponent.BaseBvhComponent.IntersectionTest` | core/shared/src/entities/components/base_bvh_component.cpp:177-209 | true exactly when there is data and a hit, then with the as-written attribution; otherwise the out-parameter is untouched |
| `BvhComponent.BaseBvhComponent.IntersectionTestOptional` | core/shared/src/entities/components/base_bvh_component.cpp:211-219 | `None` exactly when the out-parameter form returns false, otherwise the same attribution |
| `BvhComponent.RestPoseRebuildKeepsPrimitives` | core/shared/src/entities/components/base_bvh_component.cpp:137-162 | re-posing a fresh rebuild at the rest pose leaves its primitives as they are |
| `LightMapTables.FlattenSnoc` | core/client/src/entites/components/c_light_map_receiver_component.cpp:61-78 | the sub-mesh list of one more mesh grows by that mesh's sub-meshes |
| `LightMapTables.FlattenPrefix` | core/client/src/entites/components/c_light_map_receiver_component.cpp:61-78 | the sub-meshes of a prefix of meshes are a prefix of all sub-meshes |
| `LightMapTables.FlattenPosition` | core/client/src/entites/components/c_light_map_receiver_component.cpp:61-78 | sub-mesh `j` of mesh `i` gets the running number of the sub-meshes before it plus `j` |
| `LightMapTables.Insert` | core/client/src/entites/components/c_light_map_receiver_component.cpp:164-171 | `unordered_map::insert` adds a missing key and never overwrites an existing one |
| `LightMapTables.FirstPositionsSpec` | core/client/src/entites/components/c_light_map_receiver_component.cpp:61-78 | a sub-mesh is numbered exactly when it occurs at an eligible number, and its number is the first such |
| `LightMapTables.FirstPositionsInjective` | core/client/src/entites/components/c_light_map_receiver_component.cpp:61-78 | distinct sub-meshes get distinct numbers |
| `LightMapTables.CarriedBufferIndices` | core/client/src/entites/components/c_light_map_receiver_component.cpp:129-137 | every old sub-mesh with a number and a buffer index carries that index under its number, and nothing else is carried |
| `LightMapTables.RemappedBufferIndices` | core/client/src/entites/components/c_light_map_receiver_component.cpp:141-161 | the new sub-mesh to buffer table has exactly the sub-meshes renumbered under a carried number |
| `LightMapTables.UvDataTablesAgree` | core/client/src/entites/components/c_light_map_receiver_component.cpp:54-78 | number to mesh and mesh to number agree: each numbered sub-mesh is in the mesh table under its number, and each table entry is numbered at or below its key |
| `LightMapTables.SameModelKeepsNumbers` | core/client/src/entites/components/c_light_map_receiver_component.cpp:120-161 | renumbering the same model keeps the number of every sub-mesh that had a buffer index and drops the others |
| `LightMapTables.SameModelKeepsBufferIndices` | core/client/src/entites/components/c_light_map_receiver_component.cpp:120-161 | renumbering the same model keeps every sub-mesh's buffer index |
| `LightMapTables.CarryOverByNumber` | core/client/src/entites/components/c_light_map_receiver_component.cpp:129-161 | across any model change, a new sub-mesh keeps a buffer index exactly when it is numbered under a carried number, and it gets the buffer index of the old sub-mesh that had that number |
| `LightMapTables.NumberTablesSnoc` | core/client/src/entites/components/c_light_map_receiver_component.cpp:66-76 | one more sub-mesh enters the UV and mesh tables under its number exactly when it has light-map UVs |
| `LightMapTables.FirstPositionsSnoc` | core/client/src/entites/components/c_light_map_receiver_component.cpp:66-76 | one more eligible sub-mesh is inserted under its number without overwriting |
| `LightMapTables.RemappedSnoc` | core/client/src/entites/components/c_light_map_receiver_component.cpp:141-161 | one more sub-mesh with a carried number receives the buffer index carried under it, without overwriting |
| `LightMapReceiver.GroupHasLightmapUvs` | core/client/src/entites/components/c_light_map_receiver_component.cpp:27-39 | the scan finds light-map UVs exactly when some sub-mesh of the group has them |
| `LightMapReceiver.CarriedFromStep` | core/client/src/entites/components/c_light_map_receiver_component.cpp:129-137 | visiting one more old sub-mesh adds its buffer index under its number, if it has one |
| `LightMapReceiver.CarriedFromAll` | core/client/src/entites/components/c_light_map_receiver_component.cpp:129-137 | after every old sub-mesh is visited the carried table is complete, in any visiting order |
| `LightMapReceiver.CollectCarried` | core/client/src/entites/components/c_light_map_receiver_component.cpp:129-137 | the loop over the old table builds the carried buffer indices by number |
| `LightMapReceiver.NumberSubMeshes` | core/client/src/entites/components/c_light_map_receiver_component.cpp:61-78 | the nested loops build the UV table, the mesh table and the first number of each sub-mesh |
| `LightMapReceiver.NumberMesh` | core/client/src/entites/components/c_light_map_receiver_component.cpp:64-77 | the inner loop advances the counter by the sub-mesh count and extends the tables by that mesh's sub-meshes |
| `LightMapReceiver.RenumberWithCarried` | core/client/src/entites/components/c_light_map_receiver_component.cpp:141-161 | the renumbering loops build the mesh table, the new numbers of carried sub-meshes and their buffer indices |
| `LightMapReceiver.LightMapReceiverComponent.constructor` | core/client/src/entites/components/c_light_map_receiver_component.cpp:82-84 | the state `Initialize` starts from: empty tables and both flags clear |
| `LightMapReceiver.LightMapReceiverComponent.Initialize` | core/client/src/entites/components/c_light_map_receiver_component.cpp:99-103 | on a spawned entity the sub-meshes are re-read as by `UpdateModelMeshes` and the render table rebuilt; otherwise nothing changes; name, UV table and baked flag are kept |
| `LightMapReceiver.LightMapReceiverComponent.OnModelChanged` | core/client/src/entites/components/c_light_map_receiver_component.cpp:85-90 | the render table is emptied, then buffer indices carry over by number as in `UpdateModelMeshes`; the dirty flag is set exactly when group 0 exists or it already was |
| `LightMapReceiver.LightMapReceiverComponent.FindBufferIndex` | core/client/src/entites/components/c_light_map_receiver_component.cpp:178-186 | none unless the model is baked; otherwise exactly the mesh's buffer index entry |
| `LightMapReceiver.LightMapReceiverComponent.RenderTable` | core/client/src/entites/components/c_light_map_receiver_component.cpp:111-118 | one entry per render mesh: its buffer index, or the sentinel when it has none |
| `LightMapReceiver.LightMapReceiverComponent.UpdateRenderMeshBufferList` | core/client/src/entites/components/c_light_map_receiver_component.cpp:105-119 | without a model component the table is empty and the dirty flag untouched; otherwise the table is rebuilt and the flag cleared; nothing else changes |
| `LightMapReceiver.LightMapReceiverComponent.GetBufferIndex` | core/client/src/entites/components/c_light_map_receiver_component.cpp:172-177 | rebuilds the table first only when dirty, then returns an entry exactly when the index is in range and not the sentinel |
| `LightMapReceiver.LightMapReceiverComponent.AssignBufferIndex` | core/client/src/entites/components/c_light_map_receiver_component.cpp:164-171 | no effect for an unknown number; otherwise the first assignment wins and the dirty flag is set |
| `LightMapReceiver.LightMapReceiverComponent.UpdateLightMapUvData` | core/client/src/entites/components/c_light_map_receiver_component.cpp:48-80 | without group 0 nothing changes; otherwise the tables are rebuilt from the numbered sub-meshes, buffer indices emptied, the baked flag set and the render table rebuilt |
| `LightMapReceiver.LightMapReceiverComponent.UpdateModelMeshes` | core/client/src/entites/components/c_light_map_receiver_component.cpp:120-162 | without a model nothing changes; without group 0 the mesh table is emptied; otherwise buffer indices carry over by sub-mesh number and the table is marked dirty |
| `LightMapReceiver.LightMapReceiverComponent.CarryOverBufferIndices` | core/client/src/entites/components/c_light_map_receiver_component.cpp:129-161 | the new tables are the renumbered sub-meshes with their carried buffer indices, and the other fields keep their values |
| `LightMapReceiver.LightMapReceiverComponent.SetTables` | core/client/src/entites/components/c_light_map_receiver_component.cpp:138-140 | replaces the three tables and sets the dirty flag, leaving the rest alone |
| `LightMapReceiver.LightMapReceiverComponent.SetupLightMapUvData` | core/client/src/entites/components/c_light_map_receiver_component.cpp:21-47 | a component exists afterwards exactly when some sub-mesh of group 0 has light-map UVs; then its tables describe that group, and its render table is rebuilt (all sentinels) or emptied and marked dirty |

## Left out

- The external `bvh` library's builder, traverser, intersector and refitter are not part of this model:
  - The built tree (nodes and `primitive_indices`) is a parameter of `RebuildBvh`.
  - The traverser's answer is an `Option<TraversalHit>` parameter of `IntersectionTest`.
  - Propagating the refitted boxes to inner nodes is the refitter's work. Inner nodes keep their boxes in the model.
- Ray and triangle intersection, barycentrics, `t` and `distance` are floating point. They are passed through unexamined. Vertex coordinates are integers, so the leaf-box union can be stated with ordered values.
- Engine lookups become parameters or are left out:
  - `GetLocalVertexPosition` is the `VertexPoser` function parameter.
  - The presence of the model and animated components is a pair of booleans.
  - The model is an `Option<Model>`.
  - The render meshes are `Option<seq<MeshId>>`, with `None` for a missing model component.
  - `AddComponent` is the `existing` parameter of `SetupLightMapUvData`.
- Sub-mesh identity is a `MeshId` number standing for the object's address.
- `VisitIndices` and `GetUVSet` are folded into the sub-mesh values.
- `UpdateMeshLightmapUvBuffers` is GPU buffer handling and is left out.
- The registration of the event callbacks in `Initialize` is left out. The model-changed handler is `OnModelChanged`. The render-meshes-updated and spawn handlers are plain calls of `UpdateRenderMeshBufferList` and `UpdateModelMeshes`.
- A BVH mesh range holds the sub-mesh as a value, where the source holds a shared pointer to a live mesh. `RebuildAnimatedBvh` re-reads the index count, vertices and indices from that mesh. The model therefore assumes no sub-mesh changed between `RebuildBvh` and `RebuildAnimatedBvh`. A mesh that grew in between would make the source write into another range's slots or past the primitive array; the model cannot express that.
- `SetupLightMapUvData` takes `AddComponent` to succeed. The source skips `UpdateLightMapUvData` when the returned handle is not valid; that failure path is not modelled.
- `BvhComponent.BaseBvhComponent.RebuildBvh` requires well-formed triangle meshes. Their index count is a multiple of 3 and every index names a vertex, because the source reads `idx[i+1]`, `idx[i+2]` and the vertices they name without checks.
- `BvhComponent.BaseBvhComponent.RebuildAnimatedBvh` requires existing BVH data when both components are present, because the source dereferences it unguarded.
- `BvhComponent.BaseBvhComponent.IntersectionTest` requires the hit's primitive index to name a primitive, which the traverser guarantees.
- `BvhComponent.BaseBvhComponent.IntersectionTest` keeps the lookup as written, not the corrected one (see Findings).
- `LightMapReceiver.LightMapReceiverComponent.constructor` assumes the initial field values: empty tables, an empty model name and both flags clear. The header declaring the member defaults is not part of this model.
- The width of `BufferIdx` is taken to be 32 bits (sentinel `0xFFFFFFFF`). The header declaring it is not part of this model.
- The 32-bit sub-mesh counter is unbounded in the model; a wrap-around needs more than four billion sub-meshes.
- `unordered_map` iteration order in `UpdateModelMeshes` is a set traversal in the model. The sub-mesh to number table stays injective, so the result does not depend on the order (`LightMapReceiver.CarriedFromAll`).

## Findings

| source | as written | input that shows it | evidently intended | confidence | as-written member | corrected member |
|---|---|---|---|---|---|---|
| core/shared/src/entities/components/base_bvh_component.cpp:194-200 | the hit's `primitive_index`, a triangle slot, is compared with range starts that are in index units, and the local index is `primitive_index - start` | mesh A with 6 indices (range `[0,6)`) and mesh B with 3 indices (range `[6,9)`); a hit on slot 2, which mesh B triangle 0 wrote, is reported as mesh A, local index 2 | compare `3 * primitive_index` with the starts and report `primitive_index - start / 3` | high, not executed | `BvhLookup.ResolveHitMisattributes` | `BvhLookup.ResolveHitByTriangleAttributes` |
