/**
 * `CLightMapReceiverComponent`: the per-entity bookkeeping that maps the
 * sub-meshes of a light-mapped model to light-map buffer indices, and the
 * render meshes of the entity to the same indices.
 *
 * The entity's model, its render meshes and whether it has a model component
 * come in as parameters: `model` is the entity's model, if any, and
 * `renderMeshes` is `None` when there is no model component, otherwise the
 * model component's render meshes.
 */
module LightMapReceiver {
  import opened Wrappers
  import opened LightMapTables

  /** What `GetBufferIndex` reads from the render-mesh table: none past its end or at the sentinel. */
  function TableEntry(table: seq<BufferIdx>, meshIdx: nat): Option<BufferIdx> {
    if meshIdx < |table| && table[meshIdx] != MaxBufferIdx then Some(table[meshIdx]) else None
  }

  lemma PrefixStep<T>(front: seq<T>, xs: seq<T>, j: nat)
    requires j < |xs|
    ensures front + xs[..j + 1] == (front + xs[..j]) + [xs[j]]
  {
    assert xs[..j + 1] == xs[..j] + [xs[j]];
  }

  /** Some sub-mesh of `subs` has light-map UVs. */
  predicate AnyLightmapUvs(subs: seq<LmSubMesh>) {
    exists k :: 0 <= k < |subs| && HasLightmapUvs(subs[k])
  }

  /**
   * The scan `SetupLightMapUvData` makes over mesh group 0: it stops at the
   * first sub-mesh with light-map UVs.
   */
  method GroupHasLightmapUvs(ms: seq<Mesh>) returns (found: bool)
    ensures found <==> AnyLightmapUvs(Flatten(ms))
  {
    found := false;
    var i := 0;
    label meshLoop: while i < |ms|
      invariant 0 <= i <= |ms|
      invariant !found && !AnyLightmapUvs(Flatten(ms[..i]))
    {
      var mesh := ms[i];
      FlattenSnoc(ms, i);
      var j := 0;
      while j < |mesh.subMeshes|
        invariant 0 <= j <= |mesh.subMeshes|
        invariant !AnyLightmapUvs(Flatten(ms[..i]) + mesh.subMeshes[..j])
      {
        if mesh.subMeshes[j].lightmapUvs.Some? {
          FlattenPosition(ms, i, j);
          found := true;
          break meshLoop;
        }
        PrefixStep(Flatten(ms[..i]), mesh.subMeshes, j);
        j := j + 1;
      }
      assert mesh.subMeshes[..j] == mesh.subMeshes;
      i := i + 1;
    }
    if !found {
      assert ms[..i] == ms;
    }
  }

  /** The buffer indices carried over to their numbers from the sub-meshes in `visited`. */
  function CarriedFrom(meshToMeshIdx: map<MeshId, nat>, meshToBufIdx: map<MeshId, BufferIdx>, visited: set<MeshId>): map<nat, BufferIdx>
    requires visited <= meshToMeshIdx.Keys && Injective(meshToMeshIdx)
  {
    map id | id in visited && id in meshToBufIdx :: meshToMeshIdx[id] := meshToBufIdx[id]
  }

  /** Visiting one more sub-mesh adds its entry, at a number nobody visited before had. */
  lemma CarriedFromStep(meshToMeshIdx: map<MeshId, nat>, meshToBufIdx: map<MeshId, BufferIdx>, visited: set<MeshId>, mesh: MeshId)
    requires visited <= meshToMeshIdx.Keys && Injective(meshToMeshIdx)
    requires mesh in meshToMeshIdx && mesh !in visited
    ensures meshToMeshIdx[mesh] !in CarriedFrom(meshToMeshIdx, meshToBufIdx, visited)
    ensures CarriedFrom(meshToMeshIdx, meshToBufIdx, visited + {mesh}) ==
            if mesh in meshToBufIdx then CarriedFrom(meshToMeshIdx, meshToBufIdx, visited)[meshToMeshIdx[mesh] := meshToBufIdx[mesh]]
            else CarriedFrom(meshToMeshIdx, meshToBufIdx, visited)
  {
  }

  lemma CarriedFromAll(meshToMeshIdx: map<MeshId, nat>, meshToBufIdx: map<MeshId, BufferIdx>, visited: set<MeshId>)
    requires visited <= meshToMeshIdx.Keys && meshToMeshIdx.Keys - visited == {} && Injective(meshToMeshIdx)
    ensures CarriedFrom(meshToMeshIdx, meshToBufIdx, visited) == CarriedBufferIndices(meshToMeshIdx, meshToBufIdx)
  {
    forall id | id in meshToMeshIdx.Keys ensures id in visited {
      assert id !in meshToMeshIdx.Keys - visited;
    }
    assert visited == meshToMeshIdx.Keys;
  }

  /**
   * `meshIdxToBufIdx` as `UpdateModelMeshes` fills it: a walk over the
   * sub-mesh-to-number table in no particular order, carrying the buffer
   * index of every sub-mesh that has one over to its number.
   */
  method CollectCarried(meshToMeshIdx: map<MeshId, nat>, meshToBufIdx: map<MeshId, BufferIdx>) returns (carried: map<nat, BufferIdx>)
    requires Injective(meshToMeshIdx)
    ensures carried == CarriedBufferIndices(meshToMeshIdx, meshToBufIdx)
  {
    carried := map[];
    var pending := meshToMeshIdx.Keys;
    ghost var visited: set<MeshId> := {};
    while pending != {}
      invariant visited <= meshToMeshIdx.Keys && pending == meshToMeshIdx.Keys - visited
      invariant carried == CarriedFrom(meshToMeshIdx, meshToBufIdx, visited)
      decreases |pending|
    {
      var mesh :| mesh in pending;
      CarriedFromStep(meshToMeshIdx, meshToBufIdx, visited, mesh);
      if mesh in meshToBufIdx {
        // The number is new to `carried`, so the insert always adds it.
        carried := carried[meshToMeshIdx[mesh] := meshToBufIdx[mesh]];
      }
      pending := pending - {mesh};
      visited := visited + {mesh};
    }
    CarriedFromAll(meshToMeshIdx, meshToBufIdx, visited);
  }

  /**
   * The numbering loop of `UpdateLightMapUvData`: the sub-meshes of mesh
   * group 0 are counted in order, and each one with light-map UVs is recorded
   * under its number, in the UV table, in `m_meshes` and, the first time the
   * sub-mesh is seen, in the sub-mesh-to-number table.
   */
  method NumberSubMeshes(ms: seq<Mesh>)
    returns (uvData: map<nat, seq<Vec2>>, meshTable: map<nat, LmSubMesh>, numbers: map<MeshId, nat>)
    ensures uvData == UvTable(Flatten(ms)) && meshTable == MeshTable(Flatten(ms))
    ensures numbers == FirstPositions(Flatten(ms), MeshTable(Flatten(ms)).Keys)
  {
    ghost var keys := MeshTable(Flatten(ms)).Keys;
    uvData, meshTable, numbers := map[], map[], map[];
    var subMeshIdx := 0;
    var i := 0;
    while i < |ms|
      invariant 0 <= i <= |ms|
      invariant subMeshIdx == |Flatten(ms[..i])|
      invariant uvData == UvTable(Flatten(ms[..i])) && meshTable == MeshTable(Flatten(ms[..i]))
      invariant numbers == FirstPositions(Flatten(ms[..i]), keys)
    {
      FlattenSnoc(ms, i);
      forall j | 0 <= j < |ms[i].subMeshes|
        ensures |Flatten(ms[..i])| + j in keys <==> HasLightmapUvs(ms[i].subMeshes[j])
      {
        FlattenPosition(ms, i, j);
      }
      subMeshIdx, uvData, meshTable, numbers := NumberMesh(ms[i].subMeshes, Flatten(ms[..i]), keys, subMeshIdx, uvData, meshTable, numbers);
      i := i + 1;
    }
    assert ms[..i] == ms;
  }

  /**
   * One mesh of that loop: its sub-meshes continue the count from
   * `subMeshIdx`, the number of sub-meshes in `done` before them. The
   * sub-meshes of the group with light-map UVs are exactly the numbers in
   * `keys`.
   */
  method NumberMesh(subMeshes: seq<LmSubMesh>, ghost done: seq<LmSubMesh>, ghost keys: set<nat>, subMeshIdx: nat,
                    uvData: map<nat, seq<Vec2>>, meshTable: map<nat, LmSubMesh>, numbers: map<MeshId, nat>)
    returns (subMeshIdx': nat, uvData': map<nat, seq<Vec2>>, meshTable': map<nat, LmSubMesh>, numbers': map<MeshId, nat>)
    requires subMeshIdx == |done|
    requires uvData == UvTable(done) && meshTable == MeshTable(done) && numbers == FirstPositions(done, keys)
    requires forall j :: 0 <= j < |subMeshes| ==> (|done| + j in keys <==> HasLightmapUvs(subMeshes[j]))
    ensures subMeshIdx' == |done + subMeshes|
    ensures uvData' == UvTable(done + subMeshes) && meshTable' == MeshTable(done + subMeshes)
    ensures numbers' == FirstPositions(done + subMeshes, keys)
  {
    subMeshIdx', uvData', meshTable', numbers' := subMeshIdx, uvData, meshTable, numbers;
    assert done + subMeshes[..0] == done;
    var j := 0;
    while j < |subMeshes|
      invariant 0 <= j <= |subMeshes|
      invariant subMeshIdx' == |done + subMeshes[..j]|
      invariant uvData' == UvTable(done + subMeshes[..j]) && meshTable' == MeshTable(done + subMeshes[..j])
      invariant numbers' == FirstPositions(done + subMeshes[..j], keys)
    {
      var subMesh := subMeshes[j];
      ghost var before := done + subMeshes[..j];
      NumberTablesSnoc(before, subMesh);
      FirstPositionsSnoc(before, subMesh, keys);
      PrefixStep(done, subMeshes, j);
      if subMesh.lightmapUvs.None? {
        subMeshIdx' := subMeshIdx' + 1;
        j := j + 1;
        continue;
      }
      uvData' := Insert(uvData', subMeshIdx', subMesh.lightmapUvs.value);
      meshTable' := Insert(meshTable', subMeshIdx', subMesh);
      numbers' := Insert(numbers', subMesh.id, subMeshIdx');
      subMeshIdx' := subMeshIdx' + 1;
      j := j + 1;
    }
    assert subMeshes[..j] == subMeshes;
  }

  /**
   * The renumbering loop of `UpdateModelMeshes`: the sub-meshes of mesh group
   * 0 are numbered in order; those with light-map UVs go into `m_meshes`, and
   * those whose number carries a buffer index get that index and the number.
   */
  method RenumberWithCarried(ms: seq<Mesh>, carried: map<nat, BufferIdx>)
    returns (meshTable: map<nat, LmSubMesh>, toBuf: map<MeshId, BufferIdx>, toIdx: map<MeshId, nat>)
    ensures meshTable == MeshTable(Flatten(ms))
    ensures toIdx == FirstPositions(Flatten(ms), carried.Keys)
    ensures toBuf == RemappedBufferIndices(Flatten(ms), carried)
  {
    ghost var keys := carried.Keys;
    meshTable, toBuf, toIdx := map[], map[], map[];
    var subMeshIdx := 0;
    var i := 0;
    while i < |ms|
      invariant 0 <= i <= |ms|
      invariant subMeshIdx == |Flatten(ms[..i])|
      invariant meshTable == MeshTable(Flatten(ms[..i]))
      invariant toIdx == FirstPositions(Flatten(ms[..i]), keys)
      invariant toBuf == RemappedBufferIndices(Flatten(ms[..i]), carried)
    {
      var mesh := ms[i];
      FlattenSnoc(ms, i);
      assert Flatten(ms[..i]) + mesh.subMeshes[..0] == Flatten(ms[..i]);
      ghost var done := Flatten(ms[..i]);
      var j := 0;
      while j < |mesh.subMeshes|
        invariant 0 <= j <= |mesh.subMeshes|
        invariant done == Flatten(ms[..i]) + mesh.subMeshes[..j]
        invariant subMeshIdx == |done|
        invariant meshTable == MeshTable(done)
        invariant toIdx == FirstPositions(done, keys)
        invariant toBuf == RemappedBufferIndices(done, carried)
      {
        var subMesh := mesh.subMeshes[j];
        NumberTablesSnoc(done, subMesh);
        FirstPositionsSnoc(done, subMesh, keys);
        RemappedSnoc(done, subMesh, carried);
        PrefixStep(Flatten(ms[..i]), mesh.subMeshes, j);
        done := done + [subMesh];
        if subMesh.lightmapUvs.None? {
          subMeshIdx := subMeshIdx + 1;
          j := j + 1;
          continue;
        }
        meshTable := Insert(meshTable, subMeshIdx, subMesh);
        if subMeshIdx in carried {
          toBuf := Insert(toBuf, subMesh.id, carried[subMeshIdx]);
          toIdx := Insert(toIdx, subMesh.id, subMeshIdx);
        }
        subMeshIdx := subMeshIdx + 1;
        j := j + 1;
      }
      assert mesh.subMeshes[..j] == mesh.subMeshes;
      i := i + 1;
    }
    assert ms[..i] == ms;
  }

  class LightMapReceiverComponent {
    var modelName: string
    /** `m_meshes`: sub-mesh number to sub-mesh. */
    var meshes: map<nat, LmSubMesh>
    /** `m_meshToMeshIdx`: sub-mesh to its number. */
    var meshToMeshIdx: map<MeshId, nat>
    /** `m_meshToBufIdx`: sub-mesh to its light-map buffer index. */
    var meshToBufIdx: map<MeshId, BufferIdx>
    /** `m_uvDataPerMesh`: sub-mesh number to light-map UVs. */
    var uvDataPerMesh: map<nat, seq<Vec2>>
    /** `m_meshBufferIndices`: render mesh to buffer index, `MaxBufferIdx` for none. */
    var meshBufferIndices: seq<BufferIdx>
    var isModelBakedWithLightMaps: bool
    var renderMeshBufferIndexTableDirty: bool

    /** No two sub-meshes have the same number, so numbers identify sub-meshes across a model change. */
    ghost predicate Valid()
      reads this
    {
      Injective(meshToMeshIdx)
    }

    constructor()
      ensures Valid()
      ensures modelName == [] && meshes == map[] && meshToMeshIdx == map[] && meshToBufIdx == map[]
      ensures uvDataPerMesh == map[] && meshBufferIndices == []
      ensures !isModelBakedWithLightMaps && !renderMeshBufferIndexTableDirty
    {
      modelName := [];
      meshes := map[];
      meshToMeshIdx := map[];
      meshToBufIdx := map[];
      uvDataPerMesh := map[];
      meshBufferIndices := [];
      isModelBakedWithLightMaps := false;
      renderMeshBufferIndexTableDirty := false;
    }

    /** The buffer index of a sub-mesh: none unless the model is baked with light maps and the sub-mesh has one. */
    function FindBufferIndex(mesh: MeshId): (r: Option<BufferIdx>)
      reads this
      ensures r.Some? <==> isModelBakedWithLightMaps && mesh in meshToBufIdx
      ensures r.Some? ==> r.value == meshToBufIdx[mesh]
    {
      if !isModelBakedWithLightMaps then None
      else if mesh in meshToBufIdx then Some(meshToBufIdx[mesh])
      else None
    }

    /** The render-mesh table for `renderMeshes`: each one's buffer index, or the sentinel. */
    function RenderTable(renderMeshes: seq<MeshId>): (t: seq<BufferIdx>)
      reads this
      ensures |t| == |renderMeshes|
      ensures forall i :: 0 <= i < |t| ==> (t[i] == MaxBufferIdx <==> FindBufferIndex(renderMeshes[i]) in {None, Some(MaxBufferIdx)})
      ensures forall i :: 0 <= i < |t| && t[i] != MaxBufferIdx ==> FindBufferIndex(renderMeshes[i]) == Some(t[i])
    {
      seq(|renderMeshes|, i requires 0 <= i < |renderMeshes| reads this => FindBufferIndex(renderMeshes[i]).GetOr(MaxBufferIdx))
    }

    /**
     * Rebuilds the render-mesh table. It is emptied first; without a model
     * component that is all, and the dirty flag stays as it was. Otherwise the
     * table gets one entry per render mesh and the dirty flag is cleared.
     */
    method UpdateRenderMeshBufferList(renderMeshes: Option<seq<MeshId>>)
      modifies this
      ensures renderMeshes.None? ==> meshBufferIndices == [] && renderMeshBufferIndexTableDirty == old(renderMeshBufferIndexTableDirty)
      ensures renderMeshes.Some? ==> meshBufferIndices == RenderTable(renderMeshes.value) && !renderMeshBufferIndexTableDirty
      ensures modelName == old(modelName) && meshes == old(meshes) && meshToMeshIdx == old(meshToMeshIdx)
      ensures meshToBufIdx == old(meshToBufIdx) && uvDataPerMesh == old(uvDataPerMesh)
      ensures isModelBakedWithLightMaps == old(isModelBakedWithLightMaps)
    {
      meshBufferIndices := [];
      if renderMeshes.None? {
        return;
      }
      renderMeshBufferIndexTableDirty := false;
      var rm := renderMeshes.value;
      var table: seq<BufferIdx> := seq(|rm|, _ => 0);
      var i := 0;
      while i < |rm|
        invariant 0 <= i <= |rm| && |table| == |rm|
        invariant forall q :: 0 <= q < i ==> table[q] == FindBufferIndex(rm[q]).GetOr(MaxBufferIdx)
      {
        var bufIdx := FindBufferIndex(rm[i]);
        table := table[i := if bufIdx.Some? then bufIdx.value else MaxBufferIdx];
        i := i + 1;
      }
      meshBufferIndices := table;
    }

    /**
     * The buffer index of render mesh `meshIdx`, after rebuilding the table if
     * it is dirty: a value exactly when the index is inside the table and the
     * entry is not the sentinel.
     */
    method GetBufferIndex(meshIdx: nat, renderMeshes: Option<seq<MeshId>>) returns (r: Option<BufferIdx>)
      modifies this
      ensures !old(renderMeshBufferIndexTableDirty) ==> meshBufferIndices == old(meshBufferIndices) && renderMeshBufferIndexTableDirty
                                                        == old(renderMeshBufferIndexTableDirty)
      ensures old(renderMeshBufferIndexTableDirty) && renderMeshes.None? ==> meshBufferIndices == [] && renderMeshBufferIndexTableDirty
      ensures old(renderMeshBufferIndexTableDirty) && renderMeshes.Some? ==>
        meshBufferIndices == RenderTable(renderMeshes.value) && !renderMeshBufferIndexTableDirty
      ensures modelName == old(modelName) && meshes == old(meshes) && meshToMeshIdx == old(meshToMeshIdx)
      ensures meshToBufIdx == old(meshToBufIdx) && uvDataPerMesh == old(uvDataPerMesh)
      ensures isModelBakedWithLightMaps == old(isModelBakedWithLightMaps)
      ensures r.Some? <==> meshIdx < |meshBufferIndices| && meshBufferIndices[meshIdx] != MaxBufferIdx
      ensures r.Some? ==> r.value == meshBufferIndices[meshIdx]
      ensures old(renderMeshBufferIndexTableDirty) && renderMeshes.Some? ==>
        var rm := renderMeshes.value;
        (r.Some? <==> meshIdx < |rm| && FindBufferIndex(rm[meshIdx]).Some? && FindBufferIndex(rm[meshIdx]).value != MaxBufferIdx)
        && (r.Some? ==> r == FindBufferIndex(rm[meshIdx]))
    {
      if renderMeshBufferIndexTableDirty {
        UpdateRenderMeshBufferList(renderMeshes);
      }
      r := TableEntry(meshBufferIndices, meshIdx);
    }

    /**
     * Gives sub-mesh number `meshIdx` a buffer index. Nothing happens when no
     * sub-mesh has that number; a sub-mesh that already has an index keeps it.
     */
    method AssignBufferIndex(meshIdx: nat, bufIdx: BufferIdx)
      requires Valid()
      modifies this
      ensures Valid()
      ensures meshIdx !in old(meshes) ==> unchanged(this)
      ensures meshIdx in old(meshes) ==>
        && meshToBufIdx == Insert(old(meshToBufIdx), old(meshes)[meshIdx].id, bufIdx)
        && renderMeshBufferIndexTableDirty
        && modelName == old(modelName) && meshes == old(meshes) && meshToMeshIdx == old(meshToMeshIdx)
        && uvDataPerMesh == old(uvDataPerMesh) && meshBufferIndices == old(meshBufferIndices)
        && isModelBakedWithLightMaps == old(isModelBakedWithLightMaps)
      ensures meshIdx in old(meshes) && isModelBakedWithLightMaps ==>
        var id := old(meshes)[meshIdx].id;
        FindBufferIndex(id) == Some(if id in old(meshToBufIdx) then old(meshToBufIdx)[id] else bufIdx)
    {
      if meshIdx !in meshes {
        return;
      }
      var mesh := meshes[meshIdx];
      meshToBufIdx := Insert(meshToBufIdx, mesh.id, bufIdx);
      renderMeshBufferIndexTableDirty := true;
    }

    /**
     * Renumbers the sub-meshes of mesh group 0 of `model` in order and records
     * those with light-map UVs under their numbers; buffer indices are
     * dropped, the model is marked baked and the render-mesh table rebuilt.
     * Without a model or a group 0 nothing changes.
     */
    method UpdateLightMapUvData(model: Option<Model>, renderMeshes: Option<seq<MeshId>>)
      requires Valid()
      modifies this
      ensures MeshGroup0(model).None? ==> unchanged(this)
      ensures MeshGroup0(model).Some? ==>
        var subs := Flatten(MeshGroup0(model).value.meshes);
        && modelName == model.value.name && isModelBakedWithLightMaps
        && uvDataPerMesh == UvTable(subs) && meshes == MeshTable(subs)
        && meshToMeshIdx == FirstPositions(subs, MeshTable(subs).Keys) && meshToBufIdx == map[]
        && (renderMeshes.None? ==> meshBufferIndices == [] && renderMeshBufferIndexTableDirty)
        && (renderMeshes.Some? ==> !renderMeshBufferIndexTableDirty && |meshBufferIndices| == |renderMeshes.value|
                                   && forall i :: 0 <= i < |meshBufferIndices| ==> meshBufferIndices[i] == MaxBufferIdx)
      ensures Valid()
    {
      var group := MeshGroup0(model);
      if group.None? {
        return;
      }
      var ms := group.value.meshes;
      modelName := model.value.name;
      isModelBakedWithLightMaps := true;
      // The three number tables are refilled from empty; `m_meshToBufIdx` stays empty.
      meshToBufIdx := map[];
      renderMeshBufferIndexTableDirty := true;
      var uvData, meshTable, numbers := NumberSubMeshes(ms);
      uvDataPerMesh, meshes, meshToMeshIdx := uvData, meshTable, numbers;
      FirstPositionsInjective(Flatten(ms), MeshTable(Flatten(ms)).Keys);
      UpdateRenderMeshBufferList(renderMeshes);
    }

    /**
     * Re-reads the sub-meshes of the entity's model after a model change.
     * Without a model nothing changes; without a group 0 only `m_meshes` is
     * emptied. Otherwise `m_meshes` is rebuilt, and every buffer index is
     * carried over through its sub-mesh number: the sub-mesh now at that
     * number gets it, and only such sub-meshes keep a number. The UV table,
     * model name and baked flag are left as they were.
     */
    method UpdateModelMeshes(model: Option<Model>)
      requires Valid()
      modifies this
      ensures Valid()
      ensures model.None? ==> unchanged(this)
      ensures model.Some? && MeshGroup0(model).None? ==>
        && meshes == map[]
        && meshToMeshIdx == old(meshToMeshIdx) && meshToBufIdx == old(meshToBufIdx)
        && renderMeshBufferIndexTableDirty == old(renderMeshBufferIndexTableDirty)
      ensures MeshGroup0(model).Some? ==>
        var subs := Flatten(MeshGroup0(model).value.meshes);
        var carried := CarriedBufferIndices(old(meshToMeshIdx), old(meshToBufIdx));
        && meshes == MeshTable(subs)
        && meshToMeshIdx == FirstPositions(subs, carried.Keys)
        && meshToBufIdx == RemappedBufferIndices(subs, carried)
        && renderMeshBufferIndexTableDirty
      ensures unchanged(`modelName, `uvDataPerMesh, `isModelBakedWithLightMaps, `meshBufferIndices)
    {
      if model.None? {
        return;
      }
      meshes := map[];
      var group := MeshGroup0(model);
      if group.None? {
        return;
      }
      CarryOverBufferIndices(group.value.meshes);
    }

    /**
     * The part of `UpdateModelMeshes` past its early returns: buffer indices
     * are carried to their numbers, the tables emptied and refilled from the
     * sub-meshes of `ms`, and the render-mesh table marked dirty.
     */
    method CarryOverBufferIndices(ms: seq<Mesh>)
      requires Valid()
      modifies this
      ensures Valid()
      ensures var subs := Flatten(ms);
        var carried := CarriedBufferIndices(old(meshToMeshIdx), old(meshToBufIdx));
        && meshes == MeshTable(subs)
        && meshToMeshIdx == FirstPositions(subs, carried.Keys)
        && meshToBufIdx == RemappedBufferIndices(subs, carried)
        && renderMeshBufferIndexTableDirty
      ensures unchanged(`modelName, `uvDataPerMesh, `isModelBakedWithLightMaps, `meshBufferIndices)
    {
      var carried := CollectCarried(meshToMeshIdx, meshToBufIdx);
      var meshTable, toBuf, toIdx := RenumberWithCarried(ms, carried);
      FirstPositionsInjective(Flatten(ms), carried.Keys);
      SetTables(meshTable, toBuf, toIdx);
    }

    /** Installs the tables `UpdateModelMeshes` rebuilt and marks the render-mesh table dirty. */
    method SetTables(meshTable: map<nat, LmSubMesh>, toBuf: map<MeshId, BufferIdx>, toIdx: map<MeshId, nat>)
      modifies this
      ensures meshes == meshTable && meshToBufIdx == toBuf && meshToMeshIdx == toIdx && renderMeshBufferIndexTableDirty
      ensures unchanged(`modelName, `uvDataPerMesh, `isModelBakedWithLightMaps, `meshBufferIndices)
    {
      renderMeshBufferIndexTableDirty := true;
      meshes, meshToBufIdx, meshToMeshIdx := meshTable, toBuf, toIdx;
    }

    /**
     * The model-changed handler bound in `Initialize`: the render-mesh table is
     * emptied, then the sub-meshes are re-read as by `UpdateModelMeshes`.
     */
    method OnModelChanged(model: Option<Model>)
      requires Valid()
      modifies this
      ensures Valid()
      ensures meshBufferIndices == []
      ensures model.None? ==> meshes == old(meshes) && meshToMeshIdx == old(meshToMeshIdx) && meshToBufIdx == old(meshToBufIdx)
      ensures model.Some? && MeshGroup0(model).None? ==>
        meshes == map[] && meshToMeshIdx == old(meshToMeshIdx) && meshToBufIdx == old(meshToBufIdx)
      ensures MeshGroup0(model).Some? ==>
        var subs := Flatten(MeshGroup0(model).value.meshes);
        var carried := CarriedBufferIndices(old(meshToMeshIdx), old(meshToBufIdx));
        && meshes == MeshTable(subs)
        && meshToMeshIdx == FirstPositions(subs, carried.Keys)
        && meshToBufIdx == RemappedBufferIndices(subs, carried)
      ensures renderMeshBufferIndexTableDirty == (MeshGroup0(model).Some? || old(renderMeshBufferIndexTableDirty))
      ensures unchanged(`modelName, `uvDataPerMesh, `isModelBakedWithLightMaps)
    {
      meshBufferIndices := [];
      UpdateModelMeshes(model);
    }

    /**
     * `Initialize` past its event bindings: on an entity that has already
     * spawned, the sub-meshes are read as by `UpdateModelMeshes` and then the
     * render-mesh table is rebuilt; otherwise nothing changes yet.
     */
    method Initialize(spawned: bool, model: Option<Model>, renderMeshes: Option<seq<MeshId>>)
      requires Valid()
      modifies this
      ensures Valid()
      ensures !spawned ==> unchanged(this)
      ensures spawned && model.None? ==>
        meshes == old(meshes) && meshToMeshIdx == old(meshToMeshIdx) && meshToBufIdx == old(meshToBufIdx)
      ensures spawned && model.Some? && MeshGroup0(model).None? ==>
        meshes == map[] && meshToMeshIdx == old(meshToMeshIdx) && meshToBufIdx == old(meshToBufIdx)
      ensures spawned && MeshGroup0(model).Some? ==>
        var subs := Flatten(MeshGroup0(model).value.meshes);
        var carried := CarriedBufferIndices(old(meshToMeshIdx), old(meshToBufIdx));
        && meshes == MeshTable(subs)
        && meshToMeshIdx == FirstPositions(subs, carried.Keys)
        && meshToBufIdx == RemappedBufferIndices(subs, carried)
      ensures spawned && renderMeshes.Some? ==>
        meshBufferIndices == RenderTable(renderMeshes.value) && !renderMeshBufferIndexTableDirty
      ensures spawned && renderMeshes.None? ==>
        meshBufferIndices == [] && renderMeshBufferIndexTableDirty == (MeshGroup0(model).Some? || old(renderMeshBufferIndexTableDirty))
      ensures unchanged(`modelName, `uvDataPerMesh, `isModelBakedWithLightMaps)
    {
      if spawned {
        UpdateModelMeshes(model);
        UpdateRenderMeshBufferList(renderMeshes);
      }
    }

    /**
     * Sets an entity up as a light-map receiver when mesh group 0 of its model
     * has a sub-mesh with light-map UVs: the entity's receiver component
     * (`existing`, or a new one when it has none) gets its UV data. The
     * result is that component, or null when nothing was set up.
     */
    static method SetupLightMapUvData(model: Option<Model>, renderMeshes: Option<seq<MeshId>>, existing: LightMapReceiverComponent?)
      returns (c: LightMapReceiverComponent?)
      requires existing != null ==> existing.Valid()
      modifies existing
      ensures c != null <==> MeshGroup0(model).Some? && AnyLightmapUvs(Flatten(MeshGroup0(model).value.meshes))
      ensures c == null && existing != null ==> unchanged(existing)
      ensures c != null ==> (if existing != null then c == existing else fresh(c))
      ensures c != null ==>
        var subs := Flatten(MeshGroup0(model).value.meshes);
        && c.Valid() && c.modelName == model.value.name && c.isModelBakedWithLightMaps
        && c.uvDataPerMesh == UvTable(subs) && c.meshes == MeshTable(subs)
        && c.meshToMeshIdx == FirstPositions(subs, MeshTable(subs).Keys) && c.meshToBufIdx == map[]
        && (renderMeshes.None? ==> c.meshBufferIndices == [] && c.renderMeshBufferIndexTableDirty)
        && (renderMeshes.Some? ==> !c.renderMeshBufferIndexTableDirty && |c.meshBufferIndices| == |renderMeshes.value|
                                   && forall i :: 0 <= i < |c.meshBufferIndices| ==> c.meshBufferIndices[i] == MaxBufferIdx)
    {
      c := null;
      var group := MeshGroup0(model);
      if group.None? {
        return;
      }
      var hasLightmapUvs := GroupHasLightmapUvs(group.value.meshes);
      if hasLightmapUvs {
        if existing != null {
          c := existing;
        } else {
          c := new LightMapReceiverComponent();
        }
        c.UpdateLightMapUvData(model, renderMeshes);
      }
    }
  }
}
