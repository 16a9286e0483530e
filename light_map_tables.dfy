/**
 * The tables the light-map receiver keeps, as functions of the sub-meshes of
 * mesh group 0 flattened in order (meshes in order, then each mesh's
 * sub-meshes in order). Position `k` in that list is the sub-mesh number the
 * component's running counter gives it, whether or not it has light-map UVs.
 *
 * Sub-meshes are identified by `MeshId`, standing for the object's address:
 * two entries with the same id are the same sub-mesh.
 */
module LightMapTables {
  import opened Wrappers

  datatype Vec2 = Vec2(u: real, v: real)

  /** The identity of a sub-mesh object; only equality is used. */
  type MeshId = nat

  /** A sub-mesh: its identity and its "lightmap" UV set, if it has one. */
  datatype LmSubMesh = LmSubMesh(id: MeshId, lightmapUvs: Option<seq<Vec2>>)

  datatype Mesh = Mesh(subMeshes: seq<LmSubMesh>)

  datatype MeshGroup = MeshGroup(meshes: seq<Mesh>)

  datatype Model = Model(name: string, meshGroups: seq<MeshGroup>)

  /** `GetMeshGroup(0u)` on the entity's model, if there is a model and it has a group 0. */
  function MeshGroup0(model: Option<Model>): Option<MeshGroup> {
    if model.Some? && |model.value.meshGroups| > 0 then Some(model.value.meshGroups[0]) else None
  }

  predicate HasLightmapUvs(s: LmSubMesh) {
    s.lightmapUvs.Some?
  }

  /** All sub-meshes of `ms`, mesh by mesh. */
  function Flatten(ms: seq<Mesh>): seq<LmSubMesh> {
    if |ms| == 0 then [] else Flatten(ms[..|ms| - 1]) + ms[|ms| - 1].subMeshes
  }

  lemma FlattenSnoc(ms: seq<Mesh>, i: nat)
    requires i < |ms|
    ensures Flatten(ms[..i + 1]) == Flatten(ms[..i]) + ms[i].subMeshes
  {
    assert ms[..i + 1][..i] == ms[..i];
  }

  /** The sub-meshes of the first `i` meshes come first in the flattened list. */
  lemma {:induction false} FlattenPrefix(ms: seq<Mesh>, i: nat)
    requires i <= |ms|
    ensures |Flatten(ms[..i])| <= |Flatten(ms)|
    ensures Flatten(ms)[..|Flatten(ms[..i])|] == Flatten(ms[..i])
    decreases |ms| - i
  {
    if i < |ms| {
      FlattenPrefix(ms, i + 1);
      FlattenSnoc(ms, i);
      var a, b := Flatten(ms[..i]), Flatten(ms[..i + 1]);
      assert b[..|a|] == a;
    } else {
      assert ms[..i] == ms;
    }
  }

  /**
   * The counter numbering: sub-mesh `j` of mesh `i` is number
   * `|Flatten(ms[..i])| + j`, the count of every sub-mesh before it.
   */
  lemma FlattenPosition(ms: seq<Mesh>, i: nat, j: nat)
    requires i < |ms| && j < |ms[i].subMeshes|
    ensures |Flatten(ms[..i])| + j < |Flatten(ms)|
    ensures Flatten(ms)[|Flatten(ms[..i])| + j] == ms[i].subMeshes[j]
  {
    FlattenSnoc(ms, i);
    FlattenPrefix(ms, i + 1);
    var b := Flatten(ms[..i + 1]);
    assert Flatten(ms)[|Flatten(ms[..i])| + j] == b[|Flatten(ms[..i])| + j];
  }

  /** The largest value of the buffer index type, which the render-mesh table uses for "none". */
  const MaxBufferIdx: nat := 0xFFFF_FFFF

  type BufferIdx = x: nat | x <= MaxBufferIdx

  /**
   * `std::unordered_map::insert`: adds `k -> v` unless `k` already has an
   * entry, in which case the map is returned as it was.
   */
  function Insert<K, V>(m: map<K, V>, k: K, v: V): (r: map<K, V>)
    ensures k in r && r[k] == (if k in m then m[k] else v)
    ensures r.Keys == m.Keys + {k}
    ensures forall j :: j in m ==> r[j] == m[j]
  {
    if k in m then m else m[k := v]
  }

  /** Sub-mesh `k` has light-map UVs and its number is one of `keys`. */
  predicate Eligible(subs: seq<LmSubMesh>, keys: set<nat>, k: nat) {
    k < |subs| && HasLightmapUvs(subs[k]) && k in keys
  }

  /** `m_uvDataPerMesh`: sub-mesh number to light-map UVs, for the sub-meshes that have them. */
  function UvTable(subs: seq<LmSubMesh>): map<nat, seq<Vec2>> {
    map k | 0 <= k < |subs| && HasLightmapUvs(subs[k]) :: subs[k].lightmapUvs.value
  }

  /** `m_meshes`: sub-mesh number to sub-mesh, for the sub-meshes that have light-map UVs. */
  function MeshTable(subs: seq<LmSubMesh>): map<nat, LmSubMesh> {
    map k | 0 <= k < |subs| && HasLightmapUvs(subs[k]) :: subs[k]
  }

  /**
   * Sub-mesh to number, filled in order by an insert that never overwrites:
   * each eligible sub-mesh keeps the first number it was seen under.
   */
  function FirstPositions(subs: seq<LmSubMesh>, keys: set<nat>): map<MeshId, nat> {
    if |subs| == 0 then map[]
    else
      var f, k := FirstPositions(subs[..|subs| - 1], keys), |subs| - 1;
      if HasLightmapUvs(subs[k]) && k in keys && subs[k].id !in f then f[subs[k].id := k] else f
  }

  /**
   * A sub-mesh has an entry exactly when it occurs at an eligible number, and
   * the entry is the first such number.
   */
  lemma {:induction false} FirstPositionsSpec(subs: seq<LmSubMesh>, keys: set<nat>)
    ensures forall id :: id in FirstPositions(subs, keys) <==> exists k: nat :: Eligible(subs, keys, k) && subs[k].id == id
    ensures forall id :: id in FirstPositions(subs, keys) ==>
              Eligible(subs, keys, FirstPositions(subs, keys)[id]) && subs[FirstPositions(subs, keys)[id]].id == id
    ensures forall id, k: nat :: id in FirstPositions(subs, keys) && Eligible(subs, keys, k) && subs[k].id == id ==>
              FirstPositions(subs, keys)[id] <= k
  {
    if |subs| > 0 {
      var init := subs[..|subs| - 1];
      FirstPositionsSpec(init, keys);
      forall k: nat | Eligible(init, keys, k) ensures Eligible(subs, keys, k) && subs[k] == init[k] {}
      forall k: nat | Eligible(subs, keys, k) && k < |init| ensures Eligible(init, keys, k) && subs[k] == init[k] {}
    }
  }

  /** No two sub-meshes share a number. */
  ghost predicate Injective(m: map<MeshId, nat>) {
    forall a, b :: a in m && b in m && m[a] == m[b] ==> a == b
  }

  lemma FirstPositionsInjective(subs: seq<LmSubMesh>, keys: set<nat>)
    ensures Injective(FirstPositions(subs, keys))
  {
    FirstPositionsSpec(subs, keys);
  }

  /**
   * `meshIdxToBufIdx`: for every sub-mesh that has both a number and a buffer
   * index, number to buffer index. Well defined because numbers are unique.
   */
  function CarriedBufferIndices(meshToMeshIdx: map<MeshId, nat>, meshToBufIdx: map<MeshId, BufferIdx>): (c: map<nat, BufferIdx>)
    requires Injective(meshToMeshIdx)
    ensures forall id :: id in meshToMeshIdx && id in meshToBufIdx ==> meshToMeshIdx[id] in c && c[meshToMeshIdx[id]] == meshToBufIdx[id]
    ensures forall k :: k in c ==> exists id :: id in meshToMeshIdx && id in meshToBufIdx && meshToMeshIdx[id] == k
  {
    map id | id in meshToMeshIdx && id in meshToBufIdx :: meshToMeshIdx[id] := meshToBufIdx[id]
  }

  /**
   * The new `m_meshToBufIdx` after a model change: each sub-mesh of the new
   * model whose first eligible number had a buffer index gets that index.
   */
  function RemappedBufferIndices(subs: seq<LmSubMesh>, carried: map<nat, BufferIdx>): (t: map<MeshId, BufferIdx>)
    ensures t.Keys == FirstPositions(subs, carried.Keys).Keys
  {
    var f := FirstPositions(subs, carried.Keys);
    FirstPositionsSpec(subs, carried.Keys);
    map id | id in f :: carried[f[id]]
  }

  /**
   * After `UpdateLightMapUvData`, the tables agree: every sub-mesh with a
   * number is the sub-mesh `m_meshes` holds under that number, and every
   * sub-mesh `m_meshes` holds has a number.
   */
  lemma UvDataTablesAgree(subs: seq<LmSubMesh>)
    ensures var toIdx, meshes := FirstPositions(subs, MeshTable(subs).Keys), MeshTable(subs);
            && Injective(toIdx)
            && (forall id :: id in toIdx ==> toIdx[id] in meshes && meshes[toIdx[id]].id == id)
            && (forall k :: k in meshes ==> meshes[k].id in toIdx && toIdx[meshes[k].id] <= k)
  {
    FirstPositionsSpec(subs, MeshTable(subs).Keys);
    var toIdx, meshes := FirstPositions(subs, MeshTable(subs).Keys), MeshTable(subs);
    forall k | k in meshes ensures meshes[k].id in toIdx && toIdx[meshes[k].id] <= k {
      assert Eligible(subs, MeshTable(subs).Keys, k);
    }
  }

  /**
   * Carrying buffer indices across a change to the same model keeps every
   * numbered sub-mesh that had a buffer index at its number, and numbers no
   * other sub-mesh.
   */
  lemma SameModelKeepsNumbers(subs: seq<LmSubMesh>, meshToBufIdx: map<MeshId, BufferIdx>)
    ensures Injective(FirstPositions(subs, MeshTable(subs).Keys))
    ensures var toIdx := FirstPositions(subs, MeshTable(subs).Keys);
            var f := FirstPositions(subs, CarriedBufferIndices(toIdx, meshToBufIdx).Keys);
            && (forall id :: id in f <==> id in toIdx && id in meshToBufIdx)
            && (forall id :: id in f ==> f[id] == toIdx[id])
  {
    var all := MeshTable(subs).Keys;
    var toIdx := FirstPositions(subs, all);
    FirstPositionsSpec(subs, all);
    var carried := CarriedBufferIndices(toIdx, meshToBufIdx);
    var f := FirstPositions(subs, carried.Keys);
    FirstPositionsSpec(subs, carried.Keys);
    forall id | id in f ensures id in toIdx && id in meshToBufIdx && f[id] == toIdx[id] {
      var k := f[id];
      var id' :| id' in toIdx && id' in meshToBufIdx && toIdx[id'] == k;
      assert subs[toIdx[id']].id == id';
    }
    forall id | id in toIdx && id in meshToBufIdx ensures id in f {
      assert Eligible(subs, carried.Keys, toIdx[id]);
    }
  }

  /**
   * And each such sub-mesh keeps its buffer index: reloading the same model
   * loses no assignment made to a numbered sub-mesh.
   */
  lemma SameModelKeepsBufferIndices(subs: seq<LmSubMesh>, meshToBufIdx: map<MeshId, BufferIdx>)
    ensures Injective(FirstPositions(subs, MeshTable(subs).Keys))
    ensures var toIdx := FirstPositions(subs, MeshTable(subs).Keys);
            var t := RemappedBufferIndices(subs, CarriedBufferIndices(toIdx, meshToBufIdx));
            && (forall id :: id in t <==> id in toIdx && id in meshToBufIdx)
            && (forall id :: id in t ==> t[id] == meshToBufIdx[id])
  {
    SameModelKeepsNumbers(subs, meshToBufIdx);
  }

  /**
   * The carry-over across any model change: a sub-mesh of the new model
   * keeps a buffer index exactly when it is numbered under a carried number,
   * and the index it gets is the one the old sub-mesh with that number had.
   */
  lemma CarryOverByNumber(subs: seq<LmSubMesh>, meshToMeshIdx: map<MeshId, nat>, meshToBufIdx: map<MeshId, BufferIdx>)
    requires Injective(meshToMeshIdx)
    ensures var carried := CarriedBufferIndices(meshToMeshIdx, meshToBufIdx);
            var f := FirstPositions(subs, carried.Keys);
            var t := RemappedBufferIndices(subs, carried);
            && t.Keys == f.Keys
            && (forall id :: id in t ==> f[id] < |subs| && subs[f[id]].id == id && HasLightmapUvs(subs[f[id]]))
            && (forall id, prev :: id in t && prev in meshToMeshIdx && prev in meshToBufIdx && meshToMeshIdx[prev] == f[id] ==>
                  t[id] == meshToBufIdx[prev])
            && (forall id :: id in t ==> exists prev :: prev in meshToMeshIdx && prev in meshToBufIdx && meshToMeshIdx[prev] == f[id])
  {
    var carried := CarriedBufferIndices(meshToMeshIdx, meshToBufIdx);
    FirstPositionsSpec(subs, carried.Keys);
  }

  /** One more sub-mesh at the end of the list: its number is new to the number-keyed tables. */
  lemma NumberTablesSnoc(subs: seq<LmSubMesh>, s: LmSubMesh)
    ensures |subs| !in UvTable(subs) && |subs| !in MeshTable(subs)
    ensures UvTable(subs + [s]) == (if HasLightmapUvs(s) then Insert(UvTable(subs), |subs|, s.lightmapUvs.value) else UvTable(subs))
    ensures MeshTable(subs + [s]) == (if HasLightmapUvs(s) then Insert(MeshTable(subs), |subs|, s) else MeshTable(subs))
  {
    var t := subs + [s];
    assert forall k :: 0 <= k < |subs| ==> t[k] == subs[k];
  }

  /** And the sub-mesh-keyed tables gain its entry only if it is eligible and has none yet. */
  lemma FirstPositionsSnoc(subs: seq<LmSubMesh>, s: LmSubMesh, keys: set<nat>)
    ensures FirstPositions(subs + [s], keys) ==
            (if HasLightmapUvs(s) && |subs| in keys then Insert(FirstPositions(subs, keys), s.id, |subs|) else FirstPositions(subs, keys))
  {
    assert (subs + [s])[..|subs|] == subs;
  }

  lemma RemappedSnoc(subs: seq<LmSubMesh>, s: LmSubMesh, carried: map<nat, BufferIdx>)
    ensures RemappedBufferIndices(subs + [s], carried) ==
            (if HasLightmapUvs(s) && |subs| in carried then Insert(RemappedBufferIndices(subs, carried), s.id, carried[|subs|])
             else RemappedBufferIndices(subs, carried))
  {
    FirstPositionsSnoc(subs, s, carried.Keys);
    FirstPositionsSpec(subs + [s], carried.Keys);
    FirstPositionsSpec(subs, carried.Keys);
  }
}
