// The part-by-part walk over a mesh of src/model/mesh_parts_enumerator.cpp.
//
// The pointers `PartInfo` carries into a part's vertex and index vectors are
// modelled as references to part `k`'s data, or null.

module MeshPartsEnumerators {
  import Meshes

  /** Where a `PartInfo` pointer points: nowhere, or at the first element of part `part`'s data. */
  datatype Pointer = Null | DataOf(part: nat)

  /** `MeshPartsEnumerator::PartInfo`. */
  datatype PartInfo = PartInfo(vertices: Pointer, indices: Pointer, numVertices: nat, numIndices: nat, currentIndex: nat)

  /** What `GetNextObject` reports about part `k`. */
  function InfoOf(part: Meshes.MeshPart, k: nat): (info: PartInfo)
    ensures info.numVertices == |part.vertices| && info.numIndices == |part.indices| && info.currentIndex == k
    ensures info.vertices == Null <==> part.vertices == []
    ensures info.indices == Null <==> part.indices == []
    ensures info.vertices != Null ==> info.vertices == DataOf(k)
    ensures info.indices != Null ==> info.indices == DataOf(k)
  {
    PartInfo(if part.vertices == [] then Null else DataOf(k),
             if part.indices == [] then Null else DataOf(k),
             |part.vertices|, |part.indices|, k)
  }

  class MeshPartsEnumerator {
    const mesh: Meshes.Mesh
    var index: nat

    /** A new enumerator starts at the first part. */
    constructor (mesh: Meshes.Mesh)
      ensures this.mesh == mesh && index == 0
    {
      this.mesh := mesh;
      index := 0;
    }

    /** `Reset`: the next part is the first again. */
    method Reset()
      modifies this
      ensures index == 0
    {
      index := 0;
    }

    /**
     * `GetNextObject`: while parts remain, reports the next one and moves
     * past it; afterwards reports nothing and leaves `info` as it was.
     */
    method GetNextObject(info: PartInfo) returns (found: bool, info': PartInfo)
      modifies this
      ensures found <==> old(index) < |mesh.parts|
      ensures found ==> info' == InfoOf(mesh.parts[old(index)], old(index)) && index == old(index) + 1
      ensures !found ==> info' == info && index == old(index)
    {
      if index < |mesh.parts| {
        var part := mesh.parts[index];
        var vertices := if part.vertices != [] then DataOf(index) else Null;
        var indices := if part.indices != [] then DataOf(index) else Null;
        info' := PartInfo(vertices, indices, |part.vertices|, |part.indices|, index);
        index := index + 1;
        return true, info';
      } else {
        return false, info;
      }
    }
  }

  /**
   * On a mesh of two parts, the second without data: part 0, then part 1
   * with null pointers, then nothing; `Reset` starts the walk over.
   */
  method EnumerationScenario()
  {
    var m := new Meshes.Mesh();
    m.parts := [Meshes.MeshPart([Meshes.Blank], [0, 0, 0], Meshes.Triangles, 0), Meshes.MeshPart([], [], Meshes.TriangleStrip, 0)];
    var e := new MeshPartsEnumerator(m);
    var none := PartInfo(Null, Null, 0, 0, 0);
    var found, info := e.GetNextObject(none);
    assert found && info == PartInfo(DataOf(0), DataOf(0), 1, 3, 0);
    found, info := e.GetNextObject(info);
    assert found && info == PartInfo(Null, Null, 0, 0, 1);
    var last := info;
    found, info := e.GetNextObject(info);
    assert !found && info == last;
    e.Reset();
    found, info := e.GetNextObject(none);
    assert found && info.currentIndex == 0;
  }
}
