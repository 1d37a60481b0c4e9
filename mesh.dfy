// The mesh container of src/model/mesh.cpp: a list of mesh parts, the
// file-format dispatch, the part counts and `MakeRenderable`.
//
// A vertex is known by the grid point it was computed from; its
// floating-point position, normal, texture coordinate, tangent and binormal
// are functions of that point and are not modelled.  The upload of a part to
// the graphics driver is not modelled either: whether it succeeds is a
// parameter.

module Meshes {

  /** `sizeof(unsigned int)` is 4 bytes: sums of counts wrap modulo 2^32. */
  const U32Modulus := 0x1_0000_0000

  datatype FileFormat = Unknown | Obj | Scm

  /** `ExtractFileFormat`, given the file name's extension. */
  function ExtractFileFormat(ext: string): (r: FileFormat)
    ensures r == Obj <==> ext == "obj"
    ensures r == Scm <==> ext == "scm"
  {
    if ext == "obj" then Obj
    else if ext == "scm" then Scm
    else Unknown
  }

  /** The extension a mesh of a known format is saved under. */
  function Extension(f: FileFormat): string
    requires f != Unknown
  {
    match f
    case Obj => "obj"
    case Scm => "scm"
  }

  /** Both formats are recognised from their extensions. */
  lemma ExtensionRoundTrip(f: FileFormat)
    requires f != Unknown
    ensures ExtractFileFormat(Extension(f)) == f
  {
  }

  /**
   * `SaveToFile` and `LoadFromFile`: a known format is handed to its codec,
   * whose outcome is `codecResult`; an unknown one fails.
   */
  function DispatchToCodec(ext: string, codecResult: bool): (r: bool)
    ensures ExtractFileFormat(ext) == Unknown ==> !r
    ensures ExtractFileFormat(ext) != Unknown ==> r == codecResult
  {
    match ExtractFileFormat(ext)
    case Obj => codecResult
    case Scm => codecResult
    case Unknown => false
  }

  /** `PrimitiveType` of src/graphics/context.h. */
  datatype PrimitiveType = Lines | LineStrip | Triangles | TriangleStrip | Quads

  /**
   * A vertex: a point of a generated grid (column `i`, row `j`), one of the
   * two poles of a sphere, or a vertex nothing has been written to yet.
   */
  datatype Vertex = GridPoint(i: nat, j: nat) | Pole(north: bool) | Blank

  /** The part of `MeshPart` a mesh works with. */
  datatype MeshPart = MeshPart(vertices: seq<Vertex>, indices: seq<nat>, primitiveMode: PrimitiveType, numVertices: nat)

  /** A new part: no data, drawn as a triangle strip, no vertices uploaded yet. */
  function NewPart(): (p: MeshPart)
    ensures p.vertices == [] && p.indices == [] && p.primitiveMode == TriangleStrip && p.numVertices == 0
  {
    MeshPart([], [], TriangleStrip, 0)
  }

  /**
   * What `TransformVertices` leaves of a part: the vertex count is recorded,
   * and without `keepData` the vertex and index lists are emptied.
   */
  function Transformed(p: MeshPart, keepData: bool): (q: MeshPart)
    ensures q.numVertices == |p.vertices| && q.primitiveMode == p.primitiveMode
    ensures keepData ==> q.vertices == p.vertices && q.indices == p.indices
    ensures !keepData ==> q.vertices == [] && q.indices == []
  {
    if keepData then p.(numVertices := |p.vertices|)
    else MeshPart([], [], p.primitiveMode, |p.vertices|)
  }

  /** An axis-aligned box whose corners have all coordinates equal to `lo` and to `hi`. */
  datatype Box = DefaultBox | Box(lo: real, hi: real)

  /** A bounding sphere: one of radius `radius` around the origin, or the one around a box. */
  datatype Sphere = DefaultSphere | Ball(radius: real) | AroundBox(box: Box)

  /** The box `MakeRenderable` starts from when the mesh has no bounds: empty, ready to be grown. */
  const InitialBox := Box(100000000.0, -100000000.0)

  /** The vertex counts of `parts` added up. */
  function SumVertices(parts: seq<MeshPart>): nat
  {
    if parts == [] then 0 else SumVertices(parts[..|parts| - 1]) + parts[|parts| - 1].numVertices
  }

  /** Adding up two runs of parts adds their sums. */
  lemma {:induction false} SumVerticesAppend(a: seq<MeshPart>, b: seq<MeshPart>)
    ensures SumVertices(a + b) == SumVertices(a) + SumVertices(b)
    decreases |b|
  {
    if b == [] {
      assert a + b == a;
    } else {
      var b' := b[..|b| - 1];
      assert (a + b)[..|a + b| - 1] == a + b';
      assert (a + b)[|a + b| - 1] == b[|b| - 1];
      SumVerticesAppend(a, b');
    }
  }

  /** Adding to a wrapped sum wraps like adding to the whole sum. */
  lemma WrapAdd(x: int, y: int)
    requires 0 <= x && 0 <= y
    ensures (x % U32Modulus + y) % U32Modulus == (x + y) % U32Modulus
  {
  }

  /** The index of the first failing outcome, or the number of outcomes when none fails. */
  function FirstFailure(outcomes: seq<bool>): (k: nat)
    ensures k <= |outcomes|
    ensures forall i :: 0 <= i < k ==> outcomes[i]
    ensures k < |outcomes| ==> !outcomes[k]
  {
    if outcomes == [] then 0
    else if !outcomes[0] then 0
    else 1 + FirstFailure(outcomes[1..])
  }

  /** The number of parts `MakeRenderable` reaches: up to and including the first that fails. */
  function Reached(outcomes: seq<bool>): (n: nat)
    ensures n <= |outcomes|
  {
    var k := FirstFailure(outcomes);
    if k < |outcomes| then k + 1 else k
  }

  class Mesh {
    var parts: seq<MeshPart>
    var hasBounds: bool
    var forceTriangles: bool
    var box: Box
    var sphere: Sphere

    /** A new mesh: no parts, no bounds, triangles not forced. */
    constructor ()
      ensures parts == [] && !hasBounds && !forceTriangles && box == DefaultBox && sphere == DefaultSphere
    {
      parts := [];
      hasBounds, forceTriangles := false, false;
      box, sphere := DefaultBox, DefaultSphere;
    }

    /** `GetNumberOfParts`. */
    function NumberOfParts(): (n: nat)
      reads this
      ensures n == |parts|
    {
      |parts|
    }

    /** `GetNumberOfVertices`: the parts' vertex counts added up in 32-bit arithmetic. */
    method NumberOfVertices() returns (n: int)
      ensures n == SumVertices(parts) % U32Modulus
    {
      n := 0;
      var i := 0;
      while i < |parts|
        invariant 0 <= i <= |parts|
        invariant n == SumVertices(parts[..i]) % U32Modulus
      {
        assert parts[..i + 1][..i] == parts[..i];
        WrapAdd(SumVertices(parts[..i]), parts[i].numVertices);
        n := (n + parts[i].numVertices) % U32Modulus;
        i := i + 1;
      }
      assert parts[..i] == parts;
    }

    /** `IsTriangleMesh`: every part is drawn as separate triangles; true for a mesh without parts. */
    method IsTriangleMesh() returns (r: bool)
      ensures r <==> forall k :: 0 <= k < |parts| ==> parts[k].primitiveMode == Triangles
    {
      var i := 0;
      while i < |parts|
        invariant 0 <= i <= |parts|
        invariant forall k :: 0 <= k < i ==> parts[k].primitiveMode == Triangles
      {
        if parts[i].primitiveMode != Triangles {
          return false;
        }
        i := i + 1;
      }
      return true;
    }

    /** `ForceTriangles`. */
    method ForceTriangles()
      modifies this
      ensures forceTriangles
      ensures parts == old(parts) && hasBounds == old(hasBounds) && box == old(box) && sphere == old(sphere)
    {
      forceTriangles := true;
    }

    /**
     * `MakeRenderable`: the parts are made renderable in order, `outcomes[k]`
     * telling whether part k's upload succeeds, and the first failure ends
     * the call with false.  Every part reached has its vertices transformed.
     * A mesh without bounds starts its box from the empty `InitialBox` and,
     * when every part succeeds, takes its sphere around that box.
     */
    method MakeRenderable(keepData: bool, outcomes: seq<bool>) returns (ok: bool)
      requires |outcomes| == |parts|
      modifies this
      ensures ok <==> forall k :: 0 <= k < |outcomes| ==> outcomes[k]
      ensures |parts| == |old(parts)|
      ensures forall k :: 0 <= k < Reached(outcomes) ==> parts[k] == Transformed(old(parts)[k], keepData)
      ensures forall k :: Reached(outcomes) <= k < |parts| ==> parts[k] == old(parts)[k]
      ensures box == if old(hasBounds) then old(box) else InitialBox
      ensures sphere == if ok && !old(hasBounds) then AroundBox(InitialBox) else old(sphere)
      ensures hasBounds == old(hasBounds) && forceTriangles == old(forceTriangles)
    {
      if !hasBounds {
        box := InitialBox;
      }
      var i := 0;
      while i < |parts|
        invariant 0 <= i <= |parts| == |old(parts)|
        invariant i <= FirstFailure(outcomes)
        invariant forall k :: 0 <= k < i ==> parts[k] == Transformed(old(parts)[k], keepData)
        invariant forall k :: i <= k < |parts| ==> parts[k] == old(parts)[k]
        invariant box == (if old(hasBounds) then old(box) else InitialBox)
        invariant sphere == old(sphere) && hasBounds == old(hasBounds) && forceTriangles == old(forceTriangles)
      {
        parts := parts[i := Transformed(parts[i], keepData)];
        if !outcomes[i] {
          return false;
        }
        i := i + 1;
      }
      if !hasBounds {
        sphere := AroundBox(box);
      }
      return true;
    }
  }

  /** Once every part has been made renderable, the mesh counts all their vertices. */
  lemma {:induction false} RenderedVertexCount(old_parts: seq<MeshPart>, parts: seq<MeshPart>, keepData: bool)
    requires |parts| == |old_parts|
    requires forall k :: 0 <= k < |parts| ==> parts[k] == Transformed(old_parts[k], keepData)
    ensures SumVertices(parts) == VertexCount(old_parts)
    decreases |parts|
  {
    if parts != [] {
      var n := |parts| - 1;
      RenderedVertexCount(old_parts[..n], parts[..n], keepData);
    }
  }

  /** The number of vertices the parts hold. */
  function VertexCount(parts: seq<MeshPart>): nat
  {
    if parts == [] then 0 else VertexCount(parts[..|parts| - 1]) + |parts[|parts| - 1].vertices|
  }

  /** A mesh of two parts, the second failing to upload. */
  method MeshScenario()
  {
    var m := new Mesh();
    m.parts := [MeshPart([Blank, Blank, Blank], [0, 1, 2], Triangles, 0), MeshPart([Blank], [], TriangleStrip, 0)];
    var tri := m.IsTriangleMesh();
    assert m.parts[1].primitiveMode == TriangleStrip;
    assert !tri;
    var ok := m.MakeRenderable(true, [true, false]);
    assert !ok && Reached([true, false]) == 2;
    assert m.parts[0].numVertices == 3 && m.parts[1].numVertices == 1;
    assert m.box == InitialBox && m.sphere == DefaultSphere;
    var n := m.NumberOfVertices();
    assert m.parts[..1] == [m.parts[0]] && m.parts[..1][..0] == [];
    assert SumVertices(m.parts[..1]) == 3;
    assert n == 4;
  }
}
