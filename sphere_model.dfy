// The sphere of `SphereModel::Create` in src/model/sphere_model.cpp.
//
// With a texture coordinate among its attributes the model is the textured
// grid sphere of `Mesh::CreateSphere`.  Without one it shares its poles:
// vertex 0 is the south pole, vertex 1 the north pole, and ring j (1 to
// loops - 2) holds `slices` points from vertex 2 + (j - 1) * slices on.  Strip
// row j then runs between ring j + 1 (the north pole for the last row) and
// ring j (the south pole for the first), wrapping from the last column of a
// ring back to column 0.

module SphereModels {
  import Meshes
  import MeshSpheres
  import VertexFormats

  // ----- vertices -----

  /** The `slices` points of ring `j`. */
  function Ring(slices: nat, j: nat): (r: seq<Meshes.Vertex>)
    ensures |r| == slices
    ensures forall i :: 0 <= i < slices ==> r[i] == Meshes.GridPoint(i, j)
  {
    seq(slices, (i: int) requires 0 <= i => Meshes.GridPoint(i, j))
  }

  /** Rings 1 to `n`, one after the other. */
  function Rings(slices: nat, n: nat): (r: seq<Meshes.Vertex>)
    ensures |r| == slices * n
  {
    if n == 0 then []
    else
      MeshSpheres.RowAfterRow(n - 1, slices);
      Rings(slices, n - 1) + Ring(slices, n)
  }

  /** The vertices of the untextured sphere: the two poles, then the rings between them. */
  function PoleVertices(slices: nat, loops: nat): (r: seq<Meshes.Vertex>)
    requires loops >= 2
    ensures |r| == 2 + slices * (loops - 2)
  {
    [Meshes.Pole(false), Meshes.Pole(true)] + Rings(slices, loops - 2)
  }

  /** The vertex at `2 + (j - 1) * slices + i` is point i of ring j. */
  lemma {:induction false} RingsAt(slices: nat, n: nat, i: nat, j: nat)
    requires i < slices && 1 <= j <= n
    ensures (j - 1) * slices + i < |Rings(slices, n)|
    ensures Rings(slices, n)[(j - 1) * slices + i] == Meshes.GridPoint(i, j)
  {
    MeshSpheres.GridIndex(i, j - 1, n, slices);
    if j < n {
      RingsAt(slices, n - 1, i, j);
      RingsExtend(slices, n, (j - 1) * slices + i);
    } else {
      RingsLast(slices, n, i);
    }
  }

  /** Adding a ring keeps the rings before it in place. */
  lemma RingsExtend(slices: nat, n: nat, p: nat)
    requires 1 <= n && p < |Rings(slices, n - 1)|
    ensures p < |Rings(slices, n)| && Rings(slices, n)[p] == Rings(slices, n - 1)[p]
  {
  }

  /** The last of `n` rings is ring `n`, after the `n - 1` before it. */
  lemma RingsLast(slices: nat, n: nat, i: nat)
    requires 1 <= n && i < slices
    ensures (n - 1) * slices + i < |Rings(slices, n)|
    ensures Rings(slices, n)[(n - 1) * slices + i] == Meshes.GridPoint(i, n)
  {
    var prev := Rings(slices, n - 1);
    assert |prev| == (n - 1) * slices;
    assert Rings(slices, n) == prev + Ring(slices, n);
    assert Rings(slices, n)[|prev| + i] == Ring(slices, n)[i];
  }

  /** Poles first, then ring j's point i at `2 + (j - 1) * slices + i`. */
  lemma PoleVerticesAt(slices: nat, loops: nat, i: nat, j: nat)
    requires loops >= 2 && i < slices && 1 <= j <= loops - 2
    ensures PoleVertices(slices, loops)[0] == Meshes.Pole(false) && PoleVertices(slices, loops)[1] == Meshes.Pole(true)
    ensures 2 + (j - 1) * slices + i < |PoleVertices(slices, loops)|
    ensures PoleVertices(slices, loops)[2 + (j - 1) * slices + i] == Meshes.GridPoint(i, j)
  {
    var rings := Rings(slices, loops - 2);
    var p := (j - 1) * slices + i;
    RingsAt(slices, loops - 2, i, j);
    assert PoleVertices(slices, loops) == [Meshes.Pole(false), Meshes.Pole(true)] + rings;
    assert PoleVertices(slices, loops)[2 + p] == rings[p];
  }

  /** Ring `j` fits between the rings before it and the end of the buffer. */
  lemma RingsFit(slices: nat, j: nat, loops: nat)
    requires 1 <= j <= loops - 2
    ensures |Rings(slices, j - 1)| + slices <= |Rings(slices, loops - 2)|
  {
    MeshSpheres.RowAfterRow(j - 1, slices);
    MeshSpheres.MulLe(j, loops - 2, slices);
  }

  /** The vertex buffer of the untextured branch, sized and with the two poles written. */
  method PoleVertexBuffer(slices: nat, loops: nat) returns (a: array<Meshes.Vertex>)
    requires loops >= 2
    ensures fresh(a) && a.Length == |PoleVertices(slices, loops)| && a[..2] == [Meshes.Pole(false), Meshes.Pole(true)]
  {
    a := new Meshes.Vertex[2 + slices * (loops - 2)](_ => Meshes.Blank);
    MeshSpheres.PutVertex(a, 0, Meshes.Pole(false), []);
    MeshSpheres.PutVertex(a, 1, Meshes.Pole(true), [Meshes.Pole(false)]);
  }

  /** The vertex loops of the untextured branch: the two poles, then ring after ring. */
  method PoleVertexLoops(slices: nat, loops: nat) returns (vertices: seq<Meshes.Vertex>)
    requires loops >= 2
    ensures vertices == PoleVertices(slices, loops)
  {
    ghost var poles := [Meshes.Pole(false), Meshes.Pole(true)];
    var a := PoleVertexBuffer(slices, loops);
    var ind := 2;
    var j := 1;
    while j < loops - 1
      invariant 1 <= j <= loops - 1 && a.Length == |PoleVertices(slices, loops)|
      invariant ind == 2 + |Rings(slices, j - 1)| && ind <= a.Length
      invariant a[..ind] == poles + Rings(slices, j - 1)
    {
      ind := NextRing(a, ind, slices, j, loops, poles);
      j := j + 1;
    }
    assert a[..] == a[..ind];
    vertices := a[..];
  }

  /** One turn of the outer vertex loop: ring `j` after the rings before it. */
  method NextRing(a: array<Meshes.Vertex>, ind: int, slices: nat, j: nat, loops: nat, ghost poles: seq<Meshes.Vertex>) returns (next: int)
    requires 1 <= j <= loops - 2 && a.Length == 2 + |Rings(slices, loops - 2)|
    requires ind == 2 + |Rings(slices, j - 1)| && ind <= a.Length && a[..ind] == poles + Rings(slices, j - 1)
    modifies a
    ensures next == 2 + |Rings(slices, j)| && next <= a.Length && a[..next] == poles + Rings(slices, j)
  {
    RingsFit(slices, j, loops);
    next := FillRing(a, ind, slices, j, poles + Rings(slices, j - 1));
    assert poles + Rings(slices, j - 1) + Ring(slices, j) == poles + Rings(slices, j);
  }

  /** The inner vertex loop: the points of ring `j`, from `ind` on. */
  method FillRing(a: array<Meshes.Vertex>, ind: int, slices: nat, j: nat, ghost pre: seq<Meshes.Vertex>) returns (next: int)
    requires 0 <= ind && ind + slices <= a.Length && a[..ind] == pre
    modifies a
    ensures next == ind + slices && a[..next] == pre + Ring(slices, j)
  {
    ghost var ring := Ring(slices, j);
    next := ind;
    var i := 0;
    while i < slices
      invariant 0 <= i <= slices && next == ind + i
      invariant a[..next] == pre + ring[..i]
    {
      assert ring[..i + 1] == ring[..i] + [Meshes.GridPoint(i, j)];
      MeshSpheres.PutVertex(a, next, Meshes.GridPoint(i, j), pre + ring[..i]);
      next := next + 1;
      i := i + 1;
    }
    assert ring[..i] == ring;
  }

  // ----- indices -----

  /** The column after `i`, wrapping from the last column of a ring back to column 0. */
  function NextColumn(i: nat, slices: nat): (r: nat)
    requires i < slices
    ensures r < slices
    ensures r == 0 <==> i + 1 == slices
  {
    if i + 1 == slices then 0 else i + 1
  }

  /** The next column is the column after `i` modulo the ring size. */
  lemma NextColumnWraps(i: nat, slices: nat)
    requires i < slices
    ensures NextColumn(i, slices) == (i + 1) % slices
  {
    if i + 1 < slices {
      assert (i + 1) / slices == 0;
    }
  }

  /** The upper index of column `x` in strip row `j`: ring j + 1, or the north pole in the last row. */
  function Upper(slices: nat, loops: nat, x: nat, j: nat): nat
  {
    if j + 2 == loops then 1 else 2 + x + j * slices
  }

  /** The lower index of column `x` in strip row `j`: ring j, or the south pole in the first row. */
  function Lower(slices: nat, x: nat, j: nat): nat
  {
    if j == 0 then 0 else 2 + x + (j - 1) * slices
  }

  /** The first `n` column pairs of strip row `j`: the columns after 0 to n - 1. */
  function RingPairs(slices: nat, loops: nat, j: nat, n: nat): (r: seq<nat>)
    requires n <= slices
    ensures |r| == 2 * n
  {
    if n == 0 then []
    else
      var x := NextColumn(n - 1, slices);
      RingPairs(slices, loops, j, n - 1) + [Upper(slices, loops, x, j), Lower(slices, x, j)]
  }

  /** The first index of strip row `j`. */
  function RowStartIndex(slices: nat, loops: nat, j: nat): nat
  {
    Upper(slices, loops, 0, j)
  }

  /**
   * Strip row `j`: column 0 of its two rings, the column pairs, and, unless
   * it is the last row, the last index again and the start of the next row.
   */
  function RingRow(slices: nat, loops: nat, j: nat): (r: seq<nat>)
    ensures |r| == 2 + 2 * slices + (if j + 2 == loops then 0 else 2)
  {
    [Upper(slices, loops, 0, j), Lower(slices, 0, j)] + RingPairs(slices, loops, j, slices)
    + (if j + 2 == loops then [] else [Lower(slices, 0, j), if j + 3 == loops then 1 else 2 + (j + 1) * slices])
  }

  /** The first `n` strip rows, one after the other. */
  function RingRows(slices: nat, loops: nat, n: nat): seq<nat>
  {
    if n == 0 then [] else RingRows(slices, loops, n - 1) + RingRow(slices, loops, n - 1)
  }

  /** The index buffer of the untextured sphere. */
  function PoleIndices(slices: nat, loops: nat): seq<nat>
    requires loops > 3
  {
    RingRows(slices, loops, loops - 1)
  }

  lemma {:induction false} RingRowsLength(slices: nat, loops: nat, n: nat)
    requires n + 2 <= loops
    ensures |RingRows(slices, loops, n)| == n * (4 + 2 * slices)
  {
    if n > 0 {
      RingRowsLength(slices, loops, n - 1);
      MeshSpheres.RowAfterRow(n - 1, 4 + 2 * slices);
    }
  }

  /** The untextured index buffer is exactly as long as the size the source gives it. */
  lemma PoleIndicesLength(slices: nat, loops: nat)
    requires loops > 3
    ensures |PoleIndices(slices, loops)| == MeshSpheres.IndexCount(slices, loops)
  {
    RingRowsLength(slices, loops, loops - 2);
    MeshSpheres.RowAfterRow(loops - 2, 2 + 2 * slices);
  }

  lemma {:induction false} RingRowsPrefix(slices: nat, loops: nat, m: nat, n: nat)
    requires m <= n
    ensures |RingRows(slices, loops, m)| <= |RingRows(slices, loops, n)|
    ensures RingRows(slices, loops, n)[..|RingRows(slices, loops, m)|] == RingRows(slices, loops, m)
    decreases n - m
  {
    if m < n {
      RingRowsPrefix(slices, loops, m, n - 1);
      var p := RingRows(slices, loops, n - 1);
      assert RingRows(slices, loops, n)[..|p|] == p;
    }
  }

  /** The vertex count of the untextured sphere. */
  function PoleVertexCount(slices: nat, loops: nat): int
  {
    2 + slices * (loops - 2)
  }

  /** A column of a ring strictly inside the sphere names one of its vertices. */
  lemma RingIndexBelow(slices: nat, loops: nat, x: nat, j: nat)
    requires x < slices && j + 2 < loops
    ensures 2 + x + j * slices < PoleVertexCount(slices, loops)
  {
    MeshSpheres.GridIndex(x, j, loops - 2, slices);
  }

  lemma {:induction false} RingPairsBelow(slices: nat, loops: nat, j: nat, n: nat)
    requires 0 < slices && n <= slices && j + 2 <= loops
    ensures MeshSpheres.AllBelow(RingPairs(slices, loops, j, n), PoleVertexCount(slices, loops))
  {
    if n > 0 {
      RingPairsBelow(slices, loops, j, n - 1);
      var x := NextColumn(n - 1, slices);
      if j + 2 != loops {
        RingIndexBelow(slices, loops, x, j);
      }
      if j > 0 {
        RingIndexBelow(slices, loops, x, j - 1);
      }
    }
  }

  /** Every index of an untextured strip row names a vertex of the sphere. */
  lemma RingRowBelow(slices: nat, loops: nat, j: nat)
    requires 0 < slices && j + 2 <= loops
    ensures MeshSpheres.AllBelow(RingRow(slices, loops, j), PoleVertexCount(slices, loops))
  {
    RingPairsBelow(slices, loops, j, slices);
    if j + 2 != loops {
      RingIndexBelow(slices, loops, 0, j);
      if j + 3 != loops {
        RingIndexBelow(slices, loops, 0, j + 1);
      }
    }
    if j > 0 {
      RingIndexBelow(slices, loops, 0, j - 1);
    }
  }

  lemma {:induction false} RingRowsBelow(slices: nat, loops: nat, n: nat)
    requires 0 < slices && n + 1 <= loops
    ensures MeshSpheres.AllBelow(RingRows(slices, loops, n), PoleVertexCount(slices, loops))
  {
    if n > 0 {
      RingRowsBelow(slices, loops, n - 1);
      RingRowBelow(slices, loops, n - 1);
    }
  }

  /** Every untextured index is below the vertex count `2 + slices * (loops - 2)`. */
  lemma PoleIndicesBelow(slices: nat, loops: nat)
    requires loops > 3 && 0 < slices
    ensures MeshSpheres.AllBelow(PoleIndices(slices, loops), |PoleVertices(slices, loops)|)
  {
    RingRowsBelow(slices, loops, loops - 1);
  }

  /**
   * The poles close the sphere: every lower index of the first row is the
   * south pole and every upper index of the last row the north pole.  Each
   * row but the last repeats its last index and jumps to the next row's start.
   */
  lemma PolesCloseSphere(slices: nat, loops: nat, j: nat, k: nat)
    requires loops > 3 && j + 2 <= loops && k < 2 + 2 * slices
    ensures j == 0 && k % 2 == 1 ==> RingRow(slices, loops, j)[k] == 0
    ensures j + 2 == loops && k % 2 == 0 ==> RingRow(slices, loops, j)[k] == 1
    ensures j + 2 < loops ==>
      && RingRow(slices, loops, j)[2 + 2 * slices] == RingRow(slices, loops, j)[1 + 2 * slices]
      && RingRow(slices, loops, j)[3 + 2 * slices] == RingRow(slices, loops, j + 1)[0]
  {
    var head := [Upper(slices, loops, 0, j), Lower(slices, 0, j)];
    PairAt(slices, loops, j, slices, k);
    LastOfRingHead(slices, loops, j, slices);
  }

  /** Entry `k` of the column pairs and their head: an upper index at even `k`, a lower one at odd `k`. */
  lemma {:induction false} PairAt(slices: nat, loops: nat, j: nat, n: nat, k: nat)
    requires n <= slices && k < 2 + 2 * n
    ensures k % 2 == 0 ==> exists x :: ([Upper(slices, loops, 0, j), Lower(slices, 0, j)] + RingPairs(slices, loops, j, n))[k] == Upper(slices, loops, x, j)
    ensures k % 2 == 1 ==> exists x :: ([Upper(slices, loops, 0, j), Lower(slices, 0, j)] + RingPairs(slices, loops, j, n))[k] == Lower(slices, x, j)
  {
    var head := [Upper(slices, loops, 0, j), Lower(slices, 0, j)];
    if n == 0 {
      assert (head + RingPairs(slices, loops, j, n))[k] == head[k];
      if k == 0 {
        assert head[k] == Upper(slices, loops, 0, j);
      } else {
        assert head[k] == Lower(slices, 0, j);
      }
    } else if k >= 2 * n {
      var x := NextColumn(n - 1, slices);
      assert (head + RingPairs(slices, loops, j, n))[k] == [Upper(slices, loops, x, j), Lower(slices, x, j)][k - 2 * n];
    } else {
      PairAt(slices, loops, j, n - 1, k);
      assert (head + RingPairs(slices, loops, j, n))[k] == (head + RingPairs(slices, loops, j, n - 1))[k];
    }
  }

  /** The last index before the degenerate pair is column 0 of the lower ring. */
  lemma LastOfRingHead(slices: nat, loops: nat, j: nat, n: nat)
    requires n <= slices && (0 < n ==> n == slices)
    ensures ([Upper(slices, loops, 0, j), Lower(slices, 0, j)] + RingPairs(slices, loops, j, n))[1 + 2 * n] == Lower(slices, 0, j)
  {
    if n > 0 {
      assert ([Upper(slices, loops, 0, j), Lower(slices, 0, j)] + RingPairs(slices, loops, j, n))[1 + 2 * n] == RingPairs(slices, loops, j, n)[2 * n - 1];
    }
  }

  /** The inner index loop: the column pairs of strip row `j`, from `ind` on. */
  method FillRingPairs(a: array<nat>, ind: int, slices: nat, loops: nat, j: nat, ghost pre: seq<nat>) returns (next: int)
    requires 0 <= ind && ind + 2 * slices <= a.Length && a[..ind] == pre
    modifies a
    ensures next == ind + 2 * slices && a[..next] == pre + RingPairs(slices, loops, j, slices)
  {
    next := ind;
    var i := 0;
    while i < slices
      invariant 0 <= i <= slices && next == ind + 2 * i
      invariant a[..next] == pre + RingPairs(slices, loops, j, i)
    {
      PutRingPair(a, next, slices, loops, j, i, pre);
      next := next + 2;
      i := i + 1;
    }
  }

  /** One turn of the inner index loop: column i + 1, wrapping to 0, of the row's two rings or poles. */
  method PutRingPair(a: array<nat>, next: int, slices: nat, loops: nat, j: nat, i: nat, ghost pre: seq<nat>)
    requires i < slices
    requires 0 <= next && next + 2 <= a.Length && a[..next] == pre + RingPairs(slices, loops, j, i)
    modifies a
    ensures a[..next + 2] == pre + RingPairs(slices, loops, j, i + 1)
  {
    var nextI := if i + 1 == slices then 0 else i + 1;
    var upper := if j + 2 == loops then 1 else 2 + nextI + j * slices;
    var lower := if j == 0 then 0 else 2 + nextI + (j - 1) * slices;
    assert nextI == NextColumn(i, slices);
    assert upper == Upper(slices, loops, nextI, j) && lower == Lower(slices, nextI, j);
    ghost var done := RingPairs(slices, loops, j, i);
    assert RingPairs(slices, loops, j, i + 1) == done + [upper, lower];
    MeshSpheres.PutPair(a, next, upper, lower, pre + done);
    assert pre + done + [upper, lower] == pre + (done + [upper, lower]);
  }

  /** One turn of the outer index loop of the untextured branch: strip row `j`, from `ind` on. */
  method FillRingRow(a: array<nat>, ind: int, slices: nat, loops: nat, j: nat) returns (next: int)
    requires j + 2 <= loops
    requires 0 <= ind && ind + |RingRow(slices, loops, j)| <= a.Length && a[..ind] == RingRows(slices, loops, j)
    modifies a
    ensures next == ind + |RingRow(slices, loops, j)| && a[..next] == RingRows(slices, loops, j + 1)
  {
    ghost var pre := RingRows(slices, loops, j);
    var first := if j + 2 == loops then 1 else 2 + j * slices;
    var second := if j == 0 then 0 else 2 + (j - 1) * slices;
    MeshSpheres.PutPair(a, ind, first, second, pre);
    assert [first, second] == [Upper(slices, loops, 0, j), Lower(slices, 0, j)];
    next := FillRingPairs(a, ind + 2, slices, loops, j, pre + [first, second]);
    next := FinishRingRow(a, next, slices, loops, j, pre);
  }

  /**
   * The end of strip row `j`: unless it is the last row, the index just
   * written again and the start of the next row, the north pole after the
   * last ring.
   */
  method FinishRingRow(a: array<nat>, ind: int, slices: nat, loops: nat, j: nat, ghost pre: seq<nat>) returns (next: int)
    requires j + 2 <= loops
    requires 0 <= ind && ind + (if j + 2 == loops then 0 else 2) <= a.Length
    requires a[..ind] == pre + [Upper(slices, loops, 0, j), Lower(slices, 0, j)] + RingPairs(slices, loops, j, slices)
    modifies a
    ensures next == ind + (if j + 2 == loops then 0 else 2) && a[..next] == pre + RingRow(slices, loops, j)
  {
    ghost var body := [Upper(slices, loops, 0, j), Lower(slices, 0, j)] + RingPairs(slices, loops, j, slices);
    assert pre + [Upper(slices, loops, 0, j), Lower(slices, 0, j)] + RingPairs(slices, loops, j, slices) == pre + body;
    next := ind;
    if j + 2 != loops {
      LastOfRingHead(slices, loops, j, slices);
      assert a[next - 1] == (pre + body)[next - 1] == Lower(slices, 0, j);
      var jump := if j + 3 == loops then 1 else 2 + (j + 1) * slices;
      MeshSpheres.PutPair(a, next, a[next - 1], jump, pre + body);
      next := next + 2;
      assert pre + body + [Lower(slices, 0, j), jump] == pre + (body + [Lower(slices, 0, j), jump]);
    } else {
      assert pre + body == pre + (body + []);
    }
  }

  /** The index loops of the untextured branch. */
  method PoleIndexLoops(slices: nat, loops: nat) returns (indices: seq<nat>)
    requires loops > 3
    ensures indices == PoleIndices(slices, loops)
  {
    PoleIndicesLength(slices, loops);
    var a := new nat[(2 + 2 * slices) * (loops - 1) + 2 * (loops - 2)](_ => 0);
    var ind := 0;
    var j := 0;
    while j < loops - 1
      invariant 0 <= j <= loops - 1 && ind == |RingRows(slices, loops, j)|
      invariant a.Length == |PoleIndices(slices, loops)| && ind <= a.Length
      invariant a[..ind] == RingRows(slices, loops, j)
    {
      RingRowsPrefix(slices, loops, j + 1, loops - 1);
      ind := FillRingRow(a, ind, slices, loops, j);
      j := j + 1;
    }
    assert a[..] == a[..ind];
    indices := a[..];
  }

  // ----- the model -----

  /** Whether some attribute is a texture coordinate. */
  predicate Textured(attribs: seq<VertexFormats.VertexAttribute>)
  {
    exists k :: 0 <= k < |attribs| && attribs[k].kind == VertexFormats.Texcoord
  }

  class SphereModel {
    const slices: nat
    const loops: nat
    const radius: real
    var attribs: seq<VertexFormats.VertexAttribute>
    var vertices: seq<Meshes.Vertex>
    var indices: seq<nat>

    /** A new model keeps its parameters and has no attributes and no data. */
    constructor (slices: nat, loops: nat, radius: real)
      ensures this.slices == slices && this.loops == loops && this.radius == radius
      ensures attribs == [] && vertices == [] && indices == []
    {
      this.slices, this.loops, this.radius := slices, loops, radius;
      attribs, vertices, indices := [], [], [];
    }

    /** `GeneratedModel::AddFormat`: one more attribute at the end. */
    method AddFormat(attrib: VertexFormats.VertexAttribute)
      modifies this
      ensures attribs == old(attribs) + [attrib] && vertices == old(vertices) && indices == old(indices)
    {
      attribs := attribs + [attrib];
    }

    /** `GeneratedModel::HasTexture`: some attribute is a texture coordinate. */
    method HasTexture() returns (r: bool)
      ensures r <==> Textured(attribs)
    {
      var k := 0;
      while k < |attribs|
        invariant 0 <= k <= |attribs|
        invariant forall m :: 0 <= m < k ==> attribs[m].kind != VertexFormats.Texcoord
      {
        if attribs[k].kind == VertexFormats.Texcoord {
          return true;
        }
        k := k + 1;
      }
      return false;
    }

    /**
     * `Create`: the textured grid sphere when the model has texture
     * coordinates, the sphere with shared poles otherwise.  The source
     * asserts `loops > 3`.
     */
    method Create()
      requires loops > 3
      modifies this
      ensures Textured(attribs) ==> vertices == MeshSpheres.Grid(slices, loops) && indices == MeshSpheres.SphereIndices(slices, loops)
      ensures !Textured(attribs) ==> vertices == PoleVertices(slices, loops) && indices == PoleIndices(slices, loops)
      ensures attribs == old(attribs)
    {
      var textured := HasTexture();
      if textured {
        vertices := MeshSpheres.GridVertices(slices, loops);
        indices := MeshSpheres.StripIndices(slices, loops);
      } else {
        vertices := PoleVertexLoops(slices, loops);
        indices := PoleIndexLoops(slices, loops);
      }
    }
  }
}
