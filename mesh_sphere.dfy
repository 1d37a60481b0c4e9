// The sphere of `Mesh::CreateSphere` in src/model/mesh_sphere.cpp: a grid of
// `(slices + 1) * loops` vertices, row j holding the points of latitude j,
// and one triangle strip over it.  Row j of the strip zig-zags between grid
// rows j + 1 and j; between two rows a repeated index and a jump to the
// start of the next row make degenerate triangles.
//
// Indices are unbounded here; the source computes them in 32 bits.

module MeshSpheres {
  import Meshes

  // ----- arithmetic -----

  lemma MulLe(a: int, b: int, c: int)
    requires a <= b && 0 <= c
    ensures a * c <= b * c
  {
    assert b * c == a * c + (b - a) * c;
  }

  /** Row `j` of a grid with `w` points a row starts at `j * w`, and the next row `w` later. */
  lemma RowAfterRow(j: int, w: int)
    ensures (j + 1) * w == j * w + w
  {
  }

  // ----- vertices -----

  /** The points of grid row `j`: columns 0 to `slices`. */
  function GridRow(slices: nat, j: nat): (r: seq<Meshes.Vertex>)
    ensures |r| == slices + 1
    ensures forall i :: 0 <= i <= slices ==> r[i] == Meshes.GridPoint(i, j)
  {
    seq(slices + 1, (i: int) requires 0 <= i => Meshes.GridPoint(i, j))
  }

  /** The vertices of the first `n` grid rows, row after row. */
  function Grid(slices: nat, n: nat): (r: seq<Meshes.Vertex>)
    ensures |r| == (slices + 1) * n
  {
    if n == 0 then []
    else
      RowAfterRow(n - 1, slices + 1);
      Grid(slices, n - 1) + GridRow(slices, n - 1)
  }

  /** Point `i` of row `j` lies inside the first `n` rows, and inside the first `n - 1` unless `j` is the last. */
  lemma GridIndex(i: int, j: int, n: int, w: int)
    requires 0 <= i < w && 0 <= j < n
    ensures j * w + i < n * w
    ensures j < n - 1 ==> j * w + i < (n - 1) * w
  {
    RowAfterRow(j, w);
    MulLe(j + 1, n, w);
    if j < n - 1 {
      MulLe(j + 1, n - 1, w);
    }
  }

  /** The vertex at `j * (slices + 1) + i` is grid point (i, j): the grid is laid out row by row. */
  lemma {:induction false} GridAt(slices: nat, n: nat, i: nat, j: nat)
    requires i <= slices && j < n
    ensures j * (slices + 1) + i < |Grid(slices, n)|
    ensures Grid(slices, n)[j * (slices + 1) + i] == Meshes.GridPoint(i, j)
  {
    var w := slices + 1;
    var p := j * w + i;
    var prev := Grid(slices, n - 1);
    GridIndex(i, j, n, w);
    if j < n - 1 {
      GridAt(slices, n - 1, i, j);
      assert Grid(slices, n)[p] == prev[p];
    } else {
      assert |prev| == j * w;
      assert Grid(slices, n) == prev + GridRow(slices, j);
      assert Grid(slices, n)[p] == GridRow(slices, j)[p - |prev|];
    }
  }

  /** Appends `v` at `k`: the first `k + 1` elements are `pre` and `v`. */
  method PutVertex(a: array<Meshes.Vertex>, k: int, v: Meshes.Vertex, ghost pre: seq<Meshes.Vertex>)
    requires 0 <= k < a.Length && a[..k] == pre
    modifies a
    ensures a[..k + 1] == pre + [v]
  {
    a[k] := v;
    assert a[..k + 1] == a[..k] + [v];
  }

  /** The inner loop of the vertex loops: the points of row `j`, from `ind` on. */
  method FillGridRow(a: array<Meshes.Vertex>, ind: int, slices: nat, j: nat) returns (next: int)
    requires 0 <= ind && ind + slices + 1 <= a.Length && a[..ind] == Grid(slices, j)
    modifies a
    ensures next == ind + slices + 1 && a[..next] == Grid(slices, j + 1)
  {
    ghost var pre := Grid(slices, j);
    ghost var row := GridRow(slices, j);
    next := ind;
    var i := 0;
    while i <= slices
      invariant 0 <= i <= slices + 1 && next == ind + i
      invariant a[..next] == pre + row[..i]
    {
      assert row[..i + 1] == row[..i] + [Meshes.GridPoint(i, j)];
      PutVertex(a, next, Meshes.GridPoint(i, j), pre + row[..i]);
      next := next + 1;
      i := i + 1;
    }
    assert row[..i] == row;
  }

  /** The vertex loops of `CreateSphere`: every grid point written, row by row. */
  method GridVertices(slices: nat, loops: nat) returns (vertices: seq<Meshes.Vertex>)
    ensures vertices == Grid(slices, loops)
  {
    var a := GridBuffer(slices, loops);
    var ind := 0;
    var j := 0;
    while j < loops
      invariant 0 <= j <= loops && a.Length == |Grid(slices, loops)|
      invariant ind == |Grid(slices, j)| && ind <= a.Length
      invariant a[..ind] == Grid(slices, j)
    {
      ind := NextGridRow(a, ind, slices, j, loops);
      j := j + 1;
    }
    assert a[..] == a[..ind];
    vertices := a[..];
  }

  /** A buffer the size of the whole grid. */
  method GridBuffer(slices: nat, loops: nat) returns (a: array<Meshes.Vertex>)
    ensures fresh(a) && a.Length == |Grid(slices, loops)|
  {
    a := new Meshes.Vertex[(slices + 1) * loops](_ => Meshes.Blank);
  }

  /** One turn of the outer vertex loop: row `j` after the rows before it. */
  method NextGridRow(a: array<Meshes.Vertex>, ind: int, slices: nat, j: nat, loops: nat) returns (next: int)
    requires j < loops && a.Length == |Grid(slices, loops)|
    requires ind == |Grid(slices, j)| && ind <= a.Length && a[..ind] == Grid(slices, j)
    modifies a
    ensures next == |Grid(slices, j + 1)| && next <= a.Length && a[..next] == Grid(slices, j + 1)
  {
    RowAfterRow(j, slices + 1);
    MulLe(j + 1, loops, slices + 1);
    next := FillGridRow(a, ind, slices, j);
  }

  // ----- indices -----

  /** The first `n` column pairs of strip row `j` over rows of `w` points: columns 1 to `n` of rows j + 1 and j. */
  function StripPairs(w: nat, j: nat, n: nat): (r: seq<nat>)
    ensures |r| == 2 * n
  {
    if n == 0 then [] else StripPairs(w, j, n - 1) + [n + (j + 1) * w, n + j * w]
  }

  /**
   * Strip row `j`: column 0 of rows j + 1 and j, the column pairs, and,
   * unless it is the last row, the degenerate pair: the last index again and
   * the start of row j + 2.
   */
  function StripRow(slices: nat, loops: nat, j: nat): (r: seq<nat>)
    ensures |r| == 2 + 2 * slices + (if j + 2 == loops then 0 else 2)
  {
    var w := slices + 1;
    [(j + 1) * w, j * w] + StripPairs(w, j, slices) + (if j + 2 == loops then [] else [slices + j * w, (j + 2) * w])
  }

  /** The first `n` strip rows, one after the other. */
  function StripRows(slices: nat, loops: nat, n: nat): seq<nat>
  {
    if n == 0 then [] else StripRows(slices, loops, n - 1) + StripRow(slices, loops, n - 1)
  }

  /** The index buffer of the sphere: the strip rows between its `loops` grid rows. */
  function SphereIndices(slices: nat, loops: nat): seq<nat>
    requires loops > 3
  {
    StripRows(slices, loops, loops - 1)
  }

  /** The size the source gives the index buffer. */
  function IndexCount(slices: nat, loops: nat): int
  {
    (2 + 2 * slices) * (loops - 1) + 2 * (loops - 2)
  }

  /** Every strip row before the last has its degenerate pair: four indices more than its column pairs. */
  lemma {:induction false} StripRowsLength(slices: nat, loops: nat, n: nat)
    requires n + 2 <= loops
    ensures |StripRows(slices, loops, n)| == n * (4 + 2 * slices)
  {
    if n > 0 {
      StripRowsLength(slices, loops, n - 1);
      RowAfterRow(n - 1, 4 + 2 * slices);
    }
  }

  /** The index buffer is exactly as long as the size the source gives it. */
  lemma SphereIndicesLength(slices: nat, loops: nat)
    requires loops > 3
    ensures |SphereIndices(slices, loops)| == IndexCount(slices, loops)
  {
    StripRowsLength(slices, loops, loops - 2);
    RowAfterRow(loops - 2, 2 + 2 * slices);
  }

  /** The first strip rows are a prefix of the later ones. */
  lemma {:induction false} StripRowsPrefix(slices: nat, loops: nat, m: nat, n: nat)
    requires m <= n
    ensures |StripRows(slices, loops, m)| <= |StripRows(slices, loops, n)|
    ensures StripRows(slices, loops, n)[..|StripRows(slices, loops, m)|] == StripRows(slices, loops, m)
    decreases n - m
  {
    if m < n {
      StripRowsPrefix(slices, loops, m, n - 1);
      var p := StripRows(slices, loops, n - 1);
      assert StripRows(slices, loops, n)[..|p|] == p;
    }
  }

  /** Every index is below `n` when each is at most `n - 1`. */
  predicate AllBelow(s: seq<nat>, n: int)
  {
    forall k :: 0 <= k < |s| ==> s[k] < n
  }

  lemma {:induction false} StripPairsBelow(w: nat, j: nat, n: nat, bound: int)
    requires n + (j + 1) * w < bound
    ensures AllBelow(StripPairs(w, j, n), bound)
  {
    if n > 0 {
      StripPairsBelow(w, j, n - 1, bound);
      RowAfterRow(j, w);
    }
  }

  /** Every index of a strip row names a vertex of the grid. */
  lemma StripRowBelow(slices: nat, loops: nat, j: nat)
    requires j + 2 <= loops
    ensures AllBelow(StripRow(slices, loops, j), (slices + 1) * loops)
  {
    var w := slices + 1;
    RowAfterRow(loops - 1, w);
    MulLe(j + 1, loops - 1, w);
    StripPairsBelow(w, j, slices, w * loops);
    if j + 2 != loops {
      MulLe(j + 2, loops - 1, w);
    }
    RowAfterRow(j, w);
  }

  lemma {:induction false} StripRowsBelow(slices: nat, loops: nat, n: nat)
    requires n + 1 <= loops
    ensures AllBelow(StripRows(slices, loops, n), (slices + 1) * loops)
  {
    if n > 0 {
      StripRowsBelow(slices, loops, n - 1);
      StripRowBelow(slices, loops, n - 1);
    }
  }

  /** Every index of the sphere is below its vertex count `(slices + 1) * loops`. */
  lemma SphereIndicesBelow(slices: nat, loops: nat)
    requires loops > 3
    ensures AllBelow(SphereIndices(slices, loops), |Grid(slices, loops)|)
  {
    StripRowsBelow(slices, loops, loops - 1);
  }

  /**
   * Strip row `j` lies in the index buffer at `Start(j)`: it opens with the
   * start of grid rows j + 1 and j, and, unless it is the last, closes with
   * the previous index repeated and the start of grid row j + 2, where the
   * next strip row opens.
   */
  lemma StripRowShape(slices: nat, loops: nat, j: nat)
    requires loops > 3 && j + 1 < loops
    ensures |StripRows(slices, loops, j)| + |StripRow(slices, loops, j)| <= |SphereIndices(slices, loops)|
    ensures SphereIndices(slices, loops)[|StripRows(slices, loops, j)|..|StripRows(slices, loops, j)| + |StripRow(slices, loops, j)|] == StripRow(slices, loops, j)
    ensures StripRow(slices, loops, j)[0] == (j + 1) * (slices + 1) && StripRow(slices, loops, j)[1] == j * (slices + 1)
    ensures j + 2 < loops ==>
      && StripRow(slices, loops, j)[2 + 2 * slices] == StripRow(slices, loops, j)[1 + 2 * slices]
      && StripRow(slices, loops, j)[3 + 2 * slices] == StripRow(slices, loops, j + 1)[0]
  {
    StripRowsPrefix(slices, loops, j + 1, loops - 1);
    var pre := StripRows(slices, loops, j);
    var row := StripRow(slices, loops, j);
    assert StripRows(slices, loops, j + 1) == pre + row;
    assert (pre + row)[|pre|..|pre| + |row|] == row;
    var w := slices + 1;
    var head := [(j + 1) * w, j * w] + StripPairs(w, j, slices);
    LastOfHead(w, j, slices);
    if j + 2 < loops {
      assert row == head + [slices + j * w, (j + 2) * w];
    }
  }

  /** The last index before a strip row's degenerate pair is column `n` of grid row j. */
  lemma LastOfHead(w: nat, j: nat, n: nat)
    ensures ([(j + 1) * w, j * w] + StripPairs(w, j, n))[1 + 2 * n] == n + j * w
  {
    if n > 0 {
      assert ([(j + 1) * w, j * w] + StripPairs(w, j, n))[1 + 2 * n] == StripPairs(w, j, n)[2 * n - 1];
    }
  }

  /** Appends `u` and `v` at `k`: the first `k + 2` elements are `pre`, `u` and `v`. */
  method PutPair(a: array<nat>, k: int, u: nat, v: nat, ghost pre: seq<nat>)
    requires 0 <= k && k + 2 <= a.Length && a[..k] == pre
    modifies a
    ensures a[..k + 2] == pre + [u, v]
  {
    a[k] := u;
    a[k + 1] := v;
    assert a[..k + 2] == a[..k] + [u, v];
  }

  /** The inner index loop: the column pairs of strip row `j`, from `ind` on. */
  method FillStripPairs(a: array<nat>, ind: int, width: nat, j: nat, slices: nat, ghost pre: seq<nat>) returns (next: int)
    requires 0 <= ind && ind + 2 * slices <= a.Length && a[..ind] == pre
    modifies a
    ensures next == ind + 2 * slices && a[..next] == pre + StripPairs(width, j, slices)
  {
    next := ind;
    var i := 0;
    while i < slices
      invariant 0 <= i <= slices && next == ind + 2 * i
      invariant a[..next] == pre + StripPairs(width, j, i)
    {
      PutStripPair(a, next, width, j, i, pre);
      next := next + 2;
      i := i + 1;
    }
  }

  /** One turn of the inner index loop: column `i + 1` of rows j + 1 and j. */
  method PutStripPair(a: array<nat>, next: int, width: nat, j: nat, i: nat, ghost pre: seq<nat>)
    requires 0 <= next && next + 2 <= a.Length && a[..next] == pre + StripPairs(width, j, i)
    modifies a
    ensures a[..next + 2] == pre + StripPairs(width, j, i + 1)
  {
    var nextI := i + 1;
    ghost var done := StripPairs(width, j, i);
    assert StripPairs(width, j, i + 1) == done + [nextI + (j + 1) * width, nextI + j * width];
    PutPair(a, next, nextI + (j + 1) * width, nextI + j * width, pre + done);
    assert pre + done + [nextI + (j + 1) * width, nextI + j * width] == pre + (done + [nextI + (j + 1) * width, nextI + j * width]);
  }

  /** One turn of the outer index loop: strip row `j`, from `ind` on. */
  method FillStripRow(a: array<nat>, ind: int, slices: nat, loops: nat, j: nat) returns (next: int)
    requires j + 2 <= loops
    requires 0 <= ind && ind + |StripRow(slices, loops, j)| <= a.Length && a[..ind] == StripRows(slices, loops, j)
    modifies a
    ensures next == ind + |StripRow(slices, loops, j)| && a[..next] == StripRows(slices, loops, j + 1)
  {
    ghost var pre := StripRows(slices, loops, j);
    var width := slices + 1;
    PutPair(a, ind, (j + 1) * width, j * width, pre);
    next := FillStripPairs(a, ind + 2, width, j, slices, pre + [(j + 1) * width, j * width]);
    next := FinishStripRow(a, next, slices, loops, j, pre);
  }

  /**
   * The end of strip row `j`: unless it is the last row, the index just
   * written again and the start of row j + 2.
   */
  method FinishStripRow(a: array<nat>, ind: int, slices: nat, loops: nat, j: nat, ghost pre: seq<nat>) returns (next: int)
    requires j + 2 <= loops
    requires 0 <= ind && ind + (if j + 2 == loops then 0 else 2) <= a.Length
    requires a[..ind] == pre + [(j + 1) * (slices + 1), j * (slices + 1)] + StripPairs(slices + 1, j, slices)
    modifies a
    ensures next == ind + (if j + 2 == loops then 0 else 2) && a[..next] == pre + StripRow(slices, loops, j)
  {
    var width := slices + 1;
    ghost var body := [(j + 1) * width, j * width] + StripPairs(width, j, slices);
    assert pre + [(j + 1) * width, j * width] + StripPairs(width, j, slices) == pre + body;
    next := ind;
    if j + 2 != loops {
      LastOfHead(width, j, slices);
      assert a[next - 1] == (pre + body)[next - 1] == slices + j * width;
      PutPair(a, next, a[next - 1], (j + 2) * width, pre + body);
      next := next + 2;
      assert pre + body + [slices + j * width, (j + 2) * width] == pre + (body + [slices + j * width, (j + 2) * width]);
    } else {
      assert pre + body == pre + (body + []);
    }
  }

  /** The index loops of `CreateSphere`: the strip rows, written through a running index. */
  method StripIndices(slices: nat, loops: nat) returns (indices: seq<nat>)
    requires loops > 3
    ensures indices == SphereIndices(slices, loops)
  {
    SphereIndicesLength(slices, loops);
    var a := new nat[(2 + 2 * slices) * (loops - 1) + 2 * (loops - 2)](_ => 0);
    var ind := 0;
    var j := 0;
    while j < loops - 1
      invariant 0 <= j <= loops - 1 && ind == |StripRows(slices, loops, j)|
      invariant a.Length == |SphereIndices(slices, loops)| && ind <= a.Length
      invariant a[..ind] == StripRows(slices, loops, j)
    {
      StripRowsPrefix(slices, loops, j + 1, loops - 1);
      ind := FillStripRow(a, ind, slices, loops, j);
      j := j + 1;
    }
    assert a[..] == a[..ind];
    indices := a[..];
  }

  /**
   * `CreateSphere`: a new part holding the grid vertices and the strip
   * indices, and bounds of a box and a ball of the radius around the origin.
   * The source asserts `loops > 3`.
   */
  method CreateSphere(mesh: Meshes.Mesh, radius: real, slices: nat, loops: nat)
    requires loops > 3
    modifies mesh
    ensures mesh.parts == old(mesh.parts) + [Meshes.MeshPart(Grid(slices, loops), SphereIndices(slices, loops), Meshes.TriangleStrip, 0)]
    ensures mesh.box == Meshes.Box(-radius, radius) && mesh.sphere == Meshes.Ball(radius) && mesh.hasBounds
    ensures mesh.forceTriangles == old(mesh.forceTriangles)
  {
    var part := Meshes.NewPart();
    var vertices := GridVertices(slices, loops);
    var indices := StripIndices(slices, loops);
    part := part.(vertices := vertices, indices := indices);
    mesh.parts := mesh.parts + [part];
    mesh.box := Meshes.Box(-radius, radius);
    mesh.sphere := Meshes.Ball(radius);
    mesh.hasBounds := true;
  }
}
