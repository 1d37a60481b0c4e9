// The vertex layout of src/graphics/vertex_format.cpp.
//
// A format owns a copy of its attribute array (null until `Fill`), the
// per-attribute table `generic_` of kMaxGeneric entries, and the vertex
// size in bytes.  Every component is a float of 4 bytes.  Unsigned
// arithmetic is unbounded here: the sizes are small counts.

module VertexFormats {

  /** `kMaxGeneric`. */
  const MaxGeneric := 16
  /** `sizeof(float)`. */
  const FloatSize := 4

  datatype AttribType = Generic | Vertex | Normal | Texcoord | Color | Tangent | Binormal

  datatype VertexAttribute = VertexAttribute(kind: AttribType, size: nat)

  /** `VertexFormat::Attrib`: where an attribute starts in a vertex, and how many floats it has. */
  datatype Attrib = Attrib(offset: int, size: int)

  /** `VertexAttribute::operator==`: same type and same size. */
  function AttributeEquals(a: VertexAttribute, b: VertexAttribute): (r: bool)
    ensures r <==> a == b
  {
    a.kind == b.kind && a.size == b.size
  }

  /** The number of floats the first `i` attributes take together. */
  function PrefixSize(attribs: seq<VertexAttribute>, i: nat): nat
    requires i <= |attribs|
  {
    if i == 0 then 0 else PrefixSize(attribs, i - 1) + attribs[i - 1].size
  }

  /** The byte offset `Fill` gives attribute `i`: four bytes per float of the attributes before it. */
  function Offset(attribs: seq<VertexAttribute>, i: nat): int
    requires i <= |attribs|
  {
    FloatSize * PrefixSize(attribs, i)
  }

  /** The byte size of a vertex made of these attributes. */
  function VertexBytes(attribs: seq<VertexAttribute>): int
  {
    Offset(attribs, |attribs|)
  }

  /** The prefix sums depend only on the attributes they cover. */
  lemma {:induction false} PrefixSizeOfPrefix(s: seq<VertexAttribute>, t: seq<VertexAttribute>, i: nat)
    requires i <= |s| && i <= |t| && s[..i] == t[..i]
    ensures PrefixSize(s, i) == PrefixSize(t, i)
  {
    if i > 0 {
      assert s[..i - 1] == s[..i][..i - 1] && t[..i - 1] == t[..i][..i - 1];
      assert s[i - 1] == s[..i][i - 1];
      PrefixSizeOfPrefix(s, t, i - 1);
    }
  }

  /** Laying two attribute lists one after the other adds their vertex sizes. */
  lemma {:induction false} VertexBytesAppend(s: seq<VertexAttribute>, t: seq<VertexAttribute>)
    ensures VertexBytes(s + t) == VertexBytes(s) + VertexBytes(t)
    decreases |t|
  {
    if t == [] {
      assert s + t == s;
    } else {
      var t' := t[..|t| - 1];
      var u := s + t;
      VertexBytesAppend(s, t');
      assert u[..|u| - 1] == s + t' == (s + t')[..|s + t'|];
      PrefixSizeOfPrefix(u, s + t', |s + t'|);
      assert u[|u| - 1] == t[|t| - 1];
      assert PrefixSize(u, |u|) == PrefixSize(s + t', |s + t'|) + t[|t| - 1].size;
      assert t[..|t'|] == t' == t'[..|t'|];
      PrefixSizeOfPrefix(t, t', |t'|);
    }
  }

  /** Offsets never decrease along the attribute list; with `j == |attribs|`, none lies past the vertex size. */
  lemma {:induction false} OffsetsMonotone(attribs: seq<VertexAttribute>, i: nat, j: nat)
    requires i <= j <= |attribs|
    ensures Offset(attribs, i) <= Offset(attribs, j)
    decreases j - i
  {
    if i < j {
      OffsetsMonotone(attribs, i, j - 1);
    }
  }

  /** The first `n` elements of a possibly null array; null holds nothing. */
  ghost function Elements(a: array?<VertexAttribute>, n: nat): seq<VertexAttribute>
    requires a == null ==> n == 0
    requires a != null ==> n <= a.Length
    reads a
  {
    if a == null then [] else a[..n]
  }

  /**
   * The loop of `Fill`: copies the first `n` attributes into `copy` and
   * writes their entries of the generic table, returning the vertex size.
   */
  method FillTables(attribs: array<VertexAttribute>, n: nat, copy: array<VertexAttribute>, generic: array<Attrib>)
    returns (size: nat)
    requires n <= attribs.Length && copy.Length == n && n <= generic.Length
    requires copy != attribs && generic.Length == MaxGeneric
    modifies copy, generic
    ensures copy[..] == attribs[..n] && size == VertexBytes(attribs[..n])
    ensures forall k :: 0 <= k < n ==> generic[k] == Attrib(Offset(attribs[..n], k), attribs[k].size)
    ensures forall k :: n <= k < MaxGeneric ==> generic[k] == old(generic[k])
  {
    ghost var s := attribs[..n];
    size := 0;
    var i := 0;
    while i < n
      invariant i <= n
      invariant copy[..i] == s[..i]
      invariant size == Offset(s, i)
      invariant forall k :: 0 <= k < i ==> generic[k] == Attrib(Offset(s, k), s[k].size)
      invariant forall k :: i <= k < MaxGeneric ==> generic[k] == old(generic[k])
    {
      copy[i] := attribs[i];
      assert copy[..i + 1] == s[..i + 1];
      assert attribs[i] == s[i];
      generic[i] := Attrib(size, attribs[i].size);
      assert Offset(s, i + 1) == size + attribs[i].size * FloatSize;
      size := size + attribs[i].size * FloatSize;
      i := i + 1;
    }
    assert copy[..] == copy[..i];
  }

  class VertexFormat {
    var attributes: array?<VertexAttribute>
    var numAttributes: nat
    const generic: array<Attrib>
    var vertexSize: nat
    var maxGeneric: nat

    ghost predicate Valid()
      reads this
    {
      && generic.Length == MaxGeneric
      && (attributes == null ==> numAttributes == 0 && vertexSize == 0 && maxGeneric == 0)
      && (attributes != null ==> attributes.Length == numAttributes)
    }

    /** The attributes the format holds. */
    ghost function Contents(): seq<VertexAttribute>
      requires Valid()
      reads this, attributes
    {
      Elements(attributes, numAttributes)
    }

    /** A new format has no attributes, zero size and a zeroed table. */
    constructor ()
      ensures Valid() && attributes == null && Contents() == [] && fresh(generic)
      ensures forall i :: 0 <= i < MaxGeneric ==> generic[i] == Attrib(0, 0)
    {
      attributes := null;
      numAttributes, vertexSize, maxGeneric := 0, 0, 0;
      generic := new Attrib[MaxGeneric](_ => Attrib(0, 0));
    }

    /**
     * `Fill`: copies the attributes in order; attribute i gets its size and
     * the offset of the floats before it, and the vertex size is the byte
     * size of them all.  It may run once, on a format without attributes,
     * and the table has room for kMaxGeneric attributes.
     */
    method Fill(attribs: array<VertexAttribute>, n: nat)
      requires Valid() && attributes == null && n <= attribs.Length && n <= MaxGeneric
      modifies this, generic
      ensures Valid() && fresh(attributes) && Contents() == attribs[..n]
      ensures numAttributes == n && maxGeneric == n && vertexSize == VertexBytes(attribs[..n])
      ensures forall i :: 0 <= i < n ==> generic[i] == Attrib(Offset(attribs[..n], i), attribs[i].size)
      ensures forall i :: n <= i < MaxGeneric ==> generic[i] == old(generic[i])
    {
      var copy := new VertexAttribute[n](_ => VertexAttribute(Generic, 0));
      var size := FillTables(attribs, n, copy, generic);
      attributes, numAttributes := copy, n;
      maxGeneric, vertexSize := n, size;
    }

    /** `IsSame`: the same number of attributes, pairwise equal. */
    method IsSame(attribs: array?<VertexAttribute>, n: nat) returns (same: bool)
      requires Valid()
      requires attribs == null ==> n == 0
      requires attribs != null ==> n <= attribs.Length
      ensures same <==> Contents() == Elements(attribs, n)
    {
      if numAttributes != n {
        return false;
      }
      if n == 0 {
        return true;
      }
      var i := 0;
      while i < numAttributes
        invariant i <= numAttributes
        invariant attributes[..i] == attribs[..i]
      {
        if !AttributeEquals(attributes[i], attribs[i]) {
          return false;
        }
        i := i + 1;
      }
      assert attributes[..] == attributes[..i];
      assert attribs[..n] == attribs[..i];
      return true;
    }

    /** `operator==`: the other format holds the same attributes. */
    method Equals(other: VertexFormat) returns (same: bool)
      requires Valid() && other.Valid()
      ensures same <==> Contents() == other.Contents()
    {
      same := IsSame(other.attributes, other.numAttributes);
    }
  }

  /** Two formats filled from the same attributes are equal, and a format is equal to itself. */
  method VertexFormatScenario()
  {
    var attribs := new VertexAttribute[2](i => if i == 0 then VertexAttribute(Vertex, 3) else VertexAttribute(Texcoord, 2));
    var a := new VertexFormat();
    var b := new VertexFormat();
    a.Fill(attribs, 2);
    b.Fill(attribs, 2);
    var same := a.Equals(b);
    assert same;
    assert attribs[..2][..1] == [attribs[0]];
    assert a.vertexSize == 20 && a.generic[1] == Attrib(12, 2);
  }
}
