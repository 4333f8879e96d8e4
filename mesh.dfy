/** The part of Draco's Mesh that the STL reader and writer touch. */
module Meshes {
  import opened Bytes
  import opened Results

  /** Vector3f, with its components as binary32 bit patterns. */
  datatype Vec3 = Vec3(x: Float32, y: Float32, z: Float32)

  const ZERO_VEC: Vec3 := Vec3(Float32(0), Float32(0), Float32(0))

  /** The three floats of a vector, in file order (x, y, z). */
  function VecFloats(v: Vec3): (r: seq<Float32>)
    ensures |r| == 3
  {
    [v.x, v.y, v.z]
  }

  /** A vertex is finite when all three of its coordinates are. */
  predicate IsFiniteVec(v: Vec3) {
    IsFinite(v.x) && IsFinite(v.y) && IsFinite(v.z)
  }

  /** Mesh::Face: three point indices. */
  datatype Face = Face(p0: nat, p1: nat, p2: nat)

  /** The k-th corner (0, 1 or 2) of a face. */
  function Corner(f: Face, k: nat): nat
    requires k < 3
  {
    if k == 0 then f.p0 else if k == 1 then f.p1 else f.p2
  }

  /** How a point attribute maps point indices to its values. */
  datatype Mapping = Identity | Explicit(indices: seq<nat>)

  /** A 3-component float PointAttribute: its values and its point-to-value map. */
  datatype PointAttribute = PointAttribute(values: seq<Vec3>, mapping: Mapping)

  /** True when GetMappedValue(p) reads a stored value. */
  predicate Maps(att: PointAttribute, p: nat) {
    match att.mapping
    case Identity => p < |att.values|
    case Explicit(m) => p < |m| && m[p] < |att.values|
  }

  /** PointAttribute::GetMappedValue. */
  function MappedValue(att: PointAttribute, p: nat): Vec3
    requires Maps(att, p)
  {
    match att.mapping
    case Identity => att.values[p]
    case Explicit(m) => att.values[m[p]]
  }

  /** Setting element i and keeping the prefix up to it. */
  lemma UpdatePrefix<T>(s: seq<T>, i: nat, x: T)
    requires i < |s|
    ensures s[i := x][..i + 1] == s[..i] + [x]
  {
  }

  /** Setting elements j, j+1, j+2 and keeping the prefix up to them. */
  lemma UpdateThreePrefix<T>(s: seq<T>, j: nat, a: T, b: T, c: T)
    requires j + 3 <= |s|
    ensures s[j := a][j + 1 := b][j + 2 := c][..j + 3] == s[..j] + [a, b, c]
  {
  }

  /** A snapshot of a mesh: faces, point count, and the named POSITION and NORMAL attributes. */
  datatype MeshData = MeshData(faces: seq<Face>, numPoints: nat,
                               position: Option<PointAttribute>, normal: Option<PointAttribute>)

  /** Draco's Mesh, reduced to the fields the STL code reads and writes. */
  class Mesh {
    var faces: seq<Face>
    var numPoints: nat
    var position: Option<PointAttribute>
    var normal: Option<PointAttribute>

    constructor ()
      ensures faces == [] && numPoints == 0 && position == None && normal == None
    {
      faces, numPoints, position, normal := [], 0, None, None;
    }

    function Value(): MeshData
      reads this
    {
      MeshData(faces, numPoints, position, normal)
    }

    /** Mesh::SetNumFaces: resizes the face list, keeping the faces that remain. */
    method SetNumFaces(n: nat)
      modifies this`faces
      ensures |faces| == n
      ensures forall i :: 0 <= i < n && i < |old(faces)| ==> faces[i] == old(faces)[i]
    {
      if n <= |faces| {
        faces := faces[..n];
      } else {
        faces := faces + seq(n - |faces|, _ => Face(0, 0, 0));
      }
    }

    /** PointCloud::set_num_points. */
    method SetNumPoints(n: nat)
      modifies this`numPoints
      ensures numPoints == n
    {
      numPoints := n;
    }

    /** Mesh::AddAttribute for a POSITION attribute with identity mapping and n values. */
    method AddPositionAttribute(n: nat)
      modifies this`position
      ensures position == Some(PointAttribute(seq(n, _ => ZERO_VEC), Identity))
    {
      position := Some(PointAttribute(seq(n, _ => ZERO_VEC), Identity));
    }

    /** PointAttribute::SetAttributeValue on the position attribute. */
    method SetPositionValue(i: nat, v: Vec3)
      requires position.Some? && i < |position.value.values|
      modifies this`position
      ensures position == Some(old(position).value.(values := old(position).value.values[i := v]))
    {
      position := Some(position.value.(values := position.value.values[i := v]));
    }

    /** Mesh::SetFace. */
    method SetFace(i: nat, f: Face)
      requires i < |faces|
      modifies this`faces
      ensures faces == old(faces)[i := f]
    {
      faces := faces[i := f];
    }
  }
}
