/**
 * StlEncoder: writes a mesh to an EncoderBuffer as a binary STL file.  The
 * methods append to the output buffer step by step as the C++ code does;
 * StlEncoderSpec says which bytes come out.
 */
module StlEncoding {
  import opened Bytes
  import opened Results
  import opened Meshes
  import opened EncoderBuffers
  import opened StlEncoderSpec

  class StlEncoder {
    var inMesh: Mesh?
    var posAtt: Option<PointAttribute>
    var normalAtt: Option<PointAttribute>
    var fileName: string
    var outBuffer: EncoderBuffer?

    /** No encoding in progress: every field is cleared. */
    predicate Idle()
      reads this
    {
      inMesh == null && outBuffer == null && posAtt.None? && normalAtt.None? && fileName == []
    }

    constructor ()
      ensures Idle()
    {
      inMesh, posAtt, normalAtt, fileName, outBuffer := null, None, None, [], null;
    }

    /**
     * EncodeToBuffer: appends the encoding of the mesh to the buffer and
     * reports success; on failure the bytes already written stay.  The
     * encoder is idle again afterwards either way.
     */
    method EncodeToBuffer(mesh: Mesh, out: EncoderBuffer, fallback: NormalFallback) returns (ok: bool)
      requires CornersMapped(mesh.Value())
      modifies this, out
      ensures var r := EncodeSpec(mesh.Value(), fallback);
              ok == r.ok && out.data == old(out.data) + r.written
      ensures Idle()
    {
      inMesh := mesh;
      outBuffer := out;
      var encoded := EncodeInternal(fallback);
      if !encoded {
        ok := ExitAndCleanup(false);
        return;
      }
      ok := ExitAndCleanup(true);
    }

    /**
     * EncodeToFile: the file's bytes, when it can be opened (canOpen), are
     * the encoding of the mesh, or nothing when encoding fails.
     */
    method EncodeToFile(mesh: Mesh, name: string, canOpen: bool, fallback: NormalFallback)
      returns (ok: bool, file: seq<byte>)
      requires CornersMapped(mesh.Value())
      modifies this
      ensures var r := EncodeSpec(mesh.Value(), fallback);
              ok == (canOpen && r.ok) && file == (if ok then r.written else [])
      ensures !canOpen ==> unchanged(this)
      ensures canOpen ==> Idle()
    {
      if !canOpen {
        return false, [];
      }
      fileName := name;
      var buffer := new EncoderBuffer();
      ok := EncodeToBuffer(mesh, buffer, fallback);
      if !ok {
        return false, [];
      }
      file := buffer.data;
    }

    /** ExitAndCleanup: clears every field and returns its argument. */
    method ExitAndCleanup(returnValue: bool) returns (r: bool)
      modifies this
      ensures r == returnValue && Idle()
    {
      inMesh := null;
      outBuffer := null;
      posAtt := None;
      normalAtt := None;
      fileName := [];
      r := returnValue;
    }

    /** EncodeFloatList: appends each float's four bytes, in order. */
    method EncodeFloatList(floats: seq<Float32>) returns (ok: bool)
      requires outBuffer != null
      modifies outBuffer
      ensures ok && outBuffer.data == old(outBuffer.data) + FloatsBytes(floats)
    {
      ok := true;
      var i := 0;
      while i < |floats| && ok
        invariant 0 <= i <= |floats| && ok
        invariant outBuffer.data == old(outBuffer.data) + FloatsBytes(floats[..i])
      {
        ok := outBuffer.Encode(FloatBytes(floats[i]));
        assert floats[..i + 1][..i] == floats[..i];
        i := i + 1;
      }
      assert floats[..i] == floats;
    }

    /**
     * EncodeInternal: checks the position attribute, writes the header and
     * the face count, then each face's record.
     */
    method EncodeInternal(fallback: NormalFallback) returns (ok: bool)
      requires inMesh != null && outBuffer != null && CornersMapped(inMesh.Value())
      modifies outBuffer
      ensures var r := EncodeSpec(inMesh.Value(), fallback);
              ok == r.ok && outBuffer.data == old(outBuffer.data) + r.written
    {
      var m := inMesh;
      var pos := m.position;
      if pos.None? || |pos.value.values| == 0 {
        return false;
      }
      var normAtt := m.normal;
      var hasNorm := true;
      if normAtt.None? || |normAtt.value.values| == 0 {
        hasNorm := false;
      }
      var _ := outBuffer.Encode(HeaderBytes());
      if |m.faces| > UINT32_MAX {
        return false;
      }
      var _ := outBuffer.Encode(LittleEndian32(|m.faces| as uint32));
      ok := EncodeFaces(hasNorm, fallback);
    }

    /** The face loop of EncodeInternal: one record per face, in face order. */
    method EncodeFaces(hasNorm: bool, fallback: NormalFallback) returns (ok: bool)
      requires inMesh != null && outBuffer != null && CornersMapped(inMesh.Value())
      requires HasPositions(inMesh.Value()) && hasNorm == HasNormals(inMesh.Value())
      modifies outBuffer
      ensures ok && outBuffer.data == old(outBuffer.data) + FaceRecords(inMesh.Value(), |inMesh.faces|, fallback)
    {
      ghost var m := inMesh.Value();
      ghost var start := outBuffer.data;
      var iFace := 0;
      ok := true;
      while iFace < |inMesh.faces|
        invariant iFace <= |m.faces| && ok
        invariant outBuffer.data == start + FaceRecords(m, iFace, fallback)
      {
        ghost var before := outBuffer.data;
        ok := EncodeFace(iFace, hasNorm, fallback);
        if !ok {
          return false;
        }
        AppendRecord(start, m, iFace, fallback, before, outBuffer.data);
        iFace := iFace + 1;
      }
    }

    /** One pass of the face loop: the normal, the three corners, two zero bytes. */
    method EncodeFace(iFace: nat, hasNorm: bool, fallback: NormalFallback) returns (ok: bool)
      requires inMesh != null && outBuffer != null && CornersMapped(inMesh.Value())
      requires HasPositions(inMesh.Value()) && hasNorm == HasNormals(inMesh.Value()) && iFace < |inMesh.faces|
      modifies outBuffer
      ensures ok && outBuffer.data == old(outBuffer.data) + FaceRecord(inMesh.Value(), iFace, fallback)
    {
      ghost var m := inMesh.Value();
      var face := inMesh.faces[iFace];
      assert forall k :: 0 <= k < 3 ==> Maps(m.position.value, Corner(m.faces[iFace], k));
      var vs := CornerValues(inMesh.position.value, face);
      var normal;
      if hasNorm {
        normal := MappedValue(inMesh.normal.value, face.p0);
      } else {
        normal := fallback(vs[0], vs[1], vs[2]);
      }
      assert normal == FaceNormal(m, iFace, fallback);
      ok := EncodeFloatList(VecFloats(normal));
      if !ok {
        return false;
      }
      ok := EncodeCorners(vs);
      if !ok {
        return false;
      }
      var _ := outBuffer.Encode([0, 0]);
      FaceRecordSplit(m, iFace, fallback);
    }

    /** The inner loop writing the three corners: nine floats, corner by corner. */
    method EncodeCorners(vs: seq<Vec3>) returns (ok: bool)
      requires outBuffer != null && |vs| == 3
      modifies outBuffer
      ensures ok && outBuffer.data ==
                    old(outBuffer.data) + FloatsBytes(VecFloats(vs[0]) + VecFloats(vs[1]) + VecFloats(vs[2]))
    {
      var iVert := 0;
      ok := true;
      while iVert < 3
        invariant iVert <= 3 && ok
        invariant outBuffer.data == old(outBuffer.data) + CornersBytes(vs, iVert)
      {
        ok := EncodeFloatList(VecFloats(vs[iVert]));
        if !ok {
          return false;
        }
        iVert := iVert + 1;
      }
      CornersBytesAll(vs);
    }
  }

  /** The inner loop reading a face's three corner positions. */
  method CornerValues(pos: PointAttribute, face: Face) returns (vs: seq<Vec3>)
    requires forall k :: 0 <= k < 3 ==> Maps(pos, Corner(face, k))
    ensures |vs| == 3 && forall k :: 0 <= k < 3 ==> vs[k] == MappedValue(pos, Corner(face, k))
  {
    vs := [];
    for iVert := 0 to 3
      invariant |vs| == iVert
      invariant forall k :: 0 <= k < iVert ==> vs[k] == MappedValue(pos, Corner(face, k))
    {
      vs := vs + [MappedValue(pos, Corner(face, iVert))];
    }
  }

  /** The bytes of the first k corners of vs. */
  function CornersBytes(vs: seq<Vec3>, k: nat): seq<byte>
    requires k <= |vs|
  {
    if k == 0 then [] else CornersBytes(vs, k - 1) + FloatsBytes(VecFloats(vs[k - 1]))
  }

  lemma AppendRecord(start: seq<byte>, m: MeshData, i: nat, fallback: NormalFallback, before: seq<byte>, after: seq<byte>)
    requires CornersMapped(m) && m.position.Some? && i < |m.faces|
    requires before == start + FaceRecords(m, i, fallback) && after == before + FaceRecord(m, i, fallback)
    ensures after == start + FaceRecords(m, i + 1, fallback)
  {
    assert FaceRecords(m, i + 1, fallback) == FaceRecords(m, i, fallback) + FaceRecord(m, i, fallback);
  }

  lemma CornersBytesAll(vs: seq<Vec3>)
    requires |vs| == 3
    ensures CornersBytes(vs, 3) == FloatsBytes(VecFloats(vs[0]) + VecFloats(vs[1]) + VecFloats(vs[2]))
  {
    assert CornersBytes(vs, 1) == FloatsBytes(VecFloats(vs[0]));
    assert CornersBytes(vs, 3) == CornersBytes(vs, 1) + FloatsBytes(VecFloats(vs[1])) + FloatsBytes(VecFloats(vs[2]));
    FloatsBytesAppend(VecFloats(vs[0]), VecFloats(vs[1]));
    FloatsBytesAppend(VecFloats(vs[0]) + VecFloats(vs[1]), VecFloats(vs[2]));
  }
}
