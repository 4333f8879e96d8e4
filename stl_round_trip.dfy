/**
 * What the decoder reads back from the encoder's output: the same number
 * of faces, and for each face the triangle the encoder wrote, with the
 * decoder's repair of non-finite corners.
 */
module StlRoundTrip {
  import opened Bytes
  import opened Results
  import opened Meshes
  import opened ParserUtils
  import opened StlEncoderSpec
  import opened StlDecoderSpec
  import opened StlDecoderProperties

  /** The facet written for face i: its normal and its three corner positions. */
  function EncodedFacet(m: MeshData, i: nat, fallback: NormalFallback): Facet
    requires CornersMapped(m) && m.position.Some? && i < |m.faces|
  {
    Facet(FaceNormal(m, i, fallback), CornerPosition(m, i, 0), CornerPosition(m, i, 1), CornerPosition(m, i, 2))
  }

  /** Float j of face i's record reads back as the j-th float written. */
  lemma FloatOfRecord(m: MeshData, i: nat, j: nat, fallback: NormalFallback)
    requires CornersMapped(m) && m.position.Some? && i < |m.faces| && j < 12
    ensures FloatAt(FaceRecord(m, i, fallback)[..BINARY_FACET_FLOATS_SIZE], 4 * j) == FaceFloats(m, i, fallback)[j]
  {
    var r := FaceRecord(m, i, fallback);
    FaceRecordLayout(m, i, j, fallback);
    assert r[..BINARY_FACET_FLOATS_SIZE][4 * j..4 * j + 4] == r[4 * j..4 * j + 4];
    FloatBytesRoundTrip(FaceFloats(m, i, fallback)[j]);
  }

  /** The first 48 bytes of face i's record decode to the facet written. */
  lemma RecordDecodes(m: MeshData, i: nat, fallback: NormalFallback)
    requires CornersMapped(m) && m.position.Some? && i < |m.faces|
    ensures FacetFromRecord(FaceRecord(m, i, fallback)[..BINARY_FACET_FLOATS_SIZE]) == EncodedFacet(m, i, fallback)
  {
    forall j | 0 <= j < 12
      ensures FloatAt(FaceRecord(m, i, fallback)[..BINARY_FACET_FLOATS_SIZE], 4 * j) == FaceFloats(m, i, fallback)[j]
    {
      FloatOfRecord(m, i, j, fallback);
    }
    var fs := FaceFloats(m, i, fallback);
    var r := FaceRecord(m, i, fallback)[..BINARY_FACET_FLOATS_SIZE];
    assert VecAt(r, 0) == Vec3(fs[0], fs[1], fs[2]);
    assert VecAt(r, 12) == Vec3(fs[3], fs[4], fs[5]);
    assert VecAt(r, 24) == Vec3(fs[6], fs[7], fs[8]);
    assert VecAt(r, 36) == Vec3(fs[9], fs[10], fs[11]);
  }

  /** The facet at off is read from the first 48 bytes of the 50 there. */
  lemma RecordFromSlice(d: seq<byte>, off: nat, r: seq<byte>)
    requires |r| == RECORD_SIZE && off + RECORD_SIZE <= |d| && d[off..off + RECORD_SIZE] == r
    ensures BinaryFacetAt(d, off) == Some(FacetFromRecord(r[..BINARY_FACET_FLOATS_SIZE]))
  {
    assert d[off..off + BINARY_FACET_FLOATS_SIZE] == r[..BINARY_FACET_FLOATS_SIZE];
  }

  /** Record i of an encoded file is read back as face i's facet. */
  lemma EncodedRecordAt(m: MeshData, i: nat, fallback: NormalFallback)
    requires CornersMapped(m) && m.position.Some? && |m.faces| <= UINT32_MAX && i < |m.faces|
    ensures Record(StlFile(m, fallback), BINARY_FACES_OFFSET, i) == Some(EncodedFacet(m, i, fallback))
  {
    StlFileRecord(m, i, fallback);
    RecordFromSlice(StlFile(m, fallback), BINARY_FACES_OFFSET + BINARY_RECORD_SIZE * i, FaceRecord(m, i, fallback));
    RecordDecodes(m, i, fallback);
  }

  /** An encoded file does not start with "solid", and holds its face count at offset 80. */
  lemma EncodedIsBinary(m: MeshData, fallback: NormalFallback)
    requires CornersMapped(m) && m.position.Some? && |m.faces| <= UINT32_MAX
    ensures var d := StlFile(m, fallback);
            NotSolid(d) && BINARY_FACES_OFFSET <= |d| &&
            FromLittleEndian32(d[80..84]) as int == |m.faces|
  {
    var d := StlFile(m, fallback);
    StlFileLayout(m, fallback);
    HeaderTag();
    assert d[0] == HeaderBytes()[0] == 66;
    assert SkipWs(d, 0) == 0;
    assert d[0..5][0] != SOLID[0];
  }

  /**
   * Decoding what the encoder wrote succeeds exactly when every facet
   * written has a finite corner; the soup then has one triangle per face
   * of the mesh, holding that face's corners after the decoder's repair.
   */
  lemma DecodeEncoded(m: MeshData, fallback: NormalFallback, stof: FloatParser)
    requires CornersMapped(m) && EncodeSpec(m, fallback).ok
    ensures m.position.Some?
    ensures var r := DecodeSpec(EncodeSpec(m, fallback).written, stof);
            (r.Success? <==> forall i :: 0 <= i < |m.faces| ==> Repair(EncodedFacet(m, i, fallback)).Some?) &&
            (r.Success? ==>
               |r.value.faces| == |m.faces| && |r.value.positions| == 3 * |m.faces| &&
               (forall i :: 0 <= i < |m.faces| ==> r.value.faces[i] == SoupFace(i)) &&
               forall i :: 0 <= i < |m.faces| ==> HoldsTriangle(r.value, i, Repair(EncodedFacet(m, i, fallback)).value))
  {
    EncodeVerdict(m, fallback);
    var d := StlFile(m, fallback);
    var n := |m.faces|;
    EncodedIsBinary(m, fallback);
    DecodeBinaryFile(d, stof);
    BinarySoup(d, BINARY_FACES_OFFSET, n);
    forall i | 0 <= i < n
      ensures Record(d, BINARY_FACES_OFFSET, i) == Some(EncodedFacet(m, i, fallback))
    {
      EncodedRecordAt(m, i, fallback);
    }
  }

  /** Finite corners are left alone by the decoder's repair. */
  lemma FiniteFacetsKept(m: MeshData, fallback: NormalFallback)
    requires CornersMapped(m) && m.position.Some?
    requires forall i, k :: 0 <= i < |m.faces| && 0 <= k < 3 ==> IsFiniteVec(CornerPosition(m, i, k))
    ensures forall i :: 0 <= i < |m.faces| ==> Repair(EncodedFacet(m, i, fallback)) == Some(EncodedFacet(m, i, fallback))
  {
    forall i | 0 <= i < |m.faces|
      ensures Repair(EncodedFacet(m, i, fallback)) == Some(EncodedFacet(m, i, fallback))
    {
      assert IsFiniteVec(CornerPosition(m, i, 0)) && IsFiniteVec(CornerPosition(m, i, 1)) &&
             IsFiniteVec(CornerPosition(m, i, 2));
    }
  }

  /** The points of a soup holding the written triangles. */
  lemma SoupCorners(m: MeshData, fallback: NormalFallback, s: Soup)
    requires CornersMapped(m) && m.position.Some? && |s.positions| == 3 * |m.faces|
    requires forall i :: 0 <= i < |m.faces| ==> HoldsTriangle(s, i, EncodedFacet(m, i, fallback))
    ensures forall i, k :: 0 <= i < |m.faces| && 0 <= k < 3 ==> s.positions[3 * i + k] == CornerPosition(m, i, k)
  {
    forall i, k | 0 <= i < |m.faces| && 0 <= k < 3
      ensures s.positions[3 * i + k] == CornerPosition(m, i, k)
    {
      assert HoldsTriangle(s, i, EncodedFacet(m, i, fallback));
    }
  }

  /**
   * With finite positions the round trip is exact: the decoded soup has the
   * mesh's face count, and point 3i + k is corner k of face i.
   */
  lemma DecodeEncodedFinite(m: MeshData, fallback: NormalFallback, stof: FloatParser)
    requires CornersMapped(m) && EncodeSpec(m, fallback).ok
    requires m.position.Some? ==>
               forall i, k :: 0 <= i < |m.faces| && 0 <= k < 3 ==> IsFiniteVec(CornerPosition(m, i, k))
    ensures m.position.Some?
    ensures var r := DecodeSpec(EncodeSpec(m, fallback).written, stof);
            r.Success? && |r.value.faces| == |m.faces| &&
            forall i, k :: 0 <= i < |m.faces| && 0 <= k < 3 ==>
              r.value.faces[i] == SoupFace(i) && r.value.positions[3 * i + k] == CornerPosition(m, i, k)
  {
    DecodeEncoded(m, fallback, stof);
    FiniteFacetsKept(m, fallback);
    var r := DecodeSpec(EncodeSpec(m, fallback).written, stof);
    SoupCorners(m, fallback, r.value);
  }
}
