/**
 * What StlEncoder writes, as a function of the mesh: the 80-byte header,
 * the face count as a little-endian uint32, then one 50-byte record per
 * face (normal, the three corner positions, two zero bytes).
 */
module StlEncoderSpec {
  import opened Bytes
  import opened Results
  import opened Meshes

  /** The header text: a tag, then lines of "To a Mouse"; only its first 80 characters are written. */
  const HEADER_TAG: string := "BinarySTLFile"
  const HEADER_PREAMBLE: string :=
    HEADER_TAG + " But Mousie, thou art no thy-lane, In proving foresight may be vain. The best laid schemes o' Mice an' Men Gang aft agley,"
  const HEADER_SIZE: nat := 80
  /** Where the face count and the first record are written. */
  const COUNT_OFFSET: nat := 80
  const RECORDS_OFFSET: nat := 84
  /** A record: 12 floats of 4 bytes, then the 2-byte attribute count. */
  const RECORD_SIZE: nat := 50

  /** The bytes of a C string: each character's low eight bits. */
  function CharBytes(s: string): (r: seq<byte>)
    ensures |r| == |s|
    ensures forall i :: 0 <= i < |s| ==> r[i] as int == s[i] as int % 0x100
  {
    seq(|s|, i requires 0 <= i < |s| => (s[i] as int % 0x100) as byte)
  }

  /** The 80 header bytes: the first 80 characters of the preamble. */
  function HeaderBytes(): (r: seq<byte>)
    ensures |r| == HEADER_SIZE
  {
    CharBytes(HEADER_PREAMBLE[..HEADER_SIZE])
  }

  /** The header opens with "BinarySTLFile", so it does not start with "solid". */
  lemma HeaderTag()
    ensures HeaderBytes()[..|HEADER_TAG|] == CharBytes(HEADER_TAG)
    ensures HeaderBytes()[0] == 66 && HeaderBytes()[..5] != CharBytes("solid")
  {
    var h := HeaderBytes();
    assert HEADER_PREAMBLE[..|HEADER_TAG|] == HEADER_TAG;
    assert h[..|HEADER_TAG|] == CharBytes(HEADER_PREAMBLE[..|HEADER_TAG|]);
    assert HEADER_TAG[0] == 'B';
    assert h[..5][0] != CharBytes("solid")[0];
  }

  /** A non-empty normal attribute is used: has_norm. */
  predicate HasNormals(m: MeshData) {
    m.normal.Some? && |m.normal.value.values| > 0
  }

  /** A position attribute with at least one value, which encoding requires. */
  predicate HasPositions(m: MeshData) {
    m.position.Some? && |m.position.value.values| > 0
  }

  /**
   * Every value the encoder looks up exists: each corner of each face has a
   * position, and, when normals are used, each face's first corner has one.
   */
  predicate CornersMapped(m: MeshData) {
    (m.position.Some? ==>
       forall i, k :: 0 <= i < |m.faces| && 0 <= k < 3 ==> Maps(m.position.value, Corner(m.faces[i], k))) &&
    (HasNormals(m) ==>
       forall i :: 0 <= i < |m.faces| ==> Maps(m.normal.value, m.faces[i].p0))
  }

  /**
   * The normal written when the mesh has none: in the C++ code the
   * normalised cross product of (v2 - v1) and (v0 - v1), a floating-point
   * computation that is a parameter here.
   */
  type NormalFallback = (Vec3, Vec3, Vec3) -> Vec3

  /** The position of corner k of face i. */
  function CornerPosition(m: MeshData, i: nat, k: nat): Vec3
    requires CornersMapped(m) && m.position.Some? && i < |m.faces| && k < 3
  {
    MappedValue(m.position.value, Corner(m.faces[i], k))
  }

  /** The normal written for face i: the normal at its first corner, or the fallback. */
  function FaceNormal(m: MeshData, i: nat, fallback: NormalFallback): (r: Vec3)
    requires CornersMapped(m) && m.position.Some? && i < |m.faces|
    ensures HasNormals(m) ==> r == MappedValue(m.normal.value, m.faces[i].p0)
    ensures !HasNormals(m) ==>
              r == fallback(CornerPosition(m, i, 0), CornerPosition(m, i, 1), CornerPosition(m, i, 2))
  {
    if HasNormals(m) then MappedValue(m.normal.value, m.faces[i].p0)
    else fallback(CornerPosition(m, i, 0), CornerPosition(m, i, 1), CornerPosition(m, i, 2))
  }

  /** The 12 floats of face i's record: normal, then corners 0, 1 and 2. */
  function FaceFloats(m: MeshData, i: nat, fallback: NormalFallback): (r: seq<Float32>)
    requires CornersMapped(m) && m.position.Some? && i < |m.faces|
    ensures |r| == 12
  {
    VecFloats(FaceNormal(m, i, fallback)) + VecFloats(CornerPosition(m, i, 0)) +
    VecFloats(CornerPosition(m, i, 1)) + VecFloats(CornerPosition(m, i, 2))
  }

  /** Face i's 50-byte record. */
  function FaceRecord(m: MeshData, i: nat, fallback: NormalFallback): (r: seq<byte>)
    requires CornersMapped(m) && m.position.Some? && i < |m.faces|
    ensures |r| == RECORD_SIZE
  {
    FloatsBytes(FaceFloats(m, i, fallback)) + [0, 0]
  }

  /** The records of the first k faces, in face order. */
  function FaceRecords(m: MeshData, k: nat, fallback: NormalFallback): (r: seq<byte>)
    requires CornersMapped(m) && m.position.Some? && k <= |m.faces|
    ensures |r| == RECORD_SIZE * k
  {
    if k == 0 then [] else FaceRecords(m, k - 1, fallback) + FaceRecord(m, k - 1, fallback)
  }

  /** A whole binary STL file for a mesh with at most UINT32_MAX faces. */
  function StlFile(m: MeshData, fallback: NormalFallback): (r: seq<byte>)
    requires CornersMapped(m) && m.position.Some? && |m.faces| <= UINT32_MAX
  {
    HeaderBytes() + LittleEndian32(|m.faces| as uint32) + FaceRecords(m, |m.faces|, fallback)
  }

  /** EncodeInternal's verdict and the bytes it appended to the output buffer. */
  datatype EncodeOutcome = EncodeOutcome(ok: bool, written: seq<byte>)

  /**
   * EncodeInternal: no usable position attribute writes nothing; too many
   * faces for a uint32 fails after the header has been written.
   */
  function EncodeSpec(m: MeshData, fallback: NormalFallback): EncodeOutcome
    requires CornersMapped(m)
  {
    if !HasPositions(m) then EncodeOutcome(false, [])
    else if |m.faces| > UINT32_MAX then EncodeOutcome(false, HeaderBytes())
    else EncodeOutcome(true, StlFile(m, fallback))
  }

  // ------------------------------------------------------------ layout

  /** A record is the normal's bytes, the nine corner floats' bytes, then two zero bytes. */
  lemma FaceRecordSplit(m: MeshData, i: nat, fallback: NormalFallback)
    requires CornersMapped(m) && m.position.Some? && i < |m.faces|
    ensures FaceRecord(m, i, fallback) ==
              FloatsBytes(VecFloats(FaceNormal(m, i, fallback))) +
              FloatsBytes(VecFloats(CornerPosition(m, i, 0)) + VecFloats(CornerPosition(m, i, 1)) +
                          VecFloats(CornerPosition(m, i, 2))) +
              [0, 0]
  {
    var n := VecFloats(FaceNormal(m, i, fallback));
    var c := VecFloats(CornerPosition(m, i, 0)) + VecFloats(CornerPosition(m, i, 1)) + VecFloats(CornerPosition(m, i, 2));
    assert FaceFloats(m, i, fallback) == n + c;
    FloatsBytesAppend(n, c);
  }

  /** Float j of a list sits at bytes 4j..4j+4 of its encoding. */
  lemma {:induction false} FloatsBytesAt(fs: seq<Float32>, j: nat)
    requires j < |fs|
    ensures FloatsBytes(fs)[4 * j..4 * j + 4] == FloatBytes(fs[j])
    decreases |fs|
  {
    var init := fs[..|fs| - 1];
    assert FloatsBytes(fs) == FloatsBytes(init) + FloatBytes(fs[|fs| - 1]);
    if j < |fs| - 1 {
      FloatsBytesAt(init, j);
      assert FloatsBytes(fs)[4 * j..4 * j + 4] == FloatsBytes(init)[4 * j..4 * j + 4];
    }
  }

  /** A slice inside the left part of a concatenation. */
  lemma SliceLeft<T>(a: seq<T>, b: seq<T>, lo: nat, hi: nat)
    requires lo <= hi <= |a|
    ensures (a + b)[lo..hi] == a[lo..hi]
  {
  }

  /** Record i of the first k sits at bytes 50i..50i+50 of the records. */
  lemma {:induction false} FaceRecordsAt(m: MeshData, k: nat, i: nat, fallback: NormalFallback)
    requires CornersMapped(m) && m.position.Some? && i < k <= |m.faces|
    ensures FaceRecords(m, k, fallback)[RECORD_SIZE * i..RECORD_SIZE * i + RECORD_SIZE] == FaceRecord(m, i, fallback)
    decreases k
  {
    var prev := FaceRecords(m, k - 1, fallback);
    var last := FaceRecord(m, k - 1, fallback);
    assert FaceRecords(m, k, fallback) == prev + last;
    if i < k - 1 {
      FaceRecordsAt(m, k - 1, i, fallback);
      SliceLeft(prev, last, RECORD_SIZE * i, RECORD_SIZE * i + RECORD_SIZE);
    } else {
      assert (prev + last)[|prev|..|prev| + |last|] == last;
    }
  }

  /**
   * The file is 84 + 50F bytes: the header, the count F at offset 80, and
   * record i at offset 84 + 50i.
   */
  lemma StlFileLayout(m: MeshData, fallback: NormalFallback)
    requires CornersMapped(m) && m.position.Some? && |m.faces| <= UINT32_MAX
    ensures var d := StlFile(m, fallback);
            |d| == RECORDS_OFFSET + RECORD_SIZE * |m.faces| &&
            d[..HEADER_SIZE] == HeaderBytes() &&
            FromLittleEndian32(d[COUNT_OFFSET..RECORDS_OFFSET]) as int == |m.faces|
  {
    var d := StlFile(m, fallback);
    var w := |m.faces| as uint32;
    assert d[COUNT_OFFSET..RECORDS_OFFSET] == LittleEndian32(w);
    LittleEndian32RoundTrip(w);
  }

  /** Record i of the file is face i's record. */
  lemma StlFileRecord(m: MeshData, i: nat, fallback: NormalFallback)
    requires CornersMapped(m) && m.position.Some? && |m.faces| <= UINT32_MAX && i < |m.faces|
    ensures var d := StlFile(m, fallback);
            var off := RECORDS_OFFSET + RECORD_SIZE * i;
            off + RECORD_SIZE <= |d| && d[off..off + RECORD_SIZE] == FaceRecord(m, i, fallback)
  {
    var recs := FaceRecords(m, |m.faces|, fallback);
    FaceRecordsAt(m, |m.faces|, i, fallback);
    var d := StlFile(m, fallback);
    var off := RECORDS_OFFSET + RECORD_SIZE * i;
    assert d == (HeaderBytes() + LittleEndian32(|m.faces| as uint32)) + recs;
    assert d[off..off + RECORD_SIZE] == recs[RECORD_SIZE * i..RECORD_SIZE * i + RECORD_SIZE];
  }

  /** Float j (0 to 11) of a record sits at bytes 4j..4j+4; the last two bytes are zero. */
  lemma FaceRecordLayout(m: MeshData, i: nat, j: nat, fallback: NormalFallback)
    requires CornersMapped(m) && m.position.Some? && i < |m.faces| && j < 12
    ensures var r := FaceRecord(m, i, fallback);
            r[4 * j..4 * j + 4] == FloatBytes(FaceFloats(m, i, fallback)[j]) && r[48] == 0 && r[49] == 0
  {
    var fs := FaceFloats(m, i, fallback);
    FloatsBytesAt(fs, j);
    assert FaceRecord(m, i, fallback)[4 * j..4 * j + 4] == FloatsBytes(fs)[4 * j..4 * j + 4];
  }

  /**
   * Encoding succeeds exactly when there is a non-empty position attribute
   * and the face count fits a uint32; a failure writes nothing, or only the
   * header when the count is too large.
   */
  lemma EncodeVerdict(m: MeshData, fallback: NormalFallback)
    requires CornersMapped(m)
    ensures var r := EncodeSpec(m, fallback);
            (r.ok <==> HasPositions(m) && |m.faces| <= UINT32_MAX) &&
            (!HasPositions(m) ==> r.written == []) &&
            (HasPositions(m) && |m.faces| > UINT32_MAX ==> r.written == HeaderBytes()) &&
            (r.ok ==> |r.written| == RECORDS_OFFSET + RECORD_SIZE * |m.faces|)
  {
    if HasPositions(m) && |m.faces| <= UINT32_MAX {
      StlFileLayout(m, fallback);
    }
  }
}
