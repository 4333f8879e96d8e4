/**
 * Draco's StlDecoder: reads an ASCII or binary STL file from a DecoderBuffer
 * into a triangle-soup mesh.  Every method is proved against the functions of
 * StlDecoderSpec over the buffer's bytes and its cursor.
 */
module StlDecoding {
  import opened Bytes
  import opened Results
  import opened Meshes
  import opened DecoderBuffers
  import opened ParserUtils
  import opened StlDecoderSpec

  /** The ExpectString lambda: reads a token and compares it with the keyword of slot k. */
  method ExpectString(b: DecoderBuffer, expected: seq<byte>, ghost stof: FloatParser, ghost slots: seq<Slot>, ghost k: nat)
    returns (ok: bool, b': DecoderBuffer)
    requires k < |slots| && slots[k] == Word(expected)
    ensures b'.data == b.data && b'.pos == NextPos(b.data, b.pos)
    ensures ok <==> TokenText(b.data, b.pos) == expected
    ensures ok ==> MatchFrom(b.data, b.pos, stof, slots, k) == MatchFrom(b.data, b'.pos, stof, slots, k + 1)
    ensures !ok ==> FailsWith(MatchFrom(b.data, b.pos, stof, slots, k), slots, IoError(InvalidFacet), b'.pos)
  {
    MatchWordStep(b.data, b.pos, stof, slots, k);
    var token;
    token, b' := ParseString(b);
    ok := token == expected;
  }

  /**
   * One float of FillThreeVec, at slot k: ParseString, then stof.  The
   * floats ns read before it are extended by the new one, or the match
   * stops here with the invalid-float error.
   */
  method ReadFloat(b: DecoderBuffer, stof: FloatParser, ghost d: seq<byte>, ghost slots: seq<Slot>, ghost k: nat,
                   ghost ns: seq<Float32>, ghost m0: MatchOutcome)
    returns (ok: bool, x: Float32, b': DecoderBuffer)
    requires b.data == d && k < |slots| && slots[k] == Number
    requires m0 == Prefixed(ns, MatchFrom(d, b.pos, stof, slots, k))
    ensures b'.data == d && b'.pos == NextPos(d, b.pos)
    ensures ok <==> ParseFloat(stof, TokenText(d, b.pos)).Some?
    ensures ok ==> m0 == Prefixed(ns + [x], MatchFrom(d, b'.pos, stof, slots, k + 1))
    ensures !ok ==> FailsWith(m0, slots, IoError(InvalidFloat), b'.pos)
  {
    ghost var m := MatchFrom(d, b.pos, stof, slots, k);
    MatchNumberStep(d, b.pos, stof, slots, k);
    var token;
    token, b' := ParseString(b);
    var r := ParseFloat(stof, token);
    ok := r.Some?;
    x := if ok then r.value else Float32(0);
    if ok {
      PrefixedJoin(m0, ns, m, [x], MatchFrom(d, b'.pos, stof, slots, k + 1));
    } else {
      PrefixedMismatch(ns, m0, m);
    }
  }

  /**
   * The FillThreeVec lambda at slots k, k+1, k+2: three floats, or the
   * invalid-float error at the first token stof rejects.
   */
  method FillThreeVec(b: DecoderBuffer, stof: FloatParser, ghost slots: seq<Slot>, ghost k: nat)
    returns (st: Status, v: Vec3, b': DecoderBuffer)
    requires k + 3 <= |slots|
    requires slots[k] == Number && slots[k + 1] == Number && slots[k + 2] == Number
    ensures b'.data == b.data
    ensures st.Ok? ==>
              MatchFrom(b.data, b.pos, stof, slots, k) ==
              Prefixed([v.x, v.y, v.z], MatchFrom(b.data, b'.pos, stof, slots, k + 3))
    ensures !st.Ok? ==>
              st == IoError(InvalidFloat) && FailsWith(MatchFrom(b.data, b.pos, stof, slots, k), slots, st, b'.pos)
  {
    b' := b;
    var comps: seq<Float32> := [];
    PrefixedNothing(MatchFrom(b.data, b.pos, stof, slots, k));
    for i := 0 to 3
      invariant b'.data == b.data && |comps| == i
      invariant MatchFrom(b.data, b.pos, stof, slots, k) == Prefixed(comps, MatchFrom(b.data, b'.pos, stof, slots, k + i))
    {
      var ok, x;
      ok, x, b' := ReadFloat(b', stof, b.data, slots, k + i, comps, MatchFrom(b.data, b.pos, stof, slots, k));
      if !ok {
        return IoError(InvalidFloat), ZERO_VEC, b';
      }
      comps := comps + [x];
    }
    PrefixedThree(MatchFrom(b.data, b.pos, stof, slots, k), comps, MatchFrom(b.data, b'.pos, stof, slots, k + 3));
    v := Vec3(comps[0], comps[1], comps[2]);
    st := Ok;
  }

  /** One "vertex x y z" line of a facet, at slots k to k+3. */
  method ExpectVertex(b: DecoderBuffer, stof: FloatParser, ghost slots: seq<Slot>, ghost k: nat)
    returns (st: Status, v: Vec3, b': DecoderBuffer)
    requires VertexAt(slots, k)
    ensures b'.data == b.data
    ensures st.Ok? ==>
              MatchFrom(b.data, b.pos, stof, slots, k) ==
              Prefixed(VecFloats(v), MatchFrom(b.data, b'.pos, stof, slots, k + 4))
    ensures !st.Ok? ==> FailsWith(MatchFrom(b.data, b.pos, stof, slots, k), slots, st, b'.pos)
  {
    var ok;
    ok, b' := ExpectString(b, VERTEX, stof, slots, k);
    if !ok {
      return IoError(InvalidFacet), ZERO_VEC, b';
    }
    st, v, b' := FillThreeVec(b', stof, slots, k + 1);
  }

  /** "outer loop", three vertex lines and "endloop", at slots k to k+14. */
  method ExpectLoop(b: DecoderBuffer, stof: FloatParser, ghost slots: seq<Slot>, ghost k: nat)
    returns (st: Status, v0: Vec3, v1: Vec3, v2: Vec3, b': DecoderBuffer)
    requires LoopAt(slots, k)
    ensures b'.data == b.data
    ensures st.Ok? ==>
              MatchFrom(b.data, b.pos, stof, slots, k) ==
              Prefixed(VecFloats(v0) + VecFloats(v1) + VecFloats(v2), MatchFrom(b.data, b'.pos, stof, slots, k + 15))
    ensures !st.Ok? ==> FailsWith(MatchFrom(b.data, b.pos, stof, slots, k), slots, st, b'.pos)
  {
    ghost var d := b.data;
    ghost var m0 := MatchFrom(d, b.pos, stof, slots, k);
    v0, v1, v2 := ZERO_VEC, ZERO_VEC, ZERO_VEC;
    var ok;
    ok, b' := ExpectString(b, OUTER, stof, slots, k);
    if !ok { return IoError(InvalidFacet), v0, v1, v2, b'; }
    ok, b' := ExpectString(b', LOOP, stof, slots, k + 1);
    if !ok { return IoError(InvalidFacet), v0, v1, v2, b'; }
    st, v0, b' := ExpectVertex(b', stof, slots, k + 2);
    if !st.Ok? { return; }
    ghost var m6 := MatchFrom(d, b'.pos, stof, slots, k + 6);
    st, v1, b' := ExpectVertex(b', stof, slots, k + 6);
    if !st.Ok? { return; }
    PrefixedJoin(m0, VecFloats(v0), m6, VecFloats(v1), MatchFrom(d, b'.pos, stof, slots, k + 10));
    ghost var m10 := MatchFrom(d, b'.pos, stof, slots, k + 10);
    st, v2, b' := ExpectVertex(b', stof, slots, k + 10);
    if !st.Ok? { return; }
    PrefixedJoin(m0, VecFloats(v0) + VecFloats(v1), m10, VecFloats(v2), MatchFrom(d, b'.pos, stof, slots, k + 14));
    ghost var m14 := MatchFrom(d, b'.pos, stof, slots, k + 14);
    ok, b' := ExpectString(b', ENDLOOP, stof, slots, k + 14);
    if !ok { return IoError(InvalidFacet), v0, v1, v2, b'; }
  }

  /** What follows "facet": "normal" and three floats, the loop, and "endfacet", at slots k to k+19. */
  method ExpectFacetBody(b: DecoderBuffer, stof: FloatParser, ghost slots: seq<Slot>, ghost k: nat)
    returns (st: Status, f: Facet, b': DecoderBuffer)
    requires k + 20 <= |slots| && slots[k] == Word(NORMAL)
    requires slots[k + 1] == Number && slots[k + 2] == Number && slots[k + 3] == Number
    requires LoopAt(slots, k + 4) && slots[k + 19] == Word(ENDFACET)
    ensures b'.data == b.data
    ensures st.Ok? ==>
              MatchFrom(b.data, b.pos, stof, slots, k) ==
              Prefixed(FacetNumbers(f), MatchFrom(b.data, b'.pos, stof, slots, k + 20))
    ensures !st.Ok? ==> FailsWith(MatchFrom(b.data, b.pos, stof, slots, k), slots, st, b'.pos)
  {
    ghost var d := b.data;
    ghost var m0 := MatchFrom(d, b.pos, stof, slots, k);
    f := Facet(ZERO_VEC, ZERO_VEC, ZERO_VEC, ZERO_VEC);
    var ok, normal, v0, v1, v2;
    ok, b' := ExpectString(b, NORMAL, stof, slots, k);
    if !ok { return IoError(InvalidFacet), f, b'; }
    st, normal, b' := FillThreeVec(b', stof, slots, k + 1);
    if !st.Ok? { return; }
    ghost var m4 := MatchFrom(d, b'.pos, stof, slots, k + 4);
    st, v0, v1, v2, b' := ExpectLoop(b', stof, slots, k + 4);
    if !st.Ok? { return; }
    ghost var ns := VecFloats(v0) + VecFloats(v1) + VecFloats(v2);
    PrefixedJoin(m0, VecFloats(normal), m4, ns, MatchFrom(d, b'.pos, stof, slots, k + 19));
    ok, b' := ExpectString(b', ENDFACET, stof, slots, k + 19);
    if !ok { return IoError(InvalidFacet), f, b'; }
    f := Facet(normal, v0, v1, v2);
  }

  /**
   * The do-while loop of ParseHeader after "solid": read tokens until
   * "facet"; the file stops looking ASCII on an empty token or when more
   * than five tokens come without "facet".
   */
  method ScanForFacetToken(b: DecoderBuffer) returns (isAscii: bool, seekPoint: nat, b': DecoderBuffer)
    ensures b'.data == b.data
    ensures ScanOutcome(isAscii, seekPoint, b'.pos) == ScanForFacet(b.data, b.pos, 0)
  {
    ghost var d := b.data;
    ghost var scan := ScanForFacet(d, b.pos, 0);
    b' := b;
    seekPoint := b.DecodedSize();
    var counter := 0;
    isAscii := true;
    while true
      invariant b'.data == d && counter <= 5 && isAscii
      invariant ScanForFacet(d, b'.pos, counter) == scan
      decreases 5 - counter
    {
      b' := SkipWhitespace(b');
      seekPoint := b'.DecodedSize();
      var token;
      token, b' := ParseString(b');
      assert SkipWs(d, seekPoint) == seekPoint;
      if seekPoint == b'.DecodedSize() || counter > 4 {
        isAscii := false;
      }
      counter := counter + 1;
      if !(token != FACET && isAscii) {
        return;
      }
    }
  }

  /** ParseHeader on a buffer value, with num_stl_faces_ = faces0 on entry. */
  method ReadHeader(b0: DecoderBuffer, forceBinary: bool, faces0: nat)
    returns (st: Status, isBinary: bool, numFaces: nat, b: DecoderBuffer)
    ensures b.data == b0.data
    ensures HeaderOutcome(st, isBinary, b.pos, numFaces) == ParseHeaderSpec(b0.data, b0.pos, forceBinary, faces0)
  {
    b := SkipWhitespace(b0);
    if forceBinary {
      st, isBinary, numFaces, b := ReadFaceCount(b, faces0);
    } else {
      st, isBinary, numFaces, b := ReadTaggedHeader(b, faces0);
    }
  }

  /** ParseHeader without force_binary, once the whitespace is skipped: "solid" means ASCII, if the scan agrees. */
  method ReadTaggedHeader(b0: DecoderBuffer, faces0: nat)
    returns (st: Status, isBinary: bool, numFaces: nat, b: DecoderBuffer)
    ensures b.data == b0.data
    ensures HeaderOutcome(st, isBinary, b.pos, numFaces) == TaggedHeader(b0.data, b0.pos, faces0)
  {
    var ok, head;
    ok, head, b := Decode(b0, 5);
    if !ok {
      return IoError(InvalidHeader), false, faces0, b;
    }
    if head == SOLID {
      // An ASCII file keeps is_binary false and resets num_stl_faces_.
      var isAscii;
      isAscii, b := ScanAsciiHeader(b);
      if isAscii {
        return Ok, false, 0, b;
      }
      st, isBinary, numFaces, b := ReadFaceCount(b, 0);
    } else {
      st, isBinary, numFaces, b := ReadFaceCount(b, faces0);
    }
  }

  /** The ASCII branch of ParseHeader, once "solid" is read: scan for "facet" and rewind to it. */
  method ScanAsciiHeader(b0: DecoderBuffer) returns (isAscii: bool, b: DecoderBuffer)
    ensures b.data == b0.data
    ensures SolidHeader(b0.data, b0.pos) ==
              if isAscii then HeaderOutcome(Ok, false, b.pos, 0) else BinaryHeader(b0.data, 0)
  {
    var seekPoint;
    isAscii, seekPoint, b := ScanForFacetToken(b0);
    SolidHeaderFromScan(b0.data, b0.pos, ScanOutcome(isAscii, seekPoint, b.pos));
    if isAscii {
      b := StartDecodingFrom(b, seekPoint);
    }
  }

  /** The binary branch of ParseHeader: the little-endian face count at offset 80. */
  method ReadFaceCount(b0: DecoderBuffer, faces0: nat)
    returns (st: Status, isBinary: bool, numFaces: nat, b: DecoderBuffer)
    ensures b.data == b0.data
    ensures HeaderOutcome(st, isBinary, b.pos, numFaces) == BinaryHeader(b0.data, faces0)
  {
    b := StartDecodingFrom(b0, BINARY_COUNT_OFFSET);
    var ok, w;
    ok, w, b := DecodeUint32(b);
    if !ok {
      return IoError(InvalidBinaryHeader), false, faces0, b;
    }
    st, isBinary, numFaces := Ok, true, w as nat;
  }

  /**
   * The vertex repair of the mesh-building loop: a non-finite vertex takes
   * the first finite vertex of the triangle; no finite vertex is an error.
   */
  method RepairFacet(f: Facet) returns (ok: bool, v0: Vec3, v1: Vec3, v2: Vec3)
    ensures ok <==> Repair(f).Some?
    ensures ok ==> Repair(f) == Some(Facet(f.normal, v0, v1, v2))
  {
    v0, v1, v2 := f.v0, f.v1, f.v2;
    var finite0, finite1, finite2 := IsFiniteVec(v0), IsFiniteVec(v1), IsFiniteVec(v2);
    ok := true;
    if !(finite0 && finite1 && finite2) {
      if !(finite0 || finite1 || finite2) {
        return false, v0, v1, v2;
      }
      var finiteVert := if finite0 then v0 else if finite1 then v1 else v2;
      if !finite0 { v0 := finiteVert; }
      if !finite1 { v1 := finiteVert; }
      if !finite2 { v2 := finiteVert; }
    }
  }

  /** Triangle i of the soup: points 3i, 3i+1, 3i+2 get v0, v1, v2 and face i joins them. */
  method StoreTriangle(mesh: Mesh, i: nat, v0: Vec3, v1: Vec3, v2: Vec3)
    requires mesh.position.Some? && 3 * i + 3 <= |mesh.position.value.values| && i < |mesh.faces|
    modifies mesh`faces, mesh`position
    ensures mesh.faces == old(mesh.faces)[i := SoupFace(i)]
    ensures mesh.faces[..i + 1] == old(mesh.faces)[..i] + [SoupFace(i)]
    ensures var att := old(mesh.position).value;
            mesh.position == Some(att.(values := att.values[3 * i := v0][3 * i + 1 := v1][3 * i + 2 := v2])) &&
            mesh.position.value.values[..3 * i + 3] == att.values[..3 * i] + [v0, v1, v2]
  {
    ghost var values := mesh.position.value.values;
    ghost var faces := mesh.faces;
    mesh.SetPositionValue(3 * i, v0);
    mesh.SetPositionValue(3 * i + 1, v1);
    mesh.SetPositionValue(3 * i + 2, v2);
    mesh.SetFace(i, SoupFace(i));
    UpdateThreePrefix(values, 3 * i, v0, v1, v2);
    UpdatePrefix(faces, i, SoupFace(i));
  }

  /** The mesh holds exactly the soup: its faces, one point per position, identity-mapped positions. */
  ghost predicate HoldsSoup(mesh: Mesh, s: Soup)
    reads mesh
  {
    mesh.faces == s.faces && mesh.numPoints == |s.positions| &&
    mesh.position == Some(PointAttribute(s.positions, Identity))
  }

  /**
   * The first i triangles of the soup are in the mesh: faces 0..i-1 and
   * position values 0..3i-1, in a position attribute of m values with
   * identity mapping.
   */
  ghost predicate Filled(mesh: Mesh, m: nat, i: nat, soup: Soup)
    reads mesh
  {
    i <= |mesh.faces| && mesh.faces[..i] == soup.faces &&
    mesh.position.Some? && mesh.position.value.mapping == Identity &&
    |mesh.position.value.values| == m && 3 * i <= m && mesh.position.value.values[..3 * i] == soup.positions
  }

  /** The mesh is sized for n triangles (n faces, 3n points) and holds the stored soup s in front. */
  ghost predicate PartlyFilled(mesh: Mesh, n: nat, s: Soup)
    reads mesh
  {
    |mesh.faces| == n && mesh.numPoints == 3 * n && Filled(mesh, 3 * n, |s.faces|, s)
  }

  /** The mesh is as MeshEffect e says: untouched since the pre-state, or partly filled. */
  twostate predicate Leaves(mesh: Mesh, e: MeshEffect)
    reads mesh
  {
    match e
    case Untouched =>
      mesh.faces == old(mesh.faces) && mesh.numPoints == old(mesh.numPoints) && mesh.position == old(mesh.position)
    case Sized(n, s) => PartlyFilled(mesh, n, s)
  }

  class StlDecoder {
    /** num_stl_faces_: the face count from the binary header, or the ASCII facets read. */
    var numStlFaces: nat
    /** buffer_: the decoder's own buffer over the input. */
    var buffer: DecoderBuffer
    /** out_mesh_: the mesh being filled. */
    var outMesh: Mesh?

    constructor ()
      ensures numStlFaces == 0 && outMesh == null && buffer == Init([])
    {
      numStlFaces := 0;
      buffer := Init([]);
      outMesh := null;
    }

    /**
     * DecodeFromFile: the whole file, or an IO error when it cannot be opened
     * (file == None) or is empty.
     */
    method DecodeFromFile(file: Option<seq<byte>>, mesh: Mesh, stof: FloatParser) returns (st: Status)
      modifies this, mesh`faces, mesh`numPoints, mesh`position
      ensures file.None? || file.value == [] ==> st == IoError(Unspecified) && unchanged(this, mesh)
      ensures file.Some? && file.value != [] ==>
                outMesh == mesh && buffer.data == file.value &&
                var r := DecodeSpec(file.value, stof);
                st == StatusOf(r) &&
                (r.Success? ==>
                   mesh.faces == r.value.faces && mesh.numPoints == |r.value.positions| &&
                   mesh.position == Some(PointAttribute(r.value.positions, Identity))) &&
                Leaves(mesh, DecodeEffect(file.value, stof))
    {
      if file.None? || file.value == [] {
        return IoError(Unspecified);
      }
      buffer := Init(file.value);
      outMesh := mesh;
      st := DecodeInternal(stof);
    }

    /**
     * DecodeFromBuffer: decodes the unread part of input into mesh.  The
     * input buffer itself is not advanced.
     */
    method DecodeFromBuffer(input: DecoderBuffer, mesh: Mesh, stof: FloatParser) returns (st: Status)
      requires input.pos <= |input.data|
      modifies this, mesh`faces, mesh`numPoints, mesh`position
      ensures outMesh == mesh && buffer.data == input.data[input.pos..]
      ensures var r := DecodeSpec(input.data[input.pos..], stof);
              st == StatusOf(r) &&
              (r.Success? ==>
                 mesh.faces == r.value.faces && mesh.numPoints == |r.value.positions| &&
                 mesh.position == Some(PointAttribute(r.value.positions, Identity)))
      ensures Leaves(mesh, DecodeEffect(input.data[input.pos..], stof))
    {
      outMesh := mesh;
      buffer := Init(input.Head());
      st := DecodeInternal(stof);
    }

    /**
     * DecodeInternal: the header, then either the binary records or every
     * ASCII solid (falling back to binary when the first solid is broken),
     * then the mesh.
     */
    method DecodeInternal(stof: FloatParser) returns (st: Status)
      requires outMesh != null && buffer.pos == 0
      modifies this`numStlFaces, this`buffer, outMesh`faces, outMesh`numPoints, outMesh`position
      ensures buffer.data == old(buffer.data)
      ensures var r := DecodeSpec(buffer.data, stof);
              st == StatusOf(r) && (r.Success? ==> HoldsSoup(outMesh, r.value))
      ensures Leaves(outMesh, DecodeEffect(buffer.data, stof))
    {
      HeaderFacesIrrelevant(buffer.data, 0, false, numStlFaces, 0);
      var isBinary;
      st, isBinary := ParseHeader(false);
      if !st.Ok? {
        return;
      }
      if isBinary {
        st := FillMesh(outMesh, true, []);
      } else {
        st := DecodeAscii(stof);
      }
    }

    /** DecodeInternal after an ASCII header: the solids, then the mesh or the binary fallback. */
    method DecodeAscii(stof: FloatParser) returns (st: Status)
      requires outMesh != null && buffer.pos <= |buffer.data|
      modifies this`numStlFaces, this`buffer, outMesh`faces, outMesh`numPoints, outMesh`position
      ensures buffer.data == old(buffer.data)
      ensures var r := AsciiDecodeSpec(buffer.data, old(buffer.pos), stof);
              st == StatusOf(r) && (r.Success? ==> HoldsSoup(outMesh, r.value))
      ensures Leaves(outMesh, AsciiDecodeEffect(buffer.data, old(buffer.pos), stof))
    {
      var error, storage;
      error, storage := ParseAsciiSolids(stof);
      if error {
        st := DecodeBinaryFallback();
      } else {
        numStlFaces := |storage| / 4;
        st := FillMesh(outMesh, false, storage);
      }
    }

    /** The fallback when the first ASCII solid fails: ParseHeader(true), then the binary records. */
    method DecodeBinaryFallback() returns (st: Status)
      requires outMesh != null
      modifies this`numStlFaces, this`buffer, outMesh`faces, outMesh`numPoints, outMesh`position
      ensures buffer.data == old(buffer.data)
      ensures var r := BinaryFallbackSpec(buffer.data, old(buffer.pos));
              st == StatusOf(r) && (r.Success? ==> HoldsSoup(outMesh, r.value))
      ensures Leaves(outMesh, BinaryFallbackEffect(buffer.data, old(buffer.pos)))
    {
      HeaderFacesIrrelevant(buffer.data, buffer.pos, true, numStlFaces, 0);
      var isBinary;
      st, isBinary := ParseHeader(true);
      if !st.Ok? {
        return;
      }
      st := FillMesh(outMesh, true, []);
    }

    /**
     * DecodeInternal's while(1) loop over ASCII solids, with the do-while
     * loop over the faces of one solid inside it.
     */
    method ParseAsciiSolids(stof: FloatParser) returns (error: bool, storage: seq<Vec3>)
      requires buffer.pos <= |buffer.data|
      modifies this`buffer, this`numStlFaces
      ensures buffer.data == old(buffer.data)
      ensures var a := AsciiSolidsSpec(buffer.data, old(buffer.pos), stof, true, []);
              error == a.firstSolidError && buffer.pos == a.pos && storage == Flatten(a.facets)
    {
      ghost var d := buffer.data;
      ghost var goal := AsciiSolidsSpec(d, buffer.pos, stof, true, []);
      ghost var facets: seq<Facet> := [];
      error := false;
      var isFirst := true;
      storage := [];
      while true
        invariant buffer.data == d && buffer.pos <= |d|
        invariant AsciiSolidsSpec(d, buffer.pos, stof, isFirst, facets) == goal
        invariant storage == Flatten(facets) && !error
        decreases |d| - buffer.pos
      {
        ghost var solid := AsciiFacesSpec(d, buffer.pos, stof, facets);
        var st;
        st, storage, facets := ParseAsciiFaces(stof, storage, facets);
        error := !st.Ok? && isFirst;
        assert solid == SolidOutcome(st, buffer.pos, facets);
        if error || buffer.RemainingSize() < 5 {
          assert goal == AsciiOutcome(error, buffer.pos, facets);
          break;
        }
        ghost var headerStart, faces0 := buffer.pos, numStlFaces;
        HeaderFacesIrrelevant(d, headerStart, false, faces0, 0);
        var headerStatus, isBinaryLocal := ParseHeader(false);
        if !headerStatus.Ok? || isBinaryLocal {
          assert goal == AsciiOutcome(false, buffer.pos, facets);
          break;
        }
        isFirst := false;
        assert AsciiSolidsSpec(d, buffer.pos, stof, isFirst, facets) == goal;
      }
    }

    /**
     * The inner do-while of DecodeInternal's ASCII phase: faces are parsed
     * and their vectors appended to tmp_three_vec_storage until one is not a
     * valid triangle ("endsolid" or an error).
     */
    method ParseAsciiFaces(stof: FloatParser, storage0: seq<Vec3>, ghost acc: seq<Facet>)
      returns (st: Status, storage: seq<Vec3>, ghost facets: seq<Facet>)
      requires buffer.pos <= |buffer.data| && storage0 == Flatten(acc)
      modifies this`buffer
      ensures buffer.data == old(buffer.data)
      ensures var s := AsciiFacesSpec(buffer.data, old(buffer.pos), stof, acc);
              st == s.status && buffer.pos == s.pos && facets == s.facets && storage == Flatten(facets)
    {
      ghost var d := buffer.data;
      ghost var solid := AsciiFacesSpec(d, buffer.pos, stof, acc);
      storage, facets := storage0, acc;
      while true
        invariant buffer.data == d && buffer.pos <= |d|
        invariant AsciiFacesSpec(d, buffer.pos, stof, facets) == solid
        invariant storage == Flatten(facets)
        decreases |d| - buffer.pos
      {
        var isValidTriangle, f;
        st, isValidTriangle, f := ParseAsciiFace(stof);
        if !st.Ok? || !isValidTriangle {
          return;
        }
        assert (facets + [f])[..|facets|] == facets;
        storage := storage + [f.normal, f.v0, f.v1, f.v2];
        facets := facets + [f];
      }
    }

    /**
     * The mesh-building loop of DecodeInternal: num_stl_faces_ triangles,
     * read from the binary records or from tmp_three_vec_storage, repaired,
     * and stored as points 3i, 3i+1, 3i+2.
     */
    method FillMesh(mesh: Mesh, isBinary: bool, storage: seq<Vec3>) returns (st: Status)
      requires !isBinary ==> numStlFaces == |storage| / 4
      modifies this`buffer, mesh`faces, mesh`numPoints, mesh`position
      ensures buffer.data == old(buffer.data)
      ensures var r := BuildSoup(MeshFacets(isBinary, old(buffer.data), old(buffer.pos), numStlFaces, storage));
              st == StatusOf(r) && (r.Success? ==> HoldsSoup(mesh, r.value))
      ensures PartlyFilled(mesh, numStlFaces, StoredSoup(MeshFacets(isBinary, old(buffer.data), old(buffer.pos), numStlFaces, storage)))
    {
      ghost var d := buffer.data;
      ghost var p := buffer.pos;
      ghost var facets := MeshFacets(isBinary, d, p, numStlFaces, storage);
      var n := numStlFaces;
      mesh.SetNumFaces(n);
      mesh.SetNumPoints(n * 3);
      mesh.AddPositionAttribute(mesh.numPoints);
      ghost var soup := Soup([], []);
      for i := 0 to n
        invariant buffer.data == d && (isBinary ==> buffer.pos == p + BINARY_RECORD_SIZE * i)
        invariant SoupUpTo(facets, i) == Success(soup)
        invariant |mesh.faces| == n && mesh.numPoints == 3 * n
        invariant Filled(mesh, 3 * n, i, soup)
      {
        ghost var q := p + BINARY_RECORD_SIZE * i;
        MeshFacetAt(facets, isBinary, d, p, n, storage, i, q);
        ghost var before := soup;
        st, soup := FillFace(mesh, isBinary, storage, i, facets, soup, d, q);
        if !st.Ok? {
          StoredAtFailure(facets, i, before);
          return;
        }
      }
      assert mesh.faces == mesh.faces[..n];
      assert mesh.position.value.values == mesh.position.value.values[..3 * n];
      st := Ok;
    }

    /**
     * One pass of the mesh-building loop: facet i is read (a binary record,
     * or four vectors of the storage), repaired, and stored as triangle i.
     * A failure is the outcome of the whole loop.
     */
    method FillFace(mesh: Mesh, isBinary: bool, storage: seq<Vec3>, i: nat,
                    ghost facets: seq<Option<Facet>>, ghost soup: Soup, ghost d: seq<byte>, ghost q: nat)
      returns (st: Status, ghost soup': Soup)
      requires i < |facets| && SoupUpTo(facets, i) == Success(soup)
      requires isBinary ==> buffer.data == d && buffer.pos == q && facets[i] == BinaryFacetAt(d, q)
      requires !isBinary ==>
                 4 * i + 3 < |storage| &&
                 facets[i] == Some(Facet(storage[4 * i], storage[4 * i + 1], storage[4 * i + 2], storage[4 * i + 3]))
      requires i < |mesh.faces| && mesh.position.Some? && 3 * i + 3 <= |mesh.position.value.values|
      requires Filled(mesh, |mesh.position.value.values|, i, soup)
      modifies this`buffer, mesh`faces, mesh`position
      ensures buffer.data == old(buffer.data)
      ensures isBinary && st.Ok? ==> buffer.pos == old(buffer.pos) + BINARY_RECORD_SIZE
      ensures !isBinary ==> buffer == old(buffer)
      ensures !st.Ok? ==> BuildSoup(facets) == Failure(st.message) && SoupUpTo(facets, i + 1).Failure?
      ensures !st.Ok? ==> mesh.faces == old(mesh.faces) && mesh.position == old(mesh.position)
      ensures st.Ok? ==> SoupUpTo(facets, i + 1) == Success(soup')
      ensures st.Ok? ==>
                |mesh.faces| == |old(mesh.faces)| &&
                Filled(mesh, |old(mesh.position).value.values|, i + 1, soup')
    {
      soup' := soup;
      var facet;
      if isBinary {
        st, facet := ParseBinaryFace();
        if !st.Ok? {
          SoupIncomplete(facets, i);
          return;
        }
      } else {
        facet := Facet(storage[4 * i], storage[4 * i + 1], storage[4 * i + 2], storage[4 * i + 3]);
      }
      var ok, v0, v1, v2 := RepairFacet(facet);
      if !ok {
        SoupAllNan(facets, i);
        return IoError(AllVerticesNan), soup';
      }
      SoupExtends(facets, i, soup, Facet(facet.normal, v0, v1, v2));
      StoreTriangle(mesh, i, v0, v1, v2);
      soup' := Soup(soup.faces + [SoupFace(i)], soup.positions + [v0, v1, v2]);
      st := Ok;
    }

    /**
     * ParseHeader(force_binary, is_binary): the new cursor, num_stl_faces_
     * and the status are those of ParseHeaderSpec; is_binary comes out
     * false on every error, as every caller starts it at false.
     */
    method ParseHeader(forceBinary: bool) returns (st: Status, isBinary: bool)
      modifies this`numStlFaces, this`buffer
      ensures buffer.data == old(buffer.data)
      ensures HeaderOutcome(st, isBinary, buffer.pos, numStlFaces) ==
              ParseHeaderSpec(buffer.data, old(buffer.pos), forceBinary, old(numStlFaces))
    {
      var numFaces, b;
      st, isBinary, numFaces, b := ReadHeader(buffer, forceBinary, numStlFaces);
      numStlFaces, buffer := numFaces, b;
    }

    /** ParseBinaryFace: one 50-byte record, or an error when fewer than 48 bytes remain. */
    method ParseBinaryFace() returns (st: Status, f: Facet)
      modifies this`buffer
      ensures buffer.data == old(buffer.data)
      ensures var r := BinaryFacetAt(buffer.data, old(buffer.pos));
              (st.Ok? <==> r.Some?) &&
              (r.Some? ==> f == r.value && buffer.pos == old(buffer.pos) + BINARY_RECORD_SIZE) &&
              (r.None? ==> st == IoError(IncompleteFacet) && buffer.pos == old(buffer.pos))
    {
      var ok, record, b := Decode(buffer, BINARY_FACET_FLOATS_SIZE);
      if !ok {
        return IoError(IncompleteFacet), Facet(ZERO_VEC, ZERO_VEC, ZERO_VEC, ZERO_VEC);
      }
      buffer := Advance(b, 2);
      f := FacetFromRecord(record);
      st := Ok;
    }

    /**
     * ParseAsciiFace: "endsolid" ends the solid with OK and no triangle; a
     * complete facet gives a valid triangle; anything else is an error.
     */
    method ParseAsciiFace(stof: FloatParser) returns (st: Status, isValidTriangle: bool, f: Facet)
      modifies this`buffer
      ensures buffer.data == old(buffer.data)
      ensures var r := ParseAsciiFaceSpec(buffer.data, old(buffer.pos), stof);
              st == r.status && buffer.pos == r.pos && (isValidTriangle <==> r.facet.Some?) &&
              (isValidTriangle ==> f == r.facet.value)
    {
      var b := buffer;
      ghost var d := b.data;
      ghost var p := b.pos;
      FacetSlotsShape();
      MatchWordStep(d, p, stof, FACET_SLOTS, 0);
      isValidTriangle := false;
      f := Facet(ZERO_VEC, ZERO_VEC, ZERO_VEC, ZERO_VEC);
      var token;
      token, b := ParseString(b);
      if token == ENDSOLID {
        st := Ok;
      } else if token != FACET {
        st := IoError(InvalidFacet);
        FaceFails(d, p, stof, [], Mismatch(0, b.pos), st, b.pos);
      } else {
        ghost var m1 := MatchFrom(d, b.pos, stof, FACET_SLOTS, 1);
        st, f, b := ExpectFacetBody(b, stof, FACET_SLOTS, 1);
        if st.Ok? {
          isValidTriangle := true;
          FaceMatches(d, p, stof, f, b.pos);
        } else {
          FaceFails(d, p, stof, [], m1, st, b.pos);
        }
      }
      buffer := b;
    }
  }
}
