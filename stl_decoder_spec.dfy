/**
 * What StlDecoder computes, as functions of the input bytes.  Each parse step
 * is a function of the data and the cursor position that returns the new
 * position, so the class in StlDecoding can be proved against it step by step.
 */
module StlDecoderSpec {
  import opened Bytes
  import opened Results
  import opened Meshes
  import opened ParserUtils

  /**
   * std::stof, as a table from the tokens it accepts to the float it
   * returns; a token outside the table is one it rejects with
   * std::invalid_argument.
   */
  type FloatParser = imap<seq<byte>, Float32>

  function ParseFloat(stof: FloatParser, token: seq<byte>): (r: Option<Float32>)
    ensures r.Some? <==> token in stof
    ensures r.Some? ==> r.value == stof[token]
  {
    if token in stof then Some(stof[token]) else None
  }

  /** One STL triangle: the stored normal and the three vertices, in file order. */
  datatype Facet = Facet(normal: Vec3, v0: Vec3, v1: Vec3, v2: Vec3)

  // Keywords of the ASCII format, as bytes.
  const SOLID: seq<byte> := [115, 111, 108, 105, 100]                  // solid
  const ENDSOLID: seq<byte> := [101, 110, 100, 115, 111, 108, 105, 100] // endsolid
  const FACET: seq<byte> := [102, 97, 99, 101, 116]                    // facet
  const NORMAL: seq<byte> := [110, 111, 114, 109, 97, 108]             // normal
  const OUTER: seq<byte> := [111, 117, 116, 101, 114]                  // outer
  const LOOP: seq<byte> := [108, 111, 111, 112]                        // loop
  const VERTEX: seq<byte> := [118, 101, 114, 116, 101, 120]            // vertex
  const ENDLOOP: seq<byte> := [101, 110, 100, 108, 111, 111, 112]      // endloop
  const ENDFACET: seq<byte> := [101, 110, 100, 102, 97, 99, 101, 116]  // endfacet

  /** Offset of the binary face count, and of the first binary face record. */
  const BINARY_COUNT_OFFSET: nat := 80
  const BINARY_FACES_OFFSET: nat := 84
  /** A binary record: 12 floats (48 bytes) and a 2-byte attribute count. */
  const BINARY_FACET_FLOATS_SIZE: nat := 48
  const BINARY_RECORD_SIZE: nat := 50

  // ---------------------------------------------------------------- header

  /** What ParseHeader leaves behind: its status, the format, the cursor and num_stl_faces_. */
  datatype HeaderOutcome = HeaderOutcome(status: Status, isBinary: bool, pos: nat, numFaces: nat)

  /** The state after ParseHeader's token loop: whether the file still looks ASCII, the last seek point, the cursor. */
  datatype ScanOutcome = ScanOutcome(isAscii: bool, seekPoint: nat, pos: nat)

  /**
   * ParseHeader's do-while loop from p with loop_counter = counter: read tokens
   * until "facet"; the file stops looking ASCII on an empty token or when the
   * counter passes 4, i.e. "facet" must be one of the first five tokens.
   */
  function ScanForFacet(d: seq<byte>, p: nat, counter: nat): (r: ScanOutcome)
    requires counter <= 5
    ensures p <= r.seekPoint <= r.pos
    ensures r.isAscii ==> r.seekPoint < |d|
    decreases 5 - counter
  {
    var s := SkipWs(d, p);
    var token := TokenText(d, s);
    var e := NextPos(d, s);
    var isAscii := !(s == e || counter > 4);
    if token != FACET && isAscii then ScanForFacet(d, e, counter + 1)
    else ScanOutcome(isAscii, s, e)
  }

  /** When the scan keeps the file ASCII, decoding resumes at a "facet" token. */
  lemma {:induction false} ScanFindsFacet(d: seq<byte>, p: nat, counter: nat)
    requires counter <= 5
    ensures ScanForFacet(d, p, counter).isAscii ==> TokenText(d, ScanForFacet(d, p, counter).seekPoint) == FACET
    decreases 5 - counter
  {
    var s := SkipWs(d, p);
    var e := NextPos(d, s);
    if TokenText(d, s) != FACET && !(s == e || counter > 4) {
      ScanFindsFacet(d, e, counter + 1);
    }
  }

  /** The binary branch of ParseHeader: jump to offset 80 and read the face count. */
  function BinaryHeader(d: seq<byte>, faces0: nat): (r: HeaderOutcome)
    ensures r.status.Ok? <==> BINARY_FACES_OFFSET <= |d|
    ensures r.status.Ok? ==>
              r.isBinary && r.pos == BINARY_FACES_OFFSET && r.numFaces == FromLittleEndian32(d[80..84]) as nat
    ensures r.status.IoError? ==>
              r.status.message == InvalidBinaryHeader && r.pos == BINARY_COUNT_OFFSET && r.numFaces == faces0
  {
    if |d| < BINARY_FACES_OFFSET then HeaderOutcome(IoError(InvalidBinaryHeader), false, BINARY_COUNT_OFFSET, faces0)
    else HeaderOutcome(Ok, true, BINARY_FACES_OFFSET, FromLittleEndian32(d[80..84]) as nat)
  }

  /**
   * ParseHeader(force_binary) from cursor p with num_stl_faces_ = faces0.
   * The isBinary field is false on failure: is_binary starts false in every
   * caller and ParseHeader only sets it on success.
   */
  function ParseHeaderSpec(d: seq<byte>, p: nat, forceBinary: bool, faces0: nat): (r: HeaderOutcome)
    ensures r.status.Ok? && !r.isBinary ==> p + 5 <= r.pos < |d|
  {
    var s := SkipWs(d, p);
    if forceBinary then BinaryHeader(d, faces0) else TaggedHeader(d, s, faces0)
  }

  /** ParseHeader without force_binary, from the first non-whitespace byte s: the five-byte tag decides. */
  function TaggedHeader(d: seq<byte>, s: nat, faces0: nat): (r: HeaderOutcome)
    ensures r.status.Ok? && !r.isBinary ==> s + 5 <= r.pos < |d|
  {
    if |d| < s + 5 then HeaderOutcome(IoError(InvalidHeader), false, s, faces0)
    else if d[s..s + 5] == SOLID then SolidHeader(d, s + 5)
    else BinaryHeader(d, faces0)
  }

  /**
   * ParseHeader once "solid" has been read, up to q: the token scan decides
   * between ASCII, where decoding resumes at the "facet" token, and binary.
   */
  function SolidHeader(d: seq<byte>, q: nat): (r: HeaderOutcome)
    ensures r.status.Ok? && !r.isBinary ==> q <= r.pos < |d|
  {
    var scan := ScanForFacet(d, q, 0);
    if scan.isAscii then HeaderOutcome(Ok, false, scan.seekPoint, 0)
    else BinaryHeader(d, 0)
  }

  /** The header after "solid", in terms of the scan's outcome. */
  lemma SolidHeaderFromScan(d: seq<byte>, q: nat, scan: ScanOutcome)
    requires scan == ScanForFacet(d, q, 0)
    ensures SolidHeader(d, q) ==
              if scan.isAscii then HeaderOutcome(Ok, false, scan.seekPoint, 0) else BinaryHeader(d, 0)
  {
  }

  /** num_stl_faces_ on entry only survives a failing header; nothing else depends on it. */
  lemma HeaderFacesIrrelevant(d: seq<byte>, p: nat, forceBinary: bool, f0: nat, f1: nat)
    ensures var h0 := ParseHeaderSpec(d, p, forceBinary, f0);
            var h1 := ParseHeaderSpec(d, p, forceBinary, f1);
            h0.status == h1.status && h0.isBinary == h1.isBinary && h0.pos == h1.pos &&
            (h0.status.Ok? ==> h0.numFaces == h1.numFaces)
  {
  }

  // ---------------------------------------------------------- binary faces

  /** The float stored little endian at offset off of a record. */
  function FloatAt(r: seq<byte>, off: nat): Float32
    requires off + 4 <= |r|
  {
    FloatFromBytes(r[off..off + 4])
  }

  function VecAt(r: seq<byte>, off: nat): Vec3
    requires off + 12 <= |r|
  {
    Vec3(FloatAt(r, off), FloatAt(r, off + 4), FloatAt(r, off + 8))
  }

  /** The 48 float bytes of a binary record: normal, v0, v1, v2. */
  function FacetFromRecord(r: seq<byte>): Facet
    requires |r| == BINARY_FACET_FLOATS_SIZE
  {
    Facet(VecAt(r, 0), VecAt(r, 12), VecAt(r, 24), VecAt(r, 36))
  }

  /** ParseBinaryFace at cursor p: None when fewer than 48 bytes remain. */
  function BinaryFacetAt(d: seq<byte>, p: nat): Option<Facet> {
    if p + BINARY_FACET_FLOATS_SIZE <= |d| then Some(FacetFromRecord(d[p..p + BINARY_FACET_FLOATS_SIZE])) else None
  }

  // ----------------------------------------------------------- ASCII faces

  /** One position of the facet grammar: a fixed keyword or a float. */
  datatype Slot = Word(word: seq<byte>) | Number

  /** facet normal f f f outer loop vertex f f f vertex f f f vertex f f f endloop endfacet */
  const FACET_SLOTS: seq<Slot> :=
    [Word(FACET), Word(NORMAL), Number, Number, Number, Word(OUTER), Word(LOOP),
     Word(VERTEX), Number, Number, Number, Word(VERTEX), Number, Number, Number,
     Word(VERTEX), Number, Number, Number, Word(ENDLOOP), Word(ENDFACET)]
  const FACET_LENGTH: nat := 21

  predicate SlotAccepts(slot: Slot, token: seq<byte>, stof: FloatParser) {
    match slot
    case Word(w) => token == w
    case Number => ParseFloat(stof, token).Some?
  }

  /** How many Number slots there are in slots[k..]. */
  function NumberSlotsFrom(slots: seq<Slot>, k: nat): nat
    requires k <= |slots|
    decreases |slots| - k
  {
    if k == |slots| then 0
    else (if slots[k].Number? then 1 else 0) + NumberSlotsFrom(slots, k + 1)
  }

  /** Twelve of the facet slots are floats. */
  lemma NumberSlotCount()
    ensures NumberSlotsFrom(FACET_SLOTS, 0) == 12
  {
    // Two slots at a time, from the end.
    var s := FACET_SLOTS;
    assert NumberSlotsFrom(s, 21) == 0;
    assert NumberSlotsFrom(s, 19) == 0;
    assert NumberSlotsFrom(s, 17) == 2;
    assert NumberSlotsFrom(s, 15) == 3;
    assert NumberSlotsFrom(s, 13) == 5;
    assert NumberSlotsFrom(s, 11) == 6;
    assert NumberSlotsFrom(s, 9) == 8;
    assert NumberSlotsFrom(s, 7) == 9;
    assert NumberSlotsFrom(s, 5) == 9;
    assert NumberSlotsFrom(s, 3) == 11;
    assert NumberSlotsFrom(s, 1) == 12;
  }

  /**
   * Matching slots[k..] against the tokens read from q: either all fit, and
   * the result holds the cursor and the floats of the Number slots in order,
   * or slot b is the first that does not, and the cursor is past its token.
   */
  datatype MatchOutcome = Matched(pos: nat, numbers: seq<Float32>) | Mismatch(slot: nat, pos: nat)

  /** A match of later slots, with floats of earlier slots put in front. */
  function Prefixed(ns: seq<Float32>, r: MatchOutcome): MatchOutcome {
    match r
    case Matched(q, rest) => Matched(q, ns + rest)
    case Mismatch(_, _) => r
  }

  /** The grammar is a parameter so that proofs about one slot do not unfold the whole facet. */
  function MatchFrom(d: seq<byte>, q: nat, stof: FloatParser, slots: seq<Slot>, k: nat): (r: MatchOutcome)
    requires k <= |slots|
    ensures q <= r.pos
    ensures q <= |d| ==> r.pos <= |d|
    ensures r.Matched? ==> |r.numbers| == NumberSlotsFrom(slots, k)
    ensures r.Mismatch? ==> k <= r.slot < |slots|
    decreases |slots| - k
  {
    if k == |slots| then Matched(q, [])
    else
      var token := TokenText(d, q);
      var next := NextPos(d, q);
      if !SlotAccepts(slots[k], token, stof) then Mismatch(k, next)
      else if slots[k].Word? then MatchFrom(d, next, stof, slots, k + 1)
      else Prefixed([ParseFloat(stof, token).value], MatchFrom(d, next, stof, slots, k + 1))
  }

  /** Reading a keyword slot: a matching token moves on to the next slot. */
  lemma MatchWordStep(d: seq<byte>, q: nat, stof: FloatParser, slots: seq<Slot>, k: nat)
    requires k < |slots| && slots[k].Word?
    ensures TokenText(d, q) == slots[k].word ==>
              MatchFrom(d, q, stof, slots, k) == MatchFrom(d, NextPos(d, q), stof, slots, k + 1)
    ensures TokenText(d, q) != slots[k].word ==>
              MatchFrom(d, q, stof, slots, k) == Mismatch(k, NextPos(d, q))
  {
  }

  /** Reading a float slot: a parsed float is put in front of the rest of the match. */
  lemma MatchNumberStep(d: seq<byte>, q: nat, stof: FloatParser, slots: seq<Slot>, k: nat)
    requires k < |slots| && slots[k].Number?
    ensures ParseFloat(stof, TokenText(d, q)).Some? ==>
              MatchFrom(d, q, stof, slots, k) ==
              Prefixed([ParseFloat(stof, TokenText(d, q)).value], MatchFrom(d, NextPos(d, q), stof, slots, k + 1))
    ensures ParseFloat(stof, TokenText(d, q)).None? ==>
              MatchFrom(d, q, stof, slots, k) == Mismatch(k, NextPos(d, q))
  {
  }

  lemma PrefixedNothing(m: MatchOutcome)
    ensures m == Prefixed([], m)
  {
    match m
    case Matched(q, rest) => assert [] + rest == rest;
    case Mismatch(_, _) =>
  }

  /** A mismatch carries no floats, so nothing is put in front of it. */
  lemma PrefixedMismatch(ns: seq<Float32>, m0: MatchOutcome, m: MatchOutcome)
    requires m.Mismatch? && m0 == Prefixed(ns, m)
    ensures m0 == m
  {
  }

  lemma PrefixedTwice(a: seq<Float32>, b: seq<Float32>, r: MatchOutcome)
    ensures Prefixed(a, Prefixed(b, r)) == Prefixed(a + b, r)
  {
    match r
    case Matched(q, rest) => assert a + (b + rest) == (a + b) + rest;
    case Mismatch(_, _) =>
  }

  /** More floats read: the floats collected so far grow by them. */
  lemma PrefixedJoin(m0: MatchOutcome, ns: seq<Float32>, m: MatchOutcome, xs: seq<Float32>, m1: MatchOutcome)
    requires m0 == Prefixed(ns, m) && m == Prefixed(xs, m1)
    ensures m0 == Prefixed(ns + xs, m1)
  {
    PrefixedTwice(ns, xs, m1);
  }

  /** Three floats collected: the list is exactly those three. */
  lemma PrefixedThree(m0: MatchOutcome, ns: seq<Float32>, m: MatchOutcome)
    requires |ns| == 3 && m0 == Prefixed(ns, m)
    ensures m0 == Prefixed([ns[0], ns[1], ns[2]], m)
  {
    assert ns == [ns[0], ns[1], ns[2]];
  }

  /** The normal and vertices from the twelve floats of a facet, in file order. */
  function FacetOfNumbers(ns: seq<Float32>): Facet
    requires |ns| == 12
  {
    Facet(Vec3(ns[0], ns[1], ns[2]), Vec3(ns[3], ns[4], ns[5]),
          Vec3(ns[6], ns[7], ns[8]), Vec3(ns[9], ns[10], ns[11]))
  }

  /** All slots matched: the floats collected are the whole result. */
  lemma PrefixedDone(m0: MatchOutcome, ns: seq<Float32>, m: MatchOutcome, q: nat)
    requires m0 == Prefixed(ns, m) && m == Matched(q, [])
    ensures m0 == Matched(q, ns)
  {
    assert ns + [] == ns;
  }

  /** What ParseAsciiFace returns: status, the triangle when is_valid_triangle, and the cursor. */
  datatype AsciiFaceOutcome = AsciiFaceOutcome(status: Status, facet: Option<Facet>, pos: nat)

  /** ParseAsciiFace at cursor p. */
  function ParseAsciiFaceSpec(d: seq<byte>, p: nat, stof: FloatParser): (r: AsciiFaceOutcome)
    ensures p <= r.pos
    ensures p <= |d| ==> r.pos <= |d|
    ensures r.facet.Some? ==> r.status.Ok? && p < r.pos
  {
    if TokenText(d, p) == ENDSOLID then AsciiFaceOutcome(Ok, None, NextPos(d, p))
    else
      match MatchFrom(d, p, stof, FACET_SLOTS, 0)
      case Matched(q, ns) =>
        NumberSlotCount();
        AsciiFaceOutcome(Ok, Some(FacetOfNumbers(ns)), q)
      case Mismatch(b, q) =>
        AsciiFaceOutcome(IoError(MismatchMessage(FACET_SLOTS[b])), None, q)
  }

  /** The error of a facet line that does not fit: a bad float or a wrong keyword. */
  function MismatchMessage(slot: Slot): Message {
    if slot.Number? then InvalidFloat else InvalidFacet
  }

  /** m stops at a slot of slots, after the token ending at q, with error status st. */
  predicate FailsWith(m: MatchOutcome, slots: seq<Slot>, st: Status, q: nat) {
    m.Mismatch? && m.slot < |slots| && m.pos == q && st == IoError(MismatchMessage(slots[m.slot]))
  }

  /** "vertex x y z" at slot k. */
  predicate VertexAt(slots: seq<Slot>, k: nat) {
    k + 4 <= |slots| && slots[k] == Word(VERTEX) &&
    slots[k + 1] == Number && slots[k + 2] == Number && slots[k + 3] == Number
  }

  /** "outer loop", three vertex lines and "endloop" at slot k. */
  predicate LoopAt(slots: seq<Slot>, k: nat) {
    k + 15 <= |slots| && slots[k] == Word(OUTER) && slots[k + 1] == Word(LOOP) &&
    VertexAt(slots, k + 2) && VertexAt(slots, k + 6) && VertexAt(slots, k + 10) &&
    slots[k + 14] == Word(ENDLOOP)
  }

  /** Everything after "facet": "normal", three floats, the loop and "endfacet", from slot 1. */
  lemma FacetSlotsShape()
    ensures |FACET_SLOTS| == 21 && FACET_SLOTS[0] == Word(FACET) && FACET_SLOTS[1] == Word(NORMAL)
    ensures FACET_SLOTS[2] == Number && FACET_SLOTS[3] == Number && FACET_SLOTS[4] == Number
    ensures LoopAt(FACET_SLOTS, 5) && FACET_SLOTS[20] == Word(ENDFACET)
  {
    FacetSlotsWords();
    FacetSlotsVertex(7);
    FacetSlotsVertex(11);
    FacetSlotsVertex(15);
  }

  /** The keywords around the vertex lines, and the normal's floats. */
  lemma FacetSlotsWords()
    ensures |FACET_SLOTS| == 21 && FACET_SLOTS[0] == Word(FACET) && FACET_SLOTS[1] == Word(NORMAL)
    ensures FACET_SLOTS[2] == Number && FACET_SLOTS[3] == Number && FACET_SLOTS[4] == Number
    ensures FACET_SLOTS[5] == Word(OUTER) && FACET_SLOTS[6] == Word(LOOP)
    ensures FACET_SLOTS[19] == Word(ENDLOOP) && FACET_SLOTS[20] == Word(ENDFACET)
  {
  }

  /** The three "vertex f f f" lines sit at slots 7, 11 and 15. */
  lemma FacetSlotsVertex(k: nat)
    requires k == 7 || k == 11 || k == 15
    ensures VertexAt(FACET_SLOTS, k)
  {
  }

  /** The twelve floats of a facet in file order: normal, then the three vertices. */
  function FacetNumbers(f: Facet): (r: seq<Float32>)
    ensures |r| == 12
  {
    VecFloats(f.normal) + (VecFloats(f.v0) + VecFloats(f.v1) + VecFloats(f.v2))
  }

  /** Reading a facet's floats back in file order gives the facet. */
  lemma FacetNumbersRoundTrip(f: Facet)
    ensures FacetOfNumbers(FacetNumbers(f)) == f
  {
  }

  /** A facet all of whose slots match: ParseAsciiFace returns it as a valid triangle. */
  lemma FaceMatches(d: seq<byte>, p: nat, stof: FloatParser, f: Facet, q: nat)
    requires TokenText(d, p) == FACET
    requires MatchFrom(d, p, stof, FACET_SLOTS, 0) == Prefixed(FacetNumbers(f), MatchFrom(d, q, stof, FACET_SLOTS, 21))
    ensures ParseAsciiFaceSpec(d, p, stof) == AsciiFaceOutcome(Ok, Some(f), q)
  {
    PrefixedDone(MatchFrom(d, p, stof, FACET_SLOTS, 0), FacetNumbers(f), MatchFrom(d, q, stof, FACET_SLOTS, 21), q);
    FacetNumbersRoundTrip(f);
  }

  /** A facet whose slots stop matching somewhere: ParseAsciiFace fails there. */
  lemma FaceFails(d: seq<byte>, p: nat, stof: FloatParser, ns: seq<Float32>, m: MatchOutcome, st: Status, q: nat)
    requires TokenText(d, p) != ENDSOLID
    requires MatchFrom(d, p, stof, FACET_SLOTS, 0) == Prefixed(ns, m)
    requires FailsWith(m, FACET_SLOTS, st, q)
    ensures ParseAsciiFaceSpec(d, p, stof) == AsciiFaceOutcome(st, None, q)
  {
  }

  /** The outcome of one solid: the last status, the cursor, and the facets collected so far. */
  datatype SolidOutcome = SolidOutcome(status: Status, pos: nat, facets: seq<Facet>)

  /** DecodeInternal's inner do-while: parse faces until one is not a valid triangle. */
  function AsciiFacesSpec(d: seq<byte>, p: nat, stof: FloatParser, acc: seq<Facet>): (r: SolidOutcome)
    requires p <= |d|
    ensures p <= r.pos <= |d|
    ensures acc <= r.facets
    decreases |d| - p
  {
    var f := ParseAsciiFaceSpec(d, p, stof);
    if !f.status.Ok? then SolidOutcome(f.status, f.pos, acc)
    else if f.facet.Some? then AsciiFacesSpec(d, f.pos, stof, acc + [f.facet.value])
    else SolidOutcome(Ok, f.pos, acc)
  }

  /** The outcome of the ASCII phase: error_while_parsing_ascii, the cursor, and the facets. */
  datatype AsciiOutcome = AsciiOutcome(firstSolidError: bool, pos: nat, facets: seq<Facet>)

  /**
   * DecodeInternal's while(1) loop: one solid per iteration, then continue
   * only if at least 5 bytes remain and ParseHeader finds another ASCII solid.
   */
  function AsciiSolidsSpec(d: seq<byte>, p: nat, stof: FloatParser, isFirst: bool, acc: seq<Facet>): (r: AsciiOutcome)
    requires p <= |d|
    ensures acc <= r.facets
    ensures r.firstSolidError ==> isFirst
    decreases |d| - p
  {
    var s := AsciiFacesSpec(d, p, stof, acc);
    var error := !s.status.Ok? && isFirst;
    if error || |d| - s.pos < 5 then AsciiOutcome(error, s.pos, s.facets)
    else
      var h := ParseHeaderSpec(d, s.pos, false, 0);
      if !h.status.Ok? || h.isBinary then AsciiOutcome(false, h.pos, s.facets)
      else AsciiSolidsSpec(d, h.pos, stof, false, s.facets)
  }

  /** tmp_three_vec_storage: four vectors per facet, normal first. */
  function Flatten(fs: seq<Facet>): (r: seq<Vec3>)
    ensures |r| == 4 * |fs|
  {
    if fs == [] then []
    else Flatten(fs[..|fs| - 1]) + [fs[|fs| - 1].normal, fs[|fs| - 1].v0, fs[|fs| - 1].v1, fs[|fs| - 1].v2]
  }

  // ------------------------------------------------------------ mesh build

  /** The vertex that replaces non-finite ones: the first finite of v0, v1, v2. */
  function FirstFinite(f: Facet): Vec3
  {
    if IsFiniteVec(f.v0) then f.v0 else if IsFiniteVec(f.v1) then f.v1 else f.v2
  }

  /** The NaN repair of DecodeInternal; None when no vertex is finite. The normal is not looked at. */
  function Repair(f: Facet): Option<Facet>
  {
    if IsFiniteVec(f.v0) && IsFiniteVec(f.v1) && IsFiniteVec(f.v2) then Some(f)
    else if !(IsFiniteVec(f.v0) || IsFiniteVec(f.v1) || IsFiniteVec(f.v2)) then None
    else
      var w := FirstFinite(f);
      Some(Facet(f.normal, if IsFiniteVec(f.v0) then f.v0 else w,
                 if IsFiniteVec(f.v1) then f.v1 else w, if IsFiniteVec(f.v2) then f.v2 else w))
  }

  /** The triangle soup the decoder builds: face i is points 3i, 3i+1, 3i+2. */
  datatype Soup = Soup(faces: seq<Face>, positions: seq<Vec3>)

  function SoupFace(i: nat): Face {
    Face(3 * i, 3 * i + 1, 3 * i + 2)
  }

  /**
   * The mesh-building loop over the first k facets, in order; None stands
   * for a binary record that is cut short.  The first failure stops the loop.
   */
  function SoupUpTo(facets: seq<Option<Facet>>, k: nat): (r: Result<Soup>)
    requires k <= |facets|
    ensures r.Success? ==> |r.value.faces| == k && |r.value.positions| == 3 * k
    ensures r.Success? ==> forall i :: 0 <= i < k ==> r.value.faces[i] == SoupFace(i)
  {
    if k == 0 then Success(Soup([], []))
    else
      match SoupUpTo(facets, k - 1)
      case Failure(e) => Failure(e)
      case Success(s) =>
        if facets[k - 1].None? then Failure(IncompleteFacet)
        else match Repair(facets[k - 1].value)
          case None => Failure(AllVerticesNan)
          case Some(g) => Success(Soup(s.faces + [SoupFace(k - 1)], s.positions + [g.v0, g.v1, g.v2]))
  }

  /** The whole loop. */
  function BuildSoup(facets: seq<Option<Facet>>): Result<Soup> {
    SoupUpTo(facets, |facets|)
  }

  /** The first failure decides the outcome: later facets are never looked at. */
  lemma {:induction false} SoupFailurePersists(fs: seq<Option<Facet>>, j: nat, k: nat)
    requires j <= k <= |fs| && SoupUpTo(fs, j).Failure?
    ensures SoupUpTo(fs, k) == SoupUpTo(fs, j)
    decreases k
  {
    if j < k {
      SoupFailurePersists(fs, j, k - 1);
    }
  }

  /** A facet that repairs adds one triangle to the soup. */
  lemma SoupExtends(fs: seq<Option<Facet>>, i: nat, s: Soup, g: Facet)
    requires i < |fs| && SoupUpTo(fs, i) == Success(s)
    requires fs[i].Some? && Repair(fs[i].value) == Some(g)
    ensures SoupUpTo(fs, i + 1) == Success(Soup(s.faces + [SoupFace(i)], s.positions + [g.v0, g.v1, g.v2]))
  {
  }

  /** A binary record cut short ends the whole loop with IncompleteFacet. */
  lemma SoupIncomplete(fs: seq<Option<Facet>>, i: nat)
    requires i < |fs| && SoupUpTo(fs, i).Success? && fs[i].None?
    ensures BuildSoup(fs) == Failure(IncompleteFacet)
  {
    SoupFailurePersists(fs, i + 1, |fs|);
  }

  /** A facet without a finite vertex ends the whole loop with AllVerticesNan. */
  lemma SoupAllNan(fs: seq<Option<Facet>>, i: nat)
    requires i < |fs| && SoupUpTo(fs, i).Success? && fs[i].Some? && Repair(fs[i].value).None?
    ensures BuildSoup(fs) == Failure(AllVerticesNan)
  {
    SoupFailurePersists(fs, i + 1, |fs|);
  }

  /**
   * The triangles the loop has stored when it stops within the first k
   * facets: the soup of the longest prefix that builds.  When that prefix
   * is shorter than k, the facet after it is the one that failed.
   */
  function StoredUpTo(facets: seq<Option<Facet>>, k: nat): (r: Soup)
    requires k <= |facets|
    ensures |r.faces| <= k && SoupUpTo(facets, |r.faces|) == Success(r)
    ensures |r.faces| < k ==> SoupUpTo(facets, |r.faces| + 1).Failure?
  {
    if k == 0 then Soup([], [])
    else match SoupUpTo(facets, k)
      case Success(s) => s
      case Failure(_) => StoredUpTo(facets, k - 1)
  }

  /** The triangles the whole loop stores before it ends or stops. */
  function StoredSoup(facets: seq<Option<Facet>>): Soup {
    StoredUpTo(facets, |facets|)
  }

  /**
   * What the loop stores agrees with its outcome: a soup that builds is
   * stored whole, and a failing loop stores fewer triangles than facets.
   * A loop that stops at facet i has stored the soup of the first i.
   */
  lemma StoredSoupAgrees(fs: seq<Option<Facet>>)
    ensures BuildSoup(fs).Success? <==> |StoredSoup(fs).faces| == |fs|
    ensures BuildSoup(fs).Success? ==> BuildSoup(fs).value == StoredSoup(fs)
  {
  }

  /** Stopping at facet i leaves the soup of facets 0..i-1 stored. */
  lemma StoredAtFailure(fs: seq<Option<Facet>>, i: nat, s: Soup)
    requires i < |fs| && SoupUpTo(fs, i) == Success(s) && SoupUpTo(fs, i + 1).Failure?
    ensures StoredSoup(fs) == s
  {
    var r := StoredSoup(fs);
    var j := |r.faces|;
    if j > i {
      SoupFailurePersists(fs, i + 1, j);
    } else if j < i {
      SoupFailurePersists(fs, j + 1, i);
    }
  }

  /** n binary records read one after the other from cursor p. */
  function BinaryFacets(d: seq<byte>, p: nat, n: nat): (r: seq<Option<Facet>>)
    ensures |r| == n
    ensures forall i :: 0 <= i < n ==> r[i] == BinaryFacetAt(d, p + BINARY_RECORD_SIZE * i)
  {
    seq(n, i requires 0 <= i < n => BinaryFacetAt(d, p + BINARY_RECORD_SIZE * i))
  }

  /** The facets read from tmp_three_vec_storage. */
  function StoredFacets(storage: seq<Vec3>): (r: seq<Option<Facet>>)
    ensures |r| == |storage| / 4
    ensures forall i :: 0 <= i < |r| ==>
              r[i] == Some(Facet(storage[4 * i], storage[4 * i + 1], storage[4 * i + 2], storage[4 * i + 3]))
  {
    seq(|storage| / 4, i requires 0 <= i < |storage| / 4 =>
      Some(Facet(storage[4 * i], storage[4 * i + 1], storage[4 * i + 2], storage[4 * i + 3])))
  }

  /** The facets the mesh-building loop reads: n binary records from p, or the ASCII storage. */
  function MeshFacets(isBinary: bool, d: seq<byte>, p: nat, n: nat, storage: seq<Vec3>): seq<Option<Facet>> {
    if isBinary then BinaryFacets(d, p, n) else StoredFacets(storage)
  }

  /** Facet i of the loop: the record 50i bytes after p, or vectors 4i..4i+3 of the storage. */
  lemma MeshFacetAt(facets: seq<Option<Facet>>, isBinary: bool, d: seq<byte>, p: nat, n: nat, storage: seq<Vec3>,
                    i: nat, q: nat)
    requires facets == MeshFacets(isBinary, d, p, n, storage)
    requires i < n && (!isBinary ==> n == |storage| / 4) && q == p + BINARY_RECORD_SIZE * i
    ensures |facets| == n
    ensures isBinary ==> facets[i] == BinaryFacetAt(d, q)
    ensures !isBinary ==>
              4 * i + 3 < |storage| &&
              facets[i] == Some(Facet(storage[4 * i], storage[4 * i + 1], storage[4 * i + 2], storage[4 * i + 3]))
  {
  }

  /** StlDecoder::DecodeInternal on the whole input d. */
  function DecodeSpec(d: seq<byte>, stof: FloatParser): Result<Soup> {
    var h := ParseHeaderSpec(d, 0, false, 0);
    if h.status.IoError? then Failure(h.status.message)
    else if h.isBinary then BuildSoup(BinaryFacets(d, h.pos, h.numFaces))
    else AsciiDecodeSpec(d, h.pos, stof)
  }

  /**
   * DecodeInternal after an ASCII header ends at p: the solids' facets, or,
   * when the first solid fails, the file read again as binary.
   */
  function AsciiDecodeSpec(d: seq<byte>, p: nat, stof: FloatParser): Result<Soup>
    requires p <= |d|
  {
    var a := AsciiSolidsSpec(d, p, stof, true, []);
    if a.firstSolidError then BinaryFallbackSpec(d, a.pos)
    else BuildSoup(StoredFacets(Flatten(a.facets)))
  }

  /** The fallback: ParseHeader(true) from cursor q, then the binary records. */
  function BinaryFallbackSpec(d: seq<byte>, q: nat): Result<Soup> {
    var h := ParseHeaderSpec(d, q, true, 0);
    if h.status.IoError? then Failure(h.status.message)
    else BuildSoup(BinaryFacets(d, h.pos, h.numFaces))
  }

  /**
   * What decoding leaves in the output mesh: the mesh untouched, when a
   * header fails before it is sized, or sized for numFaces triangles with
   * the stored ones in place (all of them, when decoding succeeds).
   */
  datatype MeshEffect = Untouched | Sized(numFaces: nat, stored: Soup)

  /** The mesh effect of DecodeInternal on the whole input d, branch for branch with DecodeSpec. */
  function DecodeEffect(d: seq<byte>, stof: FloatParser): MeshEffect {
    var h := ParseHeaderSpec(d, 0, false, 0);
    if h.status.IoError? then Untouched
    else if h.isBinary then Sized(h.numFaces, StoredSoup(BinaryFacets(d, h.pos, h.numFaces)))
    else AsciiDecodeEffect(d, h.pos, stof)
  }

  /** The mesh effect after an ASCII header ends at p. */
  function AsciiDecodeEffect(d: seq<byte>, p: nat, stof: FloatParser): MeshEffect
    requires p <= |d|
  {
    var a := AsciiSolidsSpec(d, p, stof, true, []);
    if a.firstSolidError then BinaryFallbackEffect(d, a.pos)
    else Sized(|a.facets|, StoredSoup(StoredFacets(Flatten(a.facets))))
  }

  /** The mesh effect of the binary fallback from cursor q. */
  function BinaryFallbackEffect(d: seq<byte>, q: nat): MeshEffect {
    var h := ParseHeaderSpec(d, q, true, 0);
    if h.status.IoError? then Untouched
    else Sized(h.numFaces, StoredSoup(BinaryFacets(d, h.pos, h.numFaces)))
  }
}
