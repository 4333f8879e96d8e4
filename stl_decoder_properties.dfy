/**
 * What the STL decoder promises, proved about the functions of
 * StlDecoderSpec that its methods are verified against: how the format is
 * detected, that the binary face count decides how many records are read,
 * which token sequences ParseAsciiFace accepts, how errors in the ASCII
 * solids are handled, and what the triangle soup holds.
 */
module StlDecoderProperties {
  import opened Bytes
  import opened Results
  import opened Meshes
  import opened ParserUtils
  import opened StlDecoderSpec

  // ---------------------------------------------------------------- tokens

  lemma SkipWsTwice(d: seq<byte>, p: nat)
    ensures SkipWs(d, SkipWs(d, p)) == SkipWs(d, p)
  {
  }

  /** Reading one token and then k more is reading k + 1 tokens. */
  lemma {:induction false} TokPosShift(d: seq<byte>, p: nat, k: nat)
    ensures TokPos(d, NextPos(d, p), k) == TokPos(d, p, k + 1)
    decreases k
  {
    if k > 0 {
      TokPosShift(d, p, k - 1);
    }
  }

  /** Token k read from p is token k - 1 read after the first one. */
  lemma TokenAtShift(d: seq<byte>, p: nat, k: nat)
    requires k > 0
    ensures TokenAt(d, NextPos(d, p), k - 1) == TokenAt(d, p, k)
  {
    TokPosShift(d, p, k - 1);
  }

  /** A token is only read before the end of the data. */
  lemma TokenBeforeEnd(d: seq<byte>, q: nat, k: nat)
    requires TokenAt(d, q, k) != []
    ensures q < |d|
  {
    if |d| <= q {
      PastEndNoToken(d, q, k);
    }
  }

  /** Past the end of the data every token is empty. */
  lemma PastEndNoToken(d: seq<byte>, q: nat, k: nat)
    requires |d| <= q
    ensures TokenAt(d, q, k) == []
  {
    var t := TokPos(d, q, k);
    assert SkipWs(d, t) == t;
    assert TokenEnd(d, t) == t;
  }

  /** An empty token is only read at the end of the data. */
  lemma EmptyTokenAtEnd(d: seq<byte>, q: nat)
    requires SkipWs(d, q) == NextPos(d, q)
    ensures |d| <= NextPos(d, q)
  {
  }

  // ---------------------------------------------------------------- header

  /** One round of ParseHeader's token loop, in terms of the token read from p. */
  lemma ScanStep(d: seq<byte>, p: nat, counter: nat)
    requires counter <= 5
    ensures TokenAt(d, p, 0) == FACET && counter <= 4 ==>
              ScanForFacet(d, p, counter) == ScanOutcome(true, SkipWs(d, p), NextPos(d, p))
    ensures TokenAt(d, p, 0) != FACET && TokenAt(d, p, 0) != [] && counter <= 4 ==>
              ScanForFacet(d, p, counter) == ScanForFacet(d, NextPos(d, p), counter + 1)
    ensures TokenAt(d, p, 0) == [] || counter > 4 ==> !ScanForFacet(d, p, counter).isAscii
    ensures TokenAt(d, p, 0) == [] ==> |d| <= NextPos(d, p)
  {
    var s := SkipWs(d, p);
    SkipWsTwice(d, p);
    assert TokenAt(d, p, 0) == TokenText(d, s);
    assert NextPos(d, s) == NextPos(d, p);
    if TokenAt(d, p, 0) == [] {
      EmptyTokenAtEnd(d, s);
    }
  }

  /**
   * The token loop of ParseHeader keeps the file ASCII only at a "facet"
   * among the tokens it may still read (counter + k <= 4), and resumes
   * decoding at that token.
   */
  lemma {:induction false} ScanStopsAtFacet(d: seq<byte>, p: nat, counter: nat)
    requires counter <= 5
    ensures var r := ScanForFacet(d, p, counter);
            r.isAscii ==>
              exists k: nat :: counter + k <= 4 && TokenAt(d, p, k) == FACET && r.seekPoint == SkipWs(d, TokPos(d, p, k))
    decreases 5 - counter
  {
    ScanStep(d, p, counter);
    if TokenAt(d, p, 0) == FACET && counter <= 4 {
      assert TokPos(d, p, 0) == p;
    } else if TokenAt(d, p, 0) != [] && counter <= 4 {
      var e := NextPos(d, p);
      ScanStopsAtFacet(d, e, counter + 1);
      if ScanForFacet(d, e, counter + 1).isAscii {
        var k: nat :| counter + 1 + k <= 4 && TokenAt(d, e, k) == FACET &&
                     ScanForFacet(d, e, counter + 1).seekPoint == SkipWs(d, TokPos(d, e, k));
        TokPosShift(d, p, k);
        assert TokenAt(d, p, k + 1) == FACET;
      }
    }
  }

  /**
   * When the loop gives up, none of the tokens it could still read
   * (counter + k <= 4) is "facet".
   */
  lemma {:induction false} ScanMissesFacet(d: seq<byte>, p: nat, counter: nat)
    requires counter <= 5
    ensures !ScanForFacet(d, p, counter).isAscii ==>
              forall k: nat :: counter + k <= 4 ==> TokenAt(d, p, k) != FACET
    decreases 5 - counter
  {
    ScanStep(d, p, counter);
    if !ScanForFacet(d, p, counter).isAscii && counter <= 4 {
      var e := NextPos(d, p);
      if TokenAt(d, p, 0) != [] {
        ScanMissesFacet(d, e, counter + 1);
        forall k: nat | counter + k <= 4
          ensures TokenAt(d, p, k) != FACET
        {
          if k > 0 {
            TokenAtShift(d, p, k);
          }
        }
      } else {
        forall k: nat | counter + k <= 4
          ensures TokenAt(d, p, k) != FACET
        {
          if k > 0 {
            TokenAtShift(d, p, k);
            PastEndNoToken(d, e, k - 1);
          }
        }
      }
    }
  }

  /** One of the five tokens read from q is "facet". */
  predicate FacetWithinFive(d: seq<byte>, q: nat) {
    exists k: nat :: k <= 4 && TokenAt(d, q, k) == FACET
  }

  /** The input at p looks like an ASCII solid: "solid", then "facet" within the next five tokens. */
  predicate AsciiStart(d: seq<byte>, p: nat) {
    var s := SkipWs(d, p);
    s + 5 <= |d| && d[s..s + 5] == SOLID && FacetWithinFive(d, s + 5)
  }

  /** ParseHeader(false) reads the input as ASCII exactly when it looks like an ASCII solid. */
  lemma HeaderIsAscii(d: seq<byte>, p: nat, faces0: nat)
    ensures var h := ParseHeaderSpec(d, p, false, faces0);
            h.status.Ok? && !h.isBinary <==> AsciiStart(d, p)
  {
    var s := SkipWs(d, p);
    if s + 5 <= |d| && d[s..s + 5] == SOLID {
      var q := s + 5;
      ScanStopsAtFacet(d, q, 0);
      ScanMissesFacet(d, q, 0);
    }
  }

  /**
   * Anything else is binary: fewer than five bytes after the whitespace is
   * an invalid header, and otherwise the face count is the little-endian
   * word at offset 80, which must be there.
   */
  lemma HeaderIsBinary(d: seq<byte>, p: nat, faces0: nat)
    requires !AsciiStart(d, p)
    ensures |d| < SkipWs(d, p) + 5 ==> ParseHeaderSpec(d, p, false, faces0).status == IoError(InvalidHeader)
    ensures SkipWs(d, p) + 5 <= |d| < BINARY_FACES_OFFSET ==>
              ParseHeaderSpec(d, p, false, faces0).status == IoError(InvalidBinaryHeader)
    ensures SkipWs(d, p) + 5 <= |d| && BINARY_FACES_OFFSET <= |d| ==>
              ParseHeaderSpec(d, p, false, faces0) ==
              HeaderOutcome(Ok, true, BINARY_FACES_OFFSET, FromLittleEndian32(d[80..84]) as nat)
  {
    HeaderIsAscii(d, p, faces0);
  }

  // ------------------------------------------------------------- soup build

  /** A facet slot of the mesh-building loop that yields a triangle. */
  predicate Usable(o: Option<Facet>) {
    o.Some? && Repair(o.value).Some?
  }

  /** Points 3i, 3i+1, 3i+2 of the soup hold the vertices of g, in order. */
  predicate HoldsTriangle(s: Soup, i: nat, g: Facet) {
    3 * i + 2 < |s.positions| &&
    s.positions[3 * i] == g.v0 && s.positions[3 * i + 1] == g.v1 && s.positions[3 * i + 2] == g.v2
  }

  /**
   * The first k facets build a soup exactly when each of them is present
   * and has a finite vertex; triangle i then holds facet i, repaired.
   */
  lemma {:induction false} SoupUpToSpec(fs: seq<Option<Facet>>, k: nat)
    requires k <= |fs|
    ensures SoupUpTo(fs, k).Success? <==> forall i :: 0 <= i < k ==> Usable(fs[i])
    ensures SoupUpTo(fs, k).Success? ==>
              forall i :: 0 <= i < k ==> Usable(fs[i]) && HoldsTriangle(SoupUpTo(fs, k).value, i, Repair(fs[i].value).value)
  {
    if k > 0 {
      SoupUpToSpec(fs, k - 1);
      var r := SoupUpTo(fs, k - 1);
      if r.Success? && Usable(fs[k - 1]) {
        var s := r.value;
        var g := Repair(fs[k - 1].value).value;
        var t := Soup(s.faces + [SoupFace(k - 1)], s.positions + [g.v0, g.v1, g.v2]);
        assert SoupUpTo(fs, k) == Success(t);
        forall i | 0 <= i < k
          ensures Usable(fs[i]) && HoldsTriangle(t, i, Repair(fs[i].value).value)
        {
          if i < k - 1 {
            assert HoldsTriangle(s, i, Repair(fs[i].value).value);
          }
        }
      }
    }
  }

  /** The vertices the repair leaves are all finite, and the normal is kept as it was. */
  lemma RepairFinite(f: Facet)
    ensures Repair(f).None? <==> !IsFiniteVec(f.v0) && !IsFiniteVec(f.v1) && !IsFiniteVec(f.v2)
    ensures Repair(f).Some? ==>
              var g := Repair(f).value;
              g.normal == f.normal && IsFiniteVec(g.v0) && IsFiniteVec(g.v1) && IsFiniteVec(g.v2)
  {
  }

  /** A finite vertex is kept; a non-finite one becomes the first finite vertex of the facet. */
  lemma RepairReplaces(f: Facet)
    requires Repair(f).Some?
    ensures var g := Repair(f).value;
            var w := if IsFiniteVec(f.v0) then f.v0 else if IsFiniteVec(f.v1) then f.v1 else f.v2;
            g.v0 == (if IsFiniteVec(f.v0) then f.v0 else w) &&
            g.v1 == (if IsFiniteVec(f.v1) then f.v1 else w) &&
            g.v2 == (if IsFiniteVec(f.v2) then f.v2 else w)
  {
  }

  /** Repairing twice changes nothing more. */
  lemma RepairIdempotent(f: Facet)
    requires Repair(f).Some?
    ensures Repair(Repair(f).value) == Repair(f)
  {
    RepairFinite(f);
  }

  /** The normal plays no part in the repair: changing it only changes the normal of the result. */
  lemma RepairIgnoresNormal(f: Facet, n: Vec3)
    ensures Repair(f.(normal := n)).Some? <==> Repair(f).Some?
    ensures Repair(f).Some? ==> Repair(f.(normal := n)).value == Repair(f).value.(normal := n)
  {
  }

  // ---------------------------------------------------------- binary files

  /** Binary record i after the record start p. */
  function Record(d: seq<byte>, p: nat, i: nat): Option<Facet> {
    BinaryFacetAt(d, p + BINARY_RECORD_SIZE * i)
  }

  /**
   * n binary records from p decode exactly when each of the first n is
   * whole and has a finite vertex; the soup then holds n triangles, one per
   * record.  Records past the n-th are never read, and a count that reaches
   * past the end of the data fails.
   */
  lemma BinarySoup(d: seq<byte>, p: nat, n: nat)
    ensures var r := BuildSoup(BinaryFacets(d, p, n));
            (r.Success? <==> forall i :: 0 <= i < n ==> Usable(Record(d, p, i))) &&
            (r.Success? ==>
               |r.value.faces| == n && |r.value.positions| == 3 * n &&
               forall i :: 0 <= i < n ==> Usable(Record(d, p, i)) && HoldsTriangle(r.value, i, Repair(Record(d, p, i).value).value))
    ensures n > 0 && |d| < p + BINARY_RECORD_SIZE * (n - 1) + BINARY_FACET_FLOATS_SIZE ==>
              BuildSoup(BinaryFacets(d, p, n)).Failure?
  {
    var fs := BinaryFacets(d, p, n);
    SoupUpToSpec(fs, n);
    forall i | 0 <= i < n
      ensures fs[i] == Record(d, p, i)
    {
    }
    if n > 0 && |d| < p + BINARY_RECORD_SIZE * (n - 1) + BINARY_FACET_FLOATS_SIZE {
      assert !Usable(fs[n - 1]);
    }
  }

  /** DecodeInternal after ParseHeader(false): its error, or the binary records it counted. */
  lemma DecodeByHeader(d: seq<byte>, stof: FloatParser)
    ensures var h := ParseHeaderSpec(d, 0, false, 0);
            (h.status.IoError? ==> DecodeSpec(d, stof) == Failure(h.status.message)) &&
            (h.status.Ok? && h.isBinary ==> DecodeSpec(d, stof) == BuildSoup(BinaryFacets(d, h.pos, h.numFaces)))
  {
  }

  /** The five-byte tag after the leading whitespace is there and is not "solid". */
  predicate NotSolid(d: seq<byte>) {
    var s := SkipWs(d, 0);
    s + 5 <= |d| && d[s..s + 5] != SOLID
  }

  /** A file whose tag is not "solid" is decoded from the records counted at offset 80. */
  lemma DecodeBinaryFile(d: seq<byte>, stof: FloatParser)
    requires NotSolid(d) && BINARY_FACES_OFFSET <= |d|
    ensures DecodeSpec(d, stof) == BuildSoup(BinaryFacets(d, BINARY_FACES_OFFSET, FromLittleEndian32(d[80..84]) as nat))
  {
    DecodeByHeader(d, stof);
  }

  /** A file without the five-byte tag after its whitespace is an invalid header. */
  lemma DecodeShortTag(d: seq<byte>, stof: FloatParser)
    requires |d| < SkipWs(d, 0) + 5
    ensures DecodeSpec(d, stof) == Failure(InvalidHeader)
  {
    HeaderShort(d);
    DecodeByHeader(d, stof);
  }

  lemma HeaderShort(d: seq<byte>)
    requires |d| < SkipWs(d, 0) + 5
    ensures ParseHeaderSpec(d, 0, false, 0).status == IoError(InvalidHeader)
  {
  }

  /** A file whose tag is not "solid" but too short for the face count is an invalid binary header. */
  lemma DecodeShortBinary(d: seq<byte>, stof: FloatParser)
    requires NotSolid(d) && |d| < BINARY_FACES_OFFSET
    ensures DecodeSpec(d, stof) == Failure(InvalidBinaryHeader)
  {
    DecodeByHeader(d, stof);
  }

  // ----------------------------------------------------------- ASCII faces

  /** Every slot from k to e accepts the token at its place, counting tokens from p. */
  predicate AcceptedBetween(d: seq<byte>, p: nat, stof: FloatParser, slots: seq<Slot>, k: nat, e: nat)
    requires k <= e <= |slots|
  {
    forall j :: k <= j < e ==> SlotAccepts(slots[j], TokenAt(d, p, j), stof)
  }

  /** The float of slot k when it is a Number slot, read from the token at place k. */
  function SlotNumbers(d: seq<byte>, p: nat, stof: FloatParser, slots: seq<Slot>, k: nat): seq<Float32>
    requires k < |slots| && SlotAccepts(slots[k], TokenAt(d, p, k), stof)
  {
    if slots[k].Number? then [ParseFloat(stof, TokenAt(d, p, k)).value] else []
  }

  /** The floats of the Number slots from k on, read from the tokens at their places. */
  function NumbersOf(d: seq<byte>, p: nat, stof: FloatParser, slots: seq<Slot>, k: nat): (r: seq<Float32>)
    requires k <= |slots| && AcceptedBetween(d, p, stof, slots, k, |slots|)
    ensures |r| == NumberSlotsFrom(slots, k)
    decreases |slots| - k
  {
    if k == |slots| then []
    else
      assert SlotAccepts(slots[k], TokenAt(d, p, k), stof);
      SlotNumbers(d, p, stof, slots, k) + NumbersOf(d, p, stof, slots, k + 1)
  }

  /** Slot j is the first slot from k on that does not accept the token at its place. */
  predicate FirstRejected(d: seq<byte>, p: nat, stof: FloatParser, slots: seq<Slot>, k: nat, j: nat) {
    k <= j < |slots| && AcceptedBetween(d, p, stof, slots, k, j) && !SlotAccepts(slots[j], TokenAt(d, p, j), stof)
  }

  /** One slot of the match, at token place k. */
  lemma MatchStepAt(d: seq<byte>, p: nat, stof: FloatParser, slots: seq<Slot>, k: nat)
    requires k < |slots|
    ensures !SlotAccepts(slots[k], TokenAt(d, p, k), stof) ==>
              MatchFrom(d, TokPos(d, p, k), stof, slots, k) == Mismatch(k, TokPos(d, p, k + 1))
    ensures SlotAccepts(slots[k], TokenAt(d, p, k), stof) ==>
              MatchFrom(d, TokPos(d, p, k), stof, slots, k) ==
              Prefixed(SlotNumbers(d, p, stof, slots, k), MatchFrom(d, TokPos(d, p, k + 1), stof, slots, k + 1))
  {
    var q := TokPos(d, p, k);
    assert TokPos(d, p, k + 1) == NextPos(d, q);
    if slots[k].Word? {
      MatchWordStep(d, q, stof, slots, k);
      PrefixedNothing(MatchFrom(d, NextPos(d, q), stof, slots, k + 1));
    } else {
      MatchNumberStep(d, q, stof, slots, k);
    }
  }

  /** The slots from k all accept when slot k does and the slots after it do. */
  lemma AcceptedFrom(d: seq<byte>, p: nat, stof: FloatParser, slots: seq<Slot>, k: nat)
    requires k < |slots|
    ensures AcceptedBetween(d, p, stof, slots, k, |slots|) <==>
            SlotAccepts(slots[k], TokenAt(d, p, k), stof) && AcceptedBetween(d, p, stof, slots, k + 1, |slots|)
  {
  }

  /** The slots from k match exactly when each accepts the token at its place. */
  lemma {:induction false} MatchAccepts(d: seq<byte>, p: nat, stof: FloatParser, slots: seq<Slot>, k: nat)
    requires k <= |slots|
    ensures MatchFrom(d, TokPos(d, p, k), stof, slots, k).Matched? <==> AcceptedBetween(d, p, stof, slots, k, |slots|)
    decreases |slots| - k
  {
    if k < |slots| {
      MatchAccepts(d, p, stof, slots, k + 1);
      MatchStepAt(d, p, stof, slots, k);
      AcceptedFrom(d, p, stof, slots, k);
    }
  }

  /** A match ends after the last slot's token, with the floats of the Number slots in order. */
  lemma {:induction false} MatchNumbers(d: seq<byte>, p: nat, stof: FloatParser, slots: seq<Slot>, k: nat)
    requires k <= |slots| && AcceptedBetween(d, p, stof, slots, k, |slots|)
    ensures MatchFrom(d, TokPos(d, p, k), stof, slots, k) == Matched(TokPos(d, p, |slots|), NumbersOf(d, p, stof, slots, k))
    decreases |slots| - k
  {
    if k < |slots| {
      assert AcceptedBetween(d, p, stof, slots, k + 1, |slots|);
      MatchNumbers(d, p, stof, slots, k + 1);
      MatchStepAt(d, p, stof, slots, k);
    }
  }

  /** A mismatch is at the first slot that rejects its token, with the cursor after that token. */
  lemma {:induction false} MatchRejects(d: seq<byte>, p: nat, stof: FloatParser, slots: seq<Slot>, k: nat)
    requires k <= |slots|
    ensures MatchFrom(d, TokPos(d, p, k), stof, slots, k).Mismatch? ==>
              FirstRejected(d, p, stof, slots, k, MatchFrom(d, TokPos(d, p, k), stof, slots, k).slot) &&
              MatchFrom(d, TokPos(d, p, k), stof, slots, k).pos == TokPos(d, p, MatchFrom(d, TokPos(d, p, k), stof, slots, k).slot + 1)
    decreases |slots| - k
  {
    if k < |slots| {
      MatchRejects(d, p, stof, slots, k + 1);
      MatchStepAt(d, p, stof, slots, k);
      if !SlotAccepts(slots[k], TokenAt(d, p, k), stof) {
        assert AcceptedBetween(d, p, stof, slots, k, k);
      } else if MatchFrom(d, TokPos(d, p, k + 1), stof, slots, k + 1).Mismatch? {
        RejectedLater(d, p, stof, slots, k, MatchFrom(d, TokPos(d, p, k + 1), stof, slots, k + 1).slot);
      }
    }
  }

  /** Slot k accepts, so a first rejection after it is also the first from k. */
  lemma RejectedLater(d: seq<byte>, p: nat, stof: FloatParser, slots: seq<Slot>, k: nat, j: nat)
    requires k < |slots| && SlotAccepts(slots[k], TokenAt(d, p, k), stof)
    requires FirstRejected(d, p, stof, slots, k + 1, j)
    ensures FirstRejected(d, p, stof, slots, k, j)
  {
    assert AcceptedBetween(d, p, stof, slots, k + 1, j);
  }

  /**
   * ParseAsciiFace returns a triangle exactly for the 21 tokens
   * facet normal f f f outer loop vertex f f f vertex f f f vertex f f f endloop endfacet,
   * with the normal and vertices from the twelve floats in file order, and
   * the cursor after "endfacet".
   */
  lemma AsciiFaceAccepts(d: seq<byte>, p: nat, stof: FloatParser)
    ensures ParseAsciiFaceSpec(d, p, stof).facet.Some? <==> AcceptedBetween(d, p, stof, FACET_SLOTS, 0, 21)
    ensures AcceptedBetween(d, p, stof, FACET_SLOTS, 0, 21) ==>
              NumberSlotsFrom(FACET_SLOTS, 0) == 12 &&
              ParseAsciiFaceSpec(d, p, stof) ==
              AsciiFaceOutcome(Ok, Some(FacetOfNumbers(NumbersOf(d, p, stof, FACET_SLOTS, 0))), TokPos(d, p, 21))
  {
    FacetSlotsWords();
    NumberSlotCount();
    MatchAccepts(d, p, stof, FACET_SLOTS, 0);
    assert TokPos(d, p, 0) == p;
    if AcceptedBetween(d, p, stof, FACET_SLOTS, 0, 21) {
      MatchNumbers(d, p, stof, FACET_SLOTS, 0);
      assert TokenAt(d, p, 0) == FACET;
    }
  }

  /** ParseAsciiFace returns OK without a triangle exactly at "endsolid". */
  lemma AsciiFaceEnd(d: seq<byte>, p: nat, stof: FloatParser)
    ensures ParseAsciiFaceSpec(d, p, stof).status.Ok? && ParseAsciiFaceSpec(d, p, stof).facet.None? <==>
            TokenAt(d, p, 0) == ENDSOLID
  {
    FacetSlotsWords();
    NumberSlotCount();
    assert TokPos(d, p, 0) == p;
  }

  /**
   * Every other input fails at the first token that does not fit, with
   * InvalidFloat at a float and InvalidFacet at a keyword.
   */
  lemma AsciiFaceRejects(d: seq<byte>, p: nat, stof: FloatParser)
    ensures var r := ParseAsciiFaceSpec(d, p, stof);
            r.status.IoError? ==>
              exists j: nat :: FirstRejected(d, p, stof, FACET_SLOTS, 0, j) && r.pos == TokPos(d, p, j + 1) &&
                r.status.message == (if FACET_SLOTS[j].Number? then InvalidFloat else InvalidFacet)
  {
    MatchRejects(d, p, stof, FACET_SLOTS, 0);
    assert TokPos(d, p, 0) == p;
    var m := MatchFrom(d, p, stof, FACET_SLOTS, 0);
    if ParseAsciiFaceSpec(d, p, stof).status.IoError? {
      assert m.Mismatch?;
      assert FirstRejected(d, p, stof, FACET_SLOTS, 0, m.slot);
    }
  }

  /** The ASCII storage of four vectors per facet holds facet i at 4i..4i+3. */
  lemma {:induction false} FlattenAt(fs: seq<Facet>, i: nat)
    requires i < |fs|
    ensures Flatten(fs)[4 * i] == fs[i].normal && Flatten(fs)[4 * i + 1] == fs[i].v0
    ensures Flatten(fs)[4 * i + 2] == fs[i].v1 && Flatten(fs)[4 * i + 3] == fs[i].v2
    decreases |fs|
  {
    if i < |fs| - 1 {
      FlattenAt(fs[..|fs| - 1], i);
    }
  }

  /** Reading the storage back four vectors at a time gives the facets stored. */
  lemma StoredFlattened(fs: seq<Facet>)
    ensures |StoredFacets(Flatten(fs))| == |fs|
    ensures forall i :: 0 <= i < |fs| ==> StoredFacets(Flatten(fs))[i] == Some(fs[i])
  {
    forall i | 0 <= i < |fs|
      ensures StoredFacets(Flatten(fs))[i] == Some(fs[i])
    {
      FlattenAt(fs, i);
    }
  }

  // ---------------------------------------------------------- ASCII solids

  /** A broken first solid means the file is read again as binary, from the count at offset 80. */
  lemma FirstSolidFallsBack(d: seq<byte>, p: nat, stof: FloatParser)
    requires p <= |d| && AsciiFacesSpec(d, p, stof, []).status.IoError?
    ensures AsciiSolidsSpec(d, p, stof, true, []).firstSolidError
    ensures AsciiDecodeSpec(d, p, stof) ==
              if |d| < BINARY_FACES_OFFSET then Failure(InvalidBinaryHeader)
              else BuildSoup(BinaryFacets(d, BINARY_FACES_OFFSET, FromLittleEndian32(d[80..84]) as nat))
  {
  }

  /** A first solid that parses keeps the file ASCII, and its facets are among those decoded. */
  lemma FirstSolidKept(d: seq<byte>, p: nat, stof: FloatParser)
    requires p <= |d| && AsciiFacesSpec(d, p, stof, []).status.Ok?
    ensures !AsciiSolidsSpec(d, p, stof, true, []).firstSolidError
    ensures AsciiFacesSpec(d, p, stof, []).facets <= AsciiSolidsSpec(d, p, stof, true, []).facets
  {
  }

  /**
   * An error in a later solid is not fatal: no fallback to binary, the facets
   * collected up to it are kept, and the next header check decides whether
   * another solid follows.
   */
  lemma LaterSolidErrorKept(d: seq<byte>, p: nat, stof: FloatParser, acc: seq<Facet>)
    requires p <= |d| && AsciiFacesSpec(d, p, stof, acc).status.IoError?
    ensures var r := AsciiSolidsSpec(d, p, stof, false, acc);
            !r.firstSolidError && AsciiFacesSpec(d, p, stof, acc).facets <= r.facets
  {
  }

  /**
   * Without a fallback, the mesh holds every valid facet of every solid, in
   * order and repaired: it decodes exactly when each has a finite vertex.
   */
  lemma AsciiSoup(d: seq<byte>, p: nat, stof: FloatParser)
    requires p <= |d| && !AsciiSolidsSpec(d, p, stof, true, []).firstSolidError
    ensures var fs := AsciiSolidsSpec(d, p, stof, true, []).facets;
            var r := AsciiDecodeSpec(d, p, stof);
            (r.Success? <==> forall i :: 0 <= i < |fs| ==> Repair(fs[i]).Some?) &&
            (r.Success? ==>
               |r.value.faces| == |fs| && |r.value.positions| == 3 * |fs| &&
               forall i :: 0 <= i < |fs| ==> Repair(fs[i]).Some? && HoldsTriangle(r.value, i, Repair(fs[i]).value))
  {
    var fs := AsciiSolidsSpec(d, p, stof, true, []).facets;
    var stored := StoredFacets(Flatten(fs));
    StoredFlattened(fs);
    SoupUpToSpec(stored, |fs|);
    forall i | 0 <= i < |fs|
      ensures Usable(stored[i]) <==> Repair(fs[i]).Some?
    {
    }
  }

  /** A mesh effect agrees with its outcome: a soup that builds is stored whole, and a failing one in part. */
  predicate EffectAgrees(e: MeshEffect, r: Result<Soup>) {
    (e.Untouched? ==> r.Failure?) &&
    (r.Success? <==> e.Sized? && |e.stored.faces| == e.numFaces) &&
    (r.Success? ==> e.stored == r.value)
  }

  lemma BinaryEffectAgrees(d: seq<byte>, p: nat, n: nat)
    ensures EffectAgrees(Sized(n, StoredSoup(BinaryFacets(d, p, n))), BuildSoup(BinaryFacets(d, p, n)))
  {
    StoredSoupAgrees(BinaryFacets(d, p, n));
  }

  /**
   * What decoding leaves in the mesh agrees with its status: the mesh is
   * untouched only after a failure, and holds every triangle sized for
   * exactly when decoding succeeds, the stored soup then being the result.
   */
  lemma DecodeEffectAgrees(d: seq<byte>, stof: FloatParser)
    ensures EffectAgrees(DecodeEffect(d, stof), DecodeSpec(d, stof))
  {
    var h := ParseHeaderSpec(d, 0, false, 0);
    if h.status.Ok? {
      if h.isBinary {
        BinaryEffectAgrees(d, h.pos, h.numFaces);
      } else {
        var a := AsciiSolidsSpec(d, h.pos, stof, true, []);
        if a.firstSolidError {
          var g := ParseHeaderSpec(d, a.pos, true, 0);
          if g.status.Ok? {
            BinaryEffectAgrees(d, g.pos, g.numFaces);
          }
        } else {
          StoredSoupAgrees(StoredFacets(Flatten(a.facets)));
        }
      }
    }
  }
}
