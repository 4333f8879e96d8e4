# STL reader and writer, and explicit position quantization, of a Draco fork

This project models three pieces of a fork of Draco, written in C++, and proves properties of them in Dafny.

- **StlDecoder** (`src/draco/io/stl_decoder.cc`) reads an STL file into a triangle-soup mesh. The file may be ASCII or binary.
  - `ParseHeader` decides the format. The input is ASCII when it starts with `solid` and a `facet` token follows within five tokens.
  - Binary input is read from the little-endian face count at offset 80, then from 50-byte records.
  - ASCII input is read facet by facet, over as many solids as the file holds. When the first solid is broken, the whole file is read again as binary.
  - Every triangle becomes three fresh points. A non-finite vertex is replaced by the first finite vertex of its triangle; a triangle with no finite vertex is an error.
- **StlEncoder** (`src/draco/io/stl_encoder.cc`) writes a mesh as a binary STL file:
  - an 80-byte header, then a uint32 face count;
  - per face: the normal, the three corner positions, and two zero bytes.
- **MeshQuantizationCarbon** chooses explicit quantization parameters for a mesh's positions:
  - the number of bits;
  - the range;
  - the origin, which is the minimum corner.

  It comes in two variants:
  - the library one (`src/draco/compression/mesh/mesh_quantization_carbon.{h,cc}`);
  - the JavaScript bindings' one (`src/draco/javascript/emscripten/draco_embind_encoder.cc`, lines 27-86). This one uses a different bit formula, has no lower clamp, and has an inverted `IsSet`.

## Modelling approach

The form of the model follows the code.

**Decoder and encoder.** They are classes whose methods update their fields and the mesh in place. Each method is proved against a function of the input bytes or the mesh. These functions live in `StlDecoderSpec` and `StlEncoderSpec`, and lemmas about them live in `StlDecoderProperties` and `StlRoundTrip`.

- The decoder's `DecoderBuffer` is a value: a byte string and a cursor, threaded through the parse steps.
- Floats are IEEE 754 binary32 bit patterns. No arithmetic is ever done on them: `isfinite` looks only at the exponent field (section 3.4 of IEEE 754-2008).
- `std::stof` is a parameter. It is a table from the tokens it accepts to the float each one gives.
- The encoder's normal for a mesh without normals (a normalised cross product) is also a parameter.

**Quantization.** The coordinates and `grid_delta` are exact reals.

- `ceilf(log(x)/log(2))` is the least integer `b` with `x <= 2^b` (`CeilLog2`).
- `grid_delta * 2^b` is computed by repeated doubling or halving (`ScaledPow2`). It is proved equal to the product.
- Both `FillFromMesh` methods update the object's fields. They are proved against `CarbonFill` and `EmbindFill`, which compute the same parameters as values.

## Model

| member | source | states |
|---|---|---|
| Bytes.LittleEndian32RoundTrip | src/draco/io/stl_encoder.cc:85 | The four little-endian bytes written for a uint32 read back as the same word. The face count written here is the one the decoder reads. |
| Bytes.FloatBytesRoundTrip | src/draco/io/stl_encoder.cc:62-67 | A float's four bytes, as written, read back as the same bit pattern. |
| Bytes.FloatsBytesAppend | src/draco/io/stl_encoder.cc:62-67 | Encoding a float list piece by piece gives the encoding of the whole list. |
| DecoderBuffers.Init | src/draco/io/stl_decoder.cc:47 | A buffer initialised on some bytes reads them from offset 0, with all of them remaining. |
| DecoderBuffers.Decode | src/draco/io/stl_decoder.cc:111 | Reading n bytes succeeds exactly when n bytes remain. It then returns those bytes and moves the cursor by n. On failure the cursor stays. |
| DecoderBuffers.DecodeUint32 | src/draco/io/stl_decoder.cc:97-100 | Reading a uint32 succeeds exactly when four bytes remain. It then returns their little-endian value and moves the cursor by 4. On failure the cursor stays. |
| DecoderBuffers.Advance | src/draco/io/stl_decoder.cc:112 | Skipping moves the cursor by n, without checking the end of the data. |
| DecoderBuffers.StartDecodingFrom | src/draco/io/stl_decoder.cc:92 | The cursor is set to the given offset, whatever it was. |
| ParserUtils.SkipWhitespace | src/draco/io/stl_decoder.cc:60 | The cursor moves to the first non-whitespace byte at or after it. |
| ParserUtils.ParseString | src/draco/io/stl_decoder.cc:81 | The token is the longest run of non-whitespace bytes after the whitespace, and the cursor ends after it. At the end of the data the token is empty. |
| Meshes.Mesh.SetNumFaces | src/draco/io/stl_decoder.cc:230 | The face list takes the new length and keeps the faces that remain. |
| Meshes.Mesh.SetNumPoints | src/draco/io/stl_decoder.cc:231 | The point count is set to the requested value. |
| Meshes.Mesh.AddPositionAttribute | src/draco/io/stl_decoder.cc:233-237 | The position attribute is set to one value per point with identity mapping, replacing any earlier one. |
| Meshes.Mesh.SetPositionValue | src/draco/io/stl_decoder.cc:268-270 | Exactly one position value changes. |
| Meshes.Mesh.SetFace | src/draco/io/stl_decoder.cc:271-273 | Exactly one face changes. |
| EncoderBuffers.EncoderBuffer.Encode | src/draco/io/stl_encoder.cc:83 | The bytes are appended to the buffer. |
| StlDecoderSpec.ParseFloat | src/draco/io/stl_decoder.cc:143-149 | A token gives a float exactly when stof accepts it. The float is the one stof returns. |
| StlDecoderSpec.ScanForFacet | src/draco/io/stl_decoder.cc:76-90 | The seek point lies between the start and the final cursor. When the file still looks ASCII, the seek point lies before the end of the data. |
| StlDecoderSpec.ScanFindsFacet | src/draco/io/stl_decoder.cc:86-92 | When the scan keeps the file ASCII, the token at the seek point is "facet". |
| StlDecoderSpec.BinaryHeader | src/draco/io/stl_decoder.cc:95-103 | The binary header succeeds exactly when 84 bytes are there. The face count is then the little-endian word at offset 80, and the cursor is at 84. Otherwise the error is "Binary STL file has invalid header." and the count is unchanged. |
| StlDecoderSpec.ParseHeaderSpec | src/draco/io/stl_decoder.cc:59-105 | An ASCII header ends inside the data, at least five bytes after it began. |
| StlDecoderSpec.TaggedHeader | src/draco/io/stl_decoder.cc:62-70 | An ASCII header that starts with the five-byte tag ends inside the data, at or after the tag. |
| StlDecoderSpec.SolidHeader | src/draco/io/stl_decoder.cc:72-94 | The ASCII branch after "solid" ends inside the data, at or after where it began. |
| StlDecoderSpec.SolidHeaderFromScan | src/draco/io/stl_decoder.cc:91-103 | After "solid" the header is ASCII at the scan's seek point, or binary from offset 80, as the token scan decides. |
| StlDecoderSpec.HeaderFacesIrrelevant | src/draco/io/stl_decoder.cc:74-101 | The header's status, format and cursor do not depend on num_stl_faces_ on entry. Its new count does not either, when the header succeeds. |
| StlDecoderSpec.NumberSlotCount | src/draco/io/stl_decoder.cc:162-177 | The facet grammar holds exactly twelve floats. |
| StlDecoderSpec.MatchFrom | src/draco/io/stl_decoder.cc:162-177 | Matching the grammar never moves the cursor backwards, and it stays inside the data. A full match collects one float per float slot; a mismatch names the slot where it stopped. |
| StlDecoderSpec.MatchWordStep | src/draco/io/stl_decoder.cc:132-139 | At a keyword slot, a token equal to the keyword moves on to the next slot. Any other token is a mismatch, with the cursor placed after that token. |
| StlDecoderSpec.MatchNumberStep | src/draco/io/stl_decoder.cc:140-153 | At a float slot, a token stof accepts adds its float in front of the rest. A token stof rejects is a mismatch, with the cursor placed after that token. |
| StlDecoderSpec.ParseAsciiFaceSpec | src/draco/io/stl_decoder.cc:121-180 | The cursor only moves forward. A triangle comes only with an OK status, after at least one byte. |
| StlDecoderSpec.FacetNumbersRoundTrip | src/draco/io/stl_decoder.cc:163-177 | A facet's twelve floats, read back in file order, give the normal and the three vertices. |
| StlDecoderSpec.FaceMatches | src/draco/io/stl_decoder.cc:162-179 | A facet whose every slot matches comes back as a valid triangle, with the cursor after "endfacet". |
| StlDecoderSpec.FaceFails | src/draco/io/stl_decoder.cc:155-177 | A facet that stops matching fails, with the error of the slot where it stopped and no triangle. |
| StlDecoderSpec.AsciiFacesSpec | src/draco/io/stl_decoder.cc:202-216 | One solid's face loop keeps the facets read before it and adds to them. Its cursor moves only forward. |
| StlDecoderSpec.AsciiSolidsSpec | src/draco/io/stl_decoder.cc:201-222 | The solids loop only adds facets. error_while_parsing_ascii is set only within the first solid. |
| StlDecoderSpec.Flatten | src/draco/io/stl_decoder.cc:211-214 | tmp_three_vec_storage holds four vectors per facet. |
| StlDecoderSpec.SoupUpTo | src/draco/io/stl_decoder.cc:239-274 | After k facets the soup has k faces and 3k points, and face i is the points 3i, 3i+1 and 3i+2. |
| StlDecoderSpec.SoupFailurePersists | src/draco/io/stl_decoder.cc:241-258 | The first failing facet decides the outcome; later facets are never read. |
| StlDecoderSpec.SoupExtends | src/draco/io/stl_decoder.cc:266-273 | A facet that can be repaired adds one face and its three repaired vertices. |
| StlDecoderSpec.SoupIncomplete | src/draco/io/stl_decoder.cc:241-243 | A binary record cut short ends decoding with "Incomplete STL facet description.". |
| StlDecoderSpec.SoupAllNan | src/draco/io/stl_decoder.cc:257-258 | A triangle with no finite vertex ends decoding with "Every vertex in a triangle is NaN.". |
| StlDecoderSpec.BinaryFacets | src/draco/io/stl_decoder.cc:239-243 | Binary facet i is the record at 50i bytes after the first one. |
| StlDecoderSpec.StoredFacets | src/draco/io/stl_decoder.cc:245-248 | ASCII facet i is made of storage vectors 4i to 4i+3: normal, v0, v1, v2. |
| StlDecoderSpec.MeshFacetAt | src/draco/io/stl_decoder.cc:239-249 | Facet i of the mesh loop is the binary record or the stored vectors, matching the format. |
| StlDecoderSpec.StoredUpTo | src/draco/io/stl_decoder.cc:239-274 | What the loop has stored within the first k facets is the soup of a prefix that builds. When that prefix is shorter than k, the facet right after it fails. |
| StlDecoderSpec.StoredSoupAgrees | src/draco/io/stl_decoder.cc:239-274 | The loop succeeds exactly when it stores a triangle for every facet, and the stored soup is then its result. |
| StlDecoderSpec.StoredAtFailure | src/draco/io/stl_decoder.cc:241-258 | A loop that stops at facet i, by a short record or an all-NaN triangle, has stored exactly the triangles of facets 0 to i-1. |
| StlDecoding.ExpectString | src/draco/io/stl_decoder.cc:132-139 | The ExpectString lambda succeeds exactly when the next token is the expected keyword. It then continues the grammar at the next slot; otherwise it fails with "Invalid STL facet description.". |
| StlDecoding.ReadFloat | src/draco/io/stl_decoder.cc:143-150 | One float of FillThreeVec: it is read when stof accepts the token. Otherwise it fails with "Invalid float in STL facet description.". |
| StlDecoding.FillThreeVec | src/draco/io/stl_decoder.cc:140-153 | Three floats are read in order, or the match fails with the invalid-float error at the first token that is not a float. |
| StlDecoding.ExpectVertex | src/draco/io/stl_decoder.cc:167-169 | "vertex" and three floats, or the failure where they stop matching. |
| StlDecoding.ExpectLoop | src/draco/io/stl_decoder.cc:165-176 | "outer loop", three vertices and "endloop", collected in order, or the failure where they stop matching. |
| StlDecoding.ExpectFacetBody | src/draco/io/stl_decoder.cc:162-177 | Everything after "facet" fits the grammar and gives the facet, or fails where the grammar says. |
| StlDecoding.ScanForFacetToken | src/draco/io/stl_decoder.cc:76-90 | The do-while token loop of ParseHeader computes ScanForFacet: the format verdict, the seek point and the cursor. |
| StlDecoding.ReadHeader | src/draco/io/stl_decoder.cc:59-105 | ParseHeader on a buffer value computes ParseHeaderSpec. |
| StlDecoding.ReadTaggedHeader | src/draco/io/stl_decoder.cc:65-70 | Reading the five-byte tag computes TaggedHeader. With fewer than five bytes left, the error is "STL file has invalid header.". |
| StlDecoding.ScanAsciiHeader | src/draco/io/stl_decoder.cc:72-94 | After "solid", the header is ASCII at the "facet" token when the scan keeps the file ASCII, and binary otherwise. |
| StlDecoding.ReadFaceCount | src/draco/io/stl_decoder.cc:95-103 | The binary branch computes BinaryHeader. |
| StlDecoding.RepairFacet | src/draco/io/stl_decoder.cc:253-264 | The vertex repair succeeds exactly when Repair does, and returns the repaired vertices. |
| StlDecoding.StoreTriangle | src/draco/io/stl_decoder.cc:266-273 | Points 3i, 3i+1 and 3i+2 get the three vertices, face i joins them, and the prefixes before them are kept. |
| StlDecoding.StlDecoder.constructor | src/draco/io/stl_decoder.cc:28-32 | num_stl_faces_ starts at 0, with no output mesh and an empty buffer. |
| StlDecoding.StlDecoder.DecodeFromFile | src/draco/io/stl_decoder.cc:34-51 | A file that is missing or empty gives IO_ERROR and changes nothing. Any other file is decoded with the DecodeSpec status; on success the mesh holds exactly that soup. After any outcome the mesh is as DecodeEffect says: untouched when a header fails, and otherwise sized to num_stl_faces_ faces and 3·num_stl_faces_ points, with the triangles before the failing facet stored. |
| StlDecoding.StlDecoder.DecodeFromBuffer | src/draco/io/stl_decoder.cc:53-57 | The unread part of the buffer is decoded with the DecodeSpec status, and on success the mesh holds that soup. On failure the mesh is as DecodeEffect says: untouched after a header failure (lines 190-191, 224-225), or sized and partly filled after a short record or an all-NaN triangle. |
| StlDecoding.StlDecoder.DecodeInternal | src/draco/io/stl_decoder.cc:182-292 | The status is that of DecodeSpec on the buffer's data. On success the mesh holds exactly the soup: the faces, one point per vertex, and an identity-mapped position attribute. In every case the mesh is as DecodeEffect says: untouched when ParseHeader fails, and otherwise sized to num_stl_faces_ with the triangles before the failing facet stored. |
| StlDecoding.StlDecoder.DecodeAscii | src/draco/io/stl_decoder.cc:192-229 | After an ASCII header, the status is AsciiDecodeSpec: the solids' facets, or the binary fallback. The mesh is as AsciiDecodeEffect says: untouched when the fallback header fails, and otherwise sized with the triangles before the failing facet stored. |
| StlDecoding.StlDecoder.DecodeBinaryFallback | src/draco/io/stl_decoder.cc:223-225 | The fallback reads the file as binary with ParseHeader(true), then reads its records. The mesh is untouched when ParseHeader(true) fails. Otherwise it is sized to the count at offset 80, with the records before the failing one stored. |
| StlDecoding.StlDecoder.ParseAsciiSolids | src/draco/io/stl_decoder.cc:201-222 | The while(1) loop over solids computes AsciiSolidsSpec: whether the first solid failed, the cursor, and every facet read, flattened into the storage. |
| StlDecoding.StlDecoder.ParseAsciiFaces | src/draco/io/stl_decoder.cc:202-216 | The inner do-while loop computes AsciiFacesSpec: the last status, the cursor, the facets, and the storage holding them. |
| StlDecoding.StlDecoder.FillMesh | src/draco/io/stl_decoder.cc:230-274 | The mesh-building loop's status is that of BuildSoup over the facets it reads, and on success the mesh holds exactly that soup. In every case the mesh has num_stl_faces_ faces and 3·num_stl_faces_ points, and holds StoredSoup in front: the triangles before the first failing facet. |
| StlDecoding.StlDecoder.FillFace | src/draco/io/stl_decoder.cc:239-273 | One pass stores triangle i and extends the soup by it. Otherwise it returns the failure of the whole loop and leaves the mesh as it was. |
| StlDecoding.StlDecoder.ParseHeader | src/draco/io/stl_decoder.cc:59-105 | The status, is_binary, the new cursor and num_stl_faces_ are those of ParseHeaderSpec. |
| StlDecoding.StlDecoder.ParseBinaryFace | src/draco/io/stl_decoder.cc:107-119 | When 48 bytes remain, it reads the record's facet and moves the cursor by 50. Otherwise it fails with "Incomplete STL facet description." and the cursor stays. |
| StlDecoding.StlDecoder.ParseAsciiFace | src/draco/io/stl_decoder.cc:121-180 | It computes ParseAsciiFaceSpec: the status, the cursor, and is_valid_triangle exactly when a facet is returned. |
| StlDecoderProperties.SkipWsTwice | src/draco/io/stl_decoder.cc:79-81 | Skipping whitespace a second time does not move the cursor. |
| StlDecoderProperties.EmptyTokenAtEnd | src/draco/io/stl_decoder.cc:86 | An empty token is read only at the end of the data. |
| StlDecoderProperties.ScanStep | src/draco/io/stl_decoder.cc:78-90 | One round of the token loop: "facet" stops it with the file still ASCII. Another non-empty token goes on to the next round. An empty token, or a counter past 4, makes the file binary. |
| StlDecoderProperties.ScanStopsAtFacet | src/draco/io/stl_decoder.cc:78-92 | The file stays ASCII only when one of the tokens the loop may still read is "facet". Decoding resumes at that token. |
| StlDecoderProperties.ScanMissesFacet | src/draco/io/stl_decoder.cc:86-90 | When the loop gives up, none of the tokens it could still read is "facet". |
| StlDecoderProperties.HeaderIsAscii | src/draco/io/stl_decoder.cc:59-94 | ParseHeader(false) reads the input as ASCII exactly when it starts with "solid" and "facet" is one of the next five tokens. |
| StlDecoderProperties.HeaderIsBinary | src/draco/io/stl_decoder.cc:62-103 | Any other input is binary. With no five-byte tag it is "STL file has invalid header."; shorter than 84 bytes it is "Binary STL file has invalid header."; otherwise the count is the word at offset 80. |
| StlDecoderProperties.SoupUpToSpec | src/draco/io/stl_decoder.cc:239-274 | The first k facets build a soup exactly when each is present and has a finite vertex. Triangle i then holds facet i after the repair. |
| StlDecoderProperties.RepairFinite | src/draco/io/stl_decoder.cc:253-264 | The repair fails exactly when no vertex is finite. Otherwise all three vertices it leaves are finite, and the normal is kept. |
| StlDecoderProperties.RepairReplaces | src/draco/io/stl_decoder.cc:260-263 | Finite vertices are kept, and each non-finite one becomes the first finite vertex. |
| StlDecoderProperties.RepairIdempotent | src/draco/io/stl_decoder.cc:253-264 | Repairing a repaired triangle changes nothing. |
| StlDecoderProperties.RepairIgnoresNormal | src/draco/io/stl_decoder.cc:250-255 | The normal takes no part in the repair: it is not checked for NaN. |
| StlDecoderProperties.BinarySoup | src/draco/io/stl_decoder.cc:239-274 | n binary records decode exactly when each is whole and has a finite vertex, giving n triangles, one per record. A count that runs past the data fails. |
| StlDecoderProperties.DecodeByHeader | src/draco/io/stl_decoder.cc:190-191 | A failing header is the result. A binary header leads to exactly the records it counts. |
| StlDecoderProperties.DecodeBinaryFile | src/draco/io/stl_decoder.cc:95-103 | A file whose tag is not "solid" decodes from the records counted at offset 80. |
| StlDecoderProperties.DecodeShortTag | src/draco/io/stl_decoder.cc:66-68 | Fewer than five bytes after the leading whitespace: "STL file has invalid header.". |
| StlDecoderProperties.HeaderShort | src/draco/io/stl_decoder.cc:66-68 | ParseHeader reports the invalid header when the tag bytes are missing. |
| StlDecoderProperties.DecodeShortBinary | src/draco/io/stl_decoder.cc:98-100 | A file that is not "solid" and is shorter than 84 bytes: "Binary STL file has invalid header.". |
| StlDecoderProperties.MatchAccepts | src/draco/io/stl_decoder.cc:162-177 | The grammar matches exactly when each slot accepts the token at its place. |
| StlDecoderProperties.MatchNumbers | src/draco/io/stl_decoder.cc:162-177 | A match ends after the last slot's token, holding the floats of the float slots in order. |
| StlDecoderProperties.MatchRejects | src/draco/io/stl_decoder.cc:155-177 | A mismatch lies at the first slot that rejects its token, with the cursor after that token. |
| StlDecoderProperties.AsciiFaceAccepts | src/draco/io/stl_decoder.cc:121-180 | ParseAsciiFace returns a triangle exactly for the 21 tokens `facet normal f f f outer loop vertex f f f vertex f f f vertex f f f endloop endfacet`. The normal and vertices come from the twelve floats in order, and the cursor ends after "endfacet". |
| StlDecoderProperties.AsciiFaceEnd | src/draco/io/stl_decoder.cc:159-160 | OK without a triangle happens exactly at "endsolid". |
| StlDecoderProperties.AsciiFaceRejects | src/draco/io/stl_decoder.cc:155-177 | Any other input fails at the first token that does not fit. A bad float gives the invalid-float message; a wrong keyword gives the invalid-facet message. |
| StlDecoderProperties.FlattenAt | src/draco/io/stl_decoder.cc:245-248 | Storage vectors 4i to 4i+3 are facet i's normal, v0, v1 and v2. |
| StlDecoderProperties.StoredFlattened | src/draco/io/stl_decoder.cc:211-214 | Reading the storage back four vectors at a time gives exactly the facets pushed into it. |
| StlDecoderProperties.FirstSolidFallsBack | src/draco/io/stl_decoder.cc:207 | An error in the first solid makes the file binary, decoded from the count at offset 80. |
| StlDecoderProperties.FirstSolidKept | src/draco/io/stl_decoder.cc:207 | A first solid that parses keeps the file ASCII, and its facets are decoded. |
| StlDecoderProperties.LaterSolidErrorKept | src/draco/io/stl_decoder.cc:204-218 | An error in a later solid does not cause the fallback, and the facets read up to it are kept. |
| StlDecoderProperties.AsciiSoup | src/draco/io/stl_decoder.cc:227-274 | Without the fallback, the mesh holds every facet of every solid, in order and repaired. It decodes exactly when each facet has a finite vertex. |
| StlDecoderProperties.DecodeEffectAgrees | src/draco/io/stl_decoder.cc:182-274 | The mesh is left untouched only when decoding fails. It holds a triangle for every face it was sized for exactly when decoding succeeds, and the stored soup is then the result. |
| StlEncoderSpec.HeaderBytes | src/draco/io/stl_encoder.cc:80-83 | The header is 80 bytes. |
| StlEncoderSpec.HeaderTag | src/draco/io/stl_encoder.cc:80-83 | The header starts with "BinarySTLFile", so it never starts with "solid". |
| StlEncoderSpec.FaceNormal | src/draco/io/stl_encoder.cc:95-102 | The normal written is the one at the face's first corner when the mesh has normals, and the fallback of the three corners otherwise. |
| StlEncoderSpec.FaceRecord | src/draco/io/stl_encoder.cc:88-108 | A face record is 50 bytes. |
| StlEncoderSpec.FaceRecords | src/draco/io/stl_encoder.cc:88-108 | The records of k faces take 50k bytes. |
| StlEncoderSpec.FaceRecordSplit | src/draco/io/stl_encoder.cc:95-107 | A record is the normal's bytes, then the nine corner floats' bytes, then two zero bytes. |
| StlEncoderSpec.FloatsBytesAt | src/draco/io/stl_encoder.cc:62-67 | Float j of a list takes bytes 4j to 4j+4 of its encoding. |
| StlEncoderSpec.FaceRecordsAt | src/draco/io/stl_encoder.cc:88-108 | Record i takes bytes 50i to 50i+50 of the records. |
| StlEncoderSpec.StlFileLayout | src/draco/io/stl_encoder.cc:80-85 | The file is 84 + 50F bytes long. It begins with the header, and the word at offset 80 is the face count F. |
| StlEncoderSpec.StlFileRecord | src/draco/io/stl_encoder.cc:88-108 | Face i's record sits at offset 84 + 50i. |
| StlEncoderSpec.FaceRecordLayout | src/draco/io/stl_encoder.cc:95-107 | Float j of a record takes bytes 4j to 4j+4, and bytes 48 and 49 are zero. |
| StlEncoderSpec.EncodeVerdict | src/draco/io/stl_encoder.cc:69-110 | Encoding succeeds exactly when there is a non-empty position attribute and the face count fits a uint32. A failure writes nothing, or only the header when there are too many faces. A success writes 84 + 50F bytes. |
| StlEncoding.StlEncoder.constructor | src/draco/io/stl_encoder.cc:25-29 | Every field starts cleared. |
| StlEncoding.StlEncoder.EncodeToBuffer | src/draco/io/stl_encoder.cc:45-51 | It appends the bytes EncodeSpec gives and returns its verdict. The encoder is cleared afterwards. |
| StlEncoding.StlEncoder.EncodeToFile | src/draco/io/stl_encoder.cc:31-43 | A file that cannot be opened gives false and no bytes. Otherwise the file holds the whole encoding when it succeeds, and nothing when it fails. |
| StlEncoding.StlEncoder.ExitAndCleanup | src/draco/io/stl_encoder.cc:53-60 | Every field is cleared, and the argument is returned. |
| StlEncoding.StlEncoder.EncodeFloatList | src/draco/io/stl_encoder.cc:62-67 | Each float's four bytes are appended, in order. |
| StlEncoding.StlEncoder.EncodeInternal | src/draco/io/stl_encoder.cc:69-110 | It appends exactly the bytes EncodeSpec gives, and returns its verdict. |
| StlEncoding.StlEncoder.EncodeFaces | src/draco/io/stl_encoder.cc:88-108 | One record per face is appended, in face order. |
| StlEncoding.StlEncoder.EncodeFace | src/draco/io/stl_encoder.cc:90-107 | Face i's record is appended. |
| StlEncoding.StlEncoder.EncodeCorners | src/draco/io/stl_encoder.cc:103-105 | The nine corner floats are appended, corner by corner. |
| StlEncoding.CornerValues | src/draco/io/stl_encoder.cc:92-94 | The three corner positions of the face are read, in order. |
| StlRoundTrip.FloatOfRecord | src/draco/io/stl_decoder.cc:114-117 | Float j of a written record reads back as the j-th float written. |
| StlRoundTrip.RecordDecodes | src/draco/io/stl_decoder.cc:107-119 | A record's first 48 bytes decode to the normal and corners written for the face. |
| StlRoundTrip.EncodedRecordAt | src/draco/io/stl_encoder_test.cc:37-50 | Record i of an encoded file is read back as face i's facet. |
| StlRoundTrip.EncodedIsBinary | src/draco/io/stl_encoder.cc:80-85 | An encoded file is detected as binary, and its count at offset 80 is the mesh's face count. |
| StlRoundTrip.DecodeEncoded | src/draco/io/stl_encoder_test.cc:27-50 | Decoding the encoder's output succeeds exactly when each face written has a finite corner. The soup then has the mesh's face count, and each face holds its corners after the repair. |
| StlRoundTrip.FiniteFacetsKept | src/draco/io/stl_decoder.cc:253-256 | Finite corners pass through the repair unchanged. |
| StlRoundTrip.DecodeEncodedFinite | src/draco/io/stl_encoder_test.cc:27-34 | With finite positions the round trip keeps the face count. Point 3i+k is corner k of face i. |
| QuantizationMath.CeilLog2Least | src/draco/compression/mesh/mesh_quantization_carbon.cc:34 | CeilLog2(x) is the least b with x <= 2^b: x <= 2^b and 2^(b-1) < x. |
| QuantizationMath.CeilLog2Unique | src/draco/compression/mesh/mesh_quantization_carbon.cc:34 | Any b with 2^(b-1) < x <= 2^b is CeilLog2(x). |
| QuantizationMath.ScaledCeilLog2 | src/draco/compression/mesh/mesh_quantization_carbon.cc:34 | With b = CeilLog2(a/delta + c), the amount a + c·delta lies in (delta·2^(b-1), delta·2^b]. |
| QuantizationMath.StepsAreProduct | src/draco/compression/mesh/mesh_quantization_carbon.cc:40 | The library's range, 2^b steps of delta less one step, equals grid_delta * (2^b - 1). |
| QuantizationMath.ScaledPow2IsProduct | src/draco/javascript/emscripten/draco_embind_encoder.cc:83 | The bindings' range, 2^b steps of delta, equals grid_delta * 2^b. |
| QuantizationBounds.MinUpToIsMin | src/draco/compression/mesh/mesh_quantization_carbon.cc:17-25 | The running minimum is at most every value seen, and equals one of them. |
| QuantizationBounds.MaxUpToIsMax | src/draco/compression/mesh/mesh_quantization_carbon.cc:17-25 | The running maximum is at least every value seen, and equals one of them. |
| QuantizationBounds.BoundsAreTight | src/draco/compression/mesh/mesh_quantization_carbon.cc:15-25 | The scanned minima and maxima bound every position component-wise, and each is attained. |
| QuantizationBounds.SpreadUpToIsMax | src/draco/compression/mesh/mesh_quantization_carbon.cc:26-30 | The spread loop's result is non-negative and at least every component's spread. It equals one of them, or stays 0. |
| QuantizationBounds.ExtentIsLargestSpread | src/draco/compression/mesh/mesh_quantization_carbon.cc:26-33 | The extent is positive and covers every component's spread. It is one component's spread, or 1 when every component is constant. |
| QuantizationBounds.ScanBounds | src/draco/compression/mesh/mesh_quantization_carbon.cc:15-25 | The min/max loop computes the scanned minima and maxima. |
| QuantizationBounds.LargestSpread | src/draco/compression/mesh/mesh_quantization_carbon.cc:26-30 | The spread loop computes the largest spread, starting from 0. |
| MeshQuantization.ZeroDeltaAccepted | src/draco/compression/mesh/mesh_quantization_carbon.cc:7 | A zero grid_delta passes the guard as written but not the corrected one. Every grid_delta the corrected guard accepts is positive. |
| MeshQuantization.ClampedGridCovers | src/draco/compression/mesh/mesh_quantization_carbon.cc:35-41 | For a raw count b with delta·2^(b-1) < extent + delta <= delta·2^b, the clamps give 1 to 30 bits and a range covering the extent. |
| MeshQuantization.CarbonGridCovers | src/draco/compression/mesh/mesh_quantization_carbon.cc:34-41 | The grid has 1 to 30 bits and a range of at least the extent. The count is cut to 30, with the extent as range, exactly when extent + delta exceeds 2^30 steps. Otherwise the range is 2^bits - 1 steps, and one bit fewer would not cover the extent. |
| MeshQuantization.FillVerdict | src/draco/compression/mesh/mesh_quantization_carbon.cc:4-43 | A fill fails exactly on a spacing that is not positive, or on an attribute without three components, each with its own message. A successful fill has 1 to 30 bits, so IsSet holds. Its origin is the component-wise minimum, and every position lies within range of the origin. |
| MeshQuantization.ExplicitParameters | src/draco/compression/mesh/mesh_quantization_carbon_test.cc:88-105 | The test triangle with spacing 1 gets 2 bits, range 3 and origin (0, 0, -1). |
| MeshQuantization.MeshQuantizationCarbon.constructor | src/draco/compression/mesh/mesh_quantization_carbon.h:7-11 | A fresh object has -1 bits, range 0 and origin (0, 0, 0), and is not set. |
| MeshQuantization.MeshQuantizationCarbon.FillFromMesh | src/draco/compression/mesh/mesh_quantization_carbon.cc:4-43 | A refused spacing or attribute returns its message and changes nothing. Otherwise it returns "", sets exactly the parameters CarbonFill gives, and the object is then set. |
| EmbindQuantization.IsSetInverted | src/draco/javascript/emscripten/draco_embind_encoder.cc:34 | The bindings' IsSet gives the opposite answer to the header's for every bit count, including the unset -1. |
| EmbindQuantization.EmbindClampedGridCovers | src/draco/javascript/emscripten/draco_embind_encoder.cc:80-84 | For a raw count b with delta·2^(b-1) < extent <= delta·2^b, the upper clamp gives at most 30 bits and a range covering the extent. |
| EmbindQuantization.EmbindGridCovers | src/draco/javascript/emscripten/draco_embind_encoder.cc:79-84 | At most 30 bits, and a range covering the extent. The count is cut to 30 exactly when the extent exceeds 2^30 steps. Otherwise the range is 2^bits steps, and one bit fewer would fall short. An extent of at most delta gives 0 bits or fewer. |
| EmbindQuantization.EmbindFillVerdict | src/draco/javascript/emscripten/draco_embind_encoder.cc:47-86 | The fill returns false exactly on a spacing that is not positive, or on an attribute without three components. A true fill has at most 30 bits, the component-wise minimum as origin, and every position within range of it. |
| EmbindQuantization.EmbindExplicitParameters | src/draco/javascript/emscripten/draco_embind_encoder.cc:79-84 | The library's test triangle gets 1 bit and range 2 here, with origin (0, 0, -1). The bindings' IsSet then answers false. |
| EmbindQuantization.EmbindBitsReachUnset | src/draco/javascript/emscripten/draco_embind_encoder.cc:79-84 | Two points half a spacing apart fill successfully with -1 bits, the value that means unset. |
| EmbindQuantization.MeshQuantizationCarbon.constructor | src/draco/javascript/emscripten/draco_embind_encoder.cc:29-33 | A fresh object has -1 bits, range 0 and origin (0, 0, 0). The corrected IsSet is false, while the bindings' IsSet is true. |
| EmbindQuantization.MeshQuantizationCarbon.FillFromMesh | src/draco/javascript/emscripten/draco_embind_encoder.cc:47-86 | A refused spacing or attribute returns false and changes nothing. Otherwise it returns true and sets exactly the parameters EmbindFill gives. |

## Left out

- File I/O. `DecodeFromFile` takes the file's contents as an `Option` (None: the file cannot be opened). `EncodeToFile` takes whether the file can be opened, and returns the bytes the file would receive.
- `std::stof` is a parameter (`FloatParser`), so which tokens it accepts, and the float it gives for each, are inputs. Its std::out_of_range exception, which the source does not catch, is not modelled.
- The encoder's fallback normal is a parameter, as it is floating-point arithmetic (`CrossProduct`, `Normalize`).
- Floating point in general:
  - STL floats are kept as bit patterns. The quantization works on exact reals.
  - `log`, `ceilf` and `powf` are taken to be exact. Near a power of two the float computation could round to a different bit count.
- The float-to-int conversion of the `ceilf` result (mesh_quantization_carbon.cc:34, draco_embind_encoder.cc:79) is taken as exact. It is applied before the clamps, to the unclamped count, which can exceed 30: range 1000 with spacing 1e-9 gives 40, and in float it can reach about 129. A quotient that overflows to +inf makes `ceilf` return +inf, whose conversion to int is undefined. The model's `CeilLog2` is an unbounded integer, so neither limit is modelled.
- `DecoderBuffer`, `parser::SkipWhitespace` and `parser::ParseString` follow Draco's usual behaviour; their source is not part of this model:
  - `Advance` and `StartDecodingFrom` do not check the end of the data.
  - `ParseString` never fails, and at the end of the data it returns an empty token.
- Because `ParseString` never fails, some error paths cannot be reached in the model:
  - "STL file is missing face data." (stl_decoder.cc:81-83);
  - the `ParseString` failure branches of `ParseAsciiFace` (stl_decoder.cc:134, 144, 158).
- `EncoderBuffer::Encode` never fails, so the encoder's failure branches after a write (stl_encoder.cc:64, 97, 101, 104, 107) cannot be taken.
- `Mesh` is reduced to the fields both classes touch: faces, number of points, and the POSITION and NORMAL attributes. `GeometryAttribute::Init`'s data-type arguments are not modelled.
- A mesh passed to the decoder that already has a POSITION attribute is outside the model. The reduced mesh has a single POSITION slot, which `AddPositionAttribute` replaces, whereas Draco's `AddAttribute` (stl_decoder.cc:235) appends another attribute.
- The encoder is modelled only on meshes whose faces index mapped points: `CornersMapped` requires every corner's position, and the first corner's normal when the mesh has normals, to be mapped. On other meshes the source reads out of bounds (stl_encoder.cc:93, 96).
- The deduplication blocks under `#ifdef` (stl_decoder.cc:276-283) are not modelled, as the build decides them. Nor are `attribute_element_types_` and `SetAttributeElementType` (stl_decoder.cc:238, 284-290), which affect only element-type metadata.
- `StlDecoding.StlDecoder.FillMesh`: the uint32 product `num_stl_faces_ * 3` (stl_decoder.cc:231) is taken as exact. It wraps above 1431655765 faces. The `int` loop counter over a uint32 count (stl_decoder.cc:239) is taken as unbounded.
- The `std::cout` diagnostic line of the encoder (stl_encoder.cc:87) is left out: it is output only.
- The `pos_att_` and `normal_att_` fields of the encoder are never set by the source; the model keeps them and only clears them.
- `MeshQuantization.MeshQuantizationCarbon.FillFromMesh` and the bindings' `FillFromMesh`:
  - They take the position attribute itself. A mesh without one (a null `pos_att`, read without a check) is not modelled.
  - On an accepted call they require at least one value, because the source reads value 0 without checking.
- The accessors `QuantizationBits`, `Range`, `MinValuesX`, `MinValuesY` and `MinValuesZ` of both classes return a field and have no contract. `IsSet` and `IsSetAsWritten` are predicates whose meaning is stated by `IsSetInverted` and the constructors.
- The min/max scan and the spread loop are shared by both `FillFromMesh` methods, as the module methods `ScanBounds` and `LargestSpread`. The source repeats that code in each method.
- The JavaScript bindings outside lines 27-86 of draco_embind_encoder.cc, the other wrappers, and the Python call example are not part of this model.

## Findings

| source | as written | input that shows it | evidently intended | confidence | as-written member | corrected member |
|---|---|---|---|---|---|---|
| src/draco/compression/mesh/mesh_quantization_carbon.cc:7 | `grid_delta < 0` refuses only negative spacings | grid_delta = 0 on any mesh with three-component positions: the guard lets it through and `range_ / grid_delta` divides by zero | refuse every spacing that is not positive (`grid_delta <= 0`) | high, not executed | MeshQuantization.ZeroDeltaAccepted | MeshQuantization.FillVerdict |
| src/draco/javascript/emscripten/draco_embind_encoder.cc:49 | `grid_delta < 0` refuses only negative spacings | grid_delta = 0: the guard lets it through and `log(range_ / grid_delta)` divides by zero | refuse every spacing that is not positive | high, not executed | MeshQuantization.ZeroDeltaAccepted | EmbindQuantization.EmbindFillVerdict |
| src/draco/javascript/emscripten/draco_embind_encoder.cc:34 | `IsSet` is `quantization_bits_ == -1` | a fresh object reports set; after the test triangle's fill (1 bit) it reports not set | `quantization_bits_ != -1`, as in mesh_quantization_carbon.h | high, not executed | EmbindQuantization.IsSetInverted | EmbindQuantization.MeshQuantizationCarbon.constructor |

In the model, both `FillFromMesh` methods use the corrected guard `MeshQuantization.DeltaRejected`. The bindings' class answers `IsSet` with the header's test, `MeshQuantization.BitsSet`, and keeps the test as written as `IsSetAsWritten`.
