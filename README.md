# map2jms in Dafny

map2jms converts a compiled Quake II map (an IBSP version 38 file) into a
Halo JMS model. This project models the converter's core and proves
properties of it.

- **Loading the BSP file** (`BspFile`). This covers:
  - the header check: the magic `IBSP`, version 38, then the 19-entry lump directory;
  - `SetBSPReaderPos`;
  - the seven lump loaders: vertices, edges, surface edges, planes, texture infos, surfaces and models;
  - the Halo material symbols built from the surface flags;
  - the texture registry that gives each texture info its slot in `uniqueTextureNames`.
- **The `name_remap.txt` parser.**
- **The texture name written to the JMS file.**
- **`CreateVertsAndTris`.** For every face of a model it:
  - resolves the boundary vertices through the surface-edge and edge tables;
  - may put a centroid vertex in front;
  - emits a triangle fan from vertex 0;
  - when a fan triangle is degenerate, rotates the vertex list and retries, adding the centroid once the retries reach `numEdges - 1`;
  - closes with one triangle when a centroid was added;
  - appends the face to the global vertex and triangle lists.

## Structure

- `outcomes.dfy` (module `Outcomes`)
  - the exceptions the C# code can throw, as an `Error` datatype;
  - `Result` and `Option`.
- `basic_types.dfy` (module `BasicTypes`)
  - the records of `BasicTypes.cs`;
  - the `Q2BspLump` enum and its integer values;
  - the `SurfaceFlags` bits.
  - Floats are kept as their 32-bit words. The float arithmetic the converter does is passed in as a `FloatOps` record: distance, UV projection, centroid and negation.
- `text.dfy` (module `Text`): the .NET string operations the core relies on.
  - `IndexOf` and `LastIndexOf`;
  - `Split(char)` and its inverse `Join`;
  - `IsNullOrWhiteSpace` and `Trim`, with the .NET white-space set.
- `binary_io.dfy` (module `BinaryIO`): a `ByteStream` class standing in for `FileStream` plus `BinaryReader`.
  - The data is immutable and `pos` is the stream position.
  - Setting `Position` is the `Seek` method. It also provides `ReadBytes`, `ReadUInt16`, `ReadInt32` and `ReadSingle`, with their end-of-stream behaviour.
  - It has little-endian decoders with encoders as their inverses.
- `bsp.dfy` (module `Bsp`): the specification of loading, as functions of the file's bytes, with the lemmas about them.
- `bsp_file.dfy` (module `BspLoader`): the `BspFile` class.
  - Its fields are the ones the C# constructor fills, and its loaders are methods that update them.
  - Each method is proved equal to the specification function in `Bsp`.
- `triangulation.dfy` (module `Triangulation`)
  - the retry loop of one face as a state machine (`Pass`, `Triangulate`);
  - the degeneracy test and the fan.
- `program.dfy` (module `Program`)
  - the remap parser;
  - the texture-name stripping;
  - the face, model and whole-file mesh, as methods proved against functions.

## Model

| member | source | states |
|---|---|---|
| `BasicTypes.LumpIndexBijective` | map2jms/BasicTypes.cs:151-173 | The enum order gives each of the 19 lumps a distinct directory slot 0..18, and slot to lump and back is the identity. |
| `BasicTypes.ConsumedLumpSlots` | map2jms/BasicTypes.cs:153-166 | The seven lumps the loader reads sit at slots 1, 2, 5, 6, 11, 12 and 13. |
| `BasicTypes.SurfaceFlagBits` | map2jms/BasicTypes.cs:232-249 | The ten Halo flags are the single bits 10..19 in declaration order and pairwise disjoint. AddMidpoint is bit 20 and overlaps none of them. |
| `BinaryIO.DecodeEncodeU16` | map2jms/BspFile.cs:132-133 | Reading a little-endian UInt16 undoes writing it. |
| `BinaryIO.EncodeDecodeU16` | map2jms/BspFile.cs:132-133 | Two bytes read as a UInt16 and written back are the same bytes. |
| `BinaryIO.DecodeEncodeU32` | map2jms/BspFile.cs:149 | Reading an unsigned 32-bit word undoes writing it. |
| `BinaryIO.EncodeDecodeU32` | map2jms/BspFile.cs:149 | Four bytes read as a 32-bit word and written back are the same bytes. |
| `BinaryIO.DecodeEncodeI32` | map2jms/BspFile.cs:149 | ReadInt32 undoes the two's-complement encoding of every int32. |
| `BinaryIO.EncodeDecodeI32` | map2jms/BspFile.cs:149 | Four bytes read with ReadInt32 and re-encoded are the same bytes. |
| `BinaryIO.U16At` | map2jms/BspFile.cs:284-290 | A UInt16 written at any position of a byte string reads back at that position. |
| `BinaryIO.U32At` | map2jms/BspFile.cs:314-316 | A 32-bit word written at any position reads back there. |
| `BinaryIO.I32At` | map2jms/BspFile.cs:318-320 | An int32 written at any position reads back there with ReadInt32. |
| `BinaryIO.I32` | map2jms/BspFile.cs:149 | ReadInt32 yields an int32: the unsigned word, or that word minus 2^32. |
| `BinaryIO.Available` | map2jms/BspFile.cs:32 | ReadBytes(count) gives the bytes from the position: count of them when they exist, otherwise exactly those up to the end of the data. |
| `BinaryIO.AsciiString` | map2jms/BspFile.cs:229 | Encoding.ASCII.GetString gives one character per byte, all of them 7-bit. A character equals its byte exactly when the byte is below 0x80. |
| `BinaryIO.AsciiDecodesUniquely` | map2jms/BspFile.cs:32-34 | Encoding.ASCII turns bytes into a given 7-bit text without '?' exactly when the bytes are that text's codes. |
| `BinaryIO.AsciiNul` | map2jms/BspFile.cs:229-230 | A decoded character is NUL exactly when its byte is 0. |
| `BinaryIO.ByteStream.constructor` | map2jms/BspFile.cs:82-83 | A new stream is at position 0 over the file's bytes. |
| `BinaryIO.ByteStream.Seek` | map2jms/BspFile.cs:97-101 | Setting a negative Position fails with NegativePosition and does not move. Any other offset moves there, even past the end. |
| `BinaryIO.ByteStream.ReadBytes` | map2jms/BspFile.cs:32 | Returns the available bytes, possibly fewer than asked, and advances by as many. |
| `BinaryIO.ByteStream.ReadUInt16` | map2jms/BspFile.cs:132-133 | The little-endian UInt16 at the position and an advance of 2, or EndOfStream when fewer than 2 bytes remain. |
| `BinaryIO.ByteStream.ReadInt32` | map2jms/BspFile.cs:39 | The int32 at the position and an advance of 4, or EndOfStream. |
| `BinaryIO.ByteStream.ReadSingle` | map2jms/BspFile.cs:115 | The 32-bit float word at the position and an advance of 4, or EndOfStream. |
| `Text.IndexOf` | map2jms/BspFile.cs:249 | List.IndexOf: -1 exactly when absent, otherwise the first position holding the element. |
| `Text.LastIndexOf` | map2jms/Program.cs:121-122 | -1 exactly when absent, otherwise the last position holding the element. |
| `Text.Split` | map2jms/Program.cs:49 | String.Split always returns at least one piece, even for an empty string. |
| `Text.SplitCount` | map2jms/Program.cs:49-50 | A split has exactly one piece more than the string has separators, so `split.Length < 2` means the line has no '='. |
| `Text.SplitPieces` | map2jms/Program.cs:49-50 | Split gives one piece exactly when the separator is absent, and no piece contains the separator. |
| `Text.JoinSplit` | map2jms/Program.cs:49 | Joining the pieces of a split with the separator gives back the string. |
| `Text.SplitJoin` | map2jms/Program.cs:49 | Splitting pieces that hold no separator, joined with it, gives back the pieces. |
| `Text.SplitAtSeparator` | map2jms/Program.cs:49-53 | The first piece of a split is the text before the first separator, and the rest is the split of what follows it. |
| `Text.LastPieceOfSplit` | map2jms/Program.cs:121-122 | The last piece of a split is the text after the last separator. |
| `Text.SkipWhiteSpace` | map2jms/Program.cs:53-54 | Skips exactly the leading run of white space. |
| `Text.SkipWhiteSpaceBack` | map2jms/Program.cs:53-54 | Skips exactly the trailing run of white space. |
| `Text.Trim` | map2jms/Program.cs:53-54 | String.Trim: the longest inner slice, where everything cut off is white space and the result neither starts nor ends with white space. |
| `Text.TrimIdempotent` | map2jms/Program.cs:53-54 | Trimming twice is trimming once. |
| `Text.BlankIffTrimEmpty` | map2jms/Program.cs:46 | IsNullOrWhiteSpace holds exactly when the trimmed line is empty. |
| `Bsp.ParseHeader` | map2jms/BspFile.cs:29-56 | An accepted header has 19 offsets, 19 sizes and version 38. |
| `Bsp.MagicMatches` | map2jms/BspFile.cs:32-37 | The four bytes decode to the text IBSP exactly when there are four of them and they are 'I','B','S','P'. |
| `Bsp.HeaderAccepted` | map2jms/BspFile.cs:29-56 | The header is accepted exactly when all 160 bytes are there, the magic matches and the version is 38. |
| `Bsp.HeaderCheckOrder` | map2jms/BspFile.cs:34-44 | BadMagic is raised exactly when the magic is wrong, before the version is read. BadVersion carries the version that was read. |
| `Bsp.HeaderDirectory` | map2jms/BspFile.cs:46-53 | Directory entry k is the offset and size read at bytes 8+8k and 12+8k. |
| `Bsp.DecodeDirectory` | map2jms/BspFile.cs:49-53 | Reading back an encoded directory gives each offset and size back. |
| `Bsp.EncodedHeaderAccepted` | map2jms/BspFile.cs:29-56 | Magic, version 38 and 152 more bytes are always accepted. |
| `Bsp.ParseEncodedHeader` | map2jms/BspFile.cs:29-56 | Parsing an encoded header returns exactly the offsets and sizes that were encoded. |
| `Bsp.RecordCount` | map2jms/BspFile.cs:108 | C# size / width, which truncates toward zero: the multiple of the width closest to zero within one width of the size, for either sign. |
| `Bsp.LumpLayout` | map2jms/BspFile.cs:97-116 | A lump loads exactly when its offset is not negative, its count is not negative, and its records fit in the data. The errors are NegativePosition, NegativeCount or EndOfStream. |
| `Bsp.RemainderIgnored` | map2jms/BspFile.cs:108 | A lump shorter than one record, including a negative size above -width, holds no records. A whole number of records is counted exactly. |
| `Bsp.DecodeEdge` | map2jms/BspFile.cs:131-133 | Edge vertex numbers are UInt16 values. |
| `Bsp.DecodeEncodeEdge` | map2jms/BspFile.cs:131-133 | Decoding an encoded edge gives the edge back. |
| `Bsp.Vector3At` | map2jms/BspFile.cs:314-316 | Three floats read at a position give back the vector written there. |
| `Bsp.DecodeSurface` | map2jms/BspFile.cs:282-293 | plane, planeSide, numEdges and textureInfo are UInt16 values, and firstEdge is an int32. |
| `Bsp.DecodeModel` | map2jms/BspFile.cs:312-320 | firstFace and numFaces are int32 values. |
| `Bsp.EncodeSurface` | map2jms/BspFile.cs:272 | A surface record written out takes the 20 bytes LoadSurfaces steps by. |
| `Bsp.DecodeEncodeSurface` | map2jms/BspFile.cs:282-293 | A surface whose fields fit their widths reads back unchanged after it is written out: each field at its own offset and width. |
| `Bsp.EncodeModel` | map2jms/BspFile.cs:302 | A model record written out takes the 48 bytes LoadModels steps by. |
| `Bsp.DecodeEncodeModel` | map2jms/BspFile.cs:312-320 | A model whose integers fit 32 bits reads back unchanged after it is written out: three vectors, then headNode, firstFace and numFaces. |
| `Bsp.MaterialSymbols` | map2jms/BspFile.cs:174-203 | At most one symbol per Halo flag. |
| `Bsp.MaterialSymbolsByTable` | map2jms/BspFile.cs:174-203 | The ten if-statements equal a walk over the flag and symbol table in order. |
| `Bsp.SymbolsLength` | map2jms/BspFile.cs:181-200 | The number of symbols is the number of Halo flags set. |
| `Bsp.SymbolsDetermineFlags` | map2jms/BspFile.cs:181-200 | Two flag words give the same symbols exactly when they agree on every Halo flag. |
| `Bsp.MaterialSymbolsInjective` | map2jms/BspFile.cs:174-203 | The symbols are equal exactly when the flag words agree on bits 10..19. |
| `Bsp.MaterialSymbolsCount` | map2jms/BspFile.cs:174-203 | The symbol count is the number of Halo flags set, and the symbols are empty exactly when no Halo flag is set. |
| `Bsp.AddMidpointInvisible` | map2jms/BspFile.cs:247 | Setting or clearing AddMidpoint never changes a texture's key. |
| `Bsp.TextureName` | map2jms/BspFile.cs:229-230 | The name is the ASCII text before the first NUL of the 32-byte field. Without a NUL, Substring(0, -1) fails with MissingNul. |
| `Bsp.NulPositions` | map2jms/BspFile.cs:229-230 | The decoded field contains NUL exactly when the bytes contain 0, at the same places. |
| `Bsp.NameNotTrimmed` | map2jms/BspFile.cs:231 | The discarded Trim leaves a name with leading white space untrimmed, as a concrete name shows. |
| `Bsp.Register` | map2jms/BspFile.cs:249-259 | The slot is -1 or names an entry, and the registry only grows, by at most one. A key already registered keeps the registry unchanged and gets its first index. |
| `Bsp.RegisterSkipOnly` | map2jms/BspFile.cs:249-252 | The slot is -1 exactly for tools/skip when that key is not registered. |
| `Bsp.RemappedKeyReappended` | map2jms/BspFile.cs:249-258 | A remapped key is looked up before remapping, so it is never found and its target is appended again each time. |
| `Bsp.PlainKeyReused` | map2jms/BspFile.cs:249-258 | An unremapped key registered once is found the second time, with no new entry. |
| `Bsp.TexInfoHeadAt` | map2jms/BspFile.cs:218-247 | A record's fields and name are read exactly when 40 bytes remain and the name field has a NUL among its available bytes. Otherwise EndOfStream or MissingNul. |
| `Bsp.TexRecordShape` | map2jms/BspFile.cs:218-261 | A record reads exactly when all 76 bytes exist and the name field has a NUL. A MissingNul error means the bytes available for the name hold no 0. A record read has the flags of the int32 at byte 32 and slot -1, and its key is the name plus its material symbols. Its size is the PNG's width and height when the PNG exists, and 256 by 256 otherwise. |
| `Bsp.TexRecordAt` | map2jms/BspFile.cs:218-263 | Reading one record fails only with EndOfStream or MissingNul. A record read had all 76 bytes available, and its nextTexInfo is the int32 at byte 72. |
| `Bsp.LinkCutShort` | map2jms/BspFile.cs:261 | A record whose next-texinfo link is cut short ends the stream. |
| `Bsp.RegisterAll` | map2jms/BspFile.cs:216-264 | Registration succeeds exactly when every record reads. Then there is one texinfo per record, the registry only grows, and every slot is -1 or in range. |
| `Bsp.RegisterAllFirstError` | map2jms/BspFile.cs:216-264 | The first record that fails decides the error. |
| `Bsp.RegisterAllSlots` | map2jms/BspFile.cs:249-259 | Texinfo i keeps its record's fields. Its slot is -1 only for tools/skip, and otherwise names the key or the key's remapping. |
| `Bsp.DecodeTexInfoHead` | map2jms/BspFile.cs:218-227 | The flags are the int32 at byte 32 read as a flag word, the slot is still unset (-1), and the size is the one found for the name. |
| `Bsp.LumpRecords` | map2jms/BspFile.cs:97-116 | A lump loads exactly as LumpLayout says. It then starts at its directory offset and holds size / width records, which fit in the data. |
| `Bsp.TextureLump` | map2jms/BspFile.cs:205-267 | A negative offset fails with NegativePosition and a negative count with NegativeCount. A loaded lump has size / 76 texinfos whose slots are all -1 or registered. |
| `Bsp.TextureLumpAt` | map2jms/BspFile.cs:216-263 | Texinfo i of a loaded lump is the record read 76·i bytes after the lump offset, apart from the slot registration gives it. |
| `Bsp.TextureLumpRecord` | map2jms/BspFile.cs:216-263 | Texinfo i of a loaded lump had all its 76 bytes and a NUL in its name field. Its flags are the int32 at byte 32 and its nextTexInfo the int32 at byte 72. Its fileTexWidth and fileTexHeight are the PNG's size when the PNG exists, and the 256 default otherwise (BasicTypes.cs:205-206). |
| `Bsp.ParseBsp` | map2jms/BspFile.cs:80-95 | A loaded file's header is the header the bytes start with. |
| `Bsp.ParseLumps` | map2jms/BspFile.cs:87-93 | A successful load keeps the header. Each of the seven lumps holds size / width records by its directory entry, and every texinfo slot is -1 or names a registry entry. |
| `Bsp.GeometryLumps` | map2jms/BspFile.cs:87-90 | The first four loads keep the header and give vertices, edges, surface edges and planes size / width records each. |
| `Bsp.SurfaceLumps` | map2jms/BspFile.cs:91-93 | The last three loads change only texInfos, uniqueTextureNames, surfaces and models. They give each lump size / width records, with every slot -1 or registered. |
| `Bsp.FaceLumps` | map2jms/BspFile.cs:92-93 | LoadSurfaces and LoadModels change only surfaces and models, with size / 20 and size / 48 records. |
| `Bsp.RecordsRunShort` | map2jms/BspFile.cs:113-116 | A record that does not fit means the whole run of records does not fit. |
| `BspLoader.ReadHeader` | map2jms/BspFile.cs:29-56 | Reads exactly the header ParseHeader describes. |
| `BspLoader.ReadVector3` | map2jms/BspFile.cs:115 | Three float words and an advance of 12, or EndOfStream. |
| `BspLoader.ReadEdge` | map2jms/BspFile.cs:131-133 | The edge at the position and an advance of 4, or EndOfStream. |
| `BspLoader.ReadPlane` | map2jms/BspFile.cs:165-167 | The normal, the distance and the discarded type, with an advance of 20, or EndOfStream. |
| `BspLoader.ReadSurface` | map2jms/BspFile.cs:282-293 | The 20-byte surface record, or EndOfStream. |
| `BspLoader.ReadModel` | map2jms/BspFile.cs:312-320 | The 48-byte model record, or EndOfStream. |
| `BspLoader.ReadTexInfoHead` | map2jms/BspFile.cs:218-247 | Reads what TexInfoHeadAt describes and stops right after the bytes ReadBytes(32) returned. |
| `BspLoader.BspFile.constructor` | map2jms/BspFile.cs:61-77 | A file object starts with every lump and the registry empty. |
| `BspLoader.BspFile.Open` | map2jms/BspFile.cs:80-95 | new BspFile succeeds exactly when ParseBsp does, with the same error, and then holds exactly ParseBsp's contents. |
| `BspLoader.BspFile.LoadLumps` | map2jms/BspFile.cs:87-93 | The seven loaders in constructor order produce exactly ParseLumps' contents or its error. |
| `BspLoader.BspFile.LoadGeometry` | map2jms/BspFile.cs:87-90 | Vertices, edges, surface edges and planes, as GeometryLumps. |
| `BspLoader.BspFile.LoadSurfaceLumps` | map2jms/BspFile.cs:91-93 | Texture infos, surfaces and models, as SurfaceLumps. |
| `BspLoader.BspFile.LoadFaceLumps` | map2jms/BspFile.cs:92-93 | Surfaces then models, as FaceLumps. |
| `BspLoader.BspFile.SetBSPReaderPos` | map2jms/BspFile.cs:97-101 | Moves to the lump's offset and returns its size, or fails with NegativePosition on a negative offset. |
| `BspLoader.BspFile.LoadVertices` | map2jms/BspFile.cs:103-119 | Fills vertices with size / 12 decoded records, or fails as LumpRecords says. |
| `BspLoader.BspFile.LoadEdges` | map2jms/BspFile.cs:121-137 | Fills edges with size / 4 decoded records, or fails as LumpRecords says. |
| `BspLoader.BspFile.LoadSurfaceEdges` | map2jms/BspFile.cs:139-153 | Fills surfEdges with size / 4 int32 values, or fails as LumpRecords says. |
| `BspLoader.BspFile.LoadPlanes` | map2jms/BspFile.cs:155-171 | Fills planes with size / 20 decoded records, or fails as LumpRecords says. |
| `BspLoader.BspFile.LoadSurfaces` | map2jms/BspFile.cs:269-297 | Fills surfaces with size / 20 decoded records, or fails as LumpRecords says. |
| `BspLoader.BspFile.LoadModels` | map2jms/BspFile.cs:299-324 | Fills models with size / 48 decoded records, or fails as LumpRecords says. |
| `BspLoader.BspFile.ReadTexInfo` | map2jms/BspFile.cs:218-263 | One record: its fields, the registry step for its key, and 76 bytes consumed. Or the record's error. |
| `BspLoader.BspFile.ReadTexInfos` | map2jms/BspFile.cs:216-264 | The loop registers the records in order, exactly as RegisterAll, stopping at the first failing record. |
| `BspLoader.BspFile.ReadTexInfoAt` | map2jms/BspFile.cs:216-264 | One loop iteration extends the registration of the records before it by one, or fails with the whole lump's error. |
| `BspLoader.BspFile.LoadTextures` | map2jms/BspFile.cs:205-267 | texInfos and uniqueTextureNames become exactly TextureLump's result, and the returned count is the number of texinfos. |
| `Triangulation.Sort3` | map2jms/Program.cs:325 | lengths.Sort() puts the three lengths in ascending order. |
| `Triangulation.Sort3Permutes` | map2jms/Program.cs:325 | Sorting keeps exactly the same three lengths. |
| `Triangulation.DegenerateIgnoresOrder` | map2jms/Program.cs:320-328 | The degeneracy test depends only on the three lengths, not on the order they were measured in. |
| `Triangulation.RotateRight` | map2jms/Program.cs:331-332 | Moving the last vertex to the front keeps the length and the vertices, and shifts the rest by one. |
| `Triangulation.Start` | map2jms/Program.cs:296-305 | The loop starts with no retries, unfinished, and with addedMidPoint set exactly when the texinfo has AddMidpoint. |
| `Triangulation.Pass` | map2jms/Program.cs:308-354 | One pass of the while loop finishes exactly when the fan is clean, and then changes nothing else. Otherwise it counts exactly one retry. After it the centroid is in exactly when it was before or this pass reached retries == numEdges - 1. |
| `Triangulation.Triangulate` | map2jms/Program.cs:308-354 | The while loop stops finished, or with retries > numEdges. Retries only grow, a centroid once added stays, and a finished state is left alone. |
| `Triangulation.PassStep` | map2jms/Program.cs:308-354 | A pass finishes exactly when the fan is clean, and then changes nothing else. Otherwise it counts one retry and rotates. It puts the centroid in front only at retries == numEdges - 1, and only once. |
| `Triangulation.TriangulateOutcome` | map2jms/Program.cs:296-354 | The loop keeps the boundary's vertices and adds the centroid at most once, and a finished run is clean. An unfinished run has exhausted numEdges + 1 retries. The length grows by one only when the loop added the centroid. |
| `Triangulation.FanShape` | map2jms/Program.cs:312-318 | The fan over n vertices is n - 2 triangles, with triangle k = (base, base + k + 2, base + k + 1). |
| `Triangulation.FaceTrianglesInFace` | map2jms/Program.cs:312-364 | Every triangle of a finished face has the face's material and points into the face's own vertices, provided a centroid face has at least 2 vertices. |
| `Triangulation.NoEdgeMidpointFace` | map2jms/Program.cs:356-364 | A face with no edges and AddMidpoint keeps only its centroid, and its closing triangle (base, base + 1, base) points one past the face. |
| `Triangulation.CentroidLeavesFront` | map2jms/Program.cs:330-345 | After the centroid went in front, a further retry moves it to index 1, so the closing triangle no longer starts at the centroid. |
| `Program.ParseRemap` | map2jms/Program.cs:44-57 | The loop over the remap lines builds exactly RemapOf: each line's entry written over the dictionary, in file order. |
| `Program.RemapEntry` | map2jms/Program.cs:46-54 | A line yields an entry only when it does not start with '#', is not blank and contains '='. |
| `Program.RemapOf` | map2jms/Program.cs:44-57 | Parsing the file never removes a key that was already in the dictionary. |
| `Program.RemapEntryIgnored` | map2jms/Program.cs:46-51 | A line is skipped exactly when it starts with '#', is blank, or has no '='. |
| `Program.RemapEntryFields` | map2jms/Program.cs:49-54 | A used line maps the trimmed text before its first '=' to the trimmed text up to the next '='. Anything after a second '=' is dropped. |
| `Program.RemapEntryTrimmed` | map2jms/Program.cs:53-54 | A used line's key and value carry no surrounding white space. |
| `Program.FirstPiece` | map2jms/Program.cs:53 | split[0] is the text before the first separator, or the whole line. |
| `Program.RemapLastWins` | map2jms/Program.cs:56 | The last line that maps a key decides its value. |
| `Program.RemapUntouched` | map2jms/Program.cs:44-57 | A key that no line maps keeps its previous entry, or stays absent. |
| `Program.RemapProvenance` | map2jms/Program.cs:44-57 | Every entry of the dictionary was there before the file was read, or comes from a line mapping that key to that value. |
| `Program.BareTextureName` | map2jms/Program.cs:121-122 | The written name is a suffix of the registry name and contains no '/'. |
| `Program.BareTextureNameSuffix` | map2jms/Program.cs:121-122 | The written texture name is the text after the last '/', and contains no '/'. |
| `Program.List.constructor` | map2jms/Program.cs:133-134 | A new list is empty. |
| `Program.List.AddRange` | map2jms/Program.cs:377-378 | AddRange appends the given items and keeps the old ones. |
| `Program.BoundaryIndex` | map2jms/Program.cs:276-279 | Resolving a boundary vertex fails only with IndexOutOfRange or AbsOverflow. AbsOverflow happens exactly when surfEdges[firstEdge + i] is int.MinValue. A resolved index is the v1 or v2 of some edge. |
| `Program.Boundary` | map2jms/Program.cs:274-288 | The vertex loop gives exactly one vertex per edge, or fails with IndexOutOfRange or AbsOverflow. |
| `Program.BoundaryShape` | map2jms/Program.cs:274-288 | A resolved boundary has one vertex per edge. Vertex k comes from surface edge firstEdge + k, through edge \|se\|, taking v1 for a non-negative se and v2 otherwise, and carries its UV and the face normal. |
| `Program.BoundaryErrorPersists` | map2jms/Program.cs:274-288 | The first edge that fails decides the face's error. |
| `Program.ReadBoundary` | map2jms/Program.cs:274-288 | The vertex loop builds exactly Boundary, including IndexOutOfRange and the Math.Abs overflow of int.MinValue. |
| `Program.TriangulateFace` | map2jms/Program.cs:296-364 | The retry loop ends in Triangulate's state. Its triangles are the fan when finished, plus the closing triangle when a centroid was added. |
| `Program.Retry` | map2jms/Program.cs:330-345 | The degenerate branch is one Pass of the retry machine: rotate, count, and insert the centroid at retries == numEdges - 1. |
| `Program.CleanBelowAll` | map2jms/Program.cs:312-328 | The pass's running invariant means no fan triangle below i is degenerate. |
| `Program.FanPass` | map2jms/Program.cs:310-353 | A pass finishes exactly when no fan triangle is degenerate, and then has emitted the whole fan. |
| `Program.FaceMesh` | map2jms/Program.cs:241-378 | One face fails only with IndexOutOfRange, AbsOverflow or UnfixableSurface. The last two happen only on a drawn face, because a skipped face never reaches the vertex loop. |
| `Program.AppendFace` | map2jms/Program.cs:241-378 | One face appends exactly FaceMesh's vertices and triangles, nothing for a skipped face, or fails with FaceMesh's error leaving the lists as they were. |
| `Program.Faces` | map2jms/Program.cs:239-379 | Appending a run of faces only extends the vertex and triangle lists. |
| `Program.FacesError` | map2jms/Program.cs:239-379 | A run of faces fails only with an error one of its faces can fail with. |
| `Program.FaceMeshErrors` | map2jms/Program.cs:241-378 | Every face, at every base vertex, fails only with IndexOutOfRange, AbsOverflow or UnfixableSurface. |
| `Program.ModelMesh` | map2jms/Program.cs:231-385 | CreateVertsAndTris only extends the lists it is given, and fails only with IndexOutOfRange, AbsOverflow or UnfixableSurface. |
| `Program.CreateVertsAndTris` | map2jms/Program.cs:231-385 | The lists end as ModelMesh says, or the error is ModelMesh's. The lists are only ever appended to. |
| `Program.AppendModelFace` | map2jms/Program.cs:239-379 | One face-loop iteration extends the mesh of the faces before it by one face. |
| `Program.FacesErrorPersists` | map2jms/Program.cs:239-379 | The first face that fails decides CreateVertsAndTris's error. |
| `Program.GenerateMesh` | map2jms/Program.cs:133-147 | models[0] then models 1.. are meshed in order into the same lists, unfiltered. A file without models fails with IndexOutOfRange. |
| `Program.ModelsMesh` | map2jms/Program.cs:133-147 | Meshing the models in order fails only with IndexOutOfRange, AbsOverflow or UnfixableSurface. |
| `Program.ModelsMeshErrorPersists` | map2jms/Program.cs:140-147 | The first model that fails decides the error. |
| `Program.FaceMeshShape` | map2jms/Program.cs:243-378 | A face whose slot is -1 or whose texture is not the filter emits nothing. A face emits nothing exactly when that holds or it is drawn with no edges and no AddMidpoint. A drawn face emits its boundary vertices plus at most the centroid. Every triangle carries its texture slot and points into its own vertices, unless the face has no edges and AddMidpoint. |
| `Program.DrawnFaceMesh` | map2jms/Program.cs:255-378 | A drawn face that meshes has its plane and boundary. Its retry loop finished, and the face emits the loop's vertices and its fan plus the closing triangle. |
| `Program.DrawnFaceMeshShape` | map2jms/Program.cs:274-364 | The drawn case of FaceMeshShape: the boundary plus at most the centroid, and triangles inside the face unless it has no edges and AddMidpoint. It emits nothing exactly when it has no edges and no AddMidpoint. |
| `Program.FaceRunEmpty` | map2jms/Program.cs:296-364 | A finished retry loop leaves no vertex exactly when the face has no edges and did not start with the centroid, and then it leaves no triangle. |
| `Program.FaceRunShape` | map2jms/Program.cs:296-364 | A finished retry loop leaves the boundary plus at most the centroid. Its triangles point into the face unless the face has no edges and started with the centroid. |
| `Program.FacesWellFormed` | map2jms/Program.cs:239-379 | Appending faces whose triangles point into their own vertices keeps every triangle pointing at an emitted vertex. |
| `Program.ModelMeshWellFormed` | map2jms/Program.cs:231-385 | Unless a drawn face has no edges and AddMidpoint, CreateVertsAndTris keeps every triangle's vertices in the list and its material in the texture registry. |
| `Program.ModelsMeshWellFormed` | map2jms/Program.cs:133-147 | Unless some model draws a face with no edges and AddMidpoint, the whole JMS mesh only references emitted vertices and registered textures. |

## Left out

- **Floating-point arithmetic** is passed in as the `FloatOps` parameters and is not modelled:
  - `Vector3.Distance`;
  - `GetUVFromVertex` (BasicTypes.cs:208-213);
  - the sum-and-divide centroid (Program.cs:283-292), including its division by zero for a face without edges;
  - the sign flip of the normal.

  The degeneracy comparison is exact over reals, with the constant 0.001f taken at its exact value. Float rounding of the sum `lengths[0] + lengths[1]` is not modelled.
- **PNG lookup.** `File.Exists` and `Bitmap` are the `pngSize` parameter, from the texture name to an optional width and height.
- **Output.** Console messages and the counters `totalDegenerates` and `totalMidpoints` are left out because they only print. The JMS writer is left out too: the header lines, the number formatting and the temporary file.
- **Command-line handling and file existence checks in Main.** `Close` and the stream objects are not modelled.
- **Partial state after an exception.**
  - A failed load is modelled as an error result, without the half-filled array C# leaves behind.
  - A stream position after a failed read is kept unchanged.
  - The model stops at the first exception, as Main's catch does.
- **`isValid` of the header** is never read by the core.
- **`Program.RemapEntry`: culture-sensitive `StartsWith("#")`** is modelled as an ordinal first-character test.
- **32-bit index overflow.** `firstFace + faceI`, `firstEdge + i` and `baseVertex + i` are taken unbounded.
- **`Program.FaceMeshShape`: faces without edges that have AddMidpoint.** Its triangle bound excludes only these faces, because their closing triangle points one past their vertices. `Triangulation.NoEdgeMidpointFace` states that case.
- **`Program.ModelMeshWellFormed`: faces without edges that have AddMidpoint.** It requires that the model draws none, for the same reason.
- **`Program.ModelsMeshWellFormed`: faces without edges that have AddMidpoint.** It requires that no model draws one, for the same reason.
- **Unused fields.** Fields the core decodes but never uses (value, the lightmap fields, the model bounds) are kept as data. Their only properties are the round trips of the records that hold them.
