// map2jms/BspFile.cs as the program runs it: the header read from the stream,
// then each Load method seeking to its lump and reading records one at a time
// into its field. Every method is proved against the functions of module Bsp.
module BspLoader {
  import opened Outcomes
  import opened BasicTypes
  import opened BinaryIO
  import opened Text
  import opened Bsp

  /** The BspHeader constructor: four bytes of magic, the version, then the
      19 (offset, size) pairs. */
  method ReadHeader(reader: ByteStream) returns (r: Result<BspHeader>)
    modifies reader`pos
    ensures r == ParseHeader(reader.data, old(reader.pos))
  {
    var p := reader.pos;
    var bytes := reader.ReadBytes(4);
    var magic := AsciiString(bytes);
    if magic != CorrectHeader {
      return Err(BadMagic(magic));
    }
    var version :- reader.ReadInt32();
    if version != CorrectVersion {
      return Err(BadVersion(version));
    }
    var offsets: seq<int> := [];
    var sizes: seq<int> := [];
    for i := 0 to TotalLumps
      invariant reader.pos == p + 8 + 8 * i <= |reader.data|
      invariant |offsets| == i && |sizes| == i
      invariant forall k :: 0 <= k < i ==> offsets[k] == I32(reader.data, p + 8 + 8 * k)
      invariant forall k :: 0 <= k < i ==> sizes[k] == I32(reader.data, p + 12 + 8 * k)
    {
      var offset :- reader.ReadInt32();
      var size :- reader.ReadInt32();
      offsets := offsets + [offset];
      sizes := sizes + [size];
    }
    assert offsets == seq(TotalLumps, i requires 0 <= i < TotalLumps => I32(reader.data, p + 8 + 8 * i));
    assert sizes == seq(TotalLumps, i requires 0 <= i < TotalLumps => I32(reader.data, p + 12 + 8 * i));
    return Ok(BspHeader(version, offsets, sizes));
  }

  // Record readers: each reads one record's fields in file order and fails
  // as soon as a read finds too few bytes.

  method ReadVector3(reader: ByteStream) returns (r: Result<Vector3>)
    modifies reader`pos
    ensures r.Ok? <==> old(reader.pos) + 12 <= |reader.data|
    ensures r.Ok? ==> r.value == DecodeVector3(reader.data, old(reader.pos)) && reader.pos == old(reader.pos) + 12
    ensures r.Err? ==> r.error == EndOfStream
  {
    var x :- reader.ReadSingle();
    var y :- reader.ReadSingle();
    var z :- reader.ReadSingle();
    return Ok(Vector3(x, y, z));
  }

  method ReadEdge(reader: ByteStream) returns (r: Result<BspEdge>)
    modifies reader`pos
    ensures r.Ok? <==> old(reader.pos) + EdgeSize <= |reader.data|
    ensures r.Ok? ==> r.value == DecodeEdge(reader.data, old(reader.pos)) && reader.pos == old(reader.pos) + EdgeSize
    ensures r.Err? ==> r.error == EndOfStream
  {
    var v1 :- reader.ReadUInt16();
    var v2 :- reader.ReadUInt16();
    return Ok(BspEdge(v1, v2));
  }

  /** The normal and distance; the plane type is read and dropped. */
  method ReadPlane(reader: ByteStream) returns (r: Result<Plane>)
    modifies reader`pos
    ensures r.Ok? <==> old(reader.pos) + PlaneSize <= |reader.data|
    ensures r.Ok? ==> r.value == DecodePlane(reader.data, old(reader.pos)) && reader.pos == old(reader.pos) + PlaneSize
    ensures r.Err? ==> r.error == EndOfStream
  {
    var normal :- ReadVector3(reader);
    var d :- reader.ReadSingle();
    var planeType :- reader.ReadInt32();
    return Ok(Plane(normal, d));
  }

  method ReadSurface(reader: ByteStream) returns (r: Result<BspSurface>)
    modifies reader`pos
    ensures r.Ok? <==> old(reader.pos) + SurfaceSize <= |reader.data|
    ensures r.Ok? ==> r.value == DecodeSurface(reader.data, old(reader.pos)) && reader.pos == old(reader.pos) + SurfaceSize
    ensures r.Err? ==> r.error == EndOfStream
  {
    var plane :- reader.ReadUInt16();
    var planeSide :- reader.ReadUInt16();
    var firstEdge :- reader.ReadInt32();
    var numEdges :- reader.ReadUInt16();
    var textureInfo :- reader.ReadUInt16();
    var lightmapStyles :- reader.ReadInt32();
    var lightmapOffset :- reader.ReadInt32();
    return Ok(BspSurface(plane, planeSide, firstEdge, numEdges, textureInfo, lightmapStyles, lightmapOffset));
  }

  method ReadModel(reader: ByteStream) returns (r: Result<BspModel>)
    modifies reader`pos
    ensures r.Ok? <==> old(reader.pos) + ModelSize <= |reader.data|
    ensures r.Ok? ==> r.value == DecodeModel(reader.data, old(reader.pos)) && reader.pos == old(reader.pos) + ModelSize
    ensures r.Err? ==> r.error == EndOfStream
  {
    var bbmin :- ReadVector3(reader);
    var bbmax :- ReadVector3(reader);
    var origin :- ReadVector3(reader);
    var headNode :- reader.ReadInt32();
    var firstFace :- reader.ReadInt32();
    var numFaces :- reader.ReadInt32();
    return Ok(BspModel(bbmin, bbmax, origin, headNode, firstFace, numFaces));
  }

  /** A texinfo record up to and including its name: the fields, the name cut
      at its NUL, the image size found for it and the registry key. */
  method ReadTexInfoHead(reader: ByteStream, pngSize: string -> Option<(int, int)>)
    returns (r: Result<(BspTexInfo, string)>)
    modifies reader`pos
    ensures r == TexInfoHeadAt(reader.data, old(reader.pos), pngSize)
    ensures r.Ok? ==> reader.pos == old(reader.pos) + 40 + |Available(reader.data, old(reader.pos) + 40, TextureNameSize)|
  {
    var uAxis :- ReadVector3(reader);
    var uOffset :- reader.ReadSingle();
    var vAxis :- ReadVector3(reader);
    var vOffset :- reader.ReadSingle();
    var flags :- reader.ReadInt32();
    var value :- reader.ReadInt32();
    var raw := reader.ReadBytes(TextureNameSize);
    var name :- TextureName(raw);
    var width, height := DefaultTextureSize, DefaultTextureSize;
    var image := pngSize(name);
    if image.Some? {
      width, height := image.value.0, image.value.1;
    }
    var info := BspTexInfo(uAxis, uOffset, vAxis, vOffset, Bits(flags), value, -1, 0, width, height);
    return Ok((info, name + MaterialSymbols(Bits(flags))));
  }

  /** A BspFile: the stream it reads, its header and the decoded lumps. */
  class BspFile {
    const reader: ByteStream
    const header: BspHeader
    var vertices: seq<Vector3>
    var edges: seq<BspEdge>
    var surfEdges: seq<int>
    var planes: seq<Plane>
    var texInfos: seq<BspTexInfo>
    var uniqueTextureNames: seq<string>
    var surfaces: seq<BspSurface>
    var models: seq<BspModel>

    /** The field initialisers: nothing decoded and an empty registry. */
    constructor(reader: ByteStream, header: BspHeader)
      ensures this.reader == reader && this.header == header
      ensures vertices == [] && edges == [] && surfEdges == [] && planes == []
      ensures texInfos == [] && uniqueTextureNames == [] && surfaces == [] && models == []
    {
      this.reader := reader;
      this.header := header;
      vertices, edges, surfEdges, planes := [], [], [], [];
      texInfos, uniqueTextureNames, surfaces, models := [], [], [], [];
    }

    function Contents(): BspContents
      reads this
    {
      BspContents(header, vertices, edges, surfEdges, planes, texInfos, uniqueTextureNames, surfaces, models)
    }

    /** The BspFile(filePath) constructor over the file's bytes: the header,
        then every lump in turn. */
    static method Open(data: seq<byte>, remap: map<string, string>, pngSize: string -> Option<(int, int)>)
      returns (r: Result<BspFile>)
      ensures var spec := ParseBsp(data, remap, pngSize);
        (r.Ok? <==> spec.Ok?) && (r.Err? ==> r.error == spec.error)
        && (r.Ok? ==> fresh(r.value) && r.value.Contents() == spec.value)
    {
      var reader := new ByteStream(data);
      var header :- ReadHeader(reader);
      var file := new BspFile(reader, header);
      var _ :- file.LoadLumps(remap, pngSize);
      return Ok(file);
    }

    /** The Load calls of the constructor, in its order, on a fresh file. */
    method LoadLumps(remap: map<string, string>, pngSize: string -> Option<(int, int)>) returns (r: Result<()>)
      requires header.Valid()
      requires Contents() == BspContents(header, [], [], [], [], [], [], [], [])
      modifies reader`pos, this
      ensures var spec := ParseLumps(reader.data, header, remap, pngSize);
        (r.Ok? <==> spec.Ok?) && (r.Err? ==> r.error == spec.error)
        && (r.Ok? ==> Contents() == spec.value)
    {
      var _ :- LoadGeometry();
      var _ :- LoadSurfaceLumps(remap, pngSize);
      return Ok(());
    }

    /** LoadVertices, LoadEdges, LoadSurfaceEdges, LoadPlanes. */
    method LoadGeometry() returns (r: Result<()>)
      requires header.Valid()
      modifies reader`pos, this`vertices, this`edges, this`surfEdges, this`planes
      ensures var spec := GeometryLumps(reader.data, old(Contents()));
        (r.Ok? <==> spec.Ok?) && (r.Err? ==> r.error == spec.error)
        && (r.Ok? ==> Contents() == spec.value)
    {
      var _ :- LoadVertices();
      var _ :- LoadEdges();
      var _ :- LoadSurfaceEdges();
      var _ :- LoadPlanes();
      return Ok(());
    }

    /** LoadTextures, LoadSurfaces, LoadModels. */
    method LoadSurfaceLumps(remap: map<string, string>, pngSize: string -> Option<(int, int)>) returns (r: Result<()>)
      requires header.Valid()
      modifies reader`pos, this`texInfos, this`uniqueTextureNames, this`surfaces, this`models
      ensures var spec := SurfaceLumps(reader.data, old(Contents()), remap, pngSize);
        (r.Ok? <==> spec.Ok?) && (r.Err? ==> r.error == spec.error)
        && (r.Ok? ==> Contents() == spec.value)
    {
      var _ :- LoadTextures(remap, pngSize);
      r := LoadFaceLumps();
    }

    /** LoadSurfaces, then LoadModels. */
    method LoadFaceLumps() returns (r: Result<()>)
      requires header.Valid()
      modifies reader`pos, this`surfaces, this`models
      ensures var spec := FaceLumps(reader.data, old(Contents()));
        (r.Ok? <==> spec.Ok?) && (r.Err? ==> r.error == spec.error)
        && (r.Ok? ==> Contents() == spec.value)
    {
      var _ :- LoadSurfaces();
      var _ :- LoadModels();
      return Ok(());
    }

    /** Moves the stream to the lump's offset and gives its size. */
    method SetBSPReaderPos(lump: Q2BspLump) returns (r: Result<int>)
      requires header.Valid()
      modifies reader`pos
      ensures var offset := header.lumpOffsets[LumpIndex(lump)];
        offset < 0 ==> r == Err(NegativePosition)
    ensures var offset := header.lumpOffsets[LumpIndex(lump)];
        0 <= offset ==> r == Ok(header.lumpSizes[LumpIndex(lump)]) && reader.pos == offset
    {
      var _ :- reader.Seek(header.lumpOffsets[LumpIndex(lump)]);
      return Ok(header.lumpSizes[LumpIndex(lump)]);
    }

    /** LoadVertices: size / 12 records of three float words. */
    method LoadVertices() returns (r: Result<nat>)
      requires header.Valid()
      modifies reader`pos, this`vertices
      ensures var spec := LumpRecords(reader.data, header, Vertices, VertexSize);
        (r.Ok? <==> spec.Ok?) && (r.Err? ==> r.error == spec.error)
        && (r.Ok? ==> r.value == spec.value.1 && vertices == VertexLump(reader.data, spec.value.0, spec.value.1))
    {
      var size :- SetBSPReaderPos(Vertices);
      var total := RecordCount(size, VertexSize);
      if total < 0 {
        return Err(NegativeCount);
      }
      var offset := reader.pos;
      var read: seq<Vector3> := [];
      for i := 0 to total
        invariant reader.pos == offset + VertexSize * i
        invariant i == 0 || offset + VertexSize * i <= |reader.data|
        invariant read == VertexLump(reader.data, offset, i)
      {
        var record := ReadVector3(reader);
        if record.Err? {
          RecordsRunShort(reader.data, offset, i, total, VertexSize);
          return Err(record.error);
        }
        assert read + [record.value] == VertexLump(reader.data, offset, i + 1);
        read := read + [record.value];
      }
      vertices := read;
      return Ok(total);
    }

    /** LoadEdges: size / 4 records of two unsigned 16-bit indices. */
    method LoadEdges() returns (r: Result<nat>)
      requires header.Valid()
      modifies reader`pos, this`edges
      ensures var spec := LumpRecords(reader.data, header, Edges, EdgeSize);
        (r.Ok? <==> spec.Ok?) && (r.Err? ==> r.error == spec.error)
        && (r.Ok? ==> r.value == spec.value.1 && edges == EdgeLump(reader.data, spec.value.0, spec.value.1))
    {
      var size :- SetBSPReaderPos(Edges);
      var total := RecordCount(size, EdgeSize);
      if total < 0 {
        return Err(NegativeCount);
      }
      var offset := reader.pos;
      var read: seq<BspEdge> := [];
      for i := 0 to total
        invariant reader.pos == offset + EdgeSize * i
        invariant i == 0 || offset + EdgeSize * i <= |reader.data|
        invariant read == EdgeLump(reader.data, offset, i)
      {
        var record := ReadEdge(reader);
        if record.Err? {
          RecordsRunShort(reader.data, offset, i, total, EdgeSize);
          return Err(record.error);
        }
        assert read + [record.value] == EdgeLump(reader.data, offset, i + 1);
        read := read + [record.value];
      }
      edges := read;
      return Ok(total);
    }

    /** LoadSurfaceEdges: size / 4 signed 32-bit edge references. */
    method LoadSurfaceEdges() returns (r: Result<nat>)
      requires header.Valid()
      modifies reader`pos, this`surfEdges
      ensures var spec := LumpRecords(reader.data, header, SurfaceEdges, SurfaceEdgeSize);
        (r.Ok? <==> spec.Ok?) && (r.Err? ==> r.error == spec.error)
        && (r.Ok? ==> r.value == spec.value.1 && surfEdges == SurfaceEdgeLump(reader.data, spec.value.0, spec.value.1))
    {
      var size :- SetBSPReaderPos(SurfaceEdges);
      var total := RecordCount(size, SurfaceEdgeSize);
      if total < 0 {
        return Err(NegativeCount);
      }
      var offset := reader.pos;
      var read: seq<int> := [];
      for i := 0 to total
        invariant reader.pos == offset + SurfaceEdgeSize * i
        invariant i == 0 || offset + SurfaceEdgeSize * i <= |reader.data|
        invariant read == SurfaceEdgeLump(reader.data, offset, i)
      {
        var record := reader.ReadInt32();
        if record.Err? {
          RecordsRunShort(reader.data, offset, i, total, SurfaceEdgeSize);
          return Err(record.error);
        }
        assert read + [record.value] == SurfaceEdgeLump(reader.data, offset, i + 1);
        read := read + [record.value];
      }
      surfEdges := read;
      return Ok(total);
    }

    /** LoadPlanes: size / 20 records of a normal, a distance and a dropped type. */
    method LoadPlanes() returns (r: Result<nat>)
      requires header.Valid()
      modifies reader`pos, this`planes
      ensures var spec := LumpRecords(reader.data, header, Planes, PlaneSize);
        (r.Ok? <==> spec.Ok?) && (r.Err? ==> r.error == spec.error)
        && (r.Ok? ==> r.value == spec.value.1 && planes == PlaneLump(reader.data, spec.value.0, spec.value.1))
    {
      var size :- SetBSPReaderPos(Planes);
      var total := RecordCount(size, PlaneSize);
      if total < 0 {
        return Err(NegativeCount);
      }
      var offset := reader.pos;
      var read: seq<Plane> := [];
      for i := 0 to total
        invariant reader.pos == offset + PlaneSize * i
        invariant i == 0 || offset + PlaneSize * i <= |reader.data|
        invariant read == PlaneLump(reader.data, offset, i)
      {
        var record := ReadPlane(reader);
        if record.Err? {
          RecordsRunShort(reader.data, offset, i, total, PlaneSize);
          return Err(record.error);
        }
        assert read + [record.value] == PlaneLump(reader.data, offset, i + 1);
        read := read + [record.value];
      }
      planes := read;
      return Ok(total);
    }

    /** LoadSurfaces: size / 20 face records. */
    method LoadSurfaces() returns (r: Result<nat>)
      requires header.Valid()
      modifies reader`pos, this`surfaces
      ensures var spec := LumpRecords(reader.data, header, Surfaces, SurfaceSize);
        (r.Ok? <==> spec.Ok?) && (r.Err? ==> r.error == spec.error)
        && (r.Ok? ==> r.value == spec.value.1 && surfaces == SurfaceLump(reader.data, spec.value.0, spec.value.1))
    {
      var size :- SetBSPReaderPos(Surfaces);
      var total := RecordCount(size, SurfaceSize);
      if total < 0 {
        return Err(NegativeCount);
      }
      var offset := reader.pos;
      var read: seq<BspSurface> := [];
      for i := 0 to total
        invariant reader.pos == offset + SurfaceSize * i
        invariant i == 0 || offset + SurfaceSize * i <= |reader.data|
        invariant read == SurfaceLump(reader.data, offset, i)
      {
        var record := ReadSurface(reader);
        if record.Err? {
          RecordsRunShort(reader.data, offset, i, total, SurfaceSize);
          return Err(record.error);
        }
        assert read + [record.value] == SurfaceLump(reader.data, offset, i + 1);
        read := read + [record.value];
      }
      surfaces := read;
      return Ok(total);
    }

    /** LoadModels: size / 48 model records. */
    method LoadModels() returns (r: Result<nat>)
      requires header.Valid()
      modifies reader`pos, this`models
      ensures var spec := LumpRecords(reader.data, header, Models, ModelSize);
        (r.Ok? <==> spec.Ok?) && (r.Err? ==> r.error == spec.error)
        && (r.Ok? ==> r.value == spec.value.1 && models == ModelLump(reader.data, spec.value.0, spec.value.1))
    {
      var size :- SetBSPReaderPos(Models);
      var total := RecordCount(size, ModelSize);
      if total < 0 {
        return Err(NegativeCount);
      }
      var offset := reader.pos;
      var read: seq<BspModel> := [];
      for i := 0 to total
        invariant reader.pos == offset + ModelSize * i
        invariant i == 0 || offset + ModelSize * i <= |reader.data|
        invariant read == ModelLump(reader.data, offset, i)
      {
        var record := ReadModel(reader);
        if record.Err? {
          RecordsRunShort(reader.data, offset, i, total, ModelSize);
          return Err(record.error);
        }
        assert read + [record.value] == ModelLump(reader.data, offset, i + 1);
        read := read + [record.value];
      }
      models := read;
      return Ok(total);
    }

    /** One texinfo record of LoadTextures: the fields and the name, the
        registry step for its key, then the next-texinfo link. */
    method ReadTexInfo(remap: map<string, string>, pngSize: string -> Option<(int, int)>) returns (r: Result<BspTexInfo>)
      modifies reader`pos, this`uniqueTextureNames
      ensures var rec := TexRecordAt(reader.data, old(reader.pos), pngSize);
        (r.Ok? <==> rec.Ok?) && (r.Err? ==> r.error == rec.error)
        && (r.Ok? ==>
              r.value == rec.value.0.(textureNameIndex := Register(old(uniqueTextureNames), rec.value.1, remap).0)
              && uniqueTextureNames == Register(old(uniqueTextureNames), rec.value.1, remap).1
              && reader.pos == old(reader.pos) + TexInfoSize)
    {
      ghost var p := reader.pos;
      var head := ReadTexInfoHead(reader, pngSize);
      if head.Err? {
        return Err(head.error);
      }
      var (info, key) := head.value;
      var index := IndexOf(uniqueTextureNames, key);
      if index == -1 && key != SkipTexture {
        var name := key;
        if key in remap {
          name := remap[key];
        }
        uniqueTextureNames := uniqueTextureNames + [name];
        index := |uniqueTextureNames| - 1;
      }
      var next := reader.ReadInt32();
      if next.Err? {
        LinkCutShort(reader.data, p, pngSize);
        return Err(next.error);
      }
      return Ok(info.(textureNameIndex := index, nextTexInfo := next.value));
    }

    /** The record loop of LoadTextures: total texinfo records read from the
        current position, each registered in turn. */
    method ReadTexInfos(total: nat, remap: map<string, string>, pngSize: string -> Option<(int, int)>)
      returns (r: Result<seq<BspTexInfo>>)
      modifies reader`pos, this`uniqueTextureNames
      ensures var spec := RegisterAll(TexRecords(reader.data, old(reader.pos), total, pngSize), old(uniqueTextureNames), remap);
        (r.Ok? <==> spec.Ok?) && (r.Err? ==> r.error == spec.error)
        && (r.Ok? ==> (r.value, uniqueTextureNames) == spec.value)
    {
      var offset := reader.pos;
      ghost var recs := TexRecords(reader.data, offset, total, pngSize);
      ghost var names0 := uniqueTextureNames;
      var read: seq<BspTexInfo> := [];
      for i := 0 to total
        invariant reader.pos == offset + TexInfoSize * i
        invariant RegisterAll(recs[..i], names0, remap) == Ok((read, uniqueTextureNames))
      {
        var info := ReadTexInfoAt(remap, pngSize, offset, total, i, names0, read);
        if info.Err? {
          return Err(info.error);
        }
        read := read + [info.value];
      }
      assert recs[..total] == recs;
      return Ok(read);
    }

    /** Record i of ReadTexInfos, read after records 0 .. i - 1 were read and
        registered. */
    method ReadTexInfoAt(remap: map<string, string>, pngSize: string -> Option<(int, int)>, ghost offset: nat,
                         ghost total: nat, ghost i: nat, ghost names0: seq<string>, ghost read: seq<BspTexInfo>)
      returns (r: Result<BspTexInfo>)
      requires i < total && reader.pos == offset + TexInfoSize * i
      requires RegisterAll(TexRecords(reader.data, offset, total, pngSize)[..i], names0, remap)
               == Ok((read, uniqueTextureNames))
      modifies reader`pos, this`uniqueTextureNames
      ensures var recs := TexRecords(reader.data, offset, total, pngSize);
        (r.Err? ==> RegisterAll(recs, names0, remap) == Err(r.error))
        && (r.Ok? ==> reader.pos == offset + TexInfoSize * (i + 1)
                      && RegisterAll(recs[..i + 1], names0, remap) == Ok((read + [r.value], uniqueTextureNames)))
    {
      ghost var recs := TexRecords(reader.data, offset, total, pngSize);
      ghost var names := uniqueTextureNames;
      assert recs[i] == TexRecordAt(reader.data, reader.pos, pngSize);
      r := ReadTexInfo(remap, pngSize);
      if r.Err? {
        RegisterAllStopsAt(recs, names0, remap, i);
        return;
      }
      RegisterAllStep(recs, names0, remap, i, read, names, r.value, uniqueTextureNames);
    }

    /** LoadTextures: size / 76 texinfo records, read and registered one by
        one. */
    method LoadTextures(remap: map<string, string>, pngSize: string -> Option<(int, int)>) returns (r: Result<nat>)
      requires header.Valid()
      modifies reader`pos, this`texInfos, this`uniqueTextureNames
      ensures var spec := TextureLump(reader.data, header, old(uniqueTextureNames), remap, pngSize);
        (r.Ok? <==> spec.Ok?) && (r.Err? ==> r.error == spec.error)
        && (r.Ok? ==> r.value == |texInfos| && (texInfos, uniqueTextureNames) == spec.value)
    {
      var size :- SetBSPReaderPos(TextureInfo);
      var total := RecordCount(size, TexInfoSize);
      if total < 0 {
        return Err(NegativeCount);
      }
      var read :- ReadTexInfos(total, remap, pngSize);
      texInfos := read;
      return Ok(total);
    }
  }
}
