// map2jms/BspFile.cs: the IBSP version-38 header and lump directory, the seven
// lumps the converter decodes, the material-symbol suffix of a texture name and
// the registry of unique texture names.
module Bsp {
  import opened Outcomes
  import opened BasicTypes
  import opened BinaryIO
  import opened Text

  const CorrectHeader: string := "IBSP"
  const CorrectVersion: int := 38
  const SkipTexture: string := "tools/skip"

  /** The magic, the version and 19 (offset, size) pairs. */
  const HeaderSize: nat := 8 + 8 * TotalLumps

  const VertexSize: nat := 12
  const EdgeSize: nat := 4
  const SurfaceEdgeSize: nat := 4
  const PlaneSize: nat := 20
  const TexInfoSize: nat := 76
  const SurfaceSize: nat := 20
  const ModelSize: nat := 48

  /** The texture name field inside a texinfo record. */
  const TextureNameSize: nat := 32

  // ===========================================================================
  // Header

  datatype BspHeader = BspHeader(version: int, lumpOffsets: seq<int>, lumpSizes: seq<int>)
  {
    predicate Valid() {
      |lumpOffsets| == TotalLumps && |lumpSizes| == TotalLumps
    }
  }

  /** The BspHeader constructor reading at position p: the magic first, then
      the version, then the directory. */
  function ParseHeader(data: seq<byte>, p: nat): (r: Result<BspHeader>)
    ensures r.Ok? ==> r.value.Valid() && r.value.version == CorrectVersion
  {
    var magic := AsciiString(Available(data, p, 4));
    if magic != CorrectHeader then Err(BadMagic(magic))
    else if |data| < p + 8 then Err(EndOfStream)
    else if I32(data, p + 4) != CorrectVersion then Err(BadVersion(I32(data, p + 4)))
    else if |data| < p + HeaderSize then Err(EndOfStream)
    else Ok(BspHeader(CorrectVersion,
      seq(TotalLumps, i requires 0 <= i < TotalLumps => I32(data, p + 8 + 8 * i)),
      seq(TotalLumps, i requires 0 <= i < TotalLumps => I32(data, p + 12 + 8 * i))))
  }

  /** The bytes of "IBSP". */
  const MagicBytes: seq<byte> := [0x49, 0x42, 0x53, 0x50]

  lemma MagicText()
    ensures forall i :: 0 <= i < |CorrectHeader| ==>
      CorrectHeader[i] as int < 0x80 && CorrectHeader[i] != '?'
    ensures |MagicBytes| == |CorrectHeader|
    ensures forall i :: 0 <= i < |CorrectHeader| ==> MagicBytes[i] == CorrectHeader[i] as int
  {
  }

  /** The magic matches exactly when the four bytes at p are "IBSP". */
  lemma MagicMatches(data: seq<byte>, p: nat)
    ensures AsciiString(Available(data, p, 4)) == CorrectHeader <==>
      p + 4 <= |data| && data[p..p + 4] == MagicBytes
  {
    var b := Available(data, p, 4);
    MagicText();
    AsciiDecodesUniquely(b, CorrectHeader);
    if p + 4 <= |data| && data[p..p + 4] == MagicBytes {
      assert b == MagicBytes;
    }
  }

  /** A header is accepted exactly when the data holds "IBSP", the
      little-endian version 38 and a whole directory. */
  lemma HeaderAccepted(data: seq<byte>, p: nat)
    ensures ParseHeader(data, p).Ok? <==>
      p + HeaderSize <= |data| && data[p..p + 4] == MagicBytes && I32(data, p + 4) == CorrectVersion
  {
    MagicMatches(data, p);
  }

  /** The magic is checked before the version is read: a wrong or short
      magic is reported as such however short the data, and a version error is
      only reported behind a correct magic. */
  lemma HeaderCheckOrder(data: seq<byte>, p: nat)
    ensures var r := ParseHeader(data, p);
      (r.Err? && r.error.BadMagic? <==> !(p + 4 <= |data| && data[p..p + 4] == MagicBytes))
      && (r.Err? && r.error.BadVersion? ==>
            p + 8 <= |data| && data[p..p + 4] == MagicBytes
            && r.error.version == I32(data, p + 4) != CorrectVersion)
  {
    MagicMatches(data, p);
  }

  /** Slot k of the directory holds the offset at 8 + 8k and the size at
      12 + 8k: offset before size, in lump order. */
  lemma HeaderDirectory(data: seq<byte>, p: nat, k: nat)
    requires ParseHeader(data, p).Ok? && k < TotalLumps
    ensures var h := ParseHeader(data, p).value;
      p + 16 + 8 * k <= |data|
      && h.lumpOffsets[k] == I32(data, p + 8 + 8 * k)
      && h.lumpSizes[k] == I32(data, p + 12 + 8 * k)
  {
  }

  /** The directory as a writer lays it out: one (offset, size) pair per lump. */
  function EncodeDirectory(offsets: seq<int>, sizes: seq<int>): (b: seq<byte>)
    requires |offsets| == |sizes|
    requires forall i :: 0 <= i < |offsets| ==> -0x8000_0000 <= offsets[i] < 0x8000_0000
    requires forall i :: 0 <= i < |sizes| ==> -0x8000_0000 <= sizes[i] < 0x8000_0000
    ensures |b| == 8 * |offsets|
  {
    if |offsets| == 0 then []
    else EncodeI32(offsets[0]) + EncodeI32(sizes[0]) + EncodeDirectory(offsets[1..], sizes[1..])
  }

  /** The entries of an encoded directory decode to the values written. */
  lemma {:induction false} DecodeDirectory(offsets: seq<int>, sizes: seq<int>, k: nat)
    requires |offsets| == |sizes| && k < |offsets|
    requires forall i :: 0 <= i < |offsets| ==> -0x8000_0000 <= offsets[i] < 0x8000_0000
    requires forall i :: 0 <= i < |sizes| ==> -0x8000_0000 <= sizes[i] < 0x8000_0000
    ensures var b := EncodeDirectory(offsets, sizes);
      I32(b, 8 * k) == offsets[k] && I32(b, 8 * k + 4) == sizes[k]
  {
    var b := EncodeDirectory(offsets, sizes);
    var first, second := EncodeI32(offsets[0]), EncodeI32(sizes[0]);
    var rest := EncodeDirectory(offsets[1..], sizes[1..]);
    assert b == first + second + rest;
    if k == 0 {
      DecodeEncodeI32(offsets[0]);
      DecodeEncodeI32(sizes[0]);
      I32Equal(b, 0, first, 0);
      I32Equal(b, 4, second, 0);
    } else {
      DecodeDirectory(offsets[1..], sizes[1..], k - 1);
      I32Equal(b, 8 * k, rest, 8 * (k - 1));
      I32Equal(b, 8 * k + 4, rest, 8 * (k - 1) + 4);
    }
  }

  /** "IBSP" and an encoded version 38 in front of at least a directory's
      worth of bytes make an accepted header. */
  lemma EncodedHeaderAccepted(tail: seq<byte>)
    requires 8 * TotalLumps <= |tail|
    ensures ParseHeader(MagicBytes + EncodeI32(CorrectVersion) + tail, 0).Ok?
  {
    var version := EncodeI32(CorrectVersion);
    var data := MagicBytes + version + tail;
    assert data[..4] == MagicBytes;
    DecodeEncodeI32(CorrectVersion);
    I32Equal(data, 4, version, 0);
    HeaderAccepted(data, 0);
  }

  /** A directory entry placed after eight header bytes. */
  lemma EncodedEntry(head: seq<byte>, dir: seq<byte>, rest: seq<byte>, q: nat)
    requires |head| == 8 && q + 4 <= |dir|
    ensures I32(head + dir + rest, 8 + q) == I32(dir, q)
  {
    I32Equal(head + dir + rest, 8 + q, dir, q);
  }

  /** Round trip: a header written as "IBSP", version 38 and a directory reads
      back as that directory, whatever follows it. */
  lemma ParseEncodedHeader(offsets: seq<int>, sizes: seq<int>, rest: seq<byte>)
    requires |offsets| == TotalLumps && |sizes| == TotalLumps
    requires forall i :: 0 <= i < |offsets| ==> -0x8000_0000 <= offsets[i] < 0x8000_0000
    requires forall i :: 0 <= i < |sizes| ==> -0x8000_0000 <= sizes[i] < 0x8000_0000
    ensures ParseHeader(MagicBytes + EncodeI32(CorrectVersion) + EncodeDirectory(offsets, sizes) + rest, 0)
      == Ok(BspHeader(CorrectVersion, offsets, sizes))
  {
    var head, dir := MagicBytes + EncodeI32(CorrectVersion), EncodeDirectory(offsets, sizes);
    var data := head + dir + rest;
    assert data == MagicBytes + EncodeI32(CorrectVersion) + (dir + rest);
    EncodedHeaderAccepted(dir + rest);
    var h := ParseHeader(data, 0).value;
    forall k | 0 <= k < TotalLumps
      ensures h.lumpOffsets[k] == offsets[k] && h.lumpSizes[k] == sizes[k]
    {
      HeaderDirectory(data, 0, k);
      DecodeDirectory(offsets, sizes, k);
      EncodedEntry(head, dir, rest, 8 * k);
      EncodedEntry(head, dir, rest, 8 * k + 4);
    }
    SameHeader(h, offsets, sizes);
  }

  lemma SameHeader(h: BspHeader, offsets: seq<int>, sizes: seq<int>)
    requires h.Valid() && h.version == CorrectVersion
    requires |offsets| == TotalLumps && |sizes| == TotalLumps
    requires forall k :: 0 <= k < TotalLumps ==> h.lumpOffsets[k] == offsets[k] && h.lumpSizes[k] == sizes[k]
    ensures h == BspHeader(CorrectVersion, offsets, sizes)
  {
    assert h.lumpOffsets == offsets;
    assert h.lumpSizes == sizes;
  }

  // ===========================================================================
  // Lumps

  /** size / width with C#'s integer division, which truncates toward zero. */
  function RecordCount(size: int, width: nat): (n: int)
    requires 0 < width
    ensures 0 <= size ==> 0 <= n * width <= size < n * width + width
    ensures size < 0 ==> size <= n * width <= 0 && n * width - width < size
  {
    if 0 <= size then
      DivisionBounds(size, width);
      size / width
    else
      DivisionBounds(-size, width);
      assert -((-size) / width) * width == -(((-size) / width) * width);
      -((-size) / width)
  }

  /** The quotient of a natural division, times the divisor, is the largest
      multiple not above the dividend. */
  lemma DivisionBounds(a: nat, width: nat)
    requires 0 < width
    ensures 0 <= (a / width) * width <= a < (a / width) * width + width
  {
    assert a == (a / width) * width + a % width;
  }

  /** Where SetBSPReaderPos and the allocation of the record array stop a
      lump: a negative offset is refused by FileStream.Position, a negative
      count by the array allocation, and a lump running past the end of the
      data by the first read that does not find its bytes. Otherwise the
      number of records. */
  function LumpLayout(data: seq<byte>, offset: int, size: int, width: nat): (r: Result<nat>)
    requires 0 < width
    ensures r.Ok? <==> (0 <= offset && 0 < size + width
      && (RecordCount(size, width) == 0 || offset + RecordCount(size, width) * width <= |data|))
    ensures r.Err? ==> r.error in {NegativePosition, NegativeCount, EndOfStream}
    ensures r.Ok? ==> r.value * width <= (if size < 0 then 0 else size) < r.value * width + width
  {
    if offset < 0 then Err(NegativePosition)
    else
      var n := RecordCount(size, width);
      if n < 0 then Err(NegativeCount)
      else if 0 < n && |data| < offset + n * width then Err(EndOfStream)
      else Ok(n)
  }

  /** Of the lump sizes that are multiples of the record width, exactly the
      negative ones are refused as counts; a size short of a whole record
      (negative or not) yields no records. */
  lemma RemainderIgnored(size: int, width: nat)
    requires 0 < width
    ensures RecordCount(size, width) == 0 <==> 0 < size + width && size < width
    ensures RecordCount(size * width, width) == size
  {
    var n := RecordCount(size * width, width);
    if 0 <= size {
      assert 0 <= n * width <= size * width < n * width + width;
      MulOrder(n, size, width);
    } else {
      assert size * width <= n * width <= 0 && n * width - width < size * width;
      MulOrder(size, n, width);
    }
  }

  lemma MulOrder(a: int, b: int, w: nat)
    requires 0 < w && a * w <= b * w < a * w + w
    ensures a == b
  {
    if a < b {
      assert (a + 1) * w <= b * w by {
        MulMonotone(a + 1, b, w);
      }
    } else if b < a {
      MulMonotone(b + 1, a, w);
    }
  }

  lemma MulMonotone(a: int, b: int, w: nat)
    requires a <= b
    ensures a * w <= b * w
  {
  }

  // Record decoders. Floats stay raw words; every other field has the width
  // its reader call gives it.

  function DecodeVector3(data: seq<byte>, p: nat): Vector3
    requires p + 12 <= |data|
  {
    Vector3(Word(data, p), Word(data, p + 4), Word(data, p + 8))
  }

  /** Two unsigned 16-bit vertex indices. */
  function DecodeEdge(data: seq<byte>, p: nat): (e: BspEdge)
    requires p + EdgeSize <= |data|
    ensures 0 <= e.v1 < 0x1_0000 && 0 <= e.v2 < 0x1_0000
  {
    BspEdge(U16(data, p), U16(data, p + 2))
  }

  /** A normal and a distance; the trailing int32 plane type is read and
      dropped. */
  function DecodePlane(data: seq<byte>, p: nat): Plane
    requires p + PlaneSize <= |data|
  {
    Plane(DecodeVector3(data, p), Word(data, p + 12))
  }

  /** Plane, side: u16; first edge: i32; edge count, texinfo: u16; lightmap
      styles and offset: i32. */
  function DecodeSurface(data: seq<byte>, p: nat): (s: BspSurface)
    requires p + SurfaceSize <= |data|
    ensures 0 <= s.plane < 0x1_0000 && 0 <= s.planeSide < 0x1_0000
    ensures 0 <= s.numEdges < 0x1_0000 && 0 <= s.textureInfo < 0x1_0000
    ensures -0x8000_0000 <= s.firstEdge < 0x8000_0000
  {
    BspSurface(U16(data, p), U16(data, p + 2), I32(data, p + 4), U16(data, p + 8),
      U16(data, p + 10), I32(data, p + 12), I32(data, p + 16))
  }

  /** Bounding box, origin, then head node, first face and face count as i32. */
  function DecodeModel(data: seq<byte>, p: nat): (m: BspModel)
    requires p + ModelSize <= |data|
    ensures -0x8000_0000 <= m.firstFace < 0x8000_0000
    ensures -0x8000_0000 <= m.numFaces < 0x8000_0000
  {
    BspModel(DecodeVector3(data, p), DecodeVector3(data, p + 12), DecodeVector3(data, p + 24),
      I32(data, p + 36), I32(data, p + 40), I32(data, p + 44))
  }

  function EncodeEdge(e: BspEdge): (b: seq<byte>)
    requires 0 <= e.v1 < 0x1_0000 && 0 <= e.v2 < 0x1_0000
    ensures |b| == EdgeSize
  {
    EncodeU16(e.v1) + EncodeU16(e.v2)
  }

  /** An edge written out reads back unchanged. */
  lemma DecodeEncodeEdge(e: BspEdge)
    requires 0 <= e.v1 < 0x1_0000 && 0 <= e.v2 < 0x1_0000
    ensures DecodeEdge(EncodeEdge(e), 0) == e
  {
    var b := EncodeEdge(e);
    DecodeEncodeU16(e.v1);
    DecodeEncodeU16(e.v2);
    assert b[2..] == EncodeU16(e.v2);
    U16Window(b, 2);
  }

  function EncodeVector3(v: Vector3): (b: seq<byte>)
    ensures |b| == 12
  {
    EncodeU32(v.x) + EncodeU32(v.y) + EncodeU32(v.z)
  }

  /** A vector encoded at position q reads back there. */
  lemma Vector3At(b: seq<byte>, q: nat, v: Vector3)
    requires q + 12 <= |b| && b[q..q + 12] == EncodeVector3(v)
    ensures DecodeVector3(b, q) == v
  {
    var xy := EncodeU32(v.x) + EncodeU32(v.y);
    assert EncodeVector3(v) == xy + EncodeU32(v.z);
    assert b[q..q + 8] == b[q..q + 12][..8] == xy;
    assert b[q..q + 4] == xy[..4] == EncodeU32(v.x);
    assert b[q + 4..q + 8] == xy[4..] == EncodeU32(v.y);
    assert b[q + 8..q + 12] == EncodeU32(v.z);
    U32At(b, q, v.x);
    U32At(b, q + 4, v.y);
    U32At(b, q + 8, v.z);
  }

  /** A surface whose fields fit their widths: the plane, the side, the edge
      count and the texinfo unsigned 16-bit, the rest signed 32-bit. */
  predicate SurfaceFits(s: BspSurface) {
    0 <= s.plane < 0x1_0000 && 0 <= s.planeSide < 0x1_0000
    && 0 <= s.numEdges < 0x1_0000 && 0 <= s.textureInfo < 0x1_0000
    && -0x8000_0000 <= s.firstEdge < 0x8000_0000
    && -0x8000_0000 <= s.lightmapStyles < 0x8000_0000 && -0x8000_0000 <= s.lightmapOffset < 0x8000_0000
  }

  function EncodeSurface(s: BspSurface): (b: seq<byte>)
    requires SurfaceFits(s)
    ensures |b| == SurfaceSize
  {
    EncodeU16(s.plane) + EncodeU16(s.planeSide) + EncodeI32(s.firstEdge) + EncodeU16(s.numEdges)
      + EncodeU16(s.textureInfo) + EncodeI32(s.lightmapStyles) + EncodeI32(s.lightmapOffset)
  }

  /** A surface written out reads back unchanged: each field sits at its own
      offset, 0, 2, 4, 8, 10, 12 and 16, with its own width. */
  lemma DecodeEncodeSurface(s: BspSurface)
    requires SurfaceFits(s)
    ensures DecodeSurface(EncodeSurface(s), 0) == s
  {
    var b := EncodeSurface(s);
    assert b[0..2] == EncodeU16(s.plane);
    assert b[2..4] == EncodeU16(s.planeSide);
    assert b[4..8] == EncodeI32(s.firstEdge);
    assert b[8..10] == EncodeU16(s.numEdges);
    assert b[10..12] == EncodeU16(s.textureInfo);
    assert b[12..16] == EncodeI32(s.lightmapStyles);
    assert b[16..20] == EncodeI32(s.lightmapOffset);
    U16At(b, 0, s.plane);
    U16At(b, 2, s.planeSide);
    I32At(b, 4, s.firstEdge);
    U16At(b, 8, s.numEdges);
    U16At(b, 10, s.textureInfo);
    I32At(b, 12, s.lightmapStyles);
    I32At(b, 16, s.lightmapOffset);
  }

  /** A model whose head node, first face and face count fit 32 signed
      bits. */
  predicate ModelFits(m: BspModel) {
    -0x8000_0000 <= m.headNode < 0x8000_0000 && -0x8000_0000 <= m.firstFace < 0x8000_0000
    && -0x8000_0000 <= m.numFaces < 0x8000_0000
  }

  function EncodeModel(m: BspModel): (b: seq<byte>)
    requires ModelFits(m)
    ensures |b| == ModelSize
  {
    EncodeVector3(m.bbmin) + EncodeVector3(m.bbmax) + EncodeVector3(m.origin)
      + EncodeI32(m.headNode) + EncodeI32(m.firstFace) + EncodeI32(m.numFaces)
  }

  /** A model written out reads back unchanged: the three vectors at 0, 12
      and 24, then the head node, first face and face count at 36, 40 and
      44. */
  lemma DecodeEncodeModel(m: BspModel)
    requires ModelFits(m)
    ensures DecodeModel(EncodeModel(m), 0) == m
  {
    var b := EncodeModel(m);
    assert b[0..12] == EncodeVector3(m.bbmin);
    assert b[12..24] == EncodeVector3(m.bbmax);
    assert b[24..36] == EncodeVector3(m.origin);
    assert b[36..40] == EncodeI32(m.headNode);
    assert b[40..44] == EncodeI32(m.firstFace);
    assert b[44..48] == EncodeI32(m.numFaces);
    Vector3At(b, 0, m.bbmin);
    Vector3At(b, 12, m.bbmax);
    Vector3At(b, 24, m.origin);
    I32At(b, 36, m.headNode);
    I32At(b, 40, m.firstFace);
    I32At(b, 44, m.numFaces);
  }

  // The decoded lumps: record i at offset + width * i.

  function VertexLump(data: seq<byte>, offset: nat, n: nat): seq<Vector3>
    requires n == 0 || offset + n * VertexSize <= |data|
  {
    seq(n, i requires 0 <= i < n => DecodeVector3(data, offset + VertexSize * i))
  }

  function EdgeLump(data: seq<byte>, offset: nat, n: nat): seq<BspEdge>
    requires n == 0 || offset + n * EdgeSize <= |data|
  {
    seq(n, i requires 0 <= i < n => DecodeEdge(data, offset + EdgeSize * i))
  }

  function SurfaceEdgeLump(data: seq<byte>, offset: nat, n: nat): seq<int>
    requires n == 0 || offset + n * SurfaceEdgeSize <= |data|
  {
    seq(n, i requires 0 <= i < n => I32(data, offset + SurfaceEdgeSize * i))
  }

  function PlaneLump(data: seq<byte>, offset: nat, n: nat): seq<Plane>
    requires n == 0 || offset + n * PlaneSize <= |data|
  {
    seq(n, i requires 0 <= i < n => DecodePlane(data, offset + PlaneSize * i))
  }

  function SurfaceLump(data: seq<byte>, offset: nat, n: nat): seq<BspSurface>
    requires n == 0 || offset + n * SurfaceSize <= |data|
  {
    seq(n, i requires 0 <= i < n => DecodeSurface(data, offset + SurfaceSize * i))
  }

  function ModelLump(data: seq<byte>, offset: nat, n: nat): seq<BspModel>
    requires n == 0 || offset + n * ModelSize <= |data|
  {
    seq(n, i requires 0 <= i < n => DecodeModel(data, offset + ModelSize * i))
  }

  // ===========================================================================
  // Material symbols

  /** The symbols of the ten Halo flags, in HaloFlags order. */
  const HaloSymbols: string := "%#!*@$^-&."

  /** The symbol c when flag is set in flags, nothing otherwise. */
  function Symbol(flags: bv32, flag: bv32, c: char): (s: string)
    ensures |s| <= 1
  {
    if HasFlag(flags, flag) then [c] else ""
  }

  /** GetMaterialSymbols: one symbol appended per Halo flag set, tested in a
      fixed order. */
  function MaterialSymbols(flags: bv32): (symbols: string)
    ensures |symbols| <= |HaloFlags|
  {
    Symbol(flags, TwoSided, '%') + Symbol(flags, Transparent, '#') + Symbol(flags, RenderOnly, '!')
    + Symbol(flags, UnitCollision, '*') + Symbol(flags, FullCollision, '@') + Symbol(flags, FogPlane, '$')
    + Symbol(flags, Climbable, '^') + Symbol(flags, Breakable, '-') + Symbol(flags, AIDeafening, '&')
    + Symbol(flags, ExactPortal, '.')
  }

  /** The suffix read off the flag and symbol tables for the first k slots. */
  function SymbolsUpTo(flags: bv32, k: nat): string
    requires k <= |HaloFlags|
  {
    if k == 0 then ""
    else SymbolsUpTo(flags, k - 1) + Symbol(flags, HaloFlags[k - 1], HaloSymbols[k - 1])
  }

  /** How many of the first k Halo flags are set. */
  function SetHaloFlags(flags: bv32, k: nat): nat
    requires k <= |HaloFlags|
  {
    if k == 0 then 0
    else SetHaloFlags(flags, k - 1) + (if HasFlag(flags, HaloFlags[k - 1]) then 1 else 0)
  }

  /** GetMaterialSymbols agrees with the table. */
  lemma MaterialSymbolsByTable(flags: bv32)
    ensures MaterialSymbols(flags) == SymbolsUpTo(flags, |HaloFlags|)
  {
    var f := flags;
    assert SymbolsUpTo(f, 1) == Symbol(f, TwoSided, '%');
    assert SymbolsUpTo(f, 2) == SymbolsUpTo(f, 1) + Symbol(f, Transparent, '#');
    assert SymbolsUpTo(f, 3) == SymbolsUpTo(f, 2) + Symbol(f, RenderOnly, '!');
    assert SymbolsUpTo(f, 4) == SymbolsUpTo(f, 3) + Symbol(f, UnitCollision, '*');
    assert SymbolsUpTo(f, 5) == SymbolsUpTo(f, 4) + Symbol(f, FullCollision, '@');
    assert SymbolsUpTo(f, 6) == SymbolsUpTo(f, 5) + Symbol(f, FogPlane, '$');
    assert SymbolsUpTo(f, 7) == SymbolsUpTo(f, 6) + Symbol(f, Climbable, '^');
    assert SymbolsUpTo(f, 8) == SymbolsUpTo(f, 7) + Symbol(f, Breakable, '-');
    assert SymbolsUpTo(f, 9) == SymbolsUpTo(f, 8) + Symbol(f, AIDeafening, '&');
    assert SymbolsUpTo(f, 10) == SymbolsUpTo(f, 9) + Symbol(f, ExactPortal, '.');
  }

  /** Every symbol of the first k slots' suffix is one of the first k symbols. */
  lemma {:induction false} SymbolsWithin(flags: bv32, k: nat)
    requires k <= |HaloFlags|
    ensures forall c :: c in SymbolsUpTo(flags, k) ==> c in HaloSymbols[..k]
  {
    if k > 0 {
      SymbolsWithin(flags, k - 1);
      assert HaloSymbols[..k] == HaloSymbols[..k - 1] + [HaloSymbols[k - 1]];
    }
  }

  /** The suffix has one symbol per set flag. */
  lemma {:induction false} SymbolsLength(flags: bv32, k: nat)
    requires k <= |HaloFlags|
    ensures |SymbolsUpTo(flags, k)| == SetHaloFlags(flags, k)
  {
    if k > 0 {
      SymbolsLength(flags, k - 1);
    }
  }

  /** Two flag words give the same suffix over the first k slots exactly when
      they agree on those k flags. */
  lemma {:induction false} SymbolsDetermineFlags(f: bv32, g: bv32, k: nat)
    requires k <= |HaloFlags|
    ensures SymbolsUpTo(f, k) == SymbolsUpTo(g, k) <==>
      forall j :: 0 <= j < k ==> HasFlag(f, HaloFlags[j]) == HasFlag(g, HaloFlags[j])
  {
    if k > 0 {
      var c := HaloSymbols[k - 1];
      SymbolsDetermineFlags(f, g, k - 1);
      SymbolsWithin(f, k - 1);
      SymbolsWithin(g, k - 1);
      SymbolsDistinct(k - 1);
      var hf, hg := HasFlag(f, HaloFlags[k - 1]), HasFlag(g, HaloFlags[k - 1]);
      AppendOptional(SymbolsUpTo(f, k - 1), SymbolsUpTo(g, k - 1), c, hf, hg);
      assert SymbolsUpTo(f, k) == SymbolsUpTo(f, k - 1) + (if hf then [c] else "");
      assert SymbolsUpTo(g, k) == SymbolsUpTo(g, k - 1) + (if hg then [c] else "");
      assert (forall j :: 0 <= j < k ==> HasFlag(f, HaloFlags[j]) == HasFlag(g, HaloFlags[j])) <==>
        (forall j :: 0 <= j < k - 1 ==> HasFlag(f, HaloFlags[j]) == HasFlag(g, HaloFlags[j])) && hf == hg;
    }
  }

  /** No symbol repeats: slot k's symbol is not among the earlier ones. */
  lemma SymbolsDistinct(k: nat)
    requires k < |HaloSymbols|
    ensures HaloSymbols[k] !in HaloSymbols[..k]
  {
  }

  /** Appending a character that occurs in neither string, or nothing, keeps
      the strings and the choices apart. */
  lemma AppendOptional(a: string, b: string, c: char, ha: bool, hb: bool)
    requires c !in a && c !in b
    ensures (a + (if ha then [c] else "")) == (b + (if hb then [c] else "")) <==> a == b && ha == hb
  {
    var x, y := a + (if ha then [c] else ""), b + (if hb then [c] else "");
    if x == y {
      if ha && !hb {
        EndsWith(a, c);
        assert false;
      } else if hb && !ha {
        EndsWith(b, c);
        assert false;
      }
      assert a == x[..|a|] && b == y[..|b|];
    }
  }

  lemma EndsWith(s: string, c: char)
    ensures c in s + [c]
  {
    assert (s + [c])[|s|] == c;
  }

  /** Bits 10 to 19: the ten Halo flags. */
  const HaloMask: bv32 := 0xF_FC00

  /** A flag inside the mask is tested by the masked word alone. */
  lemma MaskedFlag(f: bv32, flag: bv32)
    requires flag & HaloMask == flag
    ensures HasFlag(f, flag) <==> HasFlag(f & HaloMask, flag)
  {
  }

  /** Agreeing on the ten Halo flags is agreeing on the masked bits. */
  lemma HaloFlagsAgree(f: bv32, g: bv32)
    ensures (forall j :: 0 <= j < |HaloFlags| ==> HasFlag(f, HaloFlags[j]) == HasFlag(g, HaloFlags[j]))
      <==> f & HaloMask == g & HaloMask
  {
    if f & HaloMask == g & HaloMask {
      MaskAgreement(f, g);
    }
    if forall j :: 0 <= j < |HaloFlags| ==> HasFlag(f, HaloFlags[j]) == HasFlag(g, HaloFlags[j]) {
      FlagsAgreement(f, g);
    }
  }

  lemma MaskAgreement(f: bv32, g: bv32)
    requires f & HaloMask == g & HaloMask
    ensures forall j :: 0 <= j < |HaloFlags| ==> HasFlag(f, HaloFlags[j]) == HasFlag(g, HaloFlags[j])
  {
    forall j | 0 <= j < |HaloFlags|
      ensures HasFlag(f, HaloFlags[j]) == HasFlag(g, HaloFlags[j])
    {
      HaloFlagInMask(j);
      MaskedFlag(f, HaloFlags[j]);
      MaskedFlag(g, HaloFlags[j]);
    }
  }

  lemma FlagsAgreement(f: bv32, g: bv32)
    requires forall j :: 0 <= j < |HaloFlags| ==> HasFlag(f, HaloFlags[j]) == HasFlag(g, HaloFlags[j])
    ensures f & HaloMask == g & HaloMask
  {
    var flags := HaloFlags;
    assert HasFlag(f, flags[0]) == HasFlag(g, flags[0]) && HasFlag(f, flags[1]) == HasFlag(g, flags[1]);
    assert HasFlag(f, flags[2]) == HasFlag(g, flags[2]) && HasFlag(f, flags[3]) == HasFlag(g, flags[3]);
    assert HasFlag(f, flags[4]) == HasFlag(g, flags[4]) && HasFlag(f, flags[5]) == HasFlag(g, flags[5]);
    assert HasFlag(f, flags[6]) == HasFlag(g, flags[6]) && HasFlag(f, flags[7]) == HasFlag(g, flags[7]);
    assert HasFlag(f, flags[8]) == HasFlag(g, flags[8]) && HasFlag(f, flags[9]) == HasFlag(g, flags[9]);
    AgreeOnBits(f, g);
  }

  lemma HaloFlagInMask(j: nat)
    requires j < |HaloFlags|
    ensures HaloFlags[j] & HaloMask == HaloFlags[j]
  {
  }

  /** Words that agree on each of the ten bits agree on the mask. */
  lemma AgreeOnBits(f: bv32, g: bv32)
    requires HasFlag(f, TwoSided) == HasFlag(g, TwoSided)
    requires HasFlag(f, Transparent) == HasFlag(g, Transparent)
    requires HasFlag(f, RenderOnly) == HasFlag(g, RenderOnly)
    requires HasFlag(f, UnitCollision) == HasFlag(g, UnitCollision)
    requires HasFlag(f, FullCollision) == HasFlag(g, FullCollision)
    requires HasFlag(f, FogPlane) == HasFlag(g, FogPlane)
    requires HasFlag(f, Climbable) == HasFlag(g, Climbable)
    requires HasFlag(f, Breakable) == HasFlag(g, Breakable)
    requires HasFlag(f, AIDeafening) == HasFlag(g, AIDeafening)
    requires HasFlag(f, ExactPortal) == HasFlag(g, ExactPortal)
    ensures f & HaloMask == g & HaloMask
  {
  }

  /** GetMaterialSymbols depends on the ten Halo bits and on nothing else, and
      different Halo bits give different suffixes. */
  lemma MaterialSymbolsInjective(f: bv32, g: bv32)
    ensures MaterialSymbols(f) == MaterialSymbols(g) <==> f & HaloMask == g & HaloMask
  {
    MaterialSymbolsByTable(f);
    MaterialSymbolsByTable(g);
    SymbolsDetermineFlags(f, g, |HaloFlags|);
    HaloFlagsAgree(f, g);
  }

  /** The suffix has one symbol per Halo flag set, and is empty exactly when
      none is set. */
  lemma MaterialSymbolsCount(flags: bv32)
    ensures |MaterialSymbols(flags)| == SetHaloFlags(flags, |HaloFlags|)
    ensures MaterialSymbols(flags) == "" <==> flags & HaloMask == 0
  {
    MaterialSymbolsByTable(flags);
    SymbolsLength(flags, |HaloFlags|);
    MaterialSymbolsInjective(flags, 0);
    assert MaterialSymbols(0) == "";
  }

  /** The converter's own AddMidpoint bit never shows in the suffix. */
  lemma AddMidpointInvisible(flags: bv32)
    ensures MaterialSymbols(flags | AddMidpoint) == MaterialSymbols(flags)
    ensures MaterialSymbols(flags & !AddMidpoint) == MaterialSymbols(flags)
  {
    MaterialSymbolsInjective(flags | AddMidpoint, flags);
    MaterialSymbolsInjective(flags & !AddMidpoint, flags);
  }

  // ===========================================================================
  // Texture names and the registry of unique names

  /** The 32-byte name field decoded as ASCII and cut at its first NUL; a field
      without NUL makes Substring(0, -1) throw. The result of the Trim call
      that follows is discarded, so no trimming happens. */
  function TextureName(raw: seq<byte>): (r: Result<string>)
    ensures r.Ok? <==> 0 in raw
    ensures r.Err? ==> r.error == MissingNul
    ensures r.Ok? ==> (|r.value| < |raw| && raw[|r.value|] == 0 && 0 !in raw[..|r.value|]
      && r.value == AsciiString(raw[..|r.value|]))
  {
    var text := AsciiString(raw);
    var nul := IndexOf(text, '\0');
    NulPositions(raw);
    if nul == -1 then Err(MissingNul)
    else
      assert text[..nul] == AsciiString(raw[..nul]);
      Ok(text[..nul])
  }

  lemma NulPositions(raw: seq<byte>)
    ensures forall i :: 0 <= i < |raw| ==> (AsciiString(raw)[i] == '\0' <==> raw[i] == 0)
    ensures '\0' in AsciiString(raw) <==> 0 in raw
  {
    forall i | 0 <= i < |raw|
      ensures AsciiString(raw)[i] == '\0' <==> raw[i] == 0
    {
      AsciiNul(raw, i);
    }
  }

  /** Spaces in a texture name survive: " wall" is kept as it is although its
      trimmed form differs. */
  lemma NameNotTrimmed()
    ensures TextureName([0x20, 0x77, 0x61, 0x6C, 0x6C, 0]) == Ok(" wall")
    ensures Trim(" wall") != " wall"
  {
    var raw: seq<byte> := [0x20, 0x77, 0x61, 0x6C, 0x6C, 0];
    assert raw[5] == 0 && 0 !in raw[..5];
    assert AsciiString(raw[..5]) == " wall";
    assert IsWhiteSpace(' ');
  }

  /** The name stored for a key: its replacement when the remap table has one. */
  function Remapped(remap: map<string, string>, key: string): string {
    if key in remap then remap[key] else key
  }

  /** The registry step of LoadTextures for a key (name plus material
      symbols): a key already registered gets its first index back; the skip
      texture, not registered, gets -1; any other key is remapped and
      appended, and gets the new last index. The lookup is by the key before
      remapping, the stored name is the one after. */
  function Register(names: seq<string>, key: string, remap: map<string, string>): (r: (int, seq<string>))
    ensures var (index, names') := r;
      -1 <= index < |names'| && names <= names' && |names'| <= |names| + 1
    ensures var (index, names') := r;
      key in names ==> (names' == names && 0 <= index < |names| && names[index] == key && key !in names[..index])
    ensures var (index, names') := r;
      key !in names && key == SkipTexture ==> index == -1 && names' == names
    ensures var (index, names') := r;
      key !in names && key != SkipTexture ==> index == |names| && names' == names + [Remapped(remap, key)]
  {
    var index := IndexOf(names, key);
    if index == -1 && key != SkipTexture then
      (|names|, names + [Remapped(remap, key)])
    else (index, names)
  }

  /** Only the skip texture, when nothing was registered under its key, is
      left without a slot. */
  lemma RegisterSkipOnly(names: seq<string>, key: string, remap: map<string, string>)
    ensures Register(names, key, remap).0 == -1 <==> key == SkipTexture && key !in names
  {
  }

  /** A key that the remap table maps to a different name is never found
      again: each occurrence appends one more copy of the replacement. */
  lemma RemappedKeyReappended(names: seq<string>, key: string, remap: map<string, string>)
    requires key in remap && remap[key] != key && key != SkipTexture && key !in names
    ensures var (i1, names1) := Register(names, key, remap);
      var (i2, names2) := Register(names1, key, remap);
      i1 == |names| && i2 == |names| + 1
      && names2 == names + [remap[key], remap[key]]
  {
    var (i1, names1) := Register(names, key, remap);
    assert key !in names1;
  }

  /** An unmapped key is registered once and found from then on. */
  lemma PlainKeyReused(names: seq<string>, key: string, remap: map<string, string>)
    requires key !in remap && key != SkipTexture
    ensures var (i1, names1) := Register(names, key, remap);
      Register(names1, key, remap) == (i1, names1)
  {
    var (i1, names1) := Register(names, key, remap);
    assert names1[i1] == key;
  }

  /** The size of the image found for a texture, or 256 by 256. */
  function ImageOrDefault(image: Option<(int, int)>): (int, int) {
    if image.Some? then image.value else (DefaultTextureSize, DefaultTextureSize)
  }

  /** The texinfo record at p up to and including its 32-byte name: the
      axes with their offsets, the flags and the value, the name cut at its
      NUL and looked up for an image (pngSize stands for the lookup), and the
      registry key, the name followed by its material symbols. The registry
      slot is filled in by RegisterAll; until then it is -1. The name field may
      be cut short by the end of the data and still hold a NUL. */
  function TexInfoHeadAt(data: seq<byte>, p: nat, pngSize: string -> Option<(int, int)>)
    : (r: Result<(BspTexInfo, string)>)
    ensures r.Ok? <==> p + 40 <= |data| && 0 in Available(data, p + 40, TextureNameSize)
    ensures r.Err? ==> r.error == (if |data| < p + 40 then EndOfStream else MissingNul)
  {
    if |data| < p + 40 then Err(EndOfStream)
    else
      var name :- TextureName(Available(data, p + 40, TextureNameSize));
      var (width, height) := ImageOrDefault(pngSize(name));
      Ok((DecodeTexInfoHead(data, p, width, height), name + MaterialSymbols(Bits(I32(data, p + 32)))))
  }

  /** The whole 76-byte texinfo record at p: the part up to the name, then the
      next-texinfo link. */
  function TexRecordAt(data: seq<byte>, p: nat, pngSize: string -> Option<(int, int)>): (r: Result<(BspTexInfo, string)>)
    ensures r.Err? ==> r.error in {EndOfStream, MissingNul}
    ensures r.Ok? ==> p + TexInfoSize <= |data| && r.value.0.nextTexInfo == I32(data, p + 72)
  {
    var (head, key) :- TexInfoHeadAt(data, p, pngSize);
    if |data| < p + TexInfoSize then Err(EndOfStream)
    else Ok((head.(nextTexInfo := I32(data, p + 72)), key))
  }

  /** A texinfo record is read exactly when all 76 bytes are there and the
      name field holds a NUL; otherwise the error is the end of the stream,
      or the missing NUL of a name field that is complete. A record read has
      the flags of its offset 32 and the key made of its name and their
      symbols, and its size is the one of the image found for its name, or
      256 by 256 when there is none. */
  lemma TexRecordShape(data: seq<byte>, p: nat, pngSize: string -> Option<(int, int)>)
    ensures var r := TexRecordAt(data, p, pngSize);
      (r.Ok? <==> p + TexInfoSize <= |data| && 0 in data[p + 40..p + 72])
      && (r.Err? ==> r.error in {EndOfStream, MissingNul})
      && (r.Err? && r.error == MissingNul ==> p + 40 <= |data| && 0 !in Available(data, p + 40, TextureNameSize))
      && (r.Ok? ==> (r.value.0.flags == Bits(I32(data, p + 32)) && r.value.0.textureNameIndex == -1
            && r.value.1 == TextureName(data[p + 40..p + 72]).value + MaterialSymbols(Bits(I32(data, p + 32)))
            && var image := pngSize(TextureName(data[p + 40..p + 72]).value);
              (r.value.0.fileTexWidth, r.value.0.fileTexHeight)
              == (if image.None? then (DefaultTextureSize, DefaultTextureSize) else image.value)))
  {
  }

  /** The texinfo records of a lump of n records from p, each read on its
      own. */
  function TexRecords(data: seq<byte>, p: nat, n: nat, pngSize: string -> Option<(int, int)>)
    : (recs: seq<Result<(BspTexInfo, string)>>)
    ensures |recs| == n
  {
    seq(n, i requires 0 <= i < n => TexRecordAt(data, p + TexInfoSize * i, pngSize))
  }

  /** The records in order, each registered under its key in the registry the
      earlier ones built from names and given the slot it got; the first
      record that failed to read decides the error. */
  function RegisterAll(recs: seq<Result<(BspTexInfo, string)>>, names: seq<string>,
                       remap: map<string, string>): (r: Result<(seq<BspTexInfo>, seq<string>)>)
    ensures r.Ok? <==> forall i :: 0 <= i < |recs| ==> recs[i].Ok?
    ensures r.Ok? ==> (|r.value.0| == |recs| && names <= r.value.1
      && forall i :: 0 <= i < |recs| ==> -1 <= r.value.0[i].textureNameIndex < |r.value.1|)
  {
    if |recs| == 0 then Ok(([], names))
    else
      var prev := RegisterAll(recs[..|recs| - 1], names, remap);
      var last := recs[|recs| - 1];
      if prev.Err? then Err(prev.error)
      else if last.Err? then Err(last.error)
      else
        var (index, names') := Register(prev.value.1, last.value.1, remap);
        AppendInfo(prev.value.0, last.value.0.(textureNameIndex := index), names, prev.value.1, names');
        Ok((prev.value.0 + [last.value.0.(textureNameIndex := index)], names'))
  }

  /** A record whose part up to the name was read, but whose link finds fewer
      than four bytes after the name field, ends the stream. */
  lemma LinkCutShort(data: seq<byte>, p: nat, pngSize: string -> Option<(int, int)>)
    requires TexInfoHeadAt(data, p, pngSize).Ok?
    requires |data| < p + 40 + |Available(data, p + 40, TextureNameSize)| + 4
    ensures TexRecordAt(data, p, pngSize) == Err(EndOfStream)
  {
  }

  /** A registration run that succeeded read every one of its records. */
  lemma RegisterAllPrefixOk(recs: seq<Result<(BspTexInfo, string)>>, names0: seq<string>,
                            remap: map<string, string>, i: nat)
    requires i <= |recs| && RegisterAll(recs[..i], names0, remap).Ok?
    ensures forall k :: 0 <= k < i ==> recs[k].Ok?
  {
    forall k | 0 <= k < i
      ensures recs[k].Ok?
    {
      assert recs[..i][k] == recs[k];
    }
  }

  /** One more record read and registered: the run over the first i + 1
      records extends the run over the first i by that record, its slot
      being the one Register gives its key. */
  lemma RegisterAllStep(recs: seq<Result<(BspTexInfo, string)>>, names0: seq<string>, remap: map<string, string>,
                        i: nat, infos: seq<BspTexInfo>, names: seq<string>, info: BspTexInfo, names': seq<string>)
    requires i < |recs| && recs[i].Ok?
    requires RegisterAll(recs[..i], names0, remap) == Ok((infos, names))
    requires info == recs[i].value.0.(textureNameIndex := Register(names, recs[i].value.1, remap).0)
    requires names' == Register(names, recs[i].value.1, remap).1
    ensures RegisterAll(recs[..i + 1], names0, remap) == Ok((infos + [info], names'))
  {
    assert recs[..i + 1][..i] == recs[..i];
  }

  /** A run whose first i records registered and whose record i failed
      fails with that record's error. */
  lemma RegisterAllStopsAt(recs: seq<Result<(BspTexInfo, string)>>, names0: seq<string>, remap: map<string, string>,
                           i: nat)
    requires i < |recs| && recs[i].Err?
    requires RegisterAll(recs[..i], names0, remap).Ok?
    ensures RegisterAll(recs, names0, remap) == Err(recs[i].error)
  {
    RegisterAllPrefixOk(recs, names0, remap, i);
    RegisterAllFirstError(recs, names0, remap, i);
  }

  lemma AppendInfo(infos: seq<BspTexInfo>, info: BspTexInfo, names: seq<string>,
                   names1: seq<string>, names2: seq<string>)
    requires names <= names1 <= names2
    requires forall i :: 0 <= i < |infos| ==> -1 <= infos[i].textureNameIndex < |names1|
    requires -1 <= info.textureNameIndex < |names2|
    ensures names <= names2
    ensures forall i :: 0 <= i < |infos| + 1 ==> -1 <= (infos + [info])[i].textureNameIndex < |names2|
  {
  }

  /** The error of a failed registration run is the error of its first
      failing record. */
  lemma {:induction false} RegisterAllFirstError(recs: seq<Result<(BspTexInfo, string)>>, names: seq<string>,
                                                remap: map<string, string>, k: nat)
    requires k < |recs| && recs[k].Err? && forall i :: 0 <= i < k ==> recs[i].Ok?
    ensures RegisterAll(recs, names, remap) == Err(recs[k].error)
    decreases |recs|
  {
    var init := recs[..|recs| - 1];
    if k < |recs| - 1 {
      RegisterAllFirstError(init, names, remap, k);
    } else {
      assert forall i :: 0 <= i < |init| ==> init[i].Ok?;
    }
  }

  /** Registration keeps every field a record was read with and fills in its
      slot: -1 only for the skip texture, otherwise a slot holding the key or
      its replacement. */
  lemma {:induction false} RegisterAllSlots(recs: seq<Result<(BspTexInfo, string)>>, names: seq<string>,
                                           remap: map<string, string>, i: nat)
    requires RegisterAll(recs, names, remap).Ok? && i < |recs|
    ensures var (infos, names') := RegisterAll(recs, names, remap).value;
      var slot, key := infos[i].textureNameIndex, recs[i].value.1;
      infos[i] == recs[i].value.0.(textureNameIndex := slot)
      && (slot == -1 ==> key == SkipTexture)
      && (slot != -1 ==> names'[slot] in {key, Remapped(remap, key)})
    decreases |recs|
  {
    var init := recs[..|recs| - 1];
    var prev := RegisterAll(init, names, remap);
    var last := recs[|recs| - 1];
    var (index, names') := Register(prev.value.1, last.value.1, remap);
    if i < |recs| - 1 {
      RegisterAllSlots(init, names, remap, i);
      assert RegisterAll(recs, names, remap).value.0[i] == prev.value.0[i];
    }
  }

  /** The fields of the texinfo record at p before its name: the axes, the
      offsets, the flags and the value, with no registry slot (-1) and no
      link yet, and the texture size found for its name. */
  function DecodeTexInfoHead(data: seq<byte>, p: nat, width: int, height: int): (info: BspTexInfo)
    requires p + 40 <= |data|
    ensures info.flags == Bits(I32(data, p + 32)) && info.textureNameIndex == -1
    ensures info.fileTexWidth == width && info.fileTexHeight == height
  {
    BspTexInfo(DecodeVector3(data, p), Word(data, p + 12), DecodeVector3(data, p + 16),
      Word(data, p + 28), Bits(I32(data, p + 32)), I32(data, p + 36), -1, 0, width, height)
  }

  // ===========================================================================
  // The whole file

  /** SetBSPReaderPos followed by the record count and the reads of a lump:
      the lump's offset and its number of records, or the error that stops
      it. */
  function LumpRecords(data: seq<byte>, h: BspHeader, lump: Q2BspLump, width: nat): (r: Result<(nat, nat)>)
    requires h.Valid() && 0 < width
    ensures r.Ok? <==> LumpLayout(data, h.lumpOffsets[LumpIndex(lump)], h.lumpSizes[LumpIndex(lump)], width).Ok?
    ensures r.Err? ==> r.error == LumpLayout(data, h.lumpOffsets[LumpIndex(lump)], h.lumpSizes[LumpIndex(lump)], width).error
    ensures r.Ok? ==> (r.value.0 == h.lumpOffsets[LumpIndex(lump)]
      && r.value.1 == RecordCount(h.lumpSizes[LumpIndex(lump)], width)
      && (r.value.1 == 0 || r.value.0 + r.value.1 * width <= |data|))
  {
    var offset := h.lumpOffsets[LumpIndex(lump)];
    var n :- LumpLayout(data, offset, h.lumpSizes[LumpIndex(lump)], width);
    Ok((offset, n))
  }

  /** LoadTextures: the texinfo records one by one, registered in the
      registry names. */
  function TextureLump(data: seq<byte>, h: BspHeader, names: seq<string>, remap: map<string, string>,
                       pngSize: string -> Option<(int, int)>): (r: Result<(seq<BspTexInfo>, seq<string>)>)
    requires h.Valid()
    ensures var offset, size := h.lumpOffsets[LumpIndex(TextureInfo)], h.lumpSizes[LumpIndex(TextureInfo)];
      (offset < 0 ==> r == Err(NegativePosition))
      && (0 <= offset && RecordCount(size, TexInfoSize) < 0 ==> r == Err(NegativeCount))
      && (r.Ok? ==> (|r.value.0| == RecordCount(size, TexInfoSize)
            && forall i :: 0 <= i < |r.value.0| ==> -1 <= r.value.0[i].textureNameIndex < |r.value.1|))
  {
    var offset := h.lumpOffsets[LumpIndex(TextureInfo)];
    var n := RecordCount(h.lumpSizes[LumpIndex(TextureInfo)], TexInfoSize);
    if offset < 0 then Err(NegativePosition)
    else if n < 0 then Err(NegativeCount)
    else RegisterAll(TexRecords(data, offset, n, pngSize), names, remap)
  }

  /** Texinfo i of a loaded lump is the record at offset + 76 i: all its
      bytes are there and its name field holds a NUL; it has the flags of its
      offset 32, the size of the image found for its name or 256 by 256 when
      there is none, and the link of its offset 72. */
  lemma TextureLumpRecord(data: seq<byte>, h: BspHeader, names: seq<string>, remap: map<string, string>,
                          pngSize: string -> Option<(int, int)>, i: nat)
    requires h.Valid()
    requires TextureLump(data, h, names, remap, pngSize).Ok?
    requires i < |TextureLump(data, h, names, remap, pngSize).value.0|
    ensures var info := TextureLump(data, h, names, remap, pngSize).value.0[i];
      var p := h.lumpOffsets[LumpIndex(TextureInfo)] + TexInfoSize * i;
      0 <= p && p + TexInfoSize <= |data| && 0 in data[p + 40..p + 72]
      && info.flags == Bits(I32(data, p + 32)) && info.nextTexInfo == I32(data, p + 72)
      && var image := pngSize(TextureName(data[p + 40..p + 72]).value);
        (info.fileTexWidth, info.fileTexHeight)
        == (if image.None? then (DefaultTextureSize, DefaultTextureSize) else image.value)
  {
    var p := h.lumpOffsets[LumpIndex(TextureInfo)] + TexInfoSize * i;
    TextureLumpAt(data, h, names, remap, pngSize, i);
    TexRecordShape(data, p, pngSize);
  }

  /** Texinfo i of a loaded lump is the record read at offset + 76 i, with
      the slot registration gave it. */
  lemma TextureLumpAt(data: seq<byte>, h: BspHeader, names: seq<string>, remap: map<string, string>,
                      pngSize: string -> Option<(int, int)>, i: nat)
    requires h.Valid()
    requires TextureLump(data, h, names, remap, pngSize).Ok?
    requires i < |TextureLump(data, h, names, remap, pngSize).value.0|
    ensures var info := TextureLump(data, h, names, remap, pngSize).value.0[i];
      var p := h.lumpOffsets[LumpIndex(TextureInfo)] + TexInfoSize * i;
      0 <= p && TexRecordAt(data, p, pngSize).Ok?
      && info == TexRecordAt(data, p, pngSize).value.0.(textureNameIndex := info.textureNameIndex)
  {
    var offset := h.lumpOffsets[LumpIndex(TextureInfo)];
    var n := RecordCount(h.lumpSizes[LumpIndex(TextureInfo)], TexInfoSize);
    assert 0 <= offset && 0 <= n;
    var recs := TexRecords(data, offset, n, pngSize);
    assert RegisterAll(recs, names, remap) == TextureLump(data, h, names, remap, pngSize);
    RegisterAllSlots(recs, names, remap, i);
  }

  /** The number of records a lump holds by its size in the header. */
  function LumpCount(h: BspHeader, lump: Q2BspLump, width: nat): int
    requires h.Valid() && 0 < width
  {
    RecordCount(h.lumpSizes[LumpIndex(lump)], width)
  }

  /** Every texinfo's slot is -1 or a slot of the registry. */
  predicate Registered(infos: seq<BspTexInfo>, names: seq<string>) {
    forall i :: 0 <= i < |infos| ==> -1 <= infos[i].textureNameIndex < |names|
  }

  /** What a loaded BspFile holds. */
  datatype BspContents = BspContents(
    header: BspHeader, vertices: seq<Vector3>, edges: seq<BspEdge>, surfEdges: seq<int>,
    planes: seq<Plane>, texInfos: seq<BspTexInfo>, uniqueTextureNames: seq<string>,
    surfaces: seq<BspSurface>, models: seq<BspModel>)

  /** The BspFile constructor over a file's bytes: the header, then the
      lumps. */
  function ParseBsp(data: seq<byte>, remap: map<string, string>,
                    pngSize: string -> Option<(int, int)>): (r: Result<BspContents>)
    ensures r.Ok? ==> ParseHeader(data, 0) == Ok(r.value.header)
  {
    var h := ParseHeader(data, 0);
    if h.Err? then Err(h.error) else ParseLumps(data, h.value, remap, pngSize)
  }

  /** The lumps of a file with header h, in the order vertices, edges,
      surface edges, planes, texture infos, surfaces, models, starting from
      an empty registry; the first failure ends the load. */
  function ParseLumps(data: seq<byte>, h: BspHeader, remap: map<string, string>,
                      pngSize: string -> Option<(int, int)>): (r: Result<BspContents>)
    requires h.Valid()
    ensures r.Ok? ==> r.value.header == h
    ensures r.Ok? ==> var f := r.value;
      |f.vertices| == LumpCount(h, Vertices, VertexSize) && |f.edges| == LumpCount(h, Edges, EdgeSize)
      && |f.surfEdges| == LumpCount(h, SurfaceEdges, SurfaceEdgeSize) && |f.planes| == LumpCount(h, Planes, PlaneSize)
      && |f.texInfos| == LumpCount(h, TextureInfo, TexInfoSize) && Registered(f.texInfos, f.uniqueTextureNames)
      && |f.surfaces| == LumpCount(h, Surfaces, SurfaceSize) && |f.models| == LumpCount(h, Models, ModelSize)
  {
    var g := GeometryLumps(data, BspContents(h, [], [], [], [], [], [], [], []));
    if g.Err? then Err(g.error) else SurfaceLumps(data, g.value, remap, pngSize)
  }

  /** The first four loads: vertices, edges, surface edges and planes. */
  function GeometryLumps(data: seq<byte>, c: BspContents): (r: Result<BspContents>)
    requires c.header.Valid()
    ensures r.Ok? ==> r.value.header == c.header
    ensures r.Ok? ==> var f, h := r.value, c.header;
      |f.vertices| == LumpCount(h, Vertices, VertexSize) && |f.edges| == LumpCount(h, Edges, EdgeSize)
      && |f.surfEdges| == LumpCount(h, SurfaceEdges, SurfaceEdgeSize) && |f.planes| == LumpCount(h, Planes, PlaneSize)
  {
    var h := c.header;
    var v := LumpRecords(data, h, Vertices, VertexSize);
    if v.Err? then Err(v.error) else
    var e := LumpRecords(data, h, Edges, EdgeSize);
    if e.Err? then Err(e.error) else
    var s := LumpRecords(data, h, SurfaceEdges, SurfaceEdgeSize);
    if s.Err? then Err(s.error) else
    var p := LumpRecords(data, h, Planes, PlaneSize);
    if p.Err? then Err(p.error) else
    Ok(c.(vertices := VertexLump(data, v.value.0, v.value.1), edges := EdgeLump(data, e.value.0, e.value.1),
      surfEdges := SurfaceEdgeLump(data, s.value.0, s.value.1), planes := PlaneLump(data, p.value.0, p.value.1)))
  }

  /** The last three loads: texture infos registered into c's registry,
      surfaces and models. */
  function SurfaceLumps(data: seq<byte>, c: BspContents, remap: map<string, string>,
                        pngSize: string -> Option<(int, int)>): (r: Result<BspContents>)
    requires c.header.Valid()
    ensures r.Ok? ==> r.value.header == c.header
    ensures r.Ok? ==> var f, h := r.value, c.header;
      f == c.(texInfos := f.texInfos, uniqueTextureNames := f.uniqueTextureNames, surfaces := f.surfaces,
        models := f.models)
      && |f.texInfos| == LumpCount(h, TextureInfo, TexInfoSize) && Registered(f.texInfos, f.uniqueTextureNames)
      && |f.surfaces| == LumpCount(h, Surfaces, SurfaceSize) && |f.models| == LumpCount(h, Models, ModelSize)
  {
    var t := TextureLump(data, c.header, c.uniqueTextureNames, remap, pngSize);
    if t.Err? then Err(t.error)
    else FaceLumps(data, c.(texInfos := t.value.0, uniqueTextureNames := t.value.1))
  }

  /** The surface and model lumps, loaded after the texinfos. */
  function FaceLumps(data: seq<byte>, c: BspContents): (r: Result<BspContents>)
    requires c.header.Valid()
    ensures r.Ok? ==> r.value.header == c.header
    ensures r.Ok? ==> var f, h := r.value, c.header;
      f == c.(surfaces := f.surfaces, models := f.models)
      && |f.surfaces| == LumpCount(h, Surfaces, SurfaceSize) && |f.models| == LumpCount(h, Models, ModelSize)
  {
    var f := LumpRecords(data, c.header, Surfaces, SurfaceSize);
    if f.Err? then Err(f.error) else
    var m := LumpRecords(data, c.header, Models, ModelSize);
    if m.Err? then Err(m.error) else
    Ok(c.(surfaces := SurfaceLump(data, f.value.0, f.value.1), models := ModelLump(data, m.value.0, m.value.1)))
  }

  /** A record i < n that does not fit means the lump of n records does not
      fit either. */
  lemma RecordsRunShort(data: seq<byte>, offset: nat, i: nat, n: nat, width: nat)
    requires i < n && |data| < offset + width * i + width
    ensures |data| < offset + n * width
  {
    MulMonotone(i + 1, n, width);
  }
}
