// The value types of map2jms/BasicTypes.cs: vectors, planes, JMS vertices and
// triangles, the Quake II lump enumeration, the decoded BSP records and the
// surface flag bits.
module BasicTypes {

  // A single-precision float is kept as its raw IEEE-754 word, read as an
  // unsigned number: nothing in the modelled core interprets it except
  // through the operations of FloatOps.
  type Float32 = w: int | 0 <= w < 0x1_0000_0000

  datatype Vector3 = Vector3(x: Float32, y: Float32, z: Float32)
  datatype Vector2 = Vector2(x: Float32, y: Float32)
  datatype Plane = Plane(normal: Vector3, d: Float32)

  datatype JmsVertex = JmsVertex(position: Vector3, textureCoordinate: Vector2, normal: Vector3)
  datatype JmsTriangle = JmsTriangle(materialIndex: int, v1: int, v2: int, v3: int)

  /** The float computations the converter performs, supplied from outside:
      Vector3.Distance, BspTexInfo.GetUVFromVertex (with the record's own texture
      size), the averaging of a face's boundary into its centroid, and the
      component-wise negation of a plane normal. */
  datatype FloatOps = FloatOps(
    distance: (Vector3, Vector3) -> real,
    uv: (BspTexInfo, Vector3) -> Vector2,
    centroid: seq<Vector3> -> Vector3,
    negate: Vector3 -> Vector3)

  // ---------------------------------------------------------------------------
  // Lumps of a version-38 IBSP file, in directory order.

  datatype Q2BspLump =
    | Entities | Planes | Vertices | Visibility | Nodes | TextureInfo | Surfaces
    | Lighting | Leaves | LeafFaceTable | LeafBrushTable | Edges | SurfaceEdges
    | Models | Brushes | BrushSides | Pop | Areas | AreaPortals

  const TotalLumps: nat := 19

  /** The enum's integer value: its position in the lump directory. */
  function LumpIndex(lump: Q2BspLump): (i: nat)
    ensures i < TotalLumps
  {
    match lump
    case Entities => 0
    case Planes => 1
    case Vertices => 2
    case Visibility => 3
    case Nodes => 4
    case TextureInfo => 5
    case Surfaces => 6
    case Lighting => 7
    case Leaves => 8
    case LeafFaceTable => 9
    case LeafBrushTable => 10
    case Edges => 11
    case SurfaceEdges => 12
    case Models => 13
    case Brushes => 14
    case BrushSides => 15
    case Pop => 16
    case Areas => 17
    case AreaPortals => 18
  }

  /** The lump stored at directory slot i: the cast from int to Q2BspLump. */
  function LumpAt(i: nat): (lump: Q2BspLump)
    requires i < TotalLumps
  {
    [Entities, Planes, Vertices, Visibility, Nodes, TextureInfo, Surfaces,
     Lighting, Leaves, LeafFaceTable, LeafBrushTable, Edges, SurfaceEdges,
     Models, Brushes, BrushSides, Pop, Areas, AreaPortals][i]
  }

  /** The directory has one slot per lump and no two lumps share a slot. */
  lemma LumpIndexBijective(lump: Q2BspLump, i: nat)
    requires i < TotalLumps
    ensures LumpAt(LumpIndex(lump)) == lump
    ensures LumpIndex(LumpAt(i)) == i
  {
  }

  /** The slots of the seven lumps the converter decodes. */
  lemma ConsumedLumpSlots()
    ensures LumpIndex(Planes) == 1 && LumpIndex(Vertices) == 2
    ensures LumpIndex(TextureInfo) == 5 && LumpIndex(Surfaces) == 6
    ensures LumpIndex(Edges) == 11 && LumpIndex(SurfaceEdges) == 12
    ensures LumpIndex(Models) == 13
  {
  }

  // ---------------------------------------------------------------------------
  // Decoded records.

  /** A face: unsigned 16-bit plane, side, edge count and texinfo index, a
      signed 32-bit first surface-edge and two unused lightmap words. */
  datatype BspSurface = BspSurface(
    plane: int, planeSide: int, firstEdge: int, numEdges: int, textureInfo: int,
    lightmapStyles: int, lightmapOffset: int)

  const DefaultTextureSize: int := 256

  /** A texture projection. textureNameIndex is the registry slot of the
      texture's key, or -1 for the skip texture; fileTexWidth and fileTexHeight
      stay DefaultTextureSize unless an image of the texture was found. */
  datatype BspTexInfo = BspTexInfo(
    uAxis: Vector3, uOffset: Float32, vAxis: Vector3, vOffset: Float32,
    flags: bv32, value: int, textureNameIndex: int, nextTexInfo: int,
    fileTexWidth: int, fileTexHeight: int)

  /** Two unsigned 16-bit vertex indices. */
  datatype BspEdge = BspEdge(v1: int, v2: int)

  datatype BspModel = BspModel(
    bbmin: Vector3, bbmax: Vector3, origin: Vector3,
    headNode: int, firstFace: int, numFaces: int)

  // ---------------------------------------------------------------------------
  // SurfaceFlags: ten Halo material flags and one converter flag.

  const TwoSided: bv32 := 1 << 10
  const Transparent: bv32 := 1 << 11
  const RenderOnly: bv32 := 1 << 12
  const UnitCollision: bv32 := 1 << 13
  const FullCollision: bv32 := 1 << 14
  const FogPlane: bv32 := 1 << 15
  const Climbable: bv32 := 1 << 16
  const Breakable: bv32 := 1 << 17
  const AIDeafening: bv32 := 1 << 18
  const ExactPortal: bv32 := 1 << 19
  const AddMidpoint: bv32 := 1 << 20

  /** The Halo flags in the order GetMaterialSymbols tests them. */
  const HaloFlags: seq<bv32> := [
    TwoSided, Transparent, RenderOnly, UnitCollision, FullCollision,
    FogPlane, Climbable, Breakable, AIDeafening, ExactPortal]

  /** Enum.HasFlag: every bit of flag is set in flags. */
  predicate HasFlag(flags: bv32, flag: bv32) {
    flags & flag == flag
  }

  /** Each flag is one bit, the Halo flags are bits 10 to 19 in order, and the
      converter's AddMidpoint bit 20 lies outside all of them. */
  lemma SurfaceFlagBits()
    ensures |HaloFlags| == 10
    ensures forall k :: 0 <= k < |HaloFlags| ==> HaloFlags[k] == (1 as bv32) << (10 + k) as bv5
    ensures AddMidpoint == (1 as bv32) << 20
    ensures forall j, k :: 0 <= j < k < |HaloFlags| ==> HaloFlags[j] & HaloFlags[k] == 0
    ensures forall k :: 0 <= k < |HaloFlags| ==> HaloFlags[k] & AddMidpoint == 0
  {
  }
}
