/** The converter's Program class: the name_remap.txt parser, the texture
    name written to the JMS file, and the mesh built from the models' faces. */
module Program {
  import opened Outcomes
  import opened BasicTypes
  import opened Text
  import opened Bsp
  import opened Triangulation

  // ---------------------------------------------------------------------------
  // name_remap.txt

  /** What one line of the remap file contributes: nothing for a comment, a
      blank line or a line without '='; otherwise the trimmed text before the
      first '=' mapped to the trimmed text after it, up to a second '='. */
  function RemapEntry(line: string): (e: Option<(string, string)>)
    ensures e.Some? ==> |line| > 0 && line[0] != '#' && !IsNullOrWhiteSpace(line) && '=' in line
  {
    if (|line| > 0 && line[0] == '#') || IsNullOrWhiteSpace(line) then None
    else
      var split := Split(line, '=');
      if |split| < 2 then None
      else
        SplitPieces(line, '=');
        Some((Trim(split[0]), Trim(split[1])))
  }

  /** The remap dictionary after the lines, in file order, each later line
      overwriting an earlier one with the same key. */
  function RemapOf(remap: map<string, string>, lines: seq<string>): (r: map<string, string>)
    ensures remap.Keys <= r.Keys
  {
    if |lines| == 0 then remap
    else
      var prev := RemapOf(remap, lines[..|lines| - 1]);
      var e := RemapEntry(lines[|lines| - 1]);
      if e.None? then prev else prev[e.value.0 := e.value.1]
  }

  /** The foreach over File.ReadAllLines("name_remap.txt"), writing into the
      materialRemap dictionary. */
  method ParseRemap(lines: seq<string>, remap0: map<string, string>) returns (remap: map<string, string>)
    ensures remap == RemapOf(remap0, lines)
  {
    remap := remap0;
    for i := 0 to |lines|
      invariant remap == RemapOf(remap0, lines[..i])
    {
      assert lines[..i + 1][..i] == lines[..i];
      var line := lines[i];
      if (|line| > 0 && line[0] == '#') || IsNullOrWhiteSpace(line) {
        continue;
      }
      var split := Split(line, '=');
      if |split| < 2 {
        continue;
      }
      var nameFrom := Trim(split[0]);
      var nameTo := Trim(split[1]);
      remap := remap[nameFrom := nameTo];
    }
    assert lines[..|lines|] == lines;
  }

  /** A line is ignored exactly when it is a comment, blank, or has no '='. */
  lemma RemapEntryIgnored(line: string)
    ensures RemapEntry(line).None? <==> ((|line| > 0 && line[0] == '#') || IsNullOrWhiteSpace(line) || '=' !in line)
  {
    SplitPieces(line, '=');
  }

  /** A line that counts maps the trimmed text before its first '=' to the
      trimmed text between that '=' and the next one (or the end of the
      line): whatever follows a second '=' is dropped. */
  lemma RemapEntryFields(line: string)
    requires RemapEntry(line).Some?
    ensures var i := IndexOf(line, '=');
      var rest := line[i + 1..];
      0 <= i
      && RemapEntry(line).value.0 == Trim(line[..i])
      && RemapEntry(line).value.1 == Trim(if '=' in rest then rest[..IndexOf(rest, '=')] else rest)
  {
    SplitPieces(line, '=');
    var i := IndexOf(line, '=');
    var rest := line[i + 1..];
    assert line == line[..i] + ['='] + rest;
    SplitAtSeparator(line[..i], '=', rest);
    FirstPiece(rest, '=');
  }

  /** The key and the value of a line that counts carry no surrounding
      white space. */
  lemma RemapEntryTrimmed(line: string)
    requires RemapEntry(line).Some?
    ensures var (key, value) := RemapEntry(line).value;
      Trim(key) == key && Trim(value) == value
  {
    var split := Split(line, '=');
    SplitPieces(line, '=');
    TrimIdempotent(split[0]);
    TrimIdempotent(split[1]);
  }

  /** The first piece of a split is the text before the first separator. */
  lemma FirstPiece(s: string, sep: char)
    ensures Split(s, sep)[0] == if sep in s then s[..IndexOf(s, sep)] else s
  {
    if sep in s {
      var i := IndexOf(s, sep);
      assert s == s[..i] + [sep] + s[i + 1..];
      SplitAtSeparator(s[..i], sep, s[i + 1..]);
    } else {
      SplitPieces(s, sep);
      JoinSplit(s, sep);
    }
  }

  /** Every entry of the dictionary was there before the file, or comes
      from a line that maps that key to that value. */
  lemma {:induction false} RemapProvenance(remap: map<string, string>, lines: seq<string>, key: string)
    requires key in RemapOf(remap, lines)
    ensures var value := RemapOf(remap, lines)[key];
      (key in remap && value == remap[key])
      || exists j :: 0 <= j < |lines| && RemapEntry(lines[j]) == Some((key, value))
  {
    if |lines| > 0 {
      var init := lines[..|lines| - 1];
      var e := RemapEntry(lines[|lines| - 1]);
      if e.Some? && e.value.0 == key {
        assert RemapEntry(lines[|lines| - 1]) == Some((key, RemapOf(remap, lines)[key]));
      } else {
        RemapProvenance(remap, init, key);
        assert RemapOf(remap, lines)[key] == RemapOf(remap, init)[key];
        assert forall j :: 0 <= j < |init| ==> init[j] == lines[j];
      }
    }
  }

  /** The last line that maps a key decides its value. */
  lemma {:induction false} RemapLastWins(remap: map<string, string>, lines: seq<string>, i: nat, key: string, value: string)
    requires i < |lines| && RemapEntry(lines[i]) == Some((key, value))
    requires forall j :: i < j < |lines| ==> RemapEntry(lines[j]).None? || RemapEntry(lines[j]).value.0 != key
    ensures key in RemapOf(remap, lines) && RemapOf(remap, lines)[key] == value
  {
    var init := lines[..|lines| - 1];
    if i < |lines| - 1 {
      assert forall j :: i < j < |init| ==> init[j] == lines[j];
      RemapLastWins(remap, init, i, key, value);
    }
  }

  /** A key no line maps keeps its entry from before the file, or stays
      absent. */
  lemma {:induction false} RemapUntouched(remap: map<string, string>, lines: seq<string>, key: string)
    requires forall j :: 0 <= j < |lines| ==> RemapEntry(lines[j]).None? || RemapEntry(lines[j]).value.0 != key
    ensures (key in RemapOf(remap, lines) <==> key in remap)
    ensures key in remap ==> RemapOf(remap, lines)[key] == remap[key]
  {
    if |lines| > 0 {
      var init := lines[..|lines| - 1];
      assert forall j :: 0 <= j < |init| ==> init[j] == lines[j];
      RemapUntouched(remap, init, key);
    }
  }

  // ---------------------------------------------------------------------------
  // Texture names in the JMS file

  /** The texture name written for a registry entry: the piece after the
      last '/'. */
  function BareTextureName(name: string): (r: string)
    ensures |r| <= |name| && r == name[|name| - |r|..]
    ensures '/' !in r
  {
    var split := Split(name, '/');
    LastPieceOfSplit(name, '/');
    SplitPieces(name, '/');
    split[|split| - 1]
  }

  /** The written name is the text after the last '/', and holds no '/'. */
  lemma BareTextureNameSuffix(name: string)
    ensures BareTextureName(name) == name[LastIndexOf(name, '/') + 1..]
    ensures '/' !in BareTextureName(name)
  {
    LastPieceOfSplit(name, '/');
    SplitPieces(name, '/');
  }

  // ---------------------------------------------------------------------------
  // CreateVertsAndTris

  /** List<T>: a list the converter only appends to. */
  class List<T> {
    var items: seq<T>

    constructor()
      ensures items == []
    {
      items := [];
    }

    /** List.AddRange. */
    method AddRange(xs: seq<T>)
      modifies this
      ensures items == old(items) + xs
    {
      items := items + xs;
    }
  }

  /** The vertex index that boundary vertex i of a face resolves to:
      surface-edge firstEdge + i names an edge, by its absolute value, and
      its sign picks the edge's first or second vertex. */
  function BoundaryIndex(c: BspContents, firstEdge: int, i: nat): (r: Result<int>)
    ensures r.Err? ==> r.error in {IndexOutOfRange, AbsOverflow}
    ensures (r.Err? && r.error == AbsOverflow)
      <==> 0 <= firstEdge + i < |c.surfEdges| && c.surfEdges[firstEdge + i] == -0x8000_0000
    ensures r.Ok? ==> exists e :: 0 <= e < |c.edges| && (r.value == c.edges[e].v1 || r.value == c.edges[e].v2)
  {
    var k := firstEdge + i;
    if k < 0 || k >= |c.surfEdges| then Err(IndexOutOfRange)
    else
      var surfEdge := c.surfEdges[k];
      if surfEdge == -0x8000_0000 then Err(AbsOverflow)
      else
        var e := if surfEdge < 0 then -surfEdge else surfEdge;
        if e >= |c.edges| then Err(IndexOutOfRange)
        else Ok(if surfEdge >= 0 then c.edges[e].v1 else c.edges[e].v2)
  }

  /** Boundary vertex i of a face: the position, its UV, the face normal. */
  function BoundaryVertex(c: BspContents, firstEdge: int, i: nat, texInfo: BspTexInfo, normal: Vector3,
                          ops: FloatOps): Result<JmsVertex>
  {
    var index := BoundaryIndex(c, firstEdge, i);
    if index.Err? then Err(index.error)
    else if index.value < 0 || index.value >= |c.vertices| then Err(IndexOutOfRange)
    else
      var vertex := c.vertices[index.value];
      Ok(JmsVertex(vertex, ops.uv(texInfo, vertex), normal))
  }

  /** The first n boundary vertices of a face. */
  function Boundary(c: BspContents, firstEdge: int, n: nat, texInfo: BspTexInfo, normal: Vector3,
                    ops: FloatOps): (r: Result<seq<JmsVertex>>)
    ensures r.Err? ==> r.error in {IndexOutOfRange, AbsOverflow}
    ensures r.Ok? ==> |r.value| == n
  {
    if n == 0 then Ok([])
    else
      var prev := Boundary(c, firstEdge, n - 1, texInfo, normal, ops);
      if prev.Err? then prev
      else
        var v := BoundaryVertex(c, firstEdge, n - 1, texInfo, normal, ops);
        if v.Err? then Err(v.error) else Ok(prev.value + [v.value])
  }

  /** Vertex v is boundary vertex k of a face: edge |se|'s first vertex when
      surface-edge se = surfEdges[firstEdge + k] is non-negative, its second
      vertex otherwise, with its UV and the face normal. */
  predicate EdgeVertex(c: BspContents, firstEdge: int, k: int, v: JmsVertex, texInfo: BspTexInfo, normal: Vector3,
                       ops: FloatOps)
  {
    0 <= firstEdge + k < |c.surfEdges|
    && var se := c.surfEdges[firstEdge + k];
    var abs := if se < 0 then -se else se;
    0 <= abs < |c.edges|
    && var index := if se >= 0 then c.edges[abs].v1 else c.edges[abs].v2;
    0 <= index < |c.vertices|
    && v == JmsVertex(c.vertices[index], ops.uv(texInfo, c.vertices[index]), normal)
  }

  /** A face's boundary has one vertex per edge, in edge order, each
      resolved through its signed surface-edge. */
  lemma {:induction false} BoundaryShape(c: BspContents, firstEdge: int, n: nat, texInfo: BspTexInfo, normal: Vector3,
                                         ops: FloatOps)
    requires Boundary(c, firstEdge, n, texInfo, normal, ops).Ok?
    ensures var vs := Boundary(c, firstEdge, n, texInfo, normal, ops).value;
      |vs| == n && forall k :: 0 <= k < n ==> EdgeVertex(c, firstEdge, k, vs[k], texInfo, normal, ops)
  {
    if n > 0 {
      BoundaryShape(c, firstEdge, n - 1, texInfo, normal, ops);
      var vs := Boundary(c, firstEdge, n, texInfo, normal, ops).value;
      var prev := Boundary(c, firstEdge, n - 1, texInfo, normal, ops).value;
      var v := BoundaryVertex(c, firstEdge, n - 1, texInfo, normal, ops);
      assert vs == prev + [v.value];
      assert forall k :: 0 <= k < n - 1 ==> vs[k] == prev[k];
      assert EdgeVertex(c, firstEdge, n - 1, vs[n - 1], texInfo, normal, ops);
    }
  }

  /** Once a vertex fails, every longer boundary fails the same way. */
  lemma {:induction false} BoundaryErrorPersists(c: BspContents, firstEdge: int, m: nat, n: nat, texInfo: BspTexInfo,
                                                 normal: Vector3, ops: FloatOps)
    requires m <= n && Boundary(c, firstEdge, m, texInfo, normal, ops).Err?
    ensures Boundary(c, firstEdge, n, texInfo, normal, ops) == Boundary(c, firstEdge, m, texInfo, normal, ops)
    decreases n
  {
    if m < n {
      BoundaryErrorPersists(c, firstEdge, m, n - 1, texInfo, normal, ops);
    }
  }

  /** The face loop's vertex loop: newVerts.Add per edge. */
  method ReadBoundary(c: BspContents, firstEdge: int, numEdges: int, texInfo: BspTexInfo, normal: Vector3,
                      ops: FloatOps) returns (r: Result<seq<JmsVertex>>)
    ensures r == Boundary(c, firstEdge, LoopCount(numEdges), texInfo, normal, ops)
  {
    var newVerts: seq<JmsVertex> := [];
    for i := 0 to LoopCount(numEdges)
      invariant Boundary(c, firstEdge, i, texInfo, normal, ops) == Ok(newVerts)
    {
      var vertIndex := BoundaryIndex(c, firstEdge, i);
      if vertIndex.Err? {
        BoundaryErrorPersists(c, firstEdge, i + 1, LoopCount(numEdges), texInfo, normal, ops);
        return Err(vertIndex.error);
      }
      if vertIndex.value < 0 || vertIndex.value >= |c.vertices| {
        BoundaryErrorPersists(c, firstEdge, i + 1, LoopCount(numEdges), texInfo, normal, ops);
        return Err(IndexOutOfRange);
      }
      var vertex := c.vertices[vertIndex.value];
      newVerts := newVerts + [JmsVertex(vertex, ops.uv(texInfo, vertex), normal)];
    }
    return Ok(newVerts);
  }

  /** The number of iterations of a loop for (i = 0; i < n; i++). */
  function LoopCount(n: int): nat {
    if n < 0 then 0 else n
  }

  function Positions(vs: seq<JmsVertex>): (ps: seq<Vector3>)
    ensures |ps| == |vs| && forall k :: 0 <= k < |vs| ==> ps[k] == vs[k].position
  {
    seq(|vs|, k requires 0 <= k < |vs| => vs[k].position)
  }

  /** The triangulation of one face: the retry loop, then the closing
      triangle when a centroid was added. */
  method TriangulateFace(boundary: seq<JmsVertex>, addMidpoint: bool, mid: JmsVertex, numEdges: int,
                         material: int, base: int, distance: (Vector3, Vector3) -> real)
    returns (newVerts: seq<JmsVertex>, newTris: seq<JmsTriangle>, finished: bool)
    ensures var t := Triangulate(Start(boundary, addMidpoint, mid), numEdges, mid, distance);
      newVerts == t.verts && finished == t.finished && newTris == FaceTriangles(t, material, base)
  {
    ghost var goal := Triangulate(Start(boundary, addMidpoint, mid), numEdges, mid, distance);
    newVerts := boundary;
    newTris := [];
    var retries: nat := 0;
    finished := false;
    var addedMidPoint := false;
    if addMidpoint {
      newVerts := [mid] + newVerts;
      addedMidPoint := true;
    }
    while !finished && retries <= numEdges
      invariant Triangulate(FaceState(newVerts, retries, addedMidPoint, finished), numEdges, mid, distance) == goal
      invariant finished ==> newTris == Fan(material, base, |newVerts|)
      invariant !finished ==> newTris == []
      decreases if finished then 0 else numEdges + 1 - retries
    {
      ghost var s := FaceState(newVerts, retries, addedMidPoint, finished);
      newTris, finished := FanPass(newVerts, material, base, distance);
      if !finished {
        newTris := [];
        newVerts, retries, addedMidPoint := Retry(newVerts, retries, addedMidPoint, numEdges, mid, distance);
      }
      assert FaceState(newVerts, retries, addedMidPoint, finished) == Pass(s, numEdges, mid, distance);
    }
    if addedMidPoint {
      newTris := newTris + [Closing(material, base, |newVerts|)];
    }
  }

  /** After a degenerate fan: the last vertex moved to the front, one more
      retry, and the centroid put in front the first time the retries reach
      numEdges - 1. */
  method Retry(verts: seq<JmsVertex>, retries: nat, added: bool, numEdges: int, mid: JmsVertex,
               ghost distance: (Vector3, Vector3) -> real)
    returns (verts': seq<JmsVertex>, retries': nat, added': bool)
    requires !Clean(verts, distance)
    ensures FaceState(verts', retries', added', false)
            == Pass(FaceState(verts, retries, added, false), numEdges, mid, distance)
    ensures verts' == (if !added && retries + 1 == numEdges - 1 then [mid] else []) + RotateRight(verts)
    ensures retries' == retries + 1 && added' == (added || retries + 1 == numEdges - 1)
  {
    verts' := [verts[|verts| - 1]] + verts;
    verts' := verts'[..|verts'| - 1];
    assert verts' == RotateRight(verts) by {
      assert verts'[0] == verts[|verts| - 1] && verts'[1..] == verts[..|verts| - 1];
    }
    retries' := retries + 1;
    added' := added;
    if !added {
      if retries' == numEdges - 1 {
        verts' := [mid] + verts';
        added' := true;
      }
    }
  }

  /** No fan triangle below i is degenerate. */
  predicate CleanBelow(verts: seq<JmsVertex>, i: int, distance: (Vector3, Vector3) -> real)
    decreases i
  {
    i <= 2 || i > |verts| || (CleanBelow(verts, i - 1, distance) && !DegenerateAt(verts, i - 1, distance))
  }

  /** Clean up to the end is Clean. */
  lemma {:induction false} CleanBelowAll(verts: seq<JmsVertex>, i: int, distance: (Vector3, Vector3) -> real)
    requires 2 <= i <= |verts|
    ensures CleanBelow(verts, i, distance) <==> forall j :: 2 <= j < i ==> !DegenerateAt(verts, j, distance)
    decreases i
  {
    if i > 2 {
      CleanBelowAll(verts, i - 1, distance);
    }
  }

  /** One pass of the fan: triangles (0, i, i - 1) added in order until the
      first degenerate one, which ends the pass unfinished. */
  method FanPass(newVerts: seq<JmsVertex>, material: int, base: int, distance: (Vector3, Vector3) -> real)
    returns (newTris: seq<JmsTriangle>, finished: bool)
    ensures finished <==> Clean(newVerts, distance)
    ensures finished ==> newTris == Fan(material, base, |newVerts|)
  {
    newTris := [];
    var i := 2;
    while i < |newVerts|
      invariant 2 <= i && (i <= |newVerts| || i == 2)
      invariant newTris == Fan(material, base, i)
      invariant CleanBelow(newVerts, i, distance)
    {
      var triangle := FanTriangle(material, base, i);
      var lengths := [
        distance(newVerts[triangle.v1 - base].position, newVerts[triangle.v2 - base].position),
        distance(newVerts[triangle.v2 - base].position, newVerts[triangle.v3 - base].position),
        distance(newVerts[triangle.v3 - base].position, newVerts[triangle.v1 - base].position)];
      assert lengths == FanLengths(newVerts, i, distance);
      var sorted := Sort3(lengths);
      if sorted[0] + sorted[1] <= sorted[2] + Epsilon {
        assert DegenerateAt(newVerts, i, distance);
        CleanBelowAll(newVerts, i + 1, distance);
        return newTris, false;
      }
      assert !DegenerateAt(newVerts, i, distance);
      assert Fan(material, base, i + 1) == Fan(material, base, i) + [triangle];
      newTris := newTris + [triangle];
      i := i + 1;
    }
    if |newVerts| >= 2 {
      CleanBelowAll(newVerts, |newVerts|, distance);
    } else {
      assert newTris == Fan(material, base, |newVerts|);
    }
    return newTris, true;
  }

  /** One face of CreateVertsAndTris, base being the number of vertices
      emitted before it: the vertices and triangles it appends. A face whose
      texinfo has slot -1, or whose texture is not the filter, appends
      nothing; a face whose retry loop gives up fails. */
  function FaceMesh(c: BspContents, face: int, filter: Option<string>, ops: FloatOps, base: int)
    : (r: Result<(seq<JmsVertex>, seq<JmsTriangle>)>)
    ensures r.Err? ==> r.error in {IndexOutOfRange, AbsOverflow, UnfixableSurface}
    ensures r.Err? && r.error != IndexOutOfRange ==> Drawn(c, face, filter)
  {
    if face < 0 || face >= |c.surfaces| then Err(IndexOutOfRange)
    else
      var surface := c.surfaces[face];
      if surface.textureInfo < 0 || surface.textureInfo >= |c.texInfos| then Err(IndexOutOfRange)
      else
        var texInfo := c.texInfos[surface.textureInfo];
        var slot := texInfo.textureNameIndex;
        if slot == -1 then Ok(([], []))
        else if slot < 0 || slot >= |c.uniqueTextureNames| then Err(IndexOutOfRange)
        else if filter.Some? && c.uniqueTextureNames[slot] != filter.value then Ok(([], []))
        else if surface.plane < 0 || surface.plane >= |c.planes| then Err(IndexOutOfRange)
        else
          var normal := FaceNormal(c.planes[surface.plane].normal, surface.planeSide, ops);
          var boundary := Boundary(c, surface.firstEdge, LoopCount(surface.numEdges), texInfo, normal, ops);
          if boundary.Err? then Err(boundary.error)
          else
            var mid := Centroid(boundary.value, texInfo, normal, ops);
            var t := Triangulate(Start(boundary.value, HasFlag(texInfo.flags, AddMidpoint), mid),
                                 surface.numEdges, mid, ops.distance);
            if !t.finished then Err(UnfixableSurface)
            else Ok((t.verts, FaceTriangles(t, slot, base)))
  }

  /** The plane's normal, negated for the back side. */
  function FaceNormal(normal: Vector3, planeSide: int, ops: FloatOps): Vector3 {
    if planeSide != 0 then ops.negate(normal) else normal
  }

  /** The centroid vertex: the average of the boundary positions, its UV
      and the face normal. */
  function Centroid(boundary: seq<JmsVertex>, texInfo: BspTexInfo, normal: Vector3, ops: FloatOps): JmsVertex {
    var midpoint := ops.centroid(Positions(boundary));
    JmsVertex(midpoint, ops.uv(texInfo, midpoint), normal)
  }

  /** A mesh: vertices and triangles indexing into them. */
  type Mesh = (seq<JmsVertex>, seq<JmsTriangle>)

  /** Faces first .. first + n - 1 appended in turn after verts and tris,
      each face given the number of vertices emitted before it. */
  function Faces(mesh: (int, int) -> Result<Mesh>, first: int, n: nat, verts: seq<JmsVertex>,
                 tris: seq<JmsTriangle>): (r: Result<Mesh>)
    ensures r.Ok? ==> verts <= r.value.0 && tris <= r.value.1
  {
    if n == 0 then Ok((verts, tris))
    else
      var prev := Faces(mesh, first, n - 1, verts, tris);
      if prev.Err? then prev
      else
        var face := mesh(first + n - 1, |prev.value.0|);
        if face.Err? then Err(face.error)
        else Ok((prev.value.0 + face.value.0, prev.value.1 + face.value.1))
  }

  /** FaceMesh of one file, filter and arithmetic, as a function of the face
      and the base vertex. */
  function FaceMeshOf(c: BspContents, filter: Option<string>, ops: FloatOps): (int, int) -> Result<Mesh> {
    (face, base) => FaceMesh(c, face, filter, ops, base)
  }

  /** The first n faces of a model, appended in turn after verts and tris. */
  function ModelMesh(c: BspContents, model: BspModel, n: nat, filter: Option<string>, ops: FloatOps,
                     verts: seq<JmsVertex>, tris: seq<JmsTriangle>): (r: Result<Mesh>)
    ensures r.Ok? ==> verts <= r.value.0 && tris <= r.value.1
    ensures r.Err? ==> r.error in {IndexOutOfRange, AbsOverflow, UnfixableSurface}
  {
    FaceMeshErrors(c, filter, ops);
    FacesError(FaceMeshOf(c, filter, ops), model.firstFace, n, verts, tris, {IndexOutOfRange, AbsOverflow, UnfixableSurface});
    Faces(FaceMeshOf(c, filter, ops), model.firstFace, n, verts, tris)
  }

  /** A run of faces fails only with an error one of its faces can fail
      with. */
  lemma {:induction false} FacesError(mesh: (int, int) -> Result<Mesh>, first: int, n: nat, verts: seq<JmsVertex>,
                                      tris: seq<JmsTriangle>, errors: set<Error>)
    requires forall face, base :: first <= face < first + n && mesh(face, base).Err? ==> mesh(face, base).error in errors
    ensures Faces(mesh, first, n, verts, tris).Err? ==> Faces(mesh, first, n, verts, tris).error in errors
  {
    if n > 0 {
      FacesError(mesh, first, n - 1, verts, tris, errors);
    }
  }

  /** The errors FaceMesh can fail with, for every face and base vertex. */
  lemma FaceMeshErrors(c: BspContents, filter: Option<string>, ops: FloatOps)
    ensures forall face, base :: FaceMeshOf(c, filter, ops)(face, base).Err? ==>
      FaceMeshOf(c, filter, ops)(face, base).error in {IndexOutOfRange, AbsOverflow, UnfixableSurface}
  {
    forall face, base
      ensures FaceMeshOf(c, filter, ops)(face, base).Err? ==>
        FaceMeshOf(c, filter, ops)(face, base).error in {IndexOutOfRange, AbsOverflow, UnfixableSurface}
    {
      assert FaceMeshOf(c, filter, ops)(face, base) == FaceMesh(c, face, filter, ops, base);
    }
  }

  /** The face loop's body: one face read, triangulated and appended. */
  method AppendFace(c: BspContents, face: int, vertices: List<JmsVertex>, triangles: List<JmsTriangle>,
                    filter: Option<string>, ops: FloatOps) returns (r: Result<()>)
    modifies vertices, triangles
    ensures var spec := FaceMesh(c, face, filter, ops, |old(vertices.items)|);
      (r.Ok? <==> spec.Ok?) && (r.Err? ==> r.error == spec.error)
      && (r.Ok? ==> vertices.items == old(vertices.items) + spec.value.0
                    && triangles.items == old(triangles.items) + spec.value.1)
    ensures r.Err? ==> vertices.items == old(vertices.items) && triangles.items == old(triangles.items)
  {
    if face < 0 || face >= |c.surfaces| {
      return Err(IndexOutOfRange);
    }
    var surface := c.surfaces[face];
    if surface.textureInfo < 0 || surface.textureInfo >= |c.texInfos| {
      return Err(IndexOutOfRange);
    }
    if c.texInfos[surface.textureInfo].textureNameIndex == -1 {
      return Ok(());
    }
    var slot := c.texInfos[surface.textureInfo].textureNameIndex;
    if slot < 0 || slot >= |c.uniqueTextureNames| {
      return Err(IndexOutOfRange);
    }
    var texName := c.uniqueTextureNames[slot];
    if filter.Some? && texName != filter.value {
      return Ok(());
    }
    var baseVertex := |vertices.items|;
    var texInfo := c.texInfos[surface.textureInfo];
    if surface.plane < 0 || surface.plane >= |c.planes| {
      return Err(IndexOutOfRange);
    }
    var normal := c.planes[surface.plane].normal;
    if surface.planeSide != 0 {
      normal := ops.negate(normal);
    }
    var boundary :- ReadBoundary(c, surface.firstEdge, surface.numEdges, texInfo, normal, ops);
    var mid := Centroid(boundary, texInfo, normal, ops);
    var newVerts, newTris, finished := TriangulateFace(boundary, HasFlag(texInfo.flags, AddMidpoint), mid,
                                                       surface.numEdges, slot, baseVertex, ops.distance);
    if !finished {
      return Err(UnfixableSurface);
    }
    vertices.AddRange(newVerts);
    triangles.AddRange(newTris);
    return Ok(());
  }

  /** CreateVertsAndTris: every face of the model appended in order; the
      first failing face ends it, the faces before it staying appended. */
  method CreateVertsAndTris(c: BspContents, model: BspModel, vertices: List<JmsVertex>, triangles: List<JmsTriangle>,
                            filter: Option<string>, ops: FloatOps) returns (r: Result<()>)
    modifies vertices, triangles
    ensures var spec := ModelMesh(c, model, LoopCount(model.numFaces), filter, ops, old(vertices.items), old(triangles.items));
      (r.Ok? <==> spec.Ok?) && (r.Err? ==> r.error == spec.error)
      && (r.Ok? ==> vertices.items == spec.value.0 && triangles.items == spec.value.1)
    ensures old(vertices.items) <= vertices.items && old(triangles.items) <= triangles.items
  {
    ghost var verts0, tris0 := vertices.items, triangles.items;
    ghost var mesh := FaceMeshOf(c, filter, ops);
    for faceI := 0 to LoopCount(model.numFaces)
      invariant Faces(mesh, model.firstFace, faceI, verts0, tris0) == Ok((vertices.items, triangles.items))
      invariant verts0 <= vertices.items && tris0 <= triangles.items
    {
      var face := AppendModelFace(c, model.firstFace, faceI, vertices, triangles, filter, ops, verts0, tris0);
      if face.Err? {
        FacesErrorPersists(mesh, model.firstFace, faceI + 1, LoopCount(model.numFaces), verts0, tris0);
        return Err(face.error);
      }
    }
    return Ok(());
  }

  /** Face first + i of a model appended after faces first .. first + i - 1. */
  method AppendModelFace(c: BspContents, first: int, i: nat, vertices: List<JmsVertex>, triangles: List<JmsTriangle>,
                         filter: Option<string>, ops: FloatOps, ghost verts0: seq<JmsVertex>, ghost tris0: seq<JmsTriangle>)
    returns (r: Result<()>)
    requires Faces(FaceMeshOf(c, filter, ops), first, i, verts0, tris0) == Ok((vertices.items, triangles.items))
    modifies vertices, triangles
    ensures r.Ok? ==> Faces(FaceMeshOf(c, filter, ops), first, i + 1, verts0, tris0) == Ok((vertices.items, triangles.items))
    ensures r.Err? ==> Faces(FaceMeshOf(c, filter, ops), first, i + 1, verts0, tris0) == Err(r.error)
    ensures old(vertices.items) <= vertices.items && old(triangles.items) <= triangles.items
  {
    r := AppendFace(c, first + i, vertices, triangles, filter, ops);
  }

  /** Once a face fails, every longer run of faces fails the same way. */
  lemma {:induction false} FacesErrorPersists(mesh: (int, int) -> Result<Mesh>, first: int, m: nat, n: nat,
                                              verts: seq<JmsVertex>, tris: seq<JmsTriangle>)
    requires m <= n && Faces(mesh, first, m, verts, tris).Err?
    ensures Faces(mesh, first, n, verts, tris) == Faces(mesh, first, m, verts, tris)
    decreases n
  {
    if m < n {
      FacesErrorPersists(mesh, first, m, n - 1, verts, tris);
    }
  }

  /** The models in order, starting from empty lists. */
  function ModelsMesh(c: BspContents, n: nat, ops: FloatOps): (r: Result<Mesh>)
    requires n <= |c.models|
    ensures r.Err? ==> r.error in {IndexOutOfRange, AbsOverflow, UnfixableSurface}
  {
    if n == 0 then Ok(([], []))
    else
      var prev := ModelsMesh(c, n - 1, ops);
      if prev.Err? then prev
      else ModelMesh(c, c.models[n - 1], LoopCount(c.models[n - 1].numFaces), None, ops, prev.value.0, prev.value.1)
  }

  /** The mesh of Main: models[0] first, then models 1 .. Length - 1, with no
      filter; a file without models fails on models[0]. */
  method GenerateMesh(c: BspContents, ops: FloatOps) returns (r: Result<(seq<JmsVertex>, seq<JmsTriangle>)>)
    ensures |c.models| == 0 ==> r == Err(IndexOutOfRange)
    ensures |c.models| > 0 ==> r == ModelsMesh(c, |c.models|, ops)
  {
    var vertices := new List<JmsVertex>();
    var triangles := new List<JmsTriangle>();
    if |c.models| == 0 {
      return Err(IndexOutOfRange);
    }
    var first := CreateVertsAndTris(c, c.models[0], vertices, triangles, None, ops);
    if first.Err? {
      ModelsMeshErrorPersists(c, 1, |c.models|, ops);
      return Err(first.error);
    }
    for i := 1 to |c.models|
      invariant ModelsMesh(c, i, ops) == Ok((vertices.items, triangles.items))
    {
      var next := CreateVertsAndTris(c, c.models[i], vertices, triangles, None, ops);
      if next.Err? {
        ModelsMeshErrorPersists(c, i + 1, |c.models|, ops);
        return Err(next.error);
      }
    }
    return Ok((vertices.items, triangles.items));
  }

  lemma {:induction false} ModelsMeshErrorPersists(c: BspContents, m: nat, n: nat, ops: FloatOps)
    requires m <= n <= |c.models| && ModelsMesh(c, m, ops).Err?
    ensures ModelsMesh(c, n, ops) == ModelsMesh(c, m, ops)
    decreases n
  {
    if m < n {
      ModelsMeshErrorPersists(c, m, n - 1, ops);
      assert ModelsMesh(c, n - 1, ops).Err?;
    }
  }

  /** A face that is drawn: its texinfo names a registered texture, and the
      texture passes the filter. */
  predicate Drawn(c: BspContents, face: int, filter: Option<string>) {
    0 <= face < |c.surfaces|
    && 0 <= c.surfaces[face].textureInfo < |c.texInfos|
    && var slot := c.texInfos[c.surfaces[face].textureInfo].textureNameIndex;
    0 <= slot < |c.uniqueTextureNames|
    && (filter.None? || c.uniqueTextureNames[slot] == filter.value)
  }

  /** A face emits nothing exactly when its slot is -1, its texture is not
      the filter, or it is drawn but has no edges and no AddMidpoint; a
      drawn face emits its boundary vertices and, at most once, the
      centroid; and unless it is a face without edges whose texinfo asks for
      the centroid, each of its triangles carries the face's texture slot
      and indexes only the face's own vertices. */
  lemma FaceMeshShape(c: BspContents, face: int, filter: Option<string>, ops: FloatOps, base: int)
    requires FaceMesh(c, face, filter, ops, base).Ok?
    ensures !Drawn(c, face, filter) ==> FaceMesh(c, face, filter, ops, base) == Ok(([], []))
    ensures FaceMesh(c, face, filter, ops, base).value == ([], [])
      <==> !Drawn(c, face, filter) || EmptyFace(c, face)
    ensures Drawn(c, face, filter) ==>
      var surface := c.surfaces[face];
      var texInfo := c.texInfos[surface.textureInfo];
      var normal := FaceNormal(c.planes[surface.plane].normal, surface.planeSide, ops);
      var b := Boundary(c, surface.firstEdge, LoopCount(surface.numEdges), texInfo, normal, ops).value;
      var m := FaceMesh(c, face, filter, ops, base).value;
      multiset(m.0) == multiset(b) + (if |m.0| > |b| then multiset{Centroid(b, texInfo, normal, ops)} else multiset{})
      && |b| <= |m.0| <= |b| + 1
      && (surface.numEdges != 0 || !HasFlag(texInfo.flags, AddMidpoint) ==>
            forall tri :: tri in m.1 ==> InFace(tri, texInfo.textureNameIndex, base, |m.0|))
  {
    if Drawn(c, face, filter) {
      DrawnFaceMeshShape(c, face, filter, ops, base);
    }
  }

  /** The drawn case of FaceMeshShape, from the boundary and the finished
      retry loop. */
  lemma DrawnFaceMeshShape(c: BspContents, face: int, filter: Option<string>, ops: FloatOps, base: int)
    requires FaceMesh(c, face, filter, ops, base).Ok? && Drawn(c, face, filter)
    ensures FaceMesh(c, face, filter, ops, base).value == ([], []) <==> EmptyFace(c, face)
    ensures var surface := c.surfaces[face];
      var texInfo := c.texInfos[surface.textureInfo];
      var normal := FaceNormal(c.planes[surface.plane].normal, surface.planeSide, ops);
      var b := Boundary(c, surface.firstEdge, LoopCount(surface.numEdges), texInfo, normal, ops).value;
      var m := FaceMesh(c, face, filter, ops, base).value;
      multiset(m.0) == multiset(b) + (if |m.0| > |b| then multiset{Centroid(b, texInfo, normal, ops)} else multiset{})
      && |b| <= |m.0| <= |b| + 1
      && (surface.numEdges != 0 || !HasFlag(texInfo.flags, AddMidpoint) ==>
            forall tri :: tri in m.1 ==> InFace(tri, texInfo.textureNameIndex, base, |m.0|))
  {
    DrawnFaceMesh(c, face, filter, ops, base);
    var surface := c.surfaces[face];
    var texInfo := c.texInfos[surface.textureInfo];
    var normal := FaceNormal(c.planes[surface.plane].normal, surface.planeSide, ops);
    var b := Boundary(c, surface.firstEdge, LoopCount(surface.numEdges), texInfo, normal, ops).value;
    var mid := Centroid(b, texInfo, normal, ops);
    var s := Start(b, HasFlag(texInfo.flags, AddMidpoint), mid);
    var t := Triangulate(s, surface.numEdges, mid, ops.distance);
    FaceRunShape(s, t, b, surface.numEdges, mid, ops.distance, texInfo.textureNameIndex, base);
    FaceRunEmpty(s, t, b, surface.numEdges, mid, ops.distance, texInfo.textureNameIndex, base);
  }

  /** What a finished retry loop over a boundary leaves: the boundary and at
      most the centroid, and triangles inside the face unless the face has
      no edges and started with the centroid. */
  lemma FaceRunShape(s: FaceState, t: FaceState, b: seq<JmsVertex>, numEdges: int, mid: JmsVertex,
                     distance: (Vector3, Vector3) -> real, material: int, base: int)
    requires 0 <= numEdges && |b| == numEdges
    requires s == Start(b, s.added, mid) && t == Triangulate(s, numEdges, mid, distance) && t.finished
    ensures multiset(t.verts) == multiset(b) + (if |t.verts| > |b| then multiset{mid} else multiset{})
    ensures |b| <= |t.verts| <= |b| + 1
    ensures numEdges != 0 || !s.added ==>
      forall tri :: tri in FaceTriangles(t, material, base) ==> InFace(tri, material, base, |t.verts|)
  {
    assert Holds(s, b, mid);
    TriangulateOutcome(s, numEdges, mid, distance, b);
    if numEdges != 0 || !s.added {
      FaceTrianglesInFace(t, material, base);
    }
  }

  /** A finished retry loop leaves no vertex, and then no triangle, exactly
      when the face has no edges and did not start with the centroid. */
  lemma FaceRunEmpty(s: FaceState, t: FaceState, b: seq<JmsVertex>, numEdges: int, mid: JmsVertex,
                     distance: (Vector3, Vector3) -> real, material: int, base: int)
    requires 0 <= numEdges && |b| == numEdges
    requires s == Start(b, s.added, mid) && t == Triangulate(s, numEdges, mid, distance) && t.finished
    ensures t.verts == [] <==> numEdges == 0 && !s.added
    ensures t.verts == [] ==> FaceTriangles(t, material, base) == []
  {
    assert Holds(s, b, mid);
    TriangulateOutcome(s, numEdges, mid, distance, b);
  }

  /** A drawn face that meshes has a boundary, and its mesh is what the
      retry loop finished with: the vertices and the face's triangles. */
  lemma DrawnFaceMesh(c: BspContents, face: int, filter: Option<string>, ops: FloatOps, base: int)
    requires FaceMesh(c, face, filter, ops, base).Ok? && Drawn(c, face, filter)
    ensures var surface := c.surfaces[face];
      var texInfo := c.texInfos[surface.textureInfo];
      0 <= surface.plane < |c.planes| && 0 <= surface.numEdges
      && var normal := FaceNormal(c.planes[surface.plane].normal, surface.planeSide, ops);
      var boundary := Boundary(c, surface.firstEdge, LoopCount(surface.numEdges), texInfo, normal, ops);
      boundary.Ok?
      && var mid := Centroid(boundary.value, texInfo, normal, ops);
      var t := Triangulate(Start(boundary.value, HasFlag(texInfo.flags, AddMidpoint), mid),
                           surface.numEdges, mid, ops.distance);
      t.finished && FaceMesh(c, face, filter, ops, base).value == (t.verts, FaceTriangles(t, texInfo.textureNameIndex, base))
  {
  }

  /** A drawn face without edges and without AddMidpoint: its boundary and
      its fan are empty. */
  predicate EmptyFace(c: BspContents, face: int)
    requires 0 <= face < |c.surfaces| && 0 <= c.surfaces[face].textureInfo < |c.texInfos|
  {
    c.surfaces[face].numEdges == 0 && !HasFlag(c.texInfos[c.surfaces[face].textureInfo].flags, AddMidpoint)
  }

  /** A drawn face without edges whose texinfo asks for the centroid: its
      closing triangle points one past the face's only vertex. */
  predicate MidpointOnly(c: BspContents, face: int, filter: Option<string>) {
    Drawn(c, face, filter) && c.surfaces[face].numEdges == 0
    && HasFlag(c.texInfos[c.surfaces[face].textureInfo].flags, AddMidpoint)
  }

  /** Every triangle of a mesh indexes one of its vertices and one of the
      materials 0 .. materials - 1. */
  predicate WellFormed(m: Mesh, materials: int) {
    forall tri :: tri in m.1 ==>
      0 <= tri.v1 < |m.0| && 0 <= tri.v2 < |m.0| && 0 <= tri.v3 < |m.0| && 0 <= tri.materialIndex < materials
  }

  /** A face result whose triangles index only its own vertices, numbered
      from base. */
  predicate IndexedFrom(r: Result<Mesh>, base: int, materials: int) {
    r.Ok? ==> forall tri :: tri in r.value.1 ==>
      base <= tri.v1 < base + |r.value.0| && base <= tri.v2 < base + |r.value.0|
      && base <= tri.v3 < base + |r.value.0| && 0 <= tri.materialIndex < materials
  }

  /** Appending faces that each index their own vertices keeps a mesh well
      formed. */
  lemma {:induction false} FacesWellFormed(mesh: (int, int) -> Result<Mesh>, first: int, n: nat, verts: seq<JmsVertex>,
                                           tris: seq<JmsTriangle>, materials: int)
    requires WellFormed((verts, tris), materials)
    requires forall face, base :: first <= face < first + n ==> IndexedFrom(mesh(face, base), base, materials)
    ensures Faces(mesh, first, n, verts, tris).Ok? ==> WellFormed(Faces(mesh, first, n, verts, tris).value, materials)
  {
    if n > 0 {
      FacesWellFormed(mesh, first, n - 1, verts, tris, materials);
      var prev := Faces(mesh, first, n - 1, verts, tris);
      if prev.Ok? {
        var face := mesh(first + n - 1, |prev.value.0|);
        assert IndexedFrom(face, |prev.value.0|, materials);
      }
    }
  }

  /** CreateVertsAndTris keeps the lists well formed when none of the
      model's faces is a drawn face without edges that asks for the
      centroid: each new triangle indexes a vertex of the list and a
      registered texture. */
  lemma ModelMeshWellFormed(c: BspContents, model: BspModel, n: nat, filter: Option<string>, ops: FloatOps,
                            verts: seq<JmsVertex>, tris: seq<JmsTriangle>)
    requires forall face :: model.firstFace <= face < model.firstFace + n ==> !MidpointOnly(c, face, filter)
    requires WellFormed((verts, tris), |c.uniqueTextureNames|)
    ensures var r := ModelMesh(c, model, n, filter, ops, verts, tris);
      r.Ok? ==> WellFormed(r.value, |c.uniqueTextureNames|)
  {
    var mesh := FaceMeshOf(c, filter, ops);
    forall face, base | model.firstFace <= face < model.firstFace + n
      ensures IndexedFrom(mesh(face, base), base, |c.uniqueTextureNames|)
    {
      if FaceMesh(c, face, filter, ops, base).Ok? {
        assert !MidpointOnly(c, face, filter);
        FaceMeshShape(c, face, filter, ops, base);
      }
    }
    FacesWellFormed(mesh, model.firstFace, n, verts, tris, |c.uniqueTextureNames|);
  }

  /** The mesh of the first n models is well formed when none of their
      faces is a face without edges that asks for the centroid. */
  lemma {:induction false} ModelsMeshWellFormed(c: BspContents, n: nat, ops: FloatOps)
    requires n <= |c.models|
    requires forall m, face ::
               0 <= m < n && c.models[m].firstFace <= face < c.models[m].firstFace + c.models[m].numFaces
               ==> !MidpointOnly(c, face, None)
    ensures ModelsMesh(c, n, ops).Ok? ==> WellFormed(ModelsMesh(c, n, ops).value, |c.uniqueTextureNames|)
  {
    if n > 0 {
      ModelsMeshWellFormed(c, n - 1, ops);
      var prev := ModelsMesh(c, n - 1, ops);
      if prev.Ok? {
        ModelMeshWellFormed(c, c.models[n - 1], LoopCount(c.models[n - 1].numFaces), None, ops,
                            prev.value.0, prev.value.1);
      }
    }
  }
}
