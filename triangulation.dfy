/** The face triangulation of CreateVertsAndTris as a state machine over the
    face's vertex list: a fan from vertex 0, a degeneracy test per fan
    triangle, rotation of the list on a degenerate triangle, and the centroid
    inserted at most once. */
module Triangulation {
  import opened BasicTypes

  /** The single-precision constant 0.001f, exactly: 8589935 / 2^33. */
  const Epsilon: real := 8589935.0 / 8589934592.0

  /** List<float>.Sort on the three side lengths of a triangle. */
  function Sort3(l: seq<real>): (s: seq<real>)
    requires |l| == 3
    ensures |s| == 3 && s[0] <= s[1] <= s[2]
  {
    if l[0] <= l[1] then Place(l[0], l[1], l[2]) else Place(l[1], l[0], l[2])
  }

  /** The sorted order of a, b, c when a <= b. */
  function Place(a: real, b: real, c: real): (s: seq<real>)
    requires a <= b
    ensures |s| == 3 && s[0] <= s[1] <= s[2]
  {
    if b <= c then [a, b, c]
    else if a <= c then [a, c, b]
    else [c, a, b]
  }

  /** Sorting keeps the three lengths: it only reorders them. */
  lemma Sort3Permutes(l: seq<real>)
    requires |l| == 3
    ensures multiset(Sort3(l)) == multiset(l)
  {
    assert l == [l[0], l[1], l[2]];
    if l[0] <= l[1] {
      PlacePermutes(l[0], l[1], l[2]);
    } else {
      SwapHead(l[0], l[1], l[2]);
      PlacePermutes(l[1], l[0], l[2]);
    }
  }

  lemma PlacePermutes(a: real, b: real, c: real)
    requires a <= b
    ensures multiset(Place(a, b, c)) == multiset([a, b, c])
  {
    if b <= c {
    } else if a <= c {
      SwapTail(a, b, c);
    } else {
      SwapTail(a, b, c);
      SwapHead(a, c, b);
    }
  }

  lemma SwapTail<T>(a: T, b: T, c: T)
    ensures multiset([a, c, b]) == multiset([a, b, c])
  {
    assert [a, b, c] == [a] + ([b] + [c]);
    assert [a, c, b] == [a] + ([c] + [b]);
    assert multiset([b] + [c]) == multiset([c] + [b]);
  }

  lemma SwapHead<T>(a: T, b: T, c: T)
    ensures multiset([b, a, c]) == multiset([a, b, c])
  {
    assert [a, b, c] == ([a] + [b]) + [c];
    assert [b, a, c] == ([b] + [a]) + [c];
    assert multiset([a] + [b]) == multiset([b] + [a]);
  }

  /** A triangle is degenerate when its two shorter sides add up to at most
      the longest side plus Epsilon. */
  predicate Degenerate(lengths: seq<real>)
    requires |lengths| == 3
  {
    var s := Sort3(lengths);
    s[0] + s[1] <= s[2] + Epsilon
  }

  /** Two sorted triples with the same elements are equal. */
  lemma SortedTriplesEqual(s: seq<real>, t: seq<real>)
    requires |s| == 3 && |t| == 3
    requires s[0] <= s[1] <= s[2] && t[0] <= t[1] <= t[2]
    requires multiset(s) == multiset(t)
    ensures s == t
  {
    SortedEnds(s, t);
    Middle(s);
    Middle(t);
    assert multiset{s[1]} == multiset{t[1]};
    assert s[1] in multiset{t[1]};
  }

  lemma SortedEnds(s: seq<real>, t: seq<real>)
    requires |s| == 3 && |t| == 3
    requires s[0] <= s[1] <= s[2] && t[0] <= t[1] <= t[2]
    requires multiset(s) == multiset(t)
    ensures s[0] == t[0] && s[2] == t[2]
  {
    InTriple(s[0], t);
    InTriple(t[0], s);
    InTriple(s[2], t);
    InTriple(t[2], s);
  }

  lemma InTriple<T>(x: T, t: seq<T>)
    requires |t| == 3 && x in multiset(t)
    ensures x == t[0] || x == t[1] || x == t[2]
  {
    assert x in t;
  }

  lemma Middle<T>(s: seq<T>)
    requires |s| == 3
    ensures multiset(s) - multiset{s[0]} - multiset{s[2]} == multiset{s[1]}
  {
    assert s == [s[0]] + [s[1]] + [s[2]];
  }

  /** The degeneracy decision depends only on the multiset of the three
      lengths: the order in which they are measured does not matter. */
  lemma DegenerateIgnoresOrder(l: seq<real>, m: seq<real>)
    requires |l| == 3 && |m| == 3 && multiset(l) == multiset(m)
    ensures Degenerate(l) <==> Degenerate(m)
  {
    Sort3Permutes(l);
    Sort3Permutes(m);
    SortedTriplesEqual(Sort3(l), Sort3(m));
  }

  /** The three sides of fan triangle (0, i, i - 1), measured in the order
      v1-v2, v2-v3, v3-v1. */
  function FanLengths(verts: seq<JmsVertex>, i: nat, distance: (Vector3, Vector3) -> real): (l: seq<real>)
    requires 2 <= i < |verts|
    ensures |l| == 3
  {
    var a, b, c := verts[0].position, verts[i].position, verts[i - 1].position;
    [distance(a, b), distance(b, c), distance(c, a)]
  }

  predicate DegenerateAt(verts: seq<JmsVertex>, i: nat, distance: (Vector3, Vector3) -> real)
    requires 2 <= i < |verts|
  {
    Degenerate(FanLengths(verts, i, distance))
  }

  /** A pass over the fan finds no degenerate triangle. */
  predicate Clean(verts: seq<JmsVertex>, distance: (Vector3, Vector3) -> real) {
    forall i :: 2 <= i < |verts| ==> !DegenerateAt(verts, i, distance)
  }

  /** The list after newVerts.Insert(0, last) and RemoveAt(Count - 1). */
  function RotateRight<T>(v: seq<T>): (r: seq<T>)
    requires |v| >= 1
    ensures |r| == |v| && r[0] == v[|v| - 1] && r[1..] == v[..|v| - 1]
    ensures multiset(r) == multiset(v)
  {
    var r := [v[|v| - 1]] + v[..|v| - 1];
    assert v == v[..|v| - 1] + [v[|v| - 1]];
    r
  }

  /** The loop state of one face: newVerts, retries, addedMidPoint and
      finished. */
  datatype FaceState = FaceState(verts: seq<JmsVertex>, retries: nat, added: bool, finished: bool)

  /** The state before the loop: the boundary, with the centroid in front
      when the texinfo asks for it. */
  function Start(boundary: seq<JmsVertex>, addMidpoint: bool, mid: JmsVertex): (s: FaceState)
    ensures s.retries == 0 && !s.finished && s.added == addMidpoint
  {
    if addMidpoint then FaceState([mid] + boundary, 0, true, false)
    else FaceState(boundary, 0, false, false)
  }

  /** One iteration of the retry loop: a clean pass finishes; a degenerate
      triangle rotates the list, counts a retry, and inserts the centroid in
      front when the count first reaches numEdges - 1 and none was added. */
  function Pass(s: FaceState, numEdges: int, mid: JmsVertex, distance: (Vector3, Vector3) -> real): (t: FaceState)
    ensures t.finished <==> Clean(s.verts, distance)
    ensures t.finished ==> t.verts == s.verts && t.retries == s.retries && t.added == s.added
    ensures !t.finished ==> t.retries == s.retries + 1
    ensures t.added <==> s.added || (!t.finished && t.retries == numEdges - 1)
  {
    if Clean(s.verts, distance) then s.(finished := true)
    else
      assert |s.verts| >= 3;
      var rotated := RotateRight(s.verts);
      var retries := s.retries + 1;
      if !s.added && retries == numEdges - 1 then FaceState([mid] + rotated, retries, true, false)
      else FaceState(rotated, retries, s.added, false)
  }

  /** The retry loop: passes while unfinished and retries <= numEdges. */
  function Triangulate(s: FaceState, numEdges: int, mid: JmsVertex, distance: (Vector3, Vector3) -> real): (t: FaceState)
    ensures t.finished || t.retries > numEdges
    ensures s.retries <= t.retries && (s.added ==> t.added)
    ensures s.finished ==> t == s
    decreases if s.finished then 0 else numEdges + 1 - s.retries
  {
    if s.finished || s.retries > numEdges then s
    else Triangulate(Pass(s, numEdges, mid, distance), numEdges, mid, distance)
  }

  /** The vertices a state holds: the boundary, plus the centroid once if it
      was added. */
  predicate Holds(s: FaceState, boundary: seq<JmsVertex>, mid: JmsVertex) {
    multiset(s.verts) == multiset(boundary) + (if s.added then multiset{mid} else multiset{})
  }

  /** A pass keeps the vertices, adds the centroid at most once, counts a
      retry exactly when it does not finish, and inserts only at
      retries == numEdges - 1. */
  lemma PassStep(s: FaceState, numEdges: int, mid: JmsVertex, distance: (Vector3, Vector3) -> real,
                 boundary: seq<JmsVertex>)
    requires Holds(s, boundary, mid)
    ensures var t := Pass(s, numEdges, mid, distance);
      Holds(t, boundary, mid)
      && (t.finished <==> Clean(s.verts, distance))
      && (t.finished ==> t.verts == s.verts && t.retries == s.retries && t.added == s.added)
      && (!t.finished ==> t.retries == s.retries + 1)
      && (s.added ==> t.added)
      && (t.added && !s.added ==> t.retries == numEdges - 1 && t.verts == [mid] + RotateRight(s.verts))
      && (t.added == s.added && !t.finished ==> t.verts == RotateRight(s.verts))
      && |t.verts| == |s.verts| + (if t.added && !s.added then 1 else 0)
  {
    var t := Pass(s, numEdges, mid, distance);
    if !Clean(s.verts, distance) {
      var rotated := RotateRight(s.verts);
      if t.added && !s.added {
        assert multiset(t.verts) == multiset{mid} + multiset(rotated);
      }
    }
  }

  /** What the retry loop delivers: the vertices kept, the centroid added
      at most once and only before the loop or once retries reached
      numEdges - 1, a finished run clean, at most numEdges + 1 rotations,
      and an unfinished run only once the retries passed numEdges. */
  lemma {:induction false} TriangulateOutcome(s: FaceState, numEdges: int, mid: JmsVertex,
                                             distance: (Vector3, Vector3) -> real, boundary: seq<JmsVertex>)
    requires 0 <= numEdges && s.retries <= numEdges + 1
    requires Holds(s, boundary, mid)
    requires s.finished ==> Clean(s.verts, distance)
    ensures var t := Triangulate(s, numEdges, mid, distance);
      Holds(t, boundary, mid)
      && (t.finished ==> Clean(t.verts, distance))
      && (!t.finished ==> t.retries == numEdges + 1)
      && s.retries <= t.retries <= numEdges + 1
      && (s.added ==> t.added)
      && (t.added && !s.added ==> 1 <= numEdges - 1 <= t.retries)
      && |t.verts| == |s.verts| + (if t.added && !s.added then 1 else 0)
    decreases if s.finished then 0 else numEdges + 1 - s.retries
  {
    if s.finished || s.retries > numEdges {
    } else {
      var u := Pass(s, numEdges, mid, distance);
      PassStep(s, numEdges, mid, distance, boundary);
      TriangulateOutcome(u, numEdges, mid, distance, boundary);
    }
  }

  /** Fan triangle i: vertex 0, vertex i and vertex i - 1, offset by base. */
  function FanTriangle(material: int, base: int, i: int): JmsTriangle {
    JmsTriangle(material, base, base + i, base + i - 1)
  }

  /** The fan triangles for i = 2 .. count - 1, in order. */
  function Fan(material: int, base: int, count: int): (ts: seq<JmsTriangle>)
    decreases count
  {
    if count <= 2 then [] else Fan(material, base, count - 1) + [FanTriangle(material, base, count - 1)]
  }

  /** The triangle closing a face whose centroid was added. */
  function Closing(material: int, base: int, count: int): JmsTriangle {
    JmsTriangle(material, base, base + 1, base + count - 1)
  }

  /** The triangles a face ends the loop with: the full fan when it
      finished (a degenerate pass clears them), and the closing triangle
      when the centroid was added. */
  function FaceTriangles(t: FaceState, material: int, base: int): seq<JmsTriangle> {
    (if t.finished then Fan(material, base, |t.verts|) else [])
      + (if t.added then [Closing(material, base, |t.verts|)] else [])
  }

  /** Triangle k of the fan is (base, base + k + 2, base + k + 1): one per
      vertex after the second. */
  lemma {:induction false} FanShape(material: int, base: int, count: int)
    ensures var ts := Fan(material, base, count);
      |ts| == (if count < 2 then 0 else count - 2)
      && forall k :: 0 <= k < |ts| ==> ts[k] == JmsTriangle(material, base, base + k + 2, base + k + 1)
    decreases count
  {
    if count > 2 {
      FanShape(material, base, count - 1);
    }
  }

  predicate InFace(t: JmsTriangle, material: int, base: int, count: int) {
    t.materialIndex == material
    && base <= t.v1 < base + count && base <= t.v2 < base + count && base <= t.v3 < base + count
  }

  /** Every triangle of a finished face carries the face's material and
      points into the face's own vertices, [base, base + count), unless the
      closing triangle of a one-vertex face reaches past it. */
  lemma FaceTrianglesInFace(t: FaceState, material: int, base: int)
    requires t.finished && (t.added ==> |t.verts| >= 2)
    ensures forall tri :: tri in FaceTriangles(t, material, base) ==> InFace(tri, material, base, |t.verts|)
  {
    FanShape(material, base, |t.verts|);
  }

  /** A face with no edges but the AddMidpoint flag keeps only its centroid,
      and its closing triangle names base + 1, one past the face. */
  lemma NoEdgeMidpointFace(mid: JmsVertex, distance: (Vector3, Vector3) -> real, material: int, base: int)
    ensures var t := Triangulate(Start([], true, mid), 0, mid, distance);
      t.finished && t.verts == [mid]
      && FaceTriangles(t, material, base) == [JmsTriangle(material, base, base + 1, base)]
      && !InFace(FaceTriangles(t, material, base)[0], material, base, |t.verts|)
  {
    var s := Start([], true, mid);
    assert Clean(s.verts, distance);
    assert Pass(s, 0, mid, distance) == s.(finished := true);
  }

  /** After the centroid went in front, a further degenerate pass rotates it
      to index 1: the closing triangle (0, 1, Count - 1) then starts at the
      boundary vertex rotated in front, not at the centroid. */
  lemma CentroidLeavesFront(s: FaceState, numEdges: int, mid: JmsVertex, distance: (Vector3, Vector3) -> real)
    requires s.added && |s.verts| >= 1 && s.verts[0] == mid
    requires !Clean(s.verts, distance)
    ensures var t := Pass(s, numEdges, mid, distance);
      t.added && |t.verts| == |s.verts| && t.verts[1] == mid && t.verts[0] == s.verts[|s.verts| - 1]
  {
    var t := Pass(s, numEdges, mid, distance);
    assert t.verts[1..] == s.verts[..|s.verts| - 1];
    assert t.verts[1] == t.verts[1..][0];
  }
}
