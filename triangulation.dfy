/** The `Delaunay` object: the three arrays of mesh records and the history graph, updated
    in place by the constructor, `triangulate`, `splitTriangle` and `legalizeEdge`; each
    method is proved against the value-level operation of the same name. */
module Triangulation {
  import opened Geometry
  import opened History
  import opened Mesh
  import opened Split
  import opened Legalize
  import opened PointLocation
  import opened Insert

  /** The history nodes `getTriangleData` reports: leaves whose three corners are all
      input points (ids 3 and up). */
  predicate Emitted(n: Node)
  {
    n.children == [] && n.vertices.v1 >= 3 && n.vertices.v2 >= 3 && n.vertices.v3 >= 3
  }

  /** A triangle of vertex ids re-based to indices into the input points. */
  function Rebased(t: Triple): Triple
    requires t.v1 >= 3 && t.v2 >= 3 && t.v3 >= 3
  {
    Triple(t.v1 - 3, t.v2 - 3, t.v3 - 3)
  }

  /** The triangles `getTriangleData` lists: those of the emitted nodes, visited in the
      history's insertion order. */
  function LeafTriangles(nodes: map<nat, Node>, order: seq<nat>): seq<Triple>
    requires forall i :: 0 <= i < |order| ==> order[i] in nodes
  {
    if order == [] then []
    else
      var rest := LeafTriangles(nodes, order[..|order| - 1]);
      var n := nodes[order[|order| - 1]];
      if Emitted(n) then rest + [Rebased(n.vertices)] else rest
  }

  /** A triangle is listed exactly when some node in the order is emitted and re-bases to it. */
  lemma {:induction false} LeafTrianglesExactly(nodes: map<nat, Node>, order: seq<nat>, t: Triple)
    requires forall i :: 0 <= i < |order| ==> order[i] in nodes
    ensures t in LeafTriangles(nodes, order) <==>
            exists i :: 0 <= i < |order| && Emitted(nodes[order[i]]) && t == Rebased(nodes[order[i]].vertices)
  {
    if order != [] {
      var m := |order| - 1;
      var front := order[..m];
      LeafTrianglesExactly(nodes, front, t);
      if t in LeafTriangles(nodes, front) {
        var i :| 0 <= i < |front| && Emitted(nodes[front[i]]) && t == Rebased(nodes[front[i]].vertices);
        assert front[i] == order[i];
      }
      if exists i :: 0 <= i < |order| && Emitted(nodes[order[i]]) && t == Rebased(nodes[order[i]].vertices) {
        var i :| 0 <= i < |order| && Emitted(nodes[order[i]]) && t == Rebased(nodes[order[i]].vertices);
        if i < m {
          assert front[i] == order[i];
        }
      }
    }
  }

  /** Under the invariant, every listed triangle is that of a current face: it is the face's
      three corners, read around the face from one of its half-edges, none of them a
      bounding corner, and its three indices are distinct and name input points. */
  lemma LeafTrianglesCurrent(s: State, t: Triple)
    requires Inv(s) && (forall i :: 0 <= i < |s.order| ==> s.order[i] in s.nodes)
    requires t in LeafTriangles(s.nodes, s.order)
    ensures TripleOk(t, |s.vertices| - 3)
    ensures exists k :: 0 <= k < |s.faces| && k in s.nodes && IsCurrent(s, s.faces[k]) && Emitted(s.nodes[k]) &&
                        t == Rebased(s.nodes[k].vertices) &&
                        NamesCorners(s, s.nodes[k].vertices, s.faces[k].incEdge)
  {
    InvNodesValid(s);
    LeafTrianglesExactly(s.nodes, s.order, t);
    var i :| 0 <= i < |s.order| && Emitted(s.nodes[s.order[i]]) && t == Rebased(s.nodes[s.order[i]].vertices);
    var k := s.order[i];
    assert FaceOk(s, k) && CornersOk(s, k);
    LeafIsCurrent(s, k);
  }

  class Delaunay {
    const points: seq<Point>
    var vertices: seq<Vertex>
    var halfEdges: seq<HalfEdge>
    var faces: seq<Face>
    const triangleGraph: TriangleGraph

    /** The object's contents as a value. */
    ghost function Abstract(): State
      reads this, triangleGraph
    {
      State(vertices, halfEdges, faces, triangleGraph.nodes, triangleGraph.order)
    }

    ghost predicate Valid()
      reads this, triangleGraph
    {
      Inv(Abstract())
    }

    /** The constructor: three synthetic vertices far outside any input point, the six
        half-edges of their triangle (0, 1, 2 inside on face 0, their twins 3, 4, 5 outside,
        with the outer loop linked 3 -> 5 -> 4), the history root under key 0; then every
        point is inserted. */
    constructor (points: seq<Point>)
      ensures Valid() && this.points == points
      ensures (BootstrapInv(); Abstract() == Triangulated(Bootstrap(), points))
    {
      this.points := points;
      var tempPositions := BootstrapPositions();
      var vs: seq<Vertex> := [];
      for i := 0 to 3
        invariant |vs| == i && forall j :: 0 <= j < i ==> vs[j] == Vertex(tempPositions[j], 0, j)
      {
        vs := vs + [Vertex(tempPositions[i], 0, |vs|)];
      }
      var hs: seq<HalfEdge> := [];
      for i := 0 to 6
        invariant |hs| == i && forall j :: 0 <= j < i ==> hs[j] == Unset(0)
      {
        hs := hs + [Unset(0)];
      }
      var fs := [Face(0, 0)];
      triangleGraph := new TriangleGraph(0, Triple(0, 1, 2));

      vs := vs[0 := vs[0].(incEdge := 0)][1 := vs[1].(incEdge := 1)][2 := vs[2].(incEdge := 2)];
      hs := hs[0 := HalfEdge(0, 3, Some(0), 1, 2)];
      hs := hs[1 := HalfEdge(1, 4, Some(0), 2, 0)];
      hs := hs[2 := HalfEdge(2, 5, Some(0), 0, 1)];
      hs := hs[3 := HalfEdge(1, 0, None, 5, 4)];
      hs := hs[4 := HalfEdge(2, 1, None, 3, 5)];
      hs := hs[5 := HalfEdge(0, 2, None, 4, 3)];
      vertices, halfEdges, faces := vs, hs, fs;
      new;
      assert Abstract() == Bootstrap();
      BootstrapInv();
      Triangulate();
    }

    /** `getFaceHalfEdges`: the half-edges met walking next from the face's half-edge until
        the walk is about to return to its first origin. */
    method GetFaceHalfEdges(face: Face) returns (edges: seq<nat>)
      requires FaceWalk(halfEdges, face.incEdge, |vertices|)
      ensures edges == [face.incEdge, halfEdges[face.incEdge].next, halfEdges[halfEdges[face.incEdge].next].next]
    {
      ghost var cycle := [face.incEdge, halfEdges[face.incEdge].next, halfEdges[halfEdges[face.incEdge].next].next];
      edges := [face.incEdge];
      var edge := edges[0];
      while halfEdges[halfEdges[edge].next].origin != halfEdges[edges[0]].origin
        invariant 1 <= |edges| <= 3 && edges == cycle[..|edges|] && edge == edges[|edges| - 1]
        decreases 3 - |edges|
      {
        edges := edges + [halfEdges[edge].next];
        edge := halfEdges[edge].next;
      }
    }

    /** `getFaceVertices`: the origins met on the same walk. */
    method GetFaceVertices(face: Face) returns (corners: seq<Vertex>)
      requires FaceWalk(halfEdges, face.incEdge, |vertices|)
      ensures var ie := face.incEdge; var n := halfEdges[ie].next; var nn := halfEdges[n].next;
              corners == [vertices[halfEdges[ie].origin], vertices[halfEdges[n].origin], vertices[halfEdges[nn].origin]]
    {
      ghost var cycle := [face.incEdge, halfEdges[face.incEdge].next, halfEdges[halfEdges[face.incEdge].next].next];
      var edge := face.incEdge;
      corners := [vertices[halfEdges[edge].origin]];
      ghost var steps := 1;
      while halfEdges[halfEdges[edge].next].origin != halfEdges[face.incEdge].origin
        invariant 1 <= steps <= 3 && |corners| == steps && edge == cycle[steps - 1]
        invariant forall j :: 0 <= j < steps ==> corners[j] == vertices[halfEdges[cycle[j]].origin]
        decreases 3 - steps
      {
        edge := halfEdges[edge].next;
        corners := corners + [vertices[halfEdges[edge].origin]];
        steps := steps + 1;
      }
    }

    /** The first part of `splitTriangle`: six blank half-edges, the even ones starting at
        the new vertex `vid`, then the twin loop pairing 2i with 2i - 1 (mod 6). Twins are
        stored as indices into the arena once the six are appended after `base` records. */
    static method NewHalfEdges(base: nat, vid: nat) returns (newHalfEdges: seq<HalfEdge>)
      ensures newHalfEdges == SplitBlank(base, vid)
    {
      newHalfEdges := [];
      for i := 0 to 6
        invariant |newHalfEdges| == i
        invariant forall j :: 0 <= j < i ==> newHalfEdges[j] == Unset(if j % 2 == 0 then vid else 0)
      {
        var leftEdge := i % 2 == 0;
        newHalfEdges := newHalfEdges + [Unset(if leftEdge then vid else 0)];
      }
      for i := 0 to 3
        invariant |newHalfEdges| == 6
        invariant forall j :: 0 <= j < 6 ==>
                    newHalfEdges[j] == Unset(if j % 2 == 0 then vid else 0).(twin := if TwinRound(j) < i then base + TwinSlot(j) else 0)
      {
        var e1 := i * 2;
        var e2 := if i == 0 then 5 else i * 2 - 1;
        newHalfEdges := newHalfEdges[e1 := newHalfEdges[e1].(twin := base + e2)];
        newHalfEdges := newHalfEdges[e2 := newHalfEdges[e2].(twin := base + e1)];
      }
    }

    /** Round i of `splitTriangle`'s face loop: the old boundary edge o_i and the new
        half-edges e2 = 2i + 1 and e3 = 2i (as indices after base) are linked into a 3-cycle
        on the face with key nf + i, e2 takes the origin of o_i's next, and the face's
        triangle is recorded in the history under `parents`. */
    method LinkFace(ghost S: State, o: seq<nat>, i: nat, parents: seq<nat>, base: nat, nf: nat, vid: nat,
                    edges0: seq<HalfEdge>, newHalfEdges0: seq<HalfEdge>)
      returns (edges: seq<HalfEdge>, newHalfEdges: seq<HalfEdge>, newFace: Face)
      requires Bounded(S) && |o| == 3 && (forall k :: 0 <= k < 3 ==> o[k] < |S.halfEdges|) && i < 3
      requires RoundReads(S, o, i)
      requires vertices == S.vertices && base == |S.halfEdges| && nf == |S.faces| && vid == |S.vertices|
      requires edges0 == SplitOldStage(S, o, i) && newHalfEdges0 == SplitNewStage(S, o, i)
      requires triangleGraph.Valid()
      requires triangleGraph.nodes == AddFirst(S.nodes, S.order, parents, [nf, nf + 1, nf + 2], SplitTriples(S, o), i).nodes
      requires triangleGraph.order == AddFirst(S.nodes, S.order, parents, [nf, nf + 1, nf + 2], SplitTriples(S, o), i).order
      modifies triangleGraph
      ensures edges == SplitOldStage(S, o, i + 1) && newHalfEdges == SplitNewStage(S, o, i + 1)
      ensures newFace == Face(base + 2 * i, nf + i)
      ensures triangleGraph.Valid()
      ensures triangleGraph.nodes == AddFirst(S.nodes, S.order, parents, [nf, nf + 1, nf + 2], SplitTriples(S, o), i + 1).nodes
      ensures triangleGraph.order == AddFirst(S.nodes, S.order, parents, [nf, nf + 1, nf + 2], SplitTriples(S, o), i + 1).order
    {
      var e1, e2, e3 := o[i], i * 2 + 1, i * 2;
      newFace := Face(base + e3, nf + i);
      edges, newHalfEdges := edges0, newHalfEdges0;
      newHalfEdges := newHalfEdges[e2 := newHalfEdges[e2].(origin := edges[edges[e1].next].origin)];
      edges := edges[e1 := edges[e1].(next := base + e2, prev := base + e3, incFace := Some(newFace.graphKey))];
      newHalfEdges := newHalfEdges[e2 := newHalfEdges[e2].(next := base + e3, prev := e1, incFace := Some(newFace.graphKey))];
      newHalfEdges := newHalfEdges[e3 := newHalfEdges[e3].(next := e1, prev := base + e2, incFace := Some(newFace.graphKey))];
      var corners := Triple(vertices[edges[e1].origin].id, vertices[newHalfEdges[e2].origin].id, vid);
      assert corners == SplitTriples(S, o)[i];
      var ok := triangleGraph.AddNode(parents, newFace.graphKey, corners);
    }

    /** `splitTriangle`'s face loop, one `LinkFace` round per new face. The arena parts are
        worked on as local copies (`edges`, the six new records) and returned. */
    method LinkNewFaces(ghost S: State, o: seq<nat>, parentKey: nat, base: nat, nf: nat, vid: nat,
                        edges0: seq<HalfEdge>, newHalfEdges0: seq<HalfEdge>)
      returns (edges: seq<HalfEdge>, newHalfEdges: seq<HalfEdge>, newFaces: seq<Face>)
      requires LinkReady(S, o)
      requires vertices == S.vertices && base == |S.halfEdges| && nf == |S.faces| && vid == |S.vertices|
      requires edges0 == S.halfEdges && newHalfEdges0 == SplitNewStage(S, o, 0)
      requires triangleGraph.Valid() && triangleGraph.nodes == S.nodes && triangleGraph.order == S.order
      modifies triangleGraph
      ensures edges == SplitOldStage(S, o, 3) && newHalfEdges == SplitNewStage(S, o, 3)
      ensures newFaces == [Face(base, nf), Face(base + 2, nf + 1), Face(base + 4, nf + 2)]
      ensures triangleGraph.Valid()
      ensures var g := AddNodes(S.nodes, S.order, [parentKey], [nf, nf + 1, nf + 2], SplitTriples(S, o));
              triangleGraph.nodes == g.nodes && triangleGraph.order == g.order
    {
      var parents: seq<nat> := [parentKey];
      ghost var keys: seq<nat>, tris := [nf, nf + 1, nf + 2], SplitTriples(S, o);
      edges, newHalfEdges, newFaces := edges0, newHalfEdges0, [];
      for i := 0 to 3
        modifies triangleGraph
        invariant edges == SplitOldStage(S, o, i) && newHalfEdges == SplitNewStage(S, o, i)
        invariant newFaces == [Face(base, nf), Face(base + 2, nf + 1), Face(base + 4, nf + 2)][..i]
        invariant triangleGraph.Valid()
        invariant triangleGraph.nodes == AddFirst(S.nodes, S.order, parents, keys, tris, i).nodes
        invariant triangleGraph.order == AddFirst(S.nodes, S.order, parents, keys, tris, i).order
      {
        var newFace;
        edges, newHalfEdges, newFace := LinkFace(S, o, i, parents, base, nf, vid, edges, newHalfEdges);
        newFaces := newFaces + [newFace];
      }
      AddFirstIsAddNodes(S.nodes, S.order, parents, keys, tris, 3);
    }

    /** `splitTriangle(point, triangle)`: a new vertex at the point, six new half-edges in
        three twin pairs, and the current face `triangle` replaced by three faces around the
        new vertex, each recorded in the history as a child of the old face's node. Returns
        the new vertex's index and the old face's three half-edges. */
    method SplitTriangle(point: Point, triangle: Face) returns (newVertex: nat, outerFaceEdges: seq<nat>)
      requires Valid() && IsCurrent(Abstract(), triangle)
      modifies this, triangleGraph
      ensures Abstract() == SplitState(old(Abstract()), point, triangle)
      ensures Valid()
      ensures newVertex == old(|vertices|)
      ensures outerFaceEdges == Boundary(old(Abstract()), triangle.incEdge)
    {
      ghost var S := Abstract();
      InvNodesValid(S);
      var base, nf := |halfEdges|, |faces|;
      var v := Vertex(point, 0, |vertices|);

      var newHalfEdges := NewHalfEdges(base, v.id);
      TriangleWalk(S, triangle.incEdge);
      outerFaceEdges := GetFaceHalfEdges(triangle);
      SplitLinkReady(S, triangle);
      var edges, newFaces;
      edges, newHalfEdges, newFaces :=
        LinkNewFaces(S, outerFaceEdges, triangle.graphKey, base, nf, v.id, halfEdges, newHalfEdges);

      v := v.(incEdge := base);
      vertices, halfEdges, faces := vertices + [v], edges + newHalfEdges, faces + newFaces;
      newVertex := v.id;

      SplitAssembled(S, point, triangle);
    }

    /** The rewiring in `legalizeEdge`'s flip branch, worked on a copy of the half-edge
        arena, the writes to each record grouped together: the edge and its twin turn to join
        the two apexes, the four outer half-edges are relinked around them, and the six
        half-edges are assigned to the new faces L (the twin's side) and L + 1. */
    static method FlipLinks(ghost s: State, edge: nat, hs0: seq<HalfEdge>, L: nat) returns (hs: seq<HalfEdge>)
      requires Inv(s) && FlipOk(s, edge) && hs0 == s.halfEdges && L == |s.faces|
      ensures hs == FlipState(s, edge).halfEdges
    {
      QuadFacts(s, edge);
      FlipRecords(s, edge);
      hs := hs0;
      var twin := hs[edge].twin;
      var incFaceEdge1, incFaceEdge2 := hs[twin].prev, hs[twin].next;
      var faceEdge1, faceEdge2 := hs[edge].next, hs[edge].prev;
      hs := hs[edge := hs[edge].(next := incFaceEdge1, prev := faceEdge1, origin := hs[faceEdge2].origin, incFace := Some(L + 1))];
      hs := hs[twin := hs[twin].(next := faceEdge2, prev := incFaceEdge2, origin := hs[incFaceEdge1].origin, incFace := Some(L))];
      hs := hs[incFaceEdge1 := hs[incFaceEdge1].(prev := edge, next := faceEdge1, incFace := Some(L + 1))];
      hs := hs[faceEdge1 := hs[faceEdge1].(prev := incFaceEdge1, next := edge, incFace := Some(L + 1))];
      hs := hs[faceEdge2 := hs[faceEdge2].(prev := twin, next := incFaceEdge2, incFace := Some(L))];
      hs := hs[incFaceEdge2 := hs[incFaceEdge2].(prev := faceEdge2, next := twin, incFace := Some(L))];
    }

    /** The flip branch's loop over its two new faces: each face's triangle is read off
        the mesh and recorded in the history under both old faces' keys, and the face is
        appended. */
    method RecordFlipFaces(ghost S: State, ghost edge: nat, parents: seq<nat>, newFaces: seq<Face>)
      requires Flippable(S, edge) && FlipWalk(S, edge, 0) && FlipWalk(S, edge, 1)
      requires vertices == S.vertices && halfEdges == FlipState(S, edge).halfEdges && faces == S.faces
      requires var q, L := QuadOf(S, edge), |S.faces|; newFaces == [Face(q.faceEdge2, L), Face(q.faceEdge1, L + 1)]
      requires triangleGraph.Valid() && triangleGraph.nodes == S.nodes && triangleGraph.order == S.order
      modifies this, triangleGraph
      ensures vertices == S.vertices && halfEdges == FlipState(S, edge).halfEdges && faces == S.faces + newFaces
      ensures triangleGraph.Valid()
      ensures var L := |S.faces|;
              var g := AddNodes(S.nodes, S.order, parents, [L, L + 1], FlipTriples(S, QuadOf(S, edge)));
              triangleGraph.nodes == g.nodes && triangleGraph.order == g.order
    {
      ghost var keys: seq<nat>, tris := [|S.faces|, |S.faces| + 1], FlipTriples(S, QuadOf(S, edge));
      ghost var hs := halfEdges;
      for i := 0 to 2
        invariant vertices == S.vertices && halfEdges == hs
        invariant faces == S.faces + newFaces[..i]
        invariant triangleGraph.Valid()
        invariant triangleGraph.nodes == AddFirst(S.nodes, S.order, parents, keys, tris, i).nodes
        invariant triangleGraph.order == AddFirst(S.nodes, S.order, parents, keys, tris, i).order
      {
        var newFace := newFaces[i];
        assert FlipWalk(S, edge, i);
        var corners := GetFaceVertices(newFace);
        var ok := triangleGraph.AddNode(parents, newFace.graphKey, Triple(corners[0].id, corners[1].id, corners[2].id));
        faces := faces + [newFace];
      }
      AddFirstIsAddNodes(S.nodes, S.order, parents, keys, tris, 2);
    }

    /** The flip branch of `legalizeEdge` up to the recursive calls: the rewiring, then the
        two new faces recorded. Returns the two half-edges the recursion goes on with. */
    method FlipEdge(edge: nat) returns (incFaceEdge1: nat, incFaceEdge2: nat)
      requires Valid() && FlipOk(Abstract(), edge)
      modifies this, triangleGraph
      ensures Abstract() == FlipState(old(Abstract()), edge)
      ensures var q := QuadOf(old(Abstract()), edge); incFaceEdge1 == q.incFaceEdge1 && incFaceEdge2 == q.incFaceEdge2
    {
      ghost var S := Abstract();
      InvNodesValid(S);
      var face, adjacentFace := halfEdges[edge].incFace.value, halfEdges[halfEdges[edge].twin].incFace.value;
      var twin := halfEdges[edge].twin;
      incFaceEdge1, incFaceEdge2 := halfEdges[twin].prev, halfEdges[twin].next;
      var faceEdge1, faceEdge2 := halfEdges[edge].next, halfEdges[edge].prev;
      var L := |faces|;

      halfEdges := FlipLinks(S, edge, halfEdges, L);
      var newFaces := [Face(faceEdge2, L), Face(faceEdge1, L + 1)];
      var parents := [faces[face].graphKey, faces[adjacentFace].graphKey];
      FlipFaceWalk(S, edge, 0);
      FlipFaceWalk(S, edge, 1);
      RecordFlipFaces(S, edge, parents, newFaces);
    }

    /** `legalizeEdge(newVertex, edge)`: when the face across the edge exists and its far
        apex lies strictly inside the circumcircle of the new vertex and the edge's ends, flip
        the edge and legalize the two half-edges that now face the new vertex across the old
        triangle; otherwise leave everything as it is. */
    method LegalizeEdge(newVertex: nat, edge: nat)
      requires Valid() && Ready(Abstract(), newVertex, edge)
      modifies this, triangleGraph
      ensures Abstract() == LegalizeState(old(Abstract()), newVertex, edge)
      ensures Valid()
      decreases |NonIncident(Abstract(), newVertex)|
    {
      ghost var S := Abstract();
      var adjacentFace := halfEdges[halfEdges[edge].twin].incFace;
      if adjacentFace.None? {
        return;
      }
      var testPoint := vertices[halfEdges[halfEdges[halfEdges[edge].twin].prev].origin].pos;
      if PointInCircle(vertices[newVertex].pos, vertices[halfEdges[edge].origin].pos,
                       vertices[halfEdges[halfEdges[edge].twin].origin].pos, testPoint) {
        FlipStep(S, newVertex, edge);
        var incFaceEdge1, incFaceEdge2 := FlipEdge(edge);
        ghost var S1 := Abstract();
        LegalizeEdge(newVertex, incFaceEdge1);
        ghost var S2 := Abstract();
        ReadyKept(S1, S2, newVertex, incFaceEdge2, S1.halfEdges[incFaceEdge1].incFace);
        SubsetSmaller(NonIncident(S2, newVertex), NonIncident(S1, newVertex));
        LegalizeEdge(newVertex, incFaceEdge2);
      }
    }

    /** One round of `containingTriangle`: the children of node `current` in order, moving to
        the first whose triangle contains the point, or staying when none does. */
    method ChildContaining(ghost S: State, point: Point, current: nat) returns (next: nat)
      requires S == Abstract() && Inv(S) && current in S.nodes
      ensures next == Step(S, point, current)
    {
      var children := triangleGraph.nodes[current].children;
      ChildrenOk(S, current);
      var j := 0;
      while j < |children|
        invariant 0 <= j <= |children|
        invariant FirstInside(S, point, children) == FirstInside(S, point, children[j..])
      {
        var t := triangleGraph.nodes[children[j]].vertices;
        if PointInTriangle(point, vertices[t.v1].pos, vertices[t.v2].pos, vertices[t.v3].pos) {
          assert Inside(S, point, children[j]);
          return children[j];
        }
        j := j + 1;
      }
      return current;
    }

    /** `containingTriangle(point)`: walk down the history from the root, at each node with
        children moving to the first child whose triangle contains the point, counting the
        rounds and giving up once the count passes the cap; the face of the node reached. */
    method ContainingTriangle(point: Point) returns (triangle: Face)
      requires Valid()
      ensures triangle == faces[Located(Abstract(), point)]
    {
      ghost var S := Abstract();
      InvNodesValid(S);
      var current := 0;
      var safety := 0;
      while triangleGraph.nodes[current].children != []
        invariant current in S.nodes && safety <= SafetyCap
        invariant Locate(S, point, current, safety) == Locate(S, point, 0, 0)
        decreases SafetyCap - safety
      {
        var next := ChildContaining(S, point, current);
        ghost var from, rounds := current, safety;
        safety := safety + 1;
        current := next;
        if safety > SafetyCap {
          assert current == Locate(S, point, from, rounds);
          break;
        }
        LocateStep(S, point, from, rounds);
      }
      triangle := faces[current];
    }

    /** The body of `triangulate`'s loop for one point: locate it; when the walk ends at a
        leaf, split that face and legalize its three old edges in order. Reports whether the
        point was inserted. */
    method InsertRound(point: Point) returns (inserted: bool)
      requires Valid()
      modifies this, triangleGraph
      ensures Valid()
      ensures inserted <==> !LocateFails(old(Abstract()), point)
      ensures !inserted ==> Abstract() == old(Abstract())
      ensures inserted ==> Abstract() == Inserted(old(Abstract()), point)
    {
      ghost var S := Abstract();
      var triangle := ContainingTriangle(point);
      LocatedFace(S, point);
      if triangleGraph.nodes[triangle.graphKey].children != [] {
        return false;
      }
      assert IsCurrent(S, triangle) && triangle == S.faces[Located(S, point)];
      var newVertex, affectedEdges := SplitTriangle(point, triangle);
      SplitSpread(S, point, triangle);
      LegalizeAll(newVertex, affectedEdges);
      assert Abstract() == SplitAndLegalize(S, point, triangle);
      return true;
    }

    /** `affectedEdges.forEach(edge => this.legalizeEdge(newVertex, edge))`. */
    method LegalizeAll(newVertex: nat, affectedEdges: seq<nat>)
      requires Valid() && Spread(Abstract(), newVertex, affectedEdges)
      modifies this, triangleGraph
      ensures Valid()
      ensures Abstract() == LegalizeFirst(old(Abstract()), newVertex, affectedEdges, |affectedEdges|)
    {
      ghost var S1 := Abstract();
      for j := 0 to |affectedEdges|
        invariant Valid() && Abstract() == LegalizeFirst(S1, newVertex, affectedEdges, j)
      {
        LegalizeEdge(newVertex, affectedEdges[j]);
      }
    }

    /** `triangulate()`: each point in turn is located, its face split, and the three old
        edges of that face legalized against the new vertex. The loop stops at a point whose
        walk ends at a node with children. */
    method Triangulate()
      requires Valid()
      modifies this, triangleGraph
      ensures Abstract() == Triangulated(old(Abstract()), points)
      ensures Valid()
    {
      ghost var S0 := Abstract();
      var i := 0;
      while i < |points|
        invariant i <= |points| && Valid()
        invariant Triangulated(Abstract(), points[i..]) == Triangulated(S0, points)
        decreases |points| - i
      {
        ghost var S := Abstract();
        assert points[i..][0] == points[i];
        var inserted := InsertRound(points[i]);
        if !inserted {
          TriangulatedFails(S, points[i..]);
          break;
        }
        TriangulatedStep(S, points[i..]);
        assert points[i..][1..] == points[i + 1..];
        i := i + 1;
      }
    }

    /** `getTriangleData()`: the positions of the vertices of the input points (index 3 on),
        and the triangles of the history's nodes in insertion order, keeping the leaves whose
        corners are all input points, re-based to index those positions. */
    method GetTriangleData() returns (positions: seq<Point>, triangles: seq<Triple>)
      requires Valid()
      ensures |positions| == |vertices| - 3
      ensures forall i :: 0 <= i < |positions| ==> positions[i] == vertices[i + 3].pos
      ensures (InvNodesValid(Abstract()); triangles == LeafTriangles(triangleGraph.nodes, triangleGraph.order))
    {
      positions := [];
      for i := 3 to |vertices|
        invariant |positions| == i - 3
        invariant forall j :: 0 <= j < i - 3 ==> positions[j] == vertices[j + 3].pos
      {
        positions := positions + [vertices[i].pos];
      }
      InvNodesValid(Abstract());
      triangles := [];
      for i := 0 to triangleGraph.Size()
        invariant triangles == LeafTriangles(triangleGraph.nodes, triangleGraph.order[..i])
      {
        assert triangleGraph.order[..i + 1][..i] == triangleGraph.order[..i];
        var triangle := triangleGraph.nodes[triangleGraph.order[i]];
        if triangle.children != [] {
          continue;
        }
        var t := triangle.vertices;
        if t.v1 < 3 || t.v2 < 3 || t.v3 < 3 {
          continue;
        }
        triangles := triangles + [Triple(t.v1 - 3, t.v2 - 3, t.v3 - 3)];
      }
      assert triangleGraph.order[..|triangleGraph.order|] == triangleGraph.order;
    }
  }
}
