/** The half-edge mesh (`Vertex`, `HalfEdge`, `Face`) as arenas addressed by index, together
    with the history graph, and the invariants every operation of the triangulation keeps. */
module Mesh {
  import opened Geometry
  import opened History

  datatype Option<T> = None | Some(value: T)

  /** `Vertex`: its position, the half-edge it was created with, and its id, which is its
      index in the vertex arena. */
  datatype Vertex = Vertex(pos: Point, incEdge: nat, id: nat)

  /** `HalfEdge`: its origin vertex, its twin, its face (None outside the triangulated
      region) and the next and previous half-edges around that face. */
  datatype HalfEdge = HalfEdge(origin: nat, twin: nat, incFace: Option<nat>, next: nat, prev: nat)

  /** `Face`: one of its half-edges and the key of its node in the history graph. */
  datatype Face = Face(incEdge: nat, graphKey: nat)

  /** Everything a `Delaunay` object holds: the three arenas and the history graph's map of
      nodes with its insertion order. */
  datatype State = State(vertices: seq<Vertex>, halfEdges: seq<HalfEdge>, faces: seq<Face>,
                         nodes: map<nat, Node>, order: seq<nat>)

  /** `FAR_AWAY`: the size of the bounding triangle's corner coordinates (each corner has
      coordinates ±`FAR_AWAY`, except 500 for the top corner's x). */
  const FarAway: real := 10000.0

  /** The positions of the three synthetic vertices of the bounding triangle. */
  function BootstrapPositions(): seq<Point>
  {
    [Point(-FarAway, -FarAway), Point(500.0, FarAway), Point(FarAway, -FarAway)]
  }

  /** Every index stored in a half-edge or a face lies inside its arena. */
  ghost predicate Bounded(s: State)
  {
    (forall x :: 0 <= x < |s.halfEdges| ==>
       s.halfEdges[x].origin < |s.vertices| && s.halfEdges[x].twin < |s.halfEdges| &&
       s.halfEdges[x].next < |s.halfEdges| && s.halfEdges[x].prev < |s.halfEdges| &&
       (s.halfEdges[x].incFace.Some? ==> s.halfEdges[x].incFace.value < |s.faces|)) &&
    (forall k :: 0 <= k < |s.faces| ==> s.faces[k].incEdge < |s.halfEdges|)
  }

  /** The half-edge invariants at x: twin is an involution, next and prev are inverse,
      the next half-edge starts where the twin starts (where x ends), and a half-edge with
      a face lies on a triangle of that face. */
  ghost predicate EdgeOk(s: State, x: nat)
    requires Bounded(s) && x < |s.halfEdges|
  {
    var hs := s.halfEdges;
    && hs[hs[x].twin].twin == x
    && hs[hs[x].next].prev == x
    && hs[hs[x].prev].next == x
    && hs[hs[x].next].origin == hs[hs[x].twin].origin
    && (hs[x].incFace.Some? ==> Triangle(s, x))
  }

  /** x, next(x), next(next(x)) is a 3-cycle of one face, on three distinct vertices, and
      that face's own half-edge is one of the three. */
  ghost predicate Triangle(s: State, x: nat)
    requires Bounded(s) && x < |s.halfEdges| && s.halfEdges[x].incFace.Some?
  {
    var hs := s.halfEdges;
    var n := hs[x].next;
    var nn := hs[n].next;
    && hs[n].incFace == hs[x].incFace
    && hs[nn].next == x
    && hs[x].origin != hs[n].origin && hs[n].origin != hs[nn].origin && hs[nn].origin != hs[x].origin
    && var ie := s.faces[hs[x].incFace.value].incEdge; (ie == x || ie == n || ie == nn)
  }

  /** Three distinct vertex ids, all below nv. */
  ghost predicate TripleOk(t: Triple, nv: nat)
  {
    t.v1 < nv && t.v2 < nv && t.v3 < nv && t.v1 != t.v2 && t.v2 != t.v3 && t.v3 != t.v1
  }

  /** The face invariants at key k: the face's graph key is its index; the history holds a
      node under k, with a valid triple and children created after it; and that node is a
      leaf exactly when the face is current (its half-edge still belongs to it). */
  ghost predicate FaceOk(s: State, k: nat)
    requires Bounded(s) && k < |s.faces|
  {
    && s.faces[k].graphKey == k
    && k in s.nodes
    && s.nodes[k].key == k
    && TripleOk(s.nodes[k].vertices, |s.vertices|)
    && (forall c :: c in s.nodes[k].children ==> k < c < |s.faces|)
    && (s.nodes[k].children == [] <==> s.halfEdges[s.faces[k].incEdge].incFace == Some(k))
  }

  /** The corners met walking `next` from x: the origins of x, of its next and of the one
      after, in that order. */
  ghost function Corners(s: State, x: nat): Triple
    requires Bounded(s) && x < |s.halfEdges|
  {
    var hs := s.halfEdges;
    Triple(hs[x].origin, hs[hs[x].next].origin, hs[hs[hs[x].next].next].origin)
  }

  /** t lists the corners of the triangle through ie, starting at one of its three
      half-edges. */
  ghost predicate NamesCorners(s: State, t: Triple, ie: nat)
    requires Bounded(s) && ie < |s.halfEdges|
  {
    var hs := s.halfEdges;
    t == Corners(s, ie) || t == Corners(s, hs[ie].next) || t == Corners(s, hs[hs[ie].next].next)
  }

  /** The history node of a current face k records that face's corners. */
  ghost predicate CornersOk(s: State, k: nat)
    requires Bounded(s) && k < |s.faces|
  {
    var ie := s.faces[k].incEdge;
    k in s.nodes && s.halfEdges[ie].incFace == Some(k) ==> NamesCorners(s, s.nodes[k].vertices, ie)
  }

  /** The invariant of the whole state. */
  ghost predicate Inv(s: State)
  {
    && |s.vertices| >= 3
    && |s.faces| >= 1
    && (forall i :: 0 <= i < |s.vertices| ==> s.vertices[i].id == i)
    && Bounded(s)
    && (forall x :: 0 <= x < |s.halfEdges| ==> EdgeOk(s, x))
    && (forall k :: 0 <= k < |s.faces| ==> FaceOk(s, k) && CornersOk(s, k))
    && (forall k :: k in s.nodes ==> k < |s.faces|)
    && |s.order| == |s.faces|
    && (forall i :: 0 <= i < |s.order| ==> s.order[i] == i)
  }

  /** f is a current face of s: it is the face stored under its key, and its half-edge
      still belongs to it. */
  ghost predicate IsCurrent(s: State, f: Face)
  {
    f.graphKey < |s.faces| && s.faces[f.graphKey] == f &&
    f.incEdge < |s.halfEdges| && s.halfEdges[f.incEdge].incFace == Some(f.graphKey)
  }

  /** Walking next from ie comes back to ie after three steps, through three different
      origins below nv: what `getFaceHalfEdges` and `getFaceVertices` need to stop after
      three. */
  ghost predicate FaceWalk(hs: seq<HalfEdge>, ie: nat, nv: nat)
  {
    ie < |hs| && hs[ie].next < |hs| && hs[hs[ie].next].next < |hs| &&
    var n := hs[ie].next; var nn := hs[n].next;
    hs[nn].next == ie && hs[ie].origin < nv && hs[n].origin < nv && hs[nn].origin < nv &&
    hs[ie].origin != hs[n].origin && hs[n].origin != hs[nn].origin && hs[nn].origin != hs[ie].origin
  }

  /** Every half-edge with a face can be walked around its triangle. */
  lemma TriangleWalk(s: State, x: nat)
    requires Inv(s) && x < |s.halfEdges| && s.halfEdges[x].incFace.Some?
    ensures FaceWalk(s.halfEdges, x, |s.vertices|)
  {
    assert EdgeOk(s, x) && Triangle(s, x);
  }

  /** A current face's history node is a leaf, and a leaf's face is current. */
  lemma LeafIsCurrent(s: State, k: nat)
    requires Inv(s) && k in s.nodes
    ensures s.nodes[k].children == [] <==> IsCurrent(s, s.faces[k])
  {
    assert FaceOk(s, k);
  }

  /** Under the invariant the history graph is a well-formed `TriangleGraph`. */
  lemma InvNodesValid(s: State)
    requires Inv(s)
    ensures NodesValid(s.nodes, s.order)
    ensures 0 in s.nodes
  {
    assert FaceOk(s, 0);
    forall k | k in s.nodes
      ensures s.nodes[k].key == k && k in s.order
    {
      assert FaceOk(s, k);
      assert s.order[k] == k;
    }
    forall i | 0 <= i < |s.order|
      ensures s.order[i] in s.nodes
    {
      assert FaceOk(s, i);
    }
  }

  /** The half-edges the constructor builds: 0, 1, 2 bound face 0, and their twins 3, 4, 5
      have no face and run around the outside (outer loop 3 -> 5 -> 4 -> 3). */
  function BootstrapHalfEdges(): seq<HalfEdge>
  {
    [ HalfEdge(0, 3, Some(0), 1, 2),
      HalfEdge(1, 4, Some(0), 2, 0),
      HalfEdge(2, 5, Some(0), 0, 1),
      HalfEdge(1, 0, None, 5, 4),
      HalfEdge(2, 1, None, 3, 5),
      HalfEdge(0, 2, None, 4, 3) ]
  }

  /** The outer half-edges exactly as the constructor links them: 3 -> 4 -> 5 -> 3. */
  function BootstrapHalfEdgesAsWritten(): seq<HalfEdge>
  {
    [ HalfEdge(0, 3, Some(0), 1, 2),
      HalfEdge(1, 4, Some(0), 2, 0),
      HalfEdge(2, 5, Some(0), 0, 1),
      HalfEdge(1, 0, None, 4, 5),
      HalfEdge(2, 1, None, 5, 3),
      HalfEdge(0, 2, None, 3, 4) ]
  }

  /** As written, each outer half-edge is followed by one that does not start where it
      ends: 3 runs from vertex 1 to vertex 0, but next(3) = 4 starts at vertex 2. */
  lemma OuterLoopAsWrittenMisdirected()
    ensures var hs := BootstrapHalfEdgesAsWritten();
            forall x :: 3 <= x < 6 ==> hs[hs[x].next].origin != hs[hs[x].twin].origin
  {
  }

  /** The state right after the constructor's bootstrap: three synthetic vertices with ids
      0, 1, 2, six half-edges, face 0, and the history root under key 0. */
  function Bootstrap(): State
  {
    var p := BootstrapPositions();
    State([Vertex(p[0], 0, 0), Vertex(p[1], 1, 1), Vertex(p[2], 2, 2)],
          BootstrapHalfEdges(),
          [Face(0, 0)],
          map[0 := Node(0, Triple(0, 1, 2), [])],
          [0])
  }

  /** The bootstrap state satisfies the invariant. */
  lemma BootstrapInv()
    ensures Inv(Bootstrap())
  {
    var s := Bootstrap();
    assert Bounded(s);
    forall x | 0 <= x < 6
      ensures EdgeOk(s, x)
    {
    }
    assert FaceOk(s, 0);
    assert Corners(s, 0) == Triple(0, 1, 2);
    assert CornersOk(s, 0);
  }

  /** The bootstrap in the source's terms: vertex ids 0, 1, 2; on all six half-edges twin is
      an involution and next undoes prev; 0, 1, 2 form a 3-cycle on face 0; 3, 4, 5 have no
      face and form a 3-cycle too; the graph is the single leaf under key 0. */
  lemma BootstrapShape()
    ensures var s := Bootstrap();
            var hs := s.halfEdges;
            && |s.vertices| == 3 && |hs| == 6 && |s.faces| == 1
            && (forall i :: 0 <= i < 3 ==> s.vertices[i].id == i && s.vertices[i].pos == BootstrapPositions()[i])
            && (forall x :: 0 <= x < 6 ==> hs[hs[x].twin].twin == x && hs[hs[x].prev].next == x)
            && (forall x :: 0 <= x < 3 ==> hs[x].incFace == Some(0) && hs[x].next == (x + 1) % 3)
            && (forall x :: 3 <= x < 6 ==> hs[x].incFace == None && hs[hs[hs[x].next].next].next == x)
            && s.nodes.Keys == {0} && s.nodes[0].children == []
  {
  }

  /** The bounding triangle is clockwise with the y axis up, so a point-in-circle test on it
      reads "strictly inside the circumcircle". Whether splits and flips keep faces clockwise
      is not stated here. */
  lemma BootstrapClockwise()
    ensures var p := BootstrapPositions(); Orientation(p[0], p[1], p[2]) < 0.0
  {
  }

  /** r extends s's history: faces and the insertion order are only appended to; every
      node keeps its key and triangle and can only gain children; a node that already has
      children never changes again. */
  ghost predicate HistoryGrows(s: State, r: State)
  {
    && s.faces <= r.faces
    && s.order <= r.order
    && (forall k :: k in s.nodes ==>
          && k in r.nodes
          && r.nodes[k].key == s.nodes[k].key
          && r.nodes[k].vertices == s.nodes[k].vertices
          && s.nodes[k].children <= r.nodes[k].children
          && (s.nodes[k].children != [] ==> r.nodes[k] == s.nodes[k]))
  }

  lemma HistoryGrowsTransitive(s1: State, s2: State, s3: State)
    requires HistoryGrows(s1, s2) && HistoryGrows(s2, s3)
    ensures HistoryGrows(s1, s3)
  {
  }
  /** A face whose half-edges a step leaves alone, and whose node keeps its triangle, keeps
      its recorded corners: when it is current after the step it was current before, and its
      walk is the same. */
  lemma CornersKept(s: State, r: State, k: nat)
    requires Inv(s) && Bounded(r) && k < |s.faces| && k < |r.faces|
    requires |s.halfEdges| <= |r.halfEdges| && r.faces[k] == s.faces[k]
    requires k in r.nodes ==> k in s.nodes && r.nodes[k].vertices == s.nodes[k].vertices
    requires forall y :: 0 <= y < |s.halfEdges| && (s.halfEdges[y].incFace == Some(k) || r.halfEdges[y].incFace == Some(k)) ==>
               r.halfEdges[y] == s.halfEdges[y]
    ensures CornersOk(r, k)
  {
    var ie := s.faces[k].incEdge;
    var hs, hr := s.halfEdges, r.halfEdges;
    if k in r.nodes && hr[ie].incFace == Some(k) {
      assert hr[ie] == hs[ie];
      assert CornersOk(s, k);
      assert EdgeOk(s, ie) && Triangle(s, ie);
      var n := hs[ie].next;
      assert hr[n] == hs[n] && EdgeOk(s, n) && Triangle(s, n);
      var nn := hs[n].next;
      assert hr[nn] == hs[nn];
      assert Corners(r, ie) == Corners(s, ie);
      assert Corners(r, n) == Corners(s, n);
      assert Corners(r, nn) == Corners(s, nn);
    }
  }
}
