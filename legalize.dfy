/** `legalizeEdge` on values: the in-place flip of one edge between two triangles, and the
    recursive legalization after a vertex is inserted. */
module Legalize {
  import opened Geometry
  import opened History
  import opened Mesh

  /** The six half-edges a flip of `edge` rewires: the edge and its twin, the other two
      half-edges of its face (`faceEdge1` = next, `faceEdge2` = prev) and of the twin's face
      (`incFaceEdge1` = prev of the twin, `incFaceEdge2` = next of the twin). */
  datatype Quad = Quad(edge: nat, twin: nat, faceEdge1: nat, faceEdge2: nat, incFaceEdge1: nat, incFaceEdge2: nat)

  function QuadOf(s: State, e: nat): (q: Quad)
    requires Bounded(s) && e < |s.halfEdges|
    ensures q.edge < |s.halfEdges| && q.twin < |s.halfEdges| && q.faceEdge1 < |s.halfEdges|
    ensures q.faceEdge2 < |s.halfEdges| && q.incFaceEdge1 < |s.halfEdges| && q.incFaceEdge2 < |s.halfEdges|
  {
    var hs := s.halfEdges;
    var t := hs[e].twin;
    Quad(e, t, hs[e].next, hs[e].prev, hs[t].prev, hs[t].next)
  }

  /** The half-edge at x after the flip of q.edge: the edge now runs from the apex of its
      face to the apex of its twin's face and bounds new face L + 1 with `faceEdge1` and
      `incFaceEdge1`; the twin runs back and bounds new face L with `faceEdge2` and
      `incFaceEdge2`; every other half-edge is unchanged. */
  function FlipEdgeAt(s: State, q: Quad, x: nat): HalfEdge
    requires Bounded(s) && x < |s.halfEdges|
    requires q.edge < |s.halfEdges| && q.twin < |s.halfEdges| && q.faceEdge1 < |s.halfEdges|
    requires q.faceEdge2 < |s.halfEdges| && q.incFaceEdge1 < |s.halfEdges| && q.incFaceEdge2 < |s.halfEdges|
  {
    var hs, L := s.halfEdges, |s.faces|;
    if x == q.edge then
      hs[x].(next := q.incFaceEdge1, prev := q.faceEdge1, origin := hs[q.faceEdge2].origin, incFace := Some(L + 1))
    else if x == q.twin then
      hs[x].(next := q.faceEdge2, prev := q.incFaceEdge2, origin := hs[q.incFaceEdge1].origin, incFace := Some(L))
    else if x == q.incFaceEdge1 then hs[x].(prev := q.edge, next := q.faceEdge1, incFace := Some(L + 1))
    else if x == q.faceEdge1 then hs[x].(prev := q.incFaceEdge1, next := q.edge, incFace := Some(L + 1))
    else if x == q.faceEdge2 then hs[x].(prev := q.twin, next := q.incFaceEdge2, incFace := Some(L))
    else if x == q.incFaceEdge2 then hs[x].(prev := q.faceEdge2, next := q.twin, incFace := Some(L))
    else hs[x]
  }

  /** The triangles of the two new history nodes, as `getFaceVertices` reads them off the
      flipped faces: face L is (apex, origin of the edge, far apex) and face L + 1 is
      (origin of the twin, apex, far apex). */
  function FlipTriples(s: State, q: Quad): seq<Triple>
    requires q.edge < |s.halfEdges| && q.twin < |s.halfEdges|
    requires q.faceEdge2 < |s.halfEdges| && q.incFaceEdge1 < |s.halfEdges|
  {
    var hs := s.halfEdges;
    var a, b, c, d := hs[q.edge].origin, hs[q.twin].origin, hs[q.faceEdge2].origin, hs[q.incFaceEdge1].origin;
    [Triple(c, a, d), Triple(b, c, d)]
  }

  /** Both sides of e have a face. */
  ghost predicate Flippable(s: State, e: nat)
  {
    Bounded(s) && e < |s.halfEdges| && s.halfEdges[e].incFace.Some? &&
    s.halfEdges[s.halfEdges[e].twin].incFace.Some?
  }

  /** The state after the flip branch of `legalizeEdge(newVertex, e)`: the six half-edges
      rewired, faces L and L + 1 pushed, and both recorded in the history as children of the
      two old faces' keys. */
  function FlipState(s: State, e: nat): State
    requires Flippable(s, e)
  {
    var hs, L := s.halfEdges, |s.faces|;
    var q := QuadOf(s, e);
    var f, g := hs[e].incFace.value, hs[q.twin].incFace.value;
    var gr := AddNodes(s.nodes, s.order, [s.faces[f].graphKey, s.faces[g].graphKey], [L, L + 1], FlipTriples(s, q));
    State(s.vertices,
          seq(|hs|, x requires 0 <= x < |hs| => FlipEdgeAt(s, q, x)),
          s.faces + [Face(q.faceEdge2, L), Face(q.faceEdge1, L + 1)],
          gr.nodes, gr.order)
  }

  /** The flip the recursion performs: both sides have a face, and the apex of e's face
      differs from the apex across e. */
  ghost predicate FlipOk(s: State, e: nat)
  {
    Flippable(s, e) &&
    var q := QuadOf(s, e); s.halfEdges[q.faceEdge2].origin != s.halfEdges[q.incFaceEdge1].origin
  }

  /** What the invariant says about the two triangles around a flippable edge: six distinct
      half-edges in two 3-cycles, on corners a, b, c (e's face) and b, a, d (the twin's), with
      c != d, two different faces, both current. */
  lemma QuadFacts(s: State, e: nat)
    requires Inv(s) && FlipOk(s, e)
    ensures var hs, q := s.halfEdges, QuadOf(s, e);
            var a, b, c, d := hs[q.edge].origin, hs[q.twin].origin, hs[q.faceEdge2].origin, hs[q.incFaceEdge1].origin;
            var f, g := hs[e].incFace.value, hs[q.twin].incFace.value;
            && hs[q.twin].twin == e
            && hs[e].next == q.faceEdge1 && hs[q.faceEdge1].next == q.faceEdge2 && hs[q.faceEdge2].next == e
            && hs[q.faceEdge1].prev == e && hs[q.faceEdge2].prev == q.faceEdge1 && hs[e].prev == q.faceEdge2
            && hs[q.twin].next == q.incFaceEdge2 && hs[q.incFaceEdge2].next == q.incFaceEdge1
            && hs[q.incFaceEdge1].next == q.twin
            && hs[q.incFaceEdge2].prev == q.twin && hs[q.incFaceEdge1].prev == q.incFaceEdge2
            && hs[q.twin].prev == q.incFaceEdge1
            && hs[q.faceEdge1].origin == b && hs[q.incFaceEdge2].origin == a
            && a != b && b != c && c != a && a != d && b != d && c != d
            && e != q.twin && e != q.faceEdge1 && e != q.faceEdge2 && e != q.incFaceEdge1 && e != q.incFaceEdge2
            && q.twin != q.faceEdge1 && q.twin != q.faceEdge2 && q.twin != q.incFaceEdge1 && q.twin != q.incFaceEdge2
            && q.faceEdge1 != q.faceEdge2 && q.faceEdge1 != q.incFaceEdge1 && q.faceEdge1 != q.incFaceEdge2
            && q.faceEdge2 != q.incFaceEdge1 && q.faceEdge2 != q.incFaceEdge2
            && q.incFaceEdge1 != q.incFaceEdge2
            && hs[q.faceEdge1].incFace == Some(f) && hs[q.faceEdge2].incFace == Some(f)
            && hs[q.incFaceEdge1].incFace == Some(g) && hs[q.incFaceEdge2].incFace == Some(g)
            && f != g && f < |s.faces| && g < |s.faces|
            && s.faces[f].graphKey == f && s.faces[g].graphKey == g
            && f in s.nodes && g in s.nodes && s.nodes[f].children == [] && s.nodes[g].children == []
  {
    var hs, q := s.halfEdges, QuadOf(s, e);
    var t := q.twin;
    assert EdgeOk(s, e) && Triangle(s, e);
    assert EdgeOk(s, t) && Triangle(s, t);
    assert EdgeOk(s, q.faceEdge1) && EdgeOk(s, q.faceEdge2);
    assert EdgeOk(s, q.incFaceEdge1) && EdgeOk(s, q.incFaceEdge2);
    assert EdgeOk(s, hs[q.faceEdge1].next) && EdgeOk(s, hs[q.incFaceEdge2].next);
    var f, g := hs[e].incFace.value, hs[t].incFace.value;
    assert hs[q.faceEdge1].incFace == Some(f);
    assert Triangle(s, q.faceEdge1);
    assert hs[q.incFaceEdge2].incFace == Some(g);
    assert Triangle(s, q.incFaceEdge2);
    assert FaceOk(s, f) && FaceOk(s, g);
    var a, b, c, d := hs[q.edge].origin, hs[q.twin].origin, hs[q.faceEdge2].origin, hs[q.incFaceEdge1].origin;
    assert hs[q.faceEdge1].origin == b;
    assert hs[q.incFaceEdge2].origin == a;
    assert a != b && b != c && c != a;
    assert a != d && b != d && c != d;
    assert e != q.twin && e != q.faceEdge1 && e != q.faceEdge2;
    assert e != q.incFaceEdge1 && e != q.incFaceEdge2;
    assert q.twin != q.faceEdge1 && q.twin != q.faceEdge2 && q.twin != q.incFaceEdge1 && q.twin != q.incFaceEdge2;
    assert q.faceEdge1 != q.faceEdge2 && q.faceEdge1 != q.incFaceEdge1 && q.faceEdge1 != q.incFaceEdge2;
    assert q.faceEdge2 != q.incFaceEdge1 && q.faceEdge2 != q.incFaceEdge2;
    assert q.incFaceEdge1 != q.incFaceEdge2;
    assert f != g;
    assert s.nodes[f].children == [] && s.nodes[g].children == [];
  }

  /** The records after a flip, half-edge by half-edge, and the new faces. */
  lemma FlipRecords(s: State, e: nat)
    requires Inv(s) && FlipOk(s, e)
    ensures var s', q := FlipState(s, e), QuadOf(s, e);
            var hs, hs', L := s.halfEdges, s'.halfEdges, |s.faces|;
            && |hs'| == |hs| && |s'.faces| == L + 2 && s'.vertices == s.vertices
            && (forall y :: 0 <= y < |hs| ==> hs'[y] == FlipEdgeAt(s, q, y))
            && (forall y :: 0 <= y < |hs| ==> hs'[y].twin == hs[y].twin)
            && (forall k :: 0 <= k < L ==> s'.faces[k] == s.faces[k])
            && s'.faces[L] == Face(q.faceEdge2, L) && s'.faces[L + 1] == Face(q.faceEdge1, L + 1)
  {
  }

  /** The growth of the history graph: two childless nodes L and L + 1, both children of
      the two old faces' nodes, which had none. */
  lemma FlipNodes(s: State, e: nat)
    requires Inv(s) && FlipOk(s, e)
    ensures var s', q, L := FlipState(s, e), QuadOf(s, e), |s.faces|;
            var f, g := s.halfEdges[e].incFace.value, s.halfEdges[q.twin].incFace.value;
            var tr := FlipTriples(s, q);
            && s'.nodes.Keys == s.nodes.Keys + {L, L + 1}
            && s'.nodes[L] == Node(L, tr[0], []) && s'.nodes[L + 1] == Node(L + 1, tr[1], [])
            && f in s.nodes && g in s.nodes
            && s'.nodes[f] == s.nodes[f].(children := [L, L + 1])
            && s'.nodes[g] == s.nodes[g].(children := [L, L + 1])
            && (forall j :: j in s.nodes && j != f && j != g ==> s'.nodes[j] == s.nodes[j])
            && s'.order == s.order + [L, L + 1]
  {
    var q, L := QuadOf(s, e), |s.faces|;
    var f, g := s.halfEdges[e].incFace.value, s.halfEdges[q.twin].incFace.value;
    var keys, parents := [L, L + 1], [f, g];
    QuadFacts(s, e);
    assert Distinct(parents) && Distinct(keys);
    forall j | j in keys
      ensures j !in s.nodes && j !in parents
    {
    }
    AddNodesFresh(s.nodes, s.order, parents, keys, FlipTriples(s, q));
    assert Elements(keys) == {L, L + 1};
  }

  /** Flipping keeps every index in range. */
  lemma FlipBounded(s: State, e: nat)
    requires Inv(s) && FlipOk(s, e)
    ensures Bounded(FlipState(s, e))
  {
    QuadFacts(s, e);
    FlipRecords(s, e);
  }

  /** The half-edge invariants at the six rewired half-edges. */
  lemma FlipEdgeOkSix(s: State, e: nat, x: nat)
    requires Inv(s) && FlipOk(s, e)
    requires Bounded(FlipState(s, e))
    requires var q := QuadOf(s, e);
             x == q.edge || x == q.twin || x == q.faceEdge1 || x == q.faceEdge2 ||
             x == q.incFaceEdge1 || x == q.incFaceEdge2
    ensures EdgeOk(FlipState(s, e), x)
  {
    var s', q := FlipState(s, e), QuadOf(s, e);
    var hs := s.halfEdges;
    QuadFacts(s, e);
    FlipRecords(s, e);
    assert EdgeOk(s, q.faceEdge1) && EdgeOk(s, q.faceEdge2);
    assert EdgeOk(s, q.incFaceEdge1) && EdgeOk(s, q.incFaceEdge2);
    var tw := hs[x].twin;
    assert tw != q.edge && tw != q.twin ==> s'.halfEdges[tw].origin == hs[tw].origin;
    if x == q.edge {
      assert Triangle(s', x);
    } else if x == q.twin {
      assert Triangle(s', x);
    } else if x == q.faceEdge1 {
      assert Triangle(s', x);
    } else if x == q.faceEdge2 {
      assert Triangle(s', x);
    } else if x == q.incFaceEdge1 {
      assert Triangle(s', x);
    } else {
      assert Triangle(s', x);
    }
  }

  /** The half-edge invariants at a half-edge outside the two flipped triangles. */
  lemma FlipEdgeOkOther(s: State, e: nat, x: nat)
    requires Inv(s) && FlipOk(s, e)
    requires Bounded(FlipState(s, e))
    requires var q := QuadOf(s, e);
             x < |s.halfEdges| && x != q.edge && x != q.twin && x != q.faceEdge1 && x != q.faceEdge2 &&
             x != q.incFaceEdge1 && x != q.incFaceEdge2
    ensures EdgeOk(FlipState(s, e), x)
  {
    var s', q := FlipState(s, e), QuadOf(s, e);
    var hs, hs' := s.halfEdges, s'.halfEdges;
    QuadFacts(s, e);
    FlipRecords(s, e);
    assert EdgeOk(s, x);
    var n, p, tw := hs[x].next, hs[x].prev, hs[x].twin;
    assert hs'[x] == hs[x] && hs'[n] == hs[n] && hs'[p] == hs[p];
    assert tw != q.edge && tw != q.twin;
    assert hs'[tw].origin == hs[tw].origin;
    if hs[x].incFace.Some? {
      assert Triangle(s, x) && EdgeOk(s, n);
      var nn := hs[n].next;
      assert hs'[nn] == hs[nn];
      assert Triangle(s', x);
    }
  }

  /** The face invariants at every face after a flip. */
  lemma FlipFaceOk(s: State, e: nat, k: nat)
    requires Inv(s) && FlipOk(s, e)
    requires Bounded(FlipState(s, e))
    requires k < |FlipState(s, e).faces|
    ensures FaceOk(FlipState(s, e), k)
  {
    var s', q, L := FlipState(s, e), QuadOf(s, e), |s.faces|;
    var hs, hs' := s.halfEdges, s'.halfEdges;
    QuadFacts(s, e);
    FlipRecords(s, e);
    FlipNodes(s, e);
    var tr := FlipTriples(s, q);
    if k < L {
      assert FaceOk(s, k);
      var ie := s.faces[k].incEdge;
      assert hs'[ie] == FlipEdgeAt(s, q, ie);
      var f, g := hs[e].incFace.value, hs[q.twin].incFace.value;
      assert EdgeOk(s, e) && EdgeOk(s, q.twin);
      assert Triangle(s, e) && Triangle(s, q.twin);
      if k == f {
        assert ie == q.edge || ie == q.faceEdge1 || ie == q.faceEdge2;
      } else if k == g {
        assert ie == q.twin || ie == q.incFaceEdge1 || ie == q.incFaceEdge2;
      } else {
        assert s'.nodes[k] == s.nodes[k];
      }
    } else if k == L {
      assert hs'[q.faceEdge2].incFace == Some(L);
      assert TripleOk(tr[0], |s.vertices|);
    } else {
      assert hs'[q.faceEdge1].incFace == Some(L + 1);
      assert TripleOk(tr[1], |s.vertices|);
    }
  }

  /** After a flip each new face's node records its corners exactly as walked from the
      face's half-edge; the two flipped faces are no longer current; every other face keeps
      its walk. */
  lemma FlipCorners(s: State, e: nat, k: nat)
    requires Inv(s) && FlipOk(s, e)
    requires Bounded(FlipState(s, e))
    requires k < |FlipState(s, e).faces|
    ensures CornersOk(FlipState(s, e), k)
  {
    var s', q, L := FlipState(s, e), QuadOf(s, e), |s.faces|;
    var hs, hs' := s.halfEdges, s'.halfEdges;
    QuadFacts(s, e);
    FlipRecords(s, e);
    FlipNodes(s, e);
    var tr := FlipTriples(s, q);
    var f, g := hs[e].incFace.value, hs[q.twin].incFace.value;
    if k == L {
      assert hs'[q.faceEdge2].next == q.incFaceEdge2 && hs'[q.incFaceEdge2].next == q.twin;
      assert Corners(s', q.faceEdge2) == tr[0];
    } else if k == L + 1 {
      assert hs'[q.faceEdge1].next == q.edge && hs'[q.edge].next == q.incFaceEdge1;
      assert Corners(s', q.faceEdge1) == tr[1];
    } else if k == f || k == g {
      var ie := s.faces[k].incEdge;
      assert FaceOk(s, k);
      assert EdgeOk(s, e) && EdgeOk(s, q.twin);
      assert Triangle(s, e) && Triangle(s, q.twin);
      assert hs'[ie] == FlipEdgeAt(s, q, ie);
    } else {
      forall y | 0 <= y < |hs| && (hs[y].incFace == Some(k) || hs'[y].incFace == Some(k))
        ensures hs'[y] == hs[y]
      {
        assert hs'[y] == FlipEdgeAt(s, q, y);
      }
      assert FaceOk(s, k);
      CornersKept(s, s', k);
    }
  }

  /** After the flip, the new face L (from `faceEdge2`, i = 0) or L + 1 (from `faceEdge1`,
      i = 1) can be walked around its triangle, and the ids met on the walk are its
      triangle in `FlipTriples`. */
  ghost predicate FlipWalk(s: State, e: nat, i: nat)
    requires Flippable(s, e) && i < 2
  {
    var hs, q := FlipState(s, e).halfEdges, QuadOf(s, e);
    var ie := if i == 0 then q.faceEdge2 else q.faceEdge1;
    && FaceWalk(hs, ie, |s.vertices|)
    && var n := hs[ie].next;
       Triple(s.vertices[hs[ie].origin].id, s.vertices[hs[n].origin].id, s.vertices[hs[hs[n].next].origin].id)
       == FlipTriples(s, q)[i]
  }

  lemma FlipFaceWalk(s: State, e: nat, i: nat)
    requires Inv(s) && FlipOk(s, e) && i < 2
    ensures FlipWalk(s, e, i)
  {
    var s1, q := FlipState(s, e), QuadOf(s, e);
    QuadFacts(s, e);
    FlipRecords(s, e);
    FlipInv(s, e);
    var ie := if i == 0 then q.faceEdge2 else q.faceEdge1;
    TriangleWalk(s1, ie);
    var hs := s1.halfEdges;
    var n := hs[ie].next;
    assert s.vertices[hs[ie].origin].id == hs[ie].origin;
    assert s.vertices[hs[n].origin].id == hs[n].origin;
    assert s.vertices[hs[hs[n].next].origin].id == hs[hs[n].next].origin;
  }

  /** A flip keeps the invariant. */
  lemma FlipInv(s: State, e: nat)
    requires Inv(s) && FlipOk(s, e)
    ensures Inv(FlipState(s, e))
  {
    var s', q := FlipState(s, e), QuadOf(s, e);
    FlipBounded(s, e);
    FlipRecords(s, e);
    FlipNodes(s, e);
    forall x | 0 <= x < |s'.halfEdges|
      ensures EdgeOk(s', x)
    {
      if x == q.edge || x == q.twin || x == q.faceEdge1 || x == q.faceEdge2 ||
         x == q.incFaceEdge1 || x == q.incFaceEdge2 {
        FlipEdgeOkSix(s, e, x);
      } else {
        FlipEdgeOkOther(s, e, x);
      }
    }
    forall k | 0 <= k < |s'.faces|
      ensures FaceOk(s', k)
    {
      FlipFaceOk(s, e, k);
    }
    forall k | 0 <= k < |s'.faces|
      ensures CornersOk(s', k)
    {
      FlipCorners(s, e, k);
    }
    forall i | 0 <= i < |s'.order|
      ensures s'.order[i] == i
    {
      if i >= |s.order| {
        assert s'.order[i] == [|s.faces|, |s.faces| + 1][i - |s.order|];
      }
    }
  }

  /** The half-edges of s with neither end at v. A flip at the new vertex v turns the two
      halves of an edge not incident to v into the two halves of one that is, and changes no
      other half-edge's ends, so this set shrinks with every flip: the measure under which
      `legalizeEdge`'s recursion ends. */
  ghost function NonIncident(s: State, v: nat): set<nat>
  {
    set x: nat | x < |s.halfEdges| && s.halfEdges[x].twin < |s.halfEdges| &&
                 s.halfEdges[x].origin != v && s.halfEdges[s.halfEdges[x].twin].origin != v
  }

  /** What `legalizeEdge(newVertex, edge)` is called on: an edge with a face whose apex (the
      origin of its prev) is the new vertex v. */
  ghost predicate Ready(s: State, v: nat, e: nat)
  {
    Bounded(s) && v < |s.vertices| && e < |s.halfEdges| && s.halfEdges[e].incFace.Some? &&
    s.halfEdges[s.halfEdges[e].prev].origin == v
  }

  /** x lies on a triangle with a corner at v, of a face other than `excluded`. */
  ghost predicate OnFan(s: State, x: nat, v: nat, excluded: Option<nat>)
    requires Bounded(s) && x < |s.halfEdges|
  {
    var hs := s.halfEdges;
    hs[x].incFace.Some? && hs[x].incFace != excluded &&
    (hs[x].origin == v || hs[hs[x].next].origin == v || hs[hs[x].prev].origin == v)
  }

  /** r leaves alone every half-edge of s that lies on a triangle around v, except those of
      face `excluded`. */
  ghost predicate FanKept(s: State, r: State, v: nat, excluded: Option<nat>)
    requires Bounded(s)
  {
    forall x :: 0 <= x < |s.halfEdges| && OnFan(s, x, v, excluded) ==>
      x < |r.halfEdges| && r.halfEdges[x] == s.halfEdges[x]
  }

  /** The triangle of a half-edge on the fan around v is on that fan at each of its edges. */
  lemma FanClosed(s: State, x: nat, v: nat, excluded: Option<nat>)
    requires Inv(s) && x < |s.halfEdges| && OnFan(s, x, v, excluded)
    ensures OnFan(s, s.halfEdges[x].next, v, excluded)
    ensures OnFan(s, s.halfEdges[x].prev, v, excluded)
  {
    var hs := s.halfEdges;
    var n := hs[x].next;
    assert EdgeOk(s, x) && Triangle(s, x);
    var nn := hs[n].next;
    assert EdgeOk(s, nn) && EdgeOk(s, n);
    assert hs[x].prev == nn && hs[n].prev == x;
    assert Triangle(s, n);
  }

  /** A flip at apex v leaves alone every half-edge on a triangle around v other than the
      flipped edge's own: no such triangle is the one across the edge, whose corners are
      the edge's ends and the far apex, none of them v. */
  lemma FlipKeepsFan(s: State, e: nat, v: nat, x: nat)
    requires Inv(s) && FlipOk(s, e)
    requires s.halfEdges[s.halfEdges[e].prev].origin == v
    requires x < |s.halfEdges| && OnFan(s, x, v, s.halfEdges[e].incFace)
    ensures FlipState(s, e).halfEdges[x] == s.halfEdges[x]
  {
    var hs, q := s.halfEdges, QuadOf(s, e);
    QuadFacts(s, e);
    FlipRecords(s, e);
    var g := hs[q.twin].incFace.value;
    assert EdgeOk(s, x) && Triangle(s, x);
    var n := hs[x].next;
    var nn := hs[n].next;
    assert EdgeOk(s, n) && EdgeOk(s, nn);
    assert hs[x].prev == nn;
    var y := s.faces[hs[x].incFace.value].incEdge;
    assert y == x || y == n || y == nn;
    assert EdgeOk(s, q.twin) && Triangle(s, q.twin);
    assert hs[x].incFace == Some(g) ==> y == q.twin || y == q.incFaceEdge1 || y == q.incFaceEdge2;
    assert hs[x].incFace == Some(g) ==> x == q.twin || x == q.incFaceEdge1 || x == q.incFaceEdge2;
  }

  /** A flip at apex v strictly shrinks the set of half-edges not incident to v. */
  lemma FlipShrinks(s: State, e: nat, v: nat)
    requires Inv(s) && FlipOk(s, e)
    requires s.halfEdges[s.halfEdges[e].prev].origin == v
    ensures NonIncident(FlipState(s, e), v) < NonIncident(s, v)
  {
    var s', q := FlipState(s, e), QuadOf(s, e);
    var hs, hs' := s.halfEdges, s'.halfEdges;
    QuadFacts(s, e);
    FlipRecords(s, e);
    assert EdgeOk(s, e);
    assert e in NonIncident(s, v);
    forall x | x in NonIncident(s', v)
      ensures x in NonIncident(s, v) && x != e
    {
      var tw := hs[x].twin;
      assert EdgeOk(s, x);
      assert x != e && x != q.twin;
      assert tw != e && tw != q.twin;
    }
  }

  /** A subset is no larger, a proper subset strictly smaller. */
  lemma SubsetSmaller(a: set<nat>, b: set<nat>)
    requires a <= b
    ensures |a| <= |b|
    ensures a < b ==> |a| < |b|
  {
    assert b == a + (b - a);
    if a < b {
      var x :| x in b - a;
    }
  }

  /** After a flip at apex v, incFaceEdge1 and incFaceEdge2 are ready for the recursive
      calls, on the new faces L + 1 and L. */
  lemma FlipReady(s: State, v: nat, e: nat)
    requires Inv(s) && FlipOk(s, e) && Ready(s, v, e)
    ensures Bounded(FlipState(s, e))
    ensures var s1, q := FlipState(s, e), QuadOf(s, e);
            && Ready(s1, v, q.incFaceEdge1) && Ready(s1, v, q.incFaceEdge2)
            && s1.halfEdges[q.incFaceEdge1].incFace == Some(|s.faces| + 1)
            && s1.halfEdges[q.incFaceEdge2].incFace == Some(|s.faces|)
  {
    QuadFacts(s, e);
    FlipRecords(s, e);
    FlipBounded(s, e);
  }

  /** A flip only extends the history. */
  lemma FlipGrows(s: State, e: nat)
    requires Inv(s) && FlipOk(s, e)
    ensures HistoryGrows(s, FlipState(s, e))
  {
    QuadFacts(s, e);
    FlipRecords(s, e);
    FlipNodes(s, e);
  }

  /** The far apex across e is not v when it lies strictly inside the circumcircle of
      (v, origin of e, origin of e's twin): the test is strict, so v itself is never inside.
      So the flip the recursion makes is possible. */
  lemma FarApexIsNotV(s: State, v: nat, e: nat)
    requires Inv(s) && Ready(s, v, e)
    requires var hs := s.halfEdges; var t := hs[e].twin;
             hs[t].incFace.Some? &&
             PointInCircle(s.vertices[v].pos, s.vertices[hs[e].origin].pos, s.vertices[hs[t].origin].pos,
                           s.vertices[hs[hs[t].prev].origin].pos)
    ensures FlipOk(s, e)
    ensures s.halfEdges[QuadOf(s, e).incFaceEdge1].origin != v
  {
    var hs, q := s.halfEdges, QuadOf(s, e);
    PointInCircleStrictAtCorners(s.vertices[v].pos, s.vertices[hs[e].origin].pos, s.vertices[hs[q.twin].origin].pos);
  }

  /** The flip branch's first step: the flip is possible, keeps the invariant and the
      history's growth, shrinks the measure, and leaves incFaceEdge1 and incFaceEdge2 ready
      for the recursive calls. */
  lemma FlipStep(s: State, v: nat, e: nat)
    requires Inv(s) && Ready(s, v, e)
    requires var hs := s.halfEdges; var t := hs[e].twin;
             hs[t].incFace.Some? &&
             PointInCircle(s.vertices[v].pos, s.vertices[hs[e].origin].pos, s.vertices[hs[t].origin].pos,
                           s.vertices[hs[hs[t].prev].origin].pos)
    ensures FlipOk(s, e)
    ensures var s1, q := FlipState(s, e), QuadOf(s, e);
            && Inv(s1) && s1.vertices == s.vertices && |s1.halfEdges| == |s.halfEdges|
            && HistoryGrows(s, s1)
            && NonIncident(s1, v) < NonIncident(s, v)
            && |NonIncident(s1, v)| < |NonIncident(s, v)|
            && Ready(s1, v, q.incFaceEdge1) && Ready(s1, v, q.incFaceEdge2)
            && s1.halfEdges[q.incFaceEdge1].incFace == Some(|s.faces| + 1)
            && s1.halfEdges[q.incFaceEdge2].incFace == Some(|s.faces|)
  {
    FarApexIsNotV(s, v, e);
    FlipInv(s, e);
    FlipGrows(s, e);
    FlipShrinks(s, e, v);
    SubsetSmaller(NonIncident(FlipState(s, e), v), NonIncident(s, v));
    FlipReady(s, v, e);
  }

  /** A half-edge stays ready for `legalizeEdge` across a step that keeps the fan around v
      outside face `excluded`, as long as it is not on that face. */
  lemma ReadyKept(s: State, r: State, v: nat, x: nat, excluded: Option<nat>)
    requires Inv(s) && Ready(s, v, x) && s.halfEdges[x].incFace != excluded
    requires Bounded(r) && |r.halfEdges| == |s.halfEdges| && r.vertices == s.vertices
    requires FanKept(s, r, v, excluded)
    ensures Ready(r, v, x) && r.halfEdges[x] == s.halfEdges[x]
  {
    var p := s.halfEdges[x].prev;
    assert OnFan(s, x, v, excluded);
    FanClosed(s, x, v, excluded);
  }

  /** The fan around v outside the flipped face survives the flip and both recursive calls. */
  lemma FanThroughFlip(s: State, e: nat, v: nat, s2: State, r: State)
    requires Inv(s) && FlipOk(s, e)
    requires s.halfEdges[s.halfEdges[e].prev].origin == v
    requires Inv(FlipState(s, e)) && Inv(s2) && Bounded(r)
    requires |s2.halfEdges| == |s.halfEdges| && |r.halfEdges| == |s.halfEdges|
    requires FanKept(FlipState(s, e), s2, v, Some(|s.faces| + 1))
    requires FanKept(s2, r, v, Some(|s.faces|))
    ensures FanKept(s, r, v, s.halfEdges[e].incFace)
  {
    var s1 := FlipState(s, e);
    var hs, hs1, hs2 := s.halfEdges, s1.halfEdges, s2.halfEdges;
    var f := hs[e].incFace;
    FlipRecords(s, e);
    forall x | 0 <= x < |hs| && OnFan(s, x, v, f)
      ensures r.halfEdges[x] == hs[x]
    {
      var n, p := hs[x].next, hs[x].prev;
      FanClosed(s, x, v, f);
      FlipKeepsFan(s, e, v, x);
      FlipKeepsFan(s, e, v, n);
      FlipKeepsFan(s, e, v, p);
      assert Bounded(s) && hs[x].incFace.value < |s.faces|;
      assert OnFan(s1, x, v, Some(|s.faces| + 1));
      FanClosed(s1, x, v, Some(|s.faces| + 1));
      assert OnFan(s2, x, v, Some(|s.faces|));
    }
  }

  /** `legalizeEdge(v, e)` on values. When the face across e exists and its far apex lies
      strictly inside the circumcircle of (v, origin of e, origin of e's twin), e is flipped
      and the two half-edges that now face v across the old triangle are legalized in turn;
      otherwise nothing changes. The result keeps the invariant, the vertices and the number
      of half-edges; only extends the history; leaves every other triangle around v as it
      was; and never adds a half-edge not incident to v. */
  ghost function LegalizeState(s: State, v: nat, e: nat): (r: State)
    requires Inv(s) && Ready(s, v, e)
    ensures Inv(r)
    ensures r.vertices == s.vertices && |r.halfEdges| == |s.halfEdges|
    ensures HistoryGrows(s, r)
    ensures FanKept(s, r, v, s.halfEdges[e].incFace)
    ensures NonIncident(r, v) <= NonIncident(s, v)
    decreases |NonIncident(s, v)|
  {
    var hs := s.halfEdges;
    var t := hs[e].twin;
    if hs[t].incFace.None? then s
    else if !PointInCircle(s.vertices[v].pos, s.vertices[hs[e].origin].pos, s.vertices[hs[t].origin].pos,
                           s.vertices[hs[hs[t].prev].origin].pos) then s
    else
      FlipStep(s, v, e);
      var q, L := QuadOf(s, e), |s.faces|;
      var s1 := FlipState(s, e);
      var s2 := LegalizeState(s1, v, q.incFaceEdge1);
      ReadyKept(s1, s2, v, q.incFaceEdge2, s1.halfEdges[q.incFaceEdge1].incFace);
      SubsetSmaller(NonIncident(s2, v), NonIncident(s1, v));
      var r := LegalizeState(s2, v, q.incFaceEdge2);
      FanThroughFlip(s, e, v, s2, r);
      HistoryGrowsTransitive(s, s1, s2);
      HistoryGrowsTransitive(s, s2, r);
      r
  }

  /** `legalizeEdge` leaves the state as it was when there is no face across e, or when the
      far apex across e is not strictly inside the circumcircle. */
  lemma LegalizeNoFlip(s: State, v: nat, e: nat)
    requires Inv(s) && Ready(s, v, e)
    requires var hs := s.halfEdges; var t := hs[e].twin;
             hs[t].incFace.None? ||
             !PointInCircle(s.vertices[v].pos, s.vertices[hs[e].origin].pos, s.vertices[hs[t].origin].pos,
                            s.vertices[hs[hs[t].prev].origin].pos)
    ensures LegalizeState(s, v, e) == s
  {
  }

  /** When `legalizeEdge` flips, it adds faces L and L + 1 (L the old face count) with keys
      L and L + 1, and both become the first children of both old faces' nodes, for good. */
  lemma LegalizeRecordsFlip(s: State, v: nat, e: nat)
    requires Inv(s) && Ready(s, v, e)
    requires var hs := s.halfEdges; var t := hs[e].twin;
             hs[t].incFace.Some? &&
             PointInCircle(s.vertices[v].pos, s.vertices[hs[e].origin].pos, s.vertices[hs[t].origin].pos,
                           s.vertices[hs[hs[t].prev].origin].pos)
    ensures var r, L := LegalizeState(s, v, e), |s.faces|;
            var f, g := s.halfEdges[e].incFace.value, s.halfEdges[s.halfEdges[e].twin].incFace.value;
            && f in r.nodes && g in r.nodes && f != g
            && |r.faces| >= L + 2 && r.faces[L].graphKey == L && r.faces[L + 1].graphKey == L + 1
            && r.nodes[f].children == [L, L + 1] && r.nodes[g].children == [L, L + 1]
  {
    var L, q := |s.faces|, QuadOf(s, e);
    FlipStep(s, v, e);
    QuadFacts(s, e);
    FlipNodes(s, e);
    FlipRecords(s, e);
    LegalizeGrowsFlip(s, v, e);
    var s1, r := FlipState(s, e), LegalizeState(s, v, e);
    var f, g := s.halfEdges[e].incFace.value, s.halfEdges[q.twin].incFace.value;
    assert HistoryGrows(s1, r);
    assert |s1.faces| == L + 2 && s1.faces[L].graphKey == L && s1.faces[L + 1].graphKey == L + 1;
    assert f in s1.nodes && g in s1.nodes;
    assert s1.nodes[f].children == [L, L + 1] && s1.nodes[g].children == [L, L + 1];
    FlipRecordsKept(s1, r, L, f, g);
  }

  /** When `legalizeEdge` flips, its result extends the history of the flipped state. */
  lemma LegalizeGrowsFlip(s: State, v: nat, e: nat)
    requires Inv(s) && Ready(s, v, e)
    requires var hs := s.halfEdges; var t := hs[e].twin;
             hs[t].incFace.Some? &&
             PointInCircle(s.vertices[v].pos, s.vertices[hs[e].origin].pos, s.vertices[hs[t].origin].pos,
                           s.vertices[hs[hs[t].prev].origin].pos)
    ensures FlipOk(s, e) && HistoryGrows(FlipState(s, e), LegalizeState(s, v, e))
  {
    FlipStep(s, v, e);
    var s1, q := FlipState(s, e), QuadOf(s, e);
    var s2 := LegalizeState(s1, v, q.incFaceEdge1);
    ReadyKept(s1, s2, v, q.incFaceEdge2, s1.halfEdges[q.incFaceEdge1].incFace);
    var r := LegalizeState(s2, v, q.incFaceEdge2);
    assert LegalizeState(s, v, e) == r;
    HistoryGrowsTransitive(s1, s2, r);
  }

  /** The records a flip leaves, two new faces L and L + 1 as the children of f and g, last
      through any extension of the history. */
  lemma FlipRecordsKept(s1: State, r: State, L: nat, f: nat, g: nat)
    requires HistoryGrows(s1, r)
    requires |s1.faces| == L + 2 && s1.faces[L].graphKey == L && s1.faces[L + 1].graphKey == L + 1
    requires f in s1.nodes && g in s1.nodes
    requires s1.nodes[f].children == [L, L + 1] && s1.nodes[g].children == [L, L + 1]
    ensures f in r.nodes && g in r.nodes
    ensures |r.faces| >= L + 2 && r.faces[L].graphKey == L && r.faces[L + 1].graphKey == L + 1
    ensures r.nodes[f].children == [L, L + 1] && r.nodes[g].children == [L, L + 1]
  {
    assert r.faces[L] == s1.faces[L] && r.faces[L + 1] == s1.faces[L + 1];
  }
}
