/** `splitTriangle` on values: a new vertex inside a current face, joined to its three
    corners by six new half-edges, replacing the face by three new ones. */
module Split {
  import opened Geometry
  import opened History
  import opened Mesh

  /** The three boundary half-edges of the face whose half-edge is ie, starting there. */
  function Boundary(s: State, ie: nat): (b: seq<nat>)
    requires Bounded(s) && ie < |s.halfEdges|
    ensures |b| == 3 && b[0] == ie
    ensures forall i :: 0 <= i < 3 ==> b[i] < |s.halfEdges|
    ensures s.halfEdges[b[0]].next == b[1] && s.halfEdges[b[1]].next == b[2]
  {
    var n := s.halfEdges[ie].next;
    [ie, n, s.halfEdges[n].next]
  }

  /** The half-edge at x once the face bounded by o = [o0, o1, o2] is split: the new
      half-edges base + 2i (from the new vertex to the corner of o_i) and base + 2i + 1 (from
      the end of o_i back to the new vertex) close the triangle of new face nf + i with o_i;
      o_i is rewired into that face; every other half-edge is unchanged. */
  function SplitEdgeAt(s: State, o: seq<nat>, x: nat): HalfEdge
    requires |o| == 3 && (forall i :: 0 <= i < 3 ==> o[i] < |s.halfEdges|)
    requires x < |s.halfEdges| + 6
  {
    var hs := s.halfEdges;
    var base, nv, nf := |hs|, |s.vertices|, |s.faces|;
    if x == base then HalfEdge(nv, base + 5, Some(nf), o[0], base + 1)
    else if x == base + 1 then HalfEdge(hs[o[1]].origin, base + 2, Some(nf), base, o[0])
    else if x == base + 2 then HalfEdge(nv, base + 1, Some(nf + 1), o[1], base + 3)
    else if x == base + 3 then HalfEdge(hs[o[2]].origin, base + 4, Some(nf + 1), base + 2, o[1])
    else if x == base + 4 then HalfEdge(nv, base + 3, Some(nf + 2), o[2], base + 5)
    else if x == base + 5 then HalfEdge(hs[o[0]].origin, base, Some(nf + 2), base + 4, o[2])
    else if x == o[0] then hs[x].(next := base + 1, prev := base, incFace := Some(nf))
    else if x == o[1] then hs[x].(next := base + 3, prev := base + 2, incFace := Some(nf + 1))
    else if x == o[2] then hs[x].(next := base + 5, prev := base + 4, incFace := Some(nf + 2))
    else hs[x]
  }

  /** The triangles of the three new history nodes: corner of o_i, corner of o_(i+1), new
      vertex. */
  function SplitTriples(s: State, o: seq<nat>): seq<Triple>
    requires |o| == 3 && (forall i :: 0 <= i < 3 ==> o[i] < |s.halfEdges|)
  {
    var hs, nv := s.halfEdges, |s.vertices|;
    [Triple(hs[o[0]].origin, hs[o[1]].origin, nv),
     Triple(hs[o[1]].origin, hs[o[2]].origin, nv),
     Triple(hs[o[2]].origin, hs[o[0]].origin, nv)]
  }

  /** The state after `splitTriangle(point, triangle)`. */
  function SplitState(s: State, point: Point, triangle: Face): State
    requires Bounded(s) && triangle.incEdge < |s.halfEdges|
  {
    var o := Boundary(s, triangle.incEdge);
    var base, nf := |s.halfEdges|, |s.faces|;
    var g := AddNodes(s.nodes, s.order, [triangle.graphKey], [nf, nf + 1, nf + 2], SplitTriples(s, o));
    State(s.vertices + [Vertex(point, base, |s.vertices|)],
          seq(base + 6, x requires 0 <= x < base + 6 => SplitEdgeAt(s, o, x)),
          s.faces + [Face(base, nf), Face(base + 2, nf + 1), Face(base + 4, nf + 2)],
          g.nodes, g.order)
  }

  /** What the invariant says about a current face's boundary: a 3-cycle of distinct
      half-edges on three distinct corners, each the prev of the following one, all on
      that face, whose history node is a leaf. */
  lemma BoundaryFacts(s: State, t: Face)
    requires Inv(s) && IsCurrent(s, t)
    ensures var hs, o := s.halfEdges, Boundary(s, t.incEdge);
            && hs[o[2]].next == o[0]
            && hs[o[0]].prev == o[2] && hs[o[1]].prev == o[0] && hs[o[2]].prev == o[1]
            && (forall i :: 0 <= i < 3 ==> hs[o[i]].incFace == Some(t.graphKey))
            && hs[o[0]].origin != hs[o[1]].origin && hs[o[1]].origin != hs[o[2]].origin
            && hs[o[2]].origin != hs[o[0]].origin
            && o[0] != o[1] && o[1] != o[2] && o[2] != o[0]
            && t.graphKey in s.nodes && s.nodes[t.graphKey].children == []
  {
    var hs, o := s.halfEdges, Boundary(s, t.incEdge);
    assert EdgeOk(s, o[0]) && Triangle(s, o[0]);
    assert EdgeOk(s, o[1]) && EdgeOk(s, o[2]);
    assert Triangle(s, o[1]);
    assert FaceOk(s, t.graphKey);
  }

  /** The growth of the history graph: three childless nodes nf, nf + 1, nf + 2, all
      children of the split face's node, which had none. */
  lemma SplitNodes(s: State, point: Point, t: Face)
    requires Inv(s) && IsCurrent(s, t)
    ensures var s', nf, k := SplitState(s, point, t), |s.faces|, t.graphKey;
            var tr := SplitTriples(s, Boundary(s, t.incEdge));
            && s'.nodes.Keys == s.nodes.Keys + {nf, nf + 1, nf + 2}
            && (forall i :: 0 <= i < 3 ==> s'.nodes[nf + i] == Node(nf + i, tr[i], []))
            && k in s.nodes && k in s'.nodes
            && s'.nodes[k] == s.nodes[k].(children := [nf, nf + 1, nf + 2])
            && (forall j :: j in s.nodes && j != k ==> s'.nodes[j] == s.nodes[j])
            && s'.order == s.order + [nf, nf + 1, nf + 2]
  {
    var nf, k := |s.faces|, t.graphKey;
    BoundaryFacts(s, t);
    var tr := SplitTriples(s, Boundary(s, t.incEdge));
    AddThreeFresh(s.nodes, s.order, k, nf, tr);
  }

  /** Splitting keeps every index in range. */
  lemma SplitBounded(s: State, point: Point, t: Face)
    requires Inv(s) && IsCurrent(s, t)
    ensures Bounded(SplitState(s, point, t))
  {
    var s' := SplitState(s, point, t);
    BoundaryFacts(s, t);
    SplitNodes(s, point, t);
    forall k | 0 <= k < |s'.faces|
      ensures s'.faces[k].incEdge < |s'.halfEdges|
    {
      if k < |s.faces| {
        assert s'.faces[k] == s.faces[k];
      }
    }
  }

  /** The records after a split, half-edge by half-edge, and the new faces. */
  lemma SplitRecords(s: State, point: Point, t: Face)
    requires Inv(s) && IsCurrent(s, t)
    ensures var s', o := SplitState(s, point, t), Boundary(s, t.incEdge);
            var hs, hs', base, nf := s.halfEdges, s'.halfEdges, |s.halfEdges|, |s.faces|;
            && |hs'| == base + 6 && |s'.faces| == nf + 3
            && (forall y :: 0 <= y < base + 6 ==> hs'[y] == SplitEdgeAt(s, o, y))
            && (forall y :: 0 <= y < base ==> hs'[y].twin == hs[y].twin && hs'[y].origin == hs[y].origin)
            && (forall k :: 0 <= k < nf ==> s'.faces[k] == s.faces[k])
            && (forall i :: 0 <= i < 3 ==> s'.faces[nf + i] == Face(base + 2 * i, nf + i))
  {
  }

  /** The half-edge invariants at a new half-edge and at a rewired boundary half-edge. */
  lemma SplitEdgeOkNew(s: State, point: Point, t: Face, x: nat)
    requires Inv(s) && IsCurrent(s, t)
    requires Bounded(SplitState(s, point, t))
    requires var o := Boundary(s, t.incEdge);
             |s.halfEdges| <= x < |s.halfEdges| + 6 || x == o[0] || x == o[1] || x == o[2]
    ensures EdgeOk(SplitState(s, point, t), x)
  {
    var s' := SplitState(s, point, t);
    var o := Boundary(s, t.incEdge);
    BoundaryFacts(s, t);
    SplitRecords(s, point, t);
    var base := |s.halfEdges|;
    assert EdgeOk(s, o[0]) && EdgeOk(s, o[1]) && EdgeOk(s, o[2]);
    if x == base {
      assert Triangle(s', x);
    } else if x == base + 1 {
      assert Triangle(s', x);
    } else if x == base + 2 {
      assert Triangle(s', x);
    } else if x == base + 3 {
      assert Triangle(s', x);
    } else if x == base + 4 {
      assert Triangle(s', x);
    } else if x == base + 5 {
      assert Triangle(s', x);
    } else if x == o[0] {
      assert Triangle(s', x);
    } else if x == o[1] {
      assert Triangle(s', x);
    } else {
      assert Triangle(s', x);
    }
  }

  /** The half-edge invariants at a half-edge the split leaves alone. */
  lemma SplitEdgeOkOld(s: State, point: Point, t: Face, x: nat)
    requires Inv(s) && IsCurrent(s, t)
    requires Bounded(SplitState(s, point, t))
    requires var o := Boundary(s, t.incEdge);
             x < |s.halfEdges| && x != o[0] && x != o[1] && x != o[2]
    ensures EdgeOk(SplitState(s, point, t), x)
  {
    var s' := SplitState(s, point, t);
    var hs, hs' := s.halfEdges, s'.halfEdges;
    var o := Boundary(s, t.incEdge);
    BoundaryFacts(s, t);
    SplitRecords(s, point, t);
    assert EdgeOk(s, x);
    var n, p := hs[x].next, hs[x].prev;
    assert n != o[0] && n != o[1] && n != o[2];
    assert p != o[0] && p != o[1] && p != o[2];
    assert hs'[x] == hs[x] && hs'[n] == hs[n] && hs'[p] == hs[p];
    if hs[x].incFace.Some? {
      assert Triangle(s, x) && EdgeOk(s, n);
      var nn := hs[n].next;
      assert nn != o[0] && nn != o[1] && nn != o[2];
      assert hs'[nn] == hs[nn];
      assert Triangle(s', x);
    }
  }

  /** The face invariants hold at every face after a split. */
  lemma SplitFaceOk(s: State, point: Point, t: Face, k: nat)
    requires Inv(s) && IsCurrent(s, t)
    requires Bounded(SplitState(s, point, t))
    requires k < |SplitState(s, point, t).faces|
    ensures FaceOk(SplitState(s, point, t), k)
  {
    if k < |s.faces| {
      SplitFaceOkOld(s, point, t, k);
    } else {
      SplitFaceOkNew(s, point, t, k);
    }
  }

  /** The face invariants at a face that was there before the split. */
  lemma SplitFaceOkOld(s: State, point: Point, t: Face, k: nat)
    requires Inv(s) && IsCurrent(s, t)
    requires Bounded(SplitState(s, point, t))
    requires k < |s.faces|
    ensures FaceOk(SplitState(s, point, t), k)
  {
    var s' := SplitState(s, point, t);
    var hs, hs' := s.halfEdges, s'.halfEdges;
    var o := Boundary(s, t.incEdge);
    BoundaryFacts(s, t);
    SplitNodes(s, point, t);
    SplitRecords(s, point, t);
    assert FaceOk(s, k);
    assert s'.faces[k] == s.faces[k];
    var ie := s.faces[k].incEdge;
    if ie == o[0] || ie == o[1] || ie == o[2] {
      assert hs[ie].incFace == Some(t.graphKey);
    }
  }

  /** The face invariants at the three new faces. */
  lemma SplitFaceOkNew(s: State, point: Point, t: Face, k: nat)
    requires Inv(s) && IsCurrent(s, t)
    requires Bounded(SplitState(s, point, t))
    requires |s.faces| <= k < |s.faces| + 3
    ensures FaceOk(SplitState(s, point, t), k)
  {
    var s' := SplitState(s, point, t);
    var o := Boundary(s, t.incEdge);
    var base, nf := |s.halfEdges|, |s.faces|;
    BoundaryFacts(s, t);
    SplitNodes(s, point, t);
    SplitRecords(s, point, t);
    var i := k - nf;
    assert s'.faces[k] == Face(base + 2 * i, k);
    assert s'.nodes[nf + i].vertices == SplitTriples(s, o)[i];
  }

  /** Each new face's node records its corners, read from the rewired boundary half-edge
      o_i; the split face is no longer current; every other face keeps its walk. */
  lemma SplitCorners(s: State, point: Point, t: Face, k: nat)
    requires Inv(s) && IsCurrent(s, t)
    requires Bounded(SplitState(s, point, t))
    requires k < |SplitState(s, point, t).faces|
    ensures CornersOk(SplitState(s, point, t), k)
  {
    var s' := SplitState(s, point, t);
    var hs, hs' := s.halfEdges, s'.halfEdges;
    var o := Boundary(s, t.incEdge);
    var base, nf := |hs|, |s.faces|;
    BoundaryFacts(s, t);
    SplitNodes(s, point, t);
    SplitRecords(s, point, t);
    if k >= nf {
      var i := k - nf;
      SplitRound(s, point, t, i);
      assert hs'[base + 2 * i].next == o[i];
      assert hs'[o[i]].next == base + 2 * i + 1;
      assert Corners(s', o[i]) == SplitTriples(s, o)[i];
    } else if k == t.graphKey {
      assert hs'[o[0]].incFace == Some(nf);
    } else {
      forall y | 0 <= y < base && (hs[y].incFace == Some(k) || hs'[y].incFace == Some(k))
        ensures hs'[y] == hs[y]
      {
        assert y != o[0] && y != o[1] && y != o[2];
      }
      assert FaceOk(s, k);
      CornersKept(s, s', k);
    }
  }

  /** Splitting a current face keeps the invariant. */
  lemma SplitInv(s: State, point: Point, t: Face)
    requires Inv(s) && IsCurrent(s, t)
    ensures Inv(SplitState(s, point, t))
  {
    var s' := SplitState(s, point, t);
    SplitBounded(s, point, t);
    SplitNodes(s, point, t);
    forall x | 0 <= x < |s'.halfEdges|
      ensures EdgeOk(s', x)
    {
      var o := Boundary(s, t.incEdge);
      if x >= |s.halfEdges| || x == o[0] || x == o[1] || x == o[2] {
        SplitEdgeOkNew(s, point, t, x);
      } else {
        SplitEdgeOkOld(s, point, t, x);
      }
    }
    forall k | 0 <= k < |s'.faces|
      ensures FaceOk(s', k)
    {
      SplitFaceOk(s, point, t, k);
    }
    forall k | 0 <= k < |s'.faces|
      ensures CornersOk(s', k)
    {
      SplitCorners(s, point, t, k);
    }
    forall k | k in s'.nodes
      ensures k < |s'.faces|
    {
    }
    forall i | 0 <= i < |s'.order|
      ensures s'.order[i] == i
    {
      if i >= |s.order| {
        assert s'.order[i] == [|s.faces|, |s.faces| + 1, |s.faces| + 2][i - |s.order|];
      }
    }
  }

  /** Face nf + i after the split: key nf + i, the 3-cycle o_i -> base + 2i + 1 ->
      base + 2i -> o_i, all three of its half-edges carrying it. */
  ghost predicate NewFaceCycle(s': State, o: seq<nat>, base: nat, nf: nat, i: nat)
    requires |o| == 3 && (forall j :: 0 <= j < 3 ==> o[j] < |s'.halfEdges|) && i < 3
    requires base + 6 <= |s'.halfEdges| && nf + 3 <= |s'.faces|
  {
    var hs' := s'.halfEdges;
    && s'.faces[nf + i].graphKey == nf + i
    && hs'[o[i]].next == base + 2 * i + 1 && hs'[base + 2 * i + 1].next == base + 2 * i
    && hs'[base + 2 * i].next == o[i]
    && hs'[o[i]].incFace == Some(nf + i) && hs'[base + 2 * i + 1].incFace == Some(nf + i)
    && hs'[base + 2 * i].incFace == Some(nf + i)
  }

  /** `splitTriangle`'s new faces: face nf + i has key nf + i and is the 3-cycle
      o_i -> base + 2i + 1 -> base + 2i -> o_i, all three of its half-edges carrying it;
      the returned boundary edges are the split face's three half-edges in order. */
  lemma SplitFaces(s: State, point: Point, t: Face)
    requires Inv(s) && IsCurrent(s, t)
    ensures |SplitState(s, point, t).halfEdges| == |s.halfEdges| + 6
    ensures |SplitState(s, point, t).faces| == |s.faces| + 3
    ensures Boundary(s, t.incEdge) ==
            [t.incEdge, s.halfEdges[t.incEdge].next, s.halfEdges[s.halfEdges[t.incEdge].next].next]
    ensures forall i :: 0 <= i < 3 ==>
              NewFaceCycle(SplitState(s, point, t), Boundary(s, t.incEdge), |s.halfEdges|, |s.faces|, i)
  {
    var s', o := SplitState(s, point, t), Boundary(s, t.incEdge);
    var base, nf := |s.halfEdges|, |s.faces|;
    BoundaryFacts(s, t);
    SplitRecords(s, point, t);
    forall i | 0 <= i < 3
      ensures NewFaceCycle(s', o, base, nf, i)
    {
      SplitFaceCycle(s, o, i);
    }
  }

  /** New face nf + i in closed form: o_i -> base + 2i + 1 -> base + 2i -> o_i, all three on it. */
  lemma SplitFaceCycle(s: State, o: seq<nat>, i: nat)
    requires |o| == 3 && i < 3
    requires forall j :: 0 <= j < 3 ==> o[j] < |s.halfEdges|
    requires o[0] != o[1] && o[1] != o[2] && o[0] != o[2]
    ensures var base, nf := |s.halfEdges|, |s.faces|;
            && SplitEdgeAt(s, o, o[i]).next == base + 2 * i + 1 && SplitEdgeAt(s, o, o[i]).incFace == Some(nf + i)
            && SplitEdgeAt(s, o, base + 2 * i + 1).next == base + 2 * i
            && SplitEdgeAt(s, o, base + 2 * i + 1).incFace == Some(nf + i)
            && SplitEdgeAt(s, o, base + 2 * i).next == o[i] && SplitEdgeAt(s, o, base + 2 * i).incFace == Some(nf + i)
  {
  }

  /** The six new half-edges are three twin pairs among themselves. */
  lemma SplitTwins(s: State, point: Point, t: Face)
    requires Inv(s) && IsCurrent(s, t)
    ensures var hs', base := SplitState(s, point, t).halfEdges, |s.halfEdges|;
            && |hs'| == base + 6
            && forall x :: base <= x < base + 6 ==> base <= hs'[x].twin < base + 6 && hs'[hs'[x].twin].twin == x
  {
    var s', o := SplitState(s, point, t), Boundary(s, t.incEdge);
    var hs', base := s'.halfEdges, |s.halfEdges|;
    SplitRecords(s, point, t);
    forall x | base <= x < base + 6
      ensures base <= hs'[x].twin < base + 6 && hs'[hs'[x].twin].twin == x
    {
      assert hs'[x] == SplitEdgeAt(s, o, x);
      assert hs'[hs'[x].twin] == SplitEdgeAt(s, o, hs'[x].twin);
    }
  }

  /** The new vertex has the old vertex count as id and the point as position; the three
      new history nodes are childless children of the split face's node. */
  lemma SplitShape(s: State, point: Point, t: Face)
    requires Inv(s) && IsCurrent(s, t)
    ensures var s', nf, nv := SplitState(s, point, t), |s.faces|, |s.vertices|;
            && |s'.vertices| == nv + 1 && s'.vertices[nv].id == nv && s'.vertices[nv].pos == point
            && s'.vertices[..nv] == s.vertices
            && t.graphKey in s.nodes && t.graphKey in s'.nodes
            && s.nodes[t.graphKey].children == []
            && s'.nodes[t.graphKey].children == [nf, nf + 1, nf + 2]
            && nf in s'.nodes && nf + 1 in s'.nodes && nf + 2 in s'.nodes
            && s'.nodes[nf].children == [] && s'.nodes[nf + 1].children == [] && s'.nodes[nf + 2].children == []
  {
    BoundaryFacts(s, t);
    SplitNodes(s, point, t);
    var s', o, nf := SplitState(s, point, t), Boundary(s, t.incEdge), |s.faces|;
    assert s'.nodes[nf + 0] == Node(nf + 0, SplitTriples(s, o)[0], []);
    assert s'.nodes[nf + 1] == Node(nf + 1, SplitTriples(s, o)[1], []);
    assert s'.nodes[nf + 2] == Node(nf + 2, SplitTriples(s, o)[2], []);
  }

  /** After a split, each boundary half-edge o_i is on new face nf + i with the new vertex as
      its apex: ready for `legalizeEdge`. */
  lemma SplitReady(s: State, point: Point, t: Face)
    requires Inv(s) && IsCurrent(s, t)
    ensures var s', o := SplitState(s, point, t), Boundary(s, t.incEdge);
            && Bounded(s')
            && forall i :: 0 <= i < 3 ==>
                 && s'.halfEdges[o[i]].incFace == Some(|s.faces| + i)
                 && s'.halfEdges[s'.halfEdges[o[i]].prev].origin == |s.vertices|
  {
    BoundaryFacts(s, t);
    SplitRecords(s, point, t);
    SplitBounded(s, point, t);
  }

  /** A split only extends the history. */
  lemma SplitGrows(s: State, point: Point, t: Face)
    requires Inv(s) && IsCurrent(s, t)
    ensures HistoryGrows(s, SplitState(s, point, t))
  {
    BoundaryFacts(s, t);
    SplitRecords(s, point, t);
    SplitNodes(s, point, t);
  }
  /** Where `splitTriangle`'s twin loop points new half-edge j (of six): 2i and 2i - 1
      (mod 6) are twins. */
  function TwinSlot(j: nat): nat
    requires j < 6
  {
    [5, 2, 1, 4, 3, 0][j]
  }

  /** The iteration of the twin loop that sets new half-edge j's twin. */
  function TwinRound(j: nat): nat
    requires j < 6
  {
    [0, 1, 1, 2, 2, 0][j]
  }

  /** Round i of `splitTriangle`'s face loop in closed form: the records it leaves at
      new half-edges base + 2i (e3) and base + 2i + 1 (e2) and at boundary half-edge o_i
      (e1), and the triangle it records. */
  lemma SplitRound(s: State, point: Point, t: Face, i: nat)
    requires Inv(s) && IsCurrent(s, t) && i < 3
    ensures var o, hs := Boundary(s, t.incEdge), s.halfEdges;
            var base, nf, nv := |hs|, |s.faces|, |s.vertices|;
            && SplitEdgeAt(s, o, base + 2 * i) == HalfEdge(nv, base + TwinSlot(2 * i), Some(nf + i), o[i], base + 2 * i + 1)
            && SplitEdgeAt(s, o, base + 2 * i + 1)
               == HalfEdge(hs[hs[o[i]].next].origin, base + TwinSlot(2 * i + 1), Some(nf + i), base + 2 * i, o[i])
            && SplitEdgeAt(s, o, o[i]) == hs[o[i]].(next := base + 2 * i + 1, prev := base + 2 * i, incFace := Some(nf + i))
            && SplitTriples(s, o)[i] == Triple(hs[o[i]].origin, hs[hs[o[i]].next].origin, nv)
  {
    BoundaryFacts(s, t);
    if i == 0 {
    } else if i == 1 {
    } else {
    }
  }
  /** A blank half-edge record: every link still unset (0), no face. */
  function Unset(origin: nat): HalfEdge
  {
    HalfEdge(origin, 0, None, 0, 0)
  }

  /** The six new half-edges once `splitTriangle`'s twin loop is done: the even ones start
      at the new vertex nv, and 2i and 2i - 1 (mod 6) are twins, as indices after base. */
  function SplitBlank(base: nat, nv: nat): seq<HalfEdge>
  {
    [Unset(nv).(twin := base + 5), Unset(0).(twin := base + 2), Unset(nv).(twin := base + 1),
     Unset(0).(twin := base + 4), Unset(nv).(twin := base + 3), Unset(0).(twin := base)]
  }

  /** The six new half-edges are paired as mutual twins, even ones starting at the new
      vertex, none yet linked into a face. */
  lemma SplitBlankTwins(base: nat, nv: nat)
    ensures var b := SplitBlank(base, nv);
            && |b| == 6
            && forall j :: 0 <= j < 6 ==>
                 && b[j].twin == base + TwinSlot(j) && TwinSlot(j) != j && TwinSlot(TwinSlot(j)) == j
                 && b[j].origin == (if j % 2 == 0 then nv else 0) && b[j].incFace.None?
  {
  }

  /** The arena's old half-edges after i rounds of `splitTriangle`'s face loop: round k
      links o_k into face nf + k between e3 = base + 2k and e2 = base + 2k + 1. */
  function SplitOldStage(s: State, o: seq<nat>, i: nat): (r: seq<HalfEdge>)
    requires |o| == 3 && (forall k :: 0 <= k < 3 ==> o[k] < |s.halfEdges|) && i <= 3
    ensures |r| == |s.halfEdges|
  {
    if i == 0 then s.halfEdges
    else
      var p, k := SplitOldStage(s, o, i - 1), i - 1;
      p[o[k] := p[o[k]].(next := |s.halfEdges| + 2 * k + 1, prev := |s.halfEdges| + 2 * k, incFace := Some(|s.faces| + k))]
  }

  /** The six new half-edges after i rounds of the face loop: round k gives e2 the origin
      of o_k's next and links e2 and e3 with o_k into face nf + k. */
  function SplitNewStage(s: State, o: seq<nat>, i: nat): (r: seq<HalfEdge>)
    requires Bounded(s) && |o| == 3 && (forall k :: 0 <= k < 3 ==> o[k] < |s.halfEdges|) && i <= 3
    ensures |r| == 6
  {
    if i == 0 then SplitBlank(|s.halfEdges|, |s.vertices|)
    else
      var p, k, base := SplitNewStage(s, o, i - 1), i - 1, |s.halfEdges|;
      var f := Some(|s.faces| + k);
      var p1 := p[2 * k + 1 := p[2 * k + 1].(origin := s.halfEdges[s.halfEdges[o[k]].next].origin)];
      var p2 := p1[2 * k + 1 := p1[2 * k + 1].(next := base + 2 * k, prev := o[k], incFace := f)];
      p2[2 * k := p2[2 * k].(next := o[k], prev := base + 2 * k + 1, incFace := f)]
  }

  /** What round i of the face loop reads: o_i and the origin of its next are as before the
      split, e3 is the new vertex's, the two old corners are the vertices with those ids,
      and the triangle recorded is the i-th of `SplitTriples`. */
  ghost predicate RoundReads(s: State, o: seq<nat>, i: nat)
    requires Bounded(s) && |o| == 3 && (forall k :: 0 <= k < 3 ==> o[k] < |s.halfEdges|) && i < 3
  {
    var hs, st := s.halfEdges, SplitOldStage(s, o, i);
    var a, b := hs[o[i]].origin, hs[hs[o[i]].next].origin;
    && st[o[i]] == hs[o[i]]
    && st[hs[o[i]].next].origin == b
    && SplitNewStage(s, o, i)[2 * i].origin == |s.vertices|
    && SplitTriples(s, o)[i] == Triple(a, b, |s.vertices|)
    && s.vertices[a].id == a && s.vertices[b].id == b
  }

  lemma SplitStageReads(s: State, t: Face, i: nat)
    requires Inv(s) && IsCurrent(s, t) && i < 3
    ensures RoundReads(s, Boundary(s, t.incEdge), i)
  {
    BoundaryFacts(s, t);
    var o, hs, base := Boundary(s, t.incEdge), s.halfEdges, |s.halfEdges|;
    var st, ns := SplitOldStage(s, o, i), SplitNewStage(s, o, i);
    var blank := SplitBlank(base, |s.vertices|);
    var st1, ns1 := SplitOldStage(s, o, 1), SplitNewStage(s, o, 1);
    assert SplitOldStage(s, o, 0) == hs && SplitNewStage(s, o, 0) == blank;
    assert st1 == hs[o[0] := hs[o[0]].(next := base + 1, prev := base, incFace := Some(|s.faces|))];
    assert ns1[2] == blank[2] && ns1[4] == blank[4];
    if i == 0 {
      assert ns[0] == blank[0];
    } else if i == 1 {
      assert st == st1 && ns == ns1;
    } else {
      assert st == st1[o[1] := st1[o[1]].(next := base + 3, prev := base + 2, incFace := Some(|s.faces| + 1))];
      assert ns[4] == ns1[4];
    }
    var a, b := hs[o[i]].origin, hs[hs[o[i]].next].origin;
    assert s.vertices[a].id == a && s.vertices[b].id == b;
  }

  /** Everything the face loop reads, for all three rounds. */
  ghost predicate LinkReady(s: State, o: seq<nat>)
  {
    && Bounded(s) && |o| == 3 && (forall k :: 0 <= k < 3 ==> o[k] < |s.halfEdges|)
    && (forall i :: 0 <= i < 3 ==> RoundReads(s, o, i))
  }

  lemma SplitLinkReady(s: State, t: Face)
    requires Inv(s) && IsCurrent(s, t)
    ensures LinkReady(s, Boundary(s, t.incEdge))
  {
    SplitStageReads(s, t, 0);
    SplitStageReads(s, t, 1);
    SplitStageReads(s, t, 2);
  }

  /** After the face loop and the appends, the arena is the split state's. */
  lemma SplitStageEnd(s: State, point: Point, t: Face)
    requires Inv(s) && IsCurrent(s, t)
    ensures var o := Boundary(s, t.incEdge);
            SplitOldStage(s, o, 3) + SplitNewStage(s, o, 3) == SplitState(s, point, t).halfEdges
  {
    var o, hs, base := Boundary(s, t.incEdge), s.halfEdges, |s.halfEdges|;
    BoundaryFacts(s, t);
    SplitRecords(s, point, t);
    var hs' := SplitState(s, point, t).halfEdges;
    var st1, st2, st3 := SplitOldStage(s, o, 1), SplitOldStage(s, o, 2), SplitOldStage(s, o, 3);
    SplitRound(s, point, t, 0);
    SplitRound(s, point, t, 1);
    SplitRound(s, point, t, 2);
    assert SplitOldStage(s, o, 0) == hs;
    assert st1 == hs[o[0] := SplitEdgeAt(s, o, o[0])];
    assert st2 == st1[o[1] := SplitEdgeAt(s, o, o[1])];
    assert st3 == st2[o[2] := SplitEdgeAt(s, o, o[2])];
    var ns0, ns1, ns2, ns := SplitNewStage(s, o, 0), SplitNewStage(s, o, 1), SplitNewStage(s, o, 2), SplitNewStage(s, o, 3);
    assert ns0 == SplitBlank(base, |s.vertices|);
    assert ns1 == ns0[0 := SplitEdgeAt(s, o, base)][1 := SplitEdgeAt(s, o, base + 1)];
    assert ns2 == ns1[2 := SplitEdgeAt(s, o, base + 2)][3 := SplitEdgeAt(s, o, base + 3)];
    assert ns == ns2[4 := SplitEdgeAt(s, o, base + 4)][5 := SplitEdgeAt(s, o, base + 5)];
    var r := st3 + ns;
    forall x | 0 <= x < |hs'|
      ensures r[x] == hs'[x]
    {
      if x < base {
        assert r[x] == st3[x];
      } else {
        assert r[x] == ns[x - base];
      }
    }
  }

  /** The state `splitTriangle` assembles from the face loop's results is the split state,
      and it keeps the invariant. */
  lemma SplitAssembled(s: State, point: Point, t: Face)
    requires Inv(s) && IsCurrent(s, t)
    ensures var o, base, nf := Boundary(s, t.incEdge), |s.halfEdges|, |s.faces|;
            var g := AddNodes(s.nodes, s.order, [t.graphKey], [nf, nf + 1, nf + 2], SplitTriples(s, o));
            var r := State(s.vertices + [Vertex(point, base, |s.vertices|)],
                           SplitOldStage(s, o, 3) + SplitNewStage(s, o, 3),
                           s.faces + [Face(base, nf), Face(base + 2, nf + 1), Face(base + 4, nf + 2)],
                           g.nodes, g.order);
            r == SplitState(s, point, t) && Inv(r)
  {
    SplitStageEnd(s, point, t);
    SplitInv(s, point, t);
  }
}
