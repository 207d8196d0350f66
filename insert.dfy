/** One round of `triangulate` on values, and the whole loop: locate the point, split the
    face found, legalize its three old edges. */
module Insert {
  import opened Geometry
  import opened History
  import opened Mesh
  import opened Split
  import opened Legalize
  import opened PointLocation

  /** Each of es is ready for `legalizeEdge` with apex v, and no two lie on the same face. */
  ghost predicate Spread(s: State, v: nat, es: seq<nat>)
  {
    && (forall i :: 0 <= i < |es| ==> Ready(s, v, es[i]))
    && (forall i, j :: 0 <= i < j < |es| && Ready(s, v, es[i]) && Ready(s, v, es[j]) ==>
          s.halfEdges[es[i]].incFace != s.halfEdges[es[j]].incFace)
  }

  /** `affectedEdges.forEach(edge => legalizeEdge(newVertex, edge))` after j of the edges:
      the first j legalized in order. The rest stay ready, with their records untouched. */
  ghost function LegalizeFirst(s: State, v: nat, es: seq<nat>, j: nat): (r: State)
    requires Inv(s) && Spread(s, v, es) && j <= |es|
    ensures Inv(r) && r.vertices == s.vertices && |r.halfEdges| == |s.halfEdges|
    ensures HistoryGrows(s, r)
    ensures forall i :: j <= i < |es| ==> Ready(r, v, es[i]) && r.halfEdges[es[i]] == s.halfEdges[es[i]]
    decreases j
  {
    if j == 0 then s
    else
      var p := LegalizeFirst(s, v, es, j - 1);
      var r := LegalizeState(p, v, es[j - 1]);
      LegalizeKeepsRest(s, p, v, es, j - 1);
      HistoryGrowsTransitive(s, p, r);
      assert forall i :: j <= i < |es| ==> Ready(r, v, es[i]) && r.halfEdges[es[i]] == s.halfEdges[es[i]];
      r
  }

  /** Legalizing edge es[k] leaves every later edge ready and its record untouched. */
  lemma LegalizeKeepsRest(s: State, p: State, v: nat, es: seq<nat>, k: nat)
    requires Inv(s) && Spread(s, v, es) && k < |es|
    requires Inv(p) && p.vertices == s.vertices && |p.halfEdges| == |s.halfEdges|
    requires forall i :: k <= i < |es| ==> Ready(p, v, es[i]) && p.halfEdges[es[i]] == s.halfEdges[es[i]]
    ensures var r := LegalizeState(p, v, es[k]);
            forall i :: k + 1 <= i < |es| ==> Ready(r, v, es[i]) && r.halfEdges[es[i]] == s.halfEdges[es[i]]
  {
    var r := LegalizeState(p, v, es[k]);
    forall i | k + 1 <= i < |es|
      ensures Ready(r, v, es[i]) && r.halfEdges[es[i]] == s.halfEdges[es[i]]
    {
      assert Ready(s, v, es[k]) && Ready(s, v, es[i]);
      ReadyKept(p, r, v, es[i], p.halfEdges[es[k]].incFace);
    }
  }

  /** After a split, the three old boundary half-edges are spread around the new vertex. */
  lemma SplitSpread(s: State, point: Point, t: Face)
    requires Inv(s) && IsCurrent(s, t)
    ensures Inv(SplitState(s, point, t))
    ensures Spread(SplitState(s, point, t), |s.vertices|, Boundary(s, t.incEdge))
  {
    SplitInv(s, point, t);
    SplitReady(s, point, t);
    SplitShape(s, point, t);
  }

  /** The state after inserting a point into the current face t: the split, then
      `legalizeEdge` on each of t's three old half-edges in order. */
  ghost function SplitAndLegalize(s: State, point: Point, t: Face): (r: State)
    requires Inv(s) && IsCurrent(s, t)
  {
    SplitSpread(s, point, t);
    LegalizeFirst(SplitState(s, point, t), |s.vertices|, Boundary(s, t.incEdge), 3)
  }

  /** Inserting a point keeps the invariant, only extends the history, and appends one
      vertex: the point, with id the old vertex count, whose half-edge is the first new one. */
  lemma SplitAndLegalizeFacts(s: State, point: Point, t: Face)
    requires Inv(s) && IsCurrent(s, t)
    ensures var r := SplitAndLegalize(s, point, t);
            && Inv(r) && HistoryGrows(s, r)
            && r.vertices == s.vertices + [Vertex(point, |s.halfEdges|, |s.vertices|)]
            && |r.halfEdges| == |s.halfEdges| + 6
  {
    SplitSpread(s, point, t);
    SplitGrows(s, point, t);
    var s1 := SplitState(s, point, t);
    HistoryGrowsTransitive(s, s1, SplitAndLegalize(s, point, t));
  }

  /** The walk from the root gives up at a node with children. */
  ghost predicate LocateFails(s: State, point: Point)
    requires Inv(s)
  {
    s.nodes[Located(s, point)].children != []
  }

  /** The face `containingTriangle` returns carries the key of the node reached, and it is
      current exactly when the walk does not fail. */
  lemma LocatedFace(s: State, point: Point)
    requires Inv(s)
    ensures var k := Located(s, point);
            && s.faces[k].graphKey == k
            && (LocateFails(s, point) <==> !IsCurrent(s, s.faces[k]))
  {
    var k := Located(s, point);
    InvNodesValid(s);
    LocateFacts(s, point, 0, 0);
    assert FaceOk(s, k);
  }

  /** One round of `triangulate` that finds a current face: that face is split and
      legalized. The point is appended as a vertex, with id the old vertex count; the
      invariant holds and the history only grows. */
  ghost function Inserted(s: State, point: Point): (r: State)
    requires Inv(s) && !LocateFails(s, point)
    ensures Inv(r) && HistoryGrows(s, r)
    ensures r.vertices == s.vertices + [Vertex(point, |s.halfEdges|, |s.vertices|)]
  {
    LocatedFace(s, point);
    var t := s.faces[Located(s, point)];
    SplitAndLegalizeFacts(s, point, t);
    SplitAndLegalize(s, point, t)
  }

  /** One round of `triangulate`: None when the walk gives up at a node with children,
      which leaves no current face to split. */
  ghost function InsertPoint(s: State, point: Point): (r: Option<State>)
    requires Inv(s)
    ensures r.None? <==> LocateFails(s, point)
    ensures r.Some? ==> Inv(r.value) && HistoryGrows(s, r.value)
    ensures r.Some? ==> r.value.vertices == s.vertices + [Vertex(point, |s.halfEdges|, |s.vertices|)]
  {
    if LocateFails(s, point) then None else Some(Inserted(s, point))
  }

  /** r's vertices are those of s followed by vertices at the first few of points, in order. */
  ghost predicate Appended(s: State, r: State, points: seq<Point>)
  {
    && |s.vertices| <= |r.vertices| <= |s.vertices| + |points|
    && r.vertices[..|s.vertices|] == s.vertices
    && forall i :: |s.vertices| <= i < |r.vertices| ==> r.vertices[i].pos == points[i - |s.vertices|]
  }

  /** `triangulate` on values: the points inserted in order, stopping at the first round
      that fails. */
  ghost function Triangulated(s: State, points: seq<Point>): (r: State)
    requires Inv(s)
    ensures Inv(r) && HistoryGrows(s, r) && Appended(s, r, points)
    decreases |points|
  {
    if points == [] then s
    else
      match InsertPoint(s, points[0])
      case None => s
      case Some(s1) =>
        var r := Triangulated(s1, points[1..]);
        HistoryGrowsTransitive(s, s1, r);
        PositionsAppended(s, s1, r, points);
        r
  }

  /** One more inserted point before the positions inserted after it. */
  lemma PositionsAppended(s: State, s1: State, r: State, points: seq<Point>)
    requires |points| > 0 && s1.vertices == s.vertices + [Vertex(points[0], |s.halfEdges|, |s.vertices|)]
    requires Appended(s1, r, points[1..])
    ensures Appended(s, r, points)
  {
    var a, b, c := s.vertices, s1.vertices, r.vertices;
    assert c[..|b|][..|a|] == c[..|a|];
    forall i | |a| <= i < |c|
      ensures c[i].pos == points[i - |a|]
    {
      if i == |a| {
        assert c[i] == c[..|b|][i];
      } else {
        assert points[1..][i - |b|] == points[i - |a|];
      }
    }
  }

  /** A round that fails ends the loop: nothing more is inserted. */
  lemma TriangulatedFails(s: State, points: seq<Point>)
    requires Inv(s) && points != [] && LocateFails(s, points[0])
    ensures Triangulated(s, points) == s
  {
  }

  /** A round that does not fail is followed by the rest of the loop from the state it
      leaves. */
  lemma TriangulatedStep(s: State, points: seq<Point>)
    requires Inv(s) && points != [] && !LocateFails(s, points[0])
    ensures Triangulated(s, points) == Triangulated(Inserted(s, points[0]), points[1..])
  {
    assert InsertPoint(s, points[0]) == Some(Inserted(s, points[0]));
  }
}
