/** `containingTriangle` on values: the walk down the history graph from the root to a
    node whose triangle contains a point. */
module PointLocation {
  import opened Geometry
  import opened History
  import opened Mesh

  /** The walk gives up once it has made more than this many rounds. */
  const SafetyCap: nat := 10000

  /** Every key in cs is a node whose triangle names vertices of s. */
  ghost predicate NodesOk(s: State, cs: seq<nat>)
  {
    forall c :: c in cs ==> c in s.nodes && TripleOk(s.nodes[c].vertices, |s.vertices|)
  }

  /** `pointInTriangle` of the point and the positions of node c's three corners. */
  predicate Inside(s: State, point: Point, c: nat)
    requires c in s.nodes && TripleOk(s.nodes[c].vertices, |s.vertices|)
  {
    var t := s.nodes[c].vertices;
    PointInTriangle(point, s.vertices[t.v1].pos, s.vertices[t.v2].pos, s.vertices[t.v3].pos)
  }

  /** The child the walk moves to: the first of cs whose triangle contains the point. */
  function FirstInside(s: State, point: Point, cs: seq<nat>): (r: Option<nat>)
    requires NodesOk(s, cs)
    ensures r.Some? ==> r.value in cs && Inside(s, point, r.value)
    ensures r.None? <==> forall c :: c in cs ==> !Inside(s, point, c)
    decreases |cs|
  {
    if cs == [] then None
    else if Inside(s, point, cs[0]) then Some(cs[0])
    else
      var r := FirstInside(s, point, cs[1..]);
      assert forall c :: c in cs ==> c == cs[0] || c in cs[1..];
      r
  }

  /** The child chosen is the first match: every child before it fails the test. */
  lemma {:induction false} FirstInsideIsFirst(s: State, point: Point, cs: seq<nat>)
    requires NodesOk(s, cs)
    ensures var r := FirstInside(s, point, cs);
            r.Some? ==> exists j :: 0 <= j < |cs| && cs[j] == r.value && forall i :: 0 <= i < j ==> !Inside(s, point, cs[i])
    decreases |cs|
  {
    if cs != [] && !Inside(s, point, cs[0]) {
      var rest := cs[1..];
      FirstInsideIsFirst(s, point, rest);
      var r := FirstInside(s, point, rest);
      if r.Some? {
        var j :| 0 <= j < |rest| && rest[j] == r.value && forall i :: 0 <= i < j ==> !Inside(s, point, rest[i]);
        assert cs[j + 1] == r.value;
        forall i | 0 <= i < j + 1
          ensures !Inside(s, point, cs[i])
        {
          if i > 0 {
            assert cs[i] == rest[i - 1];
          }
        }
      }
    }
  }

  /** Under the invariant every node's children, and the node itself, are nodes whose
      triangles name vertices. */
  lemma ChildrenOk(s: State, k: nat)
    requires Inv(s) && k in s.nodes
    ensures NodesOk(s, [k]) && NodesOk(s, s.nodes[k].children)
    ensures forall c :: c in s.nodes[k].children ==> k < c < |s.faces|
  {
    assert FaceOk(s, k);
    forall c | c in s.nodes[k].children
      ensures c in s.nodes && TripleOk(s.nodes[c].vertices, |s.vertices|) && k < c < |s.faces|
    {
      assert FaceOk(s, c);
    }
  }

  /** One round of the walk from node k: the first child containing the point, or k itself
      when none does. */
  ghost function Step(s: State, point: Point, k: nat): (r: nat)
    requires Inv(s) && k in s.nodes
    ensures r in s.nodes
  {
    ChildrenOk(s, k);
    match FirstInside(s, point, s.nodes[k].children)
    case Some(c) => c
    case None => k
  }

  /** `containingTriangle`'s walk from node k when `safety` rounds are done: stop at a leaf;
      otherwise move to the first child whose triangle contains the point (or stay, when
      none does), count the round, and give up once the count passes `SafetyCap`. */
  ghost function Locate(s: State, point: Point, k: nat, safety: nat): (r: nat)
    requires Inv(s) && k in s.nodes && safety <= SafetyCap
    ensures r in s.nodes
    decreases SafetyCap - safety
  {
    var cs := s.nodes[k].children;
    if cs == [] then k
    else
      var next := Step(s, point, k);
      if safety + 1 > SafetyCap then next else Locate(s, point, next, safety + 1)
  }

  /** The rounds `containingTriangle`'s walk from node k counts once `safety` are done:
      never more than the cap leaves. */
  ghost function Rounds(s: State, point: Point, k: nat, safety: nat): (n: nat)
    requires Inv(s) && k in s.nodes && safety <= SafetyCap
    ensures n <= SafetyCap - safety + 1
    ensures n == 0 <==> s.nodes[k].children == []
    decreases SafetyCap - safety
  {
    if s.nodes[k].children == [] then 0
    else
      var next := Step(s, point, k);
      if safety + 1 > SafetyCap then 1 else 1 + Rounds(s, point, next, safety + 1)
  }

  /** The walk gives up rather than reaching a leaf only once it has counted every round up
      to the cap: when it ends at a node with children, it used all `SafetyCap - safety + 1`
      of them. */
  lemma {:induction false} LocateStopsAtCap(s: State, point: Point, k: nat, safety: nat)
    requires Inv(s) && k in s.nodes && safety <= SafetyCap
    requires s.nodes[Locate(s, point, k, safety)].children != []
    ensures Rounds(s, point, k, safety) == SafetyCap - safety + 1
    decreases SafetyCap - safety
  {
    if safety + 1 <= SafetyCap {
      LocateStep(s, point, k, safety);
      LocateStopsAtCap(s, point, Step(s, point, k), safety + 1);
    }
  }

  /** The node `containingTriangle` returns the face of: the walk from the root. */
  ghost function Located(s: State, point: Point): (k: nat)
    requires Inv(s)
    ensures k in s.nodes && k < |s.faces|
  {
    InvNodesValid(s);
    LocateFacts(s, point, 0, 0);
    Locate(s, point, 0, 0)
  }

  /** Below the cap, a round at a node with children moves to the next node and goes on. */
  lemma LocateStep(s: State, point: Point, k: nat, safety: nat)
    requires Inv(s) && k in s.nodes && safety < SafetyCap && s.nodes[k].children != []
    ensures Locate(s, point, k, safety) == Locate(s, point, Step(s, point, k), safety + 1)
  {
  }

  /** The walk ends at a node; unless it never left k, the point lies in that node's
      triangle; and it ends at a leaf exactly when the node's face is current. */
  lemma {:induction false} LocateFacts(s: State, point: Point, k: nat, safety: nat)
    requires Inv(s) && k in s.nodes && safety <= SafetyCap
    ensures var r := Locate(s, point, k, safety);
            && r in s.nodes && k <= r
            && NodesOk(s, [r])
            && (r == k || Inside(s, point, r))
            && (s.nodes[r].children == [] <==> IsCurrent(s, s.faces[r]))
    decreases SafetyCap - safety
  {
    var r := Locate(s, point, k, safety);
    var cs := s.nodes[k].children;
    ChildrenOk(s, k);
    if cs != [] {
      var next := Step(s, point, k);
      if safety + 1 <= SafetyCap {
        LocateFacts(s, point, next, safety + 1);
      } else {
        ChildrenOk(s, next);
      }
    }
    ChildrenOk(s, r);
    LeafIsCurrent(s, r);
  }

  /** Some child of node j contains the point. */
  ghost predicate ChildInside(s: State, point: Point, j: nat)
    requires Inv(s) && j in s.nodes
  {
    ChildrenOk(s, j);
    exists c :: c in s.nodes[j].children && Inside(s, point, c)
  }

  /** When node j has children and its triangle contains the point, so does the triangle of
      one of its children: what an exact split or flip guarantees. */
  ghost predicate CoveredAt(s: State, point: Point, j: nat)
    requires Inv(s) && j in s.nodes
  {
    ChildrenOk(s, j);
    s.nodes[j].children != [] && Inside(s, point, j) ==> ChildInside(s, point, j)
  }

  /** The walk from k never gets stuck: k, when it has children, has one containing the
      point, and so does every later node that has children and contains the point. */
  ghost predicate Covered(s: State, point: Point, k: nat)
    requires Inv(s) && k in s.nodes
  {
    && (s.nodes[k].children != [] ==> ChildInside(s, point, k))
    && forall j :: j in s.nodes && k < j ==> CoveredAt(s, point, j)
  }

  /** The cover condition carries over to the child the walk moves to. */
  lemma CoveredFurther(s: State, point: Point, k: nat, next: nat)
    requires Inv(s) && k in s.nodes && Covered(s, point, k) && k < next && next in s.nodes
    requires NodesOk(s, [next]) && Inside(s, point, next)
    ensures Covered(s, point, next)
  {
    assert CoveredAt(s, point, next);
  }

  /** When the children of every node on the way cover the point, and the walk has more
      rounds left than there are faces beyond k, it ends at a leaf (whose face is current, by
      `LocateFacts`). */
  lemma {:induction false} LocateFindsLeaf(s: State, point: Point, k: nat, safety: nat)
    requires Inv(s) && k in s.nodes && safety <= SafetyCap
    requires k < |s.faces| && safety + |s.faces| - k <= SafetyCap
    requires Covered(s, point, k)
    ensures s.nodes[Locate(s, point, k, safety)].children == []
    decreases |s.faces| - k
  {
    if s.nodes[k].children == [] {
      assert Locate(s, point, k, safety) == k;
    } else {
      CoveredStep(s, point, k, safety);
      LocateFindsLeaf(s, point, Step(s, point, k), safety + 1);
    }
  }

  /** Under the cover condition a round at a node with children moves on to a later node,
      which is covered in turn. */
  lemma CoveredStep(s: State, point: Point, k: nat, safety: nat)
    requires Inv(s) && k in s.nodes && safety < SafetyCap && s.nodes[k].children != []
    requires Covered(s, point, k)
    ensures var next := Step(s, point, k);
            && k < next < |s.faces| && Covered(s, point, next)
            && Locate(s, point, k, safety) == Locate(s, point, next, safety + 1)
  {
    var cs := s.nodes[k].children;
    ChildrenOk(s, k);
    assert ChildInside(s, point, k);
    var next := FirstInside(s, point, cs).value;
    assert next == Step(s, point, k) && k < next < |s.faces|;
    LocateStep(s, point, k, safety);
    CoveredFurther(s, point, k, next);
  }
}
