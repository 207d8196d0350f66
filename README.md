# delaunay-js in Dafny

A model of `delaunay.js`, the incremental Delaunay triangulation of delaunay-js.
A `Delaunay` object starts from a bounding triangle of three synthetic vertices at
(-`FAR_AWAY`, -`FAR_AWAY`), (500, `FAR_AWAY`) and (`FAR_AWAY`, -`FAR_AWAY`), with `FAR_AWAY` = 10000. It then inserts the input points one at a time:

- the point is located by walking down the triangle history graph (`containingTriangle`);
- the leaf triangle found is split into three (`splitTriangle`);
- each of the three old boundary edges is legalized: flipped while the far apex across it
  lies strictly inside the circumcircle of the new triangle, recursively (`legalizeEdge`).

Every triangle ever created is a node of the history graph (`TriangleGraph`). A split or a flip
adds the new triangles as children of the ones they replace. `getTriangleData` reports the
leaves that do not touch the bounding triangle.

The model is organised by the program's own structure:

| module | file | what it holds |
|---|---|---|
| `Geometry` | `geometry.dfy` | `sign`, `pointInTriangle` and `pointInCircle` over exact reals, with what they mean geometrically |
| `History` | `history.dfy` | `Node` and the `TriangleGraph` class, with `addNode` proved against a fold over its parent keys |
| `Mesh` | `mesh.dfy` | the vertex, half-edge and face records as arenas addressed by index, the invariant of the mesh and the history, and the constructor's bounding triangle |
| `Split` | `split.dfy` | `splitTriangle` as a function on states, with the proof that it keeps the invariant |
| `Legalize` | `legalize.dfy` | the flip in `legalizeEdge` and the whole recursion as functions on states, with a termination measure and the proof that they keep the invariant |
| `PointLocation` | `location.dfy` | `containingTriangle`'s walk, its safety cap included |
| `Insert` | `insert.dfy` | one round of `triangulate`, and the whole loop |
| `Triangulation` | `triangulation.dfy` | the `Delaunay` class, each method proved against the value-level operation it performs |

The records are the source's objects. Where the source stores a reference to another
record, the model stores that record's index in its arena. A half-edge's face is `None`
outside the triangulated region, where the source stores `null`. The class `Delaunay` keeps
the three arenas as `seq` fields that its methods reassign. `TriangleGraph` keeps its map of
nodes and that map's insertion order, which is the order `getValues` enumerates.

Positions are exact reals: the geometric predicates are the source's formulas, with no
rounding.

## Model

| member | source | states |
|---|---|---|
| Geometry.Sign | delaunay.js:21-23 | definition of `sign`; its properties are stated by Geometry.SignIsOrientation and Geometry.SignsAreBarycentric |
| Geometry.PointInTriangle | delaunay.js:25-34 | definition of `pointInTriangle`; its properties are stated by Geometry.ConvexCombinationInside, Geometry.InsideIsConvexCombination, Geometry.CornersInside, Geometry.PointInTriangleRotation and Geometry.PointInTriangleReversed |
| Geometry.PointInCircle | delaunay.js:1-19 | definition of `pointInCircle`; its properties are stated by Geometry.PointInCircleStrictAtCorners, Geometry.PointInCircleRotation, Geometry.PointInCircleMeaning and Geometry.PointInCircleClockwise |
| Geometry.SignIsOrientation | delaunay.js:21-23 | `sign(p1, p2, p3)` is the orientation determinant of the three points |
| Geometry.SignsAreBarycentric | delaunay.js:25-34 | the three signs `pointInTriangle` computes add up to the triangle's orientation and, scaled by it, are the point's barycentric weights |
| Geometry.ConvexCombinationInside | delaunay.js:25-34 | every point of the closed triangle, corners and edges included, is reported inside |
| Geometry.CornersInside | delaunay.js:25-34 | each corner of a triangle is reported inside it |
| Geometry.InsideIsConvexCombination | delaunay.js:25-34 | in a non-degenerate triangle a point reported inside is a convex combination of the corners |
| Geometry.PointInTriangleRotation | delaunay.js:25-34 | rotating the corners does not change the answer |
| Geometry.PointInTriangleReversed | delaunay.js:25-34 | reversing the corners does not change the answer |
| Geometry.PointInCircleStrictAtCorners | delaunay.js:1-19 | none of a, b, c lies inside its own circle: the test is strict |
| Geometry.PointInCircleRotation | delaunay.js:1-19 | rotating a, b, c does not change the answer |
| Geometry.PointInCircleMeaning | delaunay.js:1-19 | for any point o equidistant (squared distance r2) from a, b, c, the determinant is negative iff (r2 - distance(p, o)^2) times the orientation of a, b, c is negative |
| Geometry.PointInCircleClockwise | delaunay.js:1-19 | for a clockwise triangle the test holds iff p lies strictly inside the circle through a, b, c |
| History.AddStep | delaunay.js:63-70 | definition of one iteration of `addNode`'s loop; its properties are stated by History.AddStepValid |
| History.AddAll | delaunay.js:62-71 | definition of `addNode`'s loop over all parent keys; its properties are stated by History.AddNodeFresh, History.AddAllFresh and History.AddNodeNoParent, and History.TriangleGraph.AddNode is proved equal to it |
| History.AddNodes | delaunay.js:343-356 | definition of several `addNode` calls in a row under the same parents; its properties are stated by History.AddNodesFresh and History.AddThreeFresh |
| History.TriangleGraph.constructor | delaunay.js:54-57 | the graph holds only the root node, childless, under its key |
| History.TriangleGraph.AddNode | delaunay.js:59-73 | returns true iff `parentKeys` is not empty; the new graph is the fold over the parent keys: at the first present parent a childless node is stored under `key`, and `key` is appended to every present parent's children; the graph stays well formed |
| History.TriangleGraph.Size | delaunay.js:79-81 | the number of nodes equals the length of the insertion order `getValues` walks |
| History.AddStepValid | delaunay.js:62-71 | one iteration of `addNode`'s loop keeps the map well formed |
| History.AddNodeFresh | delaunay.js:59-73 | with a fresh key: a node is created iff some parent is present; the keys grow by that key; the new node is childless; each present parent gains the key as its last child; no other node changes; the key is appended to the order |
| History.AddAllFresh | delaunay.js:62-71 | the same, from any point of the loop |
| History.AddNodeNoParent | delaunay.js:62-71 | when no parent is present, `addNode` changes nothing |
| History.AddNodesFresh | delaunay.js:343-356 | successive `addNode` calls with fresh distinct keys under present parents add exactly those nodes, childless, in order, each as a child of every parent |
| History.AddThreeFresh | delaunay.js:263-272 | three fresh keys under one present parent: three childless nodes, appended to the parent's children and to the order in key order; nothing else changes |
| History.AddFirstIsAddNodes | delaunay.js:243-273 | the graph after i rounds of a loop of `addNode` calls is that of `addNode` on the first i keys |
| History.DistinctCount | delaunay.js:79-81 | helper: a sequence without repetitions has as many elements as its set, the step that lets History.TriangleGraph.Size count nodes by the insertion order |
| Mesh.BootstrapPositions | delaunay.js:126-131 | definition of `tempPositions`; its orientation is stated by Mesh.BootstrapClockwise |
| Mesh.BootstrapHalfEdges | delaunay.js:157-191 | definition of the six bootstrap half-edges with the outer loop corrected to 3 -> 5 -> 4; its properties are stated by Mesh.BootstrapInv and Mesh.BootstrapShape |
| Mesh.BootstrapHalfEdgesAsWritten | delaunay.js:157-191 | definition of the six bootstrap half-edges exactly as written; its defect is stated by Mesh.OuterLoopAsWrittenMisdirected |
| Mesh.Bootstrap | delaunay.js:110-192 | definition of the state the constructor builds before `triangulate`; its properties are stated by Mesh.BootstrapInv and Mesh.BootstrapShape |
| Mesh.TriangleWalk | delaunay.js:396-411 | under the invariant, walking `next` from any half-edge with a face returns to it after three steps through three distinct vertices |
| Mesh.LeafIsCurrent | delaunay.js:368 | a history node is a leaf iff its face is a current face of the mesh |
| Mesh.InvNodesValid | delaunay.js:53-82 | under the invariant the history is a well-formed `TriangleGraph` holding the root key 0 |
| Mesh.BootstrapInv | delaunay.js:126-192 | the constructor's bounding triangle, with the outer loop linked in the direction of its twins, satisfies the invariant |
| Mesh.BootstrapShape | delaunay.js:132-192 | vertex ids 0, 1, 2 at the `FAR_AWAY` positions; six half-edges, twin an involution, prev the inverse of next; 0, 1, 2 bound face 0; 3, 4, 5 have no face and form a 3-cycle; the history is the root, childless |
| Mesh.BootstrapClockwise | delaunay.js:126-131 | the bounding triangle is clockwise |
| Mesh.OuterLoopAsWrittenMisdirected | delaunay.js:175-191 | as written, each outer half-edge is followed by one that does not start where it ends |
| Mesh.HistoryGrowsTransitive | delaunay.js:196-212 | extending the history twice extends it |
| Mesh.Corners | delaunay.js:414-428 | definition of the three corners `getFaceVertices` reads walking `next` from a half-edge; used by Mesh.NamesCorners |
| Mesh.NamesCorners | delaunay.js:414-428 | definition of "a triple lists the corners of a triangle, read from one of its three half-edges"; used by Mesh.CornersOk and Triangulation.LeafTrianglesCurrent |
| Mesh.CornersOk | delaunay.js:262-272 | definition of the invariant that a current face's history node records that face's corners; preserved by Mesh.BootstrapInv, Split.SplitCorners and Legalize.FlipCorners |
| Mesh.CornersKept | delaunay.js:214-356 | a face whose half-edges a step leaves alone and whose node keeps its triangle still has its corners recorded after the step |
| Split.SplitEdgeAt | delaunay.js:244-259 | definition of each half-edge record after the split; its properties are stated by Split.SplitRound, Split.SplitFaceCycle and Split.SplitRecords |
| Split.SplitTriples | delaunay.js:263 | definition of the triangles recorded for the three new nodes; stated by Split.SplitRound and Split.SplitNodes |
| Split.SplitState | delaunay.js:214-289 | definition of `splitTriangle` on states; its properties are stated by Split.SplitInv, Split.SplitRecords, Split.SplitNodes, Split.SplitFaces, Split.SplitTwins, Split.SplitShape, Split.SplitReady and Split.SplitGrows |
| Split.Boundary | delaunay.js:396-411 | the three half-edges of the face, starting at its incident edge, each the `next` of the one before |
| Split.BoundaryFacts | delaunay.js:241 | a current face's boundary is a 3-cycle of distinct half-edges on distinct vertices, all on that face, whose node is a leaf |
| Split.SplitNodes | delaunay.js:263-272 | the split adds three childless nodes (keys = their face indices) with the triangles (o_i origin, o_(i+1) origin, new vertex) as the only children of the split face's node; nothing else in the history changes |
| Split.SplitBounded | delaunay.js:214-283 | every index stays inside its arena |
| Split.SplitRecords | delaunay.js:243-281 | the new arena record by record; old twins and origins kept; three faces appended, face nf + i starting at new half-edge 2i |
| Split.SplitEdgeOkNew | delaunay.js:243-259 | the half-edge invariants hold at the six new and three relinked half-edges |
| Split.SplitEdgeOkOld | delaunay.js:214-283 | the half-edge invariants hold at every half-edge the split leaves alone |
| Split.SplitFaceOk | delaunay.js:243-281 | the face invariants hold at every face after the split |
| Split.SplitFaceOkOld | delaunay.js:243-281 | the face invariants hold after the split at every face that was there before it |
| Split.SplitFaceOkNew | delaunay.js:243-272 | the face invariants hold at the three new faces |
| Split.SplitCorners | delaunay.js:243-272 | after the split, each new face's node records that face's corners (o_i's corner, the next corner, the new vertex); every other current face still has its corners recorded |
| Split.SplitInv | delaunay.js:214-289 | splitting a current face keeps the invariant |
| Split.SplitFaces | delaunay.js:243-261 | new face nf + i is the 3-cycle o_i, 2i + 1, 2i, all three on that face; o is the face's boundary |
| Split.NewFaceCycle | delaunay.js:243-261 | definition of "face nf + i is the 3-cycle o_i, 2i + 1, 2i, all three on it"; stated for every new face by Split.SplitFaces |
| Split.SplitFaceCycle | delaunay.js:251-259 | the next and face links of the three half-edges of new face nf + i |
| Split.SplitTwins | delaunay.js:233-238 | the six new half-edges are three twin pairs among themselves |
| Split.SplitShape | delaunay.js:216 | the new vertex's id is the old vertex count and its position the point; the old vertices are kept; the split node gets the three new leaves as children |
| Split.SplitReady | delaunay.js:249-259 | each boundary half-edge o_i lies on new face nf + i, with the new vertex as the apex across it |
| Split.SplitGrows | delaunay.js:263-281 | a split only extends the history |
| Split.SplitRound | delaunay.js:244-263 | round i of the face loop writes exactly the records and the triangle the split state holds |
| Split.SplitBlankTwins | delaunay.js:219-238 | after the twin loop, each new half-edge's twin is another of the six and twin is an involution; even ones start at the new vertex, and none has a face |
| Split.SplitStageEnd | delaunay.js:243-280 | the face loop's arena, old and new half-edges concatenated, is the split state's |
| Split.SplitAssembled | delaunay.js:276-281 | the state assembled from the face loop's results is the split state and satisfies the invariant |
| Legalize.FlipEdgeAt | delaunay.js:313-341 | definition of each half-edge record after the flip; its properties are stated by Legalize.FlipRecords |
| Legalize.FlipTriples | delaunay.js:343-350 | definition of the triangles `getFaceVertices` reads off the two new faces; stated by Legalize.FlipNodes |
| Legalize.FlipState | delaunay.js:307-356 | definition of the flip branch of `legalizeEdge` on states; its properties are stated by Legalize.FlipInv, Legalize.FlipRecords, Legalize.FlipNodes, Legalize.FlipShrinks, Legalize.FlipReady and Legalize.FlipGrows |
| Legalize.QuadOf | delaunay.js:307-310 | the six half-edges a flip rewires are indices into the arena |
| Legalize.QuadFacts | delaunay.js:292-310 | around a flippable edge: two distinct current triangles, six distinct half-edges, four distinct vertices |
| Legalize.FlipRecords | delaunay.js:313-341 | the arena after the flip record by record; twins kept; faces L (from faceEdge2) and L + 1 (from faceEdge1) appended |
| Legalize.FlipNodes | delaunay.js:343-356 | the flip adds two childless nodes L and L + 1 as the only children of both old faces' nodes; nothing else in the history changes |
| Legalize.FlipBounded | delaunay.js:313-341 | every index stays inside its arena |
| Legalize.FlipEdgeOkSix | delaunay.js:313-341 | the half-edge invariants hold at the six rewired half-edges |
| Legalize.FlipEdgeOkOther | delaunay.js:313-341 | the half-edge invariants hold at every other half-edge |
| Legalize.FlipFaceOk | delaunay.js:332-356 | the face invariants hold at every face after the flip |
| Legalize.FlipCorners | delaunay.js:313-356 | after the flip, each new face's node records that face's corners exactly as walked from its incident edge; every other current face still has its corners recorded |
| Legalize.FlipFaceWalk | delaunay.js:344 | each new face can be walked as a 3-cycle, so `getFaceVertices` reads three corners |
| Legalize.FlipInv | delaunay.js:313-356 | a flip keeps the invariant |
| Legalize.FanClosed | delaunay.js:359-360 | a triangle around the new vertex is around it at all three of its edges |
| Legalize.FlipKeepsFan | delaunay.js:313-341 | a flip leaves alone every half-edge of the other triangles around the new vertex |
| Legalize.FlipShrinks | delaunay.js:359-360 | a flip strictly shrinks the set of half-edges with neither end at the new vertex, which bounds the recursion |
| Legalize.SubsetSmaller | delaunay.js:359-360 | helper: a proper subset is strictly smaller, the set-size step of Legalize.FlipShrinks' termination measure |
| Legalize.FlipReady | delaunay.js:359-360 | after a flip both recursive calls' edges have the new vertex as apex, on faces L and L + 1 |
| Legalize.FlipGrows | delaunay.js:332-356 | a flip only extends the history |
| Legalize.FarApexIsNotV | delaunay.js:298-306 | when the far apex is strictly inside the circle through the new vertex and the edge, it is not the new vertex, and the flip is possible |
| Legalize.FlipStep | delaunay.js:298-360 | the flip branch: the invariant kept, the history extended, the termination measure down, both recursive edges ready |
| Legalize.ReadyKept | delaunay.js:359-360 | an edge stays ready for `legalizeEdge` across a step that leaves its triangle alone |
| Legalize.FanThroughFlip | delaunay.js:359-360 | the flip and both recursive calls leave the rest of the fan around the new vertex alone |
| Legalize.LegalizeState | delaunay.js:291-362 | the recursion terminates, keeps the invariant, the vertices and the arena size, extends the history, and leaves the other triangles around the new vertex alone |
| Legalize.LegalizeNoFlip | delaunay.js:292-306 | with no face across the edge, or the far apex not strictly inside the circle, nothing changes |
| Legalize.LegalizeRecordsFlip | delaunay.js:332-356 | when it flips, faces L and L + 1 are added and recorded as the children of both old triangles |
| Legalize.LegalizeGrowsFlip | delaunay.js:332-360 | when `legalizeEdge` flips, its result extends the history of the flipped state |
| Legalize.FlipRecordsKept | delaunay.js:343-356 | the two new faces, and their place as the children of both old nodes, survive any later extension of the history |
| PointLocation.Inside | delaunay.js:372-377 | definition of the `pointInTriangle` test on a child's three corners; used by PointLocation.FirstInside and PointLocation.LocateFacts |
| PointLocation.FirstInside | delaunay.js:369-383 | the child the walk moves to is one of the children and contains the point; none is chosen iff no child contains it |
| PointLocation.FirstInsideIsFirst | delaunay.js:369-383 | the chosen child is the first match: every child before it fails the test |
| PointLocation.ChildrenOk | delaunay.js:371-376 | every child of a node is a later node whose triangle names existing vertices |
| PointLocation.Step | delaunay.js:368-385 | one round of the walk stays on a node of the history |
| PointLocation.Locate | delaunay.js:365-393 | the walk ends on a node of the history |
| PointLocation.Located | delaunay.js:365-393 | the walk from the root ends on a node that has a face |
| PointLocation.LocateStep | delaunay.js:386-391 | below the cap, a round at a node with children moves on and the walk continues from there |
| PointLocation.Rounds | delaunay.js:367-391 | the walk counts at most `SafetyCap - safety + 1` rounds, and none iff it starts at a leaf |
| PointLocation.LocateStopsAtCap | delaunay.js:386-391 | a walk that ends at a node with children has counted every round up to the cap |
| PointLocation.LocateFacts | delaunay.js:365-393 | the walk never moves back to an earlier key; unless it never left its start, the point lies in the triangle it ends on; it ends on a leaf iff that face is current |
| PointLocation.CoveredFurther | delaunay.js:368-385 | when the children of every node on the way cover the point, that still holds at the child the walk moves to |
| PointLocation.CoveredStep | delaunay.js:368-391 | under that cover condition a round moves to a strictly later node |
| PointLocation.LocateFindsLeaf | delaunay.js:368-392 | under that cover condition, and with rounds to spare, the walk ends at a leaf |
| Insert.SplitAndLegalize | delaunay.js:203-207 | definition of a split followed by the legalization of the three returned edges; its properties are stated by Insert.SplitAndLegalizeFacts |
| Insert.LegalizeFirst | delaunay.js:205-207 | legalizing the affected edges one after another keeps the invariant and extends the history; the edges not yet legalized stay ready and untouched |
| Insert.LegalizeKeepsRest | delaunay.js:205-207 | legalizing one affected edge leaves every later one ready and untouched |
| Insert.SplitSpread | delaunay.js:203-207 | after a split the three returned edges are ready for `legalizeEdge`, each on its own new face |
| Insert.SplitAndLegalizeFacts | delaunay.js:203-207 | a split followed by legalization keeps the invariant, extends the history, appends the new vertex and six half-edges |
| Insert.LocatedFace | delaunay.js:199 | the face returned carries the key of the node reached; the walk fails iff that face is not current |
| Insert.Inserted | delaunay.js:198-207 | a round that finds a current face keeps the invariant, extends the history and appends the point's vertex |
| Insert.InsertPoint | delaunay.js:198-207 | a round gives up iff the walk ends at a node with children; otherwise it keeps the invariant, extends the history and appends the point's vertex |
| Insert.PositionsAppended | delaunay.js:197-198 | a vertex for the first point, then vertices for a prefix of the rest, are vertices for a prefix of all the points |
| Insert.Triangulated | delaunay.js:196-212 | the loop keeps the invariant, extends the history and appends vertices for a prefix of the points, in order |
| Insert.TriangulatedFails | delaunay.js:199 | a round that gives up ends the loop |
| Insert.TriangulatedStep | delaunay.js:197-210 | a round that succeeds is followed by the rest of the loop from its state |
| Triangulation.Emitted | delaunay.js:445-451 | definition of the nodes `getTriangleData` reports: leaves with all corners at ids 3 and up; used by Triangulation.LeafTrianglesExactly |
| Triangulation.Rebased | delaunay.js:452 | definition of the re-basing by -3; used by Triangulation.LeafTrianglesExactly |
| Triangulation.LeafTriangles | delaunay.js:440-456 | definition of the triangle list `getTriangleData` builds; its properties are stated by Triangulation.LeafTrianglesExactly and Triangulation.LeafTrianglesCurrent |
| Triangulation.LeafTrianglesExactly | delaunay.js:440-453 | a triangle is listed iff some node in the order is a leaf with all corners at input points and re-bases to it |
| Triangulation.LeafTrianglesCurrent | delaunay.js:445-451 | every listed triangle is that of a current face: the face's three corners read around it from one of its half-edges, re-based; its three indices are distinct and name input points |
| Triangulation.Delaunay.constructor | delaunay.js:110-194 | the object is the corrected bounding triangle (outer loop 3 -> 5 -> 4, see Findings) followed by `Triangulated` over the points, which inserts them in order and stops at the first round whose location fails |
| Triangulation.Delaunay.GetFaceHalfEdges | delaunay.js:396-411 | the three half-edges of the face, in `next` order from its incident edge |
| Triangulation.Delaunay.GetFaceVertices | delaunay.js:414-429 | the three corners of the face, in `next` order from its incident edge |
| Triangulation.Delaunay.NewHalfEdges | delaunay.js:219-238 | six blank half-edges with their twins paired, even ones starting at the new vertex |
| Triangulation.Delaunay.LinkFace | delaunay.js:244-272 | one round of the split's face loop: the three records and the history as the round's closed form says |
| Triangulation.Delaunay.LinkNewFaces | delaunay.js:243-273 | the split's face loop: all nine records, the three faces and the three history nodes |
| Triangulation.Delaunay.SplitTriangle | delaunay.js:214-289 | the object becomes the split state; returns the new vertex's id and the face's three boundary half-edges |
| Triangulation.Delaunay.FlipLinks | delaunay.js:307-341 | the rewired half-edge arena is the flipped state's |
| Triangulation.Delaunay.RecordFlipFaces | delaunay.js:343-356 | the two new faces are appended and recorded under both old triangles' keys |
| Triangulation.Delaunay.FlipEdge | delaunay.js:307-356 | the object becomes the flipped state; returns the two edges the recursion continues on |
| Triangulation.Delaunay.LegalizeEdge | delaunay.js:291-362 | the object becomes `LegalizeState`, the recursion's result on values, and stays valid |
| Triangulation.Delaunay.ChildContaining | delaunay.js:369-384 | one round of the walk: the first child containing the point, or the node itself |
| Triangulation.Delaunay.ContainingTriangle | delaunay.js:365-393 | returns the face of the node the walk from the root reaches |
| Triangulation.Delaunay.InsertRound | delaunay.js:198-208 | inserts the point iff the walk reaches a current face, as `Inserted` says; otherwise changes nothing |
| Triangulation.Delaunay.LegalizeAll | delaunay.js:205-207 | legalizing the affected edges in order leaves the state of Insert.LegalizeFirst over all of them and keeps the invariant |
| Triangulation.Delaunay.Triangulate | delaunay.js:196-212 | the object becomes `Triangulated` of its old state and the points |
| Triangulation.Delaunay.GetTriangleData | delaunay.js:440-456 | the positions of the input points' vertices, in order, and exactly the listed leaf triangles, re-based, in history order |

## Left out

- `moving-triangles.js` and `src/test.js` are not part of this model: they are an animation and a drawing page that only call the core.
- `debugDraw`, `printFace`, the `debugCtx` field and the `console.error` diagnostics are left out: they are canvas and console output.
- Floating point is left out: positions are exact reals, so rounding in `pointInCircle` and `pointInTriangle` is not modelled.
- The Delaunay property of the final triangulation (no vertex strictly inside any current triangle's circumcircle) is not stated: the model proves the combinatorial invariant, termination and history growth, not the global empty-circle property.
- Graph nodes keep their children as keys, where the source keeps the child objects. The two differ only if a key is re-added, and every `addNode` call in the mesh uses a fresh key.
- The root node's triangle is modelled as the vertex ids 0, 1, 2. The source stores the three position objects there, unlike every other node. Once a point is inserted the root has children and is never reported. With zero input points, though, the root stays a leaf; the source's `v1 < 3` tests on position objects are false, so `getTriangleData` emits one triangle of `NaN` indices, while the model's `GetTriangleData` emits no triangle, since ids 0, 1, 2 are below 3.
- `Vertex.incEdge` is set when a vertex is created and never updated; the source does not maintain it after a flip either, and nothing in the core reads it.
- Half-edge links the source leaves `undefined` until they are set are modelled as 0, and faceless half-edges as `None`.
- Triangulation.Delaunay.FlipLinks: the source writes the six records of a flip field by field through object references; the model performs the same writes grouped by record on the arena. The result is proved equal to the flip state, but the order of the individual writes is not modelled.
- Triangulation.Delaunay.constructor: it builds the outer loop of the bounding triangle as 3 -> 5 -> 4 (the corrected links of the Findings row), not 3 -> 4 -> 5 as written, and it inserts the points only up to the first round whose location fails (see the next line).
- Insert.Triangulated: when the walk ends at a node with children (the point lies outside every child, or the 10000-round cap is hit), the source logs an error and splits that stale face anyway, corrupting the mesh. The model stops the loop there instead; `Triangulated` states that every point up to that round is inserted.
- PointLocation.LocateFindsLeaf: it requires that every node's children cover the point wherever its own triangle does (`Covered`). The model does not prove that a split or a flip keeps this geometric cover.
- Triangulation.Delaunay.GetFaceHalfEdges: the 10000-round safety cap of the walk is not reached under the invariant, which makes every face a 3-cycle; the method requires that walk (`FaceWalk`) rather than modelling the cap. The same holds for GetFaceVertices, whose cap throws.
- `getValues` is modelled by the graph's insertion order `order`, which `GetTriangleData` walks directly.

## Findings

| source | as written | input that shows it | evidently intended | confidence | as-written member | corrected member |
|---|---|---|---|---|---|---|
| delaunay.js:175-191 | the outer half-edges are linked 3 -> 4 -> 5 -> 3, but half-edge 3 (twin of 0, from vertex 0 to 1) runs from vertex 1 to vertex 0, and its `next` 4 starts at vertex 2 | the constructor with any points: `halfEdges[3]` ends at vertex 0, while `halfEdges[3].next.origin` is vertex 2 | the outer loop runs against the inner one: 3 -> 5 -> 4 -> 3, so that each outer half-edge is followed by one starting where it ends | not executed | Mesh.OuterLoopAsWrittenMisdirected | Mesh.BootstrapInv |
