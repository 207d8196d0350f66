/** The point-location history (`Node`, `TriangleGraph`): every triangle the triangulation
    ever created, keyed by its face key, with append-only child lists. */
module History {

  /** The three vertex ids of a triangle. */
  datatype Triple = Triple(v1: nat, v2: nat, v3: nat)

  /** A history node: its key, its triangle's vertex ids, and the keys of its children
      in the order they were added. A node without children is a current triangle. */
  datatype Node = Node(key: nat, vertices: Triple, children: seq<nat>)

  /** The state `addNode` threads through its loop over the parent keys: the map of nodes,
      the map's insertion order, and whether the new node has been created yet. */
  datatype AddState = AddState(nodes: map<nat, Node>, order: seq<nat>, created: bool)

  /** One iteration of `addNode`'s loop, for the parent key p. The parent is looked up
      before the new node is stored under `key`; so when p == key and the new node is
      created in this very iteration, the child lands on the node just replaced, which
      is no longer in the map. */
  function AddStep(s: AddState, p: nat, key: nat, vertices: Triple): AddState
  {
    if p !in s.nodes then s
    else
      var replaced := !s.created && p == key;
      var nodes1 := if s.created then s.nodes else s.nodes[key := Node(key, vertices, [])];
      var order1 := if s.created || key in s.nodes then s.order else s.order + [key];
      var nodes2 := if replaced then nodes1
                    else nodes1[p := nodes1[p].(children := nodes1[p].children + [key])];
      AddState(nodes2, order1, true)
  }

  /** `addNode`'s loop over all of `parents`, in order. */
  function AddAll(s: AddState, parents: seq<nat>, key: nat, vertices: Triple): AddState
    decreases |parents|
  {
    if parents == [] then s
    else AddAll(AddStep(s, parents[0], key, vertices), parents[1..], key, vertices)
  }

  /** No key occurs twice in s. */
  predicate Distinct(s: seq<nat>)
  {
    forall i, j :: 0 <= i < j < |s| ==> s[i] != s[j]
  }

  /** The well-formedness of a map of nodes with its insertion order: each node is stored
      under its own key, and `order` lists every key exactly once. */
  ghost predicate NodesValid(nodes: map<nat, Node>, order: seq<nat>)
  {
    (forall k :: k in nodes ==> nodes[k].key == k) &&
    (forall i :: 0 <= i < |order| ==> order[i] in nodes) &&
    (forall k :: k in nodes ==> k in order) &&
    Distinct(order)
  }

  /** The set of the elements of s. */
  function Elements(s: seq<nat>): set<nat>
  {
    set x | x in s
  }

  /** A distinct sequence has as many elements as the set of its elements. */
  lemma {:induction false} DistinctCount(s: seq<nat>)
    requires Distinct(s)
    ensures |Elements(s)| == |s|
  {
    if s != [] {
      DistinctCount(s[1..]);
      assert Elements(s) == Elements(s[1..]) + {s[0]};
      assert s[0] !in Elements(s[1..]);
    }
  }

  /** A single step keeps the map well formed. */
  lemma AddStepValid(s: AddState, p: nat, key: nat, vertices: Triple)
    requires NodesValid(s.nodes, s.order)
    requires s.created ==> key in s.nodes
    ensures var r := AddStep(s, p, key, vertices);
            NodesValid(r.nodes, r.order) && (r.created ==> key in r.nodes)
  {
    if p in s.nodes && !s.created && key !in s.nodes {
      var order1 := s.order + [key];
      assert forall i :: 0 <= i < |s.order| ==> order1[i] == s.order[i];
      assert key !in s.order;
    }
  }

  /** `addNode` with a fresh key, none of whose parents is the key itself, and no parent
      listed twice: the new node is stored iff some parent is present; it is then a
      childless node under `key`, appended once to the children of each present parent
      and added at the end of the insertion order; absent parents are skipped and every
      other node is untouched. */
  lemma AddNodeFresh(nodes: map<nat, Node>, order: seq<nat>, parents: seq<nat>, key: nat, vertices: Triple)
    requires key !in nodes && key !in parents && Distinct(parents)
    ensures var r := AddAll(AddState(nodes, order, false), parents, key, vertices);
            && (r.created <==> exists p :: p in parents && p in nodes)
            && r.nodes.Keys == nodes.Keys + (if r.created then {key} else {})
            && (r.created ==> r.nodes[key] == Node(key, vertices, []))
            && (forall k :: k in nodes ==>
                  r.nodes[k] == if k in parents then nodes[k].(children := nodes[k].children + [key])
                                else nodes[k])
            && r.order == order + (if r.created then [key] else [])
  {
    AddAllFresh(AddState(nodes, order, false), parents, key, vertices);
  }

  /** The induction behind `AddNodeFresh`, from any point of the loop. */
  lemma {:induction false} AddAllFresh(s: AddState, parents: seq<nat>, key: nat, vertices: Triple)
    requires key !in parents && Distinct(parents)
    requires s.created ==> key in s.nodes && s.nodes[key] == Node(key, vertices, [])
    requires !s.created ==> key !in s.nodes
    ensures var r := AddAll(s, parents, key, vertices);
            && (r.created <==> s.created || exists p :: p in parents && p in s.nodes)
            && r.nodes.Keys == s.nodes.Keys + (if r.created then {key} else {})
            && (r.created ==> r.nodes[key] == Node(key, vertices, []))
            && (forall k :: k in s.nodes ==>
                  r.nodes[k] == if k in parents then s.nodes[k].(children := s.nodes[k].children + [key])
                                else s.nodes[k])
            && r.order == s.order + (if r.created && !s.created then [key] else [])
    decreases |parents|
  {
    if parents != [] {
      var p := parents[0];
      var s1 := AddStep(s, p, key, vertices);
      assert Distinct(parents[1..]) && key !in parents[1..];
      AddAllFresh(s1, parents[1..], key, vertices);
      forall k | k in s.nodes
        ensures k in parents[1..] ==> k != p
      {
      }
      assert forall q :: q in parents <==> q == p || q in parents[1..];
    }
  }

  /** Several `addNode` calls in a row with the same parents: keys[i] with triangle tris[i],
      in order. */
  function AddNodes(nodes: map<nat, Node>, order: seq<nat>, parents: seq<nat>, keys: seq<nat>, tris: seq<Triple>): AddState
    requires |keys| == |tris|
    decreases |keys|
  {
    if keys == [] then AddState(nodes, order, false)
    else
      var r := AddNodes(nodes, order, parents, keys[..|keys| - 1], tris[..|tris| - 1]);
      AddAll(AddState(r.nodes, r.order, false), parents, keys[|keys| - 1], tris[|tris| - 1])
  }

  /** Adding the first i + 1 keys is adding the first i, then key i. */
  lemma AddNodesSnoc(nodes: map<nat, Node>, order: seq<nat>, parents: seq<nat>, keys: seq<nat>, tris: seq<Triple>, i: nat)
    requires |keys| == |tris| && i < |keys|
    ensures var r := AddNodes(nodes, order, parents, keys[..i], tris[..i]);
            AddNodes(nodes, order, parents, keys[..i + 1], tris[..i + 1])
            == AddAll(AddState(r.nodes, r.order, false), parents, keys[i], tris[i])
  {
    assert keys[..i + 1][..i] == keys[..i] && tris[..i + 1][..i] == tris[..i];
  }

  /** The first i of those `addNode` calls, added one at a time: the state of a loop that
      makes one call per round. */
  function AddFirst(nodes: map<nat, Node>, order: seq<nat>, parents: seq<nat>, keys: seq<nat>, tris: seq<Triple>, i: nat): AddState
    requires |keys| == |tris| && i <= |keys|
  {
    if i == 0 then AddState(nodes, order, false)
    else
      var r := AddFirst(nodes, order, parents, keys, tris, i - 1);
      AddAll(AddState(r.nodes, r.order, false), parents, keys[i - 1], tris[i - 1])
  }

  /** The first i calls are `AddNodes` on the first i keys; all of them are `AddNodes`. */
  lemma {:induction false} AddFirstIsAddNodes(nodes: map<nat, Node>, order: seq<nat>, parents: seq<nat>, keys: seq<nat>, tris: seq<Triple>, i: nat)
    requires |keys| == |tris| && i <= |keys|
    ensures AddFirst(nodes, order, parents, keys, tris, i) == AddNodes(nodes, order, parents, keys[..i], tris[..i])
    ensures i == |keys| ==> AddFirst(nodes, order, parents, keys, tris, i) == AddNodes(nodes, order, parents, keys, tris)
  {
    if i > 0 {
      AddFirstIsAddNodes(nodes, order, parents, keys, tris, i - 1);
      AddNodesSnoc(nodes, order, parents, keys, tris, i - 1);
    } else {
      assert keys[..0] == [] && tris[..0] == [];
    }
    assert keys[..|keys|] == keys && tris[..|tris|] == tris;
  }

  /** r is what adding the fresh `keys` (with triangles `tris`) under `parents` makes of
      nodes and order: each key holds a childless node with its triangle, each parent's
      children grow by all the keys in order, every other node is untouched, and the keys
      are appended to the insertion order. */
  ghost predicate Grown(r: AddState, nodes: map<nat, Node>, order: seq<nat>, parents: seq<nat>, keys: seq<nat>, tris: seq<Triple>)
    requires |keys| == |tris|
  {
    && r.nodes.Keys == nodes.Keys + Elements(keys)
    && (forall i :: 0 <= i < |keys| ==> r.nodes[keys[i]] == Node(keys[i], tris[i], []))
    && (forall k :: k in nodes ==>
          r.nodes[k] == if k in parents then nodes[k].(children := nodes[k].children + keys)
                        else nodes[k])
    && r.order == order + keys
  }

  /** Adding fresh, distinct keys under present, distinct parents grows the graph as
      `Grown` says. */
  lemma {:induction false} AddNodesFresh(nodes: map<nat, Node>, order: seq<nat>, parents: seq<nat>, keys: seq<nat>, tris: seq<Triple>)
    requires |keys| == |tris| && |parents| > 0
    requires Distinct(keys) && Distinct(parents)
    requires forall p :: p in parents ==> p in nodes
    requires forall k :: k in keys ==> k !in nodes && k !in parents
    ensures Grown(AddNodes(nodes, order, parents, keys, tris), nodes, order, parents, keys, tris)
    decreases |keys|
  {
    if keys != [] {
      var n := |keys| - 1;
      var ks, ts := keys[..n], tris[..n];
      assert Distinct(ks);
      assert forall k :: k in ks ==> k in keys;
      AddNodesFresh(nodes, order, parents, ks, ts);
      var r := AddNodes(nodes, order, parents, ks, ts);
      assert keys[n] !in ks;
      assert ks + [keys[n]] == keys && ts + [tris[n]] == tris;
      AddOneFresh(r, nodes, order, parents, ks, ts, keys[n], tris[n]);
    }
  }

  /** Three fresh keys added under one present parent: what `splitTriangle` records. */
  lemma AddThreeFresh(nodes: map<nat, Node>, order: seq<nat>, k: nat, nf: nat, tr: seq<Triple>)
    requires |tr| == 3 && k in nodes && k < nf
    requires nf !in nodes && nf + 1 !in nodes && nf + 2 !in nodes
    ensures var g := AddNodes(nodes, order, [k], [nf, nf + 1, nf + 2], tr);
            && g.nodes.Keys == nodes.Keys + {nf, nf + 1, nf + 2}
            && (forall i :: 0 <= i < 3 ==> g.nodes[nf + i] == Node(nf + i, tr[i], []))
            && g.nodes[k] == nodes[k].(children := nodes[k].children + [nf, nf + 1, nf + 2])
            && (forall j :: j in nodes && j != k ==> g.nodes[j] == nodes[j])
            && g.order == order + [nf, nf + 1, nf + 2]
  {
    var keys := [nf, nf + 1, nf + 2];
    AddNodesFresh(nodes, order, [k], keys, tr);
    assert Elements(keys) == {nf, nf + 1, nf + 2};
    forall i | 0 <= i < 3
      ensures AddNodes(nodes, order, [k], keys, tr).nodes[nf + i] == Node(nf + i, tr[i], [])
    {
      assert keys[i] == nf + i;
    }
  }

  /** The step of `AddNodesFresh`: one more fresh key. */
  lemma AddOneFresh(r: AddState, nodes: map<nat, Node>, order: seq<nat>, parents: seq<nat>, ks: seq<nat>, ts: seq<Triple>, key: nat, t: Triple)
    requires |ks| == |ts| && |parents| > 0 && Distinct(parents)
    requires Grown(r, nodes, order, parents, ks, ts)
    requires forall p :: p in parents ==> p in nodes
    requires key !in nodes && key !in ks && key !in parents
    requires forall k :: k in ks ==> k !in parents
    ensures Grown(AddAll(AddState(r.nodes, r.order, false), parents, key, t), nodes, order, parents, ks + [key], ts + [t])
  {
    assert key !in r.nodes;
    AddNodeFresh(r.nodes, r.order, parents, key, t);
    assert parents[0] in parents && parents[0] in r.nodes;
    GrownSnoc(r, AddAll(AddState(r.nodes, r.order, false), parents, key, t), nodes, order, parents, ks, ts, key, t);
  }

  /** `Grown` for one more key, from what adding that key did to the graph. */
  lemma GrownSnoc(r: AddState, r2: AddState, nodes: map<nat, Node>, order: seq<nat>, parents: seq<nat>, ks: seq<nat>, ts: seq<Triple>, key: nat, t: Triple)
    requires |ks| == |ts| && Grown(r, nodes, order, parents, ks, ts)
    requires key !in nodes && key !in ks && forall k :: k in ks ==> k !in parents
    requires r2.created
    requires r2.nodes.Keys == r.nodes.Keys + (if r2.created then {key} else {})
    requires r2.created ==> r2.nodes[key] == Node(key, t, [])
    requires forall k :: k in r.nodes ==>
               r2.nodes[k] == if k in parents then r.nodes[k].(children := r.nodes[k].children + [key])
                              else r.nodes[k]
    requires r2.order == r.order + (if r2.created then [key] else [])
    ensures Grown(r2, nodes, order, parents, ks + [key], ts + [t])
  {
    var keys, tris := ks + [key], ts + [t];
    assert Elements(keys) == Elements(ks) + {key};
    forall i | 0 <= i < |keys|
      ensures r2.nodes[keys[i]] == Node(keys[i], tris[i], [])
    {
      if i < |ks| {
        assert keys[i] == ks[i] && tris[i] == ts[i];
        assert keys[i] !in parents;
        assert keys[i] in r.nodes;
      }
    }
    forall k | k in nodes
      ensures r2.nodes[k] == if k in parents then nodes[k].(children := nodes[k].children + keys)
                             else nodes[k]
    {
      if k in parents {
        assert nodes[k].children + ks + [key] == nodes[k].children + keys;
      }
    }
  }


  /** `addNode` when no parent is present: nothing changes. */
  lemma {:induction false} AddNodeNoParent(s: AddState, parents: seq<nat>, key: nat, vertices: Triple)
    requires !s.created
    requires forall p :: p in parents ==> p !in s.nodes
    ensures AddAll(s, parents, key, vertices) == s
    decreases |parents|
  {
    if parents != [] {
      assert AddStep(s, parents[0], key, vertices) == s;
      AddNodeNoParent(s, parents[1..], key, vertices);
    }
  }

  /** The `TriangleGraph` class: a map from keys to nodes. `order` is the map's insertion
      order, in which `getValues` enumerates the nodes. */
  class TriangleGraph {
    var nodes: map<nat, Node>
    var order: seq<nat>

    ghost predicate Valid()
      reads this
    {
      NodesValid(nodes, order)
    }

    /** A graph holding the single root node. */
    constructor (key: nat, vertices: Triple)
      ensures Valid()
      ensures nodes == map[key := Node(key, vertices, [])] && order == [key]
    {
      nodes := map[key := Node(key, vertices, [])];
      order := [key];
    }

    /** `addNode`: store a new childless node under `key` and append it to the children of
      every present parent; false, with nothing changed, when `parentKeys` is empty. */
    method AddNode(parentKeys: seq<nat>, key: nat, vertices: Triple) returns (ok: bool)
      requires Valid()
      modifies this
      ensures Valid()
      ensures ok <==> |parentKeys| > 0
      ensures var r := AddAll(AddState(old(nodes), old(order), false), parentKeys, key, vertices);
              nodes == r.nodes && order == r.order
    {
      if |parentKeys| == 0 {
        return false;
      }
      var created := false;
      var i := 0;
      while i < |parentKeys|
        invariant 0 <= i <= |parentKeys|
        invariant NodesValid(nodes, order) && (created ==> key in nodes)
        invariant AddAll(AddState(nodes, order, created), parentKeys[i..], key, vertices)
                  == AddAll(AddState(old(nodes), old(order), false), parentKeys, key, vertices)
      {
        ghost var before := AddState(nodes, order, created);
        var parentKey := parentKeys[i];
        if parentKey in nodes {
          // the parent node is fetched before the new node may replace it under `key`
          var replaced := !created && parentKey == key;
          if !created {
            if key !in nodes {
              order := order + [key];
            }
            nodes := nodes[key := Node(key, vertices, [])];
            created := true;
          }
          if !replaced {
            nodes := nodes[parentKey := nodes[parentKey].(children := nodes[parentKey].children + [key])];
          }
        }
        AddStepValid(before, parentKey, key, vertices);
        assert AddState(nodes, order, created) == AddStep(before, parentKey, key, vertices);
        assert parentKeys[i..][1..] == parentKeys[i + 1..];
        i := i + 1;
      }
      return true;
    }

    /** `size`: the number of nodes, which is the length of the insertion order. */
    function Size(): (n: nat)
      reads this
      requires Valid()
      ensures n == |order|
    {
      assert nodes.Keys == Elements(order);
      DistinctCount(order);
      |nodes|
    }
  }
}
