/** The first two steps of the view-spot computation: the index from node id to the
    elements touching that node, and each element's neighbourhood. Elements are named by
    their position in the element list, which stands for the object identity the
    source's sets and `!==` test rely on. */
module Adjacency {
  import opened MeshTypes
  import opened LastWins

  /** The ids of the nodes. */
  function NodeIds(nodes: seq<MeshNode>): set<int> {
    set k | 0 <= k < |nodes| :: nodes[k].id
  }

  predicate Distinct(s: seq<nat>) {
    forall a, b :: 0 <= a < b < |s| ==> s[a] != s[b]
  }

  /** `elements.filter(e => e.nodes.includes(id))` restricted to positions `from..`, as positions. */
  function TouchingFrom(elements: seq<MeshElement>, id: int, from: nat): seq<nat>
    requires from <= |elements|
    decreases |elements| - from
  {
    if from == |elements| then []
    else (if id in elements[from].nodes then [from] else []) + TouchingFrom(elements, id, from + 1)
  }

  /** The filter keeps exactly the positions from `from` on whose element lists `id`, in
      increasing order. */
  lemma {:induction false} TouchingFromExact(elements: seq<MeshElement>, id: int, from: nat)
    requires from <= |elements|
    ensures forall x :: x in TouchingFrom(elements, id, from) <==> from <= x < |elements| && id in elements[x].nodes
    ensures forall a, b :: 0 <= a < b < |TouchingFrom(elements, id, from)| ==>
      TouchingFrom(elements, id, from)[a] < TouchingFrom(elements, id, from)[b]
    decreases |elements| - from
  {
    if from < |elements| {
      TouchingFromExact(elements, id, from + 1);
      var rest := TouchingFrom(elements, id, from + 1);
      assert forall b :: 0 <= b < |rest| ==> from < rest[b] by {
        forall b | 0 <= b < |rest| ensures from < rest[b] { assert rest[b] in rest; }
      }
    }
  }

  /** The elements touching node `id`, in element order. */
  function Touching(elements: seq<MeshElement>, id: int): seq<nat> {
    TouchingFrom(elements, id, 0)
  }

  lemma TouchingInRange(elements: seq<MeshElement>)
    ensures forall id, x :: x in Touching(elements, id) ==> x < |elements|
  {
    forall id, x | x in Touching(elements, id) ensures x < |elements| {
      TouchingFromExact(elements, id, 0);
    }
  }

  /** Every position stored under every id of `m` is a position of `elements`. */
  predicate InRange(elements: seq<MeshElement>, m: map<int, seq<nat>>) {
    forall id :: id in m ==> forall x :: x in m[id] ==> x < |elements|
  }

  /** The index from each node id to the elements that touch it. */
  function NodeIndex(nodes: seq<MeshNode>, elements: seq<MeshElement>): (r: map<int, seq<nat>>)
    ensures InRange(elements, r)
  {
    TouchingInRange(elements);
    map id | id in NodeIds(nodes) :: Touching(elements, id)
  }

  /** For each node, the index holds exactly the elements whose node list contains its id,
      each once, in element order; ids of no node are absent. */
  lemma NodeIndexExact(nodes: seq<MeshNode>, elements: seq<MeshElement>, id: int)
    ensures id in NodeIndex(nodes, elements) <==> exists k :: 0 <= k < |nodes| && nodes[k].id == id
    ensures id in NodeIndex(nodes, elements) ==>
      (forall x :: x in NodeIndex(nodes, elements)[id] <==> 0 <= x < |elements| && id in elements[x].nodes) &&
      Distinct(NodeIndex(nodes, elements)[id])
  {
    TouchingFromExact(elements, id, 0);
    if exists k :: 0 <= k < |nodes| && nodes[k].id == id {
      var k :| 0 <= k < |nodes| && nodes[k].id == id;
      assert id in NodeIds(nodes);
    }
  }

  /** `ids.flatMap(n => index.get(n))` with the `undefined` of an id missing from the index dropped. */
  function Gather(adj: map<int, seq<nat>>, ids: seq<int>): seq<nat>
  {
    if ids == [] then []
    else (if ids[0] in adj then adj[ids[0]] else []) + Gather(adj, ids[1..])
  }

  /** The flattened list holds the entries stored under each id of `ids` that has any. */
  lemma {:induction false} GatherMembers(adj: map<int, seq<nat>>, ids: seq<int>)
    ensures forall x :: x in Gather(adj, ids) <==> exists k :: 0 <= k < |ids| && ids[k] in adj && x in adj[ids[k]]
  {
    if ids != [] {
      GatherMembers(adj, ids[1..]);
      assert forall k :: 1 <= k < |ids| ==> ids[k] == ids[1..][k - 1];
    }
  }

  /** The insertion-ordered contents of a JavaScript set that held `acc` and to which each
      of `xs` other than `self` is added in turn. */
  function AddAll(acc: seq<nat>, xs: seq<nat>, self: nat): seq<nat>
    decreases |xs|
  {
    if xs == [] then acc
    else
      var next := if xs[0] != self && xs[0] !in acc then acc + [xs[0]] else acc;
      AddAll(next, xs[1..], self)
  }

  /** The set ends up holding what it held and every added value other than `self`. */
  lemma {:induction false} AddAllMembers(acc: seq<nat>, xs: seq<nat>, self: nat)
    ensures forall x :: x in AddAll(acc, xs, self) <==> x in acc || (x in xs && x != self)
    decreases |xs|
  {
    if xs != [] {
      var next := if xs[0] != self && xs[0] !in acc then acc + [xs[0]] else acc;
      AddAllMembers(next, xs[1..], self);
      assert forall x :: x in xs <==> x == xs[0] || x in xs[1..];
    }
  }

  /** Adding the values of `xs + ys` is adding those of `xs`, then those of `ys`. */
  lemma {:induction false} AddAllAppend(acc: seq<nat>, xs: seq<nat>, ys: seq<nat>, self: nat)
    ensures AddAll(acc, xs + ys, self) == AddAll(AddAll(acc, xs, self), ys, self)
    decreases |xs|
  {
    if xs != [] {
      var next := if xs[0] != self && xs[0] !in acc then acc + [xs[0]] else acc;
      assert (xs + ys)[1..] == xs[1..] + ys;
      AddAllAppend(next, xs[1..], ys, self);
    } else {
      assert xs + ys == ys;
    }
  }

  /** A set holds each value once, and never `self` if it did not at the start. */
  lemma {:induction false} AddAllDistinct(acc: seq<nat>, xs: seq<nat>, self: nat)
    requires Distinct(acc) && self !in acc
    ensures Distinct(AddAll(acc, xs, self)) && self !in AddAll(acc, xs, self)
    decreases |xs|
  {
    if xs != [] {
      var next := if xs[0] != self && xs[0] !in acc then acc + [xs[0]] else acc;
      AddAllDistinct(next, xs[1..], self);
    }
  }

  /** The neighbourhood of element `i` as the source builds it, given the node index. */
  function NeighbourList(adj: map<int, seq<nat>>, elements: seq<MeshElement>, i: nat): seq<nat>
    requires i < |elements|
  {
    AddAll([], Gather(adj, elements[i].nodes), i)
  }

  /** Element `a` lists a node id that is the id of some node and that `b` lists too. */
  predicate SharesKnownNode(nodes: seq<MeshNode>, a: MeshElement, b: MeshElement) {
    exists k :: 0 <= k < |a.nodes| && a.nodes[k] in NodeIds(nodes) && a.nodes[k] in b.nodes
  }

  /** The neighbourhood of element `i`: the other elements sharing with it a node id of some node. */
  function Neighbours(nodes: seq<MeshNode>, elements: seq<MeshElement>, i: nat): set<nat>
    requires i < |elements|
  {
    set j: nat | j < |elements| && j != i && SharesKnownNode(nodes, elements[i], elements[j])
  }

  /** The list the source builds for element `i` holds each neighbour of `i` exactly once
      and nothing else; node ids of no node contribute nothing. */
  lemma NeighbourListExact(nodes: seq<MeshNode>, elements: seq<MeshElement>, i: nat)
    requires i < |elements|
    ensures forall x :: x in NeighbourList(NodeIndex(nodes, elements), elements, i) <==> x in Neighbours(nodes, elements, i)
    ensures Distinct(NeighbourList(NodeIndex(nodes, elements), elements, i))
  {
    var adj := NodeIndex(nodes, elements);
    var e := elements[i];
    AddAllMembers([], Gather(adj, e.nodes), i);
    AddAllDistinct([], Gather(adj, e.nodes), i);
    GatherMembers(adj, e.nodes);
    forall x
      ensures x in NeighbourList(adj, elements, i) <==> x in Neighbours(nodes, elements, i)
    {
      if x in NeighbourList(adj, elements, i) {
        var k :| 0 <= k < |e.nodes| && e.nodes[k] in adj && x in adj[e.nodes[k]];
        TouchingFromExact(elements, e.nodes[k], 0);
        assert SharesKnownNode(nodes, e, elements[x]);
      }
      if x in Neighbours(nodes, elements, i) {
        var k :| 0 <= k < |e.nodes| && e.nodes[k] in NodeIds(nodes) && e.nodes[k] in elements[x].nodes;
        TouchingFromExact(elements, e.nodes[k], 0);
        assert x in adj[e.nodes[k]];
      }
    }
  }

  /** Neighbourhood is symmetric. */
  lemma NeighboursSymmetric(nodes: seq<MeshNode>, elements: seq<MeshElement>, i: nat, j: nat)
    requires i < |elements| && j < |elements|
    ensures j in Neighbours(nodes, elements, i) <==> i in Neighbours(nodes, elements, j)
  {
    if j in Neighbours(nodes, elements, i) {
      var k :| 0 <= k < |elements[i].nodes| && elements[i].nodes[k] in NodeIds(nodes) && elements[i].nodes[k] in elements[j].nodes;
      var t :| 0 <= t < |elements[j].nodes| && elements[j].nodes[t] == elements[i].nodes[k];
      assert SharesKnownNode(nodes, elements[j], elements[i]);
    }
    if i in Neighbours(nodes, elements, j) {
      var k :| 0 <= k < |elements[j].nodes| && elements[j].nodes[k] in NodeIds(nodes) && elements[j].nodes[k] in elements[i].nodes;
      var t :| 0 <= t < |elements[i].nodes| && elements[i].nodes[t] == elements[j].nodes[k];
      assert SharesKnownNode(nodes, elements[i], elements[j]);
    }
  }

  /** The `set(element.id, neighbourhood)` calls, one per element in order. */
  function NeighbourhoodPairs(adj: map<int, seq<nat>>, elements: seq<MeshElement>): seq<(int, seq<nat>)> {
    seq(|elements|, i requires 0 <= i < |elements| => (elements[i].id, NeighbourList(adj, elements, i)))
  }

  /** The map from element id to neighbourhood: for an id borne by several elements the
      neighbourhood of the last of them. */
  function Neighbourhoods(adj: map<int, seq<nat>>, elements: seq<MeshElement>): (r: map<int, seq<nat>>)
    ensures InRange(elements, adj) ==> InRange(elements, r)
    ensures r.Keys == ElementIds(elements)
  {
    NeighbourhoodsInRange(adj, elements);
    NeighbourhoodKeys(adj, elements);
    Assign(NeighbourhoodPairs(adj, elements))
  }

  /** The ids of the elements. */
  function ElementIds(elements: seq<MeshElement>): set<int> {
    set i | 0 <= i < |elements| :: elements[i].id
  }

  lemma NeighbourhoodKeys(adj: map<int, seq<nat>>, elements: seq<MeshElement>)
    ensures Assign(NeighbourhoodPairs(adj, elements)).Keys == ElementIds(elements)
  {
    var ps := NeighbourhoodPairs(adj, elements);
    forall id ensures id in Assign(ps) <==> id in ElementIds(elements) {
      AssignKeys(ps, id);
      if id in ElementIds(elements) {
        var i :| 0 <= i < |elements| && elements[i].id == id;
        assert ps[i].0 == id;
      }
    }
  }

  /** `i` is the last element bearing its id. */
  predicate IsLastWithId(elements: seq<MeshElement>, i: int) {
    0 <= i < |elements| && forall j :: i < j < |elements| ==> elements[j].id != elements[i].id
  }

  /** The neighbourhood map has a key for every element id; under it, the neighbours of
      the last element with that id, each once. */
  lemma NeighbourhoodsExact(nodes: seq<MeshNode>, elements: seq<MeshElement>, id: int)
    ensures var nbh := Neighbourhoods(NodeIndex(nodes, elements), elements);
      (id in nbh <==> exists i :: 0 <= i < |elements| && elements[i].id == id) &&
      (id in nbh ==>
         exists i ::
           IsLastWithId(elements, i) && elements[i].id == id && Distinct(nbh[id]) &&
           (forall x :: x in nbh[id] <==> x in Neighbours(nodes, elements, i)))
  {
    var adj := NodeIndex(nodes, elements);
    var ps := NeighbourhoodPairs(adj, elements);
    AssignKeys(ps, id);
    if id in Assign(ps) {
      AssignValues(ps, id);
      var i :| IsLastFor(ps, i) && ps[i].0 == id && Assign(ps)[id] == ps[i].1;
      assert IsLastWithId(elements, i) by {
        forall j | i < j < |elements| ensures elements[j].id != elements[i].id {
          assert ps[j].0 == elements[j].id;
        }
      }
      NeighbourListExact(nodes, elements, i);
    }
    if exists i :: 0 <= i < |elements| && elements[i].id == id {
      var i :| 0 <= i < |elements| && elements[i].id == id;
      assert ps[i].0 == id;
    }
  }

  lemma NeighbourListInRange(adj: map<int, seq<nat>>, elements: seq<MeshElement>, i: nat)
    requires i < |elements|
    requires InRange(elements, adj)
    ensures forall x :: x in NeighbourList(adj, elements, i) ==> x < |elements|
  {
    var ids := elements[i].nodes;
    AddAllMembers([], Gather(adj, ids), i);
    GatherMembers(adj, ids);
    forall x | x in NeighbourList(adj, elements, i) ensures x < |elements| {
      assert x in Gather(adj, ids);
      var k :| 0 <= k < |ids| && ids[k] in adj && x in adj[ids[k]];
      var id := ids[k];
      assert id in adj;
      assert x in adj[id];
    }
  }

  /** Every position stored in the neighbourhood map is a position of the element list. */
  lemma NeighbourhoodsInRange(adj: map<int, seq<nat>>, elements: seq<MeshElement>)
    ensures InRange(elements, adj) ==> InRange(elements, Assign(NeighbourhoodPairs(adj, elements)))
  {
    var ps := NeighbourhoodPairs(adj, elements);
    forall id | InRange(elements, adj) && id in Assign(ps)
      ensures forall x :: x in Assign(ps)[id] ==> x < |elements|
    {
      AssignValues(ps, id);
      var i :| IsLastFor(ps, i) && ps[i].0 == id && Assign(ps)[id] == ps[i].1;
      assert ps[i].1 == NeighbourList(adj, elements, i);
      NeighbourListInRange(adj, elements, i);
    }
  }
}
