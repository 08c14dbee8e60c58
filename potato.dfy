/** The current version of the mesh class: construction with optional reference checks
    and the element-to-value map, the value lookup with its negative-infinity fallback,
    and the view-spot computation in its four steps. */
module Potato {
  import opened MeshTypes
  import opened LastWins
  import opened References
  import opened Adjacency
  import opened Ranking

  lemma NodeIdsStep(nodes: seq<MeshNode>, k: nat)
    requires k < |nodes|
    ensures NodeIds(nodes[..k + 1]) == NodeIds(nodes[..k]) + {nodes[k].id}
  {
    var a, b := nodes[..k + 1], nodes[..k];
    forall id ensures id in NodeIds(a) <==> id in NodeIds(b) + {nodes[k].id} {
      if id in NodeIds(a) {
        var j :| 0 <= j < |a| && a[j].id == id;
        if j < k {
          assert b[j].id == id;
        }
      }
      if id in NodeIds(b) {
        var j :| 0 <= j < |b| && b[j].id == id;
        assert a[j].id == id;
      }
      if id == nodes[k].id {
        assert a[k].id == id;
      }
    }
  }

  lemma ElementIdsStep(elements: seq<MeshElement>, i: nat)
    requires i < |elements|
    ensures ElementIds(elements[..i + 1]) == ElementIds(elements[..i]) + {elements[i].id}
  {
    var a, b := elements[..i + 1], elements[..i];
    forall id ensures id in ElementIds(a) <==> id in ElementIds(b) + {elements[i].id} {
      if id in ElementIds(a) {
        var j :| 0 <= j < |a| && a[j].id == id;
        if j < i {
          assert b[j].id == id;
        }
      }
      if id in ElementIds(b) {
        var j :| 0 <= j < |b| && b[j].id == id;
        assert a[j].id == id;
      }
      if id == elements[i].id {
        assert a[i].id == id;
      }
    }
  }

  /** The view-spot marks of the ids in `ids`. */
  function PeakMarks(vmap: map<int, real>, elements: seq<MeshElement>, nbh: map<int, seq<nat>>, ids: set<int>): map<int, bool>
    requires InRange(elements, nbh) && ids <= nbh.Keys
  {
    map id | id in ids :: IsPeak(vmap, elements, id, nbh[id])
  }

  lemma PeakMarksAdd(vmap: map<int, real>, elements: seq<MeshElement>, nbh: map<int, seq<nat>>, ids: set<int>, id: int)
    requires InRange(elements, nbh) && ids <= nbh.Keys && id in nbh
    ensures PeakMarks(vmap, elements, nbh, ids + {id}) == PeakMarks(vmap, elements, nbh, ids)[id := IsPeak(vmap, elements, id, nbh[id])]
  {
  }

  class Mesh {
    var nodes: seq<MeshNode>
    var elements: seq<MeshElement>
    var values: seq<MeshValue>
    var elementToValue: map<int, real>

    /** The element-to-value map is the one the value records give, last record winning. */
    ghost predicate Valid()
      reads this
    {
      elementToValue == ValueMap(values)
    }

    /** Construction without reference checks (`sanityCheck` false, the default): stores
        the inputs and fills the element-to-value map one record at a time. It never fails. */
    constructor (nodes: seq<MeshNode>, elements: seq<MeshElement>, values: seq<MeshValue>)
      ensures Valid()
      ensures this.nodes == nodes && this.elements == elements && this.values == values
    {
      this.nodes := nodes;
      this.elements := elements;
      this.values := values;
      elementToValue := map[];
      new;
      var i := 0;
      while i < |values|
        invariant 0 <= i <= |values|
        invariant this.nodes == nodes && this.elements == elements && this.values == values
        invariant elementToValue == Assign(ValuePairs(values)[..i])
      {
        AssignStep(ValuePairs(values), i);
        elementToValue := elementToValue[values[i].elementId := values[i].value];
        i := i + 1;
      }
      assert ValuePairs(values)[..|values|] == ValuePairs(values);
    }

    /** `new Mesh(nodes, elements, values, sanityCheck)`: when asked to, throws the first
        reference error; otherwise constructs the mesh. */
    static method Create(nodes: seq<MeshNode>, elements: seq<MeshElement>, values: seq<MeshValue>, sanityCheck: bool)
      returns (r: Result<Mesh, ReferenceError>)
      ensures r.Failure? <==> sanityCheck && !(NodeRefsValid(nodes, elements) && ElementRefsValid(elements, values))
      ensures r.Failure? ==> FirstReferenceError(nodes, elements, values) == Some(r.error)
      ensures r.Success? ==> fresh(r.value) && r.value.Valid()
      ensures r.Success? ==> r.value.nodes == nodes && r.value.elements == elements && r.value.values == values
    {
      NoReferenceErrorIff(nodes, elements, values);
      if sanityCheck {
        var err := CheckReferences(nodes, elements, values);
        if err.Some? {
          return Failure(err.value);
        }
      }
      var mesh := new Mesh(nodes, elements, values);
      return Success(mesh);
    }

    /** The value of element `id`: that of its last value record, or negative infinity
        when it has none. */
    function GetValueForElement(id: int): (r: Ext)
      reads this
      requires Valid()
      ensures r == NegInf <==> forall k :: 0 <= k < |values| ==> values[k].elementId != id
      ensures forall k :: IsLastValue(values, k) && values[k].elementId == id ==> r == Fin(values[k].value)
    {
      ValueOfLastRecord(values, id);
      ValueIn(elementToValue, id)
    }

    /** Step 1: for each node, the elements whose node list contains its id. */
    method BuildNodeIndex() returns (adj: map<int, seq<nat>>)
      ensures adj == NodeIndex(nodes, elements)
    {
      adj := map[];
      var k := 0;
      while k < |nodes|
        invariant 0 <= k <= |nodes|
        invariant adj == map id | id in NodeIds(nodes[..k]) :: Touching(elements, id)
      {
        var id := nodes[k].id;
        NodeIdsStep(nodes, k);
        adj := adj[id := Touching(elements, id)];
        k := k + 1;
      }
      assert nodes[..|nodes|] == nodes;
    }

    /** The neighbours of element `i`: the elements the index lists under its node ids,
        other than itself, each added once to a set. */
    method CollectNeighbours(adj: map<int, seq<nat>>, i: nat) returns (nb: seq<nat>)
      requires i < |elements|
      ensures nb == NeighbourList(adj, elements, i)
    {
      var flat := Gather(adj, elements[i].nodes);
      nb := [];
      var t := 0;
      while t < |flat|
        invariant 0 <= t <= |flat|
        invariant AddAll(nb, flat[t..], i) == AddAll([], flat, i)
      {
        assert flat[t..][1..] == flat[t + 1..];
        var e := flat[t];
        if e != i && e !in nb {
          nb := nb + [e];
        }
        t := t + 1;
      }
    }

    /** Step 2: the map from each element id to the neighbourhood of its element. */
    method BuildNeighbourhoods(adj: map<int, seq<nat>>) returns (nbh: map<int, seq<nat>>)
      ensures nbh == Neighbourhoods(adj, elements)
    {
      nbh := map[];
      var i := 0;
      while i < |elements|
        invariant 0 <= i <= |elements|
        invariant nbh == Assign(NeighbourhoodPairs(adj, elements)[..i])
      {
        var nb := CollectNeighbours(adj, i);
        AssignStep(NeighbourhoodPairs(adj, elements), i);
        nbh := nbh[elements[i].id := nb];
        i := i + 1;
      }
      assert NeighbourhoodPairs(adj, elements)[..|elements|] == NeighbourhoodPairs(adj, elements);
    }

    /** Step 3: each element id is a view spot iff its value is at least the largest value
        of its neighbourhood; an empty neighbourhood makes the reduction throw. The map of
        neighbourhoods is visited through the elements, whose ids are its keys; an id borne
        by several elements is classified again with the same outcome. */
    method ClassifyElements(nbh: map<int, seq<nat>>) returns (spots: Option<map<int, bool>>)
      requires Valid() && InRange(elements, nbh) && nbh.Keys == ElementIds(elements)
      ensures spots == Classification(ValueMap(values), elements, nbh)
    {
      var marks: map<int, bool> := map[];
      var i := 0;
      while i < |elements|
        invariant 0 <= i <= |elements|
        invariant ElementIds(elements[..i]) <= nbh.Keys
        invariant forall id :: id in ElementIds(elements[..i]) ==> nbh[id] != []
        invariant marks == PeakMarks(elementToValue, elements, nbh, ElementIds(elements[..i]))
      {
        var id := elements[i].id;
        ElementIdsStep(elements, i);
        var neighbours := nbh[id];
        if neighbours == [] {
          return None;
        }
        var maxNeighbour := MaxNeighbour(elementToValue, elements, neighbours);
        var currentElementValue := GetValueForElement(id);
        var maxNeighbourValue := GetValueForElement(elements[maxNeighbour].id);
        PeakIffAtLeastMax(elementToValue, elements, id, neighbours);
        PeakMarksAdd(elementToValue, elements, nbh, ElementIds(elements[..i]), id);
        marks := marks[id := Le(maxNeighbourValue, currentElementValue)];
        i := i + 1;
      }
      assert elements[..|elements|] == elements;
      return Some(marks);
    }

    /** `computeBestNViewSpots(n)`: the view-spot records sorted by value, largest first,
        truncated by `n` as `slice(0, n)` does; `None` stands for a NaN `n`. */
    method ComputeBestNViewSpots(n: Option<int>) returns (r: Result<seq<MeshValue>, ComputeError>)
      requires Valid()
      ensures r == BestNViewSpots(nodes, elements, values, n)
      ensures r.Failure? <==> HasIsolatedElement(nodes, elements)
      ensures r.Success? ==> SortedDesc(r.value)
      ensures r.Success? ==> forall v :: v in r.value ==> v in values && IsViewSpot(nodes, elements, values, v.elementId)
    {
      var adj := BuildNodeIndex();
      var nbh := BuildNeighbourhoods(adj);
      var spots := ClassifyElements(nbh);
      BestNViewSpotsCharacterised(nodes, elements, values, n);
      if spots.None? {
        return Failure(EmptyNeighbourhood);
      }
      BestNViewSpotsMembers(nodes, elements, values, n);
      var allViewSpots := SortDesc(KeepViewSpots(values, spots.value));
      r := Success(TakeBest(allViewSpots, n));
    }
  }
}
