/** The referential-integrity checks the constructor runs: every node id an element
    lists must be the id of some node, and every value record must name the id of some
    element. Both versions of the mesh run the same checks in the same order; the older
    one always runs them, the newer one only when asked to. */
module References {
  import opened MeshTypes

  /** `nodes.some(node => node.id === id)` */
  predicate HasNode(nodes: seq<MeshNode>, id: int) {
    exists k :: 0 <= k < |nodes| && nodes[k].id == id
  }

  /** `elements.some(element => element.id === id)` */
  predicate HasElement(elements: seq<MeshElement>, id: int) {
    exists k :: 0 <= k < |elements| && elements[k].id == id
  }

  /** Every node id listed by every element names an existing node. */
  predicate NodeRefsValid(nodes: seq<MeshNode>, elements: seq<MeshElement>) {
    forall i, k :: 0 <= i < |elements| && 0 <= k < |elements[i].nodes| ==>
      HasNode(nodes, elements[i].nodes[k])
  }

  /** Every value record names an existing element. */
  predicate ElementRefsValid(elements: seq<MeshElement>, values: seq<MeshValue>) {
    forall j :: 0 <= j < |values| ==> HasElement(elements, values[j].elementId)
  }

  /** The error thrown for the first unknown node id among `e.nodes[k..]`, if any. */
  function UnknownNodeIn(nodes: seq<MeshNode>, e: MeshElement, k: nat): Option<ReferenceError>
    requires k <= |e.nodes|
    decreases |e.nodes| - k
  {
    if k == |e.nodes| then None
    else if !HasNode(nodes, e.nodes[k]) then Some(UnknownNode(e.id, e.nodes[k]))
    else UnknownNodeIn(nodes, e, k + 1)
  }

  /** The error thrown for the first unknown node reference in `elements[i..]`, if any. */
  function UnknownNodeFrom(nodes: seq<MeshNode>, elements: seq<MeshElement>, i: nat): Option<ReferenceError>
    requires i <= |elements|
    decreases |elements| - i
  {
    if i == |elements| then None
    else match UnknownNodeIn(nodes, elements[i], 0)
      case Some(err) => Some(err)
      case None => UnknownNodeFrom(nodes, elements, i + 1)
  }

  /** The error thrown for the first value record in `values[j..]` naming an unknown element, if any. */
  function UnknownElementFrom(elements: seq<MeshElement>, values: seq<MeshValue>, j: nat): Option<ReferenceError>
    requires j <= |values|
    decreases |values| - j
  {
    if j == |values| then None
    else if !HasElement(elements, values[j].elementId) then Some(UnknownElement(values[j].elementId))
    else UnknownElementFrom(elements, values, j + 1)
  }

  /** The error the checks throw: all node references are checked before any value record. */
  function FirstReferenceError(nodes: seq<MeshNode>, elements: seq<MeshElement>, values: seq<MeshValue>): Option<ReferenceError>
  {
    match UnknownNodeFrom(nodes, elements, 0)
    case Some(err) => Some(err)
    case None => UnknownElementFrom(elements, values, 0)
  }

  lemma {:induction false} UnknownNodeInNone(nodes: seq<MeshNode>, e: MeshElement, k: nat)
    requires k <= |e.nodes|
    ensures UnknownNodeIn(nodes, e, k) == None <==> forall t :: k <= t < |e.nodes| ==> HasNode(nodes, e.nodes[t])
    decreases |e.nodes| - k
  {
    if k < |e.nodes| {
      UnknownNodeInNone(nodes, e, k + 1);
    }
  }

  lemma {:induction false} UnknownNodeFromNone(nodes: seq<MeshNode>, elements: seq<MeshElement>, i: nat)
    requires i <= |elements|
    ensures UnknownNodeFrom(nodes, elements, i) == None <==>
      forall i', k :: i <= i' < |elements| && 0 <= k < |elements[i'].nodes| ==> HasNode(nodes, elements[i'].nodes[k])
    decreases |elements| - i
  {
    if i < |elements| {
      UnknownNodeInNone(nodes, elements[i], 0);
      UnknownNodeFromNone(nodes, elements, i + 1);
    }
  }

  lemma {:induction false} UnknownElementFromNone(elements: seq<MeshElement>, values: seq<MeshValue>, j: nat)
    requires j <= |values|
    ensures UnknownElementFrom(elements, values, j) == None <==>
      forall j' :: j <= j' < |values| ==> HasElement(elements, values[j'].elementId)
    decreases |values| - j
  {
    if j < |values| {
      UnknownElementFromNone(elements, values, j + 1);
    }
  }

  /** Construction succeeds exactly when every reference resolves. */
  lemma NoReferenceErrorIff(nodes: seq<MeshNode>, elements: seq<MeshElement>, values: seq<MeshValue>)
    ensures FirstReferenceError(nodes, elements, values) == None <==>
      NodeRefsValid(nodes, elements) && ElementRefsValid(elements, values)
  {
    UnknownNodeFromNone(nodes, elements, 0);
    UnknownElementFromNone(elements, values, 0);
  }

  /** A node error is reported whenever some element lists an unknown node, whatever the
      value records are: node checks come first. */
  lemma NodeErrorFirst(nodes: seq<MeshNode>, elements: seq<MeshElement>, values: seq<MeshValue>)
    requires !NodeRefsValid(nodes, elements)
    ensures FirstReferenceError(nodes, elements, values).Some?
    ensures FirstReferenceError(nodes, elements, values).value.UnknownNode?
  {
    UnknownNodeFromNone(nodes, elements, 0);
    UnknownNodeFromIsNodeError(nodes, elements, 0);
  }

  lemma {:induction false} UnknownNodeFromIsNodeError(nodes: seq<MeshNode>, elements: seq<MeshElement>, i: nat)
    requires i <= |elements|
    ensures UnknownNodeFrom(nodes, elements, i).Some? ==> UnknownNodeFrom(nodes, elements, i).value.UnknownNode?
    decreases |elements| - i
  {
    if i < |elements| {
      UnknownNodeInIsNodeError(nodes, elements[i], 0);
      UnknownNodeFromIsNodeError(nodes, elements, i + 1);
    }
  }

  lemma {:induction false} UnknownNodeInIsNodeError(nodes: seq<MeshNode>, e: MeshElement, k: nat)
    requires k <= |e.nodes|
    ensures UnknownNodeIn(nodes, e, k).Some? ==> UnknownNodeIn(nodes, e, k).value.UnknownNode?
    decreases |e.nodes| - k
  {
    if k < |e.nodes| {
      UnknownNodeInIsNodeError(nodes, e, k + 1);
    }
  }

  /** The node error reported names the first offending element and, within it, the
      first offending node id, in input order. */
  lemma FirstNodeErrorReported(nodes: seq<MeshNode>, elements: seq<MeshElement>, values: seq<MeshValue>, i: nat, k: nat)
    requires i < |elements| && k < |elements[i].nodes|
    requires !HasNode(nodes, elements[i].nodes[k])
    requires forall i', t :: 0 <= i' < i && 0 <= t < |elements[i'].nodes| ==> HasNode(nodes, elements[i'].nodes[t])
    requires forall t :: 0 <= t < k ==> HasNode(nodes, elements[i].nodes[t])
    ensures FirstReferenceError(nodes, elements, values) == Some(UnknownNode(elements[i].id, elements[i].nodes[k]))
  {
    UnknownNodeFromEarlier(nodes, elements, 0, i, k);
  }

  lemma {:induction false} UnknownNodeFromEarlier(nodes: seq<MeshNode>, elements: seq<MeshElement>, from: nat, i: nat, k: nat)
    requires from <= i < |elements| && k < |elements[i].nodes|
    requires !HasNode(nodes, elements[i].nodes[k])
    requires forall i', t :: from <= i' < i && 0 <= t < |elements[i'].nodes| ==> HasNode(nodes, elements[i'].nodes[t])
    requires forall t :: 0 <= t < k ==> HasNode(nodes, elements[i].nodes[t])
    ensures UnknownNodeFrom(nodes, elements, from) == Some(UnknownNode(elements[i].id, elements[i].nodes[k]))
    decreases i - from
  {
    if from < i {
      UnknownNodeInNone(nodes, elements[from], 0);
      UnknownNodeFromEarlier(nodes, elements, from + 1, i, k);
    } else {
      UnknownNodeInEarlier(nodes, elements[i], 0, k);
    }
  }

  lemma {:induction false} UnknownNodeInEarlier(nodes: seq<MeshNode>, e: MeshElement, from: nat, k: nat)
    requires from <= k < |e.nodes|
    requires !HasNode(nodes, e.nodes[k])
    requires forall t :: 0 <= t < k ==> HasNode(nodes, e.nodes[t])
    ensures UnknownNodeIn(nodes, e, from) == Some(UnknownNode(e.id, e.nodes[k]))
    decreases k - from
  {
    if from < k {
      UnknownNodeInEarlier(nodes, e, from + 1, k);
    }
  }

  /** With all node references valid, the error reported names the first value record
      whose element is unknown. */
  lemma FirstElementErrorReported(nodes: seq<MeshNode>, elements: seq<MeshElement>, values: seq<MeshValue>, j: nat)
    requires NodeRefsValid(nodes, elements)
    requires j < |values| && !HasElement(elements, values[j].elementId)
    requires forall j' :: 0 <= j' < j ==> HasElement(elements, values[j'].elementId)
    ensures FirstReferenceError(nodes, elements, values) == Some(UnknownElement(values[j].elementId))
  {
    UnknownNodeFromNone(nodes, elements, 0);
    UnknownElementFromEarlier(elements, values, 0, j);
  }

  lemma {:induction false} UnknownElementFromEarlier(elements: seq<MeshElement>, values: seq<MeshValue>, from: nat, j: nat)
    requires from <= j < |values| && !HasElement(elements, values[j].elementId)
    requires forall j' :: 0 <= j' < j ==> HasElement(elements, values[j'].elementId)
    ensures UnknownElementFrom(elements, values, from) == Some(UnknownElement(values[j].elementId))
    decreases j - from
  {
    if from < j {
      UnknownElementFromEarlier(elements, values, from + 1, j);
    }
  }

  /** With no elements and no value records the checks have nothing to reject. */
  lemma EmptyMeshHasNoReferenceError(nodes: seq<MeshNode>)
    ensures FirstReferenceError(nodes, [], []) == None
  {
  }

  /** The checks as the constructor runs them: nested loops over the elements and their
      node ids, then a loop over the value records, stopping at the first violation. */
  method CheckReferences(nodes: seq<MeshNode>, elements: seq<MeshElement>, values: seq<MeshValue>)
    returns (err: Option<ReferenceError>)
    ensures err == FirstReferenceError(nodes, elements, values)
  {
    var i := 0;
    while i < |elements|
      invariant 0 <= i <= |elements|
      invariant UnknownNodeFrom(nodes, elements, i) == UnknownNodeFrom(nodes, elements, 0)
    {
      var element := elements[i];
      var k := 0;
      while k < |element.nodes|
        invariant 0 <= k <= |element.nodes|
        invariant UnknownNodeIn(nodes, element, k) == UnknownNodeIn(nodes, element, 0)
      {
        if !HasNode(nodes, element.nodes[k]) {
          return Some(UnknownNode(element.id, element.nodes[k]));
        }
        k := k + 1;
      }
      i := i + 1;
    }
    var j := 0;
    while j < |values|
      invariant 0 <= j <= |values|
      invariant UnknownElementFrom(elements, values, j) == UnknownElementFrom(elements, values, 0)
    {
      if !HasElement(elements, values[j].elementId) {
        return Some(UnknownElement(values[j].elementId));
      }
      j := j + 1;
    }
    return None;
  }
}
