/** The older version of the mesh class: the constructor always checks references and
    then stores its three inputs unchanged. */
module SnapshotMesh {
  import opened MeshTypes
  import opened References

  class Mesh {
    var nodes: seq<MeshNode>
    var elements: seq<MeshElement>
    var values: seq<MeshValue>

    /** Every reference of a constructed mesh resolves. */
    ghost predicate Valid()
      reads this
    {
      NodeRefsValid(nodes, elements) && ElementRefsValid(elements, values)
    }

    /** The field assignments that end a construction whose checks passed. */
    constructor (nodes: seq<MeshNode>, elements: seq<MeshElement>, values: seq<MeshValue>)
      requires FirstReferenceError(nodes, elements, values) == None
      ensures Valid()
      ensures this.nodes == nodes && this.elements == elements && this.values == values
    {
      NoReferenceErrorIff(nodes, elements, values);
      this.nodes := nodes;
      this.elements := elements;
      this.values := values;
    }

    /** `new Mesh(nodes, elements, values)`: throws the first reference error, or stores the
        inputs exactly as given. */
    static method Create(nodes: seq<MeshNode>, elements: seq<MeshElement>, values: seq<MeshValue>)
      returns (r: Result<Mesh, ReferenceError>)
      ensures r.Failure? <==> !(NodeRefsValid(nodes, elements) && ElementRefsValid(elements, values))
      ensures r.Failure? ==> FirstReferenceError(nodes, elements, values) == Some(r.error)
      ensures r.Success? ==> fresh(r.value) && r.value.Valid()
      ensures r.Success? ==> r.value.nodes == nodes && r.value.elements == elements && r.value.values == values
    {
      NoReferenceErrorIff(nodes, elements, values);
      var err := CheckReferences(nodes, elements, values);
      if err.Some? {
        return Failure(err.value);
      }
      var mesh := new Mesh(nodes, elements, values);
      return Success(mesh);
    }
  }
}
