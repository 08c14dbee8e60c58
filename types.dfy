/** Records shared by both versions of the mesh: nodes, elements, value records,
    the numbers the algorithm compares, and the errors it raises. */
module MeshTypes {

  datatype Option<T> = None | Some(value: T)

  datatype Result<T, E> = Success(value: T) | Failure(error: E)

  /** A mesh node. Its coordinates are never read by the algorithm and are not modelled. */
  datatype MeshNode = MeshNode(id: int)

  /** A mesh element (a cell) and the ids of the nodes on its boundary. */
  datatype MeshElement = MeshElement(id: int, nodes: seq<int>)

  /** A value record: the scalar attached to the element with id `elementId`. */
  datatype MeshValue = MeshValue(elementId: int, value: real)

  /** A JavaScript number as the algorithm uses it: a finite value or negative infinity,
      the value given to an element that has no value record. */
  datatype Ext = NegInf | Fin(r: real)

  /** `a <= b` on numbers extended with negative infinity. */
  predicate Le(a: Ext, b: Ext) {
    match a
    case NegInf => true
    case Fin(x) => b.Fin? && x <= b.r
  }

  /** `a > b`, the comparison the maximum reduction uses. */
  predicate Gt(a: Ext, b: Ext) {
    !Le(a, b)
  }

  lemma LeTransitive(a: Ext, b: Ext, c: Ext)
    requires Le(a, b) && Le(b, c)
    ensures Le(a, c)
  {
  }

  /** The two errors the constructor throws when it checks references. */
  datatype ReferenceError =
    | UnknownNode(elementId: int, nodeId: int)
    | UnknownElement(elementId: int)

  /** The TypeError that `reduce` without an initial value throws on an empty array.
      Its message does not name the element. */
  datatype ComputeError = EmptyNeighbourhood
}
