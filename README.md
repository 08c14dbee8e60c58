# View spots on a finite-element mesh

This project models the view-spot computation of the `viewspots` repository in Dafny.
A mesh has nodes, elements and value records. Each element lists the ids of the nodes on its boundary. Each value record attaches a number to an element id.

An element is a *view spot* when no element sharing a node with it has a larger value.
`computeBestNViewSpots(n)` works in four steps:

1. it indexes the elements by the nodes they touch;
2. it builds each element's neighbourhood;
3. it classifies every element against the largest value in its neighbourhood;
4. it returns the value records of the view spots, sorted by value with the largest first, optionally cut to the first `n`.

The model follows the two versions of the `Mesh` class:

- `src/potato.ts`, the current class, is a Dafny class `Potato.Mesh`.
  - Its constructor checks references only when asked and fills the element-to-value map in a loop.
  - Its value lookup falls back to negative infinity.
  - Steps 1 to 3 are methods with loops, as the source's `forEach` calls are. Each method is proved equal to a specification function.
  - Step 4 is the source's pure `filter`/`sort`/`slice` chain. It is written as functions, which `ComputeBestNViewSpots` calls directly.
  - The properties are proved about those functions: exact node index, exact and symmetric neighbourhoods, the local-maximum rule, failure exactly when the element stored last under some id has no neighbour, and a stable descending sort and its truncation.
- `src/mesh.ts`, the older class, is `SnapshotMesh.Mesh`. Its constructor always checks references and then stores its inputs.
  - The two reference checks are shared with the newer class. They are modelled by the loop method `References.CheckReferences`, proved equal to the function `FirstReferenceError`.
  - That function reports the first unknown node of the first offending element before any value error.

Modelling choices:

- **Elements are named by their position in the element list.** This position stands for the object identity that the source's `Set<MeshElement>` and the `e !== currentElement` test rely on. Value records are looked up by element id, as in the source.
- **Maps with repeated keys are last write wins** (`LastWins.Assign`).
  - A value record for an element overrides earlier ones.
  - When several elements share an id, the neighbourhood map holds the neighbourhood of the last of them.
- **Numbers are `Ext`:** a real or negative infinity. Negative infinity is the value of an element with no record.
- **`n` is an `Option<int>`.** `None` stands for a NaN `n`, the argument being left out. A negative `n` is modelled exactly as `slice(0, n)` treats it: it drops the last `-n` records.
- **The sort is the stable sort JavaScript's `Array.prototype.sort` performs** (ECMA-262, section 23.1.3.30).
  - It is modelled as an insertion sort, `Ranking.SortDesc`.
  - `Ranking.StableSortUnique` proves that only one arrangement is sorted and keeps records of equal value in input order. So the model's result is the one any stable sort gives.
- **A Dafny constructor cannot fail.** Each `new Mesh(...)` that may throw is therefore a static method `Create`. It returns `Failure(error)` for the thrown error, or `Success(mesh)` with a freshly built mesh.
- **The reduction cannot run on an empty neighbourhood.** The source throws a `TypeError` there. The model returns `Failure(EmptyNeighbourhood)`, which carries no payload.

`scenario.dfy` works the regular mesh from the repository's tests through every step: 6 nodes, 4 triangles. It is done with three sets of values.

## Model

| member | source | states |
|---|---|---|
| References.HasNode | src/mesh.ts:42 | `nodes.some(node => node.id === id)`: some node bears the id |
| References.HasElement | src/mesh.ts:50 | `elements.some(element => element.id === id)`: some element bears the id |
| References.UnknownNodeIn | src/mesh.ts:41-45 | the error for the first node id of one element, from position `k` on, that names no node; `UnknownNodeInNone` states when there is none |
| References.UnknownNodeFrom | src/mesh.ts:40-46 | the first such error over the elements from position `i` on, element by element; `UnknownNodeFromNone` and `FirstNodeErrorReported` state its meaning |
| References.UnknownElementFrom | src/mesh.ts:49-53 | the error for the first value record from position `j` on naming no element; `UnknownElementFromNone` and `FirstElementErrorReported` state its meaning |
| References.FirstReferenceError | src/mesh.ts:40-53 | the error the checks throw: a node error if there is one, else a value error, else none; `NoReferenceErrorIff` and `NodeErrorFirst` state its meaning |
| References.CheckReferences | src/mesh.ts:40-53 | the nested loops return exactly the error `FirstReferenceError` describes, stopping at the first bad reference |
| References.NoReferenceErrorIff | src/mesh.ts:40-53 | the checks find no error iff every node id of every element names a node and every value record names an element |
| References.NodeErrorFirst | src/mesh.ts:40-53 | when some element lists an unknown node, the error reported is a node error, whatever the value records hold |
| References.FirstNodeErrorReported | src/mesh.ts:40-46 | the node error reported is that of the first offending element and, within it, the first unknown node id, in input order |
| References.FirstElementErrorReported | src/mesh.ts:48-53 | with all node references valid, the error reported is that of the first value record naming an unknown element |
| References.UnknownNodeInNone | src/mesh.ts:41-45 | the scan of one element's node ids finds nothing iff each names some node |
| References.UnknownNodeFromNone | src/mesh.ts:40-46 | the scan of the elements finds nothing iff every listed node id names some node |
| References.UnknownElementFromNone | src/mesh.ts:49-53 | the scan of the value records finds nothing iff each names some element |
| References.EmptyMeshHasNoReferenceError | src/mesh.ts:40-53 | a mesh with no elements and no value records passes the checks |
| SnapshotMesh.Mesh.Create | src/mesh.ts:38-58 | construction fails iff some reference is unknown, with the first error; on success the mesh is new, its references resolve and it holds the three inputs exactly as given |
| SnapshotMesh.Mesh.constructor | src/mesh.ts:55-57 | the fields are the inputs, unchanged |
| LastWins.Assign | src/potato.ts:61-62 | the map a run of `Map.set` calls leaves, each key holding its last value; `AssignKeys`, `AssignValues` and `AssignLast` state its meaning |
| LastWins.AssignKeys | src/potato.ts:61-62 | after a run of `Map.set` calls the map has exactly the keys that were set |
| LastWins.AssignValues | src/potato.ts:61-62 | each key holds the value of the last `set` call for it |
| LastWins.AssignLast | src/potato.ts:61-62 | the last `set` call for a key decides its value |
| Potato.Mesh.Create | src/potato.ts:39-63 | without `sanityCheck` construction never fails; with it, it fails iff some reference is unknown, with the first error; on success the map holds each element's last value |
| Potato.Mesh.constructor | src/potato.ts:58-62 | the loop over the value records leaves the element-to-value map equal to the one the records give, last record winning; the fields are the inputs |
| Ranking.ValueMap | src/potato.ts:61-62 | the element-to-value map the constructor builds from the value records; `ValueOfLastRecord` states what it holds |
| Ranking.ValueIn | src/potato.ts:65-72 | the lookup with negative infinity for a missing id, which `GetValueForElement` returns |
| Potato.Mesh.GetValueForElement | src/potato.ts:65-72 | negative infinity iff no value record names the element; otherwise the value of its last record |
| Ranking.ValueOfLastRecord | src/potato.ts:61-72 | an element's value is negative infinity iff it has no record, else that of its last record |
| Adjacency.TouchingFrom | src/potato.ts:77 | the positions, from `from` on, of the elements whose node list includes the id; `TouchingFromExact` states which and in what order |
| Adjacency.Touching | src/potato.ts:77 | the whole filter, from position 0 |
| Adjacency.NodeIndex | src/potato.ts:75-79 | the map from each node id to its touching elements; every position it stores is a position of the element list, and `NodeIndexExact` states its keys and values |
| Adjacency.TouchingFromExact | src/potato.ts:77 | the filter keeps exactly the elements listing the node id, in increasing position order |
| Adjacency.NodeIndexExact | src/potato.ts:75-79 | the index has a key for each node's id and nothing else; under it, exactly the elements listing that id, each once |
| Potato.Mesh.BuildNodeIndex | src/potato.ts:75-79 | the loop over the nodes builds exactly the node index |
| Adjacency.Gather | src/potato.ts:84 | the `flatMap` of the index lookups over an element's node ids, a missing id contributing nothing; `GatherMembers` states its contents |
| Adjacency.AddAll | src/potato.ts:82-85 | the insertion-ordered contents of the neighbour set after each listed element other than the current one is added; `AddAllMembers`, `AddAllDistinct` and `AddAllAppend` state its meaning |
| Adjacency.NeighbourList | src/potato.ts:82-85 | the neighbour set of one element, built from an empty set; `NeighbourListExact` states its contents |
| Adjacency.GatherMembers | src/potato.ts:83-85 | the `flatMap` over an element's node ids holds the elements indexed under those ids that are in the index |
| Adjacency.AddAllMembers | src/potato.ts:82-85 | adding to a set keeps what it held and each added element other than the current one |
| Adjacency.AddAllDistinct | src/potato.ts:82-85 | the set holds each element once and never the current element |
| Adjacency.AddAllAppend | src/potato.ts:83-85 | adding a concatenation adds the first part, then the second |
| Potato.Mesh.CollectNeighbours | src/potato.ts:82-85 | the loop over the flattened list builds the element's neighbour set, in insertion order |
| Adjacency.NeighbourListExact | src/potato.ts:80-87 | an element's neighbours are exactly the other elements sharing with it a node id of some node, each once; ids of no node contribute nothing |
| Adjacency.NeighboursSymmetric | src/potato.ts:80-87 | A is a neighbour of B iff B is a neighbour of A |
| Adjacency.Neighbourhoods | src/potato.ts:80-87 | the map from element id to neighbourhood, last element with an id winning; its keys are exactly the element ids, and every stored neighbour is a position of the element list when the index's are |
| Adjacency.NeighbourhoodKeys | src/potato.ts:81-86 | the neighbourhood map has exactly the element ids as keys |
| Adjacency.NeighbourhoodsExact | src/potato.ts:80-87 | under each element id the neighbourhood map holds the neighbours of the last element with that id, each once |
| Adjacency.NeighbourhoodsInRange | src/potato.ts:80-87 | every neighbour stored is an element of the mesh |
| Potato.Mesh.BuildNeighbourhoods | src/potato.ts:80-87 | the loop over the elements builds exactly the neighbourhood map |
| Ranking.ReduceFrom | src/potato.ts:90 | the reduction returns one of the elements it saw, and none of them has a larger value |
| Ranking.MaxNeighbour | src/potato.ts:90 | the reduction picks a neighbour of largest value |
| Ranking.PeakIffAtLeastMax | src/potato.ts:90-93 | comparing with the largest neighbour value is comparing with every neighbour, ties counting as view spots |
| Ranking.Classification | src/potato.ts:88-94 | `None` when some stored neighbourhood is empty, where the reduction throws; otherwise each id marked by the `>=` test against its neighbours; `ClassificationFailsIff` and `ClassificationMarksViewSpots` state its meaning |
| Potato.Mesh.ClassifyElements | src/potato.ts:88-94 | the loop fails on an empty neighbourhood and otherwise marks each element id iff its value is at least its largest neighbour value |
| Ranking.ClassificationFailsIff | src/potato.ts:88-94 | the classification fails exactly when the element stored last under some id has no neighbour; an earlier element with that id is overwritten at :86 and cannot make it fail |
| Ranking.ClassificationMarksViewSpots | src/potato.ts:88-94 | a successful classification has a key for each element id and marks exactly the view spots |
| Ranking.KeepViewSpots | src/potato.ts:95 | the `filter` of the value records whose element id is marked true, in input order; `KeepViewSpotsMembers` and `KeepIsViewSpotRecords` state its meaning |
| Ranking.KeepViewSpotsMembers | src/potato.ts:95 | the filter keeps exactly the value records of marked element ids; records of unknown ids are dropped |
| Ranking.KeepIsViewSpotRecords | src/potato.ts:95 | the filter yields the view-spot records, in input order |
| Ranking.Insert | src/potato.ts:95 | inserting into a sorted list keeps it sorted, adds exactly the record, and keeps records of equal value in order |
| Ranking.SortDesc | src/potato.ts:95 | the sort yields a permutation of its input, by value with the largest first, with records of equal value in input order |
| Ranking.StableSortUnique | src/potato.ts:95 | two lists that are both sorted and agree on the order of each value's records are equal |
| Ranking.SortAllEqual | src/potato.ts:95 | a list of equal values comes out of the sort unchanged |
| Ranking.SliceEnd | src/potato.ts:96 | the end index `slice(0, k)` uses: at most the length, a negative `k` counting from the end and clamped at 0 |
| Ranking.TakeBest | src/potato.ts:96 | the result is a prefix of the sorted list |
| Ranking.TakeBestLength | src/potato.ts:96 | with no `n` the whole list; with `n >= 0` the first min(n, length) records; with `n < 0` all but the last -n |
| Ranking.TakeBestMonotone | src/potato.ts:96 | the result for `k` is a prefix of the result for `k + 1` |
| Ranking.BestNViewSpots | src/potato.ts:74-97 | the four steps composed: failure where the classification fails, else the filtered, sorted and truncated records; `BestNViewSpotsCharacterised` and `BestNViewSpotsMembers` state its meaning |
| Ranking.BestNViewSpotsCharacterised | src/potato.ts:74-97 | the computation fails iff the element stored last under some id has no neighbour; otherwise the full result is sorted, holds the view-spot records with equal values in input order, and every truncation is a prefix of it |
| Ranking.BestNViewSpotsMembers | src/potato.ts:95-96 | every returned record is a value record of a view spot; with no `n` every such record is returned |
| Potato.Mesh.ComputeBestNViewSpots | src/potato.ts:74-97 | the three loops and the final filter, sort and slice compute `BestNViewSpots`: failure iff the element stored last under some id has no neighbour; otherwise a sorted list of view-spot records |
| Scenario.ExampleNodeIndex | test/mesh.test.ts:36-45 | on the test mesh each node maps to the elements touching it: 0 to [0, 1], 2 to [1, 2, 3], and so on |
| Scenario.ExampleNeighbourhoods | test/mesh.test.ts:47-55 | on the test mesh the neighbourhoods are 0: [1, 2], 1: [0, 2, 3], 2: [1, 3, 0], 3: [1, 2] |
| Scenario.ExampleClassification | test/mesh.test.ts:57-68 | for any four values the classification marks each element against its neighbours; with the test's values, 0 and 3 are view spots and 1 and 2 are not |
| Scenario.ExampleBestNViewSpots | test/mesh.test.ts:70-89 | with the test's values the result for any `n` is the truncation of [record 3, record 0] |
| Scenario.ExampleCalls | test/mesh.test.ts:83-104 | no `n` gives [3, 0], `n = 1` gives [3], `n = 3` gives [3, 0] |
| Scenario.ExampleTied | test/mesh.test.ts:143-176 | two view spots of equal value come back as [0, 3], in input order |
| Scenario.ExamplePlane | src/potato.ts:88-96 | on the test mesh with every value 0, all four elements are view spots and all four records come back in input order |
| Scenario.ExampleShadowedIsolation | src/potato.ts:86-90 | with two elements sharing id 0, the first of which has no neighbour, the computation still succeeds, because the later `set` under that id overwrites the empty neighbourhood |

## Left out

- Node coordinates `x` and `y` (src/potato.ts:3-4) are not modelled. The algorithm never reads them.
- Floating-point numbers are not modelled. Values are reals plus negative infinity. So NaN values, rounding, and a comparator `b.value - a.value` that overflows are not modelled.
- `n` is modelled as an integer or absent. A fractional or infinite `n` is not modelled.
- The command-line entry point (`src/index.ts`), the HTTP handler (`handler.js`), JSON decoding (`src/mesh_json.ts`) and file reading are not part of this model. They are input and output around the core.
- The tests of `test/mesh.test.ts` call methods that `src/potato.ts` does not have, such as `findNeighbourhoods` and `checkIfElementsAreViewSpots`. They belong to another revision of the class.
  - The model follows the code shown.
  - That revision also removes equal-valued view spots that lie next to each other. Its "plane mesh" test expects two results. `Scenario.ExamplePlane` shows that the code shown returns all four.
  - A fail-fast error for an element without a value is likewise not in the code shown. The code substitutes negative infinity, and so does the model.
- Potato.Mesh.ClassifyElements: visits the neighbourhood map through the element list rather than in the map's insertion order. An id shared by several elements is classified again with the same outcome. The error for an empty neighbourhood carries no payload, so the order in which the failure is found does not show.
- Node and element ids are modelled as integers. A NaN or fractional id is not modelled. This matters for NaN: `includes` and `Map` compare by SameValueZero, under which NaN equals NaN, but `===` in `some` does not.
- The same element object appearing twice in the element list is not modelled. The model treats two positions as two objects. The source's `!==` test and its `Set` would treat them as one.
- The text of the thrown error messages is not modelled. Errors are the datatypes `ReferenceError` and `ComputeError`.
