/** The last two steps of the view-spot computation: the classification of each element
    against the largest value in its neighbourhood, and the filter, stable descending
    sort and truncation of the value records. `BestNViewSpots` composes the four
    steps into the result the computation returns. */
module Ranking {
  import opened MeshTypes
  import opened LastWins
  import opened Adjacency

  // ---------------------------------------------------------------- values

  /** The `set(v.element_id, v.value)` calls the constructor makes, one per value record. */
  function ValuePairs(values: seq<MeshValue>): seq<(int, real)> {
    seq(|values|, i requires 0 <= i < |values| => (values[i].elementId, values[i].value))
  }

  /** The constructor's map from element id to value. */
  function ValueMap(values: seq<MeshValue>): map<int, real> {
    Assign(ValuePairs(values))
  }

  /** A lookup in the value map, negative infinity for a missing id. */
  function ValueIn(vmap: map<int, real>, id: int): Ext {
    if id in vmap then Fin(vmap[id]) else NegInf
  }

  /** The value of element `id`: that of its last value record, or negative infinity if none. */
  function ValueOf(values: seq<MeshValue>, id: int): Ext {
    ValueIn(ValueMap(values), id)
  }

  /** `k` is the last value record for its element. */
  predicate IsLastValue(values: seq<MeshValue>, k: int) {
    0 <= k < |values| && forall j :: k < j < |values| ==> values[j].elementId != values[k].elementId
  }

  /** An element without a value record has value negative infinity; otherwise its value
      is that of its last record. */
  lemma ValueOfLastRecord(values: seq<MeshValue>, id: int)
    ensures ValueOf(values, id) == NegInf <==> forall k :: 0 <= k < |values| ==> values[k].elementId != id
    ensures forall k :: IsLastValue(values, k) && values[k].elementId == id ==> ValueOf(values, id) == Fin(values[k].value)
  {
    var ps := ValuePairs(values);
    AssignKeys(ps, id);
    if exists k :: 0 <= k < |values| && values[k].elementId == id {
      var k :| 0 <= k < |values| && values[k].elementId == id;
      assert ps[k].0 == id;
    }
    forall k | IsLastValue(values, k) && values[k].elementId == id
      ensures ValueOf(values, id) == Fin(values[k].value)
    {
      assert IsLastFor(ps, k) by {
        forall j | k < j < |ps| ensures ps[j].0 != ps[k].0 {
          assert ps[j].0 == values[j].elementId;
        }
      }
      AssignLast(ps, k);
    }
  }

  // ---------------------------------------------------------------- classification

  /** The `reduce` that keeps the element of larger value, `acc` being the value kept so far. */
  function ReduceFrom(vmap: map<int, real>, elements: seq<MeshElement>, acc: nat, rest: seq<nat>): (r: nat)
    requires acc < |elements| && forall x :: x in rest ==> x < |elements|
    ensures r < |elements| && (r == acc || r in rest)
    ensures Le(ValueIn(vmap, elements[acc].id), ValueIn(vmap, elements[r].id))
    ensures forall x :: x in rest ==> Le(ValueIn(vmap, elements[x].id), ValueIn(vmap, elements[r].id))
    decreases |rest|
  {
    if rest == [] then acc
    else
      assert rest[0] in rest;
      assert forall x :: x in rest <==> x == rest[0] || x in rest[1..];
      var next := if Gt(ValueIn(vmap, elements[acc].id), ValueIn(vmap, elements[rest[0]].id)) then acc else rest[0];
      var r := ReduceFrom(vmap, elements, next, rest[1..]);
      LeTransitive(ValueIn(vmap, elements[acc].id), ValueIn(vmap, elements[next].id), ValueIn(vmap, elements[r].id));
      LeTransitive(ValueIn(vmap, elements[rest[0]].id), ValueIn(vmap, elements[next].id), ValueIn(vmap, elements[r].id));
      r
  }

  /** `Array.from(neighbours).reduce(...)`: a neighbour of largest value. */
  function MaxNeighbour(vmap: map<int, real>, elements: seq<MeshElement>, nb: seq<nat>): (r: nat)
    requires nb != [] && forall x :: x in nb ==> x < |elements|
    ensures r in nb
    ensures forall x :: x in nb ==> Le(ValueIn(vmap, elements[x].id), ValueIn(vmap, elements[r].id))
  {
    assert nb[0] in nb;
    assert forall x :: x in nb <==> x == nb[0] || x in nb[1..];
    ReduceFrom(vmap, elements, nb[0], nb[1..])
  }

  /** Element `id` has a value at least that of every element of `nb`. */
  predicate IsPeak(vmap: map<int, real>, elements: seq<MeshElement>, id: int, nb: seq<nat>)
    requires forall x :: x in nb ==> x < |elements|
  {
    forall x :: x in nb ==> Le(ValueIn(vmap, elements[x].id), ValueIn(vmap, id))
  }

  /** Comparing with the maximum the reduction finds is comparing with every neighbour:
      `current >= maxNeighbour` holds exactly for a peak, ties included. */
  lemma PeakIffAtLeastMax(vmap: map<int, real>, elements: seq<MeshElement>, id: int, nb: seq<nat>)
    requires nb != [] && forall x :: x in nb ==> x < |elements|
    ensures Le(ValueIn(vmap, elements[MaxNeighbour(vmap, elements, nb)].id), ValueIn(vmap, id)) <==> IsPeak(vmap, elements, id, nb)
  {
    var m := MaxNeighbour(vmap, elements, nb);
    if Le(ValueIn(vmap, elements[m].id), ValueIn(vmap, id)) {
      forall x | x in nb ensures Le(ValueIn(vmap, elements[x].id), ValueIn(vmap, id)) {
        LeTransitive(ValueIn(vmap, elements[x].id), ValueIn(vmap, elements[m].id), ValueIn(vmap, id));
      }
    }
  }

  /** The map from element id to "is a view spot", or `None` when some neighbourhood is
      empty and the reduction throws. */
  function Classification(vmap: map<int, real>, elements: seq<MeshElement>, nbh: map<int, seq<nat>>): Option<map<int, bool>>
    requires InRange(elements, nbh)
  {
    if exists id :: id in nbh && nbh[id] == [] then None
    else Some(map id | id in nbh :: IsPeak(vmap, elements, id, nbh[id]))
  }

  /** The element bearing `id` (the last one, if several do) has a value at least that of
      each of its neighbours. */
  ghost predicate IsViewSpot(nodes: seq<MeshNode>, elements: seq<MeshElement>, values: seq<MeshValue>, id: int) {
    exists i ::
      IsLastWithId(elements, i) && elements[i].id == id &&
      forall j :: j in Neighbours(nodes, elements, i) ==> Le(ValueOf(values, elements[j].id), ValueOf(values, id))
  }

  /** The element stored last under some id has no neighbour. An earlier element bearing
      the same id does not count: its neighbourhood is overwritten. */
  ghost predicate HasIsolatedElement(nodes: seq<MeshNode>, elements: seq<MeshElement>) {
    exists i :: IsLastWithId(elements, i) && Neighbours(nodes, elements, i) == {}
  }

  lemma LastWithIdUnique(elements: seq<MeshElement>, i: int, i': int)
    requires IsLastWithId(elements, i) && IsLastWithId(elements, i') && elements[i].id == elements[i'].id
    ensures i == i'
  {
  }

  /** The classification of the mesh as the source computes it. */
  function MeshClassification(nodes: seq<MeshNode>, elements: seq<MeshElement>, values: seq<MeshValue>): Option<map<int, bool>>
  {
    Classification(ValueMap(values), elements, Neighbourhoods(NodeIndex(nodes, elements), elements))
  }

  /** The classification fails exactly when the element stored last under some id has an
      empty neighbourhood; an earlier element with the same id is overwritten and cannot
      make it fail. */
  lemma ClassificationFailsIff(nodes: seq<MeshNode>, elements: seq<MeshElement>, values: seq<MeshValue>)
    ensures MeshClassification(nodes, elements, values).None? <==> HasIsolatedElement(nodes, elements)
  {
    var nbh := Neighbourhoods(NodeIndex(nodes, elements), elements);
    if MeshClassification(nodes, elements, values).None? {
      var id :| id in nbh && nbh[id] == [];
      NeighbourhoodsExact(nodes, elements, id);
      var i :| IsLastWithId(elements, i) && elements[i].id == id &&
        forall x :: x in nbh[id] <==> x in Neighbours(nodes, elements, i);
      assert Neighbours(nodes, elements, i) == {};
    }
    if HasIsolatedElement(nodes, elements) {
      var i :| IsLastWithId(elements, i) && Neighbours(nodes, elements, i) == {};
      var id := elements[i].id;
      NeighbourhoodsExact(nodes, elements, id);
      var i' :| IsLastWithId(elements, i') && elements[i'].id == id &&
        forall x :: x in nbh[id] <==> x in Neighbours(nodes, elements, i');
      LastWithIdUnique(elements, i, i');
      EmptyIffNoMembers(nbh[id]);
    }
  }

  lemma EmptyIffNoMembers(s: seq<nat>)
    ensures s == [] <==> forall x :: x !in s
  {
    if s != [] {
      assert s[0] in s;
    }
  }

  /** A successful classification has a key for each element id and marks exactly the view spots. */
  lemma ClassificationMarksViewSpots(nodes: seq<MeshNode>, elements: seq<MeshElement>, values: seq<MeshValue>, id: int)
    requires MeshClassification(nodes, elements, values).Some?
    ensures var spots := MeshClassification(nodes, elements, values).value;
      (id in spots <==> exists i :: 0 <= i < |elements| && elements[i].id == id) &&
      (id in spots ==> (spots[id] <==> IsViewSpot(nodes, elements, values, id)))
  {
    var nbh := Neighbourhoods(NodeIndex(nodes, elements), elements);
    var spots := MeshClassification(nodes, elements, values).value;
    NeighbourhoodsExact(nodes, elements, id);
    assert id in spots <==> id in nbh;
    if id in nbh {
      var i :| IsLastWithId(elements, i) && elements[i].id == id &&
        forall x :: x in nbh[id] <==> x in Neighbours(nodes, elements, i);
      assert spots[id] == IsPeak(ValueMap(values), elements, id, nbh[id]);
      if IsViewSpot(nodes, elements, values, id) {
        var i' :| IsLastWithId(elements, i') && elements[i'].id == id &&
          forall j :: j in Neighbours(nodes, elements, i') ==> Le(ValueOf(values, elements[j].id), ValueOf(values, id));
        LastWithIdUnique(elements, i, i');
      }
    }
  }

  // ---------------------------------------------------------------- filter

  /** `elementsAreViewSpots.get(v.element_id)` is true. */
  predicate Selected(spots: map<int, bool>, v: MeshValue) {
    v.elementId in spots && spots[v.elementId]
  }

  /** `values.filter(v => spots.get(v.element_id))` */
  function KeepViewSpots(values: seq<MeshValue>, spots: map<int, bool>): seq<MeshValue>
  {
    if values == [] then []
    else (if Selected(spots, values[0]) then [values[0]] else []) + KeepViewSpots(values[1..], spots)
  }

  /** The filter keeps exactly the records of `values` whose element is marked. */
  lemma {:induction false} KeepViewSpotsMembers(values: seq<MeshValue>, spots: map<int, bool>)
    ensures forall v :: v in KeepViewSpots(values, spots) <==> v in values && Selected(spots, v)
  {
    if values != [] {
      KeepViewSpotsMembers(values[1..], spots);
      assert forall v :: v in values <==> v == values[0] || v in values[1..];
    }
  }

  /** The value records that belong to view spots, in input order. */
  ghost function ViewSpotRecords(nodes: seq<MeshNode>, elements: seq<MeshElement>, values: seq<MeshValue>, rs: seq<MeshValue>): seq<MeshValue>
  {
    if rs == [] then []
    else
      (if IsViewSpot(nodes, elements, values, rs[0].elementId) then [rs[0]] else [])
      + ViewSpotRecords(nodes, elements, values, rs[1..])
  }

  lemma {:induction false} KeepIsViewSpotRecords(nodes: seq<MeshNode>, elements: seq<MeshElement>, values: seq<MeshValue>,
                                                 spots: map<int, bool>, rs: seq<MeshValue>)
    requires forall id :: (id in spots <==> exists i :: 0 <= i < |elements| && elements[i].id == id)
    requires forall id :: id in spots ==> (spots[id] <==> IsViewSpot(nodes, elements, values, id))
    ensures KeepViewSpots(rs, spots) == ViewSpotRecords(nodes, elements, values, rs)
  {
    if rs != [] {
      KeepIsViewSpotRecords(nodes, elements, values, spots, rs[1..]);
      var id := rs[0].elementId;
      if IsViewSpot(nodes, elements, values, id) {
        var i :| IsLastWithId(elements, i) && elements[i].id == id &&
          forall j :: j in Neighbours(nodes, elements, i) ==> Le(ValueOf(values, elements[j].id), ValueOf(values, id));
        assert id in spots;
      }
    }
  }

  // ---------------------------------------------------------------- stable sort

  /** Non-increasing by value. */
  predicate SortedDesc(s: seq<MeshValue>) {
    forall a, b :: 0 <= a < b < |s| ==> s[a].value >= s[b].value
  }

  /** The records of `s` with value `x`, in the order of `s`. */
  function WithValue(s: seq<MeshValue>, x: real): seq<MeshValue>
  {
    if s == [] then [] else (if s[0].value == x then [s[0]] else []) + WithValue(s[1..], x)
  }

  /** A sort is stable when the records of each value keep their input order. */
  ghost predicate SameOrderPerValue(a: seq<MeshValue>, b: seq<MeshValue>) {
    forall x :: WithValue(a, x) == WithValue(b, x)
  }

  lemma {:induction false} WithValueMembers(s: seq<MeshValue>, x: real, v: MeshValue)
    ensures v in WithValue(s, x) <==> v in s && v.value == x
  {
    if s != [] {
      WithValueMembers(s[1..], x, v);
      assert v in s <==> v == s[0] || v in s[1..];
    }
  }

  lemma WithValueCons(v: MeshValue, s: seq<MeshValue>, x: real)
    ensures WithValue([v] + s, x) == (if v.value == x then [v] else []) + WithValue(s, x)
  {
    assert ([v] + s)[1..] == s;
  }

  lemma SortedInFront(h: MeshValue, rest: seq<MeshValue>)
    requires SortedDesc(rest)
    requires forall b :: 0 <= b < |rest| ==> h.value >= rest[b].value
    ensures SortedDesc([h] + rest)
  {
    var r := [h] + rest;
    forall a, b | 0 <= a < b < |r| ensures r[a].value >= r[b].value {
      assert r[b] == rest[b - 1];
      if a > 0 {
        assert r[a] == rest[a - 1];
      }
    }
  }

  /** Inserts `v` into a sorted list after every record of larger value. */
  function Insert(v: MeshValue, s: seq<MeshValue>): (r: seq<MeshValue>)
    requires SortedDesc(s)
    ensures SortedDesc(r)
    ensures multiset(r) == multiset{v} + multiset(s)
    ensures SameOrderPerValue(r, [v] + s)
  {
    if s == [] then [v]
    else if s[0].value > v.value then
      var rest := Insert(v, s[1..]);
      InsertBehindHead(v, s, rest);
      [s[0]] + rest
    else
      SortedInFront(v, s);
      [v] + s
  }

  /** The step of `Insert` that keeps the head of `s` in front. */
  lemma InsertBehindHead(v: MeshValue, s: seq<MeshValue>, rest: seq<MeshValue>)
    requires s != [] && SortedDesc(s) && s[0].value > v.value
    requires SortedDesc(rest) && multiset(rest) == multiset{v} + multiset(s[1..])
    requires SameOrderPerValue(rest, [v] + s[1..])
    ensures SortedDesc([s[0]] + rest)
    ensures multiset([s[0]] + rest) == multiset{v} + multiset(s)
    ensures SameOrderPerValue([s[0]] + rest, [v] + s)
  {
    assert s == [s[0]] + s[1..];
    forall b | 0 <= b < |rest| ensures s[0].value >= rest[b].value {
      assert rest[b] in multiset(rest);
      if rest[b] != v {
        assert rest[b] in multiset(s[1..]);
        var t :| 0 <= t < |s[1..]| && s[1..][t] == rest[b];
        assert s[t + 1] == rest[b];
      }
    }
    SortedInFront(s[0], rest);
    forall x ensures WithValue([s[0]] + rest, x) == WithValue([v] + s, x) {
      InsertBehindHeadValue(v, s, rest, x);
    }
  }

  lemma InsertBehindHeadValue(v: MeshValue, s: seq<MeshValue>, rest: seq<MeshValue>, x: real)
    requires s != [] && s[0].value > v.value
    requires WithValue(rest, x) == WithValue([v] + s[1..], x)
    ensures WithValue([s[0]] + rest, x) == WithValue([v] + s, x)
  {
    assert s == [s[0]] + s[1..];
    WithValueCons(s[0], rest, x);
    WithValueCons(v, s[1..], x);
    WithValueCons(v, s, x);
    WithValueCons(s[0], s[1..], x);
  }

  /** The sort the source applies: insertion sort, stable, by value, largest first. */
  function SortDesc(s: seq<MeshValue>): (r: seq<MeshValue>)
    ensures SortedDesc(r)
    ensures multiset(r) == multiset(s)
    ensures SameOrderPerValue(r, s)
  {
    if s == [] then []
    else
      var rest := SortDesc(s[1..]);
      var r := Insert(s[0], rest);
      assert s == [s[0]] + s[1..];
      forall x ensures WithValue(r, x) == WithValue(s, x) {
        WithValueCons(s[0], rest, x);
        WithValueCons(s[0], s[1..], x);
      }
      r
  }

  lemma SortedHeadIsLargest(b: seq<MeshValue>, y: MeshValue)
    requires SortedDesc(b) && y in b
    ensures b[0].value >= y.value
  {
    var k :| 0 <= k < |b| && b[k] == y;
  }

  lemma SameOrderHeads(a: seq<MeshValue>, b: seq<MeshValue>)
    requires a != [] && b != [] && SortedDesc(a) && SortedDesc(b) && SameOrderPerValue(a, b)
    ensures a[0] == b[0]
  {
    var va, vb := a[0].value, b[0].value;
    WithValueMembers(a, va, a[0]);
    WithValueMembers(b, va, a[0]);
    SortedHeadIsLargest(b, a[0]);
    WithValueMembers(b, vb, b[0]);
    WithValueMembers(a, vb, b[0]);
    SortedHeadIsLargest(a, b[0]);
    assert va == vb;
    assert a == [a[0]] + a[1..] && b == [b[0]] + b[1..];
    WithValueCons(a[0], a[1..], va);
    WithValueCons(b[0], b[1..], va);
    assert WithValue(a, va)[0] == a[0];
    assert WithValue(b, va)[0] == b[0];
  }

  lemma SameOrderTails(a: seq<MeshValue>, b: seq<MeshValue>)
    requires a != [] && b != [] && a[0] == b[0] && SameOrderPerValue(a, b)
    ensures SameOrderPerValue(a[1..], b[1..])
  {
    assert a == [a[0]] + a[1..] && b == [b[0]] + b[1..];
    forall x ensures WithValue(a[1..], x) == WithValue(b[1..], x) {
      WithValueCons(a[0], a[1..], x);
      WithValueCons(b[0], b[1..], x);
      var p := if a[0].value == x then [a[0]] else [];
      assert p + WithValue(a[1..], x) == p + WithValue(b[1..], x);
      assert WithValue(a[1..], x) == (p + WithValue(a[1..], x))[|p|..];
      assert WithValue(b[1..], x) == (p + WithValue(b[1..], x))[|p|..];
    }
  }

  /** A sorted, stable arrangement is unique, so the sort agrees with every stable sort
      by descending value, as `Array.prototype.sort` is since ES2019. */
  lemma {:induction false} StableSortUnique(a: seq<MeshValue>, b: seq<MeshValue>)
    requires SortedDesc(a) && SortedDesc(b) && SameOrderPerValue(a, b)
    ensures a == b
    decreases |a|
  {
    if a == [] || b == [] {
      if a != [] {
        WithValueMembers(a, a[0].value, a[0]);
        WithValueMembers(b, a[0].value, a[0]);
      }
      if b != [] {
        WithValueMembers(b, b[0].value, b[0]);
        WithValueMembers(a, b[0].value, b[0]);
      }
    } else {
      SameOrderHeads(a, b);
      SameOrderTails(a, b);
      StableSortUnique(a[1..], b[1..]);
      assert a == [a[0]] + a[1..] && b == [b[0]] + b[1..];
    }
  }

  /** Records of one value keep their input order. */
  lemma SortAllEqual(s: seq<MeshValue>, x: real)
    requires forall k :: 0 <= k < |s| ==> s[k].value == x
    ensures SortDesc(s) == s
  {
    StableSortUnique(SortDesc(s), s);
  }

  // ---------------------------------------------------------------- truncation

  /** The end index `slice(0, k)` uses on a list of length `len`: a negative `k` counts
      from the end. */
  function SliceEnd(len: nat, k: int): (e: nat)
    ensures e <= len
  {
    if k >= 0 then (if k <= len then k else len)
    else if len + k >= 0 then len + k else 0
  }

  /** `isNaN(n) ? s : s.slice(0, n)`, with `None` for a NaN `n`. */
  function TakeBest(s: seq<MeshValue>, n: Option<int>): (r: seq<MeshValue>)
    ensures r <= s
  {
    match n
    case None => s
    case Some(k) => s[..SliceEnd(|s|, k)]
  }

  /** With no `n` the whole list is returned; with `n >= 0` the first min(n, length)
      records; with `n < 0` all but the last -n records. */
  lemma TakeBestLength(s: seq<MeshValue>, n: Option<int>)
    ensures n.None? ==> TakeBest(s, n) == s
    ensures n.Some? && n.value >= 0 ==> |TakeBest(s, n)| == if n.value <= |s| then n.value else |s|
    ensures n.Some? && n.value < 0 ==> |TakeBest(s, n)| == if |s| + n.value >= 0 then |s| + n.value else 0
  {
  }

  /** The result for `k` is a prefix of the result for `k + 1`. */
  lemma TakeBestMonotone(s: seq<MeshValue>, k: int)
    requires k >= 0
    ensures TakeBest(s, Some(k)) <= TakeBest(s, Some(k + 1))
  {
  }

  // ---------------------------------------------------------------- the whole computation

  /** The result of the view-spot computation on a mesh with these fields. */
  function BestNViewSpots(nodes: seq<MeshNode>, elements: seq<MeshElement>, values: seq<MeshValue>, n: Option<int>)
    : Result<seq<MeshValue>, ComputeError>
  {
    match MeshClassification(nodes, elements, values)
    case None => Failure(EmptyNeighbourhood)
    case Some(spots) => Success(TakeBest(SortDesc(KeepViewSpots(values, spots)), n))
  }

  /** The computation fails exactly when the element stored last under some id has no
      neighbour. When it succeeds,
      the full result is the unique list that is sorted by value, largest first, and
      holds the view-spot records of `values` with records of equal value in input
      order; a truncated result is a prefix of it. */
  lemma BestNViewSpotsCharacterised(nodes: seq<MeshNode>, elements: seq<MeshElement>, values: seq<MeshValue>, n: Option<int>)
    ensures BestNViewSpots(nodes, elements, values, n).Failure? <==> HasIsolatedElement(nodes, elements)
    ensures BestNViewSpots(nodes, elements, values, n).Success? ==>
      var all := BestNViewSpots(nodes, elements, values, None).value;
      SortedDesc(all) &&
      SameOrderPerValue(all, ViewSpotRecords(nodes, elements, values, values)) &&
      BestNViewSpots(nodes, elements, values, n).value <= all
  {
    ClassificationFailsIff(nodes, elements, values);
    var c := MeshClassification(nodes, elements, values);
    if c.Some? {
      forall id ensures id in c.value <==> exists i :: 0 <= i < |elements| && elements[i].id == id {
        ClassificationMarksViewSpots(nodes, elements, values, id);
      }
      forall id | id in c.value ensures c.value[id] <==> IsViewSpot(nodes, elements, values, id) {
        ClassificationMarksViewSpots(nodes, elements, values, id);
      }
      KeepIsViewSpotRecords(nodes, elements, values, c.value, values);
    }
  }

  lemma {:induction false} ViewSpotRecordsMembers(nodes: seq<MeshNode>, elements: seq<MeshElement>, values: seq<MeshValue>, rs: seq<MeshValue>)
    ensures forall v :: v in ViewSpotRecords(nodes, elements, values, rs) <==> v in rs && IsViewSpot(nodes, elements, values, v.elementId)
  {
    if rs != [] {
      ViewSpotRecordsMembers(nodes, elements, values, rs[1..]);
      assert forall v :: v in rs <==> v == rs[0] || v in rs[1..];
    }
  }

  /** Every returned record is a record of `values` for a view spot, an element no
      neighbour of which has a larger value; with no `n`, every such record is returned. */
  lemma BestNViewSpotsMembers(nodes: seq<MeshNode>, elements: seq<MeshElement>, values: seq<MeshValue>, n: Option<int>)
    requires BestNViewSpots(nodes, elements, values, n).Success?
    ensures forall v :: v in BestNViewSpots(nodes, elements, values, n).value ==>
      v in values && IsViewSpot(nodes, elements, values, v.elementId)
    ensures forall v :: v in values && IsViewSpot(nodes, elements, values, v.elementId) ==>
      v in BestNViewSpots(nodes, elements, values, None).value
  {
    BestNViewSpotsCharacterised(nodes, elements, values, n);
    ViewSpotRecordsMembers(nodes, elements, values, values);
    var all := BestNViewSpots(nodes, elements, values, None).value;
    var rs := ViewSpotRecords(nodes, elements, values, values);
    forall v ensures v in all <==> v in rs {
      WithValueMembers(all, v.value, v);
      WithValueMembers(rs, v.value, v);
    }
  }
}
