/** The mesh of six nodes and four triangles on which the repository's tests run, worked
    through the model step by step: node index, neighbourhoods, classification and result,
    for three sets of values (distinct, all equal, a tie between the two view spots). */
module Scenario {
  import opened MeshTypes
  import opened LastWins
  import opened Adjacency
  import opened Ranking

  function Nodes(): seq<MeshNode> {
    [MeshNode(0), MeshNode(1), MeshNode(2), MeshNode(3), MeshNode(4), MeshNode(5)]
  }

  function Elements(): seq<MeshElement> {
    [MeshElement(0, [0, 1, 3]), MeshElement(1, [0, 2, 3]), MeshElement(2, [2, 3, 4]), MeshElement(3, [2, 4, 5])]
  }

  /** One value record per element, in element order. */
  function ValuesOf(a: real, b: real, c: real, d: real): seq<MeshValue> {
    [MeshValue(0, a), MeshValue(1, b), MeshValue(2, c), MeshValue(3, d)]
  }

  /** The values of the regular mesh: elements 0 and 3 stand out. */
  function Values(): seq<MeshValue> {
    ValuesOf(0.9, 0.8, 0.5, 1.0)
  }

  /** The node index of the example mesh. */
  function Index(): map<int, seq<nat>> {
    map[0 := [0, 1], 1 := [0], 2 := [1, 2, 3], 3 := [0, 1, 2], 4 := [2, 3], 5 := [3]]
  }

  lemma NodeIdsAreZeroToFive()
    ensures NodeIds(Nodes()) == {0, 1, 2, 3, 4, 5}
  {
    var ns := Nodes();
    assert forall k :: 0 <= k < |ns| ==> ns[k].id == k;
    forall id ensures id in NodeIds(ns) <==> 0 <= id < 6 {
      if 0 <= id < 6 {
        assert ns[id].id == id;
      }
    }
  }

  lemma Touching0() ensures Touching(Elements(), 0) == [0, 1] {}
  lemma Touching1() ensures Touching(Elements(), 1) == [0] {}
  lemma Touching2() ensures Touching(Elements(), 2) == [1, 2, 3] {}
  lemma Touching3() ensures Touching(Elements(), 3) == [0, 1, 2] {}
  lemma Touching4() ensures Touching(Elements(), 4) == [2, 3] {}
  lemma Touching5() ensures Touching(Elements(), 5) == [3] {}

  lemma IndexKeys()
    ensures NodeIndex(Nodes(), Elements()).Keys == {0, 1, 2, 3, 4, 5}
  {
    NodeIdsAreZeroToFive();
  }

  lemma IndexAt(id: int)
    requires id in NodeIds(Nodes())
    ensures NodeIndex(Nodes(), Elements())[id] == Touching(Elements(), id)
  {
  }

  lemma At0()
    ensures 0 in NodeIndex(Nodes(), Elements()) && NodeIndex(Nodes(), Elements())[0] == [0, 1]
    { IndexKeys(); IndexAt(0); Touching0(); }
  lemma At1()
    ensures 1 in NodeIndex(Nodes(), Elements()) && NodeIndex(Nodes(), Elements())[1] == [0]
    { IndexKeys(); IndexAt(1); Touching1(); }
  lemma At2()
    ensures 2 in NodeIndex(Nodes(), Elements()) && NodeIndex(Nodes(), Elements())[2] == [1, 2, 3]
    { IndexKeys(); IndexAt(2); Touching2(); }
  lemma At3()
    ensures 3 in NodeIndex(Nodes(), Elements()) && NodeIndex(Nodes(), Elements())[3] == [0, 1, 2]
    { IndexKeys(); IndexAt(3); Touching3(); }
  lemma At4()
    ensures 4 in NodeIndex(Nodes(), Elements()) && NodeIndex(Nodes(), Elements())[4] == [2, 3]
    { IndexKeys(); IndexAt(4); Touching4(); }
  lemma At5()
    ensures 5 in NodeIndex(Nodes(), Elements()) && NodeIndex(Nodes(), Elements())[5] == [3]
    { IndexKeys(); IndexAt(5); Touching5(); }

  lemma IsIndex(m: map<int, seq<nat>>)
    requires m.Keys == {0, 1, 2, 3, 4, 5}
    requires m[0] == [0, 1] && m[1] == [0] && m[2] == [1, 2, 3]
    requires m[3] == [0, 1, 2] && m[4] == [2, 3] && m[5] == [3]
    ensures m == Index()
  {
  }

  /** Each node lists the elements that touch it. */
  lemma ExampleNodeIndex()
    ensures NodeIndex(Nodes(), Elements()) == Index()
  {
    IndexKeys();
    At0(); At1(); At2(); At3(); At4(); At5();
    IsIndex(NodeIndex(Nodes(), Elements()));
  }

  lemma Gather0() ensures Gather(Index(), [0, 1, 3]) == [0, 1, 0, 0, 1, 2] {
    assert Gather(Index(), [3]) == [0, 1, 2];
    assert Gather(Index(), [1, 3]) == [0, 0, 1, 2];
  }
  lemma Gather1() ensures Gather(Index(), [0, 2, 3]) == [0, 1, 1, 2, 3, 0, 1, 2] {
    assert Gather(Index(), [3]) == [0, 1, 2];
    assert Gather(Index(), [2, 3]) == [1, 2, 3, 0, 1, 2];
  }
  lemma Gather2() ensures Gather(Index(), [2, 3, 4]) == [1, 2, 3, 0, 1, 2, 2, 3] {
    assert Gather(Index(), [4]) == [2, 3];
    assert Gather(Index(), [3, 4]) == [0, 1, 2, 2, 3];
  }
  lemma Gather3() ensures Gather(Index(), [2, 4, 5]) == [1, 2, 3, 2, 3, 3] {
    assert Gather(Index(), [5]) == [3];
    assert Gather(Index(), [4, 5]) == [2, 3, 3];
  }

  lemma Add0() ensures AddAll([], [0, 1, 0, 0, 1, 2], 0) == [1, 2] {}
  lemma Add1a() ensures AddAll([], [0, 1, 1, 2], 1) == [0, 2] {}
  lemma Add1b() ensures AddAll([0, 2], [3, 0, 1, 2], 1) == [0, 2, 3] {}
  lemma Add1() ensures AddAll([], [0, 1, 1, 2, 3, 0, 1, 2], 1) == [0, 2, 3] {
    AddAllAppend([], [0, 1, 1, 2], [3, 0, 1, 2], 1);
    Add1a(); Add1b();
  }
  lemma Add2a() ensures AddAll([], [1, 2, 3, 0], 2) == [1, 3, 0] {}
  lemma Add2b() ensures AddAll([1, 3, 0], [1, 2, 2, 3], 2) == [1, 3, 0] {}
  lemma Add2() ensures AddAll([], [1, 2, 3, 0, 1, 2, 2, 3], 2) == [1, 3, 0] {
    AddAllAppend([], [1, 2, 3, 0], [1, 2, 2, 3], 2);
    Add2a(); Add2b();
  }
  lemma Add3() ensures AddAll([], [1, 2, 3, 2, 3, 3], 3) == [1, 2] {}

  lemma List0() ensures NeighbourList(Index(), Elements(), 0) == [1, 2] { Gather0(); Add0(); }
  lemma List1() ensures NeighbourList(Index(), Elements(), 1) == [0, 2, 3] { Gather1(); Add1(); }
  lemma List2() ensures NeighbourList(Index(), Elements(), 2) == [1, 3, 0] { Gather2(); Add2(); }
  lemma List3() ensures NeighbourList(Index(), Elements(), 3) == [1, 2] { Gather3(); Add3(); }

  /** The neighbourhood map of the example mesh. */
  function Nbh(): map<int, seq<nat>> {
    map[0 := [1, 2], 1 := [0, 2, 3], 2 := [1, 3, 0], 3 := [1, 2]]
  }

  lemma Pairs()
    ensures NeighbourhoodPairs(Index(), Elements()) == [(0, [1, 2]), (1, [0, 2, 3]), (2, [1, 3, 0]), (3, [1, 2])]
  {
    List0(); List1(); List2(); List3();
  }

  lemma AssignPairs(ps: seq<(int, seq<nat>)>)
    requires ps == [(0, [1, 2]), (1, [0, 2, 3]), (2, [1, 3, 0]), (3, [1, 2])]
    ensures Assign(ps) == Nbh()
  {
    assert ps[..3][..2][..1][..0] == [];
    AssignStep(ps, 0); AssignStep(ps, 1); AssignStep(ps, 2); AssignStep(ps, 3);
    assert ps[..4] == ps;
  }

  lemma NeighbourhoodsOfIndex(adj: map<int, seq<nat>>)
    requires adj == Index()
    ensures Neighbourhoods(adj, Elements()) == Nbh()
  {
    Pairs();
    AssignPairs(NeighbourhoodPairs(adj, Elements()));
  }

  /** Each element's neighbours, in the order the source finds them. */
  lemma ExampleNeighbourhoods()
    ensures Neighbourhoods(NodeIndex(Nodes(), Elements()), Elements()) == Nbh()
  {
    ExampleNodeIndex();
    NeighbourhoodsOfIndex(NodeIndex(Nodes(), Elements()));
  }

  /** The value map of a mesh with one value record per element. */
  function VMap(a: real, b: real, c: real, d: real): map<int, real> {
    map[0 := a, 1 := b, 2 := c, 3 := d]
  }

  lemma AssignValues(ps: seq<(int, real)>, a: real, b: real, c: real, d: real)
    requires ps == [(0, a), (1, b), (2, c), (3, d)]
    ensures Assign(ps) == VMap(a, b, c, d)
  {
    assert ps[..3][..2][..1][..0] == [];
    AssignStep(ps, 0); AssignStep(ps, 1); AssignStep(ps, 2); AssignStep(ps, 3);
    assert ps[..4] == ps;
  }

  /** Each element gets the value of its one record. */
  lemma ExampleValueMap(a: real, b: real, c: real, d: real)
    ensures ValueMap(ValuesOf(a, b, c, d)) == VMap(a, b, c, d)
  {
    AssignValues(ValuePairs(ValuesOf(a, b, c, d)), a, b, c, d);
  }

  /** Each element against its neighbours. */
  lemma Peak0(a: real, b: real, c: real, d: real)
    ensures IsPeak(VMap(a, b, c, d), Elements(), 0, [1, 2]) <==> b <= a && c <= a
  {
    assert 1 in [1, 2] && 2 in [1, 2];
  }

  lemma Peak1(a: real, b: real, c: real, d: real)
    ensures IsPeak(VMap(a, b, c, d), Elements(), 1, [0, 2, 3]) <==> a <= b && c <= b && d <= b
  {
    assert 0 in [0, 2, 3] && 2 in [0, 2, 3] && 3 in [0, 2, 3];
  }

  lemma Peak2(a: real, b: real, c: real, d: real)
    ensures IsPeak(VMap(a, b, c, d), Elements(), 2, [1, 3, 0]) <==> b <= c && d <= c && a <= c
  {
    assert 1 in [1, 3, 0] && 3 in [1, 3, 0] && 0 in [1, 3, 0];
  }

  lemma Peak3(a: real, b: real, c: real, d: real)
    ensures IsPeak(VMap(a, b, c, d), Elements(), 3, [1, 2]) <==> b <= d && c <= d
  {
    assert 1 in [1, 2] && 2 in [1, 2];
  }

  /** The classification of the example mesh for values a, b, c, d. */
  function SpotsOf(a: real, b: real, c: real, d: real): map<int, bool> {
    map[0 := b <= a && c <= a, 1 := a <= b && c <= b && d <= b, 2 := b <= c && d <= c && a <= c, 3 := b <= d && c <= d]
  }


  lemma NoEmptyNeighbourhood(nbh: map<int, seq<nat>>)
    requires nbh == Nbh()
    ensures !exists id :: id in nbh && nbh[id] == []
  {
  }

  function Marks(vmap: map<int, real>, nbh: map<int, seq<nat>>): map<int, bool>
    requires InRange(Elements(), nbh)
  {
    map id | id in nbh :: IsPeak(vmap, Elements(), id, nbh[id])
  }

  lemma MarksAt(vmap: map<int, real>, nbh: map<int, seq<nat>>, id: int)
    requires InRange(Elements(), nbh) && id in nbh
    ensures id in Marks(vmap, nbh) && Marks(vmap, nbh)[id] == IsPeak(vmap, Elements(), id, nbh[id])
  {
  }

  lemma FourMarks(m: map<int, bool>, p0: bool, p1: bool, p2: bool, p3: bool)
    requires m.Keys == {0, 1, 2, 3} && m[0] == p0 && m[1] == p1 && m[2] == p2 && m[3] == p3
    ensures m == map[0 := p0, 1 := p1, 2 := p2, 3 := p3]
  {
  }

  lemma MarksShape(vmap: map<int, real>, nbh: map<int, seq<nat>>)
    requires InRange(Elements(), nbh) && nbh.Keys == {0, 1, 2, 3}
    requires nbh[0] == [1, 2] && nbh[1] == [0, 2, 3] && nbh[2] == [1, 3, 0] && nbh[3] == [1, 2]
    ensures Marks(vmap, nbh) ==
      map[0 := IsPeak(vmap, Elements(), 0, [1, 2]), 1 := IsPeak(vmap, Elements(), 1, [0, 2, 3]),
          2 := IsPeak(vmap, Elements(), 2, [1, 3, 0]), 3 := IsPeak(vmap, Elements(), 3, [1, 2])]
  {
    var m := Marks(vmap, nbh);
    assert m.Keys == nbh.Keys;
    MarksAt(vmap, nbh, 0); MarksAt(vmap, nbh, 1); MarksAt(vmap, nbh, 2); MarksAt(vmap, nbh, 3);
    FourMarks(m, IsPeak(vmap, Elements(), 0, [1, 2]), IsPeak(vmap, Elements(), 1, [0, 2, 3]),
      IsPeak(vmap, Elements(), 2, [1, 3, 0]), IsPeak(vmap, Elements(), 3, [1, 2]));
  }

  lemma MarksOf(vmap: map<int, real>, nbh: map<int, seq<nat>>, a: real, b: real, c: real, d: real)
    requires vmap == VMap(a, b, c, d) && nbh == Nbh()
    ensures Marks(vmap, nbh) == SpotsOf(a, b, c, d)
  {
    MarksShape(vmap, nbh);
    Peak0(a, b, c, d); Peak1(a, b, c, d); Peak2(a, b, c, d); Peak3(a, b, c, d);
  }

  lemma ClassifyNbh(vmap: map<int, real>, nbh: map<int, seq<nat>>, a: real, b: real, c: real, d: real)
    requires vmap == VMap(a, b, c, d) && nbh == Nbh()
    ensures Classification(vmap, Elements(), nbh) == Some(SpotsOf(a, b, c, d))
  {
    NoEmptyNeighbourhood(nbh);
    MarksOf(vmap, nbh, a, b, c, d);
  }

  /** No element of the example mesh is isolated, so the classification succeeds; an
      element is a view spot when no neighbour has a larger value. */
  lemma ExampleClassification(a: real, b: real, c: real, d: real)
    ensures MeshClassification(Nodes(), Elements(), ValuesOf(a, b, c, d)) == Some(SpotsOf(a, b, c, d))
  {
    ExampleNeighbourhoods();
    ExampleValueMap(a, b, c, d);
    ClassifyNbh(ValueMap(ValuesOf(a, b, c, d)), Neighbourhoods(NodeIndex(Nodes(), Elements()), Elements()), a, b, c, d);
  }

  lemma ResultOf(c: Option<map<int, bool>>, values: seq<MeshValue>, best: seq<MeshValue>, n: Option<int>)
    requires c.Some? && SortDesc(KeepViewSpots(values, c.value)) == best
    ensures TakeBest(SortDesc(KeepViewSpots(values, c.value)), n) == TakeBest(best, n)
  {
  }

  // ---------------------------------------------------------------- distinct values

  /** The two view spots of the regular mesh, highest value first. */
  function Best(): seq<MeshValue> {
    [MeshValue(3, 1.0), MeshValue(0, 0.9)]
  }

  lemma RegularKept()
    ensures KeepViewSpots(Values(), map[0 := true, 1 := false, 2 := false, 3 := true]) == [MeshValue(0, 0.9), MeshValue(3, 1.0)]
  {
  }

  lemma RegularOrder()
    ensures SortDesc([MeshValue(0, 0.9), MeshValue(3, 1.0)]) == Best()
  {
  }

  lemma RegularSorted(spots: map<int, bool>)
    requires spots == SpotsOf(0.9, 0.8, 0.5, 1.0)
    ensures SortDesc(KeepViewSpots(Values(), spots)) == Best()
  {
    assert spots == map[0 := true, 1 := false, 2 := false, 3 := true];
    RegularKept();
    RegularOrder();
  }

  /** The whole computation on the regular mesh, for any `n`: the two view spots, highest
      value first, truncated as `n` asks. */
  lemma ExampleBestNViewSpots(n: Option<int>)
    ensures BestNViewSpots(Nodes(), Elements(), Values(), n) == Success(TakeBest(Best(), n))
  {
    ExampleClassification(0.9, 0.8, 0.5, 1.0);
    RegularSorted(SpotsOf(0.9, 0.8, 0.5, 1.0));
    ResultOf(MeshClassification(Nodes(), Elements(), Values()), Values(), Best(), n);
  }

  lemma Truncations(s: seq<MeshValue>)
    requires s == Best()
    ensures TakeBest(s, Some(1)) == [MeshValue(3, 1.0)]
    ensures TakeBest(s, Some(3)) == s
    ensures TakeBest(s, Some(-1)) == [MeshValue(3, 1.0)]
    ensures TakeBest(s, Some(0)) == []
  {
  }

  /** The results the repository's tests expect of the regular mesh: both view spots with
      no `n`, the best one for `n = 1`, both when `n` exceeds their number. */
  lemma ExampleCalls()
    ensures BestNViewSpots(Nodes(), Elements(), Values(), None) == Success(Best())
    ensures BestNViewSpots(Nodes(), Elements(), Values(), Some(1)) == Success([MeshValue(3, 1.0)])
    ensures BestNViewSpots(Nodes(), Elements(), Values(), Some(3)) == Success(Best())
  {
    ExampleBestNViewSpots(None);
    ExampleBestNViewSpots(Some(1));
    ExampleBestNViewSpots(Some(3));
    Truncations(Best());
  }

  // ---------------------------------------------------------------- all values equal

  lemma PlaneKept()
    ensures KeepViewSpots(ValuesOf(0.0, 0.0, 0.0, 0.0), map[0 := true, 1 := true, 2 := true, 3 := true]) == ValuesOf(0.0, 0.0, 0.0, 0.0)
  {
  }

  /** A list of equal values is already in the one stable order. */
  lemma PlaneOrder()
    ensures SortDesc(ValuesOf(0.0, 0.0, 0.0, 0.0)) == ValuesOf(0.0, 0.0, 0.0, 0.0)
  {
    SortAllEqual(ValuesOf(0.0, 0.0, 0.0, 0.0), 0.0);
  }

  lemma PlaneSorted(spots: map<int, bool>)
    requires spots == SpotsOf(0.0, 0.0, 0.0, 0.0)
    ensures SortDesc(KeepViewSpots(ValuesOf(0.0, 0.0, 0.0, 0.0), spots)) == ValuesOf(0.0, 0.0, 0.0, 0.0)
  {
    assert spots == map[0 := true, 1 := true, 2 := true, 3 := true];
    PlaneKept();
    PlaneOrder();
  }

  /** On a flat mesh every element is a view spot, ties counting, and all four records come
      back in input order. */
  lemma ExamplePlane()
    ensures BestNViewSpots(Nodes(), Elements(), ValuesOf(0.0, 0.0, 0.0, 0.0), None) == Success(ValuesOf(0.0, 0.0, 0.0, 0.0))
  {
    ExampleClassification(0.0, 0.0, 0.0, 0.0);
    PlaneSorted(SpotsOf(0.0, 0.0, 0.0, 0.0));
    ResultOf(MeshClassification(Nodes(), Elements(), ValuesOf(0.0, 0.0, 0.0, 0.0)),
      ValuesOf(0.0, 0.0, 0.0, 0.0), ValuesOf(0.0, 0.0, 0.0, 0.0), None);
  }

  // ---------------------------------------------------------------- two spots tied

  lemma TiedKept()
    ensures KeepViewSpots(ValuesOf(1.0, 0.8, 0.5, 1.0), map[0 := true, 1 := false, 2 := false, 3 := true]) == [MeshValue(0, 1.0), MeshValue(3, 1.0)]
  {
  }

  lemma TiedOrder()
    ensures SortDesc([MeshValue(0, 1.0), MeshValue(3, 1.0)]) == [MeshValue(0, 1.0), MeshValue(3, 1.0)]
  {
  }

  lemma TiedSorted(spots: map<int, bool>)
    requires spots == SpotsOf(1.0, 0.8, 0.5, 1.0)
    ensures SortDesc(KeepViewSpots(ValuesOf(1.0, 0.8, 0.5, 1.0), spots)) == [MeshValue(0, 1.0), MeshValue(3, 1.0)]
  {
    assert spots == map[0 := true, 1 := false, 2 := false, 3 := true];
    TiedKept();
    TiedOrder();
  }

  /** Two view spots of equal value come back in input order. */
  lemma ExampleTied()
    ensures BestNViewSpots(Nodes(), Elements(), ValuesOf(1.0, 0.8, 0.5, 1.0), None) == Success([MeshValue(0, 1.0), MeshValue(3, 1.0)])
  {
    ExampleClassification(1.0, 0.8, 0.5, 1.0);
    TiedSorted(SpotsOf(1.0, 0.8, 0.5, 1.0));
    ResultOf(MeshClassification(Nodes(), Elements(), ValuesOf(1.0, 0.8, 0.5, 1.0)),
      ValuesOf(1.0, 0.8, 0.5, 1.0), [MeshValue(0, 1.0), MeshValue(3, 1.0)], None);
  }

  // ---------------------------------------------------------------- an id borne twice

  function TwoNodes(): seq<MeshNode> {
    [MeshNode(0), MeshNode(1)]
  }

  /** The first two elements share id 0; the first touches no other element. */
  function SharedIdElements(): seq<MeshElement> {
    [MeshElement(0, [0]), MeshElement(0, [1]), MeshElement(1, [1])]
  }

  /** The element at position 0 has no neighbour, but the neighbourhood `set` under its
      id is overwritten by that of position 1, so the reduction never sees the empty set
      and the computation succeeds for any values and any `n`. */
  lemma ExampleShadowedIsolation(values: seq<MeshValue>, n: Option<int>)
    ensures Neighbours(TwoNodes(), SharedIdElements(), 0) == {}
    ensures BestNViewSpots(TwoNodes(), SharedIdElements(), values, n).Success?
  {
    var nodes, es := TwoNodes(), SharedIdElements();
    assert nodes[1].id == 1;
    assert 1 in NodeIds(nodes);
    forall j: nat ensures j !in Neighbours(nodes, es, 0) {
      if j < |es| && j != 0 {
        assert es[j].nodes == [1];
      }
    }
    assert !IsLastWithId(es, 0) by { assert es[1].id == es[0].id; }
    forall i | IsLastWithId(es, i) ensures Neighbours(nodes, es, i) != {} {
      if i == 1 {
        assert SharesKnownNode(nodes, es[1], es[2]) by { assert es[1].nodes[0] == 1; }
        assert 2 in Neighbours(nodes, es, 1);
      } else {
        assert SharesKnownNode(nodes, es[2], es[1]) by { assert es[2].nodes[0] == 1; }
        assert 1 in Neighbours(nodes, es, 2);
      }
    }
    BestNViewSpotsCharacterised(nodes, es, values, n);
  }
}
