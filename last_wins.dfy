/** Maps filled by a sequence of `Map.set(key, value)` calls: a later call for a key
    overwrites an earlier one. */
module LastWins {

  /** The map left by setting `ps[0].0` to `ps[0].1`, then `ps[1].0` to `ps[1].1`, and so on. */
  function Assign<V>(ps: seq<(int, V)>): map<int, V>
  {
    if ps == [] then map[] else Assign(ps[..|ps| - 1])[ps[|ps| - 1].0 := ps[|ps| - 1].1]
  }

  /** `i` is the last position of `ps` that sets key `ps[i].0`. */
  predicate IsLastFor<V>(ps: seq<(int, V)>, i: int) {
    0 <= i < |ps| && forall j :: i < j < |ps| ==> ps[j].0 != ps[i].0
  }

  /** One more `set` call extends the map of the shorter prefix. */
  lemma AssignStep<V>(ps: seq<(int, V)>, i: nat)
    requires i < |ps|
    ensures Assign(ps[..i + 1]) == Assign(ps[..i])[ps[i].0 := ps[i].1]
  {
    assert ps[..i + 1][..i] == ps[..i];
  }

  /** A key is in the map exactly when some call set it. */
  lemma {:induction false} AssignKeys<V>(ps: seq<(int, V)>, k: int)
    ensures k in Assign(ps) <==> exists i :: 0 <= i < |ps| && ps[i].0 == k
  {
    if ps != [] {
      var init := ps[..|ps| - 1];
      AssignKeys(init, k);
      if k in Assign(init) {
        var i :| 0 <= i < |init| && init[i].0 == k;
        assert ps[i].0 == k;
      }
      if exists i :: 0 <= i < |ps| && ps[i].0 == k {
        var i :| 0 <= i < |ps| && ps[i].0 == k;
        if i < |ps| - 1 {
          assert init[i].0 == k;
        }
      }
    }
  }

  /** The map holds, for each key, the value of the last call that set it. */
  lemma {:induction false} AssignLast<V>(ps: seq<(int, V)>, i: int)
    requires IsLastFor(ps, i)
    ensures ps[i].0 in Assign(ps) && Assign(ps)[ps[i].0] == ps[i].1
  {
    if i < |ps| - 1 {
      var init := ps[..|ps| - 1];
      assert init[i] == ps[i];
      assert IsLastFor(init, i) by {
        forall j | i < j < |init| ensures init[j].0 != init[i].0 {
          assert init[j] == ps[j];
        }
      }
      AssignLast(init, i);
    }
  }

  /** Every value in the map was set by some call for that key. */
  lemma {:induction false} AssignValues<V>(ps: seq<(int, V)>, k: int)
    requires k in Assign(ps)
    ensures exists i :: IsLastFor(ps, i) && ps[i].0 == k && Assign(ps)[k] == ps[i].1
  {
    var last := |ps| - 1;
    if ps[last].0 == k {
      assert IsLastFor(ps, last);
    } else {
      var init := ps[..last];
      AssignValues(init, k);
      var i :| IsLastFor(init, i) && init[i].0 == k && Assign(init)[k] == init[i].1;
      assert ps[i] == init[i];
      assert IsLastFor(ps, i) by {
        forall j | i < j < |ps| ensures ps[j].0 != ps[i].0 {
          if j < last { assert init[j] == ps[j]; }
        }
      }
    }
  }
}
